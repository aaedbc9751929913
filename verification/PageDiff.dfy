/** The page-diff engine: a word-strided scan that merges runs of changed words,
    trims both ends and handles the byte tail, and the in-place patch. */
module PageDiff {

  type byte = x: int | 0 <= x < 256
  type Page = seq<byte>

  datatype Chunk = Chunk(offset: nat, bytes: seq<byte>)

  datatype PageDiffList = PageDiffList(pageVaddr: nat, pageSize: nat, chunks: seq<Chunk>)

  datatype DiffError =
    | SizeMismatch(dirtyLen: nat, baseLen: nat)
    | OutOfBoundsPatch(offset: nat, len: nat, pageLen: nat)

  datatype Result<T> = Ok(value: T) | Err(error: DiffError)

  const WORD: nat := 8
  const U32: nat := 0x1_0000_0000

  /** The byte range a chunk was cut from. */
  datatype Span = Span(start: nat, end: nat)

  // ---------- What a diff is ----------

  ghost predicate EqualWord(d: Page, b: Page, w: nat)
    requires |d| == |b| && 8 * w + 8 <= |d|
  {
    forall i :: 8 * w <= i < 8 * w + 8 ==> d[i] == b[i]
  }

  /** The end of the region that is compared word by word. */
  function WordEnd(n: nat): (r: nat)
    ensures r <= n < r + 8
  {
    8 * (n / 8)
  }

  /** A span starts and ends on a changed byte. In the word region every word it
      touches has changed; in the tail it is one byte. */
  ghost predicate SpanOk(s: Span, d: Page, b: Page)
    requires |d| == |b|
  {
    && s.start < s.end <= |d|
    && d[s.start] != b[s.start]
    && d[s.end - 1] != b[s.end - 1]
    && if s.end <= WordEnd(|d|)
       then forall w :: s.start / 8 <= w <= (s.end - 1) / 8 ==> !EqualWord(d, b, w)
       else WordEnd(|d|) <= s.start && s.end == s.start + 1
  }

  /** A span and a later one: ordered, and in the word region an unchanged word lies
      between them. */
  ghost predicate Apart(s: Span, t: Span, d: Page, b: Page)
    requires |d| == |b|
  {
    && s.end <= t.start <= t.end
    && (t.end <= WordEnd(|d|) ==> EqualWordBetween(d, b, s.end, t.start))
  }

  ghost predicate EqualWordBetween(d: Page, b: Page, lo: nat, hi: nat)
    requires |d| == |b| && hi <= |d|
  {
    exists w :: lo <= 8 * w && 8 * w + 8 <= hi && EqualWord(d, b, w)
  }

  ghost predicate Covered(spans: seq<Span>, i: nat) {
    exists k :: 0 <= k < |spans| && spans[k].start <= i < spans[k].end
  }

  ghost predicate AllWithin(spans: seq<Span>, d: Page, b: Page, lo: nat, hi: nat)
    requires |d| == |b|
  {
    forall k :: 0 <= k < |spans| ==> lo <= spans[k].start && spans[k].end <= hi && SpanOk(spans[k], d, b)
  }

  ghost predicate Ordered(spans: seq<Span>, d: Page, b: Page)
    requires |d| == |b|
  {
    forall j, k :: 0 <= j < k < |spans| ==> Apart(spans[j], spans[k], d, b)
  }

  ghost predicate Complete(spans: seq<Span>, d: Page, b: Page, lo: nat, hi: nat)
    requires |d| == |b| && hi <= |d|
  {
    forall i {:trigger Covered(spans, i)} :: lo <= i < hi && d[i] != b[i] ==> Covered(spans, i)
  }

  /** The canonical diff of d against b over the bytes lo..hi. */
  ghost predicate Shape(spans: seq<Span>, d: Page, b: Page, lo: nat, hi: nat)
    requires |d| == |b| && hi <= |d|
  {
    AllWithin(spans, d, b, lo, hi) && Ordered(spans, d, b) && Complete(spans, d, b, lo, hi)
  }

  ghost predicate Canonical(spans: seq<Span>, d: Page, b: Page) {
    |d| == |b| && Shape(spans, d, b, 0, |d|)
  }

  /** Chunk offsets are 32-bit. */
  function ChunkOf(s: Span, d: Page): Chunk
    requires s.start <= s.end <= |d|
  {
    Chunk(s.start % U32, d[s.start..s.end])
  }

  ghost function Encode(spans: seq<Span>, d: Page): (r: seq<Chunk>)
    requires forall k :: 0 <= k < |spans| ==> spans[k].start <= spans[k].end <= |d|
    ensures |r| == |spans| && forall k :: 0 <= k < |r| ==> r[k] == ChunkOf(spans[k], d)
  {
    if spans == [] then [] else Encode(spans[..|spans| - 1], d) + [ChunkOf(spans[|spans| - 1], d)]
  }

  // ---------- Computing the diff ----------

  /** Trims the equal bytes at both ends of a run of changed words. */
  method Trim(d: Page, b: Page, lo: nat, hi: nat) returns (s: nat, e: nat)
    requires |d| == |b| && lo < hi <= |d|
    requires exists i :: lo <= i < hi && d[i] != b[i]
    ensures lo <= s < e <= hi && d[s] != b[s] && d[e - 1] != b[e - 1]
    ensures forall i :: lo <= i < s || e <= i < hi ==> d[i] == b[i]
  {
    s := lo;
    while s < hi && d[s] == b[s]
      invariant lo <= s <= hi
      invariant forall i :: lo <= i < s ==> d[i] == b[i]
    {
      s := s + 1;
    }
    e := hi;
    while e > s && d[e - 1] == b[e - 1]
      invariant s <= e <= hi
      invariant forall i :: e <= i < hi ==> d[i] == b[i]
    {
      e := e - 1;
    }
  }

  /** The next word may start a new span: it is equal, or an equal word has passed
      since the last span. */
  ghost predicate Resumable(spans: seq<Span>, d: Page, b: Page, w: nat)
    requires |d| == |b| && 8 * w <= WordEnd(|d|)
  {
    spans == []
    || (8 * w < WordEnd(|d|) ==> EqualWord(d, b, w))
    || exists v :: spans[|spans| - 1].end <= 8 * v && v < w && EqualWord(d, b, v)
  }

  /** Appending the trimmed span of a maximal run of changed words. */
  lemma AppendRun(spans: seq<Span>, d: Page, b: Page, s: Span, first: nat, w: nat)
    requires |d| == |b| && first < w && 8 * w <= WordEnd(|d|)
    requires Shape(spans, d, b, 0, 8 * first) && Resumable(spans, d, b, first)
    requires forall v :: first <= v < w ==> !EqualWord(d, b, v)
    requires 8 * first <= s.start < s.end <= 8 * w && d[s.start] != b[s.start] && d[s.end - 1] != b[s.end - 1]
    requires forall i :: 8 * first <= i < s.start || s.end <= i < 8 * w ==> d[i] == b[i]
    requires 8 * w < WordEnd(|d|) ==> EqualWord(d, b, w)
    ensures Shape(spans + [s], d, b, 0, 8 * w) && Resumable(spans + [s], d, b, w)
    ensures Encode(spans + [s], d) == Encode(spans, d) + [ChunkOf(s, d)]
  {
    assert SpanOk(s, d, b);
    AppendSpan(spans, d, b, s, 8 * first, 8 * w);
    AppendEncode(spans, s, d);
  }

  lemma AppendSpan(spans: seq<Span>, d: Page, b: Page, s: Span, lo: nat, hi: nat)
    requires |d| == |b| && lo <= s.start < s.end <= hi <= |d|
    requires Shape(spans, d, b, 0, lo) && SpanOk(s, d, b)
    requires spans == [] || Apart(spans[|spans| - 1], s, d, b)
    requires forall i :: lo <= i < s.start || s.end <= i < hi ==> d[i] == b[i]
    ensures Shape(spans + [s], d, b, 0, hi)
  {
    var all := spans + [s];
    forall j, k | 0 <= j < k < |all| ensures Apart(all[j], all[k], d, b) {
      if k < |spans| {
        assert all[j] == spans[j] && all[k] == spans[k];
      } else if j < |spans| - 1 {
        assert Apart(spans[j], spans[|spans| - 1], d, b);
        ApartThrough(all[j], spans[|spans| - 1], s, d, b);
      }
    }
    forall i | 0 <= i < hi && d[i] != b[i] ensures Covered(all, i) {
      AppendCovers(spans, s, i);
      assert i < lo ==> Covered(spans, i);
    }
  }

  lemma ApartThrough(s: Span, t: Span, u: Span, d: Page, b: Page)
    requires |d| == |b| && s.end <= t.end && Apart(t, u, d, b) && u.start <= |d|
    ensures Apart(s, u, d, b)
  {
  }

  lemma AppendCovers(spans: seq<Span>, s: Span, i: nat)
    ensures Covered(spans + [s], i) <==> Covered(spans, i) || s.start <= i < s.end
  {
    var all := spans + [s];
    assert all[|spans|] == s;
    if Covered(spans, i) {
      var k :| 0 <= k < |spans| && spans[k].start <= i < spans[k].end;
      assert all[k] == spans[k];
    }
  }

  /** The 64-bit comparison of one word. */
  predicate WordDiffers(d: Page, b: Page, w: nat)
    requires |d| == |b| && 8 * w + 8 <= |d|
    ensures WordDiffers(d, b, w) <==> !EqualWord(d, b, w)
  {
    var x, y := d[8 * w..8 * w + 8], b[8 * w..8 * w + 8];
    assert forall i :: 8 * w <= i < 8 * w + 8 ==> d[i] == x[i - 8 * w] && b[i] == y[i - 8 * w];
    x != y
  }

  lemma SkipEqual(spans: seq<Span>, d: Page, b: Page, lo: nat, hi: nat)
    requires |d| == |b| && lo <= hi <= |d| && Shape(spans, d, b, 0, lo)
    requires forall i :: lo <= i < hi ==> d[i] == b[i]
    ensures Shape(spans, d, b, 0, hi)
  {
  }

  lemma SkipWord(spans: seq<Span>, d: Page, b: Page, w: nat)
    requires |d| == |b| && 8 * w < WordEnd(|d|) && Shape(spans, d, b, 0, 8 * w) && EqualWord(d, b, w)
    ensures Shape(spans, d, b, 0, 8 * (w + 1)) && Resumable(spans, d, b, w + 1)
  {
    SkipEqual(spans, d, b, 8 * w, 8 * w + 8);
  }

  lemma AppendEncode(spans: seq<Span>, s: Span, d: Page)
    requires forall k :: 0 <= k < |spans| ==> spans[k].start <= spans[k].end <= |d|
    requires s.start <= s.end <= |d|
    ensures Encode(spans + [s], d) == Encode(spans, d) + [ChunkOf(s, d)]
  {
    assert (spans + [s])[..|spans|] == spans;
  }

  /** The look-ahead loop: the first unchanged word after a changed one. */
  method RunEnd(d: Page, b: Page, first: nat) returns (w: nat)
    requires |d| == |b| && first < |d| / 8 && !EqualWord(d, b, first)
    ensures first < w <= |d| / 8
    ensures forall v :: first <= v < w ==> !EqualWord(d, b, v)
    ensures w < |d| / 8 ==> EqualWord(d, b, w)
  {
    w := first + 1;
    while w < |d| / 8 && WordDiffers(d, b, w)
      invariant first < w <= |d| / 8
      invariant forall v :: first <= v < w ==> !EqualWord(d, b, v)
    {
      w := w + 1;
    }
  }

  /** The word loop: runs of changed words become trimmed chunks. */
  method ScanWords(d: Page, b: Page) returns (chunks: seq<Chunk>, ghost spans: seq<Span>)
    requires |d| == |b|
    ensures Shape(spans, d, b, 0, WordEnd(|d|)) && chunks == Encode(spans, d)
  {
    chunks, spans := [], [];
    var w := 0;
    while w < |d| / 8
      invariant w <= |d| / 8
      invariant Shape(spans, d, b, 0, 8 * w) && chunks == Encode(spans, d)
      invariant Resumable(spans, d, b, w)
    {
      if WordDiffers(d, b, w) {
        var first := w;
        w := RunEnd(d, b, first);
        var s, e := Trim(d, b, 8 * first, 8 * w);
        AppendRun(spans, d, b, Span(s, e), first, w);
        chunks := chunks + [ChunkOf(Span(s, e), d)];
        spans := spans + [Span(s, e)];
      } else {
        SkipWord(spans, d, b, w);
        w := w + 1;
      }
    }
  }

  lemma AppendByte(spans: seq<Span>, d: Page, b: Page, i: nat)
    requires |d| == |b| && WordEnd(|d|) <= i < |d| && d[i] != b[i]
    requires Shape(spans, d, b, 0, i)
    ensures Shape(spans + [Span(i, i + 1)], d, b, 0, i + 1)
    ensures Encode(spans + [Span(i, i + 1)], d) == Encode(spans, d) + [Chunk(i % U32, [d[i]])]
  {
    AppendSpan(spans, d, b, Span(i, i + 1), i, i + 1);
    AppendEncode(spans, Span(i, i + 1), d);
    assert d[i..i + 1] == [d[i]];
  }

  /** The byte loop over the tail: one chunk for each changed byte. */
  method ScanTail(d: Page, b: Page, chunks: seq<Chunk>, ghost spans: seq<Span>)
      returns (chunks': seq<Chunk>, ghost spans': seq<Span>)
    requires |d| == |b| && Shape(spans, d, b, 0, WordEnd(|d|)) && chunks == Encode(spans, d)
    ensures Canonical(spans', d, b) && chunks' == Encode(spans', d)
  {
    chunks', spans' := chunks, spans;
    for i := WordEnd(|d|) to |d|
      invariant Shape(spans', d, b, 0, i) && chunks' == Encode(spans', d)
    {
      if d[i] != b[i] {
        AppendByte(spans', d, b, i);
        chunks' := chunks' + [Chunk(i % U32, [d[i]])];
        spans' := spans' + [Span(i, i + 1)];
      } else {
        SkipEqual(spans', d, b, i, i + 1);
      }
    }
  }

  method ComputeDiff(pageVaddr: nat, d: Page, b: Page) returns (r: Result<PageDiffList>)
    ensures |d| != |b| ==> r == Err(SizeMismatch(|d|, |b|))
    ensures |d| == |b| ==> r.Ok? && exists spans ::
      Canonical(spans, d, b) && r.value == PageDiffList(pageVaddr, |d|, Encode(spans, d))
  {
    if |d| != |b| {
      return Err(SizeMismatch(|d|, |b|));
    }
    var words, spans := ScanWords(d, b);
    var chunks, spans' := ScanTail(d, b, words, spans);
    r := Ok(PageDiffList(pageVaddr, |d|, chunks));
  }
}
