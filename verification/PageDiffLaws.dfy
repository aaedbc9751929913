/** The shape of a page diff: it is unique, its word-region chunks are at least a
    word apart, and it carries at most eight bytes for each byte that changed. */
module PageDiffLaws {
  import opened PageDiff

  /** The canonical diff is unique, so its definition says which chunks come out. */
  lemma Unique(s: seq<Span>, t: seq<Span>, d: Page, b: Page)
    requires Canonical(s, d, b) && Canonical(t, d, b)
    ensures s == t
  {
    UniqueFrom(s, t, d, b, 0);
  }

  lemma {:induction false} UniqueFrom(s: seq<Span>, t: seq<Span>, d: Page, b: Page, lo: nat)
    requires |d| == |b| && lo <= |d| && Shape(s, d, b, lo, |d|) && Shape(t, d, b, lo, |d|)
    ensures s == t
  {
    if s != [] {
      FirstStart(s, t, d, b, lo);
      FirstStart(t, s, d, b, lo);
      FirstEnd(s, t, d, b, lo);
      FirstEnd(t, s, d, b, lo);
      Rest(s, d, b, lo);
      Rest(t, d, b, lo);
      UniqueFrom(s[1..], t[1..], d, b, s[0].end);
      assert s == [s[0]] + s[1..] && t == [t[0]] + t[1..];
    } else if t != [] {
      FirstStart(t, s, d, b, lo);
    }
  }

  lemma FirstStart(s: seq<Span>, t: seq<Span>, d: Page, b: Page, lo: nat)
    requires |d| == |b| && lo <= |d| && Shape(s, d, b, lo, |d|) && Shape(t, d, b, lo, |d|) && s != []
    ensures t != [] && t[0].start <= s[0].start
  {
    var i := s[0].start;
    assert SpanOk(s[0], d, b) && Covered(t, i);
    var k :| 0 <= k < |t| && t[k].start <= i < t[k].end;
    assert k > 0 ==> Apart(t[0], t[k], d, b);
  }

  lemma FirstEnd(s: seq<Span>, t: seq<Span>, d: Page, b: Page, lo: nat)
    requires |d| == |b| && lo <= |d| && Shape(s, d, b, lo, |d|) && Shape(t, d, b, lo, |d|)
    requires s != [] && t != [] && s[0].start == t[0].start
    ensures t[0].end <= s[0].end
  {
    if t[0].end > s[0].end {
      var i := t[0].end - 1;
      assert SpanOk(t[0], d, b) && Covered(s, i);
      var k :| 0 <= k < |s| && s[k].start <= i < s[k].end;
      NoSpanAcross(s[0], s[k], t[0], d, b);
    }
  }

  /** No span reaches from inside one span of a diff into a later one. */
  lemma NoSpanAcross(s: Span, t: Span, u: Span, d: Page, b: Page)
    requires |d| == |b| && SpanOk(s, d, b) && SpanOk(t, d, b) && SpanOk(u, d, b) && Apart(s, t, d, b)
    ensures !(u.start < s.end && t.start < u.end)
  {
  }

  lemma Rest(s: seq<Span>, d: Page, b: Page, lo: nat)
    requires |d| == |b| && lo <= |d| && Shape(s, d, b, lo, |d|) && s != []
    ensures Shape(s[1..], d, b, s[0].end, |d|)
  {
    SliceOrdered(s, d, b, 1, |s|);
    forall k | 0 <= k < |s[1..]| ensures s[0].end <= s[1..][k].start && SpanOk(s[1..][k], d, b) {
      assert Apart(s[0], s[k + 1], d, b) && SpanOk(s[k + 1], d, b);
    }
    forall i | s[0].end <= i < |d| && d[i] != b[i] ensures Covered(s[1..], i) {
      assert Covered(s, i);
      var k :| 0 <= k < |s| && s[k].start <= i < s[k].end;
      assert s[1..][k - 1] == s[k];
    }
  }

  lemma SliceOrdered(s: seq<Span>, d: Page, b: Page, i: nat, j: nat)
    requires |d| == |b| && i <= j <= |s| && Ordered(s, d, b)
    ensures Ordered(s[i..j], d, b)
  {
    var r := s[i..j];
    forall x, y | 0 <= x < y < |r| ensures Apart(r[x], r[y], d, b) {
      assert r[x] == s[i + x] && r[y] == s[i + y];
    }
  }

  /** Any two chunks of the word region are at least eight bytes apart. */
  lemma WordGap(s: seq<Span>, d: Page, b: Page, j: nat, k: nat)
    requires Canonical(s, d, b) && j < k < |s| && s[k].end <= WordEnd(|d|)
    ensures s[j].end + 8 <= s[k].start
  {
    assert Apart(s[j], s[k], d, b);
  }

  // ---------- The size of a diff ----------

  function TotalModifiedBytes(chunks: seq<Chunk>): nat {
    if chunks == [] then 0
    else TotalModifiedBytes(chunks[..|chunks| - 1]) + |chunks[|chunks| - 1].bytes|
  }

  /** How many bytes of lo..hi changed. */
  ghost function Changed(d: Page, b: Page, lo: nat, hi: nat): nat
    requires |d| == |b| && lo <= hi <= |d|
  {
    if lo == hi then 0 else Changed(d, b, lo, hi - 1) + if d[hi - 1] != b[hi - 1] then 1 else 0
  }

  lemma {:induction false} ChangedSplit(d: Page, b: Page, lo: nat, mid: nat, hi: nat)
    requires |d| == |b| && lo <= mid <= hi <= |d|
    ensures Changed(d, b, lo, hi) == Changed(d, b, lo, mid) + Changed(d, b, mid, hi)
  {
    if mid < hi {
      ChangedSplit(d, b, lo, mid, hi - 1);
    }
  }

  lemma ChangedSome(d: Page, b: Page, lo: nat, hi: nat, i: nat)
    requires |d| == |b| && lo <= i < hi <= |d| && d[i] != b[i]
    ensures Changed(d, b, lo, hi) >= 1
  {
    ChangedSplit(d, b, lo, i, hi);
    ChangedSplit(d, b, i, i + 1, hi);
  }

  /** One changed byte in every word a range touches pays for the range. */
  lemma {:induction false} EightForOne(d: Page, b: Page, lo: nat, hi: nat)
    requires |d| == |b| && lo < hi <= |d| && d[hi - 1] != b[hi - 1]
    requires d[lo] != b[lo] || lo % 8 == 0
    requires forall w :: lo / 8 <= w < (hi - 1) / 8 ==> !EqualWord(d, b, w)
    ensures hi - lo <= 8 * Changed(d, b, lo, hi)
    decreases hi - lo
  {
    var mid := 8 * (lo / 8) + 8;
    if hi <= mid {
      ChangedSome(d, b, lo, hi, hi - 1);
    } else {
      if d[lo] != b[lo] {
        ChangedSome(d, b, lo, mid, lo);
      } else {
        assert !EqualWord(d, b, lo / 8);
        var i :| lo <= i < mid && d[i] != b[i];
        ChangedSome(d, b, lo, mid, i);
      }
      EightForOne(d, b, mid, hi);
      ChangedSplit(d, b, lo, mid, hi);
    }
  }

  lemma SpanPaid(s: Span, d: Page, b: Page)
    requires |d| == |b| && SpanOk(s, d, b)
    ensures s.end - s.start <= 8 * Changed(d, b, s.start, s.end)
  {
    if s.end <= WordEnd(|d|) {
      EightForOne(d, b, s.start, s.end);
    } else {
      ChangedSome(d, b, s.start, s.end, s.start);
    }
  }

  lemma {:induction false} SpansPaid(s: seq<Span>, d: Page, b: Page, hi: nat)
    requires |d| == |b| && hi <= |d| && Shape(s, d, b, 0, hi)
    ensures TotalModifiedBytes(Encode(s, d)) <= 8 * Changed(d, b, 0, hi)
  {
    if s != [] {
      var n := |s| - 1;
      var last := s[n];
      Before(s, d, b, hi);
      SpansPaid(s[..n], d, b, last.start);
      SpanPaid(last, d, b);
      ChangedSplit(d, b, 0, last.start, hi);
      ChangedSplit(d, b, last.start, last.end, hi);
      TotalOfLast(s, d);
    }
  }

  lemma {:induction false} TotalOfLast(s: seq<Span>, d: Page)
    requires s != [] && forall k :: 0 <= k < |s| ==> s[k].start <= s[k].end <= |d|
    ensures TotalModifiedBytes(Encode(s, d)) ==
      TotalModifiedBytes(Encode(s[..|s| - 1], d)) + s[|s| - 1].end - s[|s| - 1].start
  {
    var n := |s| - 1;
    var chunks := Encode(s, d);
    assert chunks[..n] == Encode(s[..n], d);
  }

  lemma Before(s: seq<Span>, d: Page, b: Page, hi: nat)
    requires |d| == |b| && hi <= |d| && Shape(s, d, b, 0, hi) && s != []
    ensures Shape(s[..|s| - 1], d, b, 0, s[|s| - 1].start)
  {
    var n := |s| - 1;
    SliceOrdered(s, d, b, 0, n);
    assert s[0..n] == s[..n];
    forall k | 0 <= k < n ensures s[..n][k].end <= s[n].start && SpanOk(s[..n][k], d, b) {
      assert Apart(s[k], s[n], d, b);
    }
    forall i | 0 <= i < s[n].start && d[i] != b[i] ensures Covered(s[..n], i) {
      assert Covered(s, i);
      var k :| 0 <= k < |s| && s[k].start <= i < s[k].end;
      assert s[..n][k] == s[k];
    }
  }

  /** The bytes a diff carries are at most eight times the bytes that changed. */
  lemma SizeBound(s: seq<Span>, d: Page, b: Page)
    requires Canonical(s, d, b)
    ensures TotalModifiedBytes(Encode(s, d)) <= 8 * Changed(d, b, 0, |d|)
  {
    SpansPaid(s, d, b, |d|);
  }
}
