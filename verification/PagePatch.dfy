/** Applying a page diff in place, and what diffing and patching do together. */
module PagePatch {
  import opened PageDiff

  datatype Patched = Patched(page: Page, result: Result<()>)

  /** Overwrites one range of a page. */
  function Splice(page: Page, at: nat, bytes: seq<byte>): (r: Page)
    requires at + |bytes| <= |page|
    ensures |r| == |page|
    ensures forall i :: 0 <= i < |page| ==> r[i] == if at <= i < at + |bytes| then bytes[i - at] else page[i]
  {
    page[..at] + bytes + page[at + |bytes|..]
  }

  /** Chunks are applied in order; the first one out of bounds stops the patch and
      leaves the earlier ones applied. */
  function Patch(page: Page, chunks: seq<Chunk>): (r: Patched)
    ensures |r.page| == |page|
    decreases |chunks|
  {
    if chunks == [] then Patched(page, Ok(()))
    else if chunks[0].offset + |chunks[0].bytes| > |page| then
      Patched(page, Err(OutOfBoundsPatch(chunks[0].offset, |chunks[0].bytes|, |page|)))
    else
      Patch(Splice(page, chunks[0].offset, chunks[0].bytes), chunks[1..])
  }

  /** A patch succeeds exactly when every chunk fits the page. */
  lemma {:induction false} PatchFits(page: Page, chunks: seq<Chunk>)
    ensures Patch(page, chunks).result.Ok? <==>
      forall k :: 0 <= k < |chunks| ==> chunks[k].offset + |chunks[k].bytes| <= |page|
    decreases |chunks|
  {
    if chunks != [] && chunks[0].offset + |chunks[0].bytes| <= |page| {
      PatchFits(Splice(page, chunks[0].offset, chunks[0].bytes), chunks[1..]);
      assert forall k :: 0 < k < |chunks| ==> chunks[k] == chunks[1..][k - 1];
    }
  }

  ghost predicate FitsPage(c: Chunk, n: nat) {
    c.offset + |c.bytes| <= n
  }

  ghost predicate Covers(c: Chunk, k: nat) {
    c.offset <= k < c.offset + |c.bytes|
  }

  ghost predicate LastCover(chunks: seq<Chunk>, i: nat, k: nat)
    requires i < |chunks|
  {
    Covers(chunks[i], k) && forall j :: i < j < |chunks| ==> !Covers(chunks[j], k)
  }

  /** A byte of a patched page is that of the last chunk that covers it, or as it was. */
  lemma {:induction false} PatchedByte(page: Page, chunks: seq<Chunk>, k: nat)
    requires k < |page| && forall i :: 0 <= i < |chunks| ==> FitsPage(chunks[i], |page|)
    ensures (forall i :: 0 <= i < |chunks| ==> !Covers(chunks[i], k)) ==> Patch(page, chunks).page[k] == page[k]
    ensures forall i | 0 <= i < |chunks| && LastCover(chunks, i, k) ::
      Patch(page, chunks).page[k] == chunks[i].bytes[k - chunks[i].offset]
    decreases |chunks|
  {
    if chunks != [] {
      var first, rest := chunks[0], chunks[1..];
      assert FitsPage(first, |page|);
      assert forall i :: 0 < i < |chunks| ==> chunks[i] == rest[i - 1];
      PatchedByte(Splice(page, first.offset, first.bytes), rest, k);
      forall i | 0 < i < |chunks| && LastCover(chunks, i, k) ensures LastCover(rest, i - 1, k) {
        assert forall j :: i - 1 < j < |rest| ==> rest[j] == chunks[j + 1];
      }
    }
  }

  /** A patch stops at the first chunk that does not fit, which it names, and leaves the page
      as the chunks before it make it. */
  lemma {:induction false} PatchStops(page: Page, chunks: seq<Chunk>, i: nat)
    requires i < |chunks| && !FitsPage(chunks[i], |page|)
    requires forall j :: 0 <= j < i ==> FitsPage(chunks[j], |page|)
    ensures Patch(page, chunks[..i]).result == Ok(())
    ensures Patch(page, chunks).page == Patch(page, chunks[..i]).page
    ensures Patch(page, chunks).result
      == Err(OutOfBoundsPatch(chunks[i].offset, |chunks[i].bytes|, |page|))
    decreases i
  {
    if i > 0 {
      assert FitsPage(chunks[0], |page|);
      PatchStops(Splice(page, chunks[0].offset, chunks[0].bytes), chunks[1..], i - 1);
      assert chunks[..i][1..] == chunks[1..][..i - 1];
    }
  }

  method CopyInto(target: array<byte>, start: nat, bytes: seq<byte>)
    requires start + |bytes| <= target.Length
    modifies target
    ensures target[..] == Splice(old(target[..]), start, bytes)
  {
    forall i | 0 <= i < |bytes| {
      target[start + i] := bytes[i];
    }
    assert target[..] == Splice(old(target[..]), start, bytes);
  }

  method ApplyPatch(target: array<byte>, diff: PageDiffList) returns (r: Result<()>)
    modifies target
    ensures target[..] == Patch(old(target[..]), diff.chunks).page
    ensures r == Patch(old(target[..]), diff.chunks).result
  {
    for k := 0 to |diff.chunks|
      invariant Patch(old(target[..]), diff.chunks) == Patch(target[..], diff.chunks[k..])
    {
      var start, bytes := diff.chunks[k].offset, diff.chunks[k].bytes;
      ghost var rest := diff.chunks[k..];
      assert rest[0] == diff.chunks[k] && rest[1..] == diff.chunks[k + 1..];
      if start + |bytes| > target.Length {
        return Err(OutOfBoundsPatch(start, |bytes|, target.Length));
      }
      CopyInto(target, start, bytes);
    }
    r := Ok(());
  }

  // ---------- Patching with a diff ----------

  /** A page patched with the diff of d: d's byte inside the chunks, its own outside. */
  ghost function Overlay(page: Page, spans: seq<Span>, d: Page): (r: Page)
    requires |page| == |d|
    ensures |r| == |page|
    ensures forall i :: 0 <= i < |page| ==> r[i] == if Covered(spans, i) then d[i] else page[i]
  {
    seq(|page|, i requires 0 <= i < |page| => if Covered(spans, i) then d[i] else page[i])
  }

  /** Up to 2^32 bytes no offset is truncated, and patching is the overlay. */
  lemma {:induction false} PatchIsOverlay(page: Page, spans: seq<Span>, d: Page)
    requires |page| == |d| <= U32
    requires forall k :: 0 <= k < |spans| ==> spans[k].start < spans[k].end <= |d|
    ensures Patch(page, Encode(spans, d)) == Patched(Overlay(page, spans, d), Ok(()))
    decreases |spans|
  {
    var chunks := Encode(spans, d);
    if spans == [] {
      assert Overlay(page, spans, d) == page;
    } else {
      var s := spans[0];
      assert chunks[0] == Chunk(s.start, d[s.start..s.end]);
      assert chunks[1..] == Encode(spans[1..], d);
      PatchIsOverlay(Splice(page, s.start, d[s.start..s.end]), spans[1..], d);
      OverlayFirst(page, spans, d);
    }
  }

  lemma OverlayFirst(page: Page, spans: seq<Span>, d: Page)
    requires |page| == |d| && spans != [] && spans[0].start < spans[0].end <= |d|
    ensures Overlay(Splice(page, spans[0].start, d[spans[0].start..spans[0].end]), spans[1..], d)
      == Overlay(page, spans, d)
  {
    var page' := Splice(page, spans[0].start, d[spans[0].start..spans[0].end]);
    forall i | 0 <= i < |page| ensures Overlay(page', spans[1..], d)[i] == Overlay(page, spans, d)[i] {
      FirstCovers(spans, i);
    }
  }

  lemma FirstCovers(spans: seq<Span>, i: nat)
    requires spans != []
    ensures Covered(spans, i) <==> spans[0].start <= i < spans[0].end || Covered(spans[1..], i)
  {
    if Covered(spans[1..], i) {
      var k :| 0 <= k < |spans[1..]| && spans[1..][k].start <= i < spans[1..][k].end;
      assert spans[k + 1] == spans[1..][k];
    }
    if Covered(spans, i) {
      var k :| 0 <= k < |spans| && spans[k].start <= i < spans[k].end;
      assert k > 0 ==> spans[1..][k - 1] == spans[k];
    }
  }

  /** Patching the baseline with the diff gives the dirty page. */
  lemma RoundTrip(d: Page, b: Page, spans: seq<Span>)
    requires Canonical(spans, d, b) && |d| <= U32
    ensures Patch(b, Encode(spans, d)) == Patched(d, Ok(()))
  {
    PatchIsOverlay(b, spans, d);
    assert Overlay(b, spans, d) == d;
  }

  ghost predicate RoundTrips(n: nat) {
    forall d: Page, b: Page, spans | |d| == n && Canonical(spans, d, b) ::
      Patch(b, Encode(spans, d)) == Patched(d, Ok(()))
  }

  /** The round trip holds for every pair of pages of a size exactly when the size
      is at most 2^32; beyond, the 32-bit offset loses changes. */
  lemma RoundTripExactly(n: nat)
    ensures RoundTrips(n) <==> n <= U32
  {
    if n <= U32 {
      forall d: Page, b: Page, spans | |d| == n && Canonical(spans, d, b)
        ensures Patch(b, Encode(spans, d)) == Patched(d, Ok(()))
      {
        RoundTrip(d, b, spans);
      }
    } else {
      var d, b, spans := LostChange(n);
    }
  }

  lemma LostChange(n: nat) returns (d: Page, b: Page, spans: seq<Span>)
    requires n > U32
    ensures |d| == n && Canonical(spans, d, b)
    ensures Patch(b, Encode(spans, d)).page[n - 1] != d[n - 1]
  {
    b := seq(n, i => 0);
    d := b[n - 1 := 1];
    spans := [Span(n - 1, n)];
    LastByteDiff(d, b);
    PatchOne(b, ChunkOf(spans[0], d));
    assert Encode(spans, d) == [ChunkOf(spans[0], d)];
  }

  lemma PatchOne(page: Page, c: Chunk)
    requires c.offset + |c.bytes| <= |page|
    ensures Patch(page, [c]).page == Splice(page, c.offset, c.bytes)
  {
    assert [c][1..] == [];
  }

  lemma LastByteDiff(d: Page, b: Page)
    requires |d| == |b| > 0 && d == b[|b| - 1 := d[|b| - 1]] && d[|b| - 1] != b[|b| - 1]
    ensures Canonical([Span(|d| - 1, |d|)], d, b)
  {
    var n := |d|;
    assert n % 8 == 0 ==> !EqualWord(d, b, n / 8 - 1);
    assert Covered([Span(n - 1, n)], n - 1) by {
      assert [Span(n - 1, n)][0].start <= n - 1 < [Span(n - 1, n)][0].end;
    }
  }

  /** The diff is empty exactly when the pages are equal. */
  lemma EmptyExactly(d: Page, b: Page, spans: seq<Span>)
    requires Canonical(spans, d, b)
    ensures Encode(spans, d) == [] <==> d == b
  {
    if spans == [] {
      forall i | 0 <= i < |d| ensures d[i] == b[i] {
        assert !Covered(spans, i);
      }
    } else {
      assert SpanOk(spans[0], d, b);
    }
  }

  // ---------- Two writers ----------

  /** Applying two diffs in either order agrees exactly when they agree on every
      byte both of them carry. */
  lemma OrderIrrelevantExactly(page: Page, d1: Page, s1: seq<Span>, b1: Page, d2: Page, s2: seq<Span>, b2: Page)
    requires |page| == |d1| == |d2| <= U32
    requires Canonical(s1, d1, b1) && Canonical(s2, d2, b2)
    ensures Patch(Patch(page, Encode(s1, d1)).page, Encode(s2, d2))
        == Patch(Patch(page, Encode(s2, d2)).page, Encode(s1, d1))
      <==> AgreeOnBoth(d1, s1, d2, s2)
  {
    PatchIsOverlay(page, s1, d1);
    PatchIsOverlay(page, s2, d2);
    PatchIsOverlay(Overlay(page, s1, d1), s2, d2);
    PatchIsOverlay(Overlay(page, s2, d2), s1, d1);
    OverlaysCommute(page, d1, s1, d2, s2);
  }

  ghost predicate AgreeOnBoth(d1: Page, s1: seq<Span>, d2: Page, s2: seq<Span>)
    requires |d1| == |d2|
  {
    forall i :: 0 <= i < |d1| && Covered(s1, i) && Covered(s2, i) ==> d1[i] == d2[i]
  }

  lemma OverlaysCommute(page: Page, d1: Page, s1: seq<Span>, d2: Page, s2: seq<Span>)
    requires |page| == |d1| == |d2|
    ensures Overlay(Overlay(page, s1, d1), s2, d2) == Overlay(Overlay(page, s2, d2), s1, d1)
      <==> AgreeOnBoth(d1, s1, d2, s2)
  {
    var p12, p21 := Overlay(Overlay(page, s1, d1), s2, d2), Overlay(Overlay(page, s2, d2), s1, d1);
    if p12 == p21 {
      forall i | 0 <= i < |page| && Covered(s1, i) && Covered(s2, i) ensures d1[i] == d2[i] {
        assert p12[i] == p21[i];
      }
    }
  }

  /** Writers on disjoint extents of one baseline merge: every change of both is
      kept and no other byte changes. */
  lemma Merge(b: Page, d1: Page, s1: seq<Span>, d2: Page, s2: seq<Span>)
    requires |b| <= U32 && Canonical(s1, d1, b) && Canonical(s2, d2, b)
    requires forall i :: 0 <= i < |b| ==> !(Covered(s1, i) && Covered(s2, i))
    ensures var merged := Patch(Patch(b, Encode(s1, d1)).page, Encode(s2, d2));
      && merged.result.Ok?
      && forall i :: 0 <= i < |b| ==>
           && (d1[i] != b[i] ==> merged.page[i] == d1[i])
           && (d2[i] != b[i] ==> merged.page[i] == d2[i])
           && (d1[i] == b[i] == d2[i] ==> merged.page[i] == b[i])
  {
    PatchIsOverlay(b, s1, d1);
    PatchIsOverlay(Overlay(b, s1, d1), s2, d2);
  }
}
