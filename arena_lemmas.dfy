/**
 * What fl_alloc and fl_free guarantee, proved on the layout model of module
 * Arena: the arena stays tiled and coalesced, allocation hands out a fresh
 * pointer to a large enough block, release takes back exactly one pointer,
 * release undoes the allocation it follows, releasing twice is releasing
 * once, and releasing every live pointer leaves one block spanning the
 * whole capacity.
 */
module ArenaLemmas {
  import opened Arena

  // ---------------------------------------------------------------------------
  // Where blocks move when a run of blocks is replaced

  /**
   * Replacing L[i..j] by `mid` of the same span moves no block before i and
   * shifts every block after the replaced run by the change in block count.
   */
  lemma ReplaceOffsets(L: seq<Region>, h: nat, i: nat, j: nat, mid: seq<Region>)
    requires i <= j <= |L| && Span(mid, h) == Span(L[i..j], h)
    ensures var M := L[..i] + mid + L[j..];
      && |M| == |L| - (j - i) + |mid|
      && (forall k :: 0 <= k <= i ==> Offset(M, h, k) == Offset(L, h, k))
      && (forall k :: i + |mid| <= k <= |M| ==> Offset(M, h, k) == Offset(L, h, k - |mid| + (j - i)))
  {
    var M := L[..i] + mid + L[j..];
    forall k | 0 <= k <= i ensures Offset(M, h, k) == Offset(L, h, k) {
      assert M[..k] == L[..k];
    }
    forall k | i + |mid| <= k <= |M| ensures Offset(M, h, k) == Offset(L, h, k - |mid| + (j - i)) {
      var k' := k - |mid| + (j - i);
      var P := L[..k'];
      assert M[..k] == P[..i] + mid + P[j..];
      assert P[i..j] == L[i..j];
      SpanReplace(P, h, i, j, mid);
    }
  }

  /** Where every block of L sits after block i is carved for `size` bytes. */
  lemma CarveOffsets(L: seq<Region>, h: nat, i: nat, size: nat)
    requires Fits(L, size, i)
    ensures var C := Carve(L, h, i, size);
      && (forall k :: 0 <= k <= i ==> Offset(C, h, k) == Offset(L, h, k))
      && (Splits(L, h, i, size) ==>
            && Offset(C, h, i + 1) == Offset(L, h, i) + h + size
            && forall k :: i + 2 <= k <= |C| ==> Offset(C, h, k) == Offset(L, h, k - 1))
      && (!Splits(L, h, i, size) ==>
            forall k :: i + 1 <= k <= |C| ==> Offset(C, h, k) == Offset(L, h, k))
  {
    var C := Carve(L, h, i, size);
    assert L[i..i + 1] == [L[i]];
    SpanOne(L[i], h);
    if Splits(L, h, i, size) {
      var mid := [Region(size, true), Region(L[i].size - size - h, false)];
      SpanTwo(mid[0], mid[1], h);
      ReplaceOffsets(L, h, i, i + 1, mid);
      OffsetStep(C, h, i);
    } else {
      var mid := [Region(L[i].size, true)];
      SpanOne(mid[0], h);
      ReplaceOffsets(L, h, i, i + 1, mid);
    }
  }

  /** Where every block of L sits after block k absorbs block k + 1. */
  lemma MergeOffsets(L: seq<Region>, h: nat, k: nat)
    requires k + 1 < |L|
    ensures var R := MergeNext(L, h, k);
      && (forall j :: 0 <= j <= k ==> Offset(R, h, j) == Offset(L, h, j))
      && (forall j :: k + 1 <= j <= |R| ==> Offset(R, h, j) == Offset(L, h, j + 1))
  {
    var merged := Region(L[k].size + h + L[k + 1].size, false);
    assert L[k..k + 2] == [L[k], L[k + 1]];
    SpanTwo(L[k], L[k + 1], h);
    SpanOne(merged, h);
    ReplaceOffsets(L, h, k, k + 2, [merged]);
  }

  /** With a non-empty header, looking up a block's payload pointer finds that block. */
  lemma IndexOfPayload(L: seq<Region>, h: nat, k: nat)
    requires 0 < h && k < |L|
    ensures IndexOf(L, h, Payload(L, h, k)) == Some(k)
  {
    var r := IndexOf(L, h, Payload(L, h, k));
    if r.Some? && r.value != k {
      PayloadsDistinct(L, h, k, r.value);
    }
  }

  // ---------------------------------------------------------------------------
  // The set of live pointers

  /** Every pointer live before carving block i stays live, and none of them is block i's. */
  lemma CarveKeepsLive(L: seq<Region>, h: nat, i: nat, size: nat, x: nat)
    requires 0 < h && Fits(L, size, i) && x in LiveSet(L, h)
    ensures x != Payload(L, h, i) && x in LiveSet(Carve(L, h, i, size), h)
  {
    var C := Carve(L, h, i, size);
    var j :| 0 <= j < |L| && L[j].used && Payload(L, h, j) == x;
    PayloadsDistinct(L, h, i, j);
    CarveOffsets(L, h, i, size);
    var j' := if j < i || !Splits(L, h, i, size) then j else j + 1;
    assert C[j'] == L[j] && Payload(C, h, j') == x;
  }

  /** A pointer live after carving block i was live before, or is block i's. */
  lemma CarveAddsOne(L: seq<Region>, h: nat, i: nat, size: nat, x: nat)
    requires Fits(L, size, i) && x in LiveSet(Carve(L, h, i, size), h)
    ensures x in LiveSet(L, h) || x == Payload(L, h, i)
  {
    var C := Carve(L, h, i, size);
    var j :| 0 <= j < |C| && C[j].used && Payload(C, h, j) == x;
    CarveOffsets(L, h, i, size);
    var j' := if j <= i || !Splits(L, h, i, size) then j else j - 1;
    if j != i {
      assert j' < |L| && C[j] == L[j'];
      assert Offset(C, h, j) == Offset(L, h, j');
      assert Payload(L, h, j') == x;
    }
  }

  /** Carving block i makes its payload pointer live and leaves every other pointer as it was. */
  lemma CarveLive(L: seq<Region>, h: nat, i: nat, size: nat)
    requires 0 < h && Fits(L, size, i)
    ensures Payload(L, h, i) !in LiveSet(L, h)
    ensures LiveSet(Carve(L, h, i, size), h) == LiveSet(L, h) + {Payload(L, h, i)}
  {
    var C := Carve(L, h, i, size);
    var p := Payload(L, h, i);
    forall x | x in LiveSet(L, h) ensures x != p && x in LiveSet(C, h) {
      CarveKeepsLive(L, h, i, size, x);
    }
    forall x | x in LiveSet(C, h) ensures x in LiveSet(L, h) + {p} {
      CarveAddsOne(L, h, i, size, x);
    }
    CarveOffsets(L, h, i, size);
    assert C[i].used && Payload(C, h, i) == p;
  }

  /** Marking used block i free takes exactly its payload pointer out of the live set. */
  lemma MarkLive(L: seq<Region>, h: nat, i: nat)
    requires 0 < h && i < |L| && L[i].used
    ensures LiveSet(L[i := Region(L[i].size, false)], h) == LiveSet(L, h) - {Payload(L, h, i)}
  {
    var M := L[i := Region(L[i].size, false)];
    forall k | 0 <= k <= |L| ensures Offset(M, h, k) == Offset(L, h, k) {
      SpanSizes(M[..k], L[..k], h);
    }
    forall x | x in LiveSet(L, h) - {Payload(L, h, i)} ensures x in LiveSet(M, h) {
      var j :| 0 <= j < |L| && L[j].used && Payload(L, h, j) == x;
      assert M[j] == L[j] && Payload(M, h, j) == x;
    }
    forall x | x in LiveSet(M, h) ensures x in LiveSet(L, h) - {Payload(L, h, i)} {
      var j :| 0 <= j < |M| && M[j].used && Payload(M, h, j) == x;
      PayloadsDistinct(L, h, i, j);
      assert Payload(L, h, j) == x;
    }
  }

  /** Merging two free neighbours changes no live pointer. */
  lemma MergeLive(L: seq<Region>, h: nat, k: nat)
    requires k + 1 < |L| && !L[k].used && !L[k + 1].used
    ensures LiveSet(MergeNext(L, h, k), h) == LiveSet(L, h)
  {
    var R := MergeNext(L, h, k);
    MergeOffsets(L, h, k);
    forall x | x in LiveSet(L, h) ensures x in LiveSet(R, h) {
      var j :| 0 <= j < |L| && L[j].used && Payload(L, h, j) == x;
      var j' := if j < k then j else j - 1;
      assert R[j'] == L[j] && Payload(R, h, j') == x;
    }
    forall x | x in LiveSet(R, h) ensures x in LiveSet(L, h) {
      var j :| 0 <= j < |R| && R[j].used && Payload(R, h, j) == x;
      var j' := if j < k then j else j + 1;
      assert R[j] == L[j'] && Payload(L, h, j') == x;
    }
  }

  /** Releasing used block i takes exactly its payload pointer out of the live set. */
  lemma ReleaseLive(L: seq<Region>, h: nat, i: nat)
    requires 0 < h && i < |L| && L[i].used
    ensures LiveSet(Release(L, h, i), h) == LiveSet(L, h) - {Payload(L, h, i)}
  {
    var marked := L[i := Region(L[i].size, false)];
    MarkLive(L, h, i);
    var absorbed := if i + 1 < |L| && !L[i + 1].used then MergeNext(marked, h, i) else marked;
    if i + 1 < |L| && !L[i + 1].used {
      MergeLive(marked, h, i);
    }
    assert 0 < i ==> absorbed[i - 1] == L[i - 1] && !absorbed[i].used;
    if 0 < i && !L[i - 1].used {
      MergeLive(absorbed, h, i - 1);
    }
  }

  /**
   * fl_free(a) takes `a` out of the live set, whatever `a` is; when `a` is
   * not live (never handed out, or already released) nothing changes at all.
   */
  lemma {:induction false} FreeLive(L: seq<Region>, h: nat, a: nat)
    requires 0 < h
    ensures LiveSet(Free(L, h, Some(a)), h) == LiveSet(L, h) - {a}
    ensures a !in LiveSet(L, h) ==> Free(L, h, Some(a)) == L
  {
    match IndexOf(L, h, a)
    case None =>
    case Some(i) =>
      if L[i].used {
        ReleaseLive(L, h, i);
        assert a in LiveSet(L, h);
      } else {
        forall j | 0 <= j < |L| && L[j].used ensures Payload(L, h, j) != a {
          PayloadsDistinct(L, h, i, j);
        }
      }
  }

  // ---------------------------------------------------------------------------
  // The invariant between calls

  /** Carving a free block of a coalesced layout leaves it coalesced. */
  lemma CarveCoalesced(L: seq<Region>, h: nat, i: nat, size: nat)
    requires Coalesced(L) && Fits(L, size, i)
    ensures Coalesced(Carve(L, h, i, size))
  {
    var C := Carve(L, h, i, size);
    var sp := Splits(L, h, i, size);
    forall j | 0 <= j < |C| - 1 ensures C[j].used || C[j + 1].used {
      if j + 1 < i {
        assert C[j] == L[j] && C[j + 1] == L[j + 1];
      } else if j + 1 == i {
        assert C[j + 1].used;
      } else if j == i {
        assert C[j].used;
      } else if sp && j == i + 1 {
        assert C[j + 1] == L[i + 1];
        assert L[i].used || L[i + 1].used;
      } else {
        var j' := if sp then j - 1 else j;
        assert C[j] == L[j'] && C[j + 1] == L[j' + 1];
      }
    }
  }

  /** The blocks Release(L, h, i) folds into one: from Low to High, exclusive. */
  function Low(L: seq<Region>, i: nat): nat
    requires i < |L|
  {
    if 0 < i && !L[i - 1].used then i - 1 else i
  }

  function High(L: seq<Region>, i: nat): nat
    requires i < |L|
  {
    if i + 1 < |L| && !L[i + 1].used then i + 2 else i + 1
  }

  /** Release replaces the run L[Low..High] by one free block of the same span. */
  lemma ReleaseShape(L: seq<Region>, h: nat, i: nat)
    requires i < |L|
    ensures var R := Release(L, h, i); var lo := Low(L, i);
      && |R| == |L| - (High(L, i) - lo) + 1
      && R == L[..lo] + [Region(R[lo].size, false)] + L[High(L, i)..]
  {
    var hi := High(L, i);
    var marked := L[i := Region(L[i].size, false)];
    var absorbed := if i + 1 < |L| && !L[i + 1].used then MergeNext(marked, h, i) else marked;
    var A := L[..i] + [Region(absorbed[i].size, false)] + L[hi..];
    if i + 1 < |L| && !L[i + 1].used {
      assert marked[..i] == L[..i] && marked[i + 2..] == L[hi..];
    } else {
      assert marked == L[..i] + [marked[i]] + L[i + 1..];
    }
    assert absorbed == A;
    if 0 < i && !L[i - 1].used {
      assert A[..i - 1] == L[..i - 1] && A[i - 1] == L[i - 1];
      assert A[i + 1..] == L[hi..];
    }
  }

  /** Releasing a block of a coalesced layout leaves it coalesced. */
  lemma ReleaseCoalesced(L: seq<Region>, h: nat, i: nat)
    requires Coalesced(L) && i < |L|
    ensures Coalesced(Release(L, h, i))
  {
    var R := Release(L, h, i);
    var lo, hi := Low(L, i), High(L, i);
    ReleaseShape(L, h, i);
    assert 0 < lo ==> L[lo - 1].used;
    assert hi < |L| ==> L[hi].used;
    forall j | 0 <= j < |R| - 1 ensures R[j].used || R[j + 1].used {
      if j + 1 < lo {
        assert R[j] == L[j] && R[j + 1] == L[j + 1];
      } else if j + 1 == lo {
        assert R[j] == L[lo - 1];
      } else if j == lo {
        assert R[j + 1] == L[hi];
      } else {
        var j' := j - lo - 1 + hi;
        assert R[j] == L[j'] && R[j + 1] == L[j' + 1];
      }
    }
  }

  /** Carving a fitting block keeps the layout well-formed. */
  lemma CarveWellFormed(L: seq<Region>, h: nat, capacity: nat, i: nat, size: nat)
    requires WellFormed(L, h, capacity) && Fits(L, size, i)
    ensures WellFormed(Carve(L, h, i, size), h, capacity)
  {
    CarveCoalesced(L, h, i, size);
  }

  /**
   * A result of fl_alloc is an outcome AllocOutcome allows: NULL with the
   * layout unchanged when the request is empty or nothing fits, or the
   * payload pointer of a granted best-fitting block.
   */
  lemma AllocResultOutcome(L: seq<Region>, h: nat, size: nat, i: nat, L': seq<Region>, p: Option<nat>)
    requires 0 < h
    requires p.None? ==> L' == L && (size == 0 || forall j :: !Fits(L, size, j))
    requires p.Some? ==> Granted(L, h, size, i, L', p.value)
    ensures AllocOutcome(L, h, size, L', p)
  {
    if p.Some? {
      IndexOfPayload(L, h, i);
    }
  }

  /** Conversely, every outcome AllocOutcome allows is such a result. */
  lemma OutcomeAllocResult(L: seq<Region>, h: nat, size: nat, L': seq<Region>, p: Option<nat>)
    requires AllocOutcome(L, h, size, L', p)
    ensures p.None? ==> L' == L && (size == 0 || forall j :: !Fits(L, size, j))
    ensures p.Some? ==> exists i :: Granted(L, h, size, i, L', p.value)
  {
    if p.Some? {
      assert Granted(L, h, size, IndexOf(L, h, p.value).value, L', p.value);
    }
  }

  /**
   * When one fitting block is strictly smaller than every other fitting
   * block, fl_alloc has exactly one outcome: that block is carved and its
   * payload pointer is returned.
   */
  lemma UniqueBestFit(L: seq<Region>, h: nat, size: nat, i: nat, L': seq<Region>, p: Option<nat>)
    requires 0 < size && Fits(L, size, i)
    requires forall j: nat :: Fits(L, size, j) && j != i ==> L[i].size < L[j].size
    requires AllocOutcome(L, h, size, L', p)
    ensures L' == Carve(L, h, i, size) && p == Some(Payload(L, h, i))
  {
    assert !forall j: nat :: !Fits(L, size, j);
    var j := IndexOf(L, h, p.value).value;
    assert BestFit(L, size, j);
  }

  /** fl_alloc keeps the allocator's invariant. */
  lemma AllocWellFormed(L: seq<Region>, h: nat, capacity: nat, size: nat, L': seq<Region>, p: Option<nat>)
    requires WellFormed(L, h, capacity) && AllocOutcome(L, h, size, L', p)
    ensures WellFormed(L', h, capacity)
  {
    if !(size == 0 || forall i: nat :: !Fits(L, size, i)) {
      CarveCoalesced(L, h, IndexOf(L, h, p.value).value, size);
    }
  }

  /** fl_free keeps the allocator's invariant. */
  lemma FreeWellFormed(L: seq<Region>, h: nat, capacity: nat, p: Option<nat>)
    requires WellFormed(L, h, capacity)
    ensures WellFormed(Free(L, h, p), h, capacity)
  {
    match p
    case None =>
    case Some(a) =>
      match IndexOf(L, h, a)
      case None =>
      case Some(i) =>
        if L[i].used { ReleaseCoalesced(L, h, i); }
  }

  // ---------------------------------------------------------------------------
  // The contracts of fl_alloc and fl_free

  /**
   * A successful fl_alloc(size) returns a pointer that was not live, makes it
   * live, and it is the payload of a used block of at least `size` bytes that
   * lies inside the arena.
   */
  lemma AllocGrants(L: seq<Region>, h: nat, size: nat, L': seq<Region>, a: nat)
    requires 0 < h && AllocOutcome(L, h, size, L', Some(a))
    ensures a !in LiveSet(L, h) && LiveSet(L', h) == LiveSet(L, h) + {a}
    ensures IndexOf(L', h, a).Some?
    ensures L'[IndexOf(L', h, a).value].used && size <= L'[IndexOf(L', h, a).value].size
    ensures a + size <= Span(L, h)
  {
    var i := IndexOf(L, h, a).value;
    CarveLive(L, h, i, size);
    CarveOffsets(L, h, i, size);
    assert Payload(L', h, i) == a && L'[i].used && size <= L'[i].size;
    var j := IndexOf(L', h, a).value;
    if j != i { PayloadsDistinct(L', h, i, j); }
    PayloadInside(L', h, i);
  }

  /** Carve as two steps: cut block i at `size` bytes, then mark the first part used. */
  lemma SplitThenMark(L: seq<Region>, h: nat, i: nat, size: nat, M: seq<Region>, F: seq<Region>)
    requires Fits(L, size, i) && Splits(L, h, i, size)
    requires M == Cut(L, h, i, size) && F == M[i := Region(size, true)]
    ensures F == Carve(L, h, i, size)
  {
  }

  /** Carve without a split only marks block i used. */
  lemma CarveWhole(L: seq<Region>, h: nat, i: nat, size: nat)
    requires Fits(L, size, i) && !Splits(L, h, i, size)
    ensures Carve(L, h, i, size) == L[i := Region(L[i].size, true)]
  {
  }

  /**
   * Releasing a block just carved from a coalesced layout restores the
   * layout: the split-off tail (if any) is merged back, and the outer
   * neighbours of a free block are in use, so nothing else merges.
   */
  lemma CarveRelease(L: seq<Region>, h: nat, i: nat, size: nat)
    requires Coalesced(L) && Fits(L, size, i)
    ensures Release(Carve(L, h, i, size), h, i) == L
  {
    var C := Carve(L, h, i, size);
    assert 0 < i ==> L[i - 1].used && C[i - 1] == L[i - 1];
    var marked := C[i := Region(C[i].size, false)];
    if Splits(L, h, i, size) {
      assert C[i + 1] == Region(L[i].size - size - h, false);
      assert MergeNext(marked, h, i) == L;
    } else {
      assert marked == L;
      assert i + 1 < |L| ==> L[i + 1].used && C[i + 1] == L[i + 1];
    }
  }

  /**
   * fl_free undoes fl_alloc: releasing the pointer just returned restores the
   * layout exactly.
   */
  lemma AllocFreeRoundTrip(L: seq<Region>, h: nat, capacity: nat, size: nat, L': seq<Region>, a: nat)
    requires 0 < h && WellFormed(L, h, capacity) && AllocOutcome(L, h, size, L', Some(a))
    ensures Free(L', h, Some(a)) == L
  {
    var i := IndexOf(L, h, a).value;
    CarveOffsets(L, h, i, size);
    assert Payload(L', h, i) == a && L'[i].used;
    var j := IndexOf(L', h, a).value;
    if j != i { PayloadsDistinct(L', h, i, j); }
    CarveRelease(L, h, i, size);
  }

  /** Releasing the same pointer twice has the effect of releasing it once. */
  lemma FreeIdempotent(L: seq<Region>, h: nat, p: Option<nat>)
    requires 0 < h
    ensures Free(Free(L, h, p), h, p) == Free(L, h, p)
  {
    if p.Some? {
      FreeLive(L, h, p.value);
      FreeLive(Free(L, h, p), h, p.value);
    }
  }

  /** The payload pointer of a used block is live. */
  lemma UsedIsLive(L: seq<Region>, h: nat, i: nat)
    requires i < |L| && L[i].used
    ensures Payload(L, h, i) in LiveSet(L, h)
  {
  }

  /** A well-formed layout with nothing live is the single block init_fl made. */
  lemma NothingLiveIsInitial(L: seq<Region>, h: nat, capacity: nat)
    requires WellFormed(L, h, capacity) && LiveSet(L, h) == {}
    ensures L == Initial(capacity)
  {
    if L[0].used {
      UsedIsLive(L, h, 0);
      assert false;
    }
    if |L| > 1 {
      UsedIsLive(L, h, 1);
      assert false;
    }
    assert L == [L[0]];
    SpanOne(L[0], h);
  }

  /** fl_free applied to each pointer of `ps` in turn. */
  function FreeEach(L: seq<Region>, h: nat, ps: seq<nat>): (r: seq<Region>)
    ensures Span(r, h) == Span(L, h)
    ensures |L| >= 1 ==> |r| >= 1
    decreases |ps|
  {
    if ps == [] then L else FreeEach(Free(L, h, Some(ps[0])), h, ps[1..])
  }

  /** Releasing a list of pointers takes exactly those pointers out of the live set. */
  lemma {:induction false} FreeEachLive(L: seq<Region>, h: nat, capacity: nat, ps: seq<nat>)
    requires 0 < h && WellFormed(L, h, capacity)
    ensures WellFormed(FreeEach(L, h, ps), h, capacity)
    ensures forall a :: a in LiveSet(FreeEach(L, h, ps), h) <==> a in LiveSet(L, h) && a !in ps
    decreases |ps|
  {
    if ps != [] {
      var L1 := Free(L, h, Some(ps[0]));
      FreeLive(L, h, ps[0]);
      FreeWellFormed(L, h, capacity, Some(ps[0]));
      FreeEachLive(L1, h, capacity, ps[1..]);
      assert forall a :: a in ps <==> a == ps[0] || a in ps[1..];
    }
  }

  /**
   * Releasing every live pointer, in any order, coalesces the address list
   * back into one free block whose size is the capacity given to init_fl.
   */
  lemma ReleaseAllCoalesces(L: seq<Region>, h: nat, capacity: nat, ps: seq<nat>)
    requires 0 < h && WellFormed(L, h, capacity)
    requires forall a :: a in LiveSet(L, h) ==> a in ps
    ensures FreeEach(L, h, ps) == Initial(capacity)
  {
    FreeEachLive(L, h, capacity, ps);
    NothingLiveIsInitial(FreeEach(L, h, ps), h, capacity);
  }
}
