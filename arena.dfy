/**
 * The allocator's arena as the address list sees it: an address-ordered
 * sequence of blocks, each an `h`-byte header (sizeof(block_t)) followed by
 * `size` payload bytes. A block's header address is the sum of `h + size`
 * over the blocks before it, counted from the start of the arena, and the
 * pointer handed to a caller is the address just past the header.
 *
 * fl_alloc and fl_free are specified here on this layout: allocation takes a
 * free block of the smallest sufficient size and splits off the unused tail
 * when it is larger than one header; release marks the block free and
 * merges it with a free successor and then a free predecessor.
 */
module Arena {

  datatype Option<T> = None | Some(value: T)

  /** One block of the address list: payload bytes (header excluded) and the `use` flag. */
  datatype Region = Region(size: nat, used: bool)

  /** Bytes that a run of blocks occupies: every block is a header plus its payload. */
  function Span(L: seq<Region>, h: nat): nat
  {
    if L == [] then 0 else Span(L[..|L| - 1], h) + h + L[|L| - 1].size
  }

  /** Address of the header of block i (of the arena's end when i == |L|). */
  function Offset(L: seq<Region>, h: nat, i: nat): nat
    requires i <= |L|
  {
    Span(L[..i], h)
  }

  /** The pointer fl_alloc returns for block i: the byte right after its header. */
  function Payload(L: seq<Region>, h: nat, i: nat): nat
    requires i < |L|
  {
    Offset(L, h, i) + h
  }

  /** No two address-adjacent blocks are both free. */
  ghost predicate Coalesced(L: seq<Region>)
  {
    forall i :: 0 <= i < |L| - 1 ==> L[i].used || L[i + 1].used
  }

  /**
   * The allocator's invariant between calls: at least one block, the blocks
   * tile exactly the header plus `capacity` bytes reserved by init_fl, and
   * free neighbours have been merged.
   */
  ghost predicate WellFormed(L: seq<Region>, h: nat, capacity: nat)
  {
    |L| >= 1 && Span(L, h) == h + capacity && Coalesced(L)
  }

  /** The layout init_fl leaves: one free block spanning the whole capacity. */
  function Initial(capacity: nat): seq<Region>
  {
    [Region(capacity, false)]
  }

  // ---------------------------------------------------------------------------
  // Arithmetic of spans and offsets

  lemma {:induction false} SpanConcat(A: seq<Region>, B: seq<Region>, h: nat)
    ensures Span(A + B, h) == Span(A, h) + Span(B, h)
    decreases |B|
  {
    if B == [] {
      assert A + B == A;
    } else {
      var n := |B| - 1;
      assert (A + B)[..|A + B| - 1] == A + B[..n];
      SpanConcat(A, B[..n], h);
    }
  }

  /** Only the sizes matter to a span, not the `use` flags. */
  lemma {:induction false} SpanSizes(L: seq<Region>, M: seq<Region>, h: nat)
    requires |L| == |M|
    requires forall i :: 0 <= i < |L| ==> L[i].size == M[i].size
    ensures Span(L, h) == Span(M, h)
    decreases |L|
  {
    if L != [] {
      var n := |L| - 1;
      SpanSizes(L[..n], M[..n], h);
    }
  }

  lemma OffsetStep(L: seq<Region>, h: nat, i: nat)
    requires i < |L|
    ensures Offset(L, h, i + 1) == Offset(L, h, i) + h + L[i].size
  {
    assert L[..i + 1][..i] == L[..i];
  }

  lemma OffsetEnd(L: seq<Region>, h: nat)
    ensures Offset(L, h, |L|) == Span(L, h)
  {
    assert L[..|L|] == L;
  }

  /**
   * Blocks never overlap: a block's header and payload end at or before the
   * header of every later block.
   */
  lemma {:induction false} OffsetsIncrease(L: seq<Region>, h: nat, i: nat, j: nat)
    requires i < j <= |L|
    ensures Offset(L, h, i) + h + L[i].size <= Offset(L, h, j)
    decreases j - i
  {
    OffsetStep(L, h, i);
    if i + 1 < j {
      OffsetsIncrease(L, h, i + 1, j);
    }
  }

  /** With a non-empty header, distinct blocks have distinct payload pointers. */
  lemma PayloadsDistinct(L: seq<Region>, h: nat, i: nat, j: nat)
    requires 0 < h && i < |L| && j < |L| && i != j
    ensures Payload(L, h, i) != Payload(L, h, j)
  {
    if i < j { OffsetsIncrease(L, h, i, j); } else { OffsetsIncrease(L, h, j, i); }
  }

  /** Every payload lies inside the arena. */
  lemma PayloadInside(L: seq<Region>, h: nat, i: nat)
    requires i < |L|
    ensures Payload(L, h, i) + L[i].size <= Span(L, h)
  {
    OffsetStep(L, h, i);
    if i + 1 < |L| { OffsetsIncrease(L, h, i + 1, |L|); }
    OffsetEnd(L, h);
  }

  /** Replacing the blocks between i and j by `mid` changes the span by the difference. */
  lemma SpanReplace(L: seq<Region>, h: nat, i: nat, j: nat, mid: seq<Region>)
    requires i <= j <= |L|
    ensures Span(L[..i] + mid + L[j..], h) + Span(L[i..j], h) == Span(L, h) + Span(mid, h)
  {
    SpanConcat(L[..i] + mid, L[j..], h);
    SpanConcat(L[..i], mid, h);
    SpanConcat(L[..i], L[i..j], h);
    SpanConcat(L[..i] + L[i..j], L[j..], h);
    assert L[..i] + L[i..j] + L[j..] == L;
  }

  /** Cutting the layout after block n moves no block before it. */
  lemma PrefixOffsets(L: seq<Region>, h: nat, n: nat)
    requires n <= |L|
    ensures forall i :: 0 <= i <= n ==> Offset(L[..n], h, i) == Offset(L, h, i)
    ensures forall i :: 0 <= i < n ==> Payload(L[..n], h, i) == Payload(L, h, i)
  {
    forall i | 0 <= i <= n ensures Offset(L[..n], h, i) == Offset(L, h, i) {
      assert L[..n][..i] == L[..i];
    }
  }

  lemma SpanOne(r: Region, h: nat)
    ensures Span([r], h) == h + r.size
  {
    assert [r][..0] == [];
  }

  lemma SpanTwo(r: Region, s: Region, h: nat)
    ensures Span([r, s], h) == 2 * h + r.size + s.size
  {
    assert [r, s][..1] == [r];
    SpanOne(r, h);
  }

  // ---------------------------------------------------------------------------
  // Allocation: best fit, then split off the tail when it is larger than a header

  /** Block i is free and large enough for `size` bytes. */
  predicate Fits(L: seq<Region>, size: nat, i: nat)
  {
    i < |L| && !L[i].used && size <= L[i].size
  }

  /** Block i fits, and no fitting block is smaller. Ties are left open. */
  ghost predicate BestFit(L: seq<Region>, size: nat, i: nat)
  {
    Fits(L, size, i) && forall j: nat :: Fits(L, size, j) ==> L[i].size <= L[j].size
  }

  /** The found block is split when what is left after `size` bytes exceeds one header. */
  predicate Splits(L: seq<Region>, h: nat, i: nat, size: nat)
    requires i < |L|
  {
    L[i].size > size + h
  }

  /**
   * Block i cut after `size` bytes: it keeps its flag, and a new free block
   * right after it takes the rest of its bytes minus one header.
   */
  function Cut(L: seq<Region>, h: nat, i: nat, size: nat): (r: seq<Region>)
    requires i < |L| && Splits(L, h, i, size)
    ensures Span(r, h) == Span(L, h) && |r| == |L| + 1
  {
    var mid := [Region(size, L[i].used), Region(L[i].size - size - h, false)];
    assert L[i..i + 1] == [L[i]];
    SpanOne(L[i], h);
    SpanReplace(L, h, i, i + 1, mid);
    SpanTwo(mid[0], mid[1], h);
    L[..i] + mid + L[i + 1..]
  }

  /**
   * Grant block i to a request of `size` bytes: the block becomes used; if it
   * splits, it shrinks to `size` and a new free block takes the rest of its
   * bytes minus one header, right after it in address order.
   */
  function Carve(L: seq<Region>, h: nat, i: nat, size: nat): (r: seq<Region>)
    requires Fits(L, size, i)
    ensures Span(r, h) == Span(L, h)
    ensures |r| == if Splits(L, h, i, size) then |L| + 1 else |L|
  {
    assert L[i..i + 1] == [L[i]];
    SpanOne(L[i], h);
    if Splits(L, h, i, size) then
      var mid := [Region(size, true), Region(L[i].size - size - h, false)];
      SpanReplace(L, h, i, i + 1, mid);
      SpanTwo(mid[0], mid[1], h);
      L[..i] + mid + L[i + 1..]
    else
      var mid := [Region(L[i].size, true)];
      SpanReplace(L, h, i, i + 1, mid);
      SpanOne(mid[0], h);
      L[..i] + mid + L[i + 1..]
  }

  /**
   * fl_alloc(size) granted block i of L, giving layout L' and pointer a: the
   * request is not empty, block i is a best fit, it is carved, and a is its
   * payload pointer.
   */
  ghost predicate Granted(L: seq<Region>, h: nat, size: nat, i: nat, L': seq<Region>, a: nat)
  {
    && 0 < size
    && BestFit(L, size, i)
    && L' == Carve(L, h, i, size)
    && a == Payload(L, h, i)
  }

  /**
   * What one fl_alloc(size) call may do to layout L, giving layout L' and
   * result p: a zero-byte request, or one no free block can hold, returns
   * NULL and changes nothing; otherwise p is the payload pointer of a
   * best-fitting block, and that block is carved.
   */
  ghost predicate AllocOutcome(L: seq<Region>, h: nat, size: nat, L': seq<Region>, p: Option<nat>)
  {
    if size == 0 || forall i :: !Fits(L, size, i) then
      L' == L && p == None
    else
      && p.Some?
      && IndexOf(L, h, p.value).Some?
      && Granted(L, h, size, IndexOf(L, h, p.value).value, L', p.value)
  }

  // ---------------------------------------------------------------------------
  // Release: mark free, then merge with free neighbours

  /** Block k absorbs its successor: the successor's header and payload join k's payload. */
  function MergeNext(L: seq<Region>, h: nat, k: nat): (r: seq<Region>)
    requires k + 1 < |L|
    ensures Span(r, h) == Span(L, h) && |r| == |L| - 1
  {
    var merged := Region(L[k].size + h + L[k + 1].size, false);
    SpanReplace(L, h, k, k + 2, [merged]);
    assert L[k..k + 2] == [L[k], L[k + 1]];
    SpanTwo(L[k], L[k + 1], h);
    SpanOne(merged, h);
    L[..k] + [merged] + L[k + 2..]
  }

  /**
   * Release block i: mark it free, absorb the successor if that is free, then
   * let a free predecessor absorb it.
   */
  function Release(L: seq<Region>, h: nat, i: nat): (r: seq<Region>)
    requires i < |L|
    ensures Span(r, h) == Span(L, h) && 1 <= |r| <= |L|
  {
    var marked := L[i := Region(L[i].size, false)];
    SpanSizes(L, marked, h);
    var absorbed := if i + 1 < |L| && !L[i + 1].used then MergeNext(marked, h, i) else marked;
    if 0 < i && !L[i - 1].used then MergeNext(absorbed, h, i - 1) else absorbed
  }

  /** The block whose payload starts at address a, if there is one. */
  function IndexOf(L: seq<Region>, h: nat, a: nat): (r: Option<nat>)
    ensures r.Some? ==> r.value < |L| && Payload(L, h, r.value) == a
    ensures r.None? ==> forall i :: 0 <= i < |L| ==> Payload(L, h, i) != a
    decreases |L|
  {
    if L == [] then None
    else
      var n := |L| - 1;
      PrefixOffsets(L, h, n);
      if Payload(L, h, n) == a then Some(n) else IndexOf(L[..n], h, a)
  }

  /**
   * fl_free(p): NULL, a pointer that is not the payload of any block, and the
   * payload of a block that is already free are all ignored; otherwise that
   * block is released.
   */
  function Free(L: seq<Region>, h: nat, p: Option<nat>): (r: seq<Region>)
    ensures Span(r, h) == Span(L, h) && |r| <= |L|
    ensures |L| >= 1 ==> |r| >= 1
  {
    match p
    case None => L
    case Some(a) =>
      match IndexOf(L, h, a)
      case None => L
      case Some(i) => if L[i].used then Release(L, h, i) else L
  }

  /** The payload pointers of the blocks in use: what callers currently own. */
  ghost function LiveSet(L: seq<Region>, h: nat): set<nat>
  {
    set i | 0 <= i < |L| && L[i].used :: Payload(L, h, i)
  }
}
