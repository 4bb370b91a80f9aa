/**
 * The scenarios that test.c asserts, proved from the specification of
 * fl_alloc and fl_free in module Arena.
 *
 * test.c calls init_fl(1 << 30) and then allocates arrays of 30, 50 and 40
 * ints; with 4-byte ints those are requests of 120, 200 and 160 bytes. The
 * header size sizeof(block_t) is a parameter `h`: every lemma holds for any
 * header of 1 to 1024 bytes, which covers every ABI block_t is built for.
 */
module Scenarios {
  import opened Arena
  import opened ArenaLemmas

  /** 1 << 30: the capacity test.c gives init_fl. */
  const Capacity: nat := 0x4000_0000

  /** The header sizes the scenarios are proved for. */
  predicate HeaderSize(h: nat)
  {
    0 < h <= 1024
  }

  /** Two 120-byte blocks in use, then the free rest of the arena. */
  function TwoArrays(h: nat): seq<Region>
    requires HeaderSize(h)
  {
    [Region(120, true), Region(120, true), Region(Capacity - 240 - 2 * h, false)]
  }

  /** TwoArrays after the first array is released. */
  function FirstReleased(h: nat): seq<Region>
    requires HeaderSize(h)
  {
    [Region(120, false), Region(120, true), Region(Capacity - 240 - 2 * h, false)]
  }

  lemma SpanThree(a: Region, b: Region, c: Region, h: nat)
    ensures Span([a, b, c], h) == 3 * h + a.size + b.size + c.size
  {
    assert [a, b, c][..2] == [a, b];
    SpanTwo(a, b, h);
  }

  /** TwoArrays tiles the arena and has no free neighbours. */
  lemma TwoArraysWellFormed(h: nat)
    requires HeaderSize(h)
    ensures WellFormed(TwoArrays(h), h, Capacity)
  {
    var L := TwoArrays(h);
    SpanThree(L[0], L[1], L[2], h);
  }

  /** The pointers to the two arrays of TwoArrays. */
  lemma TwoArraysPayloads(h: nat)
    requires HeaderSize(h)
    ensures Payload(TwoArrays(h), h, 0) == h
    ensures Payload(TwoArrays(h), h, 1) == 2 * h + 120
    ensures Payload(FirstReleased(h), h, 0) == h
  {
    var L := TwoArrays(h);
    assert L[..0] == [] && L[..1] == [L[0]];
    assert FirstReleased(h)[..0] == [];
    SpanOne(L[0], h);
  }

  /**
   * test.c:61-65: from a fresh arena, the second 120-byte array starts one
   * header after the end of the first.
   */
  lemma SecondArrayAdjacent(h: nat, L1: seq<Region>, p1: Option<nat>, L2: seq<Region>, p2: Option<nat>)
    requires HeaderSize(h)
    requires AllocOutcome(Initial(Capacity), h, 120, L1, p1)
    requires AllocOutcome(L1, h, 120, L2, p2)
    ensures p1 == Some(h) && p2 == Some(2 * h + 120)
    ensures p2.value - p1.value - h == 120
    ensures L2 == TwoArrays(h)
  {
    var L0 := Initial(Capacity);
    UniqueBestFit(L0, h, 120, 0, L1, p1);
    assert L0[..0] == [];
    assert L1 == [Region(120, true), Region(Capacity - 120 - h, false)];
    UniqueBestFit(L1, h, 120, 1, L2, p2);
    assert L2 == L1[..1] + [Region(120, true), Region(Capacity - 240 - 2 * h, false)];
    assert L1[..1] == [L1[0]];
    SpanOne(L1[0], h);
  }

  /** Releasing the first array of TwoArrays frees its block and merges nothing. */
  lemma ReleaseFirstArray(h: nat)
    requires HeaderSize(h)
    ensures Free(TwoArrays(h), h, Some(h)) == FirstReleased(h)
  {
    var L := TwoArrays(h);
    TwoArraysPayloads(h);
    IndexOfPayload(L, h, 0);
  }

  /**
   * test.c:68-74: after the first array is released, a new 120-byte request
   * gets the same pointer back, and the address list holds three blocks.
   */
  lemma FreedBlockReused(h: nat, L3: seq<Region>, p3: Option<nat>)
    requires HeaderSize(h)
    requires AllocOutcome(Free(TwoArrays(h), h, Some(h)), h, 120, L3, p3)
    ensures p3 == Some(h) && |L3| == 3
    ensures L3 == TwoArrays(h)
  {
    ReleaseFirstArray(h);
    var M := FirstReleased(h);
    UniqueBestFit(M, h, 120, 0, L3, p3);
    TwoArraysPayloads(h);
  }

  /** Releasing two pointers one after the other. */
  lemma FreeTwo(L: seq<Region>, h: nat, x: nat, y: nat)
    ensures FreeEach(L, h, [x, y]) == Free(Free(L, h, Some(x)), h, Some(y))
  {
    var M := Free(L, h, Some(x));
    assert [x, y][0] == x && [x, y][1..] == [y];
    assert FreeEach(L, h, [x, y]) == FreeEach(M, h, [y]);
    assert [y][0] == y && [y][1..] == [];
    assert FreeEach(M, h, [y]) == FreeEach(Free(M, h, Some(y)), h, []);
  }

  /**
   * test.c:77-80: releasing both arrays, in either order, merges the address
   * list back into the single block init_fl made.
   */
  lemma BothReleasedCoalesce(h: nat, ps: seq<nat>)
    requires HeaderSize(h)
    requires h in ps && 2 * h + 120 in ps
    ensures FreeEach(TwoArrays(h), h, ps) == Initial(Capacity)
  {
    var L := TwoArrays(h);
    TwoArraysWellFormed(h);
    TwoArraysPayloads(h);
    forall a | a in LiveSet(L, h) ensures a in ps {
      var j :| 0 <= j < |L| && L[j].used && Payload(L, h, j) == a;
    }
    ReleaseAllCoalesces(L, h, Capacity, ps);
  }

  /**
   * test.c:83-87: one allocation from the single free block of a fresh
   * arena leaves two blocks: the granted one and the free tail.
   */
  lemma OneArrayTwoBlocks(h: nat, size: nat, L: seq<Region>, p: Option<nat>)
    requires HeaderSize(h) && 0 < size && size + h < Capacity
    requires AllocOutcome(Initial(Capacity), h, size, L, p)
    ensures p == Some(h) && |L| == 2
  {
    var L0 := Initial(Capacity);
    UniqueBestFit(L0, h, size, 0, L, p);
    assert L0[..0] == [];
  }

  /**
   * test.c:88-94: an allocation from a fresh arena, released again, leaves
   * the arena as init_fl made it: one free block of the whole capacity.
   */
  lemma ArrayReleasedRestoresArena(h: nat, size: nat, L: seq<Region>, p: Option<nat>)
    requires HeaderSize(h)
    requires AllocOutcome(Initial(Capacity), h, size, L, p)
    ensures Free(L, h, p) == Initial(Capacity)
  {
    var L0 := Initial(Capacity);
    assert WellFormed(L0, h, Capacity) by {
      SpanOne(L0[0], h);
    }
    if p.Some? {
      AllocFreeRoundTrip(L0, h, Capacity, size, L, p.value);
    }
  }

  /** FirstReleased with the free tail carved for 160 bytes. */
  function ThirdArrayAfterGap(h: nat): seq<Region>
    requires HeaderSize(h)
  {
    [Region(120, false), Region(120, true), Region(160, true), Region(Capacity - 400 - 3 * h, false)]
  }

  /**
   * test.c:96-101: with the first 120-byte array released, a 160-byte
   * request does not fit in its block, which stays a separate free block;
   * the request is carved from the tail and the list holds four blocks.
   */
  lemma SmallGapStaysSeparate(h: nat, L: seq<Region>, p: Option<nat>)
    requires HeaderSize(h)
    requires AllocOutcome(Free(TwoArrays(h), h, Some(h)), h, 160, L, p)
    ensures p == Some(3 * h + 240) && |L| == 4
    ensures L == ThirdArrayAfterGap(h)
  {
    ReleaseFirstArray(h);
    var M := FirstReleased(h);
    UniqueBestFit(M, h, 160, 2, L, p);
    assert L == M[..2] + [Region(160, true), Region(Capacity - 400 - 3 * h, false)];
    assert M[..2] == [M[0], M[1]];
    SpanTwo(M[0], M[1], h);
  }

  /**
   * test.c:103-107: releasing the two arrays still in use, in either order,
   * merges the gap, both arrays and the tail into one block again.
   */
  lemma GapAndArraysCoalesce(h: nat, ps: seq<nat>)
    requires HeaderSize(h)
    requires 2 * h + 120 in ps && 3 * h + 240 in ps
    ensures FreeEach(ThirdArrayAfterGap(h), h, ps) == Initial(Capacity)
  {
    var L := ThirdArrayAfterGap(h);
    assert Span(L, h) == h + Capacity by {
      assert L == L[..3] + [L[3]];
      SpanConcat(L[..3], [L[3]], h);
      assert L[..3] == [L[0], L[1], L[2]];
      SpanThree(L[0], L[1], L[2], h);
      SpanOne(L[3], h);
    }
    assert Payload(L, h, 1) == 2 * h + 120 by {
      assert L[..1] == [L[0]];
      SpanOne(L[0], h);
    }
    assert Payload(L, h, 2) == 3 * h + 240 by {
      assert L[..2] == [L[0], L[1]];
      SpanTwo(L[0], L[1], h);
    }
    forall a | a in LiveSet(L, h) ensures a in ps {
      var j :| 0 <= j < |L| && L[j].used && Payload(L, h, j) == a;
    }
    ReleaseAllCoalesces(L, h, Capacity, ps);
  }

  /** test.c:109-110: a zero-byte request returns NULL and changes nothing. */
  lemma ZeroRequestIsNull(h: nat, L: seq<Region>, L': seq<Region>, p: Option<nat>)
    requires AllocOutcome(L, h, 0, L', p)
    ensures p == None && L' == L
  {
  }
}
