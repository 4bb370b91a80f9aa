/**
 * main() of test.c driven through the Allocator class, one method per group
 * of calls. Each method starts from the layout the group before it leaves
 * and ends in the layout the group after it needs, so that run in the order
 * Start, SideBySide, ReuseFreedBlock, ReleaseBoth, OneArrayThenRelease,
 * TreeRootAfterRelease, SideBySide, SkipSmallGap, ReleaseAllThenZero they
 * are main() up to the stress test. Every `assert` of test.c is an `assert`
 * here, discharged by the scenario lemmas of module Scenarios from the
 * contracts of FlAlloc and FlFree. test.c's `array`, `array2`, ... are named
 * `arr`, `arr2`, ... here, since `array2` is a Dafny type name.
 */
module TestMain {
  import opened Arena
  import opened ArenaLemmas
  import opened Scenarios
  import opened FreeListAlloc

  /** The allocator holds its invariant, for header size h and 1 << 30 bytes. */
  ghost predicate Ready(a: Allocator, h: nat)
    reads a, a.rootHead, a.nodes, a.blocks
  {
    a.Valid() && a.header == h && HeaderSize(h) && a.capacity == Capacity
  }

  /** init_fl(1 << 30) at test.c:60. */
  method Start(h: nat) returns (a: Allocator)
    requires HeaderSize(h)
    ensures Ready(a, h) && a.layout == Initial(Capacity)
  {
    a := new Allocator.InitFl(Capacity, h);
  }

  /**
   * test.c:63-65, and again at test.c:96-97: from one free block, two
   * 120-byte arrays sit side by side.
   */
  method SideBySide(a: Allocator, ghost h: nat) returns (arr: Option<nat>, arr2: Option<nat>)
    requires Ready(a, h) && a.layout == Initial(Capacity)
    modifies a, a.rootHead, a.entry.Keys, a.entry.Values
    ensures Ready(a, h) && a.layout == TwoArrays(h)
    ensures arr == Some(h) && arr2 == Some(2 * h + 120)
  {
    ghost var i, t;
    arr, i, t := a.FlAlloc(120);
    ghost var L1 := a.layout;
    arr2, i, t := a.FlAlloc(120);
    SecondArrayAdjacent(h, L1, arr, a.layout, arr2);
    assert arr2.value - arr.value - h == 120;
  }

  /**
   * test.c:68-74: the first array is released, the next 120-byte request
   * gets it back, and three blocks are listed.
   */
  method ReuseFreedBlock(a: Allocator, arr: Option<nat>, ghost h: nat) returns (arr3: Option<nat>)
    requires Ready(a, h) && a.layout == TwoArrays(h) && arr == Some(h)
    modifies a, a.rootHead, a.entry.Keys, a.entry.Values
    ensures Ready(a, h) && a.layout == TwoArrays(h) && arr3 == Some(h)
  {
    a.FlFree(arr);
    ghost var i, t;
    arr3, i, t := a.FlAlloc(120);
    FreedBlockReused(h, a.layout, arr3);
    assert arr3 == arr;
    var count := a.ListSize();
    assert count == 3;
  }

  /** The layouts test.c:77-78 passes through. */
  lemma ReleaseBothSteps(h: nat, L1: seq<Region>, L2: seq<Region>)
    requires HeaderSize(h)
    requires L1 == Free(TwoArrays(h), h, Some(2 * h + 120)) && L2 == Free(L1, h, Some(h))
    ensures L2 == Initial(Capacity)
  {
    var ps := [2 * h + 120, h];
    BothReleasedCoalesce(h, ps);
    FreeTwo(TwoArrays(h), h, ps[0], ps[1]);
  }

  /** test.c:77-80: releasing both arrays merges the list back into one block. */
  method ReleaseBoth(a: Allocator, arr2: Option<nat>, arr3: Option<nat>, ghost h: nat)
    requires Ready(a, h) && a.layout == TwoArrays(h)
    requires arr2 == Some(2 * h + 120) && arr3 == Some(h)
    modifies a, a.rootHead, a.entry.Keys, a.entry.Values
    ensures Ready(a, h) && a.layout == Initial(Capacity)
  {
    a.FlFree(arr2);
    ghost var L1 := a.layout;
    a.FlFree(arr3);
    ReleaseBothSteps(h, L1, a.layout);
    var count := a.ListSize();
    assert count == 1;
  }

  /**
   * test.c:84-87, 89: a 200-byte array splits the single block in two, and
   * releasing it merges them again.
   */
  method OneArrayThenRelease(a: Allocator, ghost h: nat)
    requires Ready(a, h) && a.layout == Initial(Capacity)
    modifies a, a.rootHead, a.entry.Keys, a.entry.Values
    ensures Ready(a, h) && a.layout == Initial(Capacity)
  {
    ghost var i, t;
    var arr4;
    arr4, i, t := a.FlAlloc(200);
    OneArrayTwoBlocks(h, 200, a.layout, arr4);
    var count := a.ListSize();
    assert count == 2;
    ArrayReleasedRestoresArena(h, 200, a.layout, arr4);
    a.FlFree(arr4);
  }

  /**
   * test.c:90-94: after one more 120-byte array comes and goes, tree_root
   * is the single block of the whole arena.
   */
  method TreeRootAfterRelease(a: Allocator, ghost h: nat)
    requires Ready(a, h) && a.layout == Initial(Capacity)
    modifies a, a.rootHead, a.entry.Keys, a.entry.Values
    ensures Ready(a, h) && a.layout == Initial(Capacity)
  {
    ghost var i, t;
    var arr;
    arr, i, t := a.FlAlloc(120);
    ArrayReleasedRestoresArena(h, 120, a.layout, arr);
    a.FlFree(arr);
    a.TreeRootSpansArena();
    assert a.treeRoot.size == Capacity;
  }

  /**
   * test.c:98-101: with two 120-byte arrays side by side, the first is
   * released; a 160-byte request skips that gap, and four blocks are listed.
   */
  method SkipSmallGap(a: Allocator, arr: Option<nat>, ghost h: nat) returns (arr3: Option<nat>)
    requires Ready(a, h) && a.layout == TwoArrays(h) && arr == Some(h)
    modifies a, a.rootHead, a.entry.Keys, a.entry.Values
    ensures Ready(a, h) && a.layout == ThirdArrayAfterGap(h) && arr3 == Some(3 * h + 240)
  {
    a.FlFree(arr);
    ghost var i, t;
    arr3, i, t := a.FlAlloc(160);
    SmallGapStaysSeparate(h, a.layout, arr3);
    var count := a.ListSize();
    assert count == 4;
  }

  /** The layouts test.c:103-105 passes through. */
  lemma ReleaseAllSteps(h: nat, L1: seq<Region>, L2: seq<Region>)
    requires HeaderSize(h)
    requires L1 == Free(ThirdArrayAfterGap(h), h, Some(2 * h + 120)) && L2 == Free(L1, h, Some(3 * h + 240))
    ensures L2 == Initial(Capacity)
  {
    var ps := [2 * h + 120, 3 * h + 240];
    GapAndArraysCoalesce(h, ps);
    FreeTwo(ThirdArrayAfterGap(h), h, ps[0], ps[1]);
  }

  /**
   * test.c:103-110: releasing the two arrays merges everything into one
   * block, and a zero-byte request returns NULL.
   */
  method ReleaseAllThenZero(a: Allocator, arr2: Option<nat>, arr3: Option<nat>, ghost h: nat)
    requires Ready(a, h) && a.layout == ThirdArrayAfterGap(h)
    requires arr2 == Some(2 * h + 120) && arr3 == Some(3 * h + 240)
    modifies a, a.rootHead, a.entry.Keys, a.entry.Values
    ensures Ready(a, h) && a.layout == Initial(Capacity)
  {
    a.FlFree(arr2);
    ghost var L1 := a.layout;
    a.FlFree(arr3);
    ReleaseAllSteps(h, L1, a.layout);
    var count := a.ListSize();
    assert count == 1;

    var arr;
    ghost var i, t;
    arr, i, t := a.FlAlloc(0);
    assert arr == None;
  }
}
