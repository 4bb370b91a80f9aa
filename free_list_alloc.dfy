/**
 * The allocator's state as free_list_alloc.h declares it: block records
 * (block_t) chained in address order through their embedded list node, the
 * first block (root_block), the root of the size-keyed tree of free blocks
 * (tree_root) and the head of the address list (root_head).
 *
 * The addresses of the blocks are not stored: a pointer handed to a caller
 * is the offset of its payload from the start of the arena, and fl_alloc and
 * fl_free recompute offsets while they walk the address list. The layout the
 * blocks describe is the Region sequence of module Arena, and the two
 * operations are proved to act on it exactly as Arena specifies.
 */
module FreeListAlloc {
  import opened List
  import opened Arena
  import opened ArenaLemmas

  /** block_t: a header in front of every block of the arena. */
  class Block {
    var size: nat
    var use: bool
    var l: Block?
    var r: Block?
    const list: ListHead

    /**
     * init_block(size): a new record for a block of `size` payload bytes,
     * with no tree children and a list node that is not linked to anything.
     * The `use` flag is not set, so nothing is promised about it.
     */
    constructor InitBlock(size: nat)
      ensures this.size == size && l == null && r == null
      ensures fresh(list) && list.prev == null && list.next == null
    {
      this.size := size;
      l := null;
      r := null;
      list := new ListHead();
    }
  }

  /** Block i's list node is ns[i], and container_of maps that node back to block i. */
  ghost predicate Agree(bs: seq<Block>, ns: seq<ListHead>, e: map<ListHead, Block>)
  {
    && |bs| == |ns|
    && forall i :: 0 <= i < |bs| ==> bs[i].list == ns[i] && ns[i] in e && e[ns[i]] == bs[i]
  }

  /** Block i has the size and `use` flag of region i. */
  ghost predicate Sizes(bs: seq<Block>, L: seq<Region>)
    reads bs
  {
    && |L| == |bs|
    && forall i :: 0 <= i < |bs| ==> L[i] == Region(bs[i].size, bs[i].use)
  }

  /** Inserting a block and its node at position j keeps them in agreement. */
  lemma AgreeInsert(bs: seq<Block>, ns: seq<ListHead>, e: map<ListHead, Block>, j: nat, t: Block)
    requires Agree(bs, ns, e) && j <= |bs| && t.list !in ns
    ensures Agree(Insert(bs, j, t), Insert(ns, j, t.list), e[t.list := t])
  {
  }

  /** Removing the block and the node at position j keeps the rest in agreement. */
  lemma AgreeRemove(bs: seq<Block>, ns: seq<ListHead>, e: map<ListHead, Block>, j: nat)
    requires Agree(bs, ns, e) && j < |bs|
    ensures Agree(Remove(bs, j), Remove(ns, j), e)
  {
  }

  /** Inserting a block and its region at position j keeps them in agreement. */
  lemma SizesInsert(bs: seq<Block>, L: seq<Region>, j: nat, t: Block)
    requires Sizes(bs, L) && j <= |bs|
    ensures Sizes(Insert(bs, j, t), Insert(L, j, Region(t.size, t.use)))
  {
  }

  /** Removing the block and the region at position j keeps the rest in agreement. */
  lemma SizesRemove(bs: seq<Block>, L: seq<Region>, j: nat)
    requires Sizes(bs, L) && j < |bs|
    ensures Sizes(Remove(bs, j), Remove(L, j))
  {
  }

  class Allocator {
    /** root_block: the block init_fl created, which stays first in address order. */
    var rootBlock: Block
    /**
     * tree_root: the root of the size-keyed tree of free blocks. The tree is
     * not modelled; this is some free block, or null when none is free.
     */
    ghost var treeRoot: Block?
    /** root_head: the head of the address-ordered block list. */
    const rootHead: ListHead
    /** sizeof(block_t). */
    const header: nat
    /** The payload size init_fl was given. */
    const capacity: nat
    /** container_of: the block each list node is embedded in. */
    var entry: map<ListHead, Block>

    /** The blocks in address order, and their list nodes. */
    ghost var blocks: seq<Block>
    ghost var nodes: seq<ListHead>

    /** What the blocks describe: the arena layout of module Arena. */
    ghost var layout: seq<Region>

    /** Block i has the size and `use` flag of layout[i]. */
    ghost predicate Describes()
      reads this`layout, this`blocks, blocks
    {
      Sizes(blocks, layout)
    }

    /** The block records and the address list agree. */
    ghost predicate Linked()
      reads this`blocks, this`nodes, this`entry, this`rootBlock, rootHead, nodes
    {
      && 0 < header
      && |blocks| >= 1
      && rootBlock == blocks[0]
      && Agree(blocks, nodes, entry)
      && IsRing(rootHead, nodes)
    }

    /** tree_root is a free block whenever there is one, and null otherwise. */
    ghost predicate TreeRootFree()
      reads this`treeRoot, this`blocks, blocks
    {
      && (treeRoot == null <==> forall i :: 0 <= i < |blocks| ==> blocks[i].use)
      && (treeRoot != null ==> treeRoot in blocks && !treeRoot.use)
    }

    /** The allocator's invariant between calls. */
    ghost predicate Valid()
      reads this, rootHead, nodes, blocks
    {
      && Linked()
      && Describes()
      && WellFormed(layout, header, capacity)
      && TreeRootFree()
    }

    /** Distinct positions hold distinct block records. */
    lemma BlocksDistinct(i: nat, j: nat)
      requires Linked() && i < |blocks| && j < |blocks| && i != j
      ensures blocks[i] != blocks[j]
    {
      assert nodes[i] != nodes[j];
    }

    /**
     * init_fl(size): one block of `size` payload bytes becomes both
     * root_block and tree_root, and the only member of the address list.
     */
    constructor InitFl(size: nat, h: nat)
      requires 0 < h
      ensures Valid() && fresh(rootHead) && fresh(rootBlock) && fresh(rootBlock.list)
      ensures header == h && capacity == size
      ensures rootBlock == treeRoot && rootBlock.size == size
      ensures entry == map[rootBlock.list := rootBlock]
      ensures layout == Initial(size)
    {
      var b := new Block.InitBlock(size);
      rootBlock := b;
      treeRoot := b;
      rootHead := new ListHead();
      header := h;
      capacity := size;
      entry := map[b.list := b];
      blocks := [b];
      nodes := [b.list];
      new;
      InitListHead(rootHead);
      ListAdd(b.list, rootHead, rootHead, [], 0);
      assert [][..0] + [b.list] + [][0..] == nodes;
      b.use := false;
      layout := [Region(size, false)];
      SpanOne(Region(size, false), h);
    }

    /** Re-point tree_root at some free block, or at null when every block is in use. */
    ghost method PickTreeRoot()
      requires Linked() && Describes() && WellFormed(layout, header, capacity)
      modifies this`treeRoot
      ensures Valid()
    {
      if i :| 0 <= i < |blocks| && !blocks[i].use {
        treeRoot := blocks[i];
      } else {
        treeRoot := null;
      }
    }

    /**
     * The search of fl_alloc: walk the address list, keeping the smallest
     * free block that holds `size` bytes (the first of equal sizes) and its
     * header address.
     */
    method FindBestFit(size: nat) returns (best: Block?, addr: nat, ghost bi: nat)
      requires Valid()
      ensures best == null ==> forall i :: !Fits(layout, size, i)
      ensures best != null ==>
        && bi < |blocks| && best == blocks[bi] && BestFit(layout, size, bi)
        && addr == Offset(layout, header, bi)
    {
      var node := rootHead.next;
      var at := 0;
      best, addr, bi := null, 0, 0;
      ghost var k := 0;
      while node != rootHead
        invariant k <= |nodes| && node == After(rootHead, nodes, k)
        invariant at == Offset(layout, header, k)
        invariant best == null ==> forall j :: 0 <= j < k ==> !Fits(layout, size, j)
        invariant best != null ==>
          && bi < k && best == blocks[bi] && addr == Offset(layout, header, bi) && Fits(layout, size, bi)
          && forall j :: 0 <= j < k && Fits(layout, size, j) ==> layout[bi].size <= layout[j].size
        decreases |nodes| - k
      {
        var b := entry[node];
        if !b.use && size <= b.size && (best == null || b.size < best.size) {
          best, addr, bi := b, at, k;
        }
        OffsetStep(layout, header, k);
        at := at + header + b.size;
        node := node.next;
        k := k + 1;
      }
    }

    /**
     * The lookup of fl_free: walk the address list for the block whose
     * payload starts at `a`.
     */
    method FindPayload(a: nat) returns (b: Block?, ghost k: nat)
      requires Valid()
      ensures b == null ==> IndexOf(layout, header, a) == None
      ensures b != null ==> k < |blocks| && b == blocks[k] && IndexOf(layout, header, a) == Some(k)
    {
      var node := rootHead.next;
      var at := 0;
      k := 0;
      while node != rootHead && at + header != a
        invariant k <= |nodes| && node == After(rootHead, nodes, k)
        invariant at == Offset(layout, header, k)
        invariant forall j :: 0 <= j < k ==> Payload(layout, header, j) != a
        decreases |nodes| - k
      {
        OffsetStep(layout, header, k);
        at := at + header + entry[node].size;
        node := node.next;
        k := k + 1;
      }
      if node == rootHead {
        b := null;
      } else {
        b := entry[node];
        IndexOfPayload(layout, header, k);
      }
    }

    /** Set the `use` flag of block k. */
    method SetUse(b: Block, ghost k: nat, u: bool)
      requires Linked() && Describes() && k < |blocks| && blocks[k] == b
      modifies b, this`layout
      ensures Linked() && Describes() && b.use == u && b.size == old(b.size)
      ensures layout == old(layout)[k := Region(b.size, u)]
    {
      b.use := u;
      layout := layout[k := Region(b.size, u)];
      forall j | 0 <= j < |blocks| && j != k ensures blocks[j] != b {
        BlocksDistinct(j, k);
      }
    }

    /** Set the size of block k. */
    method SetSize(b: Block, ghost k: nat, size: nat)
      requires Linked() && Describes() && k < |blocks| && blocks[k] == b
      modifies b, this`layout
      ensures Linked() && Describes() && b.size == size && b.use == old(b.use)
      ensures layout == old(layout)[k := Region(size, b.use)]
    {
      b.size := size;
      layout := layout[k := Region(size, b.use)];
      forall j | 0 <= j < |blocks| && j != k ensures blocks[j] != b {
        BlocksDistinct(j, k);
      }
    }

    /**
     * Record block `tail`, whose node the address list already holds after
     * block k's, in the ghost view and in container_of.
     */
    method RecordAfter(tail: Block, ghost k: nat)
      requires 0 < header && |blocks| >= 1 && rootBlock == blocks[0] && k < |blocks|
      requires Agree(blocks, nodes, entry) && Sizes(blocks, layout)
      requires tail !in blocks && tail.list !in nodes && IsRing(rootHead, Insert(nodes, k + 1, tail.list))
      modifies this`blocks, this`nodes, this`layout, this`entry
      ensures Linked() && Describes()
      ensures blocks == Insert(old(blocks), k + 1, tail)
      ensures layout == Insert(old(layout), k + 1, Region(tail.size, tail.use))
      ensures entry == old(entry)[tail.list := tail]
    {
      AgreeInsert(blocks, nodes, entry, k + 1, tail);
      SizesInsert(blocks, layout, k + 1, tail);
      blocks := Insert(blocks, k + 1, tail);
      nodes := Insert(nodes, k + 1, tail.list);
      layout := Insert(layout, k + 1, Region(tail.size, tail.use));
      entry := entry[tail.list := tail];
    }

    /**
     * list_add(&tail->list, &blocks[k]->list): link a block that is not yet
     * in the address list right after block k.
     */
    method LinkAfter(tail: Block, b: Block, ghost k: nat)
      requires Linked() && Describes() && k < |blocks| && blocks[k] == b
      requires tail !in blocks && tail.list !in nodes && tail.list != rootHead
      modifies this`blocks, this`nodes, this`layout, this`entry, rootHead, entry.Keys, tail.list
      ensures Linked() && Describes()
      ensures blocks == Insert(old(blocks), k + 1, tail) && blocks[k] == b
      ensures layout == Insert(old(layout), k + 1, Region(tail.size, tail.use))
      ensures entry == old(entry)[tail.list := tail]
    {
      assert b.list.next in nodes || b.list.next == rootHead by {
        if k + 1 < |nodes| { assert b.list.next == nodes[k + 1]; }
      }
      ListAdd(tail.list, b.list, rootHead, nodes, k + 1);
      RecordAfter(tail, k);
    }

    /** Forget block j, whose node the address list no longer holds, in the ghost view. */
    ghost method RecordRemoved(j: nat)
      requires 0 < header && 0 < j < |blocks| && rootBlock == blocks[0]
      requires Agree(blocks, nodes, entry) && Sizes(blocks, layout)
      requires IsRing(rootHead, Remove(nodes, j))
      modifies this`blocks, this`nodes, this`layout
      ensures Linked() && Describes()
      ensures blocks == Remove(old(blocks), j)
      ensures layout == Remove(old(layout), j)
    {
      AgreeRemove(blocks, nodes, entry, j);
      SizesRemove(blocks, layout, j);
      blocks := Remove(blocks, j);
      nodes := Remove(nodes, j);
      layout := Remove(layout, j);
    }

    /** list_del(&blocks[j]->list): unlink block j, which is not the first. */
    method Unlink(s: Block, ghost j: nat)
      requires Linked() && Describes() && 0 < j < |blocks| && blocks[j] == s
      modifies this`blocks, this`nodes, this`layout, rootHead, entry.Keys
      ensures Linked() && Describes()
      ensures blocks == Remove(old(blocks), j)
      ensures layout == Remove(old(layout), j)
    {
      var node := s.list;
      assert node.next in nodes || node.next == rootHead by {
        if j + 1 < |nodes| { assert node.next == nodes[j + 1]; }
      }
      assert node.prev == nodes[j - 1];
      ListDel(node, rootHead, nodes, j);
      RecordRemoved(j);
    }

    /**
     * Split block k for a request of `size` bytes: it keeps the first `size`
     * bytes, and a new free block made of the rest minus one header is
     * linked in right after it.
     */
    method Split(b: Block, ghost k: nat, size: nat) returns (tail: Block)
      requires Linked() && Describes() && k < |blocks| && blocks[k] == b && b.size > size + header
      modifies this`blocks, this`nodes, this`layout, this`entry, rootHead, entry.Keys, entry.Values
      ensures Linked() && Describes()
      ensures |blocks| == old(|blocks|) + 1 && blocks[k] == b && b.size == size && b.use == old(b.use)
      ensures layout == Cut(old(layout), header, k, size)
      ensures fresh(tail) && fresh(tail.list) && entry == old(entry)[tail.list := tail]
    {
      ghost var L, u := layout, b.use;
      var rest := b.size - size - header;
      tail := new Block.InitBlock(rest);
      tail.use := false;
      LinkAfter(tail, b, k);
      SetSize(b, k, size);
      InsertedAfterThenSet(L, k, Region(rest, false), Region(size, u));
      assert layout == Cut(L, header, k, size);
    }

    /** Hand out block i, splitting off the tail that does not fit in `size`. */
    method GrantSplit(b: Block, ghost i: nat, size: nat) returns (ghost tail: Block)
      requires Linked() && Describes() && i < |blocks| && b == blocks[i]
      requires Fits(layout, size, i) && Splits(layout, header, i, size)
      modifies this`blocks, this`nodes, this`layout, this`entry, rootHead, entry.Keys, entry.Values
      ensures Linked() && Describes() && layout == Carve(old(layout), header, i, size)
      ensures fresh(tail) && fresh(tail.list) && entry == old(entry)[tail.list := tail]
    {
      ghost var L := layout;
      tail := Split(b, i, size);
      ghost var M := layout;
      SetUse(b, i, true);
      SplitThenMark(L, header, i, size, M, layout);
    }

    /**
     * Hand out block i, which fits `size` bytes: split off its tail when the
     * tail is larger than one header, then mark the block used.
     */
    method Grant(b: Block, ghost i: nat, size: nat) returns (ghost tail: Block?)
      requires Linked() && Describes() && i < |blocks| && b == blocks[i] && Fits(layout, size, i)
      modifies this`blocks, this`nodes, this`layout, this`entry, rootHead, entry.Keys, entry.Values
      ensures Linked() && Describes() && layout == Carve(old(layout), header, i, size)
      ensures tail == null ==> entry == old(entry)
      ensures tail != null ==> fresh(tail) && fresh(tail.list) && entry == old(entry)[tail.list := tail]
    {
      ghost var L := layout;
      assert L[i].size == b.size;
      if b.size > size + header {
        tail := GrantSplit(b, i, size);
      } else {
        tail := null;
        SetUse(b, i, true);
        CarveWhole(L, header, i, size);
      }
    }

    /** Grant block bi, `best`, whose header is at `addr`, to a request of `size` bytes. */
    method Take(best: Block, ghost bi: nat, addr: nat, size: nat) returns (p: Option<nat>, ghost tail: Block?)
      requires Valid() && bi < |blocks| && best == blocks[bi]
      requires Fits(layout, size, bi) && addr == Offset(layout, header, bi)
      modifies this`blocks, this`nodes, this`layout, this`entry, this`treeRoot, rootHead, entry.Keys, entry.Values
      ensures Valid()
      ensures layout == Carve(old(layout), header, bi, size) && p == Some(addr + header)
      ensures tail == null ==> entry == old(entry)
      ensures tail != null ==> fresh(tail) && fresh(tail.list) && entry == old(entry)[tail.list := tail]
    {
      ghost var L := layout;
      p := Some(addr + header);
      CarveWellFormed(L, header, capacity, bi, size);
      tail := Grant(best, bi, size);
      PickTreeRoot();
    }

    /**
     * fl_alloc(size): grant the best-fitting free block, splitting off its
     * tail as a new free block when the tail is larger than one header.
     * Returns NULL, changing nothing, for a zero-byte request or when no
     * free block is large enough. The ghost result i is the position of the
     * granted block.
     */
    method FlAlloc(size: nat) returns (p: Option<nat>, ghost i: nat, ghost tail: Block?)
      requires Valid()
      modifies this`blocks, this`nodes, this`layout, this`entry, this`treeRoot, rootHead, entry.Keys, entry.Values
      ensures Valid()
      ensures p.None? ==> layout == old(layout) && (size == 0 || forall j :: !Fits(old(layout), size, j))
      ensures p.Some? ==> Granted(old(layout), header, size, i, layout, p.value)
      ensures AllocOutcome(old(layout), header, size, layout, p)
      ensures tail == null ==> entry == old(entry)
      ensures tail != null ==> fresh(tail) && fresh(tail.list) && entry == old(entry)[tail.list := tail]
    {
      if size == 0 {
        return None, 0, null;
      }
      var best, addr;
      best, addr, i := FindBestFit(size);
      if best == null {
        return None, 0, null;
      }
      ghost var L := layout;
      p, tail := Take(best, i, addr, size);
      AllocResultOutcome(L, header, size, i, layout, p);
    }

    /**
     * Block k absorbs its successor: the successor's header and payload are
     * added to k's size and its list node is unlinked. Both must be free.
     */
    method Absorb(b: Block, ghost k: nat)
      requires Linked() && Describes() && k + 1 < |blocks| && blocks[k] == b
      requires !b.use && !blocks[k + 1].use
      modifies this`blocks, this`nodes, this`layout, rootHead, entry.Keys, entry.Values
      ensures Linked() && Describes()
      ensures blocks == Remove(old(blocks), k + 1)
      ensures layout == MergeNext(old(layout), header, k)
    {
      ghost var L := layout;
      var s := entry[b.list.next];
      assert s == blocks[k + 1];
      var merged := b.size + header + s.size;
      Unlink(s, k + 1);
      SetSize(b, k, merged);
      RemovedAfterThenSet(L, k, Region(merged, false));
    }

    /** The list node after block k's is block k + 1's, or root_head after the last block. */
    lemma NextOf(k: nat)
      requires Linked() && k < |blocks|
      ensures blocks[k].list.next == rootHead <==> k + 1 == |blocks|
      ensures k + 1 < |blocks| ==> blocks[k].list.next in entry && entry[blocks[k].list.next] == blocks[k + 1]
    {
      assert blocks[k].list == nodes[k];
    }

    /** The list node before block k's is block k - 1's, or root_head before the first block. */
    lemma PrevOf(k: nat)
      requires Linked() && k < |blocks|
      ensures blocks[k].list.prev == rootHead <==> k == 0
      ensures 0 < k ==> blocks[k].list.prev in entry && entry[blocks[k].list.prev] == blocks[k - 1]
    {
      assert blocks[k].list == nodes[k];
    }

    /** Mark block k free and let it absorb its successor when that is free. */
    method MarkFree(b: Block, ghost k: nat)
      requires Linked() && Describes() && k < |blocks| && b == blocks[k]
      modifies this`blocks, this`nodes, this`layout, rootHead, entry.Keys, entry.Values
      ensures Linked() && Describes() && k < |blocks| && b == blocks[k] && !b.use
      ensures var marked := old(layout)[k := Region(old(layout)[k].size, false)];
        layout == if k + 1 < |marked| && !marked[k + 1].used then MergeNext(marked, header, k) else marked
    {
      SetUse(b, k, false);
      NextOf(k);
      var next := b.list.next;
      if next != rootHead && !entry[next].use {
        Absorb(b, k);
      }
    }

    /**
     * Mark block k free, let it absorb a free successor, then let a free
     * predecessor absorb it.
     */
    method Coalesce(b: Block, ghost k: nat)
      requires Linked() && Describes() && k < |blocks| && b == blocks[k]
      modifies this`blocks, this`nodes, this`layout, rootHead, entry.Keys, entry.Values
      ensures Linked() && Describes() && layout == Release(old(layout), header, k)
    {
      ghost var L := layout;
      MarkFree(b, k);
      ghost var absorbed := layout;
      PrevOf(k);
      var prev := b.list.prev;
      if prev != rootHead && !entry[prev].use {
        assert absorbed[k - 1] == L[k - 1];
        Absorb(entry[prev], k - 1);
      }
    }

    /** Release block k and re-point tree_root. */
    method ReleaseBlock(b: Block, ghost k: nat)
      requires Valid() && k < |blocks| && b == blocks[k]
      modifies this`blocks, this`nodes, this`layout, this`treeRoot, rootHead, entry.Keys, entry.Values
      ensures Valid() && layout == Release(old(layout), header, k)
    {
      ghost var L := layout;
      ReleaseCoalesced(L, header, k);
      Coalesce(b, k);
      PickTreeRoot();
    }

    /**
     * fl_free(p): release the block whose payload starts at p. NULL, a
     * pointer that is no block's payload and a block that is already free
     * are ignored.
     */
    method FlFree(p: Option<nat>)
      requires Valid()
      modifies this`blocks, this`nodes, this`layout, this`treeRoot, rootHead, entry.Keys, entry.Values
      ensures Valid()
      ensures layout == Arena.Free(old(layout), header, p)
    {
      if p.None? {
        return;
      }
      var b;
      ghost var k;
      b, k := FindPayload(p.value);
      if b == null || !b.use {
        return;
      }
      ReleaseBlock(b, k);
    }

    /** list_size in test.c: the number of blocks in the address list. */
    method ListSize() returns (n: nat)
      requires Valid()
      ensures Valid() && n == |layout|
    {
      var visited := ForEach(rootHead, nodes);
      n := |visited|;
    }

    /**
     * Once the layout is back to one free block, tree_root is that block,
     * it is root_block again, and its size is the capacity given to init_fl.
     */
    lemma TreeRootSpansArena()
      requires Valid() && layout == Initial(capacity)
      ensures treeRoot == rootBlock && treeRoot.size == capacity
    {
      assert !blocks[0].use;
    }
  }
}
