/**
 * The intrusive circular doubly-linked list of includes/list.h.
 *
 * A list is identified by its head node. The nodes that follow the head,
 * in `next` order, are given to every operation as a ghost sequence `xs`:
 * `IsRing(head, xs)` says that head, xs[0], ..., xs[|xs| - 1] form one ring
 * whose `next` and `prev` links agree.
 */
module List {

  /** struct list_head: a link pair that is embedded in a container record. */
  class ListHead {
    var prev: ListHead?
    var next: ListHead?

    /** A node as freshly allocated storage: not linked to anything yet. */
    constructor ()
      ensures prev == null && next == null
    {
      prev := null;
      next := null;
    }
  }

  /** The ring node at position `k`, counting the head as position 0. */
  ghost function At(head: ListHead, xs: seq<ListHead>, k: nat): ListHead
    requires k <= |xs|
  {
    if k == 0 then head else xs[k - 1]
  }

  /** The ring node that follows position `k`: xs[k], or the head after the last member. */
  ghost function After(head: ListHead, xs: seq<ListHead>, k: nat): ListHead
    requires k <= |xs|
  {
    if k == |xs| then head else xs[k]
  }

  /** No element occurs twice in xs. */
  ghost predicate Distinct<T>(xs: seq<T>)
  {
    forall i, j :: 0 <= i < j < |xs| ==> xs[i] != xs[j]
  }

  /**
   * head -> xs[0] -> ... -> xs[|xs| - 1] -> head is a well-formed ring:
   * all nodes distinct, and every `next` link is mirrored by a `prev` link.
   * With xs == [] this is the empty list: the head points at itself.
   */
  ghost predicate IsRing(head: ListHead, xs: seq<ListHead>)
    reads head, xs
  {
    && head !in xs
    && Distinct(xs)
    && head.next == After(head, xs, 0)
    && head.prev == At(head, xs, |xs|)
    && (forall i {:trigger xs[i].prev} :: 0 <= i < |xs| ==> xs[i].prev == At(head, xs, i))
    && (forall i {:trigger xs[i].next} :: 0 <= i < |xs| ==> xs[i].next == After(head, xs, i + 1))
  }

  /**
   * The invariant every node of a well-formed ring satisfies:
   * x.next.prev == x and x.prev.next == x, for the head and for every member.
   */
  lemma RingLinked(head: ListHead, xs: seq<ListHead>, k: nat)
    requires IsRing(head, xs) && k <= |xs|
    ensures At(head, xs, k).next != null && At(head, xs, k).next.prev == At(head, xs, k)
    ensures At(head, xs, k).prev != null && At(head, xs, k).prev.next == At(head, xs, k)
  {
  }

  /** xs with x inserted at position k: x is at k, and the elements from k on move up by one. */
  function Insert<T>(xs: seq<T>, k: nat, x: T): (ys: seq<T>)
    requires k <= |xs|
    ensures |ys| == |xs| + 1 && ys[k] == x
    ensures forall i :: 0 <= i < k ==> ys[i] == xs[i]
    ensures forall i :: k < i < |ys| ==> ys[i] == xs[i - 1]
  {
    xs[..k] + [x] + xs[k..]
  }

  /** xs with position k removed: the elements after k move down by one. */
  function Remove<T>(xs: seq<T>, k: nat): (ys: seq<T>)
    requires k < |xs|
    ensures |ys| == |xs| - 1
    ensures forall i :: 0 <= i < k ==> ys[i] == xs[i]
    ensures forall i :: k <= i < |ys| ==> ys[i] == xs[i + 1]
  {
    xs[..k] + xs[k + 1..]
  }

  /** Inserting after position k, then overwriting position k. */
  lemma InsertedAfterThenSet<T>(xs: seq<T>, k: nat, x: T, y: T)
    requires k < |xs|
    ensures Insert(xs, k + 1, x)[k := y] == xs[..k] + [y, x] + xs[k + 1..]
  {
  }

  /** Removing position k + 1, then overwriting position k. */
  lemma RemovedAfterThenSet<T>(xs: seq<T>, k: nat, y: T)
    requires k + 1 < |xs|
    ensures Remove(xs, k + 1)[k := y] == xs[..k] + [y] + xs[k + 2..]
  {
  }

  /** Inserting a fresh element keeps a sequence free of repetitions. */
  lemma DistinctInsert<T>(xs: seq<T>, k: nat, x: T)
    requires k <= |xs| && x !in xs
    requires Distinct(xs)
    ensures Distinct(Insert(xs, k, x))
  {
    var ys := Insert(xs, k, x);
    forall i, j | 0 <= i < j < |ys| ensures ys[i] != ys[j] {
      if i > k {
        assert xs[i - 1] != xs[j - 1];
      } else if j > k {
        assert ys[j] == xs[j - 1];
      }
    }
  }

  /** Removing an element keeps a sequence free of repetitions and drops that element. */
  lemma DistinctRemove<T>(xs: seq<T>, k: nat)
    requires k < |xs|
    requires Distinct(xs)
    ensures xs[k] !in Remove(xs, k) && Distinct(Remove(xs, k))
  {
    var ys := Remove(xs, k);
    forall i, j | 0 <= i < j < |ys| ensures ys[i] != ys[j] {
      if i >= k {
        assert xs[i + 1] != xs[j + 1];
      } else if j >= k {
        assert ys[j] == xs[j + 1];
      }
    }
    forall i | 0 <= i < |ys| ensures ys[i] != xs[k] {
      if i >= k { assert ys[i] == xs[i + 1]; }
    }
  }

  /** INIT_LIST_HEAD: the node becomes the head of an empty ring. */
  method InitListHead(head: ListHead)
    modifies head
    ensures head.next == head && head.prev == head
    ensures IsRing(head, [])
  {
    head.next := head;
    head.prev := head;
  }

  /**
   * list_add(node, at): link `node` immediately after `at`, which sits at
   * position k of the ring (k == 0 when `at` is the head itself, which puts
   * `node` at the front). Exactly four links are written.
   */
  method ListAdd(node: ListHead, at: ListHead, ghost head: ListHead, ghost xs: seq<ListHead>, ghost k: nat)
    requires IsRing(head, xs)
    requires k <= |xs| && at == At(head, xs, k)
    requires node != head && node !in xs
    modifies node`prev, node`next, at`next, at.next`prev
    ensures at.next == node && node.prev == at
    ensures node.next == old(at.next) && old(at.next).prev == node
    ensures IsRing(head, Insert(xs, k, node))
  {
    var next := at.next;
    next.prev := node;
    node.next := next;
    node.prev := at;
    at.next := node;
    ghost var ys := Insert(xs, k, node);
    assert forall i {:trigger ys[i].prev} :: 0 <= i < |ys| ==> ys[i].prev == At(head, ys, i) by {
      forall i {:trigger ys[i].prev} | 0 <= i < |ys| ensures ys[i].prev == At(head, ys, i) {
        if i < k {
          assert ys[i] == xs[i] && ys[i] != node && ys[i] != next;
        } else if i > k + 1 {
          assert ys[i] == xs[i - 1] && ys[i] != next && ys[i - 1] == xs[i - 2];
        }
      }
    }
    assert forall i {:trigger ys[i].next} :: 0 <= i < |ys| ==> ys[i].next == After(head, ys, i + 1) by {
      forall i {:trigger ys[i].next} | 0 <= i < |ys| ensures ys[i].next == After(head, ys, i + 1) {
        if i + 1 < k {
          assert ys[i] == xs[i] && ys[i] != at && ys[i] != node && ys[i + 1] == xs[i + 1];
        } else if i > k {
          assert ys[i] == xs[i - 1] && ys[i] != at && ys[i] != node;
          assert i + 1 < |ys| ==> ys[i + 1] == xs[i];
        }
      }
    }
    DistinctInsert(xs, k, node);
    assert head !in ys;
    assert head.next == After(head, ys, 0) by {
      if k > 0 { assert head != at && head != node && ys[0] == xs[0]; }
    }
    assert head.prev == At(head, ys, |ys|) by {
      if k < |xs| { assert head != next && ys[|ys| - 1] == xs[|xs| - 1]; }
    }
  }

  /**
   * list_del(node): unlink `node`, the member at index k of xs, by making its
   * two neighbours point at each other. Only the neighbours' links change;
   * the removed node's own links are left as they were and mean nothing.
   */
  method ListDel(node: ListHead, ghost head: ListHead, ghost xs: seq<ListHead>, ghost k: nat)
    requires IsRing(head, xs)
    requires k < |xs| && xs[k] == node
    modifies node.prev`next, node.next`prev
    ensures old(node.prev).next == old(node.next) && old(node.next).prev == old(node.prev)
    ensures IsRing(head, Remove(xs, k))
  {
    var next := node.next;
    var prev := node.prev;
    next.prev := prev;
    prev.next := next;
    ghost var ys := Remove(xs, k);
    assert forall i {:trigger ys[i].prev} :: 0 <= i < |ys| ==> ys[i].prev == At(head, ys, i) by {
      forall i {:trigger ys[i].prev} | 0 <= i < |ys| ensures ys[i].prev == At(head, ys, i) {
        if i < k {
          assert ys[i] == xs[i] && ys[i] != next;
        } else if i > k {
          assert ys[i] == xs[i + 1] && ys[i] != next && ys[i - 1] == xs[i];
        }
      }
    }
    assert forall i {:trigger ys[i].next} :: 0 <= i < |ys| ==> ys[i].next == After(head, ys, i + 1) by {
      forall i {:trigger ys[i].next} | 0 <= i < |ys| ensures ys[i].next == After(head, ys, i + 1) {
        if i + 1 < k {
          assert ys[i] == xs[i] && ys[i] != prev && ys[i + 1] == xs[i + 1];
        } else if i >= k {
          assert ys[i] == xs[i + 1] && ys[i] != prev;
          assert i + 1 < |ys| ==> ys[i + 1] == xs[i + 2];
        }
      }
    }
    DistinctRemove(xs, k);
    assert head !in ys;
    assert head.next == After(head, ys, 0) by {
      if k > 0 { assert head != prev && ys[0] == xs[0]; }
    }
    assert head.prev == At(head, ys, |ys|) by {
      if k < |xs| - 1 { assert head != next && ys[|ys| - 1] == xs[|xs| - 1]; }
    }
  }

  /**
   * list_for_each(node, head): the cursor starts at head.next and follows
   * `next` until it is back at the head. The nodes it visits are exactly the
   * members of the ring in order; the head is never visited, and the loop
   * stops after |xs| steps. The traversal changes nothing.
   */
  method ForEach(head: ListHead, ghost xs: seq<ListHead>) returns (visited: seq<ListHead>)
    requires IsRing(head, xs)
    ensures visited == xs
  {
    visited := [];
    var node := head.next;
    ghost var k := 0;
    while node != head
      invariant 0 <= k <= |xs| && visited == xs[..k]
      invariant node == (if k < |xs| then xs[k] else head)
      decreases |xs| - k
    {
      visited := visited + [node];
      node := node.next;
      k := k + 1;
    }
  }
}
