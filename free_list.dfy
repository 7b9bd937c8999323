/**
 * The free list as a value: the nodes in list order, each with its offset
 * and the size it holds.  These functions say what `find_free`, `split`,
 * `coalesce`, `my_malloc` and `my_free` do to the list, with `split` and
 * `coalesce` as corrected in as_written.dfy; the class in allocator.dfy is
 * proved to do exactly this to the linked nodes in memory.
 */
module FreeList {
  import opened Layout

  datatype Option<T> = None | Some(value: T)

  /** Number of free bytes the nodes hold (what `available_memory` sums). */
  function Available(l: seq<Block>): nat
  {
    if l == [] then 0 else l[0].size + Available(l[1..])
  }

  lemma {:induction false} AvailableAppend(a: seq<Block>, b: seq<Block>)
    ensures Available(a + b) == Available(a) + Available(b)
  {
    if a == [] {
      assert a + b == b;
    } else {
      assert (a + b)[1..] == a[1..] + b;
      AvailableAppend(a[1..], b);
    }
  }

  /** The pointer stored in front of node `i`: the head for `i == 0`, NULL past the end. */
  function Link(l: seq<Block>, i: nat): int
  {
    if i < |l| then Addr(l[i].at) else NULL
  }

  /** The pointer to the node before node `i`, NULL when `i` is the head or is off the list. */
  function Predecessor(l: seq<Block>, i: nat): int
  {
    if 0 < i < |l| then Addr(l[i - 1].at) else NULL
  }

  /** Position of the first node holding at least `need` bytes, or `|l|` when there is none. */
  function FirstFit(l: seq<Block>, need: nat): (k: nat)
    ensures k <= |l|
    ensures k < |l| ==> l[k].size >= need
    ensures forall j :: 0 <= j < k ==> l[j].size < need
  {
    if l == [] then 0
    else if l[0].size >= need then 0
    else 1 + FirstFit(l[1..], need)
  }

  /**
   * Node `i` handed out for a request of `size` bytes: its first `H + size`
   * bytes become the allocated block and the node that remains after them
   * takes its place in the list.
   */
  function SplitNode(l: seq<Block>, i: nat, size: nat): seq<Block>
    requires i < |l| && H + size <= l[i].size
  {
    l[..i] + [Block(l[i].at + H + size, l[i].size - (H + size))] + l[i + 1..]
  }

  /** Splitting keeps the number of nodes and removes exactly the allocated block's footprint. */
  lemma SplitNodeAccounting(l: seq<Block>, i: nat, size: nat)
    requires i < |l| && H + size <= l[i].size
    ensures |SplitNode(l, i, size)| == |l|
    ensures Available(SplitNode(l, i, size)) + H + size == Available(l)
  {
    var rest := Block(l[i].at + H + size, l[i].size - (H + size));
    assert l == l[..i] + [l[i]] + l[i + 1..];
    AvailableAppend(l[..i] + [l[i]], l[i + 1..]);
    AvailableAppend(l[..i], [l[i]]);
    AvailableAppend(l[..i] + [rest], l[i + 1..]);
    AvailableAppend(l[..i], [rest]);
  }

  /**
   * `my_malloc` on the list: the first node large enough for the request and
   * its header is split; the result is the new list and the offset of the
   * allocated block's header, or None when no node is large enough.
   */
  function Malloc(l: seq<Block>, size: nat): (seq<Block>, Option<nat>)
  {
    var k := FirstFit(l, H + size);
    if k == |l| then (l, None) else (SplitNode(l, k, size), Some(l[k].at))
  }

  /**
   * A request fails exactly when no node holds `H + size` bytes, and then
   * leaves the list as it was; a request that succeeds keeps the number of
   * nodes and takes exactly `H + size` bytes off the free total.
   */
  lemma MallocAccounting(l: seq<Block>, size: nat)
    ensures Malloc(l, size).1.None? <==> (forall j :: 0 <= j < |l| ==> l[j].size < H + size)
    ensures Malloc(l, size).1.None? ==> Malloc(l, size).0 == l
    ensures |Malloc(l, size).0| == |l|
    ensures Malloc(l, size).1.Some? ==> Available(Malloc(l, size).0) + H + size == Available(l)
  {
    var k := FirstFit(l, H + size);
    if k < |l| {
      SplitNodeAccounting(l, k, size);
    }
  }

  /**
   * The block handed out is the first node, in list order, that is large
   * enough: every node before it is too small, and the node that remains
   * after the block sits at the same position of the list.
   */
  lemma MallocFirstFit(l: seq<Block>, size: nat, i: nat)
    requires i < |l| && H + size <= l[i].size
    requires forall j :: 0 <= j < i ==> l[j].size < H + size
    ensures Malloc(l, size).1 == Some(l[i].at)
    ensures Malloc(l, size).0[i] == Block(l[i].at + H + size, l[i].size - (H + size))
    ensures forall j :: 0 <= j < |l| && j != i ==> Malloc(l, size).0[j] == l[j]
  {
    assert FirstFit(l, H + size) == i;
  }

  /** Position of the first node at or after `from` that starts at offset `target`, or `|l|`. */
  function NodeAt(l: seq<Block>, target: nat, from: nat): (t: nat)
    requires from <= |l|
    ensures from <= t <= |l|
    ensures t < |l| ==> l[t].at == target
    ensures forall k :: from <= k < t ==> l[k].at != target
    decreases |l| - from
  {
    if from == |l| || l[from].at == target then from else NodeAt(l, target, from + 1)
  }

  /** Node `t` absorbed into node `s`: its bytes and its header are added to `s`, and it leaves the list. */
  function MergeInto(l: seq<Block>, s: nat, t: nat): seq<Block>
    requires s < t < |l|
  {
    l[..s] + [Block(l[s].at, l[s].size + H + l[t].size)] + l[s + 1..t] + l[t + 1..]
  }

  /**
   * `coalesce` starting at node `s`: the first node after `s` in list order
   * that begins exactly where node `s` ends is absorbed into node `s`.  At
   * most one merge happens.
   */
  function Coalesce(l: seq<Block>, s: nat): seq<Block>
    requires s < |l|
  {
    var t := NodeAt(l, End(l[s]), s + 1);
    if t == |l| then l else MergeInto(l, s, t)
  }

  /**
   * Either no node after `s` starts where node `s` ends and the list is
   * unchanged, or exactly one such node is absorbed into node `s`: one node
   * fewer, one header's worth more free bytes, and node `s` now ends where the
   * absorbed node ended.
   */
  lemma CoalesceAccounting(l: seq<Block>, s: nat)
    requires s < |l|
    ensures |Coalesce(l, s)| == |l| || |Coalesce(l, s)| == |l| - 1
    ensures |Coalesce(l, s)| == |l| <==> (forall k :: s < k < |l| ==> l[k].at != End(l[s]))
    ensures |Coalesce(l, s)| == |l| ==> Coalesce(l, s) == l
    ensures |Coalesce(l, s)| < |l| ==>
      && Available(Coalesce(l, s)) == Available(l) + H
      && Coalesce(l, s)[..s] == l[..s]
      && Coalesce(l, s)[s].at == l[s].at
      && (exists t :: s < t < |l| && l[t].at == End(l[s]) && End(Coalesce(l, s)[s]) == End(l[t]))
  {
    var t := NodeAt(l, End(l[s]), s + 1);
    if t < |l| {
      var m := Block(l[s].at, l[s].size + H + l[t].size);
      var r := MergeInto(l, s, t);
      assert r == l[..s] + [m] + l[s + 1..t] + l[t + 1..];
      assert l == l[..s] + [l[s]] + l[s + 1..t] + [l[t]] + l[t + 1..];
      AvailableAppend(l[..s] + [l[s]] + l[s + 1..t] + [l[t]], l[t + 1..]);
      AvailableAppend(l[..s] + [l[s]] + l[s + 1..t], [l[t]]);
      AvailableAppend(l[..s] + [l[s]], l[s + 1..t]);
      AvailableAppend(l[..s], [l[s]]);
      AvailableAppend(l[..s] + [m] + l[s + 1..t], l[t + 1..]);
      AvailableAppend(l[..s] + [m], l[s + 1..t]);
      AvailableAppend(l[..s], [m]);
      assert r[s] == m;
    }
  }

  /**
   * `my_free` on the list: the released block becomes the head and is then
   * coalesced with the node that begins where it ends, if that node is free.
   */
  function Release(l: seq<Block>, b: Block): seq<Block>
  {
    Coalesce([b] + l, 0)
  }

  /**
   * Releasing puts the block at the head and adds its size to the free total,
   * plus one header when it was merged with the node after it; the list grows
   * by one node, or keeps its length when the merge happened.
   */
  lemma ReleaseAccounting(l: seq<Block>, b: Block)
    ensures Release(l, b)[0].at == b.at
    ensures |Release(l, b)| == |l| + 1 ==> Release(l, b) == [b] + l
    ensures |Release(l, b)| == |l| + 1 ==> Available(Release(l, b)) == Available(l) + b.size
    ensures |Release(l, b)| == |l| ==> Available(Release(l, b)) == Available(l) + b.size + H
    ensures |Release(l, b)| == |l| <==> (exists k :: 0 <= k < |l| && l[k].at == End(b))
  {
    var pushed := [b] + l;
    AvailableAppend([b], l);
    CoalesceAccounting(pushed, 0);
    if |Release(l, b)| == |l| {
      var t :| 0 < t < |pushed| && pushed[t].at == End(pushed[0]);
      assert l[t - 1].at == End(b);
    } else {
      forall k | 0 <= k < |l|
        ensures l[k].at != End(b)
      {
        assert pushed[k + 1] == l[k];
      }
    }
  }
}
