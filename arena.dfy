/**
 * The allocator's whole state as a value, what it means for that state to be
 * well formed, and the exact effect of each step of `split`, `my_free` and
 * `coalesce` on it, with `split` and `coalesce` as corrected (the code as
 * written is in as_written.dfy).
 *
 * The region is a sequence of cells, one per offset.  The record at offset `o`
 * keeps its `size` in cell `o` and its second field in cell `o + 1`: the
 * `next` pointer of a free node, the `magic` tag of an allocated block's
 * header.  Pointers are `Addr(offset)`, and NULL is 0, so a cell of freshly
 * mapped (zeroed) memory reads as NULL.
 *
 * Each clause of the invariant is stated per position through a small
 * predicate, and proofs ask for the positions they need.
 */
module Arena {
  import opened Layout
  import opened FreeList

  /**
   * The cells of the region and the `head` pointer, together with two
   * bookkeeping views: the free list in list order and every block of the
   * region in address order.
   */
  datatype State = State(mem: seq<int>, head: int, free: seq<Block>, layout: seq<Block>)

  /** The record of `b` lies in `mem` and holds the size of `b`. */
  ghost predicate Holds(mem: seq<int>, b: Block)
  {
    b.at + 1 < |mem| && mem[b.at] == b.size
  }

  /** The record of `b` carries MAGIC: `b` is an allocated block. */
  ghost predicate Marked(mem: seq<int>, b: Block)
  {
    b.at + 1 < |mem| && mem[b.at + 1] == MAGIC
  }

  /** Block `k` of the layout, if there is one, has its size recorded and is free or allocated. */
  ghost predicate BlockOk(s: State, k: nat)
  {
    k < |s.layout| ==>
      Holds(s.mem, s.layout[k]) && (s.layout[k] in s.free || Marked(s.mem, s.layout[k]))
  }

  /** Free node `i`, if there is one, is a block of the layout. */
  ghost predicate Listed(s: State, i: nat)
  {
    i < |s.free| ==> s.free[i] in s.layout
  }

  /** Free nodes `i < k`, if there are such, start at different offsets. */
  ghost predicate Apart(s: State, i: nat, k: nat)
  {
    i < k < |s.free| ==> s.free[i].at != s.free[k].at
  }

  /** Node `i` of `l`, if there is one, points to node `i + 1` (to NULL for the last node). */
  ghost predicate LinkedAt(mem: seq<int>, l: seq<Block>, i: nat)
  {
    i < |l| ==> l[i].at + 1 < |mem| && mem[l[i].at + 1] == Link(l, i + 1)
  }

  /** Some block of `ls` starts at offset `o`. */
  ghost predicate StartsBlock(ls: seq<Block>, o: int)
  {
    exists k :: 0 <= k < |ls| && ls[k].at == o
  }

  /** If cell `y` holds MAGIC, it is the second cell of a block's record. */
  ghost predicate Tagged(mem: seq<int>, ls: seq<Block>, y: nat)
  {
    y < |mem| && mem[y] == MAGIC ==> StartsBlock(ls, y - 1)
  }

  /** The blocks tile the region, each record holds its block's size, and each block is free or allocated. */
  ghost predicate BlocksOk(s: State)
  {
    Tiled(s.layout) && forall k: nat :: BlockOk(s, k)
  }

  /** The free list is a non-empty list of distinct blocks linked from `head` through their `next` cells. */
  ghost predicate ListOk(s: State)
  {
    && |s.free| > 0
    && (forall i: nat :: Listed(s, i))
    && (forall i: nat, k: nat :: Apart(s, i, k))
    && s.head == Link(s.free, 0)
    && (forall i: nat :: LinkedAt(s.mem, s.free, i))
  }

  /** MAGIC is found nowhere but in the second cell of a block's record. */
  ghost predicate TagsOk(s: State)
  {
    forall y: nat :: Tagged(s.mem, s.layout, y)
  }

  /** The state is well formed. */
  ghost predicate Wf(s: State)
  {
    |s.mem| == HEAP_SIZE && BlocksOk(s) && ListOk(s) && TagsOk(s)
  }

  /** Position of `b` in `ls`. */
  function IndexOf(ls: seq<Block>, b: Block): (j: nat)
    requires b in ls
    ensures j < |ls| && ls[j] == b
  {
    if ls[0] == b then 0 else 1 + IndexOf(ls[1..], b)
  }

  /** Block `k` of the layout lies in the region and its record holds its size. */
  lemma BlockFacts(s: State, k: nat)
    requires Wf(s) && k < |s.layout|
    ensures Holds(s.mem, s.layout[k]) && End(s.layout[k]) <= HEAP_SIZE
  {
    assert BlockOk(s, k);
    TiledBound(s.layout, k);
  }

  /** The position in the layout of free node `i`, which lies in the region and whose record holds its size. */
  lemma FreeIndex(s: State, i: nat) returns (k: nat)
    requires Wf(s) && i < |s.free|
    ensures k < |s.layout| && s.layout[k] == s.free[i]
    ensures Holds(s.mem, s.free[i]) && End(s.free[i]) <= HEAP_SIZE
  {
    assert Listed(s, i);
    k := IndexOf(s.layout, s.free[i]);
    BlockFacts(s, k);
  }

  /** Free node `i` lies in the region and its record holds its size. */
  lemma FreeFacts(s: State, i: nat)
    requires Wf(s) && i < |s.free|
    ensures Holds(s.mem, s.free[i]) && End(s.free[i]) <= HEAP_SIZE
  {
    var k := FreeIndex(s, i);
  }

  /** Two free nodes at different positions start at different offsets. */
  lemma FreeDistinct(s: State, i: nat, o: nat)
    requires Wf(s) && i < |s.free| && o < |s.free| && i != o
    ensures s.free[i].at != s.free[o].at
  {
    if i < o {
      assert Apart(s, i, o);
    } else {
      assert Apart(s, o, i);
    }
  }

  /** Two free nodes at different positions are different blocks of the layout. */
  lemma FreeApart(s: State, i: nat, o: nat)
    requires Wf(s) && i < |s.free| && o < |s.free| && i != o
    ensures s.free[o].at + 1 < s.free[i].at || End(s.free[i]) <= s.free[o].at
  {
    FreeDistinct(s, i, o);
    var a := FreeIndex(s, i);
    var b := FreeIndex(s, o);
    TiledDisjoint(s.layout, a, b);
  }

  /** A pointer stored in a `next` cell or in `head` is never MAGIC. */
  lemma LinkNotMagic(s: State, i: nat)
    requires Wf(s)
    ensures Link(s.free, i) < MAGIC
  {
    if i < |s.free| {
      FreeFacts(s, i);
    }
  }

  /** A block whose record carries MAGIC is not on the free list. */
  lemma MarkedNotFree(s: State, b: Block)
    requires Wf(s) && Marked(s.mem, b)
    ensures b !in s.free
  {
    forall i | 0 <= i < |s.free|
      ensures s.free[i] != b
    {
      assert LinkedAt(s.mem, s.free, i);
      LinkNotMagic(s, i + 1);
    }
  }

  /** The block spanning the whole region, as `heap()` creates it. */
  function WholeRegion(): Block
  {
    Block(0, HEAP_SIZE - H)
  }

  /** Freshly mapped, zeroed memory with one free node at offset 0 and NULL as its next. */
  function InitialState(): State
  {
    State(seq(HEAP_SIZE, y => if y == 0 then HEAP_SIZE - H else 0), Addr(0), [WholeRegion()], [WholeRegion()])
  }

  /** The state every operation works on: the current one, or a freshly initialised one if `head` is NULL. */
  function Started(s: State): State
  {
    if s.head == NULL then InitialState() else s
  }

  /** After initialisation there is one free node spanning the region, and the state is well formed. */
  lemma InitialWf()
    ensures Wf(InitialState())
    ensures Available(InitialState().free) == HEAP_SIZE - H
  {
    var s := InitialState();
    assert Abuts(s.layout, 0);
    assert LinkedAt(s.mem, s.free, 0);
    assert BlockOk(s, 0);
  }

  // ---------------------------------------------------------------- split

  /**
   * The corrected `split` of free node `i` for a request of `size` bytes: the
   * remainder node is written at `found + H + size` with the bytes left over
   * and with the found node's `next`, it takes the found node's place (in
   * the predecessor's `next`, or as `head`), and the found node's record
   * becomes a header holding `size` and MAGIC.
   */
  function SplitStep(s: State, i: nat, size: nat): State
    requires Wf(s) && i < |s.free| && H + size <= s.free[i].size
  {
    FreeFacts(s, i);
    FreeFacts(s, if i > 0 then i - 1 else i);
    assert Listed(s, i);
    var f := s.free[i].at;
    var rest := f + H + size;
    var m1 := s.mem[rest := s.mem[f] - (H + size)][rest + 1 := s.mem[f + 1]];
    var m2 := if i == 0 then m1 else m1[s.free[i - 1].at + 1 := Addr(rest)];
    var head := if i == 0 then Addr(rest) else s.head;
    State(m2[f := size][f + 1 := MAGIC], head,
          SplitNode(s.free, i, size), Carve(s.layout, IndexOf(s.layout, s.free[i]), size))
  }

  /** The cells `split` writes, and that it writes no other. */
  lemma SplitCells(s: State, i: nat, size: nat)
    requires Wf(s) && i < |s.free| && H + size <= s.free[i].size
    ensures var r := SplitStep(s, i, size);
      var f := s.free[i].at;
      var rest := f + H + size;
      var pc := if i == 0 then f else s.free[i - 1].at + 1;
      && |r.mem| == HEAP_SIZE
      && rest + 1 < End(s.free[i]) <= HEAP_SIZE
      && r.mem[f] == size && r.mem[f + 1] == MAGIC
      && r.mem[rest] == s.free[i].size - (H + size) && r.mem[rest + 1] == Link(s.free, i + 1)
      && pc < HEAP_SIZE
      && (i > 0 ==> r.mem[pc] == Addr(rest))
      && r.head == (if i == 0 then Addr(rest) else s.head)
      && (forall x :: 0 <= x < HEAP_SIZE && x != f && x != f + 1 && x != rest && x != rest + 1 && x != pc ==>
            r.mem[x] == s.mem[x])
  {
    FreeFacts(s, i);
    assert LinkedAt(s.mem, s.free, i);
    if i > 0 {
      FreeFacts(s, i - 1);
      FreeApart(s, i, i - 1);
    }
  }

  /** `split` leaves the record of every other block alone, and the `next` cell of all but the predecessor. */
  lemma SplitUntouched(s: State, i: nat, size: nat, k: nat)
    requires Wf(s) && i < |s.free| && H + size <= s.free[i].size
    requires k < |s.layout| && s.layout[k].at != s.free[i].at
    ensures s.layout[k].at + 1 < HEAP_SIZE && |SplitStep(s, i, size).mem| == HEAP_SIZE
    ensures SplitStep(s, i, size).mem[s.layout[k].at] == s.mem[s.layout[k].at]
    ensures i == 0 || s.layout[k].at != s.free[i - 1].at ==>
      SplitStep(s, i, size).mem[s.layout[k].at + 1] == s.mem[s.layout[k].at + 1]
  {
    SplitCells(s, i, size);
    BlockFacts(s, k);
    var L := s.layout;
    var j := FreeIndex(s, i);
    TiledDisjoint(L, j, k);
    if i > 0 {
      var q := FreeIndex(s, i - 1);
      if q != k {
        TiledDisjoint(L, q, k);
      }
    }
  }

  /** After `split` the blocks still tile the region, each record holds its size, each block is free or allocated. */
  lemma SplitBlocks(s: State, i: nat, size: nat)
    requires Wf(s) && i < |s.free| && H + size <= s.free[i].size
    ensures BlocksOk(SplitStep(s, i, size))
  {
    assert Listed(s, i);
    TiledCarve(s.layout, IndexOf(s.layout, s.free[i]), size);
    forall k': nat
      ensures BlockOk(SplitStep(s, i, size), k')
    {
      SplitBlockAt(s, i, size, k');
    }
  }

  /** After `split`, block `k'` of the new layout has its size recorded and is free or allocated. */
  lemma SplitBlockAt(s: State, i: nat, size: nat, k': nat)
    requires Wf(s) && i < |s.free| && H + size <= s.free[i].size
    ensures BlockOk(SplitStep(s, i, size), k')
  {
    var r := SplitStep(s, i, size);
    var L := s.layout;
    var F := s.free[i];
    assert Listed(s, i);
    var j := IndexOf(L, F);
    SplitCells(s, i, size);
    var R := Block(F.at + H + size, F.size - (H + size));
    assert r.free[i] == R;
    if k' == j {
      assert r.layout[k'] == Block(F.at, size);
    } else if k' == j + 1 {
      assert r.layout[k'] == R;
    } else if k' < |r.layout| {
      var k := if k' < j then k' else k' - 1;
      assert r.layout[k'] == L[k];
      TiledDisjoint(L, j, k);
      assert BlockOk(s, k);
      SplitUntouched(s, i, size, k);
      if L[k] in s.free {
        var o :| 0 <= o < |s.free| && s.free[o] == L[k];
        assert r.free[o] == L[k];
      } else if i > 0 {
        // the predecessor's `next` cell is not the tag of an allocated block
        var q := FreeIndex(s, i - 1);
        assert q != k;
        TiledDisjoint(L, q, k);
      }
    }
  }

  /** After `split`, node `o` of the new list is a block of the new layout and points to the node after it. */
  lemma SplitLinkedAt(s: State, i: nat, size: nat, o: nat)
    requires Wf(s) && i < |s.free| && H + size <= s.free[i].size
    ensures Listed(SplitStep(s, i, size), o) && LinkedAt(SplitStep(s, i, size).mem, SplitStep(s, i, size).free, o)
  {
    var r := SplitStep(s, i, size);
    var F := s.free[i];
    assert Listed(s, i);
    var j := IndexOf(s.layout, F);
    SplitCells(s, i, size);
    assert r.layout[j + 1] == Block(F.at + H + size, F.size - (H + size)) == r.free[i];
    if o < |r.free| && o != i {
      SplitLinkedOther(s, i, size, o);
    }
  }

  /** The same for a node `o` other than the remainder: it kept its block and its `next` cell. */
  lemma SplitLinkedOther(s: State, i: nat, size: nat, o: nat)
    requires Wf(s) && i < |s.free| && H + size <= s.free[i].size
    requires o < |s.free| && o != i
    ensures Listed(SplitStep(s, i, size), o) && LinkedAt(SplitStep(s, i, size).mem, SplitStep(s, i, size).free, o)
  {
    var r := SplitStep(s, i, size);
    var L := s.layout;
    assert Listed(s, i);
    var j := IndexOf(L, s.free[i]);
    var rest := s.free[i].at + H + size;
    assert r.free[o] == s.free[o];
    assert Link(r.free, o + 1) == if o + 1 == i then Addr(rest) else Link(s.free, o + 1);
    FreeDistinct(s, o, i);
    var k := FreeIndex(s, o);
    if k < j {
      assert r.layout[k] == L[k];
    } else {
      assert r.layout[k + 1] == L[k];
    }
    assert LinkedAt(s.mem, s.free, o);
    var x := s.free[o].at + 1;
    if o + 1 == i {
      SplitCells(s, i, size);
      assert r.mem[x] == Addr(rest);
    } else {
      if i > 0 {
        FreeDistinct(s, o, i - 1);
      }
      SplitUntouched(s, i, size, k);
      assert r.mem[x] == s.mem[x] == Link(s.free, o + 1);
    }
  }

  /** After `split` the free nodes still start at pairwise different offsets. */
  lemma SplitApart(s: State, i: nat, size: nat, a: nat, b: nat)
    requires Wf(s) && i < |s.free| && H + size <= s.free[i].size
    ensures Apart(SplitStep(s, i, size), a, b)
  {
    var r := SplitStep(s, i, size);
    if a < b < |r.free| {
      if a == i {
        FreeApart(s, i, b);
      } else if b == i {
        FreeApart(s, i, a);
      } else {
        FreeDistinct(s, a, b);
      }
    }
  }

  /** After `split` the free list is still a list of distinct blocks linked from `head`. */
  lemma SplitList(s: State, i: nat, size: nat)
    requires Wf(s) && i < |s.free| && H + size <= s.free[i].size
    ensures ListOk(SplitStep(s, i, size))
  {
    var r := SplitStep(s, i, size);
    forall o: nat
      ensures Listed(r, o) && LinkedAt(r.mem, r.free, o)
    {
      SplitLinkedAt(s, i, size, o);
    }
    forall a: nat, b: nat
      ensures Apart(r, a, b)
    {
      SplitApart(s, i, size, a, b);
    }
    SplitCells(s, i, size);
    assert r.head == Link(r.free, 0);
  }

  /** After `split` MAGIC is still found only in records. */
  lemma SplitTags(s: State, i: nat, size: nat)
    requires Wf(s) && i < |s.free| && H + size <= s.free[i].size
    ensures TagsOk(SplitStep(s, i, size))
  {
    var r := SplitStep(s, i, size);
    var L := s.layout;
    var F := s.free[i];
    assert Listed(s, i);
    var j := IndexOf(L, F);
    var f := F.at;
    SplitCells(s, i, size);
    LinkNotMagic(s, i + 1);
    forall y: nat
      ensures Tagged(r.mem, r.layout, y)
    {
      if y < HEAP_SIZE && r.mem[y] == MAGIC {
        if y == f + 1 {
          assert r.layout[j].at == f;
        } else {
          assert s.mem[y] == MAGIC;
          assert Tagged(s.mem, L, y);
          var k :| 0 <= k < |L| && L[k].at == y - 1;
          if k < j {
            assert r.layout[k] == L[k];
          } else {
            assert k != j;
            assert r.layout[k + 1] == L[k];
          }
        }
      }
    }
  }

  /** Splitting a free node that is large enough keeps the state well formed. */
  lemma SplitKeepsWf(s: State, i: nat, size: nat)
    requires Wf(s) && i < |s.free| && H + size <= s.free[i].size
    ensures Wf(SplitStep(s, i, size))
  {
    SplitCells(s, i, size);
    SplitBlocks(s, i, size);
    SplitList(s, i, size);
    SplitTags(s, i, size);
  }

  // ---------------------------------------------------------------- free

  /**
   * A cell holding MAGIC is the tag of an allocated block: the record one cell
   * before it starts a block of the region and that block is not on the free
   * list.  So the assert in `my_free` accepts no free node and no offset inside
   * a block.
   */
  lemma MagicIsHeader(s: State, b: nat)
    requires Wf(s) && b + 1 < HEAP_SIZE && s.mem[b + 1] == MAGIC
    ensures s.mem[b] >= 0 && Block(b, s.mem[b]) in s.layout && Block(b, s.mem[b]) !in s.free
  {
    assert Tagged(s.mem, s.layout, b + 1);
    var k :| 0 <= k < |s.layout| && s.layout[k].at == b;
    BlockFacts(s, k);
    assert s.layout[k] == Block(b, s.mem[b]);
    MarkedNotFree(s, Block(b, s.mem[b]));
  }

  /**
   * The first half of `my_free`: the header at offset `b` is read as a free
   * node of the same size whose `next` is the old head, and it becomes the head.
   */
  function PushStep(s: State, b: nat): State
    requires Wf(s) && b + 1 < HEAP_SIZE && s.mem[b + 1] == MAGIC
  {
    MagicIsHeader(s, b);
    State(s.mem[b + 1 := s.head], Addr(b), [Block(b, s.mem[b])] + s.free, s.layout)
  }

  /** Pushing a block that passed the magic assert keeps the state well formed. */
  lemma PushKeepsWf(s: State, b: nat)
    requires Wf(s) && b + 1 < HEAP_SIZE && s.mem[b + 1] == MAGIC
    ensures Wf(PushStep(s, b))
  {
    MagicIsHeader(s, b);
    LinkNotMagic(s, 0);
    var r := PushStep(s, b);
    var B := Block(b, s.mem[b]);
    var L := s.layout;
    var kb := IndexOf(L, B);
    forall k: nat
      ensures BlockOk(r, k)
    {
      if k == kb {
        assert r.free[0] == B;
      } else if k < |L| {
        TiledDisjoint(L, kb, k);
        assert BlockOk(s, k);
        if L[k] in s.free {
          var o :| 0 <= o < |s.free| && s.free[o] == L[k];
          assert r.free[o + 1] == L[k];
        }
      }
    }
    forall o: nat
      ensures Listed(r, o) && LinkedAt(r.mem, r.free, o)
    {
      if 0 < o < |r.free| {
        assert r.free[o] == s.free[o - 1];
        var k := FreeIndex(s, o - 1);
        TiledDisjoint(L, kb, k);
        assert LinkedAt(s.mem, s.free, o - 1);
      }
    }
    forall a: nat, c: nat
      ensures Apart(r, a, c)
    {
      if a < c < |r.free| {
        if a == 0 {
          var k := FreeIndex(s, c - 1);
          TiledDisjoint(L, kb, k);
        } else {
          FreeDistinct(s, a - 1, c - 1);
        }
      }
    }
    forall y: nat
      ensures Tagged(r.mem, L, y)
    {
      assert Tagged(s.mem, L, y);
    }
  }

  // ---------------------------------------------------------------- coalesce

  /** Free node `t`, which comes after free node `sIdx` in list order, begins where it ends; `sIdx` is block `j` of the layout. */
  ghost predicate Mergeable(s: State, sIdx: nat, t: nat, j: nat)
  {
    && Wf(s) && sIdx < t < |s.free| && s.free[t].at == End(s.free[sIdx])
    && j < |s.layout| && s.layout[j] == s.free[sIdx]
  }

  /** What a merge relies on: the absorbed node is the next block of the layout, and the records involved lie apart. */
  lemma MergeableFacts(s: State, sIdx: nat, t: nat, j: nat)
    requires Mergeable(s, sIdx, t, j)
    ensures j + 1 < |s.layout| && s.layout[j + 1] == s.free[t]
    ensures Holds(s.mem, s.free[sIdx]) && Holds(s.mem, s.free[t]) && End(s.free[t]) <= HEAP_SIZE
    ensures s.free[t - 1].at + 1 < HEAP_SIZE && s.free[t - 1].at + 1 != s.free[sIdx].at
  {
    FreeFacts(s, sIdx);
    FreeFacts(s, t);
    FreeFacts(s, t - 1);
    assert Listed(s, t);
    TiledSuccessor(s.layout, j, s.free[t]);
    if t - 1 != sIdx {
      FreeApart(s, sIdx, t - 1);
    }
  }

  /**
   * Free node `t` absorbed into free node `sIdx`: the size cell of `sIdx` grows
   * by the size of `t` and a header, then the `next` cell of the node before
   * `t` takes the `next` of `t`, which unlinks `t`.
   */
  function Merge(s: State, sIdx: nat, t: nat, j: nat): State
    requires Mergeable(s, sIdx, t, j)
  {
    MergeableFacts(s, sIdx, t, j);
    var fb := s.free[sIdx].at;
    var next := s.free[t].at;
    State(s.mem[fb := s.mem[fb] + s.mem[next] + H][s.free[t - 1].at + 1 := s.mem[next + 1]], s.head,
          MergeInto(s.free, sIdx, t), Fuse(s.layout, j))
  }

  /**
   * The corrected `coalesce` starting at free node `sIdx`: the first node after
   * it in list order that begins exactly where it ends is absorbed into it.
   * Nothing changes when there is no such node.
   */
  function CoalesceStep(s: State, sIdx: nat): State
    requires Wf(s) && sIdx < |s.free|
  {
    var t := NodeAt(s.free, End(s.free[sIdx]), sIdx + 1);
    if t == |s.free| then s
    else
      assert Listed(s, sIdx);
      var j := IndexOf(s.layout, s.free[sIdx]);
      MergeableFacts(s, sIdx, t, j);
      Merge(s, sIdx, t, j)
  }

  /** The cells a merge writes, and that it writes no other. */
  lemma MergeCells(s: State, sIdx: nat, t: nat, j: nat)
    requires Mergeable(s, sIdx, t, j)
    ensures j + 1 < |s.layout| && s.free[sIdx].at + 1 < HEAP_SIZE && s.free[t - 1].at + 1 < HEAP_SIZE
    ensures var r := Merge(s, sIdx, t, j);
      var fb := s.free[sIdx].at;
      var c := s.free[t - 1].at;
      && |r.mem| == HEAP_SIZE
      && r.mem[fb] == s.free[sIdx].size + H + s.free[t].size
      && r.mem[c + 1] == Link(s.free, t + 1)
      && r.head == s.head
      && (forall x :: 0 <= x < HEAP_SIZE && x != fb && x != c + 1 ==> r.mem[x] == s.mem[x])
  {
    MergeableFacts(s, sIdx, t, j);
    assert LinkedAt(s.mem, s.free, t);
  }

  /**
   * Where block `k` of the layout sits relative to the two cells a merge
   * writes: its size cell is neither of them unless it is the absorbing node,
   * and its second cell is neither of them unless it is the node before the
   * absorbed one.
   */
  lemma MergeApartAt(s: State, sIdx: nat, t: nat, j: nat, k: nat)
    requires Mergeable(s, sIdx, t, j) && k < |s.layout|
    ensures s.layout[k].at != s.free[sIdx].at ==> s.layout[k].at != s.free[t - 1].at + 1
    ensures s.layout[k].at != s.free[t - 1].at ==>
      s.layout[k].at + 1 != s.free[sIdx].at && s.layout[k].at + 1 != s.free[t - 1].at + 1
  {
    var L := s.layout;
    var q := FreeIndex(s, t - 1);
    if k != j {
      TiledDisjoint(L, j, k);
    }
    if k != q {
      TiledDisjoint(L, q, k);
    }
  }

  /** After a merge the blocks still tile the region, with the right sizes, each free or allocated. */
  lemma MergeBlocks(s: State, sIdx: nat, t: nat, j: nat)
    requires Mergeable(s, sIdx, t, j)
    ensures BlocksOk(Merge(s, sIdx, t, j))
  {
    MergeableFacts(s, sIdx, t, j);
    MergeCells(s, sIdx, t, j);
    var r := Merge(s, sIdx, t, j);
    var L := s.layout;
    TiledFuse(L, j);
    var M := Block(s.free[sIdx].at, s.free[sIdx].size + H + s.free[t].size);
    assert r.free[sIdx] == M;
    forall k': nat
      ensures BlockOk(r, k')
    {
      if k' == j {
        assert r.layout[k'] == M;
      } else if k' < |r.layout| {
        var k := if k' < j then k' else k' + 1;
        assert r.layout[k'] == L[k];
        TiledDisjoint(L, j, k);
        TiledDisjoint(L, j + 1, k);
        MergeApartAt(s, sIdx, t, j, k);
        assert BlockOk(s, k);
        if L[k] in s.free {
          var o :| 0 <= o < |s.free| && s.free[o] == L[k];
          if o < t {
            assert r.free[o] == L[k];
          } else {
            assert r.free[o - 1] == L[k];
          }
        } else {
          var q := FreeIndex(s, t - 1);
          if q != k {
            TiledDisjoint(L, q, k);
          }
        }
      }
    }
  }

  /** After a merge, node `o` of the new list is a block of the new layout. */
  lemma MergeListedAt(s: State, sIdx: nat, t: nat, j: nat, o: nat)
    requires Mergeable(s, sIdx, t, j)
    ensures Listed(Merge(s, sIdx, t, j), o)
  {
    var r := Merge(s, sIdx, t, j);
    if o < |r.free| {
      MergeableFacts(s, sIdx, t, j);
      var L := s.layout;
      // node `o` of the new list stands where node `p` of the old one stood
      var p := if o < t then o else o + 1;
      if p == sIdx {
        assert r.free[o] == r.layout[j];
      } else {
        var k := FreeIndex(s, p);
        FreeDistinct(s, p, sIdx);
        FreeDistinct(s, p, t);
        assert r.free[o] == L[k];
        if k < j {
          assert r.layout[k] == L[k];
        } else {
          assert r.layout[k - 1] == L[k];
        }
      }
    }
  }

  /** After a merge, node `o` of the new list points to the node after it. */
  lemma MergeLinkedAt(s: State, sIdx: nat, t: nat, j: nat, o: nat)
    requires Mergeable(s, sIdx, t, j)
    ensures LinkedAt(Merge(s, sIdx, t, j).mem, Merge(s, sIdx, t, j).free, o)
  {
    var r := Merge(s, sIdx, t, j);
    if o < |r.free| {
      MergeableFacts(s, sIdx, t, j);
      MergeCells(s, sIdx, t, j);
      // node `o` of the new list stands where node `p` of the old one stood
      var p := if o < t then o else o + 1;
      assert r.free[o].at == s.free[p].at;
      assert Link(r.free, o + 1) == Link(s.free, if o + 1 == t then t + 1 else p + 1);
      var k := FreeIndex(s, p);
      assert LinkedAt(s.mem, s.free, p);
      if p != t - 1 {
        FreeDistinct(s, p, t - 1);
        MergeApartAt(s, sIdx, t, j, k);
      }
    }
  }

  /** After a merge the free list is still a list of distinct blocks linked from `head`. */
  lemma MergeList(s: State, sIdx: nat, t: nat, j: nat)
    requires Mergeable(s, sIdx, t, j)
    ensures ListOk(Merge(s, sIdx, t, j))
  {
    var r := Merge(s, sIdx, t, j);
    forall o: nat
      ensures Listed(r, o) && LinkedAt(r.mem, r.free, o)
    {
      MergeListedAt(s, sIdx, t, j, o);
      MergeLinkedAt(s, sIdx, t, j, o);
    }
    forall a: nat, b: nat
      ensures Apart(r, a, b)
    {
      if a < b < |r.free| {
        var pa := if a < t then a else a + 1;
        var pb := if b < t then b else b + 1;
        assert r.free[a].at == s.free[pa].at && r.free[b].at == s.free[pb].at;
        FreeDistinct(s, pa, pb);
      }
    }
    MergeCells(s, sIdx, t, j);
    assert r.free[0].at == s.free[0].at;
  }

  /** After a merge MAGIC is still found only in records. */
  lemma MergeTags(s: State, sIdx: nat, t: nat, j: nat)
    requires Mergeable(s, sIdx, t, j)
    ensures TagsOk(Merge(s, sIdx, t, j))
  {
    MergeableFacts(s, sIdx, t, j);
    MergeCells(s, sIdx, t, j);
    var r := Merge(s, sIdx, t, j);
    var L := s.layout;
    LinkNotMagic(s, t + 1);
    assert LinkedAt(s.mem, s.free, t);
    forall y: nat
      ensures Tagged(r.mem, r.layout, y)
    {
      if y < HEAP_SIZE && r.mem[y] == MAGIC {
        assert s.mem[y] == MAGIC;
        assert Tagged(s.mem, L, y);
        var k :| 0 <= k < |L| && L[k].at == y - 1;
        if k <= j {
          assert r.layout[k].at == L[k].at;
        } else {
          assert k != j + 1;
          assert r.layout[k - 1] == L[k];
        }
      }
    }
  }

  /** A merge keeps the state well formed. */
  lemma MergeKeepsWf(s: State, sIdx: nat, t: nat, j: nat)
    requires Mergeable(s, sIdx, t, j)
    ensures Wf(Merge(s, sIdx, t, j))
  {
    MergeCells(s, sIdx, t, j);
    MergeBlocks(s, sIdx, t, j);
    MergeList(s, sIdx, t, j);
    MergeTags(s, sIdx, t, j);
  }

  /** Coalescing keeps the state well formed. */
  lemma CoalesceKeepsWf(s: State, sIdx: nat)
    requires Wf(s) && sIdx < |s.free|
    ensures Wf(CoalesceStep(s, sIdx))
  {
    var t := NodeAt(s.free, End(s.free[sIdx]), sIdx + 1);
    if t < |s.free| {
      assert Listed(s, sIdx);
      MergeKeepsWf(s, sIdx, t, IndexOf(s.layout, s.free[sIdx]));
    }
  }

  // ---------------------------------------------------------------- operations

  /**
   * `my_malloc` on the state: first fit over the free list, then the split
   * of the node found.  The result is the new state and the pointer handed
   * out (the address right after the new header), or NULL.
   */
  function MallocStep(s: State, size: nat): (State, int)
    requires Wf(s)
  {
    var k := FirstFit(s.free, H + size);
    if k == |s.free| then (s, NULL) else (SplitStep(s, k, size), Addr(s.free[k].at + H))
  }

  /** `my_free(p)` on the state: the header before `p` is pushed as a free node and coalesced. */
  function FreeStep(s: State, p: int): State
    requires Wf(s) && BASE + H <= p && p - BASE - H + 1 < HEAP_SIZE && s.mem[p - BASE - H + 1] == MAGIC
  {
    PushKeepsWf(s, p - BASE - H);
    CoalesceStep(PushStep(s, p - BASE - H), 0)
  }

  /**
   * `my_malloc` keeps the state well formed and acts on the free list as
   * `Malloc` says; when it succeeds the block before the returned pointer is
   * an allocated block of the requested size carrying MAGIC.
   */
  lemma MallocStepSpec(s: State, size: nat)
    requires Wf(s)
    ensures Wf(MallocStep(s, size).0)
    ensures MallocStep(s, size).0.free == Malloc(s.free, size).0
    ensures MallocStep(s, size).1 == NULL <==> Malloc(s.free, size).1.None?
    ensures MallocStep(s, size).1 == NULL ==> MallocStep(s, size).0 == s
    ensures |MallocStep(s, size).0.mem| == HEAP_SIZE
    ensures MallocStep(s, size).1 != NULL ==>
      var b := MallocStep(s, size).1 - BASE - H;
      && Malloc(s.free, size).1 == Some(b)
      && 0 <= b && b + 1 < HEAP_SIZE
      && Block(b, size) in MallocStep(s, size).0.layout
      && Block(b, size) !in MallocStep(s, size).0.free
      && MallocStep(s, size).0.mem[b] == size
      && MallocStep(s, size).0.mem[b + 1] == MAGIC
  {
    var k := FirstFit(s.free, H + size);
    if k < |s.free| {
      SplitKeepsWf(s, k, size);
      SplitCells(s, k, size);
      var r := SplitStep(s, k, size);
      var b := s.free[k].at;
      assert Listed(s, k);
      var j := IndexOf(s.layout, s.free[k]);
      assert r.layout[j] == Block(b, size);
      MarkedNotFree(r, Block(b, size));
    }
  }

  /**
   * `my_free` keeps the state well formed, acts on the free list as `Release`
   * says for the block recorded in the header, and leaves no MAGIC in that
   * header, so the same pointer cannot pass the assert a second time.
   */
  lemma FreeStepSpec(s: State, p: int)
    requires Wf(s) && BASE + H <= p && p - BASE - H + 1 < HEAP_SIZE && s.mem[p - BASE - H + 1] == MAGIC
    ensures Wf(FreeStep(s, p))
    ensures FreeStep(s, p).free == Release(s.free, Block(p - BASE - H, s.mem[p - BASE - H]))
    ensures FreeStep(s, p).mem[p - BASE - H + 1] != MAGIC
  {
    var b := p - BASE - H;
    PushKeepsWf(s, b);
    var u := PushStep(s, b);
    var r := FreeStep(s, p);
    assert Wf(r) by {
      CoalesceKeepsWf(u, 0);
    }
    assert r.free == Coalesce(u.free, 0);
    assert r.free[0].at == b by {
      CoalesceAccounting(u.free, 0);
    }
    assert LinkedAt(r.mem, r.free, 0);
    LinkNotMagic(r, 1);
  }

  // ---------------------------------------------------------------- walking the list

  /**
   * The nodes met by following `next` pointers from `p` in memory `m`, at
   * most `fuel` of them; the walk stops at NULL or at a pointer that does not
   * lead to a record inside the region.
   */
  function Chain(m: seq<int>, p: int, fuel: nat): seq<Block>
    decreases fuel
  {
    if fuel == 0 || p == NULL || p < BASE || p - BASE + 1 >= |m| || m[p - BASE] < 0 then []
    else [Block(p - BASE, m[p - BASE])] + Chain(m, m[p - BASE + 1], fuel - 1)
  }

  lemma {:induction false} ChainFrom(s: State, i: nat, fuel: nat)
    requires Wf(s) && i <= |s.free| && fuel >= |s.free| - i
    ensures Chain(s.mem, Link(s.free, i), fuel) == s.free[i..]
    decreases |s.free| - i
  {
    if i < |s.free| {
      FreeFacts(s, i);
      assert LinkedAt(s.mem, s.free, i);
      ChainFrom(s, i + 1, fuel - 1);
      assert s.free[i..] == [s.free[i]] + s.free[i + 1..];
    }
  }

  /** Walking the `next` pointers from `head` meets exactly the free list, and then NULL. */
  lemma ChainIsFreeList(s: State, fuel: nat)
    requires Wf(s) && fuel >= |s.free|
    ensures Chain(s.mem, s.head, fuel) == s.free
  {
    ChainFrom(s, 0, fuel);
  }
}
