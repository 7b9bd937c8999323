/**
 * The allocator as the program runs it: the `head` pointer and the mapped
 * region, whose cells the operations read and write one at a time.  Each
 * method is proved to leave exactly the state that the matching step function
 * of `Arena` describes, so everything proved there about well-formedness and
 * about the free list holds for the running allocator.
 */
module MyMalloc {
  import opened Layout
  import opened FreeList
  import opened Arena

  class Allocator {
    /** The mapped region, one cell per offset; meaningless while `head` is NULL. */
    var mem: array<int>
    /** Pointer to the first free node; NULL until the region is mapped. */
    var head: int
    /** The free nodes in list order. */
    ghost var free: seq<Block>
    /** Every block of the region in address order. */
    ghost var layout: seq<Block>

    /** The allocator's state as a value. */
    ghost function St(): State
      reads this, mem
    {
      State(mem[..], head, free, layout)
    }

    /** The region has been mapped. */
    ghost predicate Mapped()
      reads this
    {
      head != NULL
    }

    /** Nothing is mapped yet, or the mapped region is well formed. */
    ghost predicate Valid()
      reads this, mem
    {
      Mapped() ==> Wf(St())
    }

    /** The program's starting point: `head` is NULL and nothing is mapped. */
    constructor ()
      ensures Valid() && !Mapped() && fresh(mem)
    {
      mem := new int[0];
      head := NULL;
      free := [];
      layout := [];
    }

    /**
     * `heap()`: when nothing is mapped yet, maps a fresh zeroed region and
     * makes it one free node of `HEAP_SIZE - H` bytes whose `next` is NULL.
     * Returns `head`.
     */
    method Heap() returns (h: int)
      requires Valid()
      modifies this
      ensures Valid() && Mapped()
      ensures St() == Started(old(St()))
      ensures h == head
      ensures old(Mapped()) ==> mem == old(mem)
      ensures !old(Mapped()) ==> fresh(mem)
    {
      if head == NULL {
        mem := new int[HEAP_SIZE](_ => 0);
        head := Addr(0);
        mem[0] := HEAP_SIZE - H;
        mem[1] := NULL;
        free := [WholeRegion()];
        layout := [WholeRegion()];
        assert mem[..] == InitialState().mem;
        InitialWf();
      }
      h := head;
    }

    /** `reset_heap()`: if a region is mapped, it is dropped and a fresh one is set up. */
    method ResetHeap()
      requires Valid()
      modifies this
      ensures Valid()
      ensures !old(Mapped()) ==> St() == old(St()) && mem == old(mem)
      ensures old(Mapped()) ==> St() == InitialState() && fresh(mem)
    {
      if head != NULL {
        head := NULL;
        var h := Heap();
      }
    }

    /** `free_list()`: the pointer to the first free node, NULL while nothing is mapped. */
    function FreeListHead(): (p: int)
      reads this, mem
      requires Valid()
      ensures p == NULL <==> !Mapped()
      ensures Mapped() ==> p == Link(free, 0)
    {
      head
    }

    /** `available_memory()`: the sizes of the nodes met from `head` to NULL, summed. */
    method AvailableMemory() returns (n: nat)
      requires Valid()
      modifies this
      ensures Valid() && Mapped()
      ensures St() == Started(old(St()))
      ensures old(Mapped()) ==> mem == old(mem)
      ensures !old(Mapped()) ==> fresh(mem)
      ensures n == Available(free)
    {
      var p := Heap();
      n := 0;
      ghost var i: nat := 0;
      while p != NULL
        invariant i <= |free| && p == Link(free, i)
        invariant n == Available(free[..i])
        modifies {}
        decreases |free| - i
      {
        FreeFacts(St(), i);
        assert LinkedAt(St().mem, free, i);
        assert free[..i + 1] == free[..i] + [free[i]];
        AvailableAppend(free[..i], [free[i]]);
        n := n + mem[p - BASE];
        p := mem[p - BASE + 1];
        i := i + 1;
      }
      assert free[..i] == free;
    }

    /** `number_of_free_nodes()`: the nodes met from `head` to NULL, counted. */
    method NumberOfFreeNodes() returns (count: nat)
      requires Valid()
      modifies this
      ensures Valid() && Mapped()
      ensures St() == Started(old(St()))
      ensures old(Mapped()) ==> mem == old(mem)
      ensures !old(Mapped()) ==> fresh(mem)
      ensures count == |free|
    {
      var p := Heap();
      count := 0;
      while p != NULL
        invariant count <= |free| && p == Link(free, count)
        modifies {}
        decreases |free| - count
      {
        FreeFacts(St(), count);
        assert LinkedAt(St().mem, free, count);
        p := mem[p - BASE + 1];
        count := count + 1;
      }
    }

    /**
     * `find_free(size, found, previous)`: walks the list from `head` and stops
     * at the first node holding at least `H + size` bytes, reporting it and the
     * node before it.  When there is no such node the two out-parameters keep
     * the values the caller gave them (`foundIn`, `previousIn`).
     */
    method FindFree(size: nat, foundIn: int, previousIn: int) returns (found: int, previous: int)
      requires Valid()
      modifies this
      ensures Valid() && Mapped()
      ensures St() == Started(old(St()))
      ensures old(Mapped()) ==> mem == old(mem)
      ensures !old(Mapped()) ==> fresh(mem)
      ensures FirstFit(free, H + size) < |free| ==>
        found == Link(free, FirstFit(free, H + size)) && previous == Predecessor(free, FirstFit(free, H + size))
      ensures FirstFit(free, H + size) == |free| ==> found == foundIn && previous == previousIn
    {
      var h := Heap();
      found, previous := foundIn, previousIn;
      var current := head;
      var previousNode := NULL;
      var space := H + size;
      ghost var i: nat := 0;
      while current != NULL
        invariant i <= |free| && current == Link(free, i) && (i < |free| ==> previousNode == Predecessor(free, i))
        invariant forall j :: 0 <= j < i ==> free[j].size < space
        modifies {}
        decreases |free| - i
      {
        FreeFacts(St(), i);
        assert LinkedAt(St().mem, free, i);
        if mem[current - BASE] >= space {
          found, previous := current, previousNode;
          return;
        }
        previousNode := current;
        current := mem[current - BASE + 1];
        i := i + 1;
      }
    }

    /**
     * `split(size, previous, free_block, allocated)` for free node `i`, which
     * `find_free` picked: the remainder node is written right after the new
     * header with the bytes left over and with the found node's `next`, it
     * takes the found node's place behind `previous` (or as `head`), and the
     * found node's record becomes a header holding `size` and MAGIC.  Returns
     * the remainder node (the new `*free_block`) and the header (`*allocated`).
     */
    method Split(size: nat, previous: int, found: int, ghost i: nat) returns (rest: int, header: int)
      requires Valid() && Mapped()
      requires i < |free| && found == Link(free, i) && previous == Predecessor(free, i)
      requires H + size <= free[i].size
      modifies this, mem
      ensures Valid() && Mapped() && mem == old(mem)
      ensures St() == SplitStep(old(St()), i, size)
      ensures header == found && rest == found + H + size
    {
      ghost var s := St();
      FreeFacts(s, i);
      assert LinkedAt(s.mem, free, i);
      if i > 0 {
        FreeFacts(s, i - 1);
      }
      ghost var target := SplitStep(s, i, size);
      var f := found - BASE;
      var r := f + H + size;
      ghost var m := s.mem[r := s.mem[f] - (H + size)][r + 1 := s.mem[f + 1]];
      mem[r] := mem[f] - (H + size);
      mem[r + 1] := mem[f + 1];
      assert mem[..] == m;
      if previous == NULL {
        assert i == 0;
        head := Addr(r);
      } else {
        assert i > 0 && previous - BASE == s.free[i - 1].at;
        mem[previous - BASE + 1] := Addr(r);
        m := m[previous - BASE + 1 := Addr(r)];
        assert mem[..] == m;
      }
      assert f == s.free[i].at;
      assert target.mem == m[f := size][f + 1 := MAGIC];
      mem[f] := size;
      mem[f + 1] := MAGIC;
      assert mem[..] == target.mem;
      assert Listed(s, i);
      free := SplitNode(free, i, size);
      layout := Carve(layout, IndexOf(layout, s.free[i]), size);
      assert St() == target;
      SplitKeepsWf(s, i, size);
      rest, header := Addr(r), found;
    }

    /**
     * `my_malloc(size)`: first fit, then split; returns the address right
     * after the new header, or NULL when no node is large enough.
     */
    method MyMalloc(size: nat) returns (p: int)
      requires Valid()
      modifies this, mem
      ensures Valid() && Mapped()
      ensures old(Mapped()) ==> mem == old(mem)
      ensures !old(Mapped()) ==> fresh(mem)
      ensures St() == MallocStep(Started(old(St())), size).0
      ensures p == MallocStep(Started(old(St())), size).1
    {
      var found, previous := FindFree(size, NULL, NULL);
      ghost var k := FirstFit(free, H + size);
      if found == NULL {
        return NULL;
      }
      var rest, header := Split(size, previous, found, k);
      p := header + H;
    }

    /**
     * `coalesce(free_block)` for free node `sIdx`: walks the list from it and
     * absorbs into it the first node that begins where it ends, unlinking that
     * node from the one before it.
     */
    method Coalesce(freeBlock: int, ghost sIdx: nat)
      requires Valid() && Mapped()
      requires sIdx < |free| && freeBlock == Link(free, sIdx)
      modifies this, mem
      ensures Valid() && Mapped() && mem == old(mem)
      ensures St() == CoalesceStep(old(St()), sIdx)
    {
      ghost var s := St();
      FreeFacts(s, sIdx);
      ghost var t := NodeAt(free, End(free[sIdx]), sIdx + 1);
      var fb := freeBlock - BASE;
      var current := freeBlock;
      var blockSize := mem[fb] + H;
      ghost var c: nat := sIdx;
      assert LinkedAt(s.mem, free, c);
      while mem[current - BASE + 1] != NULL
        invariant mem == old(mem) && St() == s
        invariant sIdx <= c < t && c < |free| && current == Link(free, c)
        invariant current - BASE + 1 < HEAP_SIZE && mem[current - BASE + 1] == Link(free, c + 1)
        decreases |free| - c
      {
        var next := mem[current - BASE + 1];
        FreeFacts(s, c + 1);
        if freeBlock + blockSize == next {
          assert t == c + 1;
          assert Listed(s, sIdx);
          ghost var j := IndexOf(layout, free[sIdx]);
          MergeableFacts(s, sIdx, t, j);
          ghost var target := Merge(s, sIdx, t, j);
          mem[fb] := mem[fb] + mem[next - BASE] + H;
          mem[current - BASE + 1] := mem[next - BASE + 1];
          assert mem[..] == target.mem;
          free := MergeInto(free, sIdx, t);
          layout := Fuse(layout, j);
          assert St() == target;
          MergeKeepsWf(s, sIdx, t, j);
          return;
        }
        assert LinkedAt(s.mem, free, c + 1);
        current := next;
        c := c + 1;
      }
    }

    /**
     * `my_free(p)`: the header right before `p`, which must carry MAGIC, is
     * turned into a free node of the same size whose `next` is the old head;
     * it becomes the head and is coalesced.
     */
    method MyFree(p: int)
      requires Valid() && Mapped()
      requires BASE + H <= p && p - BASE - H + 1 < HEAP_SIZE && mem[p - BASE - H + 1] == MAGIC
      modifies this, mem
      ensures Valid() && Mapped() && mem == old(mem)
      ensures St() == FreeStep(old(St()), p)
    {
      ghost var s := St();
      var b := p - BASE - H;
      PushKeepsWf(s, b);
      mem[b + 1] := head;
      head := Addr(b);
      free := [Block(b, mem[b])] + free;
      assert St() == PushStep(s, b);
      Coalesce(head, 0);
    }
  }

  /**
   * A program's first calls: `my_malloc(64)` on the untouched allocator, then
   * `my_free` of the pointer it returned.  The block merges with the rest of
   * the region again, so the free list is back to its initial single node.
   */
  method MallocThenFree() returns (a: Allocator, p: int)
    ensures fresh(a) && a.Valid() && a.Mapped()
    ensures p == Addr(H)
    ensures a.free == [WholeRegion()]
  {
    a := new Allocator();
    p := a.MyMalloc(64);
    MallocStepSpec(InitialState(), 64);
    assert FirstFit([WholeRegion()], H + 64) == 0;
    ghost var s := a.St();
    assert s.free == [Block(80, 4000)];
    a.MyFree(p);
    FreeStepSpec(s, p);
    assert NodeAt([Block(0, 64), Block(80, 4000)], 80, 1) == 1;
  }
}
