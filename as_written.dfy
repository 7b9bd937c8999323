/**
 * `split` and `coalesce` exactly as src/my_malloc.cpp writes them, next to
 * the corrected steps of `Arena` that the rest of the model uses, and the
 * call sequences on which the two differ.  The call sequences are built from
 * the corrected steps (`Alloc`, `Dealloc`); for every call before the last
 * one, `MallocAgrees` or `FreeAgrees` shows that the code as written reaches
 * the same cells and `head`, so each sequence is also a run of the program
 * as written up to its last call.
 *
 * The as-written steps work on the cells and `head` alone: once they have
 * run, the free list and the layout that `Arena.State` keeps beside the cells
 * no longer describe them.  A cell that no current record starts at keeps
 * whatever the model last stored there.
 */
module AsWritten {
  import opened Layout
  import opened FreeList
  import opened Arena

  /** The cells of the region and the `head` pointer. */
  datatype Memory = Memory(mem: seq<int>, head: int)

  /** A 64-bit `size_t`: 2 to the 64th. */
  const SIZE_T_RANGE: int := 0x1_0000_0000_0000_0000

  /**
   * The byte at the start of a cell that holds `v`, read as a `char` where
   * `char` is signed: the low byte of `v` (fields are little-endian), from
   * -128 to 127.
   */
  function ProbeByte(v: int): (c: int)
    ensures -128 <= c < 128 && (v - c) % 256 == 0
  {
    var b := v % 256;
    if b < 128 then b else b - 256
  }

  /** A `char` converted to `size_t` for a comparison with a `size_t`: negative values wrap. */
  function AsSizeT(c: int): (r: nat)
    requires -128 <= c < 128
    ensures r < SIZE_T_RANGE && (r - c) % SIZE_T_RANGE == 0
  {
    if c < 0 then c + SIZE_T_RANGE else c
  }

  /**
   * `split` as written, for the node at `found` behind `previous`: the size
   * of the node is compared with the byte `probe` found at `found + H + size`;
   * when the test passes the remainder's size is written but never its
   * `next`, and when it fails the remainder is NULL.  The remainder (or NULL)
   * goes behind `previous` or into `head`, and the header gets `size` and MAGIC.
   *
   * The contract speaks of `link`, the pointer that replaces `found` in the
   * list (`head`, or the `next` cell of `previous`), for every `previous`
   * whose `next` cell is not the header being written.
   */
  function SplitAsWritten(m: Memory, size: nat, previous: int, found: int, probe: int): (r: Memory)
    requires BASE <= found && found - BASE + H + size + 1 < |m.mem|
    requires previous == NULL || (BASE <= previous && previous - BASE + 1 < |m.mem|)
    requires -128 <= probe < 128
    ensures |r.mem| == |m.mem|
    ensures r.mem[found - BASE] == size && r.mem[found - BASE + 1] == MAGIC
    ensures previous != NULL ==> r.head == m.head
    // the test passes: the remainder is linked in, and its `next` cell keeps
    // whatever it held before
    ensures var f := found - BASE; var rest := f + H + size;
      m.mem[f] >= AsSizeT(probe) ==>
        && (previous == NULL ==> r.head == Addr(rest))
        && (previous != NULL && previous - BASE + 1 != f && previous - BASE + 1 != f + 1 ==>
              r.mem[previous - BASE + 1] == Addr(rest))
        && (previous == NULL || previous - BASE + 1 != rest ==> r.mem[rest] == m.mem[f] - (H + size))
        && (previous == NULL || previous - BASE != rest ==> r.mem[rest + 1] == m.mem[rest + 1])
    // the test fails: the rest of the list is cut off
    ensures var f := found - BASE;
      m.mem[f] < AsSizeT(probe) ==>
        && (previous == NULL ==> r.head == NULL)
        && (previous != NULL && previous - BASE + 1 != f && previous - BASE + 1 != f + 1 ==>
              r.mem[previous - BASE + 1] == NULL)
    // a negative byte always fails the test, whatever the node's size
    ensures 0 <= m.mem[found - BASE] < SIZE_T_RANGE - 128 && probe < 0 ==> m.mem[found - BASE] < AsSizeT(probe)
    // no other cell is written
    ensures var f := found - BASE; var rest := f + H + size;
      forall x ::
        (&& 0 <= x < |m.mem| && x != f && x != f + 1
         && (x != rest || m.mem[f] < AsSizeT(probe))
         && (previous == NULL || x != previous - BASE + 1))
        ==> r.mem[x] == m.mem[x]
  {
    var f := found - BASE;
    var rest := f + H + size;
    var fits := m.mem[f] >= AsSizeT(probe);
    var m1 := if fits then m.mem[rest := m.mem[f] - (H + size)] else m.mem;
    var remainder := if fits then Addr(rest) else NULL;
    var m2 := if previous == NULL then m1 else m1[previous - BASE + 1 := remainder];
    Memory(m2[f := size][f + 1 := MAGIC], if previous == NULL then remainder else m.head)
  }

  /**
   * Node `c` absorbed the node its `next` points to, which begins
   * `blockSize` bytes after `c`: `r` is `mem` with `c`'s size grown by that
   * node's footprint and `c`'s `next` taken from it.
   */
  ghost predicate AbsorbedAt(mem: seq<int>, r: seq<int>, c: int, blockSize: int)
  {
    && 0 <= c && c + 1 < |mem|
    && BASE <= mem[c + 1] && mem[c + 1] - BASE + 1 < |mem|
    && Addr(c) + blockSize == mem[c + 1]
    && var m1 := mem[c := mem[c] + mem[mem[c + 1] - BASE] + H];
       r == m1[c + 1 := m1[mem[c + 1] - BASE + 1]]
  }

  /**
   * The loop of `coalesce` as written, at node `current`: `blockSize` is the
   * footprint of the node the walk started from, yet it is added to `current`;
   * when the sum is `current`'s `next`, that next node is absorbed into
   * `current`.  The walk gives up after `fuel` nodes or at a pointer that
   * leaves the region.
   */
  function WalkAsWritten(mem: seq<int>, current: int, blockSize: int, fuel: nat): (r: seq<int>)
    requires BASE <= current && current - BASE + 1 < |mem|
    ensures |r| == |mem|
    decreases fuel
  {
    var c := current - BASE;
    var next := mem[c + 1];
    if next == NULL || fuel == 0 || next < BASE || next - BASE + 1 >= |mem| then mem
    else if current + blockSize == next then
      var m1 := mem[c := mem[c] + mem[next - BASE] + H];
      m1[c + 1 := m1[next - BASE + 1]]
    else WalkAsWritten(mem, next, blockSize, fuel - 1)
  }

  /**
   * The walk as written either changes nothing or lets exactly one node `c`
   * absorb the node that begins `blockSize` bytes after it, whatever `c`'s
   * own size is.
   */
  lemma {:induction false} WalkAbsorbsAtMostOnce(mem: seq<int>, current: int, blockSize: int, fuel: nat)
    requires BASE <= current && current - BASE + 1 < |mem|
    ensures var r := WalkAsWritten(mem, current, blockSize, fuel);
      r == mem || exists c :: AbsorbedAt(mem, r, c, blockSize)
    decreases fuel
  {
    var c := current - BASE;
    var next := mem[c + 1];
    if next == NULL || fuel == 0 || next < BASE || next - BASE + 1 >= |mem| {
    } else if current + blockSize == next {
      assert AbsorbedAt(mem, WalkAsWritten(mem, current, blockSize, fuel), c, blockSize);
    } else {
      WalkAbsorbsAtMostOnce(mem, next, blockSize, fuel - 1);
    }
  }

  /** When the first test of the walk succeeds, the node the walk starts at absorbs its `next`. */
  lemma WalkMergesFirst(mem: seq<int>, current: int, blockSize: int, fuel: nat)
    requires BASE <= current && current - BASE + 1 < |mem| && fuel > 0
    requires BASE <= mem[current - BASE + 1] && mem[current - BASE + 1] - BASE + 1 < |mem|
    requires current + blockSize == mem[current - BASE + 1]
    ensures AbsorbedAt(mem, WalkAsWritten(mem, current, blockSize, fuel), current - BASE, blockSize)
  {
  }

  /** `coalesce(free_block)` as written: the walk from `free_block` with `free_block`'s footprint. */
  function CoalesceAsWritten(m: Memory, freeBlock: int): (r: Memory)
    requires BASE <= freeBlock && freeBlock - BASE + 1 < |m.mem|
    ensures r.head == m.head && |r.mem| == |m.mem|
  {
    Memory(WalkAsWritten(m.mem, freeBlock, m.mem[freeBlock - BASE] + H, |m.mem|), m.head)
  }

  /**
   * `coalesce` as written keeps `head` and either changes nothing or lets one
   * node absorb the node that begins `free_block`'s footprint after it; that
   * node need not be `free_block`, and its own size plays no part.
   */
  lemma CoalesceAbsorbsAtMostOnce(m: Memory, freeBlock: int)
    requires BASE <= freeBlock && freeBlock - BASE + 1 < |m.mem|
    ensures var r := CoalesceAsWritten(m, freeBlock);
      var blockSize := m.mem[freeBlock - BASE] + H;
      r.mem == m.mem || exists c :: AbsorbedAt(m.mem, r.mem, c, blockSize)
  {
    WalkAbsorbsAtMostOnce(m.mem, freeBlock, m.mem[freeBlock - BASE] + H, |m.mem|);
  }

  // ---------------------------------------------------------------- call sequences

  /** Shorthand for `Arena.InitialState()`, with the facts the call sequences use. */
  function Fresh(): (s: State)
    ensures Wf(s)
    ensures s.free == [Block(0, 4080)] && s.layout == [Block(0, 4080)]
    ensures forall x :: 1 < x < HEAP_SIZE ==> s.mem[x] == 0
  {
    InitialWf();
    InitialState()
  }

  /**
   * Shorthand for the state `Arena.MallocStep` leaves after `my_malloc(size)`
   * with the corrected `split`, carrying the facts of `Arena.MallocStepSpec`.
   */
  function Alloc(s: State, size: nat): (r: State)
    requires Wf(s)
    ensures Wf(r) && r.free == Malloc(s.free, size).0
  {
    MallocStepSpec(s, size);
    MallocStep(s, size).0
  }

  /**
   * Shorthand for the state `Arena.FreeStep` leaves after `my_free` of the
   * block whose header is at offset `b`, with the corrected `coalesce`,
   * carrying the facts of `Arena.FreeStepSpec`.
   */
  function Dealloc(s: State, b: nat): (r: State)
    requires Wf(s) && b + 1 < HEAP_SIZE && s.mem[b + 1] == MAGIC
    ensures Wf(r) && s.mem[b] >= 0 && r.free == Release(s.free, Block(b, s.mem[b]))
  {
    FreeStepSpec(s, Addr(b + H));
    FreeStep(s, Addr(b + H))
  }

  /** A block of the layout that is not on the free list has its size and MAGIC in its header. */
  lemma AllocatedMarked(s: State, k: nat)
    requires Wf(s) && k < |s.layout| && s.layout[k] !in s.free
    ensures s.layout[k].at + 1 < HEAP_SIZE
    ensures s.mem[s.layout[k].at] == s.layout[k].size && s.mem[s.layout[k].at + 1] == MAGIC
  {
    assert BlockOk(s, k);
  }

  /**
   * `my_malloc(size)` with the corrected `split`, served by the head node,
   * which is block `j` of the layout: the whole resulting state `r`.
   */
  lemma AllocHead(s: State, size: nat, j: nat) returns (r: State)
    requires Wf(s) && H + size <= s.free[0].size
    requires j < |s.layout| && s.layout[j] == s.free[0]
    ensures r == Alloc(s, size) && Wf(r)
    ensures var f := s.free[0].at;
      var rest := f + H + size;
      && rest + 1 < |s.mem|
      && r.free == [Block(rest, s.free[0].size - (H + size))] + s.free[1..]
      && r.layout == Carve(s.layout, j, size)
      && r.head == Addr(rest)
      && r.mem == s.mem[rest := s.mem[f] - (H + size)][rest + 1 := s.mem[f + 1]][f := size][f + 1 := MAGIC]
  {
    FreeFacts(s, 0);
    assert FirstFit(s.free, H + size) == 0;
    assert Listed(s, 0);
    var j' := IndexOf(s.layout, s.free[0]);
    TiledStartsUnique(s.layout, j, j');
    assert s.free[..0] == [];
    r := Alloc(s, size);
  }

  /**
   * `my_free` of layout block `j`, an allocated block, with the corrected
   * `coalesce`, when no free node starts where it ends: the block is pushed
   * and nothing else changes.
   */
  lemma DeallocAlone(s: State, j: nat) returns (r: State)
    requires Wf(s) && j < |s.layout| && s.layout[j] !in s.free
    requires forall k :: 0 <= k < |s.free| ==> s.free[k].at != End(s.layout[j])
    ensures s.layout[j].at + 1 < HEAP_SIZE && s.mem[s.layout[j].at + 1] == MAGIC
    ensures r == Dealloc(s, s.layout[j].at) && Wf(r)
    ensures r.free == [s.layout[j]] + s.free
    ensures r.layout == s.layout
    ensures r.head == Addr(s.layout[j].at)
    ensures r.mem == s.mem[s.layout[j].at + 1 := s.head]
  {
    var b := s.layout[j].at;
    AllocatedMarked(s, j);
    PushKeepsWf(s, b);
    var u := PushStep(s, b);
    assert u.free[0] == s.layout[j];
    assert u.free[1..] == s.free;
    r := Dealloc(s, b);
  }

  /**
   * `my_free` of layout block `j`, an allocated block, with the corrected
   * `coalesce`, when the head node starts where it ends: the block is pushed
   * and absorbs the old head.
   */
  lemma DeallocMergeHead(s: State, j: nat) returns (r: State)
    requires Wf(s) && j < |s.layout| && s.layout[j] !in s.free
    requires s.free[0].at == End(s.layout[j])
    ensures s.layout[j].at + 1 < HEAP_SIZE && s.mem[s.layout[j].at + 1] == MAGIC
    ensures r == Dealloc(s, s.layout[j].at) && Wf(r)
    ensures var b := s.layout[j].at;
      var n := s.free[0];
      && n.at + 1 < |s.mem|
      && r.free == [Block(b, s.layout[j].size + H + n.size)] + s.free[1..]
      && j + 1 < |s.layout| && r.layout == Fuse(s.layout, j)
      && r.head == Addr(b)
      && r.mem == s.mem[b := s.layout[j].size + H + n.size][b + 1 := s.mem[n.at + 1]]
  {
    var b := s.layout[j].at;
    var n := s.free[0];
    AllocatedMarked(s, j);
    FreeFacts(s, 0);
    PushKeepsWf(s, b);
    var u := PushStep(s, b);
    assert u.free[0] == s.layout[j] && u.free[1] == n;
    assert NodeAt(u.free, End(u.free[0]), 1) == 1;
    assert Listed(u, 0);
    var j' := IndexOf(u.layout, u.free[0]);
    TiledStartsUnique(s.layout, j, j');
    MergeableFacts(u, 0, 1, j);
    assert u.free[..0] == [] && u.free[1..1] == [] && u.free[2..] == s.free[1..];
    var m := s.mem[b := s.layout[j].size + H + n.size][b + 1 := s.mem[n.at + 1]];
    assert Merge(u, 0, 1, j).mem == m;
    r := Dealloc(s, b);
  }

  // ---------------------------------------------------------------- where the two agree

  /** Every cell from offset `x` to the end of the region still holds zero. */
  ghost predicate ZeroFrom(mem: seq<int>, x: nat)
  {
    forall y :: x <= y < |mem| ==> mem[y] == 0
  }

  /**
   * `my_malloc(size)` served by the head node: `split` as written leaves the
   * same cells and the same `head` as the corrected step.
   */
  ghost predicate MallocAgrees(s: State, size: nat)
  {
    && Wf(s) && |s.free| > 0 && s.head == Addr(s.free[0].at)
    && s.free[0].at + H + size + 1 < |s.mem|
    && SplitAsWritten(Memory(s.mem, s.head), size, NULL, s.head, ProbeByte(s.mem[s.free[0].at + H + size]))
       == Memory(Alloc(s, size).mem, Alloc(s, size).head)
  }

  /**
   * `my_free` of the block whose header is at offset `b`: the push and
   * `coalesce` as written leave the same cells and the same `head` as the
   * corrected step.
   */
  ghost predicate FreeAgrees(s: State, b: nat)
  {
    && Wf(s) && b + 1 < HEAP_SIZE && s.mem[b + 1] == MAGIC
    && CoalesceAsWritten(Memory(s.mem[b + 1 := s.head], Addr(b)), Addr(b))
       == Memory(Dealloc(s, b).mem, Dealloc(s, b).head)
  }

  /**
   * When the head node is the only free node and nothing after its record
   * was ever written, `split` as written does what the corrected step does:
   * the byte it probes is 0, so its test passes, and the `next` it fails to
   * write already reads NULL.  Everything after the remainder's record is
   * still zero afterwards.
   */
  lemma AllocHeadAgrees(s: State, size: nat, j: nat)
    requires Wf(s) && |s.free| == 1 && H + size <= s.free[0].size
    requires j < |s.layout| && s.layout[j] == s.free[0]
    requires ZeroFrom(s.mem, s.free[0].at + 2)
    ensures MallocAgrees(s, size)
    ensures ZeroFrom(Alloc(s, size).mem, s.free[0].at + H + size + 2)
  {
    var r := AllocHead(s, size, j);
    var f := s.free[0].at;
    var rest := f + H + size;
    FreeFacts(s, 0);
    assert LinkedAt(s.mem, s.free, 0);
    assert s.mem[f + 1] == NULL == s.mem[rest + 1];
    assert ProbeByte(s.mem[rest]) == 0;
    assert s.mem[rest := s.mem[f] - (H + size)][rest + 1 := s.mem[f + 1]] == s.mem[rest := s.mem[f] - (H + size)];
  }

  /**
   * `my_free` of layout block `j` when the only free node does not start
   * where it ends: the walk as written meets that node, whose `next` is NULL,
   * and stops without a merge, as the corrected step does.
   */
  lemma FreeAloneAgrees(s: State, j: nat)
    requires Wf(s) && |s.free| == 1 && j < |s.layout| && s.layout[j] !in s.free
    requires s.free[0].at != End(s.layout[j])
    ensures FreeAgrees(s, s.layout[j].at)
  {
    var r := DeallocAlone(s, j);
    var b := s.layout[j].at;
    var x := s.free[0];
    AllocatedMarked(s, j);
    FreeFacts(s, 0);
    assert LinkedAt(s.mem, s.free, 0);
    var m := s.mem[b + 1 := s.head];
    assert m[b] == s.layout[j].size && m[b + 1] == Addr(x.at) && x.at != b;
    assert WalkAsWritten(m, Addr(b), m[b] + H, HEAP_SIZE) == WalkAsWritten(m, Addr(x.at), m[b] + H, HEAP_SIZE - 1) == m;
  }

  /**
   * `my_free` of layout block `j` when the head node starts where it ends:
   * the first test of the walk as written succeeds and absorbs the old head
   * into the block, as the corrected step does.
   */
  lemma FreeMergeHeadAgrees(s: State, j: nat)
    requires Wf(s) && j < |s.layout| && s.layout[j] !in s.free
    requires s.free[0].at == End(s.layout[j])
    ensures FreeAgrees(s, s.layout[j].at)
  {
    var r := DeallocMergeHead(s, j);
    var b := s.layout[j].at;
    var n := s.free[0];
    AllocatedMarked(s, j);
    FreeFacts(s, 0);
    var m := s.mem[b + 1 := s.head];
    assert m[b] == s.layout[j].size && m[b + 1] == Addr(n.at) && m[n.at] == n.size;
    var m1 := m[b := m[b] + m[n.at] + H];
    assert m1[n.at + 1] == s.mem[n.at + 1];
    WalkMergesFirst(m, Addr(b), m[b] + H, HEAP_SIZE);
    assert m1[b + 1 := m1[n.at + 1]] == r.mem;
  }

  // ---------------------------------------------------------------- finding 1

  /** `my_malloc(32)` on a fresh heap. */
  lemma LateStep1() returns (s: State)
    ensures s == Alloc(Fresh(), 32) && Wf(s)
    ensures s.free == [Block(48, 4032)] && s.layout == [Block(0, 32), Block(48, 4032)]
    ensures s.mem[24] == 0 && s.mem[25] == 0
    ensures MallocAgrees(Fresh(), 32) && ZeroFrom(s.mem, 50)
  {
    assert ZeroFrom(Fresh().mem, 2);
    AllocHeadAgrees(Fresh(), 32, 0);
    s := AllocHead(Fresh(), 32, 0);
  }

  /** Then `my_malloc(8)`. */
  lemma LateStep2(p: State) returns (s: State)
    requires Wf(p) && p.free == [Block(48, 4032)] && p.layout == [Block(0, 32), Block(48, 4032)]
    requires ZeroFrom(p.mem, 50)
    ensures s == Alloc(p, 8) && Wf(s)
    ensures s.free == [Block(72, 4008)] && s.layout == [Block(0, 32), Block(48, 8), Block(72, 4008)]
    ensures p.mem[24] == s.mem[24] && p.mem[25] == s.mem[25]
    ensures MallocAgrees(p, 8) && ZeroFrom(s.mem, 74)
  {
    AllocHeadAgrees(p, 8, 1);
    s := AllocHead(p, 8, 1);
  }

  /** Then `my_free` of the first block. */
  lemma LateStep3(p: State) returns (s: State)
    requires Wf(p) && p.free == [Block(72, 4008)] && p.layout == [Block(0, 32), Block(48, 8), Block(72, 4008)]
    ensures p.mem[1] == MAGIC && s == Dealloc(p, 0) && Wf(s)
    ensures s.free == [Block(0, 32), Block(72, 4008)]
    ensures p.mem[24] == s.mem[24] && p.mem[25] == s.mem[25]
    ensures FreeAgrees(p, 0)
  {
    FreeAloneAgrees(p, 0);
    s := DeallocAlone(p, 0);
  }

  /**
   * `my_malloc(32)` and `my_malloc(8)` on a fresh heap, then `my_free` of the
   * first block: the state after each call.  The cells at offsets 24 and 25,
   * which no call writes, are still zero.
   */
  lemma LateSplit() returns (s1: State, s2: State, s3: State)
    ensures s1 == Alloc(Fresh(), 32) && s2 == Alloc(s1, 8)
    ensures s2.mem[1] == MAGIC && s3 == Dealloc(s2, 0)
    ensures Wf(s3) && s3.free == [Block(0, 32), Block(72, 4008)]
    ensures s3.mem[24] == 0 && s3.mem[25] == 0
    ensures MallocAgrees(Fresh(), 32) && MallocAgrees(s1, 8) && FreeAgrees(s2, 0)
  {
    s1 := LateStep1();
    s2 := LateStep2(s1);
    s3 := LateStep3(s2);
  }

  /**
   * On a state like the last one of `LateSplit`, `my_malloc(8)` takes the
   * free node at offset 0 and leaves a remainder at offset 24.  As written,
   * `split` never sets the remainder's `next`; the stale cell holds NULL, so
   * the node at offset 72 can no longer be reached from `head`.  The
   * corrected step keeps it reachable.
   */
  lemma SplitLeavesNextUnset(s: State)
    requires Wf(s) && s.free == [Block(0, 32), Block(72, 4008)] && s.mem[24] == 0 && s.mem[25] == 0
    ensures var w := SplitAsWritten(Memory(s.mem, s.head), 8, NULL, Addr(0), ProbeByte(s.mem[24]));
      Chain(w.mem, w.head, 3) == [Block(24, 8)]
    ensures var r := Alloc(s, 8);
      Chain(r.mem, r.head, 3) == [Block(24, 8), Block(72, 4008)]
  {
    FreeFacts(s, 0);
    var r := Alloc(s, 8);
    ChainIsFreeList(r, 3);
  }

  // ---------------------------------------------------------------- finding 2

  /** `my_malloc(8)` on a fresh heap. */
  lemma ProbeStep1() returns (s: State)
    ensures s == Alloc(Fresh(), 8) && Wf(s)
    ensures s.free == [Block(24, 4056)] && s.layout == [Block(0, 8), Block(24, 4056)]
    ensures MallocAgrees(Fresh(), 8) && ZeroFrom(s.mem, 26)
  {
    assert ZeroFrom(Fresh().mem, 2);
    AllocHeadAgrees(Fresh(), 8, 0);
    s := AllocHead(Fresh(), 8, 0);
  }

  /** Then `my_malloc(200)`. */
  lemma ProbeStep2(p: State) returns (s: State)
    requires Wf(p) && p.free == [Block(24, 4056)] && p.layout == [Block(0, 8), Block(24, 4056)]
    requires ZeroFrom(p.mem, 26)
    ensures s == Alloc(p, 200) && Wf(s)
    ensures s.free == [Block(240, 3840)] && s.layout == [Block(0, 8), Block(24, 200), Block(240, 3840)]
    ensures MallocAgrees(p, 200) && ZeroFrom(s.mem, 242)
  {
    AllocHeadAgrees(p, 200, 1);
    s := AllocHead(p, 200, 1);
  }

  /** Then `my_malloc(8)`. */
  lemma ProbeStep3(p: State) returns (s: State)
    requires Wf(p) && p.free == [Block(240, 3840)] && p.layout == [Block(0, 8), Block(24, 200), Block(240, 3840)]
    requires ZeroFrom(p.mem, 242)
    ensures s == Alloc(p, 8) && Wf(s)
    ensures s.free == [Block(264, 3816)]
    ensures s.layout == [Block(0, 8), Block(24, 200), Block(240, 8), Block(264, 3816)]
    ensures MallocAgrees(p, 8)
  {
    AllocHeadAgrees(p, 8, 2);
    s := AllocHead(p, 8, 2);
  }

  /** Then `my_free` of the second block, which has no free neighbour after it. */
  lemma ProbeStep4(p: State) returns (s: State)
    requires Wf(p) && p.free == [Block(264, 3816)]
    requires p.layout == [Block(0, 8), Block(24, 200), Block(240, 8), Block(264, 3816)]
    ensures p.mem[25] == MAGIC && s == Dealloc(p, 24) && Wf(s)
    ensures s.free == [Block(24, 200), Block(264, 3816)]
    ensures s.layout == [Block(0, 8), Block(24, 200), Block(240, 8), Block(264, 3816)]
    ensures FreeAgrees(p, 24)
  {
    FreeAloneAgrees(p, 1);
    s := DeallocAlone(p, 1);
  }

  /** Then `my_free` of the first block, which absorbs the second and leaves its old size in cell 24. */
  lemma ProbeStep5(p: State) returns (s: State)
    requires Wf(p) && p.free == [Block(24, 200), Block(264, 3816)]
    requires p.layout == [Block(0, 8), Block(24, 200), Block(240, 8), Block(264, 3816)]
    ensures p.mem[1] == MAGIC && s == Dealloc(p, 0) && Wf(s)
    ensures s.free == [Block(0, 224), Block(264, 3816)] && s.mem[24] == 200
    ensures FreeAgrees(p, 0)
  {
    FreeMergeHeadAgrees(p, 0);
    FreeFacts(p, 0);
    s := DeallocMergeHead(p, 0);
  }

  /**
   * `my_malloc(8)`, `my_malloc(200)` and `my_malloc(8)` on a fresh heap, then
   * `my_free` of the second block and of the first, which absorbs the second:
   * the state after each call.  The cell at offset 24 still holds 200, the
   * size from the second block's old record.
   */
  lemma StaleProbe() returns (s1: State, s2: State, s3: State, s4: State, s5: State)
    ensures s1 == Alloc(Fresh(), 8) && s2 == Alloc(s1, 200) && s3 == Alloc(s2, 8)
    ensures s3.mem[25] == MAGIC && s4 == Dealloc(s3, 24)
    ensures s4.mem[1] == MAGIC && s5 == Dealloc(s4, 0)
    ensures Wf(s5) && s5.free == [Block(0, 224), Block(264, 3816)] && s5.mem[24] == 200
    ensures MallocAgrees(Fresh(), 8) && MallocAgrees(s1, 200) && MallocAgrees(s2, 8)
    ensures FreeAgrees(s3, 24) && FreeAgrees(s4, 0)
  {
    s1 := ProbeStep1();
    s2 := ProbeStep2(s1);
    s3 := ProbeStep3(s2);
    s4 := ProbeStep4(s3);
    s5 := ProbeStep5(s4);
  }

  /**
   * On a state like the last one of `StaleProbe`, `my_malloc(8)` takes the
   * free node at offset 0.  As written, `split` reads the byte at offset 24
   * as a signed `char`: 200 reads as -56, which becomes 2 to the 64th minus
   * 56 when compared with the node's size, so the test fails, `head` becomes
   * NULL and every free byte is lost.  The corrected step leaves both
   * remaining nodes on the list.
   */
  lemma SplitProbeWraps(s: State)
    requires Wf(s) && s.free == [Block(0, 224), Block(264, 3816)] && s.mem[24] == 200
    ensures ProbeByte(s.mem[24]) == -56
    ensures var w := SplitAsWritten(Memory(s.mem, s.head), 8, NULL, Addr(0), ProbeByte(s.mem[24]));
      w.head == NULL && Chain(w.mem, w.head, 3) == []
    ensures var r := Alloc(s, 8);
      Chain(r.mem, r.head, 3) == [Block(24, 200), Block(264, 3816)]
  {
    assert ProbeByte(200) == -56 by {
      assert 200 % 256 == 200;
    }
    FreeFacts(s, 0);
    var r := Alloc(s, 8);
    ChainIsFreeList(r, 3);
  }

  // ---------------------------------------------------------------- finding 3

  /** `my_malloc(8)` after `my_malloc(32)` and `my_malloc(8)` on a fresh heap. */
  lemma GapStep3(p: State) returns (s: State)
    requires Wf(p) && p.free == [Block(72, 4008)] && p.layout == [Block(0, 32), Block(48, 8), Block(72, 4008)]
    requires ZeroFrom(p.mem, 74)
    ensures s == Alloc(p, 8) && Wf(s)
    ensures s.free == [Block(96, 3984)]
    ensures s.layout == [Block(0, 32), Block(48, 8), Block(72, 8), Block(96, 3984)]
    ensures MallocAgrees(p, 8) && ZeroFrom(s.mem, 98)
  {
    AllocHeadAgrees(p, 8, 2);
    s := AllocHead(p, 8, 2);
  }

  /** Then a fourth `my_malloc(8)`. */
  lemma GapStep4(p: State) returns (s: State)
    requires Wf(p) && p.free == [Block(96, 3984)]
    requires p.layout == [Block(0, 32), Block(48, 8), Block(72, 8), Block(96, 3984)]
    requires ZeroFrom(p.mem, 98)
    ensures s == Alloc(p, 8) && Wf(s)
    ensures s.free == [Block(120, 3960)]
    ensures s.layout == [Block(0, 32), Block(48, 8), Block(72, 8), Block(96, 8), Block(120, 3960)]
    ensures MallocAgrees(p, 8) && ZeroFrom(s.mem, 122)
  {
    AllocHeadAgrees(p, 8, 3);
    s := AllocHead(p, 8, 3);
  }

  /** Then a fifth `my_malloc(8)`. */
  lemma GapStep5(p: State) returns (s: State)
    requires Wf(p) && p.free == [Block(120, 3960)]
    requires p.layout == [Block(0, 32), Block(48, 8), Block(72, 8), Block(96, 8), Block(120, 3960)]
    requires ZeroFrom(p.mem, 122)
    ensures s == Alloc(p, 8) && Wf(s)
    ensures s.free == [Block(144, 3936)]
    ensures s.layout == [Block(0, 32), Block(48, 8), Block(72, 8), Block(96, 8), Block(120, 8), Block(144, 3936)]
    ensures MallocAgrees(p, 8)
  {
    AllocHeadAgrees(p, 8, 4);
    s := AllocHead(p, 8, 4);
  }

  /** Then `my_free` of the fifth block, which absorbs the rest of the region. */
  lemma GapStep6(p: State) returns (s: State)
    requires Wf(p) && p.free == [Block(144, 3936)]
    requires p.layout == [Block(0, 32), Block(48, 8), Block(72, 8), Block(96, 8), Block(120, 8), Block(144, 3936)]
    ensures p.mem[121] == MAGIC && s == Dealloc(p, 120) && Wf(s)
    ensures s.free == [Block(120, 3960)]
    ensures s.layout == [Block(0, 32), Block(48, 8), Block(72, 8), Block(96, 8), Block(120, 3960)]
    ensures FreeAgrees(p, 120)
  {
    FreeMergeHeadAgrees(p, 4);
    s := DeallocMergeHead(p, 4);
  }

  /** Then `my_free` of the third block, whose neighbour after it is allocated. */
  lemma GapStep7(p: State) returns (s: State)
    requires Wf(p) && p.free == [Block(120, 3960)]
    requires p.layout == [Block(0, 32), Block(48, 8), Block(72, 8), Block(96, 8), Block(120, 3960)]
    ensures p.mem[73] == MAGIC && s == Dealloc(p, 72) && Wf(s)
    ensures s.free == [Block(72, 8), Block(120, 3960)]
    ensures s.layout == p.layout
    ensures FreeAgrees(p, 72)
  {
    FreeAloneAgrees(p, 2);
    s := DeallocAlone(p, 2);
  }

  /**
   * `my_malloc(32)` and four calls `my_malloc(8)` on a fresh heap, then
   * `my_free` of the fifth block, which absorbs the rest of the region, and
   * of the third, whose neighbour after it is allocated: the states after
   * each call.  The first, second and fourth blocks stay allocated.
   */
  lemma TwoFreed() returns (s1: State, s2: State, s3: State, s4: State, s5: State, s6: State, s7: State)
    ensures s1 == Alloc(Fresh(), 32) && s2 == Alloc(s1, 8) && s3 == Alloc(s2, 8)
    ensures s4 == Alloc(s3, 8) && s5 == Alloc(s4, 8)
    ensures s5.mem[121] == MAGIC && s6 == Dealloc(s5, 120)
    ensures s6.mem[73] == MAGIC && s7 == Dealloc(s6, 72)
    ensures Wf(s7) && s7.free == [Block(72, 8), Block(120, 3960)]
    ensures s7.layout == [Block(0, 32), Block(48, 8), Block(72, 8), Block(96, 8), Block(120, 3960)]
    ensures MallocAgrees(Fresh(), 32) && MallocAgrees(s1, 8) && MallocAgrees(s2, 8)
    ensures MallocAgrees(s3, 8) && MallocAgrees(s4, 8) && FreeAgrees(s5, 120) && FreeAgrees(s6, 72)
  {
    s1 := LateStep1();
    s2 := LateStep2(s1);
    s3 := GapStep3(s2);
    s4 := GapStep4(s3);
    s5 := GapStep5(s4);
    s6 := GapStep6(s5);
    s7 := GapStep7(s6);
  }

  /**
   * On a state like the last one of `TwoFreed`, `my_free` of the first block
   * pushes the node at offset 0, 48 bytes long with its record, in front of
   * the nodes at 72 and 120.  As written, `coalesce` adds those 48 bytes to
   * the node at 72, finds 120 and absorbs it into the node at 72, which then
   * spans the allocated block at 96, whose header still carries MAGIC.  The
   * corrected step merges nothing: the block after offset 0's block, at 48,
   * is allocated.
   */
  lemma CoalesceMergesWrongNode(d: State)
    requires Wf(d) && d.free == [Block(72, 8), Block(120, 3960)]
    requires d.layout == [Block(0, 32), Block(48, 8), Block(72, 8), Block(96, 8), Block(120, 3960)]
    ensures d.mem[1] == MAGIC
    ensures var w := CoalesceAsWritten(Memory(d.mem[1 := d.head], Addr(0)), Addr(0));
      && Chain(w.mem, w.head, 3) == [Block(0, 32), Block(72, 3984)]
      && 72 < 96 < End(Block(72, 3984)) && 97 < |w.mem| && w.mem[97] == MAGIC
    ensures var r := Dealloc(d, 0);
      Chain(r.mem, r.head, 4) == [Block(0, 32), Block(72, 8), Block(120, 3960)]
  {
    AllocatedMarked(d, 0);
    AllocatedMarked(d, 3);
    FreeFacts(d, 0);
    FreeFacts(d, 1);
    assert LinkedAt(d.mem, d.free, 0);
    assert LinkedAt(d.mem, d.free, 1);
    var m := d.mem[1 := d.head];
    assert m[0] == 32 && m[1] == Addr(72) && m[72] == 8 && m[73] == Addr(120);
    assert m[120] == 3960 && m[121] == NULL && m[97] == MAGIC;
    assert WalkAsWritten(m, Addr(0), 48, HEAP_SIZE) == WalkAsWritten(m, Addr(72), 48, HEAP_SIZE - 1);
    var r := DeallocAlone(d, 0);
    ChainIsFreeList(r, 4);
  }
}
