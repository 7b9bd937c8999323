/**
 * The memory region managed by the allocator and the way it is cut into blocks.
 *
 * Every block of the region starts with a record of footprint `H`: a free node
 * `{size, next}` while the block is on the free list, a header `{size, magic}`
 * while it is allocated.  `size` never counts the record itself, so a block
 * starting at `at` occupies the offsets `[at, at + H + size)`.
 */
module Layout {
  /** Footprint of `node_t`, which the allocator also uses for `header_t`. */
  const H: nat := 16
  /** Capacity of the single region obtained from the operating system. */
  const HEAP_SIZE: nat := 4096
  /** Tag stored in the header of every allocated block. */
  const MAGIC: int := 1234567
  /** Address at which the region is mapped; offsets are relative to it. */
  const BASE: int := 0x1_0000
  /** The null pointer. */
  const NULL: int := 0

  /** A block: the offset of its node or header, and the size that record holds. */
  datatype Block = Block(at: nat, size: nat)

  /** First offset after the block. */
  function End(b: Block): nat
  {
    b.at + H + b.size
  }

  /** The pointer to the record at `offset`. */
  function Addr(offset: nat): int
  {
    BASE + offset
  }

  /** The block after position `j`, if any, starts where `ls[j]` ends. */
  ghost predicate Abuts(ls: seq<Block>, j: nat)
  {
    j + 1 < |ls| ==> ls[j + 1].at == End(ls[j])
  }

  /** Consecutive blocks touch: each starts where the previous one ends. */
  ghost predicate Adjacent(ls: seq<Block>)
  {
    forall j: nat :: Abuts(ls, j)
  }

  /**
   * `ls` lists the blocks of the region in address order and they cover it
   * exactly: the first starts at offset 0, each starts where the previous one
   * ends, and the last ends at `HEAP_SIZE`.
   */
  ghost predicate Tiled(ls: seq<Block>)
  {
    && |ls| > 0
    && ls[0].at == 0
    && Adjacent(ls)
    && End(ls[|ls| - 1]) == HEAP_SIZE
  }

  /** Total number of bytes the blocks occupy, records included. */
  function Footprint(ls: seq<Block>): nat
  {
    if ls == [] then 0 else H + ls[0].size + Footprint(ls[1..])
  }

  lemma {:induction false} AdjacentGap(ls: seq<Block>, i: nat, j: nat)
    requires Adjacent(ls)
    requires i < j < |ls|
    ensures End(ls[i]) <= ls[j].at
    decreases j - i
  {
    assert Abuts(ls, j - 1);
    if j > i + 1 {
      AdjacentGap(ls, i, j - 1);
    }
  }

  /** Blocks at different positions of a tiling never overlap. */
  lemma TiledOrdered(ls: seq<Block>)
    requires Tiled(ls)
    ensures forall i, j :: 0 <= i < j < |ls| ==> End(ls[i]) <= ls[j].at
  {
    forall i, j | 0 <= i < j < |ls|
      ensures End(ls[i]) <= ls[j].at
    {
      AdjacentGap(ls, i, j);
    }
  }

  lemma {:induction false} AdjacentFootprint(ls: seq<Block>)
    requires |ls| > 0 && Adjacent(ls)
    ensures Footprint(ls) == End(ls[|ls| - 1]) - ls[0].at
  {
    if |ls| > 1 {
      forall j: nat
        ensures Abuts(ls[1..], j)
      {
        assert Abuts(ls, j + 1);
      }
      assert Abuts(ls, 0);
      AdjacentFootprint(ls[1..]);
    }
  }

  /** Every block of a tiling ends inside the region. */
  lemma TiledBound(ls: seq<Block>, j: nat)
    requires Tiled(ls) && j < |ls|
    ensures End(ls[j]) <= HEAP_SIZE
  {
    if j < |ls| - 1 {
      AdjacentGap(ls, j, |ls| - 1);
    }
  }

  /** The footprints of the blocks of a tiling add up to the whole region. */
  lemma TiledFootprint(ls: seq<Block>)
    requires Tiled(ls)
    ensures Footprint(ls) == HEAP_SIZE
  {
    AdjacentFootprint(ls);
  }

  /**
   * Two different blocks of a tiling lie apart: neither cell of the record of
   * `ls[k]` falls inside `ls[i]`.
   */
  lemma TiledDisjoint(ls: seq<Block>, i: nat, k: nat)
    requires Tiled(ls) && i < |ls| && k < |ls| && i != k
    ensures ls[k].at + 1 < ls[i].at || End(ls[i]) <= ls[k].at
  {
    if i < k {
      AdjacentGap(ls, i, k);
    } else {
      AdjacentGap(ls, k, i);
    }
  }

  /** In a tiling, the block that begins where `ls[j]` ends is `ls[j + 1]`. */
  lemma TiledSuccessor(ls: seq<Block>, j: nat, b: Block)
    requires Tiled(ls) && j < |ls|
    requires b in ls && b.at == End(ls[j])
    ensures j + 1 < |ls| && ls[j + 1] == b
  {
    TiledOrdered(ls);
    var k :| 0 <= k < |ls| && ls[k] == b;
  }

  /** In a tiling, no two positions hold blocks that start at the same offset. */
  lemma TiledStartsUnique(ls: seq<Block>, i: nat, k: nat)
    requires Tiled(ls) && i < |ls| && k < |ls|
    requires ls[i].at == ls[k].at
    ensures i == k
  {
    TiledOrdered(ls);
  }

  /**
   * Cuts the block `ls[j]` in two: a first block holding `size` bytes and a
   * second one holding what remains after the first block's footprint.
   */
  function Carve(ls: seq<Block>, j: nat, size: nat): seq<Block>
    requires j < |ls| && H + size <= ls[j].size
  {
    ls[..j] + [Block(ls[j].at, size), Block(ls[j].at + H + size, ls[j].size - (H + size))] + ls[j + 1..]
  }

  /** Joins `ls[j]` and the block that follows it into one block. */
  function Fuse(ls: seq<Block>, j: nat): seq<Block>
    requires j + 1 < |ls|
  {
    ls[..j] + [Block(ls[j].at, ls[j].size + H + ls[j + 1].size)] + ls[j + 2..]
  }

  /** Cutting a block keeps the region exactly covered. */
  lemma TiledCarve(ls: seq<Block>, j: nat, size: nat)
    requires Tiled(ls) && j < |ls| && H + size <= ls[j].size
    ensures Tiled(Carve(ls, j, size)) && |Carve(ls, j, size)| == |ls| + 1
  {
    var r := Carve(ls, j, size);
    forall k: nat
      ensures Abuts(r, k)
    {
      if k + 1 < j {
        assert r[k] == ls[k] && r[k + 1] == ls[k + 1] && Abuts(ls, k);
      } else if k + 1 == j {
        assert r[k] == ls[j - 1] && Abuts(ls, k);
      } else if k == j + 1 && k + 1 < |r| {
        assert r[k + 1] == ls[j + 1] && Abuts(ls, j);
      } else if k > j + 1 && k + 1 < |r| {
        assert r[k] == ls[k - 1] && r[k + 1] == ls[k] && Abuts(ls, k - 1);
      }
    }
  }

  /** Joining a block with the next one keeps the region exactly covered. */
  lemma TiledFuse(ls: seq<Block>, j: nat)
    requires Tiled(ls) && j + 1 < |ls|
    ensures Tiled(Fuse(ls, j)) && |Fuse(ls, j)| == |ls| - 1
  {
    var r := Fuse(ls, j);
    assert Abuts(ls, j);
    forall k: nat
      ensures Abuts(r, k)
    {
      if k + 1 < j {
        assert r[k] == ls[k] && r[k + 1] == ls[k + 1] && Abuts(ls, k);
      } else if k + 1 == j {
        assert r[k] == ls[j - 1] && Abuts(ls, k);
      } else if k == j && k + 1 < |r| {
        assert r[k + 1] == ls[j + 2] && Abuts(ls, j + 1);
      } else if k > j && k + 1 < |r| {
        assert r[k] == ls[k + 1] && r[k + 1] == ls[k + 2] && Abuts(ls, k + 1);
      }
    }
    if j + 2 == |ls| {
      assert r[|r| - 1] == Block(ls[j].at, ls[j].size + H + ls[j + 1].size);
    } else {
      assert r[|r| - 1] == ls[|ls| - 1];
    }
  }
}
