/** The pool allocator: pools of blocks handed out in order, and a list of freed blocks. */
module MemPools {

  /** A block; what it holds while it is in use is its owner's, on the free list it is the
    * link to the next free block. */
  class Block {
    var nextFree: Block?

    constructor ()
      ensures nextFree == null
    {
      nextFree := null;
    }
  }

  datatype PoolHeader = PoolHeader(base: seq<Block>, firstFree: nat)

  ghost predicate Distinct(s: seq<Block>) {
    forall i, j | 0 <= i < |s| && 0 <= j < |s| && s[i] == s[j] :: i == j
  }

  /** The blocks of the pools that have ever been handed out. */
  ghost function Used(pools: seq<PoolHeader>): set<Block> {
    if pools == [] then {} else Used(pools[..|pools| - 1]) + UsedOf(pools[|pools| - 1])
  }

  ghost function UsedOf(p: PoolHeader): set<Block> {
    set i | 0 <= i < p.firstFree && i < |p.base| :: p.base[i]
  }

  ghost function Elements(s: seq<Block>): set<Block> { set b | b in s }

  /** All the blocks of the pools. */
  ghost function Blocks(pools: seq<PoolHeader>): set<Block> {
    if pools == [] then {} else Blocks(pools[..|pools| - 1]) + Elements(pools[|pools| - 1].base)
  }

  /** No block is in two pools, or twice in one. */
  ghost predicate Separate(pools: seq<PoolHeader>, count: nat) {
    pools == [] ||
    var p := pools[|pools| - 1];
    && Separate(pools[..|pools| - 1], count)
    && |p.base| == count + 1 && p.firstFree <= count
    && Distinct(p.base) && (forall b | b in p.base :: b !in Blocks(pools[..|pools| - 1]))
  }

  /** The free list is linked through its blocks. */
  ghost predicate Linked(first: Block?, s: seq<Block>)
    reads s`nextFree
  {
    && first == (if s == [] then null else s[0])
    && forall i {:trigger s[i].nextFree} | 0 <= i < |s| :: s[i].nextFree == if i + 1 < |s| then s[i + 1] else null
  }

  class MemPool {
    /** POOL_ARRAY_COUNT */
    const count: nat
    var pools: array<PoolHeader>
    var freeList: Block?
    ghost var free: seq<Block>
    ghost var live: set<Block>
    ghost var blocks: set<Block>

    /** Every block handed out is either live or on the free list, and on no list twice; the
      * rest have never been used. */
    ghost predicate Valid()
      reads this, pools, free`nextFree
    {
      && count >= 1 && pools.Length >= 1 && Separate(pools[..], count)
      && Linked(freeList, free) && Distinct(free)
      && (forall b | b in free :: b !in live)
      && Used(pools[..]) == live + Elements(free) && blocks == Blocks(pools[..])
    }

    /** initialise_mempool: one block more than the count. */
    method InitialiseMempool() returns (p: PoolHeader)
      ensures |p.base| == count + 1 && p.firstFree == 0 && Distinct(p.base)
      ensures forall b | b in p.base :: fresh(b)
    {
      var base: seq<Block> := [];
      while |base| < count + 1
        invariant |base| <= count + 1 && Distinct(base)
        invariant forall b | b in base :: fresh(b)
      {
        var b := new Block();
        base := base + [b];
      }
      p := PoolHeader(base, 0);
    }

    /** Live blocks, free blocks and blocks never used make up all the blocks of the pools. */
    lemma BlocksAddUp()
      requires Valid()
      ensures live <= Used(pools[..]) <= blocks
      ensures |live| + |free| + |blocks - Used(pools[..])| == |blocks|
    {
      hide Separate, Used, Blocks;
      UsedAreBlocks(pools[..]);
      CountElements(free);
      assert blocks == Used(pools[..]) + (blocks - Used(pools[..]));
      assert live !! Elements(free);
    }

    /** The setup function. */
    constructor (count: nat)
      requires count >= 1
      ensures Valid() && fresh(pools) && live == {} && free == [] && this.count == count
      ensures fresh(blocks)
    {
      this.count := count;
      freeList, free, live := null, [], {};
      new;
      var p := InitialiseMempool();
      pools := new PoolHeader[1](_ => p);
      hide Used, Separate, Blocks;
      blocks := Elements(p.base);
      assert pools[..] == [p];
      FirstPool(p, count);
    }

    /** alloc: never a live block; the block freed last if there is one, else one never used
      * before. */
    method Alloc() returns (block: Block)
      requires Valid()
      modifies this, pools
      ensures Valid() && (pools == old(pools) || fresh(pools))
      ensures block !in old(live) && live == old(live) + {block} && block in blocks
      ensures if old(free) != [] then block == old(free)[0] && free == old(free)[1..] else block !in old(Used(pools[..])) && free == []
      ensures old(blocks) <= blocks && fresh(blocks - old(blocks))
    {
      var b := FreeListGet();
      if b == null {
        block := GetNextFree();
      } else {
        block := b;
      }
    }

    /** The free function, for a live block. */
    method Free(ptr: Block)
      requires Valid() && ptr in live
      modifies this`freeList, this`free, this`live, ptr
      ensures Valid() && free == [ptr] + old(free) && live == old(live) - {ptr}
    {
      FreeListAdd(ptr);
    }

    method FreeListAdd(memblock: Block)
      requires Valid() && memblock in live
      modifies this`freeList, this`free, this`live, memblock
      ensures Valid() && free == [memblock] + old(free) && live == old(live) - {memblock}
    {
      memblock.nextFree := freeList;
      freeList := memblock;
      free := [memblock] + free;
      live := live - {memblock};
      assert Elements(free) == Elements(old(free)) + {memblock};
    }

    method FreeListGet() returns (block: Block?)
      requires Valid()
      modifies this`freeList, this`free, this`live
      ensures Valid() && (block == null <==> old(free) == [])
      ensures block == null ==> free == [] && live == old(live)
      ensures block != null ==>
        block == old(free)[0] && free == old(free)[1..] && live == old(live) + {block} && block !in old(live)
        && block in blocks
    {
      if freeList == null {
        block := null;
      } else {
        block := freeList;
        freeList := freeList.nextFree;
        assert Elements(free) == Elements(free[1..]) + {free[0]};
        live := live + {free[0]};
        free := free[1..];
        UsedAreBlocks(pools[..]);
      }
    }

    /** add_mempool: the headers move to a longer array, the blocks stay where they are. */
    method AddMempool()
      requires Valid()
      modifies this`pools, this`blocks
      ensures Valid() && fresh(pools) && pools.Length == old(pools.Length) + 1
      ensures pools[..old(pools.Length)] == old(pools[..]) && pools[pools.Length - 1].firstFree == 0
      ensures Used(pools[..]) == old(Used(pools[..]))
      ensures old(blocks) <= blocks && fresh(blocks - old(blocks))
    {
      ghost var was := pools[..];
      var p := InitialiseMempool();
      assert forall b | b in p.base :: b !in blocks;
      var bigger := new PoolHeader[pools.Length + 1](_ => p);
      forall k | 0 <= k < pools.Length { bigger[k] := pools[k]; }
      pools := bigger;
      blocks := blocks + Elements(p.base);
      assert pools[..] == was + [p];
      OnePoolMore(was, p, count);
    }

    /** get_next_free: the next block of the last pool, or of a new one. */
    method GetNextFree() returns (block: Block)
      requires Valid()
      modifies this`pools, this`blocks, this`live, pools
      ensures Valid() && (pools == old(pools) || fresh(pools))
      ensures block !in old(Used(pools[..])) && live == old(live) + {block} && block in blocks
      ensures old(blocks) <= blocks && fresh(blocks - old(blocks))
    {
      hide Separate, Used, Blocks, Linked, Distinct;
      LastPool(pools[..], count);
      if pools[pools.Length - 1].firstFree >= count - 1 {
        AddMempool();
      }
      ghost var was := pools[..];
      var last := pools.Length - 1;
      var p := pools[last];
      LastPool(was, count);
      block := p.base[p.firstFree];
      pools[last] := p.(firstFree := p.firstFree + 1);
      live := live + {block};
      assert was == was[..last] + [p] && pools[..] == was[..last] + [pools[last]];
      OneBlockMore(was[..last], p, count);
    }
  }

  lemma OnePoolMore(pools: seq<PoolHeader>, p: PoolHeader, count: nat)
    requires Separate(pools, count) && |p.base| == count + 1 && p.firstFree == 0 && Distinct(p.base)
    requires forall b | b in p.base :: b !in Blocks(pools)
    ensures Separate(pools + [p], count) && Used(pools + [p]) == Used(pools)
    ensures Blocks(pools + [p]) == Blocks(pools) + Elements(p.base)
  {
    assert (pools + [p])[..|pools|] == pools;
  }

  lemma FirstPool(p: PoolHeader, count: nat)
    requires |p.base| == count + 1 && p.firstFree == 0 && Distinct(p.base)
    ensures Separate([p], count) && Used([p]) == {} && Blocks([p]) == Elements(p.base)
  {
    OnePoolMore([], p, count);
    assert [] + [p] == [p];
  }

  lemma {:induction false} UsedAreBlocks(pools: seq<PoolHeader>)
    ensures Used(pools) <= Blocks(pools)
  {
    if pools != [] {
      UsedAreBlocks(pools[..|pools| - 1]);
    }
  }

  lemma {:induction false} CountElements(s: seq<Block>)
    requires Distinct(s)
    ensures |Elements(s)| == |s|
  {
    if s != [] {
      var t := s[..|s| - 1];
      CountElements(t);
      assert Elements(s) == Elements(t) + {s[|s| - 1]};
      assert s[|s| - 1] !in t;
    }
  }

  lemma LastPool(pools: seq<PoolHeader>, count: nat)
    requires pools != [] && Separate(pools, count)
    ensures var p := pools[|pools| - 1]; |p.base| == count + 1 && p.firstFree <= count
  {
  }

  /** Handing out the next block of the last pool uses exactly that block more. */
  lemma OneBlockMore(pools: seq<PoolHeader>, p: PoolHeader, count: nat)
    requires Separate(pools + [p], count) && p.firstFree < count
    ensures var block := p.base[p.firstFree]; var q := p.(firstFree := p.firstFree + 1);
      && Separate(pools + [q], count) && block !in Used(pools + [p]) && block in Blocks(pools + [q])
      && Used(pools + [q]) == Used(pools + [p]) + {block} && Blocks(pools + [q]) == Blocks(pools + [p])
  {
    var block := p.base[p.firstFree];
    var q := p.(firstFree := p.firstFree + 1);
    assert (pools + [p])[..|pools|] == pools == (pools + [q])[..|pools|];
    UsedAreBlocks(pools);
    assert block in p.base;
    assert UsedOf(q) == UsedOf(p) + {block};
  }
}
