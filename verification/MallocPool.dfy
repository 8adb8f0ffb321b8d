/** The pool of equal blocks of libbase/MallocPool.cpp. */
module MallocPool {
  import opened Flatten

  /** A pointer into one piece of memory. */
  datatype Ptr = Ptr(region: array<byte>, off: nat)
  datatype Option<T> = None | Some(value: T)

  /** The `n` bytes at a pointer do not overlap the `m` bytes at another. */
  ghost predicate Apart(p: Ptr, n: nat, q: Ptr, m: nat) {
    p.region != q.region || p.off + n <= q.off || q.off + m <= p.off
  }

  ghost predicate Zero(p: Ptr, n: nat)
    reads p.region
  {
    p.off + n <= p.region.Length && forall i :: p.off <= i < p.off + n ==> p.region[i] == 0
  }

  ghost predicate NoRepeats<T>(s: seq<T>) {
    forall i, j :: 0 <= i < j < |s| ==> s[i] != s[j]
  }

  function Block(region: array<byte>, size: nat, k: nat): Ptr {
    Ptr(region, k * size)
  }

  /** The blocks that a piece of memory is cut into, in their order. */
  function Blocks(region: array<byte>, size: nat, count: nat): seq<Ptr> {
    seq(count, k requires 0 <= k => Block(region, size, k))
  }

  /** Taking a block: the first free one, or without any the first of a new piece of memory, whose others are free then. */
  ghost predicate Took(size: nat, count: nat, mem: seq<array<byte>>, free: seq<Ptr>, mem': seq<array<byte>>, free': seq<Ptr>, p: Ptr) {
    if free != [] then mem' == mem && p == free[0] && free' == free[1..]
    else
      count > 0 && |mem'| == |mem| + 1 && mem'[..|mem|] == mem &&
      p == Block(mem'[|mem|], size, 0) && free' == Blocks(mem'[|mem|], size, count)[1..]
  }

  lemma BlocksApart(region: array<byte>, size: nat, j: nat, k: nat)
    ensures j < k ==> j * size + size <= k * size
    ensures j != k ==> Apart(Block(region, size, j), size, Block(region, size, k), size)
    ensures j != k && size > 0 ==> Block(region, size, j) != Block(region, size, k)
  {
    if j < k {
      MulStep(size, j, k);
    } else if k < j {
      MulStep(size, k, j);
    }
  }

  lemma MulStep(n: nat, j: nat, k: nat)
    requires j < k
    ensures j * n + n <= k * n
  {
    assert (j + 1) * n == j * n + n;
    MulLe(n, j + 1, k);
  }

  lemma MulLe(n: nat, j: nat, k: nat)
    requires j <= k
    ensures j * n <= k * n
  {
  }

  /** The pieces of memory of a pool, all of the same length. */
  ghost predicate Pieces(size: nat, count: nat, mem: seq<array<byte>>) {
    size > 0 && count > 0 && NoRepeats(mem) && forall r <- mem :: r.Length == size * count
  }

  ghost predicate IsBlock(size: nat, count: nat, mem: seq<array<byte>>, p: Ptr) {
    p.region in mem && exists k :: 0 <= k < count && p == Block(p.region, size, k)
  }

  /** Each block is either free, once, or live. */
  ghost predicate Partition(size: nat, count: nat, mem: seq<array<byte>>, free: seq<Ptr>, live: set<Ptr>) {
    NoRepeats(free) && (forall p <- free :: IsBlock(size, count, mem, p) && p !in live) && (forall p <- live :: IsBlock(size, count, mem, p)) &&
    forall r <- mem, k :: 0 <= k < count ==> Block(r, size, k) in free || Block(r, size, k) in live
  }

  /** Two different blocks of a pool do not overlap, and a block lies within its piece of memory. */
  lemma PoolApart(size: nat, count: nat, mem: seq<array<byte>>, p: Ptr, q: Ptr)
    requires Pieces(size, count, mem) && IsBlock(size, count, mem, p) && IsBlock(size, count, mem, q)
    ensures p != q ==> Apart(p, size, q, size)
    ensures p.off + size <= p.region.Length
  {
    var j :| 0 <= j < count && p == Block(p.region, size, j);
    var k :| 0 <= k < count && q == Block(q.region, size, k);
    BlocksApart(p.region, size, j, k);
    MulStep(size, j, count);
    assert j * size == size * j && count * size == size * count;
  }

  /** The blocks of a new piece of memory. */
  ghost predicate Carved(size: nat, free: seq<Ptr>, more: seq<Ptr>, p: array<byte>) {
    |free| <= |more| && more[..|free|] == free && forall i :: |free| <= i < |more| ==> more[i] == Block(p, size, i - |free|)
  }

  lemma CarvedIs(size: nat, free: seq<Ptr>, more: seq<Ptr>, p: array<byte>)
    requires Carved(size, free, more, p)
    ensures more == free + Blocks(p, size, |more| - |free|)
  {
    assert more == more[..|free|] + more[|free|..];
  }

  lemma PartitionExpand(size: nat, count: nat, mem: seq<array<byte>>, free: seq<Ptr>, live: set<Ptr>, p: array<byte>, more: seq<Ptr>)
    requires Pieces(size, count, mem) && Partition(size, count, mem, free, live) && p !in mem && p.Length == size * count
    requires Carved(size, free, more, p) && |more| == |free| + count
    ensures Pieces(size, count, mem + [p]) && Partition(size, count, mem + [p], more, live)
  {
    CarvedDistinct(size, count, mem, free, p, more);
    assert forall q :: IsBlock(size, count, mem, q) ==> IsBlock(size, count, mem + [p], q);
    forall q | q in more
      ensures IsBlock(size, count, mem + [p], q) && q !in live
    {
      var i :| 0 <= i < |more| && more[i] == q;
      assert if i < |free| then free[i] == q else q == Block(p, size, i - |free|);
    }
    forall r, k | r in mem + [p] && 0 <= k < count
      ensures Block(r, size, k) in more || Block(r, size, k) in live
    {
      if r == p {
        assert more[|free| + k] == Block(r, size, k);
      } else if Block(r, size, k) in free {
        var i :| 0 <= i < |free| && free[i] == Block(r, size, k);
        assert more[i] == free[i];
      }
    }
  }

  lemma CarvedDistinct(size: nat, count: nat, mem: seq<array<byte>>, free: seq<Ptr>, p: array<byte>, more: seq<Ptr>)
    requires size > 0 && NoRepeats(free) && (forall q <- free :: q.region in mem) && p !in mem && Carved(size, free, more, p)
    ensures NoRepeats(more)
  {
    forall i, j | 0 <= i < j < |more|
      ensures more[i] != more[j]
    {
      if j < |free| {
        assert free[i] == more[i] && free[j] == more[j];
      } else if i < |free| {
        assert free[i] in free && more[j] == Block(p, size, j - |free|);
      } else {
        BlocksApart(p, size, i - |free|, j - |free|);
      }
    }
  }

  lemma PartitionTake(size: nat, count: nat, mem: seq<array<byte>>, free: seq<Ptr>, live: set<Ptr>)
    requires Partition(size, count, mem, free, live) && free != []
    ensures Partition(size, count, mem, free[1..], live + {free[0]}) && free[0] !in live && IsBlock(size, count, mem, free[0])
  {
    assert free == [free[0]] + free[1..];
    assert forall p <- free[1..] :: p in free;
  }

  lemma PartitionFree(size: nat, count: nat, mem: seq<array<byte>>, free: seq<Ptr>, live: set<Ptr>, p: Ptr)
    requires Partition(size, count, mem, free, live) && p in live
    ensures Partition(size, count, mem, free + [p], live - {p})
  {
    var more := free + [p];
    assert forall q <- free :: q in more;
    assert p in more;
  }

  class MallocPool {
    const size: nat
    const count: nat
    var allMem: seq<array<byte>>
    var freeList: seq<Ptr>
    var historyCount: nat
    var historyGet: nat
    var historyFree: nat
    /** The blocks that are handed out. */
    ghost var live: set<Ptr>

    /** All the pieces of memory. */
    ghost function Memory(): set<array<byte>>
      reads this`allMem
    {
      set r <- allMem :: r
    }

    /** All that belongs to the pool is in `repr`. */
    ghost predicate Within(repr: set<object>)
      reads this
    {
      this in repr && (forall r <- allMem :: r in repr) && forall p <- freeList :: p.region in repr
    }

    lemma WithinMemory(repr: set<object>)
      requires Valid() && this in repr && forall r <- Memory() :: r in repr
      ensures Within(repr)
    {
    }

    ghost predicate AllZero()
      reads this`freeList, set p <- freeList :: p.region
    {
      forall p <- freeList :: Zero(p, size)
    }

    /** What was ever carved is free, or has been taken and not given back. */
    ghost predicate Counts()
      reads this
    {
      historyCount == |allMem| * count && historyCount == |freeList| + (historyGet - historyFree) && |live| == historyGet - historyFree
    }

    ghost predicate Valid()
      reads this, allMem
    {
      Pieces(size, count, allMem) && Partition(size, count, allMem, freeList, live) && AllZero() && Counts()
    }

    /** mallocPool::mallocPool */
    constructor (size: nat, count: nat)
      requires size > 0 && count > 0
      ensures Valid() && this.size == size && this.count == count && live == {} && fresh(Memory())
      ensures |allMem| == 1 && freeList == Blocks(allMem[0], size, count) && historyGet == historyFree == 0
    {
      this.size, this.count := size, count;
      allMem, freeList, historyCount, historyGet, historyFree, live := [], [], 0, 0, 0, {};
      new;
      DoExpand();
      assert [] + Blocks(allMem[0], size, count) == Blocks(allMem[0], size, count);
    }

    /** doExpand: a new piece of memory is cut into blocks. */
    method DoExpand()
      requires Valid()
      modifies this`allMem, this`freeList, this`historyCount
      ensures Valid() && |allMem| == |old(allMem)| + 1 && allMem[..|old(allMem)|] == old(allMem)
      ensures freeList == old(freeList) + Blocks(allMem[|old(allMem)|], size, count)
      ensures old(Memory()) <= Memory() && fresh(Memory() - old(Memory()))
    {
      hide Partition, Pieces;
      PiecesPositive(size, count, allMem);
      var p := new byte[size * count](_ => 0);
      Carve(p);
      CarvedIs(size, old(freeList), freeList, p);
      PartitionExpand(size, count, allMem, old(freeList), live, p, freeList);
      allMem := allMem + [p];
      historyCount := historyCount + count;
      MulNext(|old(allMem)|, count);
      assert forall r :: r in allMem <==> r in old(allMem) || r == p;
    }

    /** The loop of doExpand. */
    method Carve(p: array<byte>)
      requires AllZero() && size > 0 && p.Length == size * count && forall i :: 0 <= i < p.Length ==> p[i] == 0
      modifies this`freeList
      ensures AllZero() && Carved(size, old(freeList), freeList, p) && |freeList| == |old(freeList)| + count
    {
      ghost var before := freeList;
      for i := 0 to count
        invariant |freeList| == |before| + i && Carved(size, before, freeList, p) && AllZero()
        modifies this`freeList
      {
        MulStep(size, i, count);
        assert count * size == size * count;
        freeList := freeList + [Block(p, size, i)];
      }
    }

    /** mallocPool::malloc: the block is all zero. */
    method Malloc() returns (p: Ptr)
      requires Valid()
      modifies this
      ensures Valid() && live == old(live) + {p} && p !in old(live) && Zero(p, size) && IsBlock(size, count, allMem, p)
      ensures old(Memory()) <= Memory() && fresh(Memory() - old(Memory()))
      ensures historyGet == old(historyGet) + 1 && historyFree == old(historyFree)
      ensures Took(size, count, old(allMem), old(freeList), allMem, freeList, p)
    {
      hide Partition, Pieces;
      if freeList == [] {
        DoExpand();
        assert [] + Blocks(allMem[|old(allMem)|], size, count) == Blocks(allMem[|old(allMem)|], size, count);
      }
      PiecesPositive(size, count, allMem);
      PartitionTake(size, count, allMem, freeList, live);
      p := freeList[0];
      freeList := freeList[1..];
      historyGet := historyGet + 1;
      live := live + {p};
    }

    /** mallocPool::free: a block that is live is cleared and goes to the end of the list; nothing happens for null. */
    method Free(ptr: Option<Ptr>) returns (r: bool)
      requires Valid() && (ptr.Some? ==> ptr.value in live)
      modifies this`freeList, this`historyFree, this`live, if ptr.Some? then {ptr.value.region} else {}
      ensures Valid() && allMem == old(allMem) && (r <==> ptr.Some?)
      ensures live == old(live) - (if ptr.Some? then {ptr.value} else {})
      ensures freeList == old(freeList) + if ptr.Some? then [ptr.value] else []
      ensures historyFree == old(historyFree) + (if r then 1 else 0) && historyGet == old(historyGet)
      ensures ptr.Some? ==> var p := ptr.value;
        forall i :: 0 <= i < p.region.Length && !(p.off <= i < p.off + size) ==> p.region[i] == old(p.region[i])
    {
      hide Partition, Pieces;
      match ptr {
        case None =>
          assert live - {} == live && freeList + [] == freeList;
          return false;
        case Some(p) =>
          LiveBlock(p);
          Clear(p);
          PartitionFree(size, count, allMem, freeList, live, p);
          freeList := freeList + [p];
          historyFree := historyFree + 1;
          live := live - {p};
          return true;
      }
    }

    /** memset of one block. */
    method Clear(ptr: Ptr)
      requires ptr.off + size <= ptr.region.Length && AllZero()
      modifies ptr.region
      ensures Zero(ptr, size) && AllZero()
      ensures forall i :: 0 <= i < ptr.region.Length && !(ptr.off <= i < ptr.off + size) ==> ptr.region[i] == old(ptr.region[i])
    {
      forall i | 0 <= i < size {
        ptr.region[ptr.off + i] := 0;
      }
    }

    lemma LiveBlock(p: Ptr)
      requires Valid() && p in live
      ensures p.region in Memory() && p.off + size <= p.region.Length && size > 0 && p !in freeList
      ensures |live| > 0 && historyGet > historyFree
    {
      PoolApart(size, count, allMem, p, p);
    }

    /** Two different blocks, live or free, do not overlap. */
    lemma LiveApart(p: Ptr, q: Ptr)
      requires Valid() && p != q && (p in live || p in freeList) && (q in live || q in freeList)
      ensures Apart(p, size, q, size)
    {
      PoolApart(size, count, allMem, p, q);
    }

    /** A caller writes into a block it has: the free blocks stay zero. */
    method Write(p: Ptr, i: nat, b: byte)
      requires Valid() && p in live && i < size && p.off + i < p.region.Length
      modifies p.region
      ensures Valid() && p.region[..] == old(p.region[..])[p.off + i := b]
    {
      hide Partition, Pieces;
      forall q | q in freeList
        ensures Apart(p, size, q, size)
      {
        LiveBlock(p);
        LiveApart(p, q);
      }
      p.region[p.off + i] := b;
    }
  }

  lemma PiecesPositive(size: nat, count: nat, mem: seq<array<byte>>)
    requires Pieces(size, count, mem)
    ensures size > 0 && count > 0
  {
  }

  lemma MulNext(a: nat, b: nat)
    ensures (a + 1) * b == a * b + b
  {
  }
}
