/** The size classes and the table of live pointers of libbase/MallocManager.cpp. */
module MallocManager {
  import opened Flatten
  import opened MallocPool

  const MEM_MAX_SIZE := 1024 * 10
  const U32 := 0x1_0000_0000

  /** fixSize */
  function FixSize(fsize: nat): (r: nat)
    ensures fsize <= r && r > 0
    ensures r <= 8 || r == fsize || r < 2 * fsize
  {
    if fsize <= 8 then 8
    else if fsize <= 16 then 16
    else if fsize <= 32 then 32
    else if fsize <= 64 then 64
    else if fsize <= 128 then 128
    else if fsize <= 256 then 256
    else if fsize <= 512 then 512
    else if fsize <= 1024 then 1024
    else if fsize <= 2048 then 2048
    else if fsize <= 4096 then 4096
    else if fsize <= 8192 then 8192
    else if fsize <= MEM_MAX_SIZE then MEM_MAX_SIZE
    else fsize
  }

  /** A size class is its own class, and classes grow with the size. */
  lemma Classes(a: nat, b: nat)
    ensures FixSize(FixSize(a)) == FixSize(a)
    ensures a <= b ==> FixSize(a) <= FixSize(b)
  {
  }

  /** Up to 8192 bytes the class is the least power of two from 8 on that holds them; then there is one class more. */
  lemma PowerOfTwo(fsize: nat) returns (k: nat)
    ensures fsize <= 8192 ==> FixSize(fsize) == Pow2(k) && k >= 3 && (k > 3 ==> Pow2(k - 1) < fsize)
    ensures fsize > 8192 ==> FixSize(fsize) == if fsize <= MEM_MAX_SIZE then MEM_MAX_SIZE else fsize
  {
    k := 3;
    assert Pow2(3) == 8;
    while k < 13 && Pow2(k) < fsize
      invariant 3 <= k <= 13 && (k > 3 ==> Pow2(k - 1) < fsize)
      invariant Pow2(k) == if k == 3 then 8 else if k == 4 then 16 else if k == 5 then 32 else if k == 6 then 64 else if k == 7 then 128
        else if k == 8 then 256 else if k == 9 then 512 else if k == 10 then 1024 else if k == 11 then 2048 else if k == 12 then 4096 else 8192
    {
      k := k + 1;
    }
  }

  function Pow2(k: nat): nat {
    if k == 0 then 1 else 2 * Pow2(k - 1)
  }

  /** getCount: as many blocks as fit into the largest pooled size. */
  function GetCount(fixSize: nat): (c: nat)
    requires fixSize > 0
    ensures c >= 1 && (fixSize <= MEM_MAX_SIZE ==> c * fixSize <= MEM_MAX_SIZE < (c + 1) * fixSize)
  {
    if fixSize >= MEM_MAX_SIZE then 1
    else
      DivBounds(MEM_MAX_SIZE, fixSize);
      MEM_MAX_SIZE / fixSize
  }

  lemma DivBounds(n: nat, d: nat)
    requires 0 < d <= n
    ensures n / d >= 1 && n / d * d <= n < (n / d + 1) * d
  {
    var q := n / d;
    assert n == d * q + n % d;
    assert (q + 1) * d == q * d + d;
  }

  type Memories = map<nat, set<array<byte>>>

  /** The memory of different pools has nothing in common. */
  ghost predicate PoolsApart(mems: Memories) {
    forall s, t :: s in mems && t in mems && s != t ==> mems[s] !! mems[t]
  }

  /** The table of small pointers is what the pools have handed out. */
  ghost predicate SmallTable(pools: map<nat, MallocPool>, mems: Memories, lives: map<nat, set<Ptr>>, ptrs: map<Ptr, MallocPool>) {
    pools.Keys == mems.Keys == lives.Keys &&
    (forall p <- ptrs :: ptrs[p].size in pools && pools[ptrs[p].size] == ptrs[p] && p in lives[ptrs[p].size]) &&
    (forall s, p :: s in lives && p in lives[s] ==> p in ptrs && ptrs[p] == pools[s] && p.region in mems[s])
  }

  /** Each big block is a piece of memory of its own. */
  ghost predicate BigTable(big: map<Ptr, nat>, mems: Memories, repr: set<object>) {
    forall p <- big ::
      p.off == 0 && p.region.Length == big[p] && p.region in repr && forall s :: s in mems ==> p.region !in mems[s]
  }

  lemma TablesAddPool(pools: map<nat, MallocPool>, mems: Memories, lives: map<nat, set<Ptr>>, ptrs: map<Ptr, MallocPool>,
                      big: map<Ptr, nat>, repr: set<object>, pool: MallocPool, m: set<array<byte>>, repr': set<object>)
    requires PoolsApart(mems) && SmallTable(pools, mems, lives, ptrs) && BigTable(big, mems, repr) && repr <= repr'
    requires pool.size !in pools && (forall s :: s in mems ==> mems[s] !! m) && forall p <- big :: p.region !in m
    ensures var s := pool.size;
      PoolsApart(mems[s := m]) && SmallTable(pools[s := pool], mems[s := m], lives[s := {}], ptrs) && BigTable(big, mems[s := m], repr')
  {
  }

  lemma TablesMalloc(pools: map<nat, MallocPool>, mems: Memories, lives: map<nat, set<Ptr>>, ptrs: map<Ptr, MallocPool>,
                     big: map<Ptr, nat>, repr: set<object>, pool: MallocPool, more: set<array<byte>>, p: Ptr, repr': set<object>)
    requires PoolsApart(mems) && SmallTable(pools, mems, lives, ptrs) && BigTable(big, mems, repr) && repr <= repr'
    requires pool.size in pools && pools[pool.size] == pool && p !in lives[pool.size] && p.region in mems[pool.size] + more
    requires (forall s :: s in mems ==> mems[s] !! more) && forall q <- big :: q.region !in more
    ensures var s := pool.size;
      PoolsApart(mems[s := mems[s] + more]) && BigTable(big, mems[s := mems[s] + more], repr') && p !in ptrs && p !in big &&
      SmallTable(pools, mems[s := mems[s] + more], lives[s := lives[s] + {p}], ptrs[p := pool])
  {
  }

  lemma TablesFree(pools: map<nat, MallocPool>, mems: Memories, lives: map<nat, set<Ptr>>, ptrs: map<Ptr, MallocPool>, p: Ptr)
    requires SmallTable(pools, mems, lives, ptrs) && p in ptrs && PoolsApart(mems)
    ensures var s := ptrs[p].size; SmallTable(pools, mems, lives[s := lives[s] - {p}], ptrs - {p})
  {
  }

  lemma TablesBig(big: map<Ptr, nat>, mems: Memories, repr: set<object>, p: Ptr, size: nat, repr': set<object>)
    requires BigTable(big, mems, repr) && repr <= repr' && p.off == 0 && p.region.Length == size && p.region in repr'
    requires forall s :: s in mems ==> p.region !in mems[s]
    ensures BigTable(big[p := size], mems, repr')
  {
  }

  /** The first block of a new pool. */
  lemma FirstTaken(size: nat, count: nat, mem: seq<array<byte>>, free: seq<Ptr>, mem': seq<array<byte>>, free': seq<Ptr>, p: Ptr)
    requires count > 0 && |mem| == 1 && free == Blocks(mem[0], size, count) && Took(size, count, mem, free, mem', free', p)
    ensures Took(size, count, [], [], mem', free', p)
  {
  }

  class MallocManager {
    var smallList: map<nat, MallocPool>
    var smallPtrs: map<Ptr, MallocPool>
    var bigPtrs: map<Ptr, nat>
    ghost var Repr: set<object>

    /** The pointers that are handed out. */
    ghost function Live(): set<Ptr>
      reads this`smallPtrs, this`bigPtrs
    {
      smallPtrs.Keys + bigPtrs.Keys
    }

    /** The size of a live block. */
    ghost function SizeOf(p: Ptr): nat
      reads this`smallPtrs, this`bigPtrs
      requires p in Live()
    {
      if p in smallPtrs then smallPtrs[p].size else bigPtrs[p]
    }

    ghost function Mems(): Memories
      reads this`smallList, (set s <- smallList :: smallList[s])`allMem
    {
      map s | s in smallList :: smallList[s].Memory()
    }

    ghost function Lives(): map<nat, set<Ptr>>
      reads this`smallList, (set s <- smallList :: smallList[s])`live
    {
      map s | s in smallList :: smallList[s].live
    }

    /** One pool for each size that was asked for, all of it in `repr`. */
    ghost predicate PoolsIn(repr: set<object>)
      reads this`smallList, repr
    {
      forall s <- smallList ::
        smallList[s] in repr && smallList[s].size == s && 0 < s < MEM_MAX_SIZE && smallList[s].Within(repr) && smallList[s].Valid()
    }

    ghost predicate Pools()
      reads this`smallList, this`Repr, Repr
    {
      PoolsIn(Repr)
    }

    ghost predicate Tables()
      reads this, set s <- smallList :: smallList[s]
    {
      PoolsApart(Mems()) && SmallTable(smallList, Mems(), Lives(), smallPtrs) && BigTable(bigPtrs, Mems(), Repr)
    }

    /** Each pool has as many blocks in a piece of memory as belong to its size. */
    ghost predicate Counted()
      reads this`smallList
    {
      forall s <- smallList :: s > 0 && smallList[s].size == s && smallList[s].count == GetCount(s)
    }

    ghost predicate Valid()
      reads this, Repr, set s <- smallList :: smallList[s]
    {
      this in Repr && Pools() && Tables() && Counted()
    }

    constructor ()
      ensures Valid() && fresh(Repr) && Live() == {} && smallList == map[]
    {
      smallList, smallPtrs, bigPtrs, Repr := map[], map[], map[], {this};
    }

    /** No two live blocks overlap, and each lies within its memory. */
    lemma LiveApart(p: Ptr, q: Ptr)
      requires Valid() && p in Live() && q in Live()
      ensures p.off + SizeOf(p) <= p.region.Length
      ensures p != q ==> Apart(p, SizeOf(p), q, SizeOf(q))
    {
      if p in smallPtrs {
        smallPtrs[p].LiveBlock(p);
      }
      if q in smallPtrs {
        smallPtrs[q].LiveBlock(q);
      }
      if p in smallPtrs && q in smallPtrs && p != q && smallPtrs[p] == smallPtrs[q] {
        smallPtrs[p].LiveApart(p, q);
      }
    }

    /** avail */
    method Avail(ptr: Option<Ptr>) returns (r: bool)
      ensures r <==> ptr.Some? && ptr.value in Live()
    {
      if ptr.None? {
        return false;
      }
      if ptr.value in smallPtrs {
        return true;
      }
      if ptr.value in bigPtrs {
        return true;
      }
      return false;
    }

    /** All memory of the pools and the big blocks was there before. */
    lemma Allocated()
      requires Valid()
      ensures forall s <- smallList :: Mems()[s] <= Repr && forall p <- bigPtrs :: p.region in Repr
    {
    }

    lemma StillPools(repr: set<object>)
      requires Pools() && Repr <= repr
      ensures forall s <- smallList ::
        smallList[s] in repr && smallList[s].size == s && 0 < s < MEM_MAX_SIZE && smallList[s].Within(repr) && smallList[s].Valid()
    {
    }

    lemma MemsAll()
      ensures Mems().Keys == Lives().Keys == smallList.Keys
      ensures forall t <- smallList :: Mems()[t] == smallList[t].Memory() && Lives()[t] == smallList[t].live
    {
    }

    lemma MemsAre(mems: Memories, lives: map<nat, set<Ptr>>)
      requires mems.Keys == lives.Keys == smallList.Keys
      requires forall t <- smallList :: mems[t] == smallList[t].Memory() && lives[t] == smallList[t].live
      ensures Mems() == mems && Lives() == lives
    {
    }

    /** A pool for a size that was not asked for before. */
    method AddPool(size: nat, count: nat)
      requires Valid() && 0 < size < MEM_MAX_SIZE && count == GetCount(size) && size !in smallList
      modifies this`smallList, this`Repr
      ensures Valid() && size in smallList && smallList == old(smallList)[size := smallList[size]] && fresh(Repr - old(Repr)) && old(Repr) <= Repr
      ensures var pool := smallList[size];
        fresh(pool) && pool.size == size && |pool.allMem| == 1 && pool.freeList == Blocks(pool.allMem[0], size, count)
    {
      hide MallocPool.Valid, MallocPool.Within, SmallTable, BigTable, PoolsApart;
      Allocated();
      var pool := new MallocPool(size, count);
      ghost var repr := Repr + {pool} + pool.Memory();
      pool.WithinMemory(repr);
      TablesAddPool(smallList, Mems(), Lives(), smallPtrs, bigPtrs, Repr, pool, pool.Memory(), repr);
      StillPools(repr);
      EnterPool(pool, repr);
    }

    /** The new pool gets its entry. */
    method EnterPool(pool: MallocPool, ghost repr: set<object>)
      requires this in Repr && Repr <= repr && pool in repr && pool.size !in smallList && 0 < pool.size < MEM_MAX_SIZE
      requires Counted() && pool.count == GetCount(pool.size)
      requires pool.Within(repr) && pool.Valid() && pool.live == {}
      requires forall s <- smallList ::
        smallList[s] in repr && smallList[s].size == s && 0 < s < MEM_MAX_SIZE && smallList[s].Within(repr) && smallList[s].Valid()
      requires var s := pool.size; var mems := Mems()[s := pool.Memory()];
        PoolsApart(mems) && SmallTable(smallList[s := pool], mems, Lives()[s := {}], smallPtrs) && BigTable(bigPtrs, mems, repr)
      modifies this`smallList, this`Repr
      ensures Valid() && smallList == old(smallList)[pool.size := pool] && Repr == repr
    {
      hide MallocPool.Valid, MallocPool.Within, SmallTable, BigTable, PoolsApart, MallocPool.Memory;
      ghost var mems, lives := Mems()[pool.size := pool.Memory()], Lives()[pool.size := {}];
      smallList := smallList[pool.size := pool];
      Repr := repr;
      assert Mems() == mems;
      assert Lives() == lives;
      forall s | s in smallList
        ensures smallList[s] in Repr && smallList[s].size == s && 0 < s < MEM_MAX_SIZE && smallList[s].Within(Repr) && smallList[s].Valid()
      {
        if s != pool.size {
          assert s in old(smallList) && smallList[s] == old(smallList)[s];
        }
      }
    }

    /** pool->malloc() as the tables see it. */
    method TakeFrom(pool: MallocPool) returns (p: Ptr, ghost more: set<array<byte>>)
      requires Pools() && pool.size in smallList && smallList[pool.size] == pool
      modifies pool
      ensures fresh(more) && Zero(p, pool.size) && p !in old(Lives()[pool.size]) && p.region in old(Mems()[pool.size]) + more
      ensures Mems() == old(Mems())[pool.size := old(Mems()[pool.size]) + more]
      ensures Lives() == old(Lives())[pool.size := old(Lives()[pool.size]) + {p}]
      ensures PoolsIn(Repr + more)
      ensures Took(pool.size, pool.count, old(pool.allMem), old(pool.freeList), pool.allMem, pool.freeList, p)
    {
      hide MallocPool.Valid, MallocPool.Within, MallocPool.Memory, Zero, Pools, PoolsIn, Mems, Lives, Took;
      StillPools(Repr);
      MemsAll();
      InRepr(pool);
      ghost var mems, lives, s, m := Mems(), Lives(), pool.size, pool.Memory();
      p := pool.Malloc();
      pool.LiveBlock(p);
      more := pool.Memory() - m;
      assert pool.Memory() == m + more;
      forall t | t in smallList && t != s
        ensures smallList[t].Memory() == mems[t] && smallList[t].live == lives[t] && smallList[t].Within(Repr) && smallList[t].Valid()
      {
        assert old(smallList[t].size) == t;
      }
      MemsAre(mems[s := m + more], lives[s := lives[s] + {p}]);
      pool.WithinMemory(Repr + more);
      AllPools(pool, Repr + more);
    }

    lemma InRepr(pool: MallocPool)
      requires Pools() && pool.size in smallList && smallList[pool.size] == pool
      ensures forall r <- pool.Memory() :: r in Repr
      ensures pool in Repr && pool.Valid() && 0 < pool.size < MEM_MAX_SIZE
    {
    }

    /** A block from a pool. */
    method SmallMalloc(pool: MallocPool) returns (p: Ptr)
      requires Valid() && pool.size in smallList && smallList[pool.size] == pool
      modifies this`smallPtrs, this`Repr, pool
      ensures Valid() && fresh(Repr - old(Repr)) && old(Repr) <= Repr
      ensures p !in old(Live()) && Live() == old(Live()) + {p} && SizeOf(p) == pool.size && Zero(p, pool.size)
      ensures forall q <- old(Live()) :: SizeOf(q) == old(SizeOf(q))
      ensures smallPtrs == old(smallPtrs)[p := pool]
      ensures Took(pool.size, pool.count, old(pool.allMem), old(pool.freeList), pool.allMem, pool.freeList, p)
    {
      hide MallocPool.Valid, MallocPool.Within, SmallTable, BigTable, PoolsApart, Zero, Pools, PoolsIn, Mems, Lives, Took;
      Allocated();
      InRepr(pool);
      MemsAll();
      ghost var mems, lives, more := Mems(), Lives(), {};
      p, more := TakeFrom(pool);
      ghost var repr := Repr + more;
      TablesMalloc(smallList, mems, lives, smallPtrs, bigPtrs, Repr, pool, more, p, repr);
      PoolsEach(repr);
      smallPtrs := smallPtrs[p := pool];
      Repr := repr;
      PoolsAre();
    }

    lemma PoolsEach(repr: set<object>)
      requires PoolsIn(repr)
      ensures forall s <- smallList ::
        smallList[s] in repr && smallList[s].size == s && 0 < s < MEM_MAX_SIZE && smallList[s].Within(repr) && smallList[s].Valid()
    {
    }

    lemma AllPools(pool: MallocPool, repr: set<object>)
      requires pool.size in smallList && smallList[pool.size] == pool && pool.Within(repr) && pool.Valid() && Repr <= repr
      requires 0 < pool.size < MEM_MAX_SIZE
      requires forall s <- smallList ::
        s != pool.size ==> smallList[s] in Repr && smallList[s].size == s && 0 < s < MEM_MAX_SIZE && smallList[s].Within(Repr) && smallList[s].Valid()
      ensures PoolsIn(repr)
    {
    }

    lemma PoolsAre()
      requires forall s <- smallList ::
        smallList[s] in Repr && smallList[s].size == s && 0 < s < MEM_MAX_SIZE && smallList[s].Within(Repr) && smallList[s].Valid()
      ensures Pools()
    {
    }

    /** A piece of memory of its own. */
    method BigMalloc(size: nat) returns (p: Ptr)
      requires Valid() && size > 0
      modifies this`bigPtrs, this`Repr
      ensures Valid() && fresh(Repr - old(Repr)) && old(Repr) <= Repr
      ensures p !in old(Live()) && Live() == old(Live()) + {p} && SizeOf(p) == size && Zero(p, size)
      ensures bigPtrs == old(bigPtrs)[p := size] && fresh(p.region) && p.off == 0 && p.region.Length == size
      ensures forall q <- old(Live()) :: SizeOf(q) == old(SizeOf(q))
    {
      hide MallocPool.Valid, MallocPool.Within, PoolsApart, Pools, BigTable, SmallTable, Mems, Lives;
      Allocated();
      MemsAll();
      SmallInRepr();
      var region := new byte[size](_ => 0);
      p := Ptr(region, 0);
      ghost var repr := Repr + {region};
      StillPools(repr);
      TablesBig(bigPtrs, Mems(), Repr, p, size, repr);
      bigPtrs := bigPtrs[p := size];
      Repr := repr;
      PoolsAre();
    }

    lemma SmallInRepr()
      requires Valid()
      ensures forall p <- smallPtrs :: p.region in Repr
    {
      forall p | p in smallPtrs
        ensures p.region in Repr
      {
        assert p.region in Mems()[smallPtrs[p].size];
      }
    }

    /** What a pool has: pieces of memory and free blocks; nothing if there is no pool of that size yet. */
    ghost function MemoryOf(size: nat): seq<array<byte>>
      reads this`smallList, (set s <- smallList :: smallList[s])`allMem
    {
      if size in smallList then smallList[size].allMem else []
    }

    ghost function FreeOf(size: nat): seq<Ptr>
      reads this`smallList, (set s <- smallList :: smallList[s])`freeList
    {
      if size in smallList then smallList[size].freeList else []
    }

    /** malloc: a block of the size class, all zero, that is none of the live ones. A block below the largest class comes
        from the pool of its size, which is made when there is none; any other is a piece of memory of its own. */
    method Malloc(size: nat) returns (p: Ptr)
      requires Valid()
      modifies Repr
      ensures Valid() && fresh(Repr - old(Repr)) && old(Repr) <= Repr
      ensures p !in old(Live()) && Live() == old(Live()) + {p}
      ensures size <= SizeOf(p) == FixSize(size) && Zero(p, SizeOf(p))
      ensures forall q <- old(Live()) :: SizeOf(q) == old(SizeOf(q))
      ensures p in smallPtrs <==> FixSize(size) < MEM_MAX_SIZE
      ensures FixSize(size) < MEM_MAX_SIZE ==> var s := FixSize(size);
        s in smallList && smallList[s].size == s && smallList[s].count == GetCount(s) && smallPtrs == old(smallPtrs)[p := smallList[s]] &&
        Took(s, GetCount(s), old(MemoryOf(s)), old(FreeOf(s)), MemoryOf(s), FreeOf(s), p)
      ensures FixSize(size) < MEM_MAX_SIZE ==> var s := FixSize(size);
        bigPtrs == old(bigPtrs) && smallList == old(smallList)[s := smallList[s]] &&
        (s in old(smallList) ==> smallList[s] == old(smallList)[s]) && (s !in old(smallList) ==> fresh(smallList[s]))
      ensures FixSize(size) >= MEM_MAX_SIZE ==>
        bigPtrs == old(bigPtrs)[p := FixSize(size)] && smallPtrs == old(smallPtrs) && smallList == old(smallList) &&
        fresh(p.region) && p.off == 0 && p.region.Length == FixSize(size)
      ensures forall s <- old(smallList) :: s != FixSize(size) ==> unchanged(old(smallList)[s])
    {
      hide MallocPool.Valid, MallocPool.Within, PoolsApart, BigTable, SmallTable, Mems, Lives, Tables, Blocks, Took;
      var fixed := FixSize(size);
      var count := GetCount(fixed);
      if fixed < MEM_MAX_SIZE {
        if fixed !in smallList {
          AddPool(fixed, count);
        }
        var pool := smallList[fixed];
        ghost var mem, free := pool.allMem, pool.freeList;
        p := SmallMalloc(pool);
        assert Took(fixed, count, mem, free, MemoryOf(fixed), FreeOf(fixed), p);
        if fixed !in old(smallList) {
          FirstTaken(fixed, count, mem, free, MemoryOf(fixed), FreeOf(fixed), p);
        }
      } else {
        p := BigMalloc(fixed);
      }
    }

    /** What the pool's free() changes, as the tables see it. */
    method GiveBack(pool: MallocPool, p: Ptr)
      requires Pools() && pool.size in smallList && smallList[pool.size] == pool && p in pool.live && PoolsApart(Mems())
      modifies pool, p.region
      ensures Mems() == old(Mems()) && Lives() == old(Lives())[pool.size := old(Lives()[pool.size]) - {p}]
      ensures Pools() && pool.freeList == old(pool.freeList) + [p] && pool.allMem == old(pool.allMem)
      ensures forall i :: 0 <= i < p.region.Length && !(p.off <= i < p.off + pool.size) ==> p.region[i] == old(p.region[i])
    {
      hide MallocPool.Valid, MallocPool.Memory, MallocPool.Within, Mems, Lives, Pools, PoolsIn;
      StillPools(Repr);
      MemsAll();
      InRepr(pool);
      ghost var mems, lives, s := Mems(), Lives(), pool.size;
      pool.LiveBlock(p);
      forall t | t in smallList && t != s
        ensures p.region !in smallList[t].Memory()
      {
        assert mems[t] !! mems[s];
      }
      NotTheirs(pool, p.region);
      var _ := pool.Free(Some(p));
      pool.WithinMemory(Repr);
      forall t | t in smallList && t != s
        ensures smallList[t].Memory() == mems[t] && smallList[t].live == lives[t] && smallList[t].Within(Repr) && smallList[t].Valid()
      {
        assert old(smallList[t].size) == t;
      }
      MemsAre(mems, lives[s := lives[s] - {p}]);
      AllPools(pool, Repr);
      PoolsEach(Repr);
      PoolsAre();
    }

    lemma NotTheirs(pool: MallocPool, region: array<byte>)
      requires forall t <- smallList :: t != pool.size ==> region !in smallList[t].Memory()
      ensures forall t <- smallList :: t != pool.size ==> region !in smallList[t].allMem
    {
    }

    /** free of a small pointer. */
    method SmallFree(p: Ptr)
      requires Valid() && p in smallPtrs
      modifies this`smallPtrs, smallPtrs[p], p.region
      ensures Valid() && smallPtrs == old(smallPtrs) - {p}
      ensures var pool := old(smallPtrs)[p]; pool.freeList == old(smallPtrs[p].freeList) + [p] && pool.allMem == old(smallPtrs[p].allMem)
      ensures forall i :: 0 <= i < p.region.Length && !(p.off <= i < p.off + old(SizeOf(p))) ==> p.region[i] == old(p.region[i])
    {
      hide MallocPool.Valid, MallocPool.Memory, MallocPool.Within, Mems, Lives, PoolsApart, BigTable, Pools;
      var pool := smallPtrs[p];
      MemsAll();
      TablesFree(smallList, Mems(), Lives(), smallPtrs, p);
      hide SmallTable;
      GiveBack(pool, p);
      StillPools(Repr);
      smallPtrs := smallPtrs - {p};
      PoolsAre();
    }

    /** free: false, and nothing changes, exactly for a pointer that is not live; the other live blocks keep their bytes. */
    method Free(ptr: Option<Ptr>) returns (r: bool)
      requires Valid()
      modifies Repr
      ensures Valid() && Repr == old(Repr)
      ensures r <==> ptr.Some? && ptr.value in old(Live())
      ensures if r then Live() == old(Live()) - {ptr.value} else unchanged(Repr)
      ensures forall q <- Live() :: SizeOf(q) == old(SizeOf(q))
      ensures forall q <- Live(), i :: q.off <= i < q.off + SizeOf(q) && i < q.region.Length ==> q.region[i] == old(q.region[i])
      ensures smallList == old(smallList)
      ensures r ==> smallPtrs == old(smallPtrs) - {ptr.value} && bigPtrs == old(bigPtrs) - {ptr.value}
      ensures forall s <- smallList :: MemoryOf(s) == old(MemoryOf(s))
      ensures forall s <- smallList ::
        FreeOf(s) == old(FreeOf(s)) + if r && ptr.value in old(smallPtrs) && old(smallPtrs)[ptr.value] == smallList[s] then [ptr.value] else []
    {
      hide MallocPool.Valid, MallocPool.Within, MallocPool.Memory, Tables, Pools, Mems, Lives;
      if ptr.None? {
        return false;
      }
      var p := ptr.value;
      if p in smallPtrs {
        forall q | q in Live() && q != p
          ensures Apart(q, SizeOf(q), p, SizeOf(p))
        {
          LiveApart(q, p);
        }
        FreeFrame(p);
        SmallFree(p);
        return true;
      }
      if p in bigPtrs {
        BigFree(p);
        return true;
      }
      return false;
    }

    lemma FreeFrame(p: Ptr)
      requires Valid() && p in smallPtrs
      ensures smallPtrs[p] in Repr && p.region in Repr && this in Repr && p !in bigPtrs
    {
      SmallInRepr();
    }

    /** free of a big pointer. */
    method BigFree(p: Ptr)
      requires Valid() && p in bigPtrs
      modifies this`bigPtrs
      ensures Valid() && bigPtrs == old(bigPtrs) - {p} && p !in smallPtrs
    {
      hide MallocPool.Valid, MallocPool.Memory, MallocPool.Within, Mems, Lives, PoolsApart, Pools;
      StillPools(Repr);
      MemsAll();
      bigPtrs := bigPtrs - {p};
      PoolsAre();
    }

    /** A caller writes into a block it has: nothing the manager relies on changes. */
    method Write(p: Ptr, i: nat, b: byte)
      requires Valid() && p in Live() && i < SizeOf(p) && p.off + i < p.region.Length
      modifies p.region
      ensures Valid() && p.region[..] == old(p.region[..])[p.off + i := b]
    {
      hide MallocPool.Valid, MallocPool.Within, MallocPool.Memory, Mems, Lives, Pools;
      MemsAll();
      StillPools(Repr);
      OwnMemory(p);
      if p in smallPtrs {
        var pool := smallPtrs[p];
        InRepr(pool);
        pool.Write(p, i, b);
      } else {
        p.region[p.off + i] := b;
      }
      forall s | s in smallList
        ensures smallList[s].Valid()
      {
        assert p.region !in smallList[s].allMem || smallList[s] == smallPtrs[p];
      }
      MemsAre(old(Mems()), old(Lives()));
      PoolsAre();
    }

    /** The memory of a live block belongs to no pool but its own. */
    lemma OwnMemory(p: Ptr)
      requires Valid() && p in Live()
      ensures forall s <- smallList :: p.region in smallList[s].allMem ==> p in smallPtrs && smallList[s] == smallPtrs[p]
      ensures p in smallPtrs ==> smallPtrs[p].size in smallList && smallList[smallPtrs[p].size] == smallPtrs[p] && p in smallPtrs[p].live
    {
      forall s | s in smallList && p.region in smallList[s].allMem
        ensures p in smallPtrs && smallList[s] == smallPtrs[p]
      {
        assert p.region in Mems()[s];
      }
    }
  }
}
