/**
 * The arena: pools of ascending slot sizes in one buffer, blocks routed back to
 * their pool by address, and the process heap when no pool can serve.
 *
 * Addresses are offsets from the arena; the heap lies outside the buffer. What
 * the heap answers to `calloc` and `realloc` is a parameter of each operation.
 */
module Arena {
  import opened Options
  import opened Bytes
  import opened MemPool

  const ARENA_HEADER: nat := 16    // sizeof(struct arena)
  const POOL_HDR: nat := 16        // sizeof(struct pool_hdr)

  /** `mempool_memsize`. */
  function MemSize(elemSz: nat, numSlots: nat): nat {
    HEADER_SIZE + numSlots * AlignTo(elemSz)
  }

  function TotalSize(sizes: seq<(nat, nat)>): nat {
    if sizes == [] then 0 else TotalSize(sizes[..|sizes| - 1]) + MemSize(sizes[|sizes| - 1].0, sizes[|sizes| - 1].1)
  }

  lemma {:induction false} TotalGrows(sizes: seq<(nat, nat)>, i: nat)
    requires i <= |sizes|
    ensures TotalSize(sizes[..i]) <= TotalSize(sizes)
    decreases |sizes|
  {
    if i < |sizes| {
      TotalGrows(sizes[..|sizes| - 1], i);
      assert sizes[..|sizes| - 1][..i] == sizes[..i];
    } else {
      assert sizes[..i] == sizes;
    }
  }

  lemma TotalStep(sizes: seq<(nat, nat)>, i: nat)
    requires i < |sizes|
    ensures TotalSize(sizes[..i + 1]) == TotalSize(sizes[..i]) + MemSize(sizes[i].0, sizes[i].1) <= TotalSize(sizes)
  {
    assert sizes[..i + 1][..i] == sizes[..i];
    TotalGrows(sizes, i + 1);
  }

  /** What `arena_create` is given: slot sizes that never shrink, and at least two slots of each. */
  predicate GoodSizes(sizes: seq<(nat, nat)>) {
    |sizes| >= 1
    && (forall i :: 0 <= i < |sizes| ==> sizes[i].0 >= 1 && AlignTo(sizes[i].0) < INT_LIMIT && 2 <= sizes[i].1 < INT_LIMIT)
    && forall i, j :: 0 <= i < j < |sizes| ==> sizes[i].0 <= sizes[j].0
  }

  lemma AlignIsMonotone(a: nat, b: nat)
    requires a <= b
    ensures AlignTo(a) <= AlignTo(b)
  {
  }

  /** Pools `ps` lie one after the other below `addr`, in the sizes asked for. */
  ghost predicate LaidOut(ps: seq<Pool>, mem: array<byte>, sizes: seq<(nat, nat)>, addr: nat) {
    |ps| <= |sizes|
    && (forall i :: 0 <= i < |ps| ==> PlacedAs(ps[i], mem, sizes[i]) && ps[i].End() <= addr)
    && forall i, j :: 0 <= i < j < |ps| ==> ps[i] != ps[j] && ps[i].End() <= ps[j].base
  }

  ghost predicate PlacedAs(pool: Pool, mem: array<byte>, size: (nat, nat)) {
    pool.mem == mem && pool.Layout() && pool.base > 0 && pool.slotSz == AlignTo(size.0) && pool.numSlots == size.1
  }

  /** One pool placed at `addr`, above the pools there already are. */
  method PlacePool(mem: array<byte>, ps: seq<Pool>, sizes: seq<(nat, nat)>, addr: nat) returns (pool: Pool)
    requires GoodSizes(sizes) && |ps| < |sizes| && LaidOut(ps, mem, sizes, addr)
    requires addr + MemSize(sizes[|ps|].0, sizes[|ps|].1) <= mem.Length
    requires forall k :: 0 <= k < |ps| ==> ps[k].Valid()
    modifies mem
    ensures fresh(pool) && PlacedAs(pool, mem, sizes[|ps|]) && pool.Valid()
    ensures pool.base == addr + HEADER_SIZE && pool.End() == addr + MemSize(sizes[|ps|].0, sizes[|ps|].1)
    ensures pool.free == AllSlots(sizes[|ps|].1)
    ensures forall k :: 0 <= k < |ps| ==> ps[k].Valid()
  {
    hide Pool.SlotAt, Pool.Distinct, Pool.Threaded, AlignTo;
    var n, size := |ps|, sizes[|ps|];
    pool := new Pool(mem, addr + HEADER_SIZE, size.0, size.1);
    pool.SlotAtIsProduct(pool.numSlots);
    forall k | 0 <= k < n
      ensures ps[k].Valid()
    {
      assert PlacedAs(ps[k], mem, sizes[k]);
      ps[k].UntouchedOutside();
    }
  }

  lemma LaidOutNext(ps: seq<Pool>, mem: array<byte>, sizes: seq<(nat, nat)>, addr: nat, pool: Pool)
    requires LaidOut(ps, mem, sizes, addr) && |ps| < |sizes| && PlacedAs(pool, mem, sizes[|ps|])
    requires pool.base >= addr && pool !in ps
    ensures LaidOut(ps + [pool], mem, sizes, pool.End())
  {
    hide Pool.Layout, Pool.SlotAt;
    assert addr <= pool.base <= pool.End() by { pool.SlotAtIsProduct(pool.numSlots); }
  }

  lemma PlacedBelow(ps: seq<Pool>, mem: array<byte>, sizes: seq<(nat, nat)>, addr: nat)
    requires Placed(ps, mem, sizes, addr) && addr <= mem.Length
    ensures Placed(ps, mem, sizes, mem.Length)
  {
    hide PlacedAs, Pool.SlotAt, Pool.Valid, AllSlots;
  }

  /** The pools placed so far: laid out below `addr`, each with all its slots free. */
  ghost predicate Placed(ps: seq<Pool>, mem: array<byte>, sizes: seq<(nat, nat)>, addr: nat)
    reads mem, ps
  {
    LaidOut(ps, mem, sizes, addr) && forall i :: 0 <= i < |ps| ==> ps[i].Valid() && ps[i].free == AllSlots(sizes[i].1)
  }

  /** One round of the loop of `arena_create`. */
  method PlaceNext(mem: array<byte>, ps: seq<Pool>, sizes: seq<(nat, nat)>, addr: nat) returns (ps': seq<Pool>)
    requires GoodSizes(sizes) && |ps| < |sizes| && Placed(ps, mem, sizes, addr)
    requires addr + MemSize(sizes[|ps|].0, sizes[|ps|].1) <= mem.Length
    modifies mem
    ensures |ps'| == |ps| + 1 && ps' == ps + [ps'[|ps|]] && fresh(ps'[|ps|])
    ensures Placed(ps', mem, sizes, addr + MemSize(sizes[|ps|].0, sizes[|ps|].1))
  {
    hide LaidOut, Pool.Valid, Pool.SlotAt, AlignTo, AllSlots, MemSize, GoodSizes;
    var pool := PlacePool(mem, ps, sizes, addr);
    LaidOutNext(ps, mem, sizes, addr, pool);
    ps' := ps + [pool];
  }

  /** The loop of `arena_create` that places the pools. */
  method PlacePools(mem: array<byte>, sizes: seq<(nat, nat)>, start: nat) returns (ps: seq<Pool>)
    requires GoodSizes(sizes) && start + TotalSize(sizes) <= mem.Length
    modifies mem
    ensures |ps| == |sizes| && fresh(ps) && Placed(ps, mem, sizes, mem.Length)
  {
    hide Placed, GoodSizes, MemSize, SizeUpTo;
    PlacedNone(mem, sizes, start);
    SizesUpTo(sizes);
    ps := [];
    var addr := start;
    for i := 0 to |sizes|
      invariant |ps| == i && addr == start + SizeUpTo(sizes, i) && fresh(ps) && Placed(ps, mem, sizes, addr)
    {
      ps := PlaceNext(mem, ps, sizes, addr);
      addr := addr + MemSize(sizes[i].0, sizes[i].1);
    }
    PlacedBelow(ps, mem, sizes, addr);
  }

  function SizeUpTo(sizes: seq<(nat, nat)>, i: nat): nat
    requires i <= |sizes|
  {
    TotalSize(sizes[..i])
  }

  lemma SizesUpTo(sizes: seq<(nat, nat)>)
    ensures SizeUpTo(sizes, 0) == 0 && SizeUpTo(sizes, |sizes|) == TotalSize(sizes)
    ensures forall i :: 0 <= i < |sizes| ==> SizeUpTo(sizes, i + 1) == SizeUpTo(sizes, i) + MemSize(sizes[i].0, sizes[i].1) <= TotalSize(sizes)
  {
    assert sizes[..|sizes|] == sizes;
    forall i | 0 <= i < |sizes|
      ensures SizeUpTo(sizes, i + 1) == SizeUpTo(sizes, i) + MemSize(sizes[i].0, sizes[i].1) <= TotalSize(sizes)
    {
      TotalStep(sizes, i);
    }
  }

  lemma PlacedNone(mem: array<byte>, sizes: seq<(nat, nat)>, addr: nat)
    ensures Placed([], mem, sizes, addr)
  {
  }

  /** Addresses `p .. p + n` touch neither the buffer, nor address zero, nor any block of `blocks`. */
  ghost predicate Clear(bufLen: nat, blocks: map<int, seq<byte>>, p: int, n: nat) {
    p != 0 && (p + n <= 0 || bufLen <= p)
    && forall q :: q in blocks ==> q + |blocks[q]| <= p || p + n <= q
  }

  class Arena {
    const mem: array<byte>
    const pools: seq<Pool>
    const allowHeap: bool
    var heap: map<int, seq<byte>>
    ghost var home: map<int, (nat, nat)>  // live pool blocks: which pool, which slot
    ghost var data: map<int, seq<byte>>   // the contents of every live block

    /** `arena_create`. */
    constructor (sizes: seq<(nat, nat)>, allowHeap: bool)
      requires GoodSizes(sizes)
      ensures Valid() && data == map[] && this.allowHeap == allowHeap
      ensures fresh(mem) && fresh(pools) && |pools| == |sizes|
      ensures forall i :: 0 <= i < |pools| ==>
                pools[i].slotSz == AlignTo(sizes[i].0) && pools[i].free == AllSlots(sizes[i].1)
    {
      hide LaidOut, GoodSizes, TotalSize, AlignTo, AllSlots, Pool.Valid, Layout, CoherentAs;
      var header := ARENA_HEADER + |sizes| * POOL_HDR;
      var buf := new byte[header + TotalSize(sizes)](_ => 0);
      var ps := PlacePools(buf, sizes, header);
      mem, pools, this.allowHeap := buf, ps, allowHeap;
      heap, home, data := map[], map[], map[];
      new;
      FreshLayout(sizes);
      FreshIsComplete(sizes);
      assert CoherentAs(map[], map[], map[]) by { FreshIsCoherent(); }
    }

    lemma FreshLayout(sizes: seq<(nat, nat)>)
      requires GoodSizes(sizes) && |pools| == |sizes| && LaidOut(pools, mem, sizes, mem.Length)
      ensures Layout()
      ensures forall i :: 0 <= i < |pools| ==> pools[i].slotSz == AlignTo(sizes[i].0) && pools[i].numSlots == sizes[i].1
    {
      hide AlignTo, Pool.Layout, Pool.SlotAt;
      forall i, j | 0 <= i < j < |pools|
        ensures pools[i] != pools[j] && pools[i].End() <= pools[j].base && pools[i].slotSz <= pools[j].slotSz
      {
        AlignIsMonotone(sizes[i].0, sizes[j].0);
        assert PlacedAs(pools[i], mem, sizes[i]) && PlacedAs(pools[j], mem, sizes[j]);
      }
    }

    lemma FreshIsComplete(sizes: seq<(nat, nat)>)
      requires Layout() && |pools| == |sizes|
      requires forall i :: 0 <= i < |pools| ==> pools[i].numSlots == sizes[i].1 && pools[i].free == AllSlots(sizes[i].1)
      ensures Complete()
    {
      hide AllSlots, Pool.SlotAt, Layout;
      forall i, k | 0 <= i < |pools| && 0 <= k < pools[i].numSlots
        ensures k in Frees()[i]
      {
        AllSlotsAreThere(sizes[i].1);
      }
    }

    lemma FreshIsCoherent()
      requires Layout() && forall i :: 0 <= i < |pools| ==> pools[i].Valid()
      ensures CoherentAs(map[], map[], map[])
    {
      hide Layout, Pool.Valid;
    }

    ghost predicate Layout() {
      (forall i :: 0 <= i < |pools| ==> pools[i].mem == mem && pools[i].Layout() && pools[i].base > 0)
      && forall i, j :: 0 <= i < j < |pools| ==>
           pools[i] != pools[j] && pools[i].End() <= pools[j].base && pools[i].slotSz <= pools[j].slotSz
    }

    ghost predicate IsHome(p: int, at: (nat, nat))
      requires Layout()
      reads pools
    {
      at.0 < |pools| && at.1 < pools[at.0].numSlots && at.1 !in pools[at.0].free && p == pools[at.0].SlotAt(at.1)
    }

    ghost predicate PoolsOk()
      reads mem, pools
    {
      Layout() && forall i :: 0 <= i < |pools| ==> pools[i].Valid()
    }

    ghost predicate HomeOk(home: map<int, (nat, nat)>, data: map<int, seq<byte>>)
      requires Layout()
      reads mem, pools
    {
      forall p :: p in home ==> p in data && HoldsAt(p, home[p], data[p])
    }

    /** Block `p` is a live slot and its bytes are `bytes`. */
    ghost predicate HoldsAt(p: int, at: (nat, nat), bytes: seq<byte>)
      requires Layout()
      reads mem, pools
    {
      IsHome(p, at) && bytes == pools[at.0].SlotBytes(at.1)
    }

    /** Addresses `p .. p + n` are outside the buffer. */
    predicate Outside(p: int, n: nat) {
      p + n <= 0 || mem.Length <= p
    }

    ghost predicate HeapOk(heap: map<int, seq<byte>>, data: map<int, seq<byte>>) {
      (forall p :: p in heap ==> p in data && data[p] == heap[p] && Outside(p, |heap[p]|) && allowHeap && p != 0)
      && forall p, q :: p in heap && q in heap && p < q ==> p + |heap[p]| <= q
    }

    /** Every live block is where these maps say, and holds what they say. */
    ghost predicate CoherentAs(heap: map<int, seq<byte>>, home: map<int, (nat, nat)>, data: map<int, seq<byte>>)
      reads mem, pools
    {
      PoolsOk() && HomeOk(home, data) && HeapOk(heap, data) && forall p :: p in data <==> p in home || p in heap
    }

    ghost predicate Coherent()
      reads this, mem, pools
    {
      CoherentAs(heap, home, data)
    }

    /** Every slot that is not free holds a live block: nothing leaks. */
    ghost predicate Complete()
      requires Layout()
      reads this, pools
    {
      AllClaimed(Frees(), home)
    }

    ghost function Frees(): (frees: seq<seq<nat>>)
      reads pools
      ensures |frees| == |pools| && forall i :: 0 <= i < |pools| ==> frees[i] == pools[i].free
    {
      seq(|pools|, i requires 0 <= i < |pools| reads pools => pools[i].free)
    }

    /** With these free lists, every other slot is the home of the block at its address. */
    ghost predicate AllClaimed(frees: seq<seq<nat>>, blocks: map<int, (nat, nat)>)
      requires Layout() && |frees| == |pools|
    {
      forall i, k :: 0 <= i < |pools| && 0 <= k < pools[i].numSlots && k !in frees[i] ==>
        pools[i].SlotAt(k) in blocks && blocks[pools[i].SlotAt(k)] == (i, k)
    }

    /** Taking the first free slot of a pool, and recording the block, leaves no gap. */
    lemma TakeLeavesNoGap(frees: seq<seq<nat>>, blocks: map<int, (nat, nat)>, i: nat)
      requires Layout() && |frees| == |pools| && AllClaimed(frees, blocks) && i < |pools| && frees[i] != []
      requires pools[i].SlotAt(frees[i][0]) !in blocks
      ensures AllClaimed(frees[i := frees[i][1..]], blocks[pools[i].SlotAt(frees[i][0]) := (i, frees[i][0])])
    {
      assert frees[i] == [frees[i][0]] + frees[i][1..];
    }

    /** Giving a slot back, and forgetting its block, leaves no gap. */
    lemma GiveLeavesNoGap(frees: seq<seq<nat>>, blocks: map<int, (nat, nat)>, p: int)
      requires Layout() && |frees| == |pools| && AllClaimed(frees, blocks) && p in blocks && blocks[p].0 < |pools|
      ensures AllClaimed(frees[blocks[p].0 := [blocks[p].1] + frees[blocks[p].0]], blocks - {p})
    {
    }

    ghost predicate Valid()
      reads this, mem, pools
    {
      Coherent() && Complete()
    }

    // ---- addresses -------------------------------------------------------------

    /** A slot lies in its own pool's address range and in no other pool's. */
    lemma SlotRoutes(i: nat, k: nat, j: nat)
      requires Layout() && i < |pools| && k < pools[i].numSlots && j < |pools|
      ensures pools[j].HasPtr(pools[i].SlotAt(k)) <==> i == j
    {
      var p, q := pools[i], pools[j];
      p.SlotInside(k);
      q.SlotInside(q.numSlots - 1);
      if k < p.numSlots - 1 {
        p.SlotsApart(k, p.numSlots - 1);
      }
    }

    /** Different live blocks share no byte. */
    lemma HomesApart(p: int, q: int)
      requires Coherent() && p in home && q in home && p < q
      ensures p + |data[p]| <= q
    {
      hide Pool.Valid;
      var (i, k) := home[p];
      var (j, l) := home[q];
      pools[i].SlotInside(k);
      pools[j].SlotInside(l);
      if i == j {
        if k < l {
          pools[i].SlotsApart(k, l);
        } else if l < k {
          pools[i].SlotsApart(l, k);
        }
      }
    }

    /** All live blocks, on the heap or in pools, are pairwise disjoint. */
    lemma LiveBlocksDisjoint(p: int, q: int)
      requires Valid() && p in data && q in data && p < q && |data[p]| > 0
      ensures p + |data[p]| <= q
    {
      if p in home {
        pools[home[p].0].SlotInside(home[p].1);
      }
      if q in home {
        pools[home[q].0].SlotInside(home[q].1);
      }
      if p in home && q in home {
        HomesApart(p, q);
      }
    }

    lemma HomeIsNotHeap(p: int)
      requires Coherent() && p in home
      ensures p > 0 && p < mem.Length && p !in heap
    {
      pools[home[p].0].SlotInside(home[p].1);
    }

    /** A slot that is not free holds a live block. */
    lemma TakenSlotIsLive(i: nat, k: nat)
      requires Valid() && i < |pools| && k < pools[i].numSlots && k !in pools[i].free
      ensures pools[i].SlotAt(k) in data
    {
      hide Pool.Valid;
    }

    lemma PoolIsValid(i: nat)
      requires Coherent() && i < |pools|
      ensures Layout() && pools[i].Valid() && pools[i].mem == mem && pools[i].base > 0
    {
    }

    lemma FreeInRange(i: nat)
      requires Valid() && i < |pools|
      ensures forall k <- pools[i].free :: k < pools[i].numSlots
    {
    }

    lemma HomeSize(p: int)
      requires Coherent() && p in home
      ensures Layout() && home[p].0 < |pools| && p !in heap
      ensures p in data && |data[p]| == pools[home[p].0].slotSz < INT_LIMIT
    {
      HomeIsNotHeap(p);
    }

    /** `_poolidx_from_size`. */
    method PoolFromSize(sz: int) returns (r: int)
      requires Layout()
      ensures -1 <= r < |pools|
      ensures r >= 0 ==> pools[r].slotSz >= sz && forall i :: 0 <= i < r ==> pools[i].slotSz < sz
      ensures r == -1 ==> forall i :: 0 <= i < |pools| ==> pools[i].slotSz < sz
    {
      for i := 0 to |pools|
        invariant forall j :: 0 <= j < i ==> pools[j].slotSz < sz
      {
        if pools[i].slotSz >= sz {
          return i;
        }
      }
      return -1;
    }

    /** `_poolidx_from_ptr`: every live block goes back to the pool it came from. */
    method PoolFromPtr(p: int) returns (r: int)
      requires Coherent() && p in data
      ensures r == if p in home then home[p].0 as int else -1
    {
      hide Pool.Valid;
      if p in home {
        pools[home[p].0].SlotInside(home[p].1);
      }
      for i := 0 to |pools|
        invariant p in home ==> i <= home[p].0
      {
        PtrInPool(p, i);
        if pools[i].HasPtr(p) {
          return i;
        }
      }
      return -1;
    }

    lemma PtrInPool(p: int, i: nat)
      requires Coherent() && p in data && i < |pools|
      ensures pools[i].HasPtr(p) <==> p in home && home[p].0 == i
    {
      if p in home {
        SlotRoutes(home[p].0, home[p].1, i);
      } else {
        pools[i].SlotInside(pools[i].numSlots - 1);
        pools[i].SlotInside(0);
      }
    }

    // ---- one pool at a time ----------------------------------------------------

    /** The slots of pool `i` that hold live blocks are not free and keep their bytes. */
    twostate predicate LiveSlotsKept(i: nat)
      requires Layout() && i < |pools|
      reads this, pools, mem
    {
      forall p, k :: p in home && home[p] == (i, k) && k < pools[i].numSlots ==>
        k !in pools[i].free && pools[i].SlotBytes(k) == old(pools[i].SlotBytes(k))
    }

    /** An operation confined to pool `i` that keeps its live slots keeps the arena coherent. */
    twostate lemma StaysCoherent(i: nat)
      requires old(Coherent()) && unchanged(this) && i < |pools| && pools[i].Valid() && LiveSlotsKept(i)
      requires forall j :: 0 <= j < |pools| && j != i ==> unchanged(pools[j])
      requires forall a :: 0 <= a < mem.Length && !(pools[i].base <= a < pools[i].End()) ==> mem[a] == old(mem[a])
      ensures Coherent()
    {
      hide Pool.Valid;
      forall j | 0 <= j < |pools|
        ensures pools[j].Valid()
        ensures j != i ==> PoolKept(j)
      {
        if j != i {
          pools[j].UntouchedOutside();
        }
      }
      forall p | p in home
        ensures HoldsAt(p, home[p], data[p])
      {
        assert old(HoldsAt(p, home[p], data[p]));
        assert home[p].0 != i ==> PoolKept(home[p].0);
      }
    }

    twostate predicate PoolKept(j: nat)
      requires Layout() && j < |pools|
      reads pools[j], mem
    {
      pools[j].Valid() && forall k :: 0 <= k < pools[j].numSlots ==> pools[j].SlotBytes(k) == old(pools[j].SlotBytes(k))
    }

    lemma Recorded(h: map<int, seq<byte>>, hm: map<int, (nat, nat)>, d: map<int, seq<byte>>, p: int, i: nat, k: nat)
      requires CoherentAs(h, hm, d) && IsHome(p, (i, k)) && p !in d
      ensures CoherentAs(h, hm[p := (i, k)], d[p := pools[i].SlotBytes(k)])
    {
      assert HoldsAt(p, (i, k), pools[i].SlotBytes(k));
      hide PoolsOk, HoldsAt, Layout, IsHome, Outside;
    }

    lemma Forgotten(h: map<int, seq<byte>>, hm: map<int, (nat, nat)>, d: map<int, seq<byte>>, p: int)
      requires CoherentAs(h, hm, d) && p in hm && p !in h
      ensures CoherentAs(h, hm - {p}, d - {p})
    {
      hide PoolsOk, HoldsAt, Layout, Outside;
    }

    /** A slot just taken from pool `i` becomes a live block. */
    ghost method Record(p: int, i: nat, k: nat)
      requires Coherent() && IsHome(p, (i, k)) && p !in data
      modifies this`home, this`data
      ensures Coherent()
      ensures home == old(home)[p := (i, k)] && data == old(data)[p := pools[i].SlotBytes(k)]
    {
      Recorded(heap, home, data, p, i, k);
      hide CoherentAs;
      home, data := home[p := (i, k)], data[p := pools[i].SlotBytes(k)];
    }

    /** A live block is about to be given back. */
    ghost method Forget(p: int)
      requires Coherent() && p in home
      modifies this`home, this`data
      ensures Coherent()
      ensures home == old(home) - {p} && data == old(data) - {p}
    {
      HomeIsNotHeap(p);
      Forgotten(heap, home, data, p);
      hide CoherentAs;
      home, data := home - {p}, data - {p};
    }

    /** The part of `TakeFrom` that concerns blocks already live. */
    method TakeSlot(i: nat) returns (p: Option<nat>)
      requires Coherent() && i < |pools|
      modifies this`home, this`data, pools[i], mem
      ensures Coherent()
      ensures p.None? <==> old(pools[i].free) == []
      ensures p.None? ==> data == old(data) && home == old(home) && pools[i].free == old(pools[i].free)
      ensures p.Some? ==>
                var k := old(pools[i].free)[0];
                p.value == pools[i].SlotAt(k) && p.value > 0 && p.value !in old(data) && p.value !in old(home)
                && home == old(home)[p.value := (i, k)] && pools[i].free == old(pools[i].free)[1..]
      ensures p.Some? ==> p.value in data && |data[p.value]| == pools[i].slotSz && data == old(data)[p.value := data[p.value]]
    {
      hide CoherentAs, Layout, Pool.Valid;
      ghost var free := pools[i].free;
      PoolIsValid(i);
      PoolsDiffer(i);
      LiveNotFree(i);
      if free != [] {
        pools[i].HeadIsOnce();
        FreeSlotIsNotLive(i, free[0]);
        pools[i].SlotInside(free[0]);
      }
      p := pools[i].Alloc();
      assert LiveSlotsKept(i);
      StaysCoherent(i);
      if p.Some? {
        Record(p.value, i, free[0]);
      }
    }

    /** A slot of pool `i`, if it has one. */
    method TakeFrom(i: nat) returns (p: Option<nat>)
      requires Valid() && i < |pools|
      modifies this`home, this`data, pools[i], mem
      ensures Valid()
      ensures p.None? <==> old(pools[i].free) == []
      ensures p.None? ==> data == old(data) && home == old(home) && pools[i].free == old(pools[i].free)
      ensures p.Some? ==>
                p.value > 0 && p.value !in old(data) && home == old(home)[p.value := (i, old(pools[i].free)[0])]
                && pools[i].free == old(pools[i].free)[1..]
      ensures p.Some? ==> p.value in data && |data[p.value]| == pools[i].slotSz && data == old(data)[p.value := data[p.value]]
    {
      assert Layout();
      hide Coherent, Layout, AllClaimed;
      ghost var frees := Frees();
      PoolsDiffer(i);
      p := TakeSlot(i);
      FreesAfter(i);
      if p.Some? {
        TakeLeavesNoGap(frees, old(home), i);
      }
    }

    /** Only the free list of pool `i` changed. */
    twostate lemma FreesAfter(i: nat)
      requires i < |pools| && forall j :: 0 <= j < |pools| && j != i ==> pools[j].free == old(pools[j].free)
      ensures Frees() == old(Frees())[i := pools[i].free]
    {
    }

    lemma PoolsDiffer(i: nat)
      requires Layout() && i < |pools|
      ensures forall j :: 0 <= j < |pools| && j != i ==> pools[j] != pools[i]
    {
    }

    /** The address of a free slot is not that of a live block. */
    lemma FreeSlotIsNotLive(i: nat, k: nat)
      requires Coherent() && i < |pools| && k < pools[i].numSlots && k in pools[i].free
      ensures pools[i].SlotAt(k) !in data && pools[i].SlotAt(k) !in home
    {
      hide Pool.Valid;
      var p := pools[i].SlotAt(k);
      pools[i].SlotInside(k);
      if p in home {
        var (j, l) := home[p];
        SlotRoutes(i, k, j);
        SlotRoutes(j, l, j);
        if k != l {
          pools[i].SlotsApart(if k < l then k else l, if k < l then l else k);
        }
      }
    }

    /** The pool of a live pool block, and what is known of its slot. */
    method HomeOf(p: int) returns (i: nat, ghost k: nat)
      requires Coherent() && p in home
      ensures home[p] == (i, k) && p in data && Layout() && i < |pools| && k < pools[i].numSlots
      ensures pools[i].Valid() && k !in pools[i].free && p == pools[i].SlotAt(k) && data[p] == pools[i].SlotBytes(k)
      ensures forall q :: q in home && q != p ==> home[q] != (i, k)
    {
      hide HeapOk;
      HomeIsNotHeap(p);
      NoOtherBlockAt(p);
      var poolidx := PoolFromPtr(p);
      i, k := poolidx, home[p].1;
    }

    /** A slot that holds no live block becomes free. */
    method ReleaseSlot(i: nat, p: int, ghost k: nat)
      requires Coherent() && i < |pools| && k < pools[i].numSlots && p == pools[i].SlotAt(k)
      requires pools[i].Valid() && k !in pools[i].free && forall q :: q in home ==> home[q] != (i, k)
      modifies pools[i], mem
      ensures Coherent() && pools[i].free == [k] + old(pools[i].free)
    {
      LiveNotFree(i);
      PoolsDiffer(i);
      pools[i].SlotInside(k);
      hide Coherent, Pool.Valid;
      pools[i].Free(p, k);
      assert LiveSlotsKept(i);
      StaysCoherent(i);
    }

    /** The part of `GiveBack` that concerns the blocks that stay live. */
    method GiveSlot(p: int)
      requires Coherent() && p in home && home[p].0 < |pools|
      modifies this`home, this`data, pools[home[p].0], mem
      ensures Coherent() && home == old(home) - {p} && data == old(data) - {p}
      ensures var (i, k) := old(home)[p]; pools[i].free == [k] + old(pools[i].free)
    {
      hide Coherent, Layout, Pool.Valid;
      var i, k := HomeOf(p);
      Forget(p);
      ReleaseSlot(i, p, k);
    }

    lemma LiveNotFree(i: nat)
      requires Coherent() && i < |pools|
      ensures forall q :: q in home && home[q].0 == i ==> home[q].1 !in pools[i].free
    {
      hide Pool.Valid;
    }

    lemma NoOtherBlockAt(p: int)
      requires Coherent() && p in home
      ensures forall q :: q in home && q != p ==> home[q] != home[p]
    {
      hide Pool.Valid;
    }

    /** The block at `p` returns to the pool it came from. */
    method GiveBack(p: int)
      requires Valid() && p in home && home[p].0 < |pools|
      modifies this`home, this`data, pools[home[p].0], mem
      ensures Valid() && home == old(home) - {p} && data == old(data) - {p}
      ensures var (i, k) := old(home)[p]; pools[i].free == [k] + old(pools[i].free) && HeadsItsPool((i, k))
    {
      assert Layout();
      hide Coherent, Layout, AllClaimed;
      ghost var frees, i := Frees(), home[p].0;
      PoolsDiffer(i);
      GiveSlot(p);
      GiveLeavesNoGap(frees, old(home), p);
      FreesAfter(i);
    }

    // ---- bytes of live blocks ------------------------------------------------------

    /** `p` could be handed out by the heap for a block of `n` bytes. */
    ghost predicate HeapMayGive(p: int, n: nat)
      reads this
    {
      p !in heap && Clear(mem.Length, heap, p, n)
    }

    method WriteSlot(p: int, offset: nat, bytes: seq<byte>)
      requires Coherent() && p in home && p in data && offset + |bytes| <= |data[p]|
      modifies this`home, this`data, mem
      ensures Coherent() && home == old(home)
      ensures data == old(data)[p := Overwritten(old(data)[p], offset, bytes)]
    {
      hide Coherent, Layout, Pool.Valid, Pool.Layout;
      var i, k := HomeOf(p);
      assert pools[i].slotSz > 0 by { SlotsHaveSize(i); }
      var slot := pools[i].Idx(p, k);
      Forget(p);
      WriteUnclaimed(i, slot, offset, bytes);
      Record(p, i, k);
    }

    lemma SlotsHaveSize(i: nat)
      requires Layout() && i < |pools|
      ensures pools[i].slotSz > 0
    {
    }

    /** Write into a slot that is neither free nor recorded as live. */
    method WriteUnclaimed(i: nat, k: nat, offset: nat, bytes: seq<byte>)
      requires Coherent() && i < |pools| && k < pools[i].numSlots && k !in pools[i].free
      requires offset + |bytes| <= pools[i].slotSz && forall q :: q in home ==> home[q] != (i, k)
      modifies mem
      ensures Coherent() && pools[i].SlotBytes(k) == Overwritten(old(pools[i].SlotBytes(k)), offset, bytes)
    {
      hide Pool.Valid;
      pools[i].ClientWrite(k, offset, bytes);
      StaysCoherent(i);
    }

    /** Store `bytes` at `offset` of live block `p`. */
    method Write(p: int, offset: nat, bytes: seq<byte>)
      requires Valid() && p in data && offset + |bytes| <= |data[p]|
      modifies this`heap, this`home, this`data, mem
      ensures Valid() && home == old(home)
      ensures data == old(data)[p := Overwritten(old(data)[p], offset, bytes)]
    {
      hide AllClaimed, PoolsOk, HomeOk, HeapOk;
      var i := PoolFromPtr(p);
      if i == -1 {
        WriteHeap(p, offset, bytes);
      } else {
        WriteSlot(p, offset, bytes);
      }
    }

    method WriteHeap(p: int, offset: nat, bytes: seq<byte>)
      requires Coherent() && p in data && p !in home && offset + |bytes| <= |data[p]|
      modifies this`heap, this`data
      ensures Coherent() && data == old(data)[p := Overwritten(old(data)[p], offset, bytes)]
    {
      assert p in heap && heap[p] == data[p];
      HeapRewritten(heap, home, data, p, Overwritten(heap[p], offset, bytes));
      hide CoherentAs;
      var block := Overwritten(heap[p], offset, bytes);
      heap, data := heap[p := block], data[p := block];
    }

    /** The first `n` bytes of live block `p`. */
    method Read(p: int, n: nat) returns (bytes: seq<byte>)
      requires Valid() && p in data && n <= |data[p]|
      ensures bytes == data[p][..n]
    {
      hide Pool.Valid;
      var i := PoolFromPtr(p);
      if i == -1 {
        bytes := heap[p][..n];
      } else {
        pools[i].SlotInside(home[p].1);
        bytes := mem[p..p + n];
      }
    }

    // ---- the interface -------------------------------------------------------------

    /** Pool `i` is too small for `sz` bytes or has nothing left. */
    ghost predicate CannotServe(i: nat, sz: nat)
      requires i < |pools|
      reads pools
    {
      pools[i].slotSz < sz || pools[i].free == []
    }

    /** None of the first `n` pools can serve, with these free lists. */
    ghost predicate NoneServes(frees: seq<seq<nat>>, n: nat, sz: nat)
      requires n <= |pools| == |frees|
    {
      forall j :: 0 <= j < n ==> pools[j].slotSz < sz || frees[j] == []
    }

    /** The loop of `arena_alloc` over the pools: the pool whose slot it takes, or none. */
    method TakeFirstFit(sz: nat) returns (p: Option<int>, i: nat)
      requires Valid()
      modifies this`home, this`data, pools, mem
      ensures Valid() && i <= |pools| && NoneServes(old(Frees()), i, sz)
      ensures p.None? ==> i == |pools| && data == old(data) && home == old(home)
      ensures p.Some? ==> i < |pools| && sz <= pools[i].slotSz && old(Frees())[i] != []
      ensures p.Some? ==>
                p.value != 0 && p.value !in old(data) && p.value in data && |data[p.value]| == pools[i].slotSz
                && data == old(data)[p.value := data[p.value]]
                && home == old(home)[p.value := (i, old(Frees())[i][0])]
    {
      ValidLayout();
      hide Valid, Layout;
      var pidx := PoolFromSize(sz);
      if pidx == -1 {
        return None, |pools|;
      }
      i, p := pidx, None;
      ghost var frees := Frees();
      while i < |pools|
        invariant pidx <= i <= |pools| && Valid() && data == old(data) && home == old(home)
        invariant Frees() == frees == old(Frees()) && NoneServes(frees, i, sz)
      {
        SizesAscend(pidx, i);
        PoolsDiffer(i);
        label before:
        var q := TakeFrom(i);
        if q.Some? {
          return Some(q.value), i;
        }
        FreesAfter@before(i);
        i := i + 1;
      }
    }

    lemma ValidLayout()
      requires Valid()
      ensures Layout()
    {
    }

    /** `arena_alloc`; `reply` is what `calloc` would return. */
    method Alloc(sz: nat, reply: Option<int>) returns (p: Option<int>, cap: nat)
      requires Valid() && (reply.Some? ==> HeapMayGive(reply.value, sz))
      modifies this, pools, mem
      ensures Valid()
      ensures p.None? ==> data == old(data)
      ensures p.Some? ==> p.value != 0 && p.value !in old(data) && p.value in data
      ensures p.Some? ==> |data[p.value]| == cap >= sz && data == old(data)[p.value := data[p.value]]
      ensures home == if p.Some? && p.value in home then old(home)[p.value := home[p.value]] else old(home)
      ensures p.Some? && p.value in home ==>
                var i := home[p.value].0;
                i < |pools| && cap == pools[i].slotSz && !old(CannotServe(i, sz)) && forall j :: 0 <= j < i ==> old(CannotServe(j, sz))
      ensures p.None? || p.value !in home ==> forall j :: 0 <= j < |pools| ==> old(CannotServe(j, sz))
      ensures p.Some? && p.value !in home ==> allowHeap && p == reply && cap == sz
      ensures p.None? ==> !allowHeap || reply.None?
      ensures p.Some? ==> cap == sz || cap < INT_LIMIT
    {
      ValidLayout();
      hide Valid, Layout;
      var i;
      p, i := TakeFirstFit(sz);
      assert forall j :: 0 <= j < i ==> old(CannotServe(j, sz));
      hide NoneServes, CannotServe, Frees;
      if p.Some? {
        SizesAscend(i, i);
        return p, pools[i].slotSz;
      }
      if !allowHeap {
        return None, 0;
      }
      if reply.Some? {
        AddHeap(reply.value, seq(sz, i => 0));
      }
      return reply, sz;
    }

    lemma HeapGrown(h: map<int, seq<byte>>, hm: map<int, (nat, nat)>, d: map<int, seq<byte>>, p: int, block: seq<byte>)
      requires CoherentAs(h, hm, d) && p !in h && p !in hm && Clear(mem.Length, h, p, |block|) && allowHeap
      ensures CoherentAs(h[p := block], hm, d[p := block])
    {
      hide PoolsOk, HoldsAt, Layout;
    }

    lemma HeapShrunk(h: map<int, seq<byte>>, hm: map<int, (nat, nat)>, d: map<int, seq<byte>>, p: int)
      requires CoherentAs(h, hm, d) && p in h && p !in hm
      ensures CoherentAs(h - {p}, hm, d - {p})
    {
      hide PoolsOk, HoldsAt, Layout, Outside;
    }

    lemma HeapRewritten(h: map<int, seq<byte>>, hm: map<int, (nat, nat)>, d: map<int, seq<byte>>, p: int, block: seq<byte>)
      requires CoherentAs(h, hm, d) && p in h && p !in hm && |block| == |h[p]|
      ensures CoherentAs(h[p := block], hm, d[p := block])
    {
      hide PoolsOk, HoldsAt, Layout, Outside;
    }

    /** The address the heap answers is not that of a live block. */
    lemma HeapIsNotHome(p: int, n: nat)
      requires Coherent() && HeapMayGive(p, n)
      ensures p !in home
    {
      if p in home {
        HomeIsNotHeap(p);
      }
    }

    /** The heap hands out `p`, holding `block`. */
    method AddHeap(p: int, block: seq<byte>)
      requires Valid() && HeapMayGive(p, |block|) && allowHeap
      modifies this`heap, this`data
      ensures Valid() && p !in old(data) && p !in home
      ensures data == old(data)[p := block]
    {
      HeapIsNotHome(p, |block|);
      assert p !in data;
      HeapGrown(heap, home, data, p, block);
      hide CoherentAs, AllClaimed;
      heap, data := heap[p := block], data[p := block];
    }

    /** The heap takes back `p`. */
    method DropHeap(p: int)
      requires Valid() && p in heap
      modifies this`heap, this`data
      ensures Valid() && p !in data && p !in home
      ensures heap == old(heap) - {p} && data == old(data) - {p}
    {
      if p in home {
        HomeIsNotHeap(p);
      }
      HeapShrunk(heap, home, data, p);
      hide CoherentAs, AllClaimed;
      heap, data := heap - {p}, data - {p};
    }

    /** `arena_free`: the block goes back where it came from. */
    method Free(p: int)
      requires Valid() && p in data
      modifies this, pools, mem
      ensures Valid() && data == old(data) - {p} && home == old(home) - {p}
      ensures p in old(home) ==> var (i, k) := old(home)[p]; pools[i].free == [k] + old(pools[i].free)
      ensures p in old(home) ==> HeadsItsPool(old(home)[p])
    {
      hide Pool.Valid;
      var i := PoolFromPtr(p);
      if i == -1 && allowHeap {
        DropHeap(p);
      } else {
        GiveBack(p);
      }
    }

    /** `realloc` may answer `r` for block `p` at size `n`: in place or elsewhere, clear of the others. */
    ghost predicate HeapMayMove(p: int, r: int, n: nat)
      reads this
    {
      (r == p || r !in heap) && Clear(mem.Length, heap - {p}, r, n)
    }

    /** `q` took the place of `p`, keeping what fits of its bytes; nothing else changed. */
    twostate predicate MovedTo(p: int, q: int, cap: nat)
      requires p in old(data)
      reads this
    {
      q in data && |data[q]| == cap && (q == p || q !in old(data))
      && data == (old(data) - {p})[q := data[q]]
      && Agree(old(data)[p], data[q])
    }

    /** The slot is free again and will be the next its pool hands out. */
    ghost predicate HeadsItsPool(at: (nat, nat))
      reads pools
    {
      at.0 < |pools| && |pools[at.0].free| > 0 && pools[at.0].free[0] == at.1
    }

    /** `arena_realloc`; `reply` and `junk` are what the heap answers and the bytes it adds. */
    method Realloc(p: int, newlen: nat, reply: Option<int>, junk: seq<byte>) returns (q: Option<int>, newcap: nat)
      requires Valid() && p in data && |junk| == newlen
      requires reply.Some? ==> if p in heap then HeapMayMove(p, reply.value, newlen) else HeapMayGive(reply.value, newlen)
      modifies this, pools, mem
      ensures Valid()
      ensures q.None? ==> data == old(data)
      ensures q.Some? ==> newcap >= newlen && MovedTo(p, q.value, newcap)
      ensures q.Some? && q.value != p && p in old(home) ==> HeadsItsPool(old(home)[p])
      ensures q.None? ==> reply.None? || !allowHeap
      ensures q.Some? ==> newcap == newlen || newcap < INT_LIMIT
    {
      hide Pool.Layout, PoolsOk, HomeOk, HeapOk, HeapMayGive, HeapMayMove;
      var poolidx := PoolFromPtr(p);
      if poolidx == -1 {
        q := ReallocHeap(p, newlen, reply, junk);
        return q, newlen;
      }
      HomeSize(p);
      var newidx := PoolFromSize(newlen);
      if newidx == poolidx {
        return Some(p), pools[poolidx].slotSz;
      }
      q, newcap := MoveBlock(p, poolidx, newlen, reply);
    }

    /** A pool block that must go elsewhere: allocate, copy, free. */
    method MoveBlock(p: int, poolidx: nat, newlen: nat, reply: Option<int>) returns (q: Option<int>, newcap: nat)
      requires Valid() && p in home && home[p].0 == poolidx && p in data
      requires reply.Some? ==> HeapMayGive(reply.value, newlen)
      modifies this, pools, mem
      ensures Valid()
      ensures q.None? ==> data == old(data) && (reply.None? || !allowHeap)
      ensures q.Some? ==> newcap >= newlen && MovedTo(p, q.value, newcap) && (newcap == newlen || newcap < INT_LIMIT)
      ensures q.Some? ==> HeadsItsPool(old(home)[p])
    {
      hide Valid, HeadsItsPool;
      q, newcap := Alloc(newlen, reply);
      if q.Some? {
        CopyAcross(p, q.value, poolidx, newlen, newcap);
        Free(p);
      }
    }

    method ReallocHeap(p: int, newlen: nat, reply: Option<int>, junk: seq<byte>) returns (q: Option<int>)
      requires Valid() && p in heap && |junk| == newlen
      requires reply.Some? ==> HeapMayMove(p, reply.value, newlen)
      modifies this`heap, this`data
      ensures Valid() && q == reply
      ensures q.None? ==> data == old(data)
      ensures q.Some? ==> MovedTo(p, q.value, newlen)
    {
      hide PoolsOk, HomeOk;
      if reply.Some? {
        var kept := if |heap[p]| < newlen then |heap[p]| else newlen;
        var block := heap[p][..kept] + junk[kept..];
        assert allowHeap;
        DropHeap(p);
        AddHeap(reply.value, block);
      }
      q := reply;
    }

    lemma SizesAscend(i: nat, j: nat)
      requires Layout() && i < |pools| && j < |pools|
      ensures i < j ==> pools[i].slotSz <= pools[j].slotSz
      ensures j < i ==> pools[j].slotSz <= pools[i].slotSz
      ensures pools[i].slotSz < INT_LIMIT && pools[j].slotSz < INT_LIMIT
    {
    }

    /** The size of the copy `arena_realloc` makes, case by case: as many bytes as both blocks have. */
    method CopySize(p: int, newp: int, poolidx: nat, newlen: nat, cap: nat) returns (kept: nat)
      requires Valid() && p in home && home[p].0 == poolidx && p in data && newp in data && |data[newp]| == cap
      requires newp in home ==> cap == pools[home[newp].0].slotSz
      requires newp !in home ==> cap == newlen
      ensures kept == if |data[p]| < cap then |data[p]| else cap
    {
      hide CoherentAs, Complete, Layout;
      HomeSize(p);
      if newp in home {
        HomeSize(newp);
        SizesAscend(poolidx, home[newp].0);
      }
      var newidx := PoolFromPtr(newp);
      var oldsz := pools[poolidx].slotSz;
      if newidx == -1 {
        kept := if oldsz < newlen then oldsz else newlen;
      } else if newidx > poolidx {
        kept := oldsz;
      } else {
        kept := pools[newidx].slotSz;
      }
    }

    /** The three `memcpy` calls of `arena_realloc`. */
    method CopyAcross(p: int, newp: int, poolidx: nat, newlen: nat, cap: nat)
      requires Valid() && p in home && home[p].0 == poolidx && p in data && newp in data && newp != p && |data[newp]| == cap
      requires newp in home ==> cap == pools[home[newp].0].slotSz
      requires newp !in home ==> cap == newlen
      modifies this, mem
      ensures Valid() && home == old(home)
      ensures newp in data && |data[newp]| == cap && data == old(data)[newp := data[newp]]
      ensures Agree(old(data)[p], data[newp])
    {
      hide Valid;
      var kept := CopySize(p, newp, poolidx, newlen, cap);
      var bytes := Read(p, kept);
      Write(newp, 0, bytes);
    }
  }

  /** The two blocks hold the same bytes as far as both reach. */
  ghost predicate Agree(a: seq<byte>, b: seq<byte>) {
    forall i :: 0 <= i < |a| && i < |b| ==> a[i] == b[i]
  }
}
