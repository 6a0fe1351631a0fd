/**
 * A pool of equal slots in a shared buffer. Free slots carry the free list in
 * their own first eight bytes; slots never used yet form one untouched run
 * described by a single header.
 */
module MemPool {
  import opened Options
  import opened Bytes

  const ALIGNMENT: nat := 16
  const HEADER_SIZE: nat := 16  // sizeof(struct mempool)

  function AlignTo(n: nat): (r: nat)
    ensures n <= r < n + ALIGNMENT && r % ALIGNMENT == 0
  {
    (n + (ALIGNMENT - 1)) / ALIGNMENT * ALIGNMENT
  }

  lemma {:induction false} MultipleAtLeast(k: nat, d: nat)
    requires k >= 1
    ensures k * d >= d
  {
    if k > 1 {
      MultipleAtLeast(k - 1, d);
      assert k * d == (k - 1) * d + d;
    }
  }

  lemma SameQuotient(d: nat, q: nat, r: nat, q': nat, r': nat)
    requires q * d + r == q' * d + r' && r < d && r' < d
    ensures q == q'
  {
    if q != q' {
      var lo, hi := if q < q' then q else q', if q < q' then q' else q;
      assert (hi - lo) * d == hi * d - lo * d;
      MultipleAtLeast(hi - lo, d);
    }
  }

  lemma QuotientStep(x: nat, d: nat)
    requires d > 0
    ensures (x + d) / d == x / d + 1
  {
    var q, r := x / d, x % d;
    assert (q + 1) * d == q * d + d;
    SameQuotient(d, q + 1, r, (x + d) / d, (x + d) % d);
  }

  /** Every slot, first to last: the free list of a new pool. */
  ghost function AllSlots(n: nat): seq<nat> {
    seq(n, i => i)
  }

  lemma AllSlotsAreThere(n: nat)
    ensures forall k: nat :: k < n ==> k in AllSlots(n)
  {
    forall k: nat | k < n
      ensures k in AllSlots(n)
    {
      assert AllSlots(n)[k] == k;
    }
  }

  class Pool {
    const mem: array<byte>
    const base: nat  // address of slot 0
    const numSlots: nat
    const slotSz: nat
    var freeHead: int
    ghost var free: seq<nat>  // free slots in the order they will be handed out
    ghost var singles: nat    // how many of them have a header of their own

    /** `_slot`: the address `base + i * slotSz`, written as repeated addition. */
    function SlotAt(i: nat): nat {
      if i == 0 then base else SlotAt(i - 1) + slotSz
    }

    function End(): nat {
      SlotAt(numSlots)
    }

    lemma {:induction false} SlotAtIsProduct(i: nat)
      ensures SlotAt(i) == base + i * slotSz
    {
      if i > 0 {
        SlotAtIsProduct(i - 1);
        assert i * slotSz == (i - 1) * slotSz + slotSz;
      }
    }

    ghost predicate Layout() {
      2 <= numSlots < INT_LIMIT && 16 <= slotSz < INT_LIMIT && slotSz % ALIGNMENT == 0 && End() <= mem.Length
    }

    lemma {:induction false} SlotsApart(i: nat, j: nat)
      requires i < j
      ensures SlotAt(i) + slotSz <= SlotAt(j)
      decreases j
    {
      if i < j - 1 {
        SlotsApart(i, j - 1);
      }
    }

    lemma SlotInside(i: nat)
      requires i < numSlots
      ensures base <= SlotAt(i) && SlotAt(i) + slotSz <= End()
    {
      SlotsApart(i, numSlots);
    }

    function NextAt(i: nat): int
      requires Layout() && i < numSlots
      reads mem
    {
      SlotInside(i);
      IntAt(mem, SlotAt(i))
    }

    function CountAt(i: nat): int
      requires Layout() && i < numSlots
      reads mem
    {
      SlotInside(i);
      IntAt(mem, SlotAt(i) + 4)
    }

    /** The bytes a client sees in slot `i`. */
    function SlotBytes(i: nat): (r: seq<byte>)
      requires Layout() && i < numSlots
      reads mem
      ensures |r| == slotSz
    {
      SlotInside(i);
      mem[SlotAt(i)..SlotAt(i) + slotSz]
    }

    ghost predicate Distinct()
      reads this
    {
      (forall i :: 0 <= i < |free| ==> free[i] < numSlots)
      && forall i, j :: 0 <= i < j < |free| ==> free[i] != free[j]
    }

    /** Singles, each pointing at the next free slot, then at most one untouched run reaching the last slot. */
    ghost predicate Threaded()
      requires Layout() && Distinct()
      reads this, mem
    {
      singles <= |free|
      && freeHead == HeadOf(0)
      && (forall i :: 0 <= i < singles ==> SingleAt(free[i], HeadOf(i + 1)))
      && (singles < |free| ==> RunFrom(free[singles..]))
    }

    /** The slot at position `i` of the free list, or -1 past its end. */
    ghost function HeadOf(i: nat): int
      reads this
    {
      if i < |free| then free[i] else -1
    }

    ghost predicate SingleAt(i: nat, next: int)
      requires Layout() && i < numSlots
      reads mem
    {
      NextAt(i) == next && CountAt(i) == 1
    }

    /** `run` is all slots from its first to the last of the pool, under one header. */
    ghost predicate RunFrom(run: seq<nat>)
      requires Layout() && |run| > 0 && run[0] < numSlots
      reads mem
    {
      NextAt(run[0]) == -1 && CountAt(run[0]) == |run| == numSlots - run[0]
      && forall j :: 0 <= j < |run| ==> run[j] == run[0] + j
    }

    ghost predicate Valid()
      reads this, mem
    {
      Layout() && Distinct() && Threaded()
    }

    /** `mempool_create_from_buffer`: two headers are written whatever the number of slots. */
    constructor (mem: array<byte>, base: nat, elemSz: nat, numSlots: nat)
      requires 2 <= numSlots < INT_LIMIT && elemSz >= 1 && AlignTo(elemSz) < INT_LIMIT && base + numSlots * AlignTo(elemSz) <= mem.Length
      modifies mem
      ensures Valid() && this.mem == mem && this.base == base && this.numSlots == numSlots
      ensures slotSz == AlignTo(elemSz)
      ensures free == AllSlots(numSlots)
      ensures forall a :: 0 <= a < mem.Length && !(base <= a < End()) ==> mem[a] == old(mem[a])
    {
      this.mem, this.base, this.numSlots := mem, base, numSlots;
      slotSz := AlignTo(elemSz);
      freeHead := 0;
      free := AllSlots(numSlots);
      singles := 1;
      new;
      SlotAtIsProduct(numSlots);
      WriteHeader(0, 1, 1);
      WriteHeader(1, -1, numSlots - 1);
      assert free[1..][0] == 1;
    }

    method WriteHeader(i: nat, next: int32, count: int32)
      requires Layout() && i < numSlots
      modifies mem
      ensures NextAt(i) == next && CountAt(i) == count
      ensures forall k :: 0 <= k < numSlots && k != i ==> SlotBytes(k) == old(SlotBytes(k))
      ensures forall k :: 0 <= k < numSlots && k != i ==> NextAt(k) == old(NextAt(k)) && CountAt(k) == old(CountAt(k))
      ensures forall a :: 0 <= a < mem.Length && !(base <= a < End()) ==> mem[a] == old(mem[a])
    {
      SlotInside(i);
      StoreInt(mem, SlotAt(i), next);
      label mid:
      StoreInt(mem, SlotAt(i) + 4, count);
      assert mem[SlotAt(i)..SlotAt(i) + 4] == old@mid(mem[SlotAt(i)..SlotAt(i) + 4]);
      OtherSlotsKept(i);
    }

    /** The slot handed out next is a slot of the pool, and is not in the rest of the free list. */
    lemma HeadIsOnce()
      requires Valid() && free != []
      ensures free[0] < numSlots && free[0] !in free[1..]
    {
    }

    /** `mempool_alloc`: the head of the free list, extending the list into the untouched run when that is what is left. */
    method Alloc() returns (p: Option<nat>)
      requires Valid()
      modifies this, mem
      ensures Valid()
      ensures p.None? <==> old(free) == []
      ensures p.None? ==> free == []
      ensures p.Some? ==> p.value == SlotAt(old(free)[0]) && free == old(free)[1..]
      ensures forall k :: 0 <= k < numSlots && k !in free ==> SlotBytes(k) == old(SlotBytes(k))
      ensures forall a :: 0 <= a < mem.Length && !(base <= a < End()) ==> mem[a] == old(mem[a])
    {
      hide SlotAt, NextAt, CountAt, SlotBytes;
      if freeHead == -1 {
        return None;
      }
      var s := freeHead;
      var count := CountAt(s);
      ghost var rest := free[1..];
      if count == 1 {
        freeHead := NextAt(s);
        free, singles := rest, if singles > 0 then singles - 1 else 0;
        assert singles < |free| ==> free[singles..] == old(free[singles..]);
        return Some(SlotAt(s));
      } else if count > 1 {
        assert singles == 0 && free[0..] == free && rest[0] == s + 1;
        WriteHeader(s + 1, -1, count - 1);
        freeHead := if s + 1 == numSlots then -1 else freeHead + 1;
        free := rest;
        assert free[0..] == free;
        return Some(SlotAt(s));
      } else {
        return None;
      }
    }

    /** `_idx`. */
    method Idx(p: nat, ghost k: nat) returns (idx: nat)
      requires slotSz > 0 && p == SlotAt(k)
      ensures idx == k
    {
      IndexOfSlot(k);
      idx := (p - base) / slotSz;
    }

    /** `mempool_free`: the slot becomes the head of the free list. */
    method Free(p: nat, ghost k: nat)
      requires Valid() && k < numSlots && k !in free && p == SlotAt(k)
      modifies this, mem
      ensures Valid() && free == [k] + old(free)
      ensures forall j :: 0 <= j < numSlots && j != k ==> SlotBytes(j) == old(SlotBytes(j))
      ensures forall a :: 0 <= a < mem.Length && !(base <= a < End()) ==> mem[a] == old(mem[a])
    {
      hide SlotAt, NextAt, CountAt, SlotBytes;
      var idx := Idx(p, k);
      WriteHeader(idx, freeHead, 1);
      assert Threaded() by {
        assert forall i :: 0 <= i < |free| ==> free[i] != idx;
        assert singles < |free| ==> free[singles..][0] == free[singles];
      }
      freeHead := idx;
      Push(idx);
    }

    /** The freed slot, already holding its header, goes in front of the free list. */
    ghost method Push(k: nat)
      requires Layout() && Distinct() && k < numSlots && k !in free && freeHead == k
      requires singles <= |free| && SingleAt(k, HeadOf(0))
      requires forall i :: 0 <= i < singles ==> SingleAt(free[i], HeadOf(i + 1))
      requires singles < |free| ==> RunFrom(free[singles..])
      modifies this`free, this`singles
      ensures Valid() && free == [k] + old(free)
    {
      free, singles := [k] + free, singles + 1;
      assert free[singles..] == old(free[singles..]);
    }

    lemma {:induction false} IndexOfSlot(k: nat)
      requires slotSz > 0
      ensures base <= SlotAt(k) && (SlotAt(k) - base) / slotSz == k
    {
      if k > 0 {
        IndexOfSlot(k - 1);
        QuotientStep(SlotAt(k - 1) - base, slotSz);
      }
    }

    /** Whatever the client writes into a live slot, headers included, the free list survives. */
    method ClientWrite(k: nat, offset: nat, bytes: seq<byte>)
      requires Valid() && k < numSlots && k !in free && offset + |bytes| <= slotSz
      modifies mem
      ensures Valid()
      ensures SlotBytes(k) == Overwritten(old(SlotBytes(k)), offset, bytes)
      ensures forall j :: 0 <= j < numSlots && j != k ==> SlotBytes(j) == old(SlotBytes(j))
      ensures forall a :: 0 <= a < mem.Length && !(base <= a < End()) ==> mem[a] == old(mem[a])
    {
      hide Threaded;
      SlotInside(k);
      var p := SlotAt(k) + offset;
      CopyIn(p, bytes);
      OtherSlotsKept(k);
      ThreadKept();
    }

    method CopyIn(p: nat, bytes: seq<byte>)
      requires p + |bytes| <= mem.Length
      modifies mem
      ensures forall a :: 0 <= a < mem.Length && !(p <= a < p + |bytes|) ==> mem[a] == old(mem[a])
      ensures forall a :: p <= a < p + |bytes| ==> mem[a] == bytes[a - p]
    {
      for n := 0 to |bytes|
        invariant forall a :: 0 <= a < mem.Length && !(p <= a < p + n) ==> mem[a] == old(mem[a])
        invariant forall a :: p <= a < p + n ==> mem[a] == bytes[a - p]
      {
        mem[p + n] := bytes[n];
      }
    }

    /** The free list depends on the headers of free slots only. */
    twostate lemma ThreadKept()
      requires old(Valid()) && unchanged(this)
      requires forall j :: 0 <= j < numSlots && j in free ==> NextAt(j) == old(NextAt(j)) && CountAt(j) == old(CountAt(j))
      ensures Valid()
    {
      assert singles < |free| ==> free[singles..][0] == free[singles];
    }

    /** A pool is unaffected by what happens outside its slots. */
    twostate lemma UntouchedOutside()
      requires old(Valid()) && unchanged(this)
      requires forall a :: base <= a < End() ==> mem[a] == old(mem[a])
      ensures Valid() && forall k :: 0 <= k < numSlots ==> SlotBytes(k) == old(SlotBytes(k))
    {
      forall k | 0 <= k < numSlots
        ensures SlotBytes(k) == old(SlotBytes(k))
        ensures NextAt(k) == old(NextAt(k)) && CountAt(k) == old(CountAt(k))
      {
        SlotInside(k);
        HeaderFromBytes(k);
      }
      ThreadKept();
    }

    /** `mempool_has_ptr`: between the first and the last slot. */
    function HasPtr(p: int): bool
      requires Layout()
    {
      SlotAt(0) <= p <= SlotAt(numSlots - 1)
    }

    /** Writing inside slot `k` changes no other slot. */
    twostate lemma OtherSlotsKept(k: nat)
      requires Layout() && k < numSlots
      requires forall a :: 0 <= a < mem.Length && !(SlotAt(k) <= a < SlotAt(k) + slotSz) ==> mem[a] == old(mem[a])
      ensures forall j :: 0 <= j < numSlots && j != k ==> SlotBytes(j) == old(SlotBytes(j))
      ensures forall j :: 0 <= j < numSlots && j != k ==> NextAt(j) == old(NextAt(j)) && CountAt(j) == old(CountAt(j))
    {
      forall j | 0 <= j < numSlots && j != k
        ensures SlotBytes(j) == old(SlotBytes(j))
        ensures NextAt(j) == old(NextAt(j)) && CountAt(j) == old(CountAt(j))
      {
        SlotsApart(if j < k then j else k, if j < k then k else j);
        SlotInside(j);
        HeaderFromBytes(j);
      }
    }

    /** A slot's header is part of its bytes. */
    twostate lemma HeaderFromBytes(k: nat)
      requires Layout() && k < numSlots && SlotBytes(k) == old(SlotBytes(k))
      ensures NextAt(k) == old(NextAt(k)) && CountAt(k) == old(CountAt(k))
    {
      SlotInside(k);
      var p := SlotAt(k);
      forall a | p <= a < p + 8
        ensures mem[a] == old(mem[a])
      {
        assert mem[a] == SlotBytes(k)[a - p] && old(mem[a]) == old(SlotBytes(k))[a - p];
      }
      assert mem[p..p + 4] == old(mem[p..p + 4]);
      assert mem[p + 4..p + 8] == old(mem[p + 4..p + 8]);
    }
  }
}
