/** Whole runs of a pool: any sequence of allocations, frees of live slots and client writes. */
module MemPoolRuns {
  import opened Options
  import opened Bytes
  import opened MemPool

  datatype Op =
    | Take
    | Give(slot: nat)
    | Scribble(slot: nat, offset: nat, bytes: seq<byte>)

  /** The fully threaded pool: a stack of free slots, popped and pushed at the front. */
  function StackStep(free: seq<nat>, op: Op): (seq<nat>, Option<nat>) {
    match op
    case Take => if free == [] then ([], None) else (free[1..], Some(free[0]))
    case Give(slot) => ([slot] + free, None)
    case Scribble(_, _, _) => (free, None)
  }

  /** Clients give back and write only what they hold. */
  predicate LegalOp(numSlots: nat, slotSz: nat, free: seq<nat>, op: Op) {
    match op
    case Take => true
    case Give(slot) => slot < numSlots && slot !in free
    case Scribble(slot, offset, bytes) => slot < numSlots && slot !in free && offset + |bytes| <= slotSz
  }

  predicate Legal(numSlots: nat, slotSz: nat, free: seq<nat>, ops: seq<Op>)
    decreases |ops|
  {
    ops != [] ==>
      LegalOp(numSlots, slotSz, free, ops[0]) && Legal(numSlots, slotSz, StackStep(free, ops[0]).0, ops[1..])
  }

  /** The answers of the stack to a run. */
  function StackRun(free: seq<nat>, ops: seq<Op>): (r: (seq<nat>, seq<Option<nat>>))
    ensures |r.1| == |ops|
    decreases |ops|
  {
    if ops == [] then (free, [])
    else
      var (free', out) := StackStep(free, ops[0]);
      var (last, outs) := StackRun(free', ops[1..]);
      (last, [out] + outs)
  }

  /** The address a slot number of the stack stands for in the pool. */
  function Address(pool: Pool, k: Option<nat>): Option<nat> {
    if k.None? then None else Some(pool.SlotAt(k.value))
  }

  method Apply(pool: Pool, op: Op) returns (out: Option<nat>)
    requires pool.Valid() && LegalOp(pool.numSlots, pool.slotSz, pool.free, op)
    modifies pool, pool.mem
    ensures pool.Valid()
    ensures pool.free == StackStep(old(pool.free), op).0
    ensures out == Address(pool, StackStep(old(pool.free), op).1)
  {
    out := None;
    match op {
      case Take => out := pool.Alloc();
      case Give(slot) => pool.Free(pool.SlotAt(slot), slot);
      case Scribble(slot, offset, bytes) => pool.ClientWrite(slot, offset, bytes);
    }
  }

  /** The lazily threaded pool answers every run as the fully threaded stack does. */
  method RunPool(pool: Pool, ops: seq<Op>) returns (outs: seq<Option<nat>>)
    requires pool.Valid() && Legal(pool.numSlots, pool.slotSz, pool.free, ops)
    modifies pool, pool.mem
    ensures pool.Valid()
    ensures pool.free == StackRun(old(pool.free), ops).0
    ensures |outs| == |ops|
    ensures forall i :: 0 <= i < |ops| ==> outs[i] == Address(pool, StackRun(old(pool.free), ops).1[i])
  {
    if ops == [] {
      return [];
    }
    var out := Apply(pool, ops[0]);
    var rest := RunPool(pool, ops[1..]);
    outs := [out] + rest;
  }

  // ---- what clients see ---------------------------------------------------------

  ghost predicate AllLive(numSlots: nat, live: set<nat>) {
    forall k: nat :: k < numSlots ==> k in live
  }

  /**
   * A run seen from outside, with `live` the slots held so far: an allocation hands out
   * a slot nobody holds, and fails exactly when every slot is held.
   */
  ghost predicate SafeRun(numSlots: nat, live: set<nat>, ops: seq<Op>, outs: seq<Option<nat>>)
    requires |ops| == |outs|
    decreases |ops|
  {
    ops != [] ==>
    match ops[0]
    case Take =>
      (outs[0].None? <==> AllLive(numSlots, live))
      && (outs[0].Some? ==> outs[0].value < numSlots && outs[0].value !in live)
      && SafeRun(numSlots, if outs[0].Some? then live + {outs[0].value} else live, ops[1..], outs[1..])
    case Give(slot) => slot in live && SafeRun(numSlots, live - {slot}, ops[1..], outs[1..])
    case Scribble(slot, _, _) => slot in live && SafeRun(numSlots, live, ops[1..], outs[1..])
  }

  /** `free` lists, once each, exactly the slots that are not live. */
  ghost predicate Complement(numSlots: nat, live: set<nat>, free: seq<nat>) {
    (forall k: nat :: k in live <==> k < numSlots && k !in free)
    && (forall i :: 0 <= i < |free| ==> free[i] < numSlots)
    && forall i, j :: 0 <= i < j < |free| ==> free[i] != free[j]
  }

  /** Every legal run of the stack, and so of the pool, is safe. */
  lemma {:induction false} StackRunIsSafe(numSlots: nat, slotSz: nat, live: set<nat>, free: seq<nat>, ops: seq<Op>)
    requires Complement(numSlots, live, free) && Legal(numSlots, slotSz, free, ops)
    ensures SafeRun(numSlots, live, ops, StackRun(free, ops).1)
    decreases |ops|
  {
    if ops != [] {
      var (free', out) := StackStep(free, ops[0]);
      assert StackRun(free, ops).1[1..] == StackRun(free', ops[1..]).1;
      match ops[0] {
        case Take =>
          if free == [] {
            StackRunIsSafe(numSlots, slotSz, live, free, ops[1..]);
          } else {
            assert free[0] in free;
            assert free == [free[0]] + free';
            StackRunIsSafe(numSlots, slotSz, live + {free[0]}, free', ops[1..]);
          }
        case Give(slot) =>
          StackRunIsSafe(numSlots, slotSz, live - {slot}, free', ops[1..]);
        case Scribble(_, _, _) =>
          StackRunIsSafe(numSlots, slotSz, live, free, ops[1..]);
      }
    }
  }

  /** A pool fresh from `mempool_create_from_buffer` is safe over every legal run. */
  lemma FreshPoolIsSafe(numSlots: nat, slotSz: nat, ops: seq<Op>)
    requires Legal(numSlots, slotSz, AllSlots(numSlots), ops)
    ensures SafeRun(numSlots, {}, ops, StackRun(AllSlots(numSlots), ops).1)
  {
    var free: seq<nat> := AllSlots(numSlots);
    AllSlotsAreThere(numSlots);
    StackRunIsSafe(numSlots, slotSz, {}, free, ops);
  }

  /**
   * A new pool, over every legal run: the addresses it answers are those of slots `slots`, no slot
   * held is handed out again, and an allocation fails exactly when all slots are held.
   */
  method RunFreshPool(mem: array<byte>, base: nat, elemSz: nat, numSlots: nat, ops: seq<Op>)
    returns (outs: seq<Option<nat>>, ghost slots: seq<Option<nat>>)
    requires 2 <= numSlots < INT_LIMIT && elemSz >= 1 && AlignTo(elemSz) < INT_LIMIT && base + numSlots * AlignTo(elemSz) <= mem.Length
    requires Legal(numSlots, AlignTo(elemSz), AllSlots(numSlots), ops)
    modifies mem
    ensures |outs| == |slots| == |ops| && SafeRun(numSlots, {}, ops, slots)
    ensures forall i :: 0 <= i < |ops| ==>
              outs[i] == if slots[i].None? then None else Some(base + slots[i].value * AlignTo(elemSz))
  {
    hide AlignTo, Pool.Valid, Pool.SlotAt;
    var pool := new Pool(mem, base, elemSz, numSlots);
    outs := RunPool(pool, ops);
    slots := StackRun(AllSlots(numSlots), ops).1;
    FreshPoolIsSafe(numSlots, AlignTo(elemSz), ops);
    forall i | 0 <= i < |ops|
      ensures outs[i] == if slots[i].None? then None else Some(base + slots[i].value * AlignTo(elemSz))
    {
      if slots[i].Some? {
        pool.SlotAtIsProduct(slots[i].value);
      }
    }
  }
}
