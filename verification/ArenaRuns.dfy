/** Whole runs of an arena: any script of requests, resizings, releases and stores by a client. */
module ArenaRuns {
  import opened Options
  import opened Sequences
  import opened Bytes
  import opened MemPool
  import opened Arena
  import opened DynStr

  /** Blocks are named by their position among those the client holds. */
  datatype Op =
    | Request(size: nat)
    | Regrow(i: nat, size: nat)
    | Release(i: nat)
    | Store(i: nat, offset: nat, bytes: seq<byte>)

  /** The client holds exactly the live blocks, each once. */
  ghost predicate Holding(a: Arena, held: seq<int>)
    reads a
  {
    (forall i :: 0 <= i < |held| ==> held[i] in a.data)
    && (forall p :: p in a.data ==> p in held)
    && forall i, j :: 0 <= i < j < |held| ==> held[i] != held[j]
  }

  ghost function Contents(a: Arena, held: seq<int>): seq<seq<byte>>
    requires forall i :: 0 <= i < |held| ==> held[i] in a.data
    reads a
  {
    seq(|held|, i requires 0 <= i < |held| reads a requires held[i] in a.data => a.data[held[i]])
  }

  /** What one operation may do to the contents of the blocks held; a name nobody holds does nothing. */
  ghost predicate Step(before: seq<seq<byte>>, op: Op, ok: bool, after: seq<seq<byte>>) {
    match op
    case Request(size) =>
      if ok then |after| == |before| + 1 && after[..|before|] == before && |after[|before|]| >= size
      else after == before
    case Regrow(i, size) =>
      if ok && i < |before| then
        |after| == |before| && after == before[i := after[i]] && |after[i]| >= size && Agree(before[i], after[i])
      else after == before
    case Release(i) => after == if i < |before| then Without(before, i) else before
    case Store(i, offset, bytes) =>
      after == if i < |before| && offset + |bytes| <= |before[i]|
               then before[i := Overwritten(before[i], offset, bytes)] else before
  }

  /** A slot is free exactly when the client does not hold it. */
  ghost predicate Accounted(a: Arena, held: seq<int>)
    reads a.pools
  {
    forall i, k :: 0 <= i < |a.pools| && 0 <= k < a.pools[i].numSlots ==>
      (k in a.pools[i].free <==> a.pools[i].SlotAt(k) !in held)
  }

  lemma HoldingAccounts(a: Arena, held: seq<int>)
    requires a.Valid() && Holding(a, held)
    ensures Accounted(a, held)
  {
    forall i, k | 0 <= i < |a.pools| && 0 <= k < a.pools[i].numSlots
      ensures k in a.pools[i].free <==> a.pools[i].SlotAt(k) !in held
    {
      if k in a.pools[i].free {
        a.FreeSlotIsNotLive(i, k);
      } else {
        a.TakenSlotIsLive(i, k);
      }
    }
  }

  /** The client holds every slot that is large enough. */
  ghost predicate AllFittingHeld(a: Arena, held: seq<int>, size: nat) {
    forall i, k :: 0 <= i < |a.pools| && 0 <= k < a.pools[i].numSlots && a.pools[i].slotSz >= size ==>
      a.pools[i].SlotAt(k) in held
  }

  /** No pool can serve a request exactly when every slot that is large enough is held. */
  lemma FittingHeldIff(a: Arena, held: seq<int>, size: nat)
    requires a.Valid() && Holding(a, held)
    ensures AllFittingHeld(a, held, size) <==> forall j :: 0 <= j < |a.pools| ==> a.CannotServe(j, size)
  {
    HoldingAccounts(a, held);
    hide a.Valid, Holding, Pool.SlotAt;
    forall j | 0 <= j < |a.pools|
      ensures AllFittingHeld(a, held, size) ==> a.CannotServe(j, size)
    {
      a.FreeInRange(j);
      assert a.pools[j].free != [] ==> a.pools[j].free[0] in a.pools[j].free;
    }
    if !AllFittingHeld(a, held, size) {
      var i, k :| 0 <= i < |a.pools| && 0 <= k < a.pools[i].numSlots && a.pools[i].slotSz >= size && a.pools[i].SlotAt(k) !in held;
      assert !a.CannotServe(i, size);
    }
  }

  /** The number of bytes of a live block, which its client was told when it got it. */
  method SizeOf(a: Arena, p: int) returns (n: nat)
    requires a.Valid() && p in a.data
    ensures n == |a.data[p]|
  {
    var i := a.PoolFromPtr(p);
    if i == -1 {
      n := |a.heap[p]|;
    } else {
      a.HomeSize(p);
      n := a.pools[i].slotSz;
    }
  }

  /** A request: the heap is asked exactly when every slot that is large enough is held. */
  method Ask(a: Arena, held: seq<int>, size: nat, env: Heap, refuse: bool) returns (p: Option<int>)
    requires Ready(a, env) && Holding(a, held)
    modifies a, a.pools, a.mem
    ensures a.Valid()
    ensures p.None? ==> refuse && a.data == old(a.data)
    ensures p.Some? ==> p.value !in old(a.data) && p.value in a.data && |a.data[p.value]| >= size
    ensures p.Some? ==> a.data == old(a.data)[p.value := a.data[p.value]]
    ensures p.Some? && p.value in a.home <==> !AllFittingHeld(a, held, size)
  {
    FittingHeldIff(a, held, size);
    hide a.Valid, Holding, AllFittingHeld, a.CannotServe;
    var q, _ := a.Alloc(size, if refuse then None else Some(env.calloc(a.heap, size)));
    p := q;
  }

  method ApplyRequest(a: Arena, held: seq<int>, size: nat, env: Heap, refuse: bool) returns (held': seq<int>, ok: bool)
    requires Ready(a, env) && Holding(a, held)
    modifies a, a.pools, a.mem
    ensures a.Valid() && Holding(a, held') && (!ok ==> refuse)
    ensures Step(old(Contents(a, held)), Request(size), ok, Contents(a, held'))
    ensures ok && |held'| > 0 && held'[|held'| - 1] in a.home <==> !AllFittingHeld(a, held, size)
  {
    hide a.Valid, AllFittingHeld;
    var p := Ask(a, held, size, env, refuse);
    ok := p.Some?;
    held' := if ok then held + [p.value] else held;
  }

  method ApplyRegrow(a: Arena, held: seq<int>, i: nat, size: nat, env: Heap, refuse: bool) returns (held': seq<int>, ok: bool)
    requires Ready(a, env) && Holding(a, held)
    modifies a, a.pools, a.mem
    ensures a.Valid() && Holding(a, held') && (!ok ==> refuse)
    ensures Step(old(Contents(a, held)), Regrow(i, size), ok, Contents(a, held'))
  {
    hide a.Valid;
    if i >= |held| {
      return held, true;
    }
    var p := held[i];
    var reply := if refuse then None else Some(if p in a.heap then env.realloc(a.heap, p, size) else env.calloc(a.heap, size));
    var q, _ := a.Realloc(p, size, reply, env.junk(size));
    ok := q.Some?;
    held' := if ok then held[i := q.value] else held;
    if ok {
      ReplacedMembers(held, i, q.value);
    }
  }

  lemma ReplacedMembers(held: seq<int>, i: nat, q: int)
    requires i < |held|
    ensures q in held[i := q] && forall x :: x in held && x != held[i] ==> x in held[i := q]
  {
    var held' := held[i := q];
    assert held'[i] == q;
    forall x | x in held && x != held[i]
      ensures x in held'
    {
      var j :| 0 <= j < |held| && held[j] == x;
      assert held'[j] == x;
    }
  }

  method ApplyRelease(a: Arena, held: seq<int>, i: nat) returns (held': seq<int>)
    requires a.Valid() && Holding(a, held)
    modifies a, a.pools, a.mem
    ensures a.Valid() && Holding(a, held')
    ensures Step(old(Contents(a, held)), Release(i), true, Contents(a, held'))
  {
    hide a.Valid;
    if i >= |held| {
      return held;
    }
    WithoutAt(held, i);
    WithoutAt(Contents(a, held), i);
    WithoutMembers(held, i);
    hide Without;
    a.Free(held[i]);
    held' := Without(held, i);
    assert Contents(a, held') == Without(old(Contents(a, held)), i);
  }

  lemma WithoutAt<T>(s: seq<T>, i: nat)
    requires i < |s|
    ensures |Without(s, i)| == |s| - 1
    ensures forall k :: 0 <= k < |s| - 1 ==> Without(s, i)[k] == if k < i then s[k] else s[k + 1]
  {
  }

  lemma WithoutMembers(held: seq<int>, i: nat)
    requires i < |held| && forall j, k :: 0 <= j < k < |held| ==> held[j] != held[k]
    ensures forall p :: p in Without(held, i) <==> p in held && p != held[i]
    ensures forall j, k :: 0 <= j < k < |Without(held, i)| ==> Without(held, i)[j] != Without(held, i)[k]
  {
    forall p | p in held && p != held[i]
      ensures p in Without(held, i)
    {
      var j :| 0 <= j < |held| && held[j] == p;
      assert Without(held, i)[if j < i then j else j - 1] == p;
    }
  }

  method ApplyStore(a: Arena, held: seq<int>, i: nat, offset: nat, bytes: seq<byte>)
    requires a.Valid() && Holding(a, held)
    modifies a, a.pools, a.mem
    ensures a.Valid() && Holding(a, held)
    ensures Step(old(Contents(a, held)), Store(i, offset, bytes), true, Contents(a, held))
  {
    hide a.Valid;
    if i < |held| {
      var n := SizeOf(a, held[i]);
      if offset + |bytes| <= n {
        a.Write(held[i], offset, bytes);
      }
    }
  }

  method Apply(a: Arena, held: seq<int>, op: Op, env: Heap, refuse: bool) returns (held': seq<int>, ok: bool)
    requires Ready(a, env) && Holding(a, held)
    modifies a, a.pools, a.mem
    ensures a.Valid() && Holding(a, held') && (!ok ==> refuse)
    ensures Step(old(Contents(a, held)), op, ok, Contents(a, held'))
    ensures op.Request? ==> (ok && |held'| > 0 && held'[|held'| - 1] in a.home <==> !AllFittingHeld(a, held, op.size))
  {
    hide a.Valid, Step, Holding, AllFittingHeld;
    held', ok := held, true;
    match op {
      case Request(size) => held', ok := ApplyRequest(a, held, size, env, refuse);
      case Regrow(i, size) => held', ok := ApplyRegrow(a, held, i, size, env, refuse);
      case Release(i) => held' := ApplyRelease(a, held, i);
      case Store(i, offset, bytes) => ApplyStore(a, held, i, offset, bytes);
    }
  }

  /** A run of operations, each doing what `Step` allows; one fails only where the heap refuses. */
  ghost predicate Explains(before: seq<seq<byte>>, ops: seq<Op>, refusals: seq<bool>, after: seq<seq<byte>>)
    requires |refusals| == |ops|
    decreases |ops|
  {
    if ops == [] then after == before
    else
      exists ok, middle :: (!ok ==> refusals[0]) && Step(before, ops[0], ok, middle)
                           && Explains(middle, ops[1..], refusals[1..], after)
  }

  /** The blocks held share no byte. */
  ghost predicate Disjoint(a: Arena, held: seq<int>)
    requires forall i :: 0 <= i < |held| ==> held[i] in a.data
    reads a
  {
    forall i, j :: 0 <= i < |held| && 0 <= j < |held| && held[i] < held[j] && |a.data[held[i]]| > 0 ==>
      held[i] + |a.data[held[i]]| <= held[j]
  }

  /**
   * Over every run, whatever other blocks are requested, regrown, released or written, each block keeps
   * the bytes its client stored, a regrown block those that fit; the blocks held are pairwise disjoint and
   * are all that is live, and every slot that is not held is free again.
   */
  method RunArena(a: Arena, held: seq<int>, ops: seq<Op>, env: Heap, refusals: seq<bool>) returns (held': seq<int>)
    requires Ready(a, env) && Holding(a, held) && |refusals| == |ops|
    modifies a, a.pools, a.mem
    ensures Ready(a, env) && Holding(a, held') && Disjoint(a, held') && Accounted(a, held')
    ensures Explains(old(Contents(a, held)), ops, refusals, Contents(a, held'))
    decreases |ops|
  {
    hide a.Valid, Step, Holding, Accounted, AllFittingHeld;
    if ops == [] {
      HeldApart(a, held);
      HoldingAccounts(a, held);
      return held;
    }
    var mid, ok := Apply(a, held, ops[0], env, refusals[0]);
    held' := RunArena(a, mid, ops[1..], env, refusals[1..]);
  }

  lemma HeldApart(a: Arena, held: seq<int>)
    requires a.Valid() && Holding(a, held)
    ensures forall i :: 0 <= i < |held| ==> held[i] in a.data
    ensures Disjoint(a, held)
  {
    hide a.Valid;
    forall i, j | 0 <= i < |held| && 0 <= j < |held| && held[i] < held[j] && |a.data[held[i]]| > 0
      ensures held[i] + |a.data[held[i]]| <= held[j]
    {
      a.LiveBlocksDisjoint(held[i], held[j]);
    }
  }
}
