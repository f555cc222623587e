/** What the invariant means for a client: safety bounds over every reachable state of every interleaving. */
module Accounting {
  import opened Protocol
  import opened Sums
  import opened Invariant
  import opened Arith

  /** Real bytes of a live block whose slack has been charged. */
  function AdjustedOf(pool: Pool): Block -> nat {
    (b: Block) => if b.pool == pool && !b.status.Charging? then b.size else 0
  }

  /** Requested bytes of a live block whose slack has not been charged. */
  function UnadjustedOf(pool: Pool): Block -> nat {
    (b: Block) => if b.pool == pool && b.status.Charging? then b.requested else 0
  }

  /** Slack that is in the allocator but not yet in a counter. */
  function UnchargedSlackOf(): Block -> nat {
    (b: Block) => if b.status.Charging? && b.requested <= b.size then b.size - b.requested else 0
  }

  function SizeOf(): Block -> nat {
    (b: Block) => b.size
  }

  function SizeIn(pool: Pool): Block -> nat {
    (b: Block) => if b.pool == pool then b.size else 0
  }

  function FreedOf(pool: Pool): Op -> nat {
    (op: Op) => if op.pool == pool && op.Freed? then op.size else 0
  }

  function ChargeAll(): Block -> nat {
    (b: Block) => if b.status.Charging? then b.requested else b.size
  }

  lemma BlocksSplit(heap: map<Ptr, Block>, pool: Pool)
    ensures MapSum(heap, ChargeOf(pool)) == MapSum(heap, AdjustedOf(pool)) + MapSum(heap, UnadjustedOf(pool))
  {
    SumSplit(heap, ChargeOf(pool), AdjustedOf(pool), UnadjustedOf(pool));
  }

  lemma OpsSplit(ops: map<Tid, Op>, pool: Pool)
    ensures MapSum(ops, HoldOf(pool)) == MapSum(ops, ReserveOf(pool)) + MapSum(ops, FreedOf(pool))
  {
    SumSplit(ops, HoldOf(pool), ReserveOf(pool), FreedOf(pool));
  }

  lemma UsedIsAccounted(c: Config, st: State, pool: Pool)
    requires c.Valid() && Reachable(c, st)
    ensures st.Used(pool) == Accounted(st, pool)
  {
    ReachableInv(c, st);
  }

  /**
   Conservation. At every step a counter is the real bytes of the adjusted live blocks, plus the
   requested bytes of the allocations in flight (with a block or still without one), plus the real
   bytes of the blocks that were freed and are not yet un-charged.
   */
  lemma Conservation(c: Config, st: State, pool: Pool)
    requires c.Valid() && Reachable(c, st)
    ensures st.Used(pool) == MapSum(st.heap, AdjustedOf(pool))
                             + (MapSum(st.heap, UnadjustedOf(pool)) + MapSum(st.ops, ReserveOf(pool)))
                             + MapSum(st.ops, FreedOf(pool))
  {
    UsedIsAccounted(c, st, pool);
    BlocksSplit(st.heap, pool);
    OpsSplit(st.ops, pool);
  }

  /** No counter goes below zero, or below what one of its blocks or calls still holds. */
  lemma CountersCover(c: Config, st: State)
    requires c.Valid() && Reachable(c, st)
    ensures 0 <= st.exec && 0 <= st.storage
    ensures forall p :: p in st.heap && !st.heap[p].status.Charging? ==> st.heap[p].size <= st.Used(st.heap[p].pool)
    ensures forall t :: t in st.ops ==> HoldOf(st.ops[t].pool)(st.ops[t]) <= st.Used(st.ops[t].pool)
    ensures forall t :: t in st.ops && st.ops[t].Allocated? ==> st.ops[t].n <= st.Used(st.ops[t].pool)
  {
    ReachableInv(c, st);
    forall p | p in st.heap ensures ChargeOf(st.heap[p].pool)(st.heap[p]) <= st.Used(st.heap[p].pool) {
      SumMember(st.heap, p, ChargeOf(st.heap[p].pool));
    }
    forall t | t in st.ops ensures HoldOf(st.ops[t].pool)(st.ops[t]) <= st.Used(st.ops[t].pool) {
      SumMember(st.ops, t, HoldOf(st.ops[t].pool));
    }
    forall t | t in st.ops && st.ops[t].Allocated? ensures st.ops[t].n <= st.Used(st.ops[t].pool) {
      assert OpShape(c, st.heap, t, st.ops[t]);
      assert ChargeOf(st.ops[t].pool)(st.heap[st.ops[t].p]) == st.ops[t].n;
    }
  }

  /**
   Slack is charged with no quota check, so a counter can pass its limit, but never by more than one
   slack for each allocation that may be in flight, less one for each that is in flight now.
   */
  lemma OvershootBound(c: Config, st: State)
    requires c.Valid() && Reachable(c, st)
    ensures st.exec + st.storage + Pending(st) * c.slack <= c.total + c.inFlight * c.slack
    ensures st.storage + PendingStorage(st) * c.slack <= c.storageQuota + c.inFlight * c.slack
  {
    ReachableInv(c, st);
  }

  function NoBytes(): Block -> nat {
    (b: Block) => 0
  }

  lemma {:induction false} SumZero<K, V>(m: map<K, V>, f: V -> nat)
    requires forall k :: k in m ==> f(m[k]) == 0
    ensures MapSum(m, f) == 0
    decreases |m|
  {
    if m != map[] {
      var k :| k in m;
      assert (m - {k}).Keys == m.Keys - {k};
      SumRemove(m, k, f);
      SumZero(m - {k}, f);
    }
  }

  /** Slack not yet charged is at most one slack for each block that is still being charged. */
  lemma UnchargedPerBlock(c: Config, heap: map<Ptr, Block>)
    requires forall p :: p in heap ==> BlockShape(c, heap[p])
    ensures MapSum(heap, UnchargedSlackOf()) <= MapSum(heap, ChargingOf()) * c.slack
  {
    forall p | p in heap ensures UnchargedSlackOf()(heap[p]) <= NoBytes()(heap[p]) + ChargingOf()(heap[p]) * c.slack {
      assert BlockShape(c, heap[p]);
    }
    SumBound(heap, UnchargedSlackOf(), NoBytes(), ChargingOf(), c.slack);
    SumZero(heap, NoBytes());
  }

  lemma AllocatedPending(ops: map<Tid, Op>)
    ensures MapSum(ops, AllocatedOf()) <= MapSum(ops, PendingOf())
  {
    SumBound(ops, AllocatedOf(), PendingOf(), PendingOf(), 0);
  }

  /** There are at most as many unadjusted blocks as pending allocations, each with at most one slack. */
  lemma UnchargedSlackBound(c: Config, st: State)
    requires Inv(c, st)
    ensures MapSum(st.heap, UnchargedSlackOf()) <= Pending(st) * c.slack
  {
    UnchargedPerBlock(c, st.heap);
    AllocatedPending(st.ops);
    MulMono(MapSum(st.heap, ChargingOf()), Pending(st), c.slack);
  }

  /**
   Physical memory. What is live in the allocator at any instant exceeds the counters by at most the
   slack not yet charged, and never exceeds the managed memory by more than `inFlight` slacks.
   */
  lemma PhysicalBound(c: Config, st: State)
    requires c.Valid() && Reachable(c, st)
    ensures MapSum(st.heap, SizeOf()) <= st.exec + st.storage + MapSum(st.heap, UnchargedSlackOf())
    ensures MapSum(st.heap, SizeOf()) <= c.total + c.inFlight * c.slack
  {
    ReachableInv(c, st);
    assert forall p :: p in st.heap ==> BlockShape(c, st.heap[p]);
    SumSplit(st.heap, SizeOf(), ChargeAll(), UnchargedSlackOf());
    SumSplit(st.heap, ChargeAll(), ChargeOf(Exec), ChargeOf(Storage));
    UnchargedSlackBound(c, st);
  }

  /** Requested bytes are never oversubscribed, whatever the slack and however many threads. */
  lemma RequestsFit(c: Config, st: State)
    requires c.Valid() && Reachable(c, st)
    ensures Outstanding(st, Exec) + Outstanding(st, Storage) <= c.total
    ensures Outstanding(st, Storage) <= c.storageQuota
  {
    ReachableInv(c, st);
  }

  /**
   Guaranteed shares. Storage can not take the exec half away, and whatever exec borrows from the
   storage half is available to storage again once exec is back within its own half.
   */
  lemma GuaranteedShares(c: Config, st: State, pool: Pool, n: nat)
    requires c.Valid() && Reachable(c, st) && InRange(pool, n)
    ensures pool == Exec && st.exec + n <= c.execQuota - c.inFlight * c.slack ==> Granted(c, st, pool, n)
    ensures pool == Exec && st.exec + n <= c.execQuota - (c.inFlight - PendingStorage(st)) * c.slack ==>
              Granted(c, st, pool, n)
    ensures pool == Storage && st.exec <= c.execQuota && st.storage + n <= c.storageQuota ==> Granted(c, st, pool, n)
  {
    OvershootBound(c, st);
    assert 0 <= PendingStorage(st) * c.slack;
    assert (c.inFlight - PendingStorage(st)) * c.slack == c.inFlight * c.slack - PendingStorage(st) * c.slack;
  }

  lemma {:induction false} PendingAtMostOps(ops: map<Tid, Op>)
    ensures MapSum(ops, PendingOf()) <= |ops|
    decreases |ops|
  {
    if ops != map[] {
      var t :| t in ops;
      assert (ops - {t}).Keys == ops.Keys - {t};
      SumRemove(ops, t, PendingOf());
      PendingAtMostOps(ops - {t});
    }
  }

  lemma {:induction false} SubsetCardinality<T>(a: set<T>, b: set<T>)
    requires a <= b
    ensures |a| <= |b|
  {
    if a != {} {
      var x :| x in a;
      SubsetCardinality(a - {x}, b - {x});
    }
  }

  /** When at most `inFlight` threads make calls, one that is idle finds room for its allocation. */
  lemma ThreadsBoundInFlight(c: Config, st: State, t: Tid, threads: set<Tid>)
    requires |threads| <= c.inFlight
    requires st.ops.Keys <= threads && t in threads && t !in st.ops
    ensures Pending(st) < c.inFlight
  {
    PendingAtMostOps(st.ops);
    assert st.ops.Keys <= threads - {t};
    SubsetCardinality(st.ops.Keys, threads - {t});
  }

  /** `acts` can happen one after the other, however many allocations that puts in flight. */
  ghost predicate PossibleRun(c: Config, st: State, acts: seq<Action>)
    decreases |acts|
  {
    acts == [] || (Possible(c, st, acts[0]) && PossibleRun(c, Apply(c, st, acts[0]), acts[1..]))
  }

  /**
   With at most `inFlight` threads the bound on allocations in flight costs nothing: whatever they can
   do one step after the other is a legal interleaving.
   */
  lemma {:induction false} ThreadedRunLegal(c: Config, st: State, acts: seq<Action>, threads: set<Tid>)
    requires |threads| <= c.inFlight && st.ops.Keys <= threads
    requires forall i :: 0 <= i < |acts| ==> acts[i].t in threads
    requires PossibleRun(c, st, acts)
    ensures Legal(c, st, acts)
    ensures Run(c, st, acts).ops.Keys <= threads
    decreases |acts|
  {
    if acts != [] {
      var a := acts[0];
      if a.Request? {
        ThreadsBoundInFlight(c, st, a.t, threads);
      }
      assert Apply(c, st, a).ops.Keys <= st.ops.Keys + {a.t};
      ThreadedRunLegal(c, Apply(c, st, a), acts[1..], threads);
    }
  }

  // ----- no more allocations in flight than bytes -----

  /** A pending allocation holds at least one byte, so no more than `total` can be pending. */
  function AtMost(c: Config): nat {
    if c.inFlight <= c.total then c.inFlight else c.total
  }

  function Clamped(c: Config): Config {
    c.(inFlight := AtMost(c))
  }

  function ReservedOf(): Op -> nat {
    (op: Op) => if op.Reserved? || op.NoMemory? then 1 else 0
  }

  function HoldAll(): Op -> nat {
    (op: Op) =>
      match op
      case Reserved(_, n) => n
      case NoMemory(_, n) => n
      case Freed(_, size) => size
      case Allocated(_, _, _, _) => 0
      case SizeRead(_, _, _) => 0
  }

  lemma PendingOps(c: Config, heap: map<Ptr, Block>, ops: map<Tid, Op>)
    requires forall t :: t in ops ==> OpShape(c, heap, t, ops[t])
    ensures MapSum(ops, PendingOf())
            <= MapSum(ops, HoldOf(Exec)) + MapSum(ops, HoldOf(Storage)) + MapSum(ops, AllocatedOf())
  {
    forall t | t in ops ensures ReservedOf()(ops[t]) <= HoldAll()(ops[t]) {
      assert OpShape(c, heap, t, ops[t]);
    }
    SumSplit(ops, PendingOf(), ReservedOf(), AllocatedOf());
    SumBound(ops, ReservedOf(), HoldAll(), HoldAll(), 0);
    SumSplit(ops, HoldAll(), HoldOf(Exec), HoldOf(Storage));
  }

  lemma ChargingBlocks(c: Config, heap: map<Ptr, Block>)
    requires forall p :: p in heap ==> BlockShape(c, heap[p])
    ensures MapSum(heap, ChargingOf()) <= MapSum(heap, ChargeOf(Exec)) + MapSum(heap, ChargeOf(Storage))
  {
    forall p | p in heap ensures ChargingOf()(heap[p]) <= ChargeAll()(heap[p]) {
      assert BlockShape(c, heap[p]);
    }
    SumBound(heap, ChargingOf(), ChargeAll(), ChargeAll(), 0);
    SumSplit(heap, ChargeAll(), ChargeOf(Exec), ChargeOf(Storage));
  }

  /** There are no more pending allocations than bytes in the counters. */
  lemma PendingAtMostUsed(c: Config, st: State)
    requires Shape(c, st) && Ledger(st)
    ensures Pending(st) <= st.exec + st.storage
  {
    PendingOps(c, st.heap, st.ops);
    ChargingBlocks(c, st.heap);
  }

  lemma {:induction false} ClampedRun(c: Config, st: State, acts: seq<Action>)
    requires c.Valid() && Inv(c, st) && Legal(c, st, acts)
    ensures Legal(Clamped(c), st, acts) && Run(Clamped(c), st, acts) == Run(c, st, acts)
    decreases |acts|
  {
    if acts != [] {
      var a := acts[0];
      PendingAtMostUsed(c, st);
      assert Enabled(Clamped(c), st, a);
      StepKeeps(c, st, a);
      ClampedRun(c, Apply(c, st, a), acts[1..]);
    }
  }

  /** Allowing more allocations in flight than there are bytes allows no further state. */
  lemma ClampInFlight(c: Config, st: State)
    requires c.Valid() && Reachable(c, st)
    ensures Reachable(Clamped(c), st)
  {
    var acts :| Reaches(c, acts, st);
    EmptyInv(c, INITIAL);
    ClampedRun(c, INITIAL, acts);
    assert Reaches(Clamped(c), acts, st);
  }

  /** The overshoot, for the allocations that can really be in flight. */
  lemma ClampedBound(c: Config, st: State)
    requires c.Valid() && Reachable(c, st)
    ensures st.exec + st.storage + Pending(st) * c.slack <= c.total + AtMost(c) * c.slack
    ensures st.exec + st.storage <= c.total + AtMost(c) * c.slack
    ensures Pending(st) <= AtMost(c)
  {
    ClampInFlight(c, st);
    ReachableInv(Clamped(c), st);
    MulMono(0, Pending(st), c.slack);
  }

  /** Without unadjusted blocks a pool is charged the real size of everything that is live. */
  lemma ChargedAtRealSize(heap: map<Ptr, Block>, pool: Pool)
    requires forall p :: p in heap ==> heap[p].status.Owned?
    ensures MapSum(heap, ChargeOf(pool)) == MapSum(heap, SizeIn(pool))
  {
    SumBound(heap, ChargeOf(pool), SizeIn(pool), SizeIn(pool), 0);
    SumBound(heap, SizeIn(pool), ChargeOf(pool), ChargeOf(pool), 0);
  }

  lemma QuiescentBlocks(c: Config, st: State)
    requires Shape(c, st) && st.Quiescent()
    ensures forall p :: p in st.heap ==> st.heap[p].status.Owned?
  {
    assert forall p :: p in st.heap ==> Holder(st.ops, p, st.heap[p]);
  }

  lemma ReachableShape(c: Config, st: State)
    requires c.Valid() && Reachable(c, st)
    ensures Shape(c, st)
  {
    ReachableInv(c, st);
  }

  lemma NoOpsHoldNothing(ops: map<Tid, Op>, pool: Pool)
    requires ops == map[]
    ensures MapSum(ops, HoldOf(pool)) == 0
  {
  }

  lemma UsedIsCharged(c: Config, st: State, pool: Pool, ops: map<Tid, Op>)
    requires c.Valid() && Reachable(c, st) && ops == st.ops && |ops| == 0
    ensures st.Used(pool) == MapSum(st.heap, ChargeOf(pool))
  {
    UsedIsAccounted(c, st, pool);
    NoOpsHoldNothing(ops, pool);
  }

  /** With no call in progress the counters are exactly the real bytes of the live blocks of each pool. */
  lemma Quiescence(c: Config, st: State, pool: Pool)
    requires c.Valid() && Reachable(c, st) && st.Quiescent()
    ensures st.Used(pool) == MapSum(st.heap, SizeIn(pool))
    ensures forall p :: p in st.heap ==> st.heap[p].status.Owned?
  {
    ReachableShape(c, st);
    QuiescentBlocks(c, st);
    ChargedAtRealSize(st.heap, pool);
    UsedIsCharged(c, st, pool, st.ops);
  }

  /**
   Drain. Once every granted block has been freed and no call is in progress, the manager is back in
   its initial state, so every later request is decided as on a fresh manager.
   */
  lemma Drain(c: Config, st: State)
    requires c.Valid() && Reachable(c, st) && st.Quiescent() && st.heap == map[]
    ensures st == INITIAL
  {
    ReachableInv(c, st);
    EmptySums(st, Exec);
    EmptySums(st, Storage);
  }
}
