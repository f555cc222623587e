/** The inductive invariant of the protocol, and the proof that every step keeps it. */
module Invariant {
  import opened Protocol
  import opened Sums

  // ----- what each block and each call in progress contributes to the ledgers -----

  /** Bytes the pool's counter holds for a live block: its real size once the slack is charged. */
  function ChargeOf(pool: Pool): Block -> nat {
    (b: Block) => if b.pool != pool then 0 else if b.status.Charging? then b.requested else b.size
  }

  function RequestOf(pool: Pool): Block -> nat {
    (b: Block) => if b.pool == pool then b.requested else 0
  }

  function ChargingOf(): Block -> nat {
    (b: Block) => if b.status.Charging? then 1 else 0
  }

  /** Bytes the pool's counter holds for a call that has no live block: a reservation, or a free not yet un-charged. */
  function HoldOf(pool: Pool): Op -> nat {
    (op: Op) =>
      if op.pool != pool then 0
      else match op
           case Reserved(_, n) => n
           case NoMemory(_, n) => n
           case Freed(_, size) => size
           case Allocated(_, _, _, _) => 0
           case SizeRead(_, _, _) => 0
  }

  function ReserveOf(pool: Pool): Op -> nat {
    (op: Op) => if op.pool == pool && (op.Reserved? || op.NoMemory?) then op.n else 0
  }

  function PendingIn(pool: Pool): Op -> nat {
    (op: Op) => if op.pool == pool && op.Allocating() then 1 else 0
  }

  function AllocatedOf(): Op -> nat {
    (op: Op) => if op.Allocated? then 1 else 0
  }

  ghost function Pending(st: State): nat {
    MapSum(st.ops, PendingOf())
  }

  ghost function PendingStorage(st: State): nat {
    MapSum(st.ops, PendingIn(Storage))
  }

  /** What the blocks and the calls of a pool account for. */
  ghost function Accounted(st: State, pool: Pool): nat {
    MapSum(st.heap, ChargeOf(pool)) + MapSum(st.ops, HoldOf(pool))
  }

  /** Blocks marked as still being charged, less the calls that are charging one. */
  ghost function Unadjusted(st: State): int {
    MapSum(st.heap, ChargingOf()) - MapSum(st.ops, AllocatedOf())
  }

  /** Bytes requested by allocations that were granted and whose block, if any, is still live. */
  ghost function Outstanding(st: State, pool: Pool): nat {
    MapSum(st.heap, RequestOf(pool)) + MapSum(st.ops, ReserveOf(pool))
  }

  // ----- the invariant -----

  ghost predicate BlockShape(c: Config, b: Block) {
    InRange(b.pool, b.requested) && b.requested <= b.size <= b.requested + c.slack
  }

  ghost predicate OpShape(c: Config, heap: map<Ptr, Block>, t: Tid, op: Op) {
    match op
    case Reserved(pool, n) => InRange(pool, n)
    case NoMemory(pool, n) => InRange(pool, n)
    case Allocated(pool, n, p, size) => p in heap && heap[p] == Block(pool, n, size, Charging(t))
    case SizeRead(pool, p, size) =>
      p in heap && heap[p].pool == pool && heap[p].size == size && heap[p].status == Releasing(t)
    case Freed(pool, size) => 0 < size
  }

  /** A block that is not the client's is in the hands of exactly the call its status names. */
  ghost predicate Holder(ops: map<Tid, Op>, p: Ptr, b: Block) {
    match b.status
    case Charging(t) => t in ops && ops[t].Allocated? && ops[t].p == p
    case Releasing(t) => t in ops && ops[t].SizeRead? && ops[t].p == p
    case Owned => true
  }

  ghost predicate Shape(c: Config, st: State) {
    && (forall p :: p in st.heap ==> BlockShape(c, st.heap[p]))
    && (forall p :: p in st.heap ==> Holder(st.ops, p, st.heap[p]))
    && (forall t :: t in st.ops ==> OpShape(c, st.heap, t, st.ops[t]))
  }

  /** Each counter is exactly what its live blocks and its calls in progress account for. */
  ghost predicate Ledger(st: State) {
    && st.exec == Accounted(st, Exec)
    && st.storage == Accounted(st, Storage)
    && Unadjusted(st) == 0
  }

  /** `pending` allocations that may still add their slack keep the counter below its limit with one slack for each. */
  ghost predicate Below(used: int, pending: nat, limit: nat, c: Config) {
    used + pending * c.slack <= limit + c.inFlight * c.slack
  }

  /** How far the counters can pass the limits: one slack for each allocation that was ever in flight together. */
  ghost predicate Overshoot(c: Config, st: State) {
    && Pending(st) <= c.inFlight
    && Below(st.exec + st.storage, Pending(st), c.total, c)
    && Below(st.storage, PendingStorage(st), c.storageQuota, c)
  }

  ghost predicate Requests(c: Config, st: State) {
    && Outstanding(st, Exec) + Outstanding(st, Storage) <= c.total
    && Outstanding(st, Storage) <= c.storageQuota
  }

  ghost predicate Inv(c: Config, st: State) {
    Shape(c, st) && Ledger(st) && Overshoot(c, st) && Requests(c, st)
  }

  // ----- how the sums move -----

  /** All sums over `ops`, before and after the entry of `t` is replaced, relative to `ops` without `t`. */
  lemma OpsSet(ops: map<Tid, Op>, t: Tid, op: Op)
    ensures forall pool :: MapSum(ops[t := op], HoldOf(pool)) == MapSum(ops - {t}, HoldOf(pool)) + HoldOf(pool)(op)
    ensures forall pool :: MapSum(ops[t := op], ReserveOf(pool)) == MapSum(ops - {t}, ReserveOf(pool)) + ReserveOf(pool)(op)
    ensures forall pool :: MapSum(ops[t := op], PendingIn(pool)) == MapSum(ops - {t}, PendingIn(pool)) + PendingIn(pool)(op)
    ensures MapSum(ops[t := op], PendingOf()) == MapSum(ops - {t}, PendingOf()) + PendingOf()(op)
    ensures MapSum(ops[t := op], AllocatedOf()) == MapSum(ops - {t}, AllocatedOf()) + AllocatedOf()(op)
  {
    forall pool ensures MapSum(ops[t := op], HoldOf(pool)) == MapSum(ops - {t}, HoldOf(pool)) + HoldOf(pool)(op) {
      SumSet(ops, t, op, HoldOf(pool));
    }
    forall pool ensures MapSum(ops[t := op], ReserveOf(pool)) == MapSum(ops - {t}, ReserveOf(pool)) + ReserveOf(pool)(op) {
      SumSet(ops, t, op, ReserveOf(pool));
    }
    forall pool ensures MapSum(ops[t := op], PendingIn(pool)) == MapSum(ops - {t}, PendingIn(pool)) + PendingIn(pool)(op) {
      SumSet(ops, t, op, PendingIn(pool));
    }
    SumSet(ops, t, op, PendingOf());
    SumSet(ops, t, op, AllocatedOf());
  }

  lemma OpsAt(ops: map<Tid, Op>, t: Tid)
    requires t in ops
    ensures forall pool :: MapSum(ops, HoldOf(pool)) == MapSum(ops - {t}, HoldOf(pool)) + HoldOf(pool)(ops[t])
    ensures forall pool :: MapSum(ops, ReserveOf(pool)) == MapSum(ops - {t}, ReserveOf(pool)) + ReserveOf(pool)(ops[t])
    ensures forall pool :: MapSum(ops, PendingIn(pool)) == MapSum(ops - {t}, PendingIn(pool)) + PendingIn(pool)(ops[t])
    ensures MapSum(ops, PendingOf()) == MapSum(ops - {t}, PendingOf()) + PendingOf()(ops[t])
    ensures MapSum(ops, AllocatedOf()) == MapSum(ops - {t}, AllocatedOf()) + AllocatedOf()(ops[t])
  {
    OpsSet(ops, t, ops[t]);
    assert ops[t := ops[t]] == ops;
  }

  lemma OpsNew(ops: map<Tid, Op>, t: Tid, op: Op)
    requires t !in ops
    ensures forall pool :: MapSum(ops[t := op], HoldOf(pool)) == MapSum(ops, HoldOf(pool)) + HoldOf(pool)(op)
    ensures forall pool :: MapSum(ops[t := op], ReserveOf(pool)) == MapSum(ops, ReserveOf(pool)) + ReserveOf(pool)(op)
    ensures forall pool :: MapSum(ops[t := op], PendingIn(pool)) == MapSum(ops, PendingIn(pool)) + PendingIn(pool)(op)
    ensures MapSum(ops[t := op], PendingOf()) == MapSum(ops, PendingOf()) + PendingOf()(op)
    ensures MapSum(ops[t := op], AllocatedOf()) == MapSum(ops, AllocatedOf()) + AllocatedOf()(op)
  {
    OpsSet(ops, t, op);
    assert ops - {t} == ops;
  }

  lemma OpsReplace(ops: map<Tid, Op>, t: Tid, op: Op)
    requires t in ops
    ensures forall pool :: MapSum(ops[t := op], HoldOf(pool)) + HoldOf(pool)(ops[t]) == MapSum(ops, HoldOf(pool)) + HoldOf(pool)(op)
    ensures forall pool :: MapSum(ops[t := op], ReserveOf(pool)) + ReserveOf(pool)(ops[t]) == MapSum(ops, ReserveOf(pool)) + ReserveOf(pool)(op)
    ensures forall pool :: MapSum(ops[t := op], PendingIn(pool)) + PendingIn(pool)(ops[t]) == MapSum(ops, PendingIn(pool)) + PendingIn(pool)(op)
    ensures MapSum(ops[t := op], PendingOf()) + PendingOf()(ops[t]) == MapSum(ops, PendingOf()) + PendingOf()(op)
    ensures MapSum(ops[t := op], AllocatedOf()) + AllocatedOf()(ops[t]) == MapSum(ops, AllocatedOf()) + AllocatedOf()(op)
  {
    OpsSet(ops, t, op);
    OpsAt(ops, t);
  }

  lemma HeapSet(heap: map<Ptr, Block>, p: Ptr, b: Block)
    ensures forall pool :: MapSum(heap[p := b], ChargeOf(pool)) == MapSum(heap - {p}, ChargeOf(pool)) + ChargeOf(pool)(b)
    ensures forall pool :: MapSum(heap[p := b], RequestOf(pool)) == MapSum(heap - {p}, RequestOf(pool)) + RequestOf(pool)(b)
    ensures MapSum(heap[p := b], ChargingOf()) == MapSum(heap - {p}, ChargingOf()) + ChargingOf()(b)
  {
    forall pool ensures MapSum(heap[p := b], ChargeOf(pool)) == MapSum(heap - {p}, ChargeOf(pool)) + ChargeOf(pool)(b) {
      SumSet(heap, p, b, ChargeOf(pool));
    }
    forall pool ensures MapSum(heap[p := b], RequestOf(pool)) == MapSum(heap - {p}, RequestOf(pool)) + RequestOf(pool)(b) {
      SumSet(heap, p, b, RequestOf(pool));
    }
    SumSet(heap, p, b, ChargingOf());
  }

  lemma HeapNew(heap: map<Ptr, Block>, p: Ptr, b: Block)
    requires p !in heap
    ensures forall pool :: MapSum(heap[p := b], ChargeOf(pool)) == MapSum(heap, ChargeOf(pool)) + ChargeOf(pool)(b)
    ensures forall pool :: MapSum(heap[p := b], RequestOf(pool)) == MapSum(heap, RequestOf(pool)) + RequestOf(pool)(b)
    ensures MapSum(heap[p := b], ChargingOf()) == MapSum(heap, ChargingOf()) + ChargingOf()(b)
  {
    HeapSet(heap, p, b);
    assert heap - {p} == heap;
  }

  lemma HeapAt(heap: map<Ptr, Block>, p: Ptr)
    requires p in heap
    ensures forall pool :: MapSum(heap, ChargeOf(pool)) == MapSum(heap - {p}, ChargeOf(pool)) + ChargeOf(pool)(heap[p])
    ensures forall pool :: MapSum(heap, RequestOf(pool)) == MapSum(heap - {p}, RequestOf(pool)) + RequestOf(pool)(heap[p])
    ensures MapSum(heap, ChargingOf()) == MapSum(heap - {p}, ChargingOf()) + ChargingOf()(heap[p])
  {
    HeapSet(heap, p, heap[p]);
    assert heap[p := heap[p]] == heap;
  }

  lemma HeapReplace(heap: map<Ptr, Block>, p: Ptr, b: Block)
    requires p in heap
    ensures forall pool :: MapSum(heap[p := b], ChargeOf(pool)) + ChargeOf(pool)(heap[p]) == MapSum(heap, ChargeOf(pool)) + ChargeOf(pool)(b)
    ensures forall pool :: MapSum(heap[p := b], RequestOf(pool)) + RequestOf(pool)(heap[p]) == MapSum(heap, RequestOf(pool)) + RequestOf(pool)(b)
    ensures MapSum(heap[p := b], ChargingOf()) + ChargingOf()(heap[p]) == MapSum(heap, ChargingOf()) + ChargingOf()(b)
  {
    HeapSet(heap, p, b);
    HeapAt(heap, p);
  }

  /** What the counter holds covers every byte requested. */
  lemma OutstandingCharged(c: Config, st: State, pool: Pool)
    requires Shape(c, st)
    ensures Outstanding(st, pool) <= Accounted(st, pool)
  {
    SumBound(st.heap, RequestOf(pool), ChargeOf(pool), ChargeOf(pool), 0);
    SumBound(st.ops, ReserveOf(pool), HoldOf(pool), HoldOf(pool), 0);
  }

  // ----- every step keeps the invariant -----

  /** The counters move by exactly what the blocks and the calls account for. */
  ghost predicate LedgerMoves(st: State, st': State) {
    && Accounted(st', Exec) - st'.exec == Accounted(st, Exec) - st.exec
    && Accounted(st', Storage) - st'.storage == Accounted(st, Storage) - st.storage
    && Unadjusted(st') == Unadjusted(st)
  }

  /** The pending allocations, in all and of the storage pool, change by `d` when `pool` is concerned. */
  ghost predicate PendingMoves(st: State, st': State, pool: Pool, d: int) {
    && Pending(st') == Pending(st) + d
    && PendingStorage(st') == PendingStorage(st) + (if pool == Storage then d else 0)
  }

  ghost predicate RequestsShrink(st: State, st': State) {
    && Outstanding(st', Exec) <= Outstanding(st, Exec)
    && Outstanding(st', Storage) <= Outstanding(st, Storage)
  }

  lemma RequestMoves(c: Config, st: State, a: Action)
    requires a.Request? && Enabled(c, st, a) && Granted(c, st, a.pool, a.n)
    ensures LedgerMoves(st, Apply(c, st, a))
    ensures PendingMoves(st, Apply(c, st, a), a.pool, 1)
  {
    OpsNew(st.ops, a.t, Reserved(a.pool, a.n));
  }

  lemma MallocOkMoves(c: Config, st: State, a: Action)
    requires a.MallocOk? && Enabled(c, st, a)
    ensures LedgerMoves(st, Apply(c, st, a))
    ensures PendingMoves(st, Apply(c, st, a), st.ops[a.t].pool, 0)
    ensures RequestsShrink(st, Apply(c, st, a))
  {
    var st' := Apply(c, st, a);
    OpsReplace(st.ops, a.t, st'.ops[a.t]);
    HeapNew(st.heap, a.p, st'.heap[a.p]);
  }

  lemma MallocFailMoves(c: Config, st: State, a: Action)
    requires a.MallocFail? && Enabled(c, st, a)
    ensures LedgerMoves(st, Apply(c, st, a))
    ensures PendingMoves(st, Apply(c, st, a), st.ops[a.t].pool, 0)
    ensures RequestsShrink(st, Apply(c, st, a))
  {
    OpsReplace(st.ops, a.t, Apply(c, st, a).ops[a.t]);
  }

  lemma SettleMoves(c: Config, st: State, a: Action)
    requires Shape(c, st) && a.Settle? && Enabled(c, st, a)
    ensures LedgerMoves(st, Apply(c, st, a))
    ensures PendingMoves(st, Apply(c, st, a), st.ops[a.t].pool, -1)
    ensures RequestsShrink(st, Apply(c, st, a))
  {
    var st', p := Apply(c, st, a), st.ops[a.t].p;
    assert OpShape(c, st.heap, a.t, st.ops[a.t]);
    OpsAt(st.ops, a.t);
    HeapReplace(st.heap, p, st'.heap[p]);
  }

  lemma RollbackMoves(c: Config, st: State, a: Action)
    requires a.Rollback? && Enabled(c, st, a)
    ensures LedgerMoves(st, Apply(c, st, a))
    ensures PendingMoves(st, Apply(c, st, a), st.ops[a.t].pool, -1)
    ensures RequestsShrink(st, Apply(c, st, a))
  {
    OpsAt(st.ops, a.t);
  }

  lemma BeginFreeMoves(c: Config, st: State, a: Action)
    requires a.BeginFree? && Enabled(c, st, a)
    ensures LedgerMoves(st, Apply(c, st, a))
    ensures PendingMoves(st, Apply(c, st, a), a.pool, 0)
    ensures RequestsShrink(st, Apply(c, st, a))
  {
    var st' := Apply(c, st, a);
    OpsNew(st.ops, a.t, st'.ops[a.t]);
    HeapReplace(st.heap, a.p, st'.heap[a.p]);
  }

  lemma ReleaseMoves(c: Config, st: State, a: Action)
    requires Shape(c, st) && a.Release? && Enabled(c, st, a)
    ensures LedgerMoves(st, Apply(c, st, a))
    ensures PendingMoves(st, Apply(c, st, a), st.ops[a.t].pool, 0)
    ensures RequestsShrink(st, Apply(c, st, a))
  {
    var st' := Apply(c, st, a);
    assert OpShape(c, st.heap, a.t, st.ops[a.t]);
    OpsReplace(st.ops, a.t, st'.ops[a.t]);
    HeapAt(st.heap, st.ops[a.t].p);
  }

  lemma UnchargeMoves(c: Config, st: State, a: Action)
    requires a.Uncharge? && Enabled(c, st, a)
    ensures LedgerMoves(st, Apply(c, st, a))
    ensures PendingMoves(st, Apply(c, st, a), st.ops[a.t].pool, 0)
    ensures RequestsShrink(st, Apply(c, st, a))
  {
    OpsAt(st.ops, a.t);
  }

  lemma ShapeKept(c: Config, st: State, a: Action)
    requires Shape(c, st) && Enabled(c, st, a)
    ensures Shape(c, Apply(c, st, a))
  {
    var st' := Apply(c, st, a);
    assert a.t in st.ops ==> OpShape(c, st.heap, a.t, st.ops[a.t]);
    forall t | t in st'.ops ensures OpShape(c, st'.heap, t, st'.ops[t]) {
      assert t in st.ops ==> OpShape(c, st.heap, t, st.ops[t]);
    }
    forall p | p in st'.heap ensures BlockShape(c, st'.heap[p]) && Holder(st'.ops, p, st'.heap[p]) {
      assert p in st.heap ==> BlockShape(c, st.heap[p]) && Holder(st.ops, p, st.heap[p]);
    }
  }

  lemma PendingStorageLess(st: State)
    ensures PendingStorage(st) <= Pending(st)
  {
    SumBound(st.ops, PendingIn(Storage), PendingOf(), PendingOf(), 0);
  }

  /** Within the limit itself, any number of allocations up to `inFlight` may be pending. */
  lemma BelowLimit(used: int, pending: nat, limit: nat, c: Config)
    requires used <= limit && pending <= c.inFlight
    ensures Below(used, pending, limit, c)
  {
    assert pending * c.slack <= c.inFlight * c.slack;
  }

  /** An allocation that leaves flight pays for one slack; bytes given back need no allowance. */
  lemma BelowMoves(used: int, used': int, pending: nat, pending': nat, limit: nat, c: Config)
    requires Below(used, pending, limit, c)
    requires pending' <= pending
    requires used' <= used || (pending' < pending && used' <= used + c.slack)
    ensures Below(used', pending', limit, c)
  {
    var d := pending - pending';
    assert pending * c.slack == pending' * c.slack + d * c.slack;
    assert 1 <= d ==> c.slack <= d * c.slack;
  }

  /** A grant checks the limits, so they hold exactly, and what is in flight fits under the allowance. */
  lemma GrantKeeps(c: Config, st: State, a: Action)
    requires c.Valid() && Inv(c, st)
    requires a.Request? && Enabled(c, st, a) && Granted(c, st, a.pool, a.n)
    ensures Inv(c, Apply(c, st, a))
  {
    var st' := Apply(c, st, a);
    RequestMoves(c, st, a);
    ShapeKept(c, st, a);
    OutstandingCharged(c, st', Exec);
    OutstandingCharged(c, st', Storage);
    BelowLimit(st'.exec + st'.storage, Pending(st'), c.total, c);
    PendingStorageLess(st');
    if a.pool == Exec {
      OpsNew(st.ops, a.t, st'.ops[a.t]);
    } else {
      BelowLimit(st'.storage, PendingStorage(st'), c.storageQuota, c);
    }
  }

  /** Whatever takes no more than one slack per allocation leaving flight keeps the bounds. */
  lemma OvershootKept(c: Config, st: State, st': State, pool: Pool, d: nat)
    requires Overshoot(c, st) && PendingMoves(st, st', pool, 0 - d)
    requires st'.exec + st'.storage <= st.exec + st.storage + (if d == 0 then 0 else c.slack)
    requires st'.storage <= st.storage + (if d == 0 || pool == Exec then 0 else c.slack)
    ensures Overshoot(c, st')
  {
    BelowMoves(st.exec + st.storage, st'.exec + st'.storage, Pending(st), Pending(st'), c.total, c);
    BelowMoves(st.storage, st'.storage, PendingStorage(st), PendingStorage(st'), c.storageQuota, c);
  }

  lemma SettleKeeps(c: Config, st: State, a: Action)
    requires Inv(c, st) && a.Settle? && Enabled(c, st, a)
    ensures Inv(c, Apply(c, st, a))
  {
    assert OpShape(c, st.heap, a.t, st.ops[a.t]);
    assert BlockShape(c, st.heap[st.ops[a.t].p]);
    SettleMoves(c, st, a);
    ShapeKept(c, st, a);
    OvershootKept(c, st, Apply(c, st, a), st.ops[a.t].pool, 1);
  }

  lemma RollbackKeeps(c: Config, st: State, a: Action)
    requires Inv(c, st) && a.Rollback? && Enabled(c, st, a)
    ensures Inv(c, Apply(c, st, a))
  {
    RollbackMoves(c, st, a);
    ShapeKept(c, st, a);
    OvershootKept(c, st, Apply(c, st, a), st.ops[a.t].pool, 1);
  }

  /** The other steps move no counter up and put nothing in flight. */
  lemma QuietKeeps(c: Config, st: State, a: Action)
    requires c.Valid() && Inv(c, st) && Enabled(c, st, a)
    requires !a.Request? && !a.Settle? && !a.Rollback?
    ensures Inv(c, Apply(c, st, a))
  {
    match a {
      case MallocOk(_, _, _) => MallocOkMoves(c, st, a);
      case MallocFail(_) => MallocFailMoves(c, st, a);
      case BeginFree(_, _, _) => BeginFreeMoves(c, st, a);
      case Release(_) => ReleaseMoves(c, st, a);
      case Uncharge(_) => UnchargeMoves(c, st, a);
    }
    ShapeKept(c, st, a);
    OvershootKept(c, st, Apply(c, st, a), if a.BeginFree? then a.pool else st.ops[a.t].pool, 0);
  }

  lemma StepKeeps(c: Config, st: State, a: Action)
    requires c.Valid() && Inv(c, st) && Enabled(c, st, a)
    ensures Inv(c, Apply(c, st, a))
  {
    if a.Request? {
      if Granted(c, st, a.pool, a.n) {
        GrantKeeps(c, st, a);
      }
    } else if a.Settle? {
      SettleKeeps(c, st, a);
    } else if a.Rollback? {
      RollbackKeeps(c, st, a);
    } else {
      QuietKeeps(c, st, a);
    }
  }

  lemma {:induction false} RunKeeps(c: Config, st: State, acts: seq<Action>)
    requires c.Valid() && Inv(c, st) && Legal(c, st, acts)
    ensures Inv(c, Run(c, st, acts))
    decreases |acts|
  {
    if acts != [] {
      StepKeeps(c, st, acts[0]);
      RunKeeps(c, Apply(c, st, acts[0]), acts[1..]);
    }
  }

  lemma EmptySums(st: State, pool: Pool)
    requires st.heap == map[] && st.ops == map[]
    ensures Accounted(st, pool) == Outstanding(st, pool) == 0
  {
  }

  lemma EmptyCounts(st: State)
    requires st.heap == map[] && st.ops == map[]
    ensures Pending(st) == PendingStorage(st) == 0 && Unadjusted(st) == 0
  {
  }

  lemma EmptyInv(c: Config, st: State)
    requires c.Valid()
    requires st.exec == st.storage == 0 && st.heap == map[] && st.ops == map[]
    ensures Inv(c, st)
  {
    EmptySums(st, Exec);
    EmptySums(st, Storage);
    EmptyCounts(st);
    BelowLimit(0, 0, c.total, c);
    BelowLimit(0, 0, c.storageQuota, c);
  }

  /** The invariant holds in every state of every interleaving of any number of threads. */
  lemma ReachableInv(c: Config, st: State)
    requires c.Valid() && Reachable(c, st)
    ensures Inv(c, st)
  {
    var acts :| Reaches(c, acts, st);
    EmptyInv(c, INITIAL);
    RunKeeps(c, INITIAL, acts);
  }
}
