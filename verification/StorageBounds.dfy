/** How far storage can pass its quota: every storage allocation in flight holds at least the smallest request. */
module StorageBounds {
  import opened Protocol
  import opened Sums
  import opened Invariant
  import opened Accounting
  import opened Arith

  /** The smallest request of a pool. */
  function MinSize(pool: Pool): nat {
    if pool == Exec then EXEC_MIN else STORAGE_MIN
  }

  /** Bytes that a call with a block, whose slack it has not charged yet, requested from a pool. */
  function BlockRequestOf(pool: Pool): Op -> nat {
    (op: Op) => if op.pool == pool && op.Allocated? then op.n else 0
  }

  /** Bytes of a pool's counter that belong to a call, whether it has a block or not. */
  function CallOf(pool: Pool): Op -> nat {
    (op: Op) =>
      if op.pool != pool || op.SizeRead? then 0
      else if op.Freed? then op.size
      else op.n
  }

  /** The live blocks are charged at least what the calls that are still charging one requested. */
  lemma {:induction false} BlocksCoverCalls(c: Config, heap: map<Ptr, Block>, ops: map<Tid, Op>, pool: Pool)
    requires forall t :: t in ops && ops[t].Allocated? ==> OpShape(c, heap, t, ops[t])
    ensures MapSum(ops, BlockRequestOf(pool)) <= MapSum(heap, ChargeOf(pool))
    decreases |ops|
  {
    if ops != map[] {
      var t: Tid :| t in ops;
      var op, rest := ops[t], ops - {t};
      assert rest.Keys == ops.Keys - {t};
      SumRemove(ops, t, BlockRequestOf(pool));
      if op.Allocated? {
        assert OpShape(c, heap, t, op);
        forall u | u in rest && rest[u].Allocated? ensures OpShape(c, heap - {op.p}, u, rest[u]) {
          assert OpShape(c, heap, u, ops[u]);
        }
        BlocksCoverCalls(c, heap - {op.p}, rest, pool);
        SumRemove(heap, op.p, ChargeOf(pool));
      } else {
        BlocksCoverCalls(c, heap, rest, pool);
      }
    }
  }

  /** Each pending call of a pool holds at least the pool's smallest request. */
  lemma CallsHold(c: Config, heap: map<Ptr, Block>, ops: map<Tid, Op>, pool: Pool)
    requires forall p :: p in heap ==> BlockShape(c, heap[p])
    requires forall t :: t in ops ==> OpShape(c, heap, t, ops[t])
    ensures MapSum(ops, PendingIn(pool)) * MinSize(pool) <= MapSum(ops, CallOf(pool))
  {
    forall t | t in ops ensures PendingIn(pool)(ops[t]) * MinSize(pool) <= CallOf(pool)(ops[t]) {
      assert OpShape(c, heap, t, ops[t]);
      if ops[t].Allocated? {
        assert BlockShape(c, heap[ops[t].p]);
      }
    }
    SumScaled(ops, PendingIn(pool), MinSize(pool), CallOf(pool));
  }

  /** There are no more pending allocations of a pool than its smallest requests in its counter. */
  lemma PendingFitUsed(c: Config, st: State, pool: Pool)
    requires Shape(c, st) && Ledger(st)
    ensures MapSum(st.ops, PendingIn(pool)) * MinSize(pool) <= st.Used(pool)
  {
    CallsHold(c, st.heap, st.ops, pool);
    BlocksCoverCalls(c, st.heap, st.ops, pool);
    SumSplit(st.ops, CallOf(pool), HoldOf(pool), BlockRequestOf(pool));
  }

  /** The storage allocations that can be in flight while storage is within its quota. */
  function AtMostStorage(c: Config): nat {
    var room := c.storageQuota / STORAGE_MIN;
    if c.inFlight <= room then c.inFlight else room
  }

  /** Storage stays below its quota with one slack for each of them that is not pending. */
  ghost predicate StorageBelow(c: Config, st: State) {
    Below(st.storage, PendingStorage(st), c.storageQuota, c.(inFlight := AtMostStorage(c)))
  }

  /** A storage grant checks the quota, so the pending storage calls, the new one included, fit in it. */
  lemma StorageGrantKeeps(c: Config, st: State, a: Action)
    requires c.Valid() && Inv(c, st)
    requires a.Request? && a.pool == Storage && Enabled(c, st, a) && Granted(c, st, a.pool, a.n)
    ensures StorageBelow(c, Apply(c, st, a))
  {
    var st' := Apply(c, st, a);
    GrantKeeps(c, st, a);
    PendingStorageLess(st');
    PendingFitUsed(c, st', Storage);
    BelowLimit(st'.storage, PendingStorage(st'), c.storageQuota, c.(inFlight := AtMostStorage(c)));
  }

  /** Whatever is not a storage grant adds to storage at most one slack, for a storage call that leaves flight. */
  ghost predicate StorageMoves(c: Config, st: State, st': State) {
    && PendingStorage(st') <= PendingStorage(st)
    && (st'.storage <= st.storage || (PendingStorage(st') < PendingStorage(st) && st'.storage <= st.storage + c.slack))
  }

  lemma OtherStepMoves(c: Config, st: State, a: Action)
    requires Shape(c, st) && Enabled(c, st, a)
    requires a.Request? && Granted(c, st, a.pool, a.n) ==> a.pool == Exec
    ensures StorageMoves(c, st, Apply(c, st, a))
  {
    match a {
      case Request(_, pool, n) => if Granted(c, st, pool, n) { RequestMoves(c, st, a); }
      case MallocOk(_, _, _) => MallocOkMoves(c, st, a);
      case MallocFail(_) => MallocFailMoves(c, st, a);
      case Settle(t) =>
        SettleMoves(c, st, a);
        assert OpShape(c, st.heap, t, st.ops[t]);
        assert BlockShape(c, st.heap[st.ops[t].p]);
      case Rollback(_) => RollbackMoves(c, st, a);
      case BeginFree(_, _, _) => BeginFreeMoves(c, st, a);
      case Release(_) => ReleaseMoves(c, st, a);
      case Uncharge(_) => UnchargeMoves(c, st, a);
    }
  }

  lemma StorageStepKeeps(c: Config, st: State, a: Action)
    requires c.Valid() && Inv(c, st) && StorageBelow(c, st) && Enabled(c, st, a)
    ensures StorageBelow(c, Apply(c, st, a))
  {
    if a.Request? && a.pool == Storage && Granted(c, st, a.pool, a.n) {
      StorageGrantKeeps(c, st, a);
    } else {
      var st' := Apply(c, st, a);
      OtherStepMoves(c, st, a);
      BelowMoves(st.storage, st'.storage, PendingStorage(st), PendingStorage(st'), c.storageQuota,
                 c.(inFlight := AtMostStorage(c)));
    }
  }

  lemma {:induction false} StorageRunKeeps(c: Config, st: State, acts: seq<Action>)
    requires c.Valid() && Inv(c, st) && StorageBelow(c, st) && Legal(c, st, acts)
    ensures StorageBelow(c, Run(c, st, acts))
    decreases |acts|
  {
    if acts != [] {
      StorageStepKeeps(c, st, acts[0]);
      StepKeeps(c, st, acts[0]);
      StorageRunKeeps(c, Apply(c, st, acts[0]), acts[1..]);
    }
  }

  lemma EmptyStorageBelow(c: Config, st: State)
    requires st.storage == 0 && st.heap == map[] && st.ops == map[]
    ensures StorageBelow(c, st)
  {
    EmptyCounts(st);
    BelowLimit(0, 0, c.storageQuota, c.(inFlight := AtMostStorage(c)));
  }

  lemma ReachableStorageBelow(c: Config, st: State)
    requires c.Valid() && Reachable(c, st)
    ensures StorageBelow(c, st)
  {
    var acts :| Reaches(c, acts, st);
    EmptyInv(c, INITIAL);
    EmptyStorageBelow(c, INITIAL);
    StorageRunKeeps(c, INITIAL, acts);
  }

  /**
   The storage overshoot, for the storage allocations that can really be in flight: each of them was
   granted within the quota and still holds the smallest storage request of it.
   */
  lemma StorageBound(c: Config, st: State)
    requires c.Valid() && Reachable(c, st)
    ensures st.storage + PendingStorage(st) * c.slack <= c.storageQuota + AtMostStorage(c) * c.slack
    ensures st.storage <= c.storageQuota + AtMostStorage(c) * c.slack
  {
    ReachableStorageBelow(c, st);
    MulMono(0, PendingStorage(st), c.slack);
  }
}
