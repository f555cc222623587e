/**
 The memory manager in machine arithmetic. Each atomic step is a method that is proved to be the
 step of the protocol of the same name, in every reachable state; `AllocMem` and `FreeMem` run those
 steps with any steps of other threads in between.
 */
module MemMgr {
  import opened CArith
  import opened Protocol
  import opened Invariant
  import opened Accounting
  import opened Rollback
  import opened Arith
  import Sums
  import Policy = PolicyMgr

  datatype Option<+T> = None | Some(value: T)

  /** The answer of `je_malloc`: NULL, or an address and the usable size `je_sallocx` reports for it. */
  datatype Answer = Null | Got(p: Ptr, size: SizeT)

  /** The managed memory and the possible overshoot together stay in the range of `signed long`. */
  ghost predicate Fits(c: Config) {
    c.total + AtMost(c) * c.slack < TWO_63
  }

  /** Even the largest overshoot leaves the sum of the counters in the range of `size_t`. */
  ghost predicate NoWrap(c: Config) {
    c.total + AtMost(c) * c.slack < TWO_64
  }

  // ----- the machine decision and the sums it takes are exact in every reachable state -----

  lemma CountersFit(c: Config, st: State)
    requires c.Valid() && Fits(c) && Reachable(c, st)
    ensures 0 <= st.exec && 0 <= st.storage && st.exec + st.storage < TWO_63
  {
    CountersCover(c, st);
    ClampedBound(c, st);
  }

  /** The machine decision is the published policy, in every reachable state and for every request. */
  lemma DecisionExact(c: Config, st: State, pool: Pool, n: SizeT)
    requires c.Valid() && NoWrap(c) && Reachable(c, st)
    ensures c.total < TWO_64 && 0 <= st.exec && 0 <= st.storage && st.exec + st.storage < TWO_64
    ensures Policy.AdmitsWrapped(c.total, c.storageQuota, st.exec, st.storage, pool, n) <==> Granted(c, st, pool, n)
  {
    CountersCover(c, st);
    ClampedBound(c, st);
    MulMono(0, AtMost(c), c.slack);
    Policy.AdmissionExact(c, st.exec, st.storage);
  }

  lemma RequestCovered(c: Config, st: State, t: Tid)
    requires c.Valid() && Reachable(c, st)
    requires t in st.ops && st.ops[t].Allocating()
    ensures st.ops[t].n <= st.Used(st.ops[t].pool)
  {
    CountersCover(c, st);
    assert !st.ops[t].Allocated? ==> HoldOf(st.ops[t].pool)(st.ops[t]) == st.ops[t].n;
  }

  lemma PendingCounts(st: State, t: Tid)
    requires t in st.ops && st.ops[t].Allocating()
    ensures 1 <= Pending(st)
  {
    Sums.SumMember(st.ops, t, PendingOf());
  }

  /** While an allocation is pending, its pool's counter has room below 2^63 for one more slack. */
  lemma PendingRoom(c: Config, st: State, t: Tid)
    requires c.Valid() && Fits(c) && Reachable(c, st)
    requires t in st.ops && st.ops[t].Allocating()
    ensures st.ops[t].n <= st.Used(st.ops[t].pool)
    ensures st.Used(st.ops[t].pool) + c.slack < TWO_63
  {
    RequestCovered(c, st, t);
    ClampedBound(c, st);
    PendingCounts(st, t);
    MulMono(1, Pending(st), c.slack);
    CountersFit(c, st);
  }

  /** The block of a call that is about to charge its slack. */
  lemma AllocatedBlock(c: Config, st: State, t: Tid)
    requires c.Valid() && Reachable(c, st)
    requires t in st.ops && st.ops[t].Allocated?
    ensures var op := st.ops[t];
            op.p in st.heap && st.heap[op.p] == Block(op.pool, op.n, op.size, Charging(t)) && op.n <= op.size <= op.n + c.slack
  {
    ReachableInv(c, st);
    assert OpShape(c, st.heap, t, st.ops[t]);
    assert BlockShape(c, st.heap[st.ops[t].p]);
  }

  /** Charging the slack is exact: the difference is a `signed long`, and so is the sum. */
  lemma SettleRoom(c: Config, st: State, t: Tid)
    requires c.Valid() && Fits(c) && Reachable(c, st)
    requires t in st.ops && st.ops[t].Allocated?
    ensures var op := st.ops[t];
            && op.p in st.heap && st.heap[op.p].size == op.size
            && op.n <= op.size <= TWO_63 - 1
            && 0 <= st.Used(op.pool) <= st.Used(op.pool) + (op.size - op.n) < TWO_63
  {
    AllocatedBlock(c, st, t);
    PendingRoom(c, st, t);
  }

  lemma LiveBlock(c: Config, st: State, p: Ptr)
    requires c.Valid() && Reachable(c, st) && p in st.heap
    ensures 0 < st.heap[p].size
  {
    ReachableInv(c, st);
    assert BlockShape(c, st.heap[p]);
  }

  /** A block that is charged at its real size is covered by its counter, and so is a freed one. */
  lemma FreedRoom(c: Config, st: State, t: Tid)
    requires c.Valid() && Fits(c) && Reachable(c, st)
    requires t in st.ops && st.ops[t].Freed?
    ensures 0 < st.ops[t].size <= st.Used(st.ops[t].pool) < TWO_63
  {
    ReachableInv(c, st);
    CountersCover(c, st);
    CountersFit(c, st);
    assert OpShape(c, st.heap, t, st.ops[t]);
  }

  function MallocAction(t: Tid, answer: Answer): Action {
    match answer
    case Null => MallocFail(t)
    case Got(p, size) => MallocOk(t, p, size)
  }

  /** The step that ends an allocation: charge the slack, or roll the reservation back. */
  function FinishAction(t: Tid, answer: Answer): Action {
    if answer.Null? then Rollback(t) else Settle(t)
  }

  /** The steps after the reservation, with those of other threads in the two gaps. */
  ghost function ServeActs(t: Tid, gap: seq<Action>, answer: Answer, gap': seq<Action>): seq<Action> {
    gap + ([MallocAction(t, answer)] + gap' + [FinishAction(t, answer)])
  }

  /** The steps of a whole `allocMem` call, with those of other threads in its two gaps. */
  ghost function AllocActs(c: Config, st: State, t: Tid, pool: Pool, n: nat, gap: seq<Action>, answer: Answer,
                           gap': seq<Action>): seq<Action> {
    [Request(t, pool, n)] + if Granted(c, st, pool, n) then ServeActs(t, gap, answer, gap') else []
  }

  ghost function FreeActs(t: Tid, pool: Pool, p: Ptr, gap: seq<Action>, gap': seq<Action>): seq<Action> {
    [BeginFree(t, pool, p)] + (gap + ([Release(t)] + gap' + [Uncharge(t)]))
  }

  /** Thread `t` is at the same place in the same call. */
  ghost predicate SameOp(st: State, st': State, t: Tid) {
    (t in st.ops <==> t in st'.ops) && (t in st.ops ==> st.ops[t] == st'.ops[t])
  }

  lemma NextOf(acts: seq<Action>, i: nat, rest: seq<Action>)
    requires i < |acts|
    ensures acts[..i + 1] == acts[..i] + [acts[i]]
    ensures (acts[i..] + rest)[0] == acts[i] && (acts[i..] + rest)[1..] == acts[i + 1..] + rest
  {
    assert acts[i..][1..] == acts[i + 1..];
  }

  lemma OtherStep(c: Config, st: State, t: Tid, a: Action)
    requires Enabled(c, st, a) && a.t != t
    ensures SameOp(st, Apply(c, st, a), t)
  {
  }

  /** Every answer the allocator may give to a reservation is a machine size. */
  lemma MallocSizeFits(c: Config, st: State, t: Tid)
    requires c.Valid() && Fits(c) && Reachable(c, st)
    requires t in st.ops && st.ops[t].Reserved?
    ensures st.ops[t].n + c.slack < TWO_63
  {
    PendingRoom(c, st, t);
  }

  class MemMgr {
    const policy: Policy.PolicyMgr
    /** The allocator: the usable size of each live address. */
    var sizes: map<Ptr, SizeT>
    /** The program counter and the locals of each thread that is inside a call. */
    var ops: map<Tid, Op>
    ghost var cfg: Config
    ghost var blocks: map<Ptr, Block>

    ghost function View(): State
      reads this, policy, policy.exec, policy.storage
    {
      State(policy.exec.used, policy.storage.used, blocks, ops)
    }

    ghost predicate Valid()
      reads this, policy, policy.exec, policy.storage
    {
      && policy.Valid()
      && policy.totalMemory == cfg.total
      && policy.exec.totalPoolMem == cfg.execQuota && policy.storage.totalPoolMem == cfg.storageQuota
      && cfg.Valid() && Reachable(cfg, View())
      && sizes.Keys == blocks.Keys
      && (forall p :: p in sizes ==> sizes[p] == blocks[p].size)
    }

    /** `initMemoryManager`; `slack` and `inFlight` bound the allocator and the clients of this run. */
    constructor (total: SizeT, ghost slack: nat, ghost inFlight: nat)
      ensures Valid() && fresh(policy) && fresh(policy.exec) && fresh(policy.storage)
      ensures View() == INITIAL
      ensures cfg == Config(total, Policy.ExecQuota(total), total - Policy.ExecQuota(total), slack, inFlight)
    {
      var pm := new Policy.PolicyMgr();
      pm.Init(total);
      policy := pm;
      sizes := map[];
      ops := map[];
      blocks := map[];
      Policy.QuotaSplit(total);
      cfg := Config(total, Policy.ExecQuota(total), total - Policy.ExecQuota(total), slack, inFlight);
      InitialReachable(Config(total, Policy.ExecQuota(total), total - Policy.ExecQuota(total), slack, inFlight));
    }

    method RequestStep(t: Tid, pool: Pool, n: SizeT) returns (granted: bool)
      requires Valid() && NoWrap(cfg) && Enabled(cfg, View(), Request(t, pool, n))
      modifies this, policy.exec`used, policy.storage`used
      ensures Valid() && cfg == old(cfg)
      ensures View() == Apply(cfg, old(View()), Request(t, pool, n))
      ensures granted == old(Granted(cfg, View(), pool, n))
      ensures granted ==> if pool == Exec then 1 <= n <= 8388608 else 4096 <= n <= 67108864
    {
      DecisionExact(cfg, View(), pool, n);
      ReachableStep(cfg, View(), Request(t, pool, n));
      granted := policy.Alloc(pool, n);
      if granted {
        ops := ops[t := Reserved(pool, n)];
      }
    }

    method MallocStep(t: Tid, answer: Answer)
      requires Valid() && Enabled(cfg, View(), MallocAction(t, answer))
      modifies this
      ensures Valid() && cfg == old(cfg)
      ensures View() == Apply(cfg, old(View()), MallocAction(t, answer))
    {
      ReachableStep(cfg, View(), MallocAction(t, answer));
      var op := ops[t];
      match answer {
        case Null =>
          ops := ops[t := NoMemory(op.pool, op.n)];
        case Got(p, size) =>
          sizes := sizes[p := size];
          blocks := blocks[p := Block(op.pool, op.n, size, Charging(t))];
          ops := ops[t := Allocated(op.pool, op.n, p, size)];
      }
    }

    method SettleStep(t: Tid)
      requires Valid() && Fits(cfg) && Enabled(cfg, View(), Settle(t))
      modifies this, policy.exec`used, policy.storage`used
      ensures Valid() && cfg == old(cfg)
      ensures View() == Apply(cfg, old(View()), Settle(t))
    {
      var op := ops[t];
      SettleRoom(cfg, View(), t);
      ReachableStep(cfg, View(), Settle(t));
      var size: SizeT := sizes[op.p];
      var n: SizeT := op.n;
      assert size >= n;
      if size > n {
        policy.AdjustAlloc(op.pool, ToLong(ToSize(size - n)));
      }
      blocks := blocks[op.p := blocks[op.p].(status := Owned)];
      ops := ops - {t};
    }

    method RollbackStep(t: Tid)
      requires Valid() && Fits(cfg) && Enabled(cfg, View(), Rollback(t))
      modifies this, policy.exec`used, policy.storage`used
      ensures Valid() && cfg == old(cfg)
      ensures View() == Apply(cfg, old(View()), Rollback(t))
    {
      var op := ops[t];
      PendingRoom(cfg, View(), t);
      ReachableStep(cfg, View(), Rollback(t));
      var n: SizeT := op.n;
      NegatedSize(n);
      policy.AdjustAlloc(op.pool, ToLong(ToSize(0 - n)));
      ops := ops - {t};
    }

    method SizeStep(t: Tid, pool: Pool, p: Ptr) returns (size: SizeT)
      requires Valid() && Enabled(cfg, View(), BeginFree(t, pool, p))
      modifies this
      ensures Valid() && cfg == old(cfg)
      ensures View() == Apply(cfg, old(View()), BeginFree(t, pool, p))
      ensures 0 < size == old(blocks[p].size)
    {
      LiveBlock(cfg, View(), p);
      ReachableStep(cfg, View(), BeginFree(t, pool, p));
      size := sizes[p];
      blocks := blocks[p := blocks[p].(status := Releasing(t))];
      ops := ops[t := SizeRead(pool, p, size)];
    }

    method ReleaseStep(t: Tid)
      requires Valid() && Enabled(cfg, View(), Release(t))
      modifies this
      ensures Valid() && cfg == old(cfg)
      ensures View() == Apply(cfg, old(View()), Release(t))
    {
      ReachableStep(cfg, View(), Release(t));
      var op := ops[t];
      sizes := sizes - {op.p};
      blocks := blocks - {op.p};
      ops := ops[t := Freed(op.pool, op.size)];
    }

    method UnchargeStep(t: Tid)
      requires Valid() && Fits(cfg) && Enabled(cfg, View(), Uncharge(t))
      modifies this, policy.exec`used, policy.storage`used
      ensures Valid() && cfg == old(cfg)
      ensures View() == Apply(cfg, old(View()), Uncharge(t))
    {
      var op := ops[t];
      FreedRoom(cfg, View(), t);
      ReachableStep(cfg, View(), Uncharge(t));
      var size: SizeT := op.size;
      NegatedSize(size);
      policy.AdjustAlloc(op.pool, ToLong(ToSize(0 - size)));
      ops := ops - {t};
    }

    /** One step of any thread. No caller can ask for more than a `size_t`, and the policy would refuse it. */
    method Perform(a: Action)
      requires Valid() && Fits(cfg) && Enabled(cfg, View(), a)
      modifies this, policy.exec`used, policy.storage`used
      ensures Valid() && cfg == old(cfg)
      ensures View() == Apply(cfg, old(View()), a)
    {
      ghost var st := View();
      match a {
        case Request(t, pool, n) =>
          if n < TWO_64 {
            var _ := RequestStep(t, pool, n);
          } else {
            assert st == Apply(cfg, st, a);
          }
        case MallocOk(t, p, size) =>
          MallocSizeFits(cfg, st, t);
          MallocStep(t, Got(p, size));
        case MallocFail(t) => MallocStep(t, Null);
        case Settle(t) => SettleStep(t);
        case Rollback(t) => RollbackStep(t);
        case BeginFree(t, pool, p) => var _ := SizeStep(t, pool, p);
        case Release(t) => ReleaseStep(t);
        case Uncharge(t) => UnchargeStep(t);
      }
    }

    /** Steps of other threads. Whatever `t` still has to do after them is as legal as it was. */
    method RunOthers(ghost t: Tid, acts: seq<Action>, ghost rest: seq<Action>)
      requires Valid() && Fits(cfg) && Legal(cfg, View(), acts + rest) && OtherThreads(t, acts)
      modifies this, policy.exec`used, policy.storage`used
      ensures Valid() && cfg == old(cfg)
      ensures Legal(cfg, View(), rest)
      ensures Run(cfg, View(), rest) == Run(cfg, old(View()), acts + rest)
      ensures Legal(cfg, old(View()), acts) && View() == Run(cfg, old(View()), acts)
      ensures SameOp(old(View()), View(), t)
    {
      ghost var final := Run(cfg, View(), acts + rest);
      assert acts[0..] == acts;
      for i := 0 to |acts|
        invariant Valid() && cfg == old(cfg)
        invariant Legal(cfg, View(), acts[i..] + rest)
        invariant Run(cfg, View(), acts[i..] + rest) == final
        invariant SameOp(old(View()), View(), t)
        invariant Legal(cfg, old(View()), acts[..i]) && View() == Run(cfg, old(View()), acts[..i])
      {
        NextOf(acts, i, rest);
        RunConcat(cfg, old(View()), acts[..i], [acts[i]]);
        OtherStep(cfg, View(), t, acts[i]);
        Perform(acts[i]);
      }
      assert acts[|acts|..] + rest == rest && acts[..|acts|] == acts;
    }

    /** Ends an allocation: the slack is charged, or the reservation given back. */
    method Finish(t: Tid, answer: Answer) returns (r: Option<Ptr>)
      requires Valid() && Fits(cfg) && Enabled(cfg, View(), FinishAction(t, answer))
      requires answer.Got? ==> ops[t].p == answer.p
      modifies this, policy.exec`used, policy.storage`used
      ensures Valid() && cfg == old(cfg)
      ensures View() == Apply(cfg, old(View()), FinishAction(t, answer))
      ensures r == if answer.Got? then Some(answer.p) else None
    {
      match answer {
        case Null =>
          RollbackStep(t);
          return None;
        case Got(p, size) =>
          SettleStep(t);
          return Some(p);
      }
    }

    /** From the reservation of `n` bytes to the end of the call. */
    method Serve(t: Tid, ghost pool: Pool, ghost n: nat, gap: seq<Action>, answer: Answer, gap': seq<Action>)
      returns (r: Option<Ptr>)
      requires Valid() && Fits(cfg) && OtherThreads(t, gap) && OtherThreads(t, gap')
      requires t in ops && ops[t] == Reserved(pool, n)
      requires Legal(cfg, View(), ServeActs(t, gap, answer, gap'))
      modifies this, policy.exec`used, policy.storage`used
      ensures Valid() && cfg == old(cfg)
      ensures View() == Run(cfg, old(View()), ServeActs(t, gap, answer, gap'))
      ensures r == if answer.Got? then Some(answer.p) else None
      ensures answer.Got? ==> answer.p in sizes && blocks[answer.p] == Block(pool, n, answer.size, Owned)
      ensures answer.Null? ==> FailedServe(cfg, old(View()), t, gap, gap')
                               && View() == FailedServeEnd(cfg, old(View()), t, gap, gap')
      ensures t !in ops
    {
      ghost var finish := FinishAction(t, answer);
      RunOthers(t, gap, [MallocAction(t, answer)] + gap' + [finish]);
      assert ([MallocAction(t, answer)] + gap' + [finish])[1..] == gap' + [finish];
      MallocStep(t, answer);
      RunOthers(t, gap', [finish]);
      assert [finish][1..] == [] && Legal(cfg, View(), [finish]);
      if answer.Got? {
        AllocatedBlock(cfg, View(), t);
      }
      r := Finish(t, answer);
    }

    /**
     `allocMem` on thread `t`. Other threads take the steps `gap` between the reservation and the
     allocator call, and `gap'` between that call and the correction of the counter. A granted request
     that the allocator can not serve leaves no trace of itself.
     */
    method AllocMem(t: Tid, pool: Pool, n: SizeT, gap: seq<Action>, answer: Answer, gap': seq<Action>)
      returns (r: Option<Ptr>)
      requires Valid() && Fits(cfg) && OtherThreads(t, gap) && OtherThreads(t, gap')
      requires Legal(cfg, View(), AllocActs(cfg, View(), t, pool, n, gap, answer, gap'))
      modifies this, policy.exec`used, policy.storage`used
      ensures Valid() && cfg == old(cfg)
      ensures View() == Run(cfg, old(View()), AllocActs(cfg, old(View()), t, pool, n, gap, answer, gap'))
      ensures r == if old(Granted(cfg, View(), pool, n)) && answer.Got? then Some(answer.p) else None
      ensures r.Some? ==> r.value in sizes && blocks[r.value] == Block(pool, n, answer.size, Owned)
      ensures r.Some? ==> if pool == Exec then 1 <= n <= 8388608 else 4096 <= n <= 67108864
      ensures old(Granted(cfg, View(), pool, n)) && answer.Null? ==>
                && FailedCall(cfg, old(View()), t, pool, n, gap, gap')
                && Legal(cfg, old(View()), OthersOf(cfg, old(View()), t, pool, n, gap, gap'))
                && View() == Run(cfg, old(View()), OthersOf(cfg, old(View()), t, pool, n, gap, gap'))
      ensures t !in ops
    {
      ghost var st := View();
      ghost var acts := AllocActs(cfg, st, t, pool, n, gap, answer, gap');
      assert acts[0] == Request(t, pool, n);
      var granted := RequestStep(t, pool, n);
      if !granted {
        assert acts[1..] == [];
        return None;
      }
      assert acts[1..] == ServeActs(t, gap, answer, gap');
      r := Serve(t, pool, n, gap, answer, gap');
      if answer.Null? {
        RollbackTransparent(cfg, st, t, pool, n, gap, gap');
      }
    }

    /** `freeMem` on thread `t`, with steps of other threads before and after the block is released. */
    method FreeMem(t: Tid, pool: Pool, p: Ptr, gap: seq<Action>, gap': seq<Action>)
      requires Valid() && Fits(cfg) && OtherThreads(t, gap) && OtherThreads(t, gap')
      requires Legal(cfg, View(), FreeActs(t, pool, p, gap, gap'))
      modifies this, policy.exec`used, policy.storage`used
      ensures Valid() && cfg == old(cfg)
      ensures View() == Run(cfg, old(View()), FreeActs(t, pool, p, gap, gap'))
      ensures t !in ops
    {
      assert FreeActs(t, pool, p, gap, gap')[1..] == gap + ([Release(t)] + gap' + [Uncharge(t)]);
      var size := SizeStep(t, pool, p);
      if size <= 0 {
        return;
      }
      RunOthers(t, gap, [Release(t)] + gap' + [Uncharge(t)]);
      assert ([Release(t)] + gap' + [Uncharge(t)])[1..] == gap' + [Uncharge(t)];
      ReleaseStep(t);
      RunOthers(t, gap', [Uncharge(t)]);
      UnchargeStep(t);
    }
  }
}
