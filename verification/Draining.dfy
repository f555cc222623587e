/** From every reachable state the calls in progress can finish, and the client can then free everything. */
module Draining {
  import opened Protocol
  import opened Sums
  import opened Invariant
  import opened Accounting
  import opened Fill

  /** Steps of calls that are already in progress. */
  predicate Continues(a: Action) {
    !a.Request? && !a.BeginFree?
  }

  /** How many more steps a call takes. */
  function StepsLeftOf(): Op -> nat {
    (op: Op) => if op.Reserved? || op.SizeRead? then 2 else 1
  }

  ghost function StepsLeft(st: State): nat {
    MapSum(st.ops, StepsLeftOf())
  }

  /** Blocks the client owns stay as they are. */
  ghost predicate OwnedKept(st: State, st': State) {
    forall p :: p in st.heap && st.heap[p].status.Owned? ==> p in st'.heap && st'.heap[p] == st.heap[p]
  }

  lemma ContinuedStep(c: Config, st: State, a: Action)
    requires Shape(c, st) && Continues(a) && Enabled(c, st, a)
    ensures StepsLeft(Apply(c, st, a)) + 1 == StepsLeft(st)
    ensures OwnedKept(st, Apply(c, st, a))
  {
    var st', t := Apply(c, st, a), a.t;
    assert OpShape(c, st.heap, t, st.ops[t]);
    SumRemove(st.ops, t, StepsLeftOf());
    if t in st'.ops {
      SumSet(st.ops, t, st'.ops[t], StepsLeftOf());
    }
  }

  lemma NoStepsLeft(st: State)
    ensures st.Quiescent() <==> StepsLeft(st) == 0
  {
    if t: Tid :| t in st.ops {
      SumMember(st.ops, t, StepsLeftOf());
    }
  }

  /**
   Whatever the allocator answers and in whatever order the threads run, each step of a call in progress
   brings the end one step nearer: after exactly `StepsLeft` of them, and not before, no call is in progress.
   */
  lemma {:induction false} ContinuedRun(c: Config, st: State, acts: seq<Action>)
    requires c.Valid() && Inv(c, st) && Legal(c, st, acts)
    requires forall a :: a in acts ==> Continues(a)
    ensures StepsLeft(Run(c, st, acts)) + |acts| == StepsLeft(st)
    ensures Run(c, st, acts).Quiescent() <==> |acts| == StepsLeft(st)
    ensures OwnedKept(st, Run(c, st, acts))
    decreases |acts|
  {
    if acts == [] {
      NoStepsLeft(st);
    } else {
      ContinuedStep(c, st, acts[0]);
      StepKeeps(c, st, acts[0]);
      ContinuedRun(c, Apply(c, st, acts[0]), acts[1..]);
    }
  }

  /** A step that a call can take next: after a reservation the allocator may always refuse. */
  function NextStep(op: Op, t: Tid): Action {
    match op
    case Reserved(_, _) => MallocFail(t)
    case NoMemory(_, _) => Rollback(t)
    case Allocated(_, _, _, _) => Settle(t)
    case SizeRead(_, _, _) => Release(t)
    case Freed(_, _) => Uncharge(t)
  }

  /** No call is ever stuck, whatever the others are doing. */
  lemma NeverStuck(c: Config, st: State, t: Tid)
    requires Shape(c, st) && t in st.ops
    ensures Continues(NextStep(st.ops[t], t)) && Enabled(c, st, NextStep(st.ops[t], t))
  {
    assert OpShape(c, st.heap, t, st.ops[t]);
  }

  /** The calls in progress can finish without a new one. */
  lemma {:induction false} CallsFinish(c: Config, st: State) returns (acts: seq<Action>)
    requires c.Valid() && Inv(c, st)
    ensures Legal(c, st, acts) && Run(c, st, acts).Quiescent()
    ensures forall a :: a in acts ==> Continues(a)
    decreases StepsLeft(st)
  {
    acts := [];
    if t: Tid :| t in st.ops {
      var a := NextStep(st.ops[t], t);
      NeverStuck(c, st, t);
      ContinuedStep(c, st, a);
      StepKeeps(c, st, a);
      var rest := CallsFinish(c, Apply(c, st, a));
      acts := [a] + rest;
      assert acts[1..] == rest;
    }
  }

  /** They finish in exactly `StepsLeft` steps, which leave the client's blocks alone. */
  lemma FinishReached(c: Config, st: State) returns (acts: seq<Action>)
    requires c.Valid() && Reachable(c, st)
    ensures Legal(c, st, acts) && |acts| == StepsLeft(st)
    ensures forall a :: a in acts ==> Continues(a)
    ensures Run(c, st, acts).Quiescent() && OwnedKept(st, Run(c, st, acts)) && Reachable(c, Run(c, st, acts))
  {
    ReachableInv(c, st);
    acts := CallsFinish(c, st);
    ContinuedRun(c, st, acts);
    ReachableRun(c, st, acts);
  }

  /** Freeing one block of a quiescent state leaves the others as they are. */
  lemma FreeOne(c: Config, st: State, p: Ptr)
    requires st.Quiescent() && p in st.heap && st.heap[p].status.Owned?
    ensures Legal(c, st, FreeRound(0, st.heap[p].pool, p))
    ensures Run(c, st, FreeRound(0, st.heap[p].pool, p))
            == st.Charge(st.heap[p].pool, 0 - st.heap[p].size).(heap := st.heap - {p})
  {
    var acts := FreeRound(0, st.heap[p].pool, p);
    var st1 := Apply(c, st, acts[0]);
    var st2 := Apply(c, st1, acts[1]);
    assert st2.heap == st.heap - {p} && st2.ops - {0} == st.ops;
    RunThree(c, st, acts[0], acts[1], acts[2]);
  }

  /** With no call in progress the client can free every block, and that leads back to the initial state. */
  lemma {:induction false} FreeEach(c: Config, st: State) returns (acts: seq<Action>)
    requires c.Valid() && Reachable(c, st) && st.Quiescent()
    ensures Legal(c, st, acts) && Run(c, st, acts) == INITIAL
    ensures forall a :: a in acts ==> !a.Request?
    decreases |st.heap|
  {
    acts := [];
    if p: Ptr :| p in st.heap {
      var first := FreeRound(0, st.heap[p].pool, p);
      Quiescence(c, st, Exec);
      FreeOne(c, st, p);
      ReachableRun(c, st, first);
      assert (st.heap - {p}).Keys == st.heap.Keys - {p};
      var rest := FreeEach(c, Run(c, st, first));
      RunConcat(c, st, first, rest);
      acts := first + rest;
    } else {
      Drain(c, st);
    }
  }

  /**
   Nothing is ever lost. From every reachable state the calls in progress can finish, in exactly
   `StepsLeft` steps that leave the client's blocks alone, and the client can then free its blocks; no
   new request is needed to be back in the initial state.
   */
  lemma DrainReached(c: Config, st: State) returns (finish: seq<Action>, free: seq<Action>)
    requires c.Valid() && Reachable(c, st)
    ensures Legal(c, st, finish) && |finish| == StepsLeft(st) && forall a :: a in finish ==> Continues(a)
    ensures Run(c, st, finish).Quiescent() && OwnedKept(st, Run(c, st, finish))
    ensures Legal(c, Run(c, st, finish), free) && forall a :: a in free ==> !a.Request?
    ensures Legal(c, st, finish + free) && Run(c, st, finish + free) == INITIAL
  {
    finish := FinishReached(c, st);
    free := FreeEach(c, Run(c, st, finish));
    RunConcat(c, st, finish, free);
  }
}
