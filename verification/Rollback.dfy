/**
 Rollback transparency: an allocation that is granted and then fails in the allocator leaves no trace,
 whatever the other threads did in between.
 */
module Rollback {
  import opened Protocol
  import opened Sums
  import opened Invariant

  /** A request that is turned away. */
  ghost predicate Refused(c: Config, st: State, a: Action) {
    a.Request? && !Granted(c, st, a.pool, a.n)
  }

  /** The steps of `acts` that are not refused requests. */
  ghost function Effective(c: Config, st: State, acts: seq<Action>): seq<Action>
    requires Legal(c, st, acts)
    decreases |acts|
  {
    if acts == [] then []
    else
      var rest := Effective(c, Apply(c, st, acts[0]), acts[1..]);
      if Refused(c, st, acts[0]) then rest else [acts[0]] + rest
  }

  ghost predicate OtherThreads(t: Tid, acts: seq<Action>) {
    forall i :: 0 <= i < |acts| ==> acts[i].t != t
  }

  /** `b` is `a` with one more reservation, which thread `t` holds as `op`. */
  ghost predicate Shadow(a: State, b: State, t: Tid, op: Op) {
    && (op.Reserved? || op.NoMemory?)
    && t !in a.ops
    && b == a.Charge(op.pool, op.n).(ops := a.ops[t := op])
  }

  /** A request granted beside the reservation is granted without it: the counters are lower. */
  lemma ShadowRequest(c: Config, a: State, b: State, t: Tid, op: Op, x: Action)
    requires Shadow(a, b, t, op) && Enabled(c, b, x) && x.t != t
    requires x.Request? && !Refused(c, b, x)
    ensures Enabled(c, a, x) && Shadow(Apply(c, a, x), Apply(c, b, x), t, op)
  {
    SumSet(a.ops, t, op, PendingOf());
    assert a.ops - {t} == a.ops;
    assert b.ops[x.t := Reserved(x.pool, x.n)] == a.ops[x.t := Reserved(x.pool, x.n)][t := op];
  }

  lemma ShadowAllocate(c: Config, a: State, b: State, t: Tid, op: Op, x: Action)
    requires Shadow(a, b, t, op) && Enabled(c, b, x) && x.t != t
    requires x.MallocOk? || x.MallocFail? || x.BeginFree? || x.Release?
    ensures Enabled(c, a, x) && Shadow(Apply(c, a, x), Apply(c, b, x), t, op)
  {
    var a' := Apply(c, a, x);
    assert b.ops[x.t := a'.ops[x.t]] == a.ops[x.t := a'.ops[x.t]][t := op];
  }

  lemma ShadowFinish(c: Config, a: State, b: State, t: Tid, op: Op, x: Action)
    requires Shadow(a, b, t, op) && Enabled(c, b, x) && x.t != t
    requires x.Settle? || x.Rollback? || x.Uncharge?
    ensures Enabled(c, a, x) && Shadow(Apply(c, a, x), Apply(c, b, x), t, op)
  {
    assert b.ops - {x.t} == (a.ops - {x.t})[t := op];
  }

  /** A step another thread takes beside the reservation can be taken without it, to the same effect. */
  lemma ShadowStep(c: Config, a: State, b: State, t: Tid, op: Op, x: Action)
    requires Shadow(a, b, t, op) && Enabled(c, b, x) && x.t != t
    requires !Refused(c, b, x)
    ensures Enabled(c, a, x) && Shadow(Apply(c, a, x), Apply(c, b, x), t, op)
  {
    if x.Request? {
      ShadowRequest(c, a, b, t, op, x);
    } else if x.Settle? || x.Rollback? || x.Uncharge? {
      ShadowFinish(c, a, b, t, op, x);
    } else {
      ShadowAllocate(c, a, b, t, op, x);
    }
  }

  lemma {:induction false} ShadowRun(c: Config, a: State, b: State, t: Tid, op: Op, acts: seq<Action>)
    requires Shadow(a, b, t, op) && Legal(c, b, acts) && OtherThreads(t, acts)
    ensures Legal(c, a, Effective(c, b, acts))
    ensures Shadow(Run(c, a, Effective(c, b, acts)), Run(c, b, acts), t, op)
    decreases |acts|
  {
    if acts != [] {
      var x, b' := acts[0], Apply(c, b, acts[0]);
      assert OtherThreads(t, acts[1..]);
      if Refused(c, b, x) {
        ShadowRun(c, a, b', t, op, acts[1..]);
      } else {
        ShadowStep(c, a, b, t, op, x);
        ShadowRun(c, Apply(c, a, x), b', t, op, acts[1..]);
        var rest := Effective(c, b', acts[1..]);
        assert ([x] + rest)[0] == x && ([x] + rest)[1..] == rest;
      }
    }
  }

  /**
   From its reservation on, a call of `t` gets NULL from the allocator and rolls back; the other threads
   take the steps `mid` before the allocator answers and `mid'` after.
   */
  ghost predicate FailedServe(c: Config, st: State, t: Tid, mid: seq<Action>, mid': seq<Action>) {
    && Legal(c, st, mid)
    && var st' := Run(c, st, mid);
    && Enabled(c, st', MallocFail(t))
    && Legal(c, Apply(c, st', MallocFail(t)), mid')
    && Enabled(c, Run(c, Apply(c, st', MallocFail(t)), mid'), Rollback(t))
  }

  ghost function FailedServeEnd(c: Config, st: State, t: Tid, mid: seq<Action>, mid': seq<Action>): State
    requires FailedServe(c, st, t, mid, mid')
  {
    Apply(c, Run(c, Apply(c, Run(c, st, mid), MallocFail(t)), mid'), Rollback(t))
  }

  /** A whole call that is granted and then fails so. */
  ghost predicate FailedCall(c: Config, st: State, t: Tid, pool: Pool, n: nat, mid: seq<Action>, mid': seq<Action>) {
    && OtherThreads(t, mid) && OtherThreads(t, mid')
    && Enabled(c, st, Request(t, pool, n)) && Granted(c, st, pool, n)
    && FailedServe(c, Apply(c, st, Request(t, pool, n)), t, mid, mid')
  }

  ghost function FailedCallEnd(c: Config, st: State, t: Tid, pool: Pool, n: nat, mid: seq<Action>, mid': seq<Action>): State
    requires FailedCall(c, st, t, pool, n, mid, mid')
  {
    FailedServeEnd(c, Apply(c, st, Request(t, pool, n)), t, mid, mid')
  }

  /** What the other threads did meanwhile, without the requests that were turned away. */
  ghost function OthersOf(c: Config, st: State, t: Tid, pool: Pool, n: nat, mid: seq<Action>, mid': seq<Action>): seq<Action>
    requires FailedCall(c, st, t, pool, n, mid, mid')
  {
    var st1 := Apply(c, st, Request(t, pool, n));
    Effective(c, st1, mid) + Effective(c, Apply(c, Run(c, st1, mid), MallocFail(t)), mid')
  }

  /**
   The failed call leaves the state that the other threads' steps reach on their own: neither the
   counters nor anything else show that it was made.
   */
  lemma RollbackTransparent(c: Config, st: State, t: Tid, pool: Pool, n: nat, mid: seq<Action>, mid': seq<Action>)
    requires FailedCall(c, st, t, pool, n, mid, mid')
    ensures Legal(c, st, OthersOf(c, st, t, pool, n, mid, mid'))
    ensures FailedCallEnd(c, st, t, pool, n, mid, mid') == Run(c, st, OthersOf(c, st, t, pool, n, mid, mid'))
  {
    var st1 := Apply(c, st, Request(t, pool, n));
    ShadowRun(c, st, st1, t, Reserved(pool, n), mid);
    var a := Run(c, st, Effective(c, st1, mid));
    var st3 := Apply(c, Run(c, st1, mid), MallocFail(t));
    assert st3.ops == a.ops[t := NoMemory(pool, n)];
    ShadowRun(c, a, st3, t, NoMemory(pool, n), mid');
    RunConcat(c, st, Effective(c, st1, mid), Effective(c, st3, mid'));
    assert Run(c, st3, mid').ops - {t} == Run(c, a, Effective(c, st3, mid')).ops;
  }
}
