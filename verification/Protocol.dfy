/**
 The admission and accounting protocol of the memory manager as a transition system over unbounded
 integers. Every policy-manager call is one step, because a mutex protects it; `allocMem` and
 `freeMem` are several steps, between which other threads may run.
 */
module Protocol {
  import Sums

  const KI := 1024
  const MI := 1024 * 1024
  const EXEC_MIN := 1
  const EXEC_MAX := 8 * MI
  const STORAGE_MIN := 4 * KI
  const STORAGE_MAX := 64 * MI

  type Ptr = nat
  type Tid = nat
  const NULL: Ptr := 0

  datatype Pool = Exec | Storage

  /**
   The parameters of a run: the memory to manage, its split, the largest rounding slack the
   allocator adds to one block, and the largest number of allocations in flight at one time.
   */
  datatype Config = Config(total: nat, execQuota: nat, storageQuota: nat, slack: nat, inFlight: nat) {
    ghost predicate Valid() {
      execQuota + storageQuota == total
    }
  }

  /**
   Who a live block belongs to: the call that is still allocating it (its slack is not charged yet),
   the client, or the call that is about to hand it back to the allocator.
   */
  datatype Status = Charging(tid: Tid) | Owned | Releasing(tid: Tid)

  datatype Block = Block(pool: Pool, requested: nat, size: nat, status: Status)

  /** How far a thread is in `allocMem` (the first three) or `freeMem` (the last two), with its locals. */
  datatype Op =
    | Reserved(pool: Pool, n: nat)
    | NoMemory(pool: Pool, n: nat)
    | Allocated(pool: Pool, n: nat, p: Ptr, size: nat)
    | SizeRead(pool: Pool, p: Ptr, size: nat)
    | Freed(pool: Pool, size: nat)
  {
    predicate Allocating() {
      Reserved? || NoMemory? || Allocated?
    }
  }

  /** The two counters, the live blocks, and the calls in progress; a thread not in `ops` is idle. */
  datatype State = State(exec: int, storage: int, heap: map<Ptr, Block>, ops: map<Tid, Op>) {
    function Used(pool: Pool): int {
      if pool == Exec then exec else storage
    }

    function Charge(pool: Pool, bytes: int): State {
      if pool == Exec then this.(exec := exec + bytes) else this.(storage := storage + bytes)
    }

    predicate Quiescent() {
      ops == map[]
    }
  }

  const INITIAL := State(0, 0, map[], map[])

  predicate InRange(pool: Pool, n: int) {
    match pool
    case Exec => EXEC_MIN <= n <= EXEC_MAX
    case Storage => STORAGE_MIN <= n <= STORAGE_MAX
  }

  /** The published policy: size limits, the storage quota, and the memory of the whole system. */
  predicate Admits(c: Config, exec: int, storage: int, pool: Pool, n: int) {
    && InRange(pool, n)
    && (pool == Storage ==> storage + n <= c.storageQuota)
    && exec + storage + n <= c.total
  }

  /** The atomic steps. The allocator's answers are part of the step. */
  datatype Action =
    | Request(t: Tid, pool: Pool, n: nat)
    | MallocOk(t: Tid, p: Ptr, size: nat)
    | MallocFail(t: Tid)
    | Settle(t: Tid)
    | Rollback(t: Tid)
    | BeginFree(t: Tid, pool: Pool, p: Ptr)
    | Release(t: Tid)
    | Uncharge(t: Tid)

  function PendingOf(): Op -> nat {
    (op: Op) => if op.Allocating() then 1 else 0
  }

  predicate Granted(c: Config, st: State, pool: Pool, n: nat) {
    Admits(c, st.exec, st.storage, pool, n)
  }

  /**
   What a step needs of its own thread, the heap and the allocator. The allocator hands out a non-NULL
   address that is not live, at least as large as asked and at most `slack` larger. A client frees a
   block it owns, through the pool it came from.
   */
  ghost predicate Possible(c: Config, st: State, a: Action) {
    match a
    case Request(t, pool, n) => t !in st.ops
    case MallocOk(t, p, size) =>
      && t in st.ops && st.ops[t].Reserved?
      && p != NULL && p !in st.heap && st.ops[t].n <= size <= st.ops[t].n + c.slack
    case MallocFail(t) => t in st.ops && st.ops[t].Reserved?
    case Settle(t) => t in st.ops && st.ops[t].Allocated? && st.ops[t].p in st.heap
    case Rollback(t) => t in st.ops && st.ops[t].NoMemory?
    case BeginFree(t, pool, p) =>
      t !in st.ops && p in st.heap && st.heap[p].pool == pool && st.heap[p].status == Owned
    case Release(t) => t in st.ops && st.ops[t].SizeRead? && st.ops[t].p in st.heap
    case Uncharge(t) => t in st.ops && st.ops[t].Freed?
  }

  /** When a step may happen: it is possible, and a grant leaves at most `inFlight` allocations in flight. */
  ghost predicate Enabled(c: Config, st: State, a: Action) {
    && Possible(c, st, a)
    && (a.Request? && Granted(c, st, a.pool, a.n) ==> Sums.MapSum(st.ops, PendingOf()) < c.inFlight)
  }

  ghost function Apply(c: Config, st: State, a: Action): State
    requires Possible(c, st, a)
  {
    match a
    case Request(t, pool, n) =>
      if Granted(c, st, pool, n) then st.Charge(pool, n).(ops := st.ops[t := Reserved(pool, n)]) else st
    case MallocOk(t, p, size) =>
      var op := st.ops[t];
      st.(heap := st.heap[p := Block(op.pool, op.n, size, Charging(t))],
          ops := st.ops[t := Allocated(op.pool, op.n, p, size)])
    case MallocFail(t) =>
      st.(ops := st.ops[t := NoMemory(st.ops[t].pool, st.ops[t].n)])
    case Settle(t) =>
      var op := st.ops[t];
      st.Charge(op.pool, op.size - op.n).(
      heap := st.heap[op.p := st.heap[op.p].(status := Owned)], ops := st.ops - {t})
    case Rollback(t) =>
      st.Charge(st.ops[t].pool, 0 - st.ops[t].n).(ops := st.ops - {t})
    case BeginFree(t, pool, p) =>
      st.(heap := st.heap[p := st.heap[p].(status := Releasing(t))],
          ops := st.ops[t := SizeRead(pool, p, st.heap[p].size)])
    case Release(t) =>
      var op := st.ops[t];
      st.(heap := st.heap - {op.p}, ops := st.ops[t := Freed(op.pool, op.size)])
    case Uncharge(t) =>
      st.Charge(st.ops[t].pool, 0 - st.ops[t].size).(ops := st.ops - {t})
  }

  /** `acts` is an interleaving that can happen from `st`. */
  ghost predicate Legal(c: Config, st: State, acts: seq<Action>)
    decreases |acts|
  {
    acts == [] || (Enabled(c, st, acts[0]) && Legal(c, Apply(c, st, acts[0]), acts[1..]))
  }

  ghost function Run(c: Config, st: State, acts: seq<Action>): State
    requires Legal(c, st, acts)
    decreases |acts|
  {
    if acts == [] then st else Run(c, Apply(c, st, acts[0]), acts[1..])
  }

  ghost predicate Reaches(c: Config, acts: seq<Action>, st: State) {
    Legal(c, INITIAL, acts) && Run(c, INITIAL, acts) == st
  }

  ghost predicate Reachable(c: Config, st: State) {
    exists acts :: Reaches(c, acts, st)
  }

  /** Running `xs + ys` is running `xs` and then `ys`. */
  lemma {:induction false} RunConcat(c: Config, st: State, xs: seq<Action>, ys: seq<Action>)
    requires Legal(c, st, xs)
    ensures Legal(c, st, xs + ys) <==> Legal(c, Run(c, st, xs), ys)
    ensures Legal(c, st, xs + ys) ==> Run(c, st, xs + ys) == Run(c, Run(c, st, xs), ys)
    decreases |xs|
  {
    if xs == [] {
      assert xs + ys == ys;
    } else {
      assert (xs + ys)[1..] == xs[1..] + ys;
      RunConcat(c, Apply(c, st, xs[0]), xs[1..], ys);
    }
  }

  lemma RunThree(c: Config, st: State, x: Action, y: Action, z: Action)
    requires Enabled(c, st, x) && Enabled(c, Apply(c, st, x), y) && Enabled(c, Apply(c, Apply(c, st, x), y), z)
    ensures Legal(c, st, [x, y, z])
    ensures Run(c, st, [x, y, z]) == Apply(c, Apply(c, Apply(c, st, x), y), z)
  {
    var st1, st2 := Apply(c, st, x), Apply(c, Apply(c, st, x), y);
    var st3 := Apply(c, st2, z);
    assert [z][1..] == [] && Legal(c, st3, []) && Run(c, st3, []) == st3;
    assert Legal(c, st2, [z]) && Run(c, st2, [z]) == st3;
    assert [y, z][1..] == [z] && Legal(c, st1, [y, z]);
    assert [x, y, z][1..] == [y, z];
  }

  lemma InitialReachable(c: Config)
    ensures Reachable(c, INITIAL) && INITIAL.Quiescent()
  {
    assert Reaches(c, [], INITIAL);
  }

  lemma ReachableRun(c: Config, st: State, acts: seq<Action>)
    requires Reachable(c, st) && Legal(c, st, acts)
    ensures Reachable(c, Run(c, st, acts))
  {
    var before :| Reaches(c, before, st);
    RunConcat(c, INITIAL, before, acts);
    assert Reaches(c, before + acts, Run(c, st, acts));
  }

  lemma ReachableStep(c: Config, st: State, a: Action)
    requires Reachable(c, st) && Enabled(c, st, a)
    ensures Reachable(c, Apply(c, st, a))
  {
    var acts :| Reaches(c, acts, st);
    RunConcat(c, INITIAL, acts, [a]);
    assert Legal(c, st, [a]);
    assert Reaches(c, acts + [a], Apply(c, st, a));
  }
}
