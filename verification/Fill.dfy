/** How much fits: repeated allocation until the policy refuses, and the largest overshoot that is reached. */
module Fill {
  import opened Protocol
  import opened Sums
  import opened Invariant
  import opened Arith

  /** The bytes a pool may still be granted. */
  function Room(c: Config, st: State, pool: Pool): int {
    var system := c.total - st.exec - st.storage;
    if pool == Exec || system <= c.storageQuota - st.storage then system else c.storageQuota - st.storage
  }

  /** How many requests of `n` bytes that occupy `size` bytes each fit in `room`. */
  function FillCount(room: int, n: nat, size: nat): nat
    requires 1 <= size
  {
    if n <= room then (room - n) / size + 1 else 0
  }

  /** One complete allocation by thread `t`. */
  function Round(t: Tid, pool: Pool, n: nat, p: Ptr, size: nat): seq<Action> {
    [Request(t, pool, n), MallocOk(t, p, size), Settle(t)]
  }

  /** `k` complete allocations, at the addresses from `first` on. */
  function Rounds(t: Tid, pool: Pool, n: nat, first: Ptr, size: nat, k: nat): seq<Action> {
    if k == 0 then [] else Rounds(t, pool, n, first, size, k - 1) + Round(t, pool, n, first + k - 1, size)
  }

  lemma EmptyPending(ops: map<Tid, Op>)
    requires ops == map[]
    ensures MapSum(ops, PendingOf()) == 0
  {
  }

  lemma RoundRun(c: Config, st: State, t: Tid, pool: Pool, n: nat, p: Ptr, size: nat)
    requires t !in st.ops && Pending(st) < c.inFlight && p != NULL && p !in st.heap
    requires Granted(c, st, pool, n) && n <= size <= n + c.slack
    ensures Legal(c, st, Round(t, pool, n, p, size))
    ensures Run(c, st, Round(t, pool, n, p, size))
            == st.Charge(pool, size).(heap := st.heap[p := Block(pool, n, size, Owned)])
  {
    var acts := Round(t, pool, n, p, size);
    var st1 := Apply(c, st, acts[0]);
    var st2 := Apply(c, st1, acts[1]);
    assert st2.ops - {t} == st.ops;
    assert st2.heap[p := st2.heap[p].(status := Owned)] == st.heap[p := Block(pool, n, size, Owned)];
    RunThree(c, st, acts[0], acts[1], acts[2]);
  }

  /** One complete free by thread `t`. */
  function FreeRound(t: Tid, pool: Pool, p: Ptr): seq<Action> {
    [BeginFree(t, pool, p), Release(t), Uncharge(t)]
  }

  /** Freeing what was just allocated restores counters, heap and calls in progress exactly. */
  lemma AllocFreeRoundTrip(c: Config, st: State, t: Tid, pool: Pool, n: nat, p: Ptr, size: nat)
    requires t !in st.ops && Pending(st) < c.inFlight && p != NULL && p !in st.heap
    requires Granted(c, st, pool, n) && n <= size <= n + c.slack
    ensures Legal(c, st, Round(t, pool, n, p, size) + FreeRound(t, pool, p))
    ensures Run(c, st, Round(t, pool, n, p, size) + FreeRound(t, pool, p)) == st
  {
    RoundRun(c, st, t, pool, n, p, size);
    var held, acts := Run(c, st, Round(t, pool, n, p, size)), FreeRound(t, pool, p);
    var st1 := Apply(c, held, acts[0]);
    var st2 := Apply(c, st1, acts[1]);
    assert st2.ops - {t} == st.ops && st2.heap == st.heap;
    RunThree(c, held, acts[0], acts[1], acts[2]);
    RunConcat(c, st, Round(t, pool, n, p, size), acts);
  }

  lemma Multiples(k: nat, q: nat, size: nat)
    ensures k <= q ==> k * size <= q * size
    ensures q < k ==> q * size + size <= k * size
  {
    if k <= q {
      MulMono(k, q, size);
    } else {
      MulMono(q + 1, k, size);
      MulStep(q, size);
    }
  }

  /** Fitting `k` earlier blocks leaves room for one more exactly when `k` is below the count. */
  lemma CountMeaning(room: int, n: nat, size: nat, k: nat)
    requires 1 <= size
    ensures k * size + n <= room <==> k < FillCount(room, n, size)
  {
    if n <= room {
      DivNonNegative(room - n, size);
      Multiples(k, (room - n) / size, size);
    } else {
      assert 0 <= k * size;
    }
  }

  /** The state of a greedy client after `k` of its requests. */
  ghost predicate Filled(st: State, st': State, pool: Pool, bytes: int, last: Ptr, size: nat) {
    && st'.ops == st.ops
    && st'.exec == st.exec + (if pool == Exec then bytes else 0)
    && st'.storage == st.storage + (if pool == Storage then bytes else 0)
    && forall p :: p in st'.heap ==> p < last && (p in st.heap || st'.heap[p].size == size)
  }

  /** One more round for that client. */
  lemma FillMore(c: Config, st: State, acts: seq<Action>, t: Tid, pool: Pool, n: nat, bytes: nat, p: Ptr, size: nat)
    requires t !in st.ops && Pending(st) < c.inFlight && NULL < p && Legal(c, st, acts)
    requires Filled(st, Run(c, st, acts), pool, bytes, p, size)
    requires Granted(c, Run(c, st, acts), pool, n) && n <= size <= n + c.slack
    ensures Legal(c, st, acts + Round(t, pool, n, p, size))
    ensures Filled(st, Run(c, st, acts + Round(t, pool, n, p, size)), pool, bytes + size, p + 1, size)
  {
    RoundRun(c, Run(c, st, acts), t, pool, n, p, size);
    RunConcat(c, st, acts, Round(t, pool, n, p, size));
  }

  /** The next request is granted when it fits in the room there was, beside what was charged since. */
  lemma GrantedFilled(c: Config, st: State, st1: State, pool: Pool, n: nat, bytes: nat, last: Ptr, size: nat)
    requires Filled(st, st1, pool, bytes, last, size) && InRange(pool, n)
    ensures Granted(c, st1, pool, n) <==> bytes + n <= Room(c, st, pool)
  {
  }

  /**
   Greedy fill. A client that repeats one in-range request, always getting blocks of the same real
   size, is granted exactly `FillCount` requests: each of the first `FillCount` is granted, and the
   next one is refused.
   */
  lemma {:induction false} GreedyFill(c: Config, st: State, t: Tid, pool: Pool, n: nat, first: Ptr, size: nat, k: nat)
    requires t !in st.ops && Pending(st) < c.inFlight
    requires InRange(pool, n) && n <= size <= n + c.slack
    requires NULL < first && forall p :: p in st.heap ==> p < first
    requires k <= FillCount(Room(c, st, pool), n, size)
    ensures Legal(c, st, Rounds(t, pool, n, first, size, k))
    ensures Filled(st, Run(c, st, Rounds(t, pool, n, first, size, k)), pool, k * size, first + k, size)
    ensures Granted(c, Run(c, st, Rounds(t, pool, n, first, size, k)), pool, n)
            <==> k < FillCount(Room(c, st, pool), n, size)
    decreases k
  {
    if k != 0 {
      GreedyFill(c, st, t, pool, n, first, size, k - 1);
      FillMore(c, st, Rounds(t, pool, n, first, size, k - 1), t, pool, n, (k - 1) * size, first + k - 1, size);
      MulStep(k - 1, size);
    }
    CountMeaning(Room(c, st, pool), n, size, k);
    GrantedFilled(c, st, Run(c, st, Rounds(t, pool, n, first, size, k)), pool, n, k * size, first + k, size);
  }

  /** The state after a greedy client's `k` requests on a fresh manager, run by run. */
  lemma FreshFill(c: Config, pool: Pool, n: nat, size: nat, k: nat) returns (st: State)
    requires c.Valid() && 1 <= c.inFlight && InRange(pool, n) && n <= size <= n + c.slack
    requires k <= FillCount(Room(c, INITIAL, pool), n, size)
    ensures Reaches(c, Rounds(0, pool, n, 1, size, k), st) && Reachable(c, st)
    ensures Filled(INITIAL, st, pool, k * size, 1 + k, size)
    ensures Granted(c, st, pool, n) <==> k < FillCount(Room(c, INITIAL, pool), n, size)
  {
    EmptyPending(INITIAL.ops);
    GreedyFill(c, INITIAL, 0, pool, n, 1, size, k);
    st := Run(c, INITIAL, Rounds(0, pool, n, 1, size, k));
    assert Reaches(c, Rounds(0, pool, n, 1, size, k), st);
  }

  /**
   The exec quota test of the repository: on 128 MiB, 16 requests of 8 MiB are all granted, and then
   neither the largest nor the smallest exec request is.
   */
  lemma ExecQuotaTest(c: Config) returns (st: State)
    requires c.Valid() && c.total == 128 * MI && 1 <= c.inFlight
    ensures Reaches(c, Rounds(0, Exec, EXEC_MAX, 1, EXEC_MAX, 16), st)
    ensures !Granted(c, st, Exec, EXEC_MAX) && !Granted(c, st, Exec, EXEC_MIN)
  {
    assert FillCount(Room(c, INITIAL, Exec), EXEC_MAX, EXEC_MAX) == 16;
    st := FreshFill(c, Exec, EXEC_MAX, EXEC_MAX, 16);
  }

  /** The storage quota test: one request of 64 MiB is granted, and then neither the largest nor the smallest is. */
  lemma StorageQuotaTest(c: Config) returns (st: State)
    requires c.Valid() && c.total == 128 * MI && c.storageQuota == 64 * MI && 1 <= c.inFlight
    ensures Reaches(c, Rounds(0, Storage, STORAGE_MAX, 1, STORAGE_MAX, 1), st)
    ensures !Granted(c, st, Storage, STORAGE_MAX) && !Granted(c, st, Storage, STORAGE_MIN)
  {
    assert FillCount(Room(c, INITIAL, Storage), STORAGE_MAX, STORAGE_MAX) == 1;
    st := FreshFill(c, Storage, STORAGE_MAX, STORAGE_MAX, 1);
  }
}
