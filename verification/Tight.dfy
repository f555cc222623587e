/** The overshoot bounds are reached, in both pools: interleavings that end exactly on them. */
module Tight {
  import opened Protocol
  import opened Sums
  import opened Invariant
  import opened Accounting
  import opened StorageBounds
  import opened Arith
  import opened Fill

  /** What thread `t` holds: the smallest request, and thread 0 `extra` bytes more. */
  function Share(pool: Pool, extra: nat, t: Tid): nat {
    MinSize(pool) + if t == 0 then extra else 0
  }

  /** The threads 0 to `k`-1 hold one reservation each. */
  ghost predicate Holders(ops: map<Tid, Op>, pool: Pool, extra: nat, k: nat) {
    && (forall t: Tid :: t in ops <==> t < k)
    && (forall t :: t in ops ==> ops[t] == Reserved(pool, Share(pool, extra, t)))
  }

  /** The bytes that `k` such threads hold together. */
  function Held(pool: Pool, extra: nat, k: nat): nat {
    if k == 0 then 0 else Held(pool, extra, k - 1) + Share(pool, extra, k - 1)
  }

  lemma {:induction false} HeldTotal(pool: Pool, extra: nat, k: nat)
    ensures Held(pool, extra, k) == k * MinSize(pool) + if k == 0 then 0 else extra
  {
    if k != 0 {
      HeldTotal(pool, extra, k - 1);
      MulStep(k - 1, MinSize(pool));
    }
  }

  /** The counters fit under the limits of requests to `pool`. */
  predicate UnderLimits(c: Config, exec: int, storage: int, pool: Pool) {
    exec + storage <= c.total && (pool == Storage ==> storage <= c.storageQuota)
  }

  /** One more thread is granted its share. */
  lemma ReserveOne(c: Config, st: State, pool: Pool, extra: nat, t: Tid) returns (st': State)
    requires Reachable(c, st) && Holders(st.ops, pool, extra, t) && Pending(st) == t < c.inFlight
    requires InRange(pool, Share(pool, extra, t)) && Granted(c, st, pool, Share(pool, extra, t))
    ensures Reachable(c, st') && st' == st.Charge(pool, Share(pool, extra, t)).(ops := st'.ops)
    ensures Holders(st'.ops, pool, extra, t + 1) && Pending(st') == t + 1
  {
    var a := Request(t, pool, Share(pool, extra, t));
    ReachableStep(c, st, a);
    st' := Apply(c, st, a);
    SumSet(st.ops, t, Reserved(pool, a.n), PendingOf());
    assert st.ops - {t} == st.ops;
  }

  lemma {:induction false} ReserveEach(c: Config, st: State, pool: Pool, extra: nat, k: nat) returns (st': State)
    requires Reachable(c, st) && st.Quiescent() && k <= c.inFlight
    requires InRange(pool, MinSize(pool) + extra)
    requires var held := st.Charge(pool, Held(pool, extra, k)); UnderLimits(c, held.exec, held.storage, pool)
    ensures Reachable(c, st') && st' == st.Charge(pool, Held(pool, extra, k)).(ops := st'.ops)
    ensures Holders(st'.ops, pool, extra, k) && Pending(st') == k
    decreases k
  {
    if k == 0 {
      st' := st;
      EmptyPending(st.ops);
    } else {
      var st1 := ReserveEach(c, st, pool, extra, k - 1);
      st' := ReserveOne(c, st1, pool, extra, k - 1);
    }
  }

  /** As many whole blocks as fit are granted, one after the other. */
  lemma BlocksFit(room: int, n: nat, blocks: nat)
    requires 1 <= n && blocks * n <= room
    ensures blocks <= FillCount(room, n, n)
  {
    if blocks != 0 {
      MulStep(blocks - 1, n);
      CountMeaning(room, n, n, blocks - 1);
    }
  }

  /** `st` is `start` after `bytes` more bytes of a pool, in blocks below `last` of the smallest request's size. */
  ghost predicate Grown(start: State, st: State, pool: Pool, bytes: nat, last: Ptr) {
    && st.exec == start.exec + (if pool == Exec then bytes else 0)
    && st.storage == start.storage + (if pool == Storage then bytes else 0)
    && forall p :: p in st.heap ==> p < last && (p in start.heap || st.heap[p].size == MinSize(pool))
  }

  /** Completed allocations of the smallest size add any multiple of it to a counter, within the limits. */
  lemma FillTo(c: Config, start: State, first: Ptr, pool: Pool, bytes: nat) returns (st: State)
    requires Reachable(c, start) && start.Quiescent() && 1 <= c.inFlight
    requires NULL < first && forall p :: p in start.heap ==> p < first
    requires var end := start.Charge(pool, bytes); UnderLimits(c, end.exec, end.storage, pool)
    requires bytes % MinSize(pool) == 0
    ensures Reachable(c, st) && st.Quiescent() && Grown(start, st, pool, bytes, first + bytes)
  {
    var n := MinSize(pool);
    var blocks := bytes / n;
    assert blocks * n == bytes && blocks <= bytes;
    BlocksFit(Room(c, start, pool), n, blocks);
    EmptyPending(start.ops);
    GreedyFill(c, start, 0, pool, n, first, n, blocks);
    var acts := Rounds(0, pool, n, first, n, blocks);
    ReachableRun(c, start, acts);
    st := Run(c, start, acts);
  }

  lemma MultipleMod(q: nat, n: nat)
    requires 1 <= n
    ensures q * n % n == 0
  {
    DivUnique(q * n, n, q, 0);
  }

  lemma MultipleRest(a: nat, k: nat, n: nat)
    requires 1 <= n && a % n == 0 && k * n <= a
    ensures (a - k * n) % n == 0
  {
    var q := a / n;
    assert a == q * n;
    assert a - k * n == (q - k) * n;
    MultipleMod(q - k, n);
  }

  /**
   `k` threads hold their shares, and the pool's counter has grown by `bytes`; the rest of them, a
   multiple of the smallest request, is in completed allocations.
   */
  lemma HoldersAt(c: Config, start: State, first: Ptr, pool: Pool, extra: nat, k: nat, bytes: nat) returns (st: State)
    requires Reachable(c, start) && start.Quiescent()
    requires NULL < first && forall p :: p in start.heap ==> p < first
    requires 1 <= k <= c.inFlight && InRange(pool, MinSize(pool) + extra)
    requires k * MinSize(pool) + extra <= bytes && (bytes - extra) % MinSize(pool) == 0
    requires var end := start.Charge(pool, bytes); UnderLimits(c, end.exec, end.storage, pool)
    ensures Reachable(c, st) && Holders(st.ops, pool, extra, k) && Grown(start, st, pool, bytes, first + bytes)
  {
    HeldTotal(pool, extra, k);
    MultipleRest(bytes - extra, k, MinSize(pool));
    var full := FillTo(c, start, first, pool, bytes - extra - k * MinSize(pool));
    st := ReserveEach(c, full, pool, extra, k);
  }

  /** Thread `t` gets a block with `size` bytes. */
  lemma ServeOne(c: Config, st: State, t: Tid, p: Ptr, size: nat) returns (st': State)
    requires Reachable(c, st) && t in st.ops && st.ops[t].Reserved?
    requires NULL < p && (forall q :: q in st.heap ==> q < p)
    requires st.ops[t].n <= size <= st.ops[t].n + c.slack
    ensures Reachable(c, st')
    ensures st' == State(st.exec, st.storage,
                         st.heap[p := Block(st.ops[t].pool, st.ops[t].n, size, Charging(t))],
                         st.ops[t := Allocated(st.ops[t].pool, st.ops[t].n, p, size)])
  {
    ReachableStep(c, st, MallocOk(t, p, size));
    st' := Apply(c, st, MallocOk(t, p, size));
  }

  /** The last of the holders gets a block with `part` bytes of slack, and charges them. */
  lemma SettleOne(c: Config, st: State, pool: Pool, extra: nat, t: Tid, p: Ptr, part: nat) returns (st': State)
    requires Reachable(c, st) && Holders(st.ops, pool, extra, t + 1) && part <= c.slack
    requires NULL < p && forall q :: q in st.heap ==> q < p
    ensures Reachable(c, st') && Holders(st'.ops, pool, extra, t)
    ensures var n := Share(pool, extra, t);
            st' == st.Charge(pool, part).(ops := st'.ops, heap := st.heap[p := Block(pool, n, n + part, Owned)])
  {
    assert t in st.ops;
    var st1 := ServeOne(c, st, t, p, st.ops[t].n + part);
    ReachableStep(c, st1, Settle(t));
    st' := Apply(c, st1, Settle(t));
    assert st'.heap == st.heap[p := Block(pool, Share(pool, extra, t), Share(pool, extra, t) + part, Owned)];
  }

  /** The threads `k`-1 down to 0 each get a block and charge its slack, `over` bytes in all. */
  lemma {:induction false} SettleEach(c: Config, st: State, pool: Pool, extra: nat, k: nat, first: Ptr, over: nat)
    returns (st': State)
    requires Reachable(c, st) && Holders(st.ops, pool, extra, k) && over <= k * c.slack
    requires NULL < first && forall p :: p in st.heap ==> p < first
    ensures Reachable(c, st') && st'.Quiescent()
    ensures st'.exec == st.exec + (if pool == Exec then over else 0)
    ensures st'.storage == st.storage + (if pool == Storage then over else 0)
    decreases k
  {
    if k == 0 {
      st' := st;
      assert st.ops == map[];
    } else {
      var part := if over <= c.slack then over else c.slack;
      MulStep(k - 1, c.slack);
      var st1 := SettleOne(c, st, pool, extra, k - 1, first, part);
      st' := SettleEach(c, st1, pool, extra, k - 1, first + 1, over - part);
    }
  }

  /**
   The system bound is tight, and every overshoot below it occurs: some interleaving ends with the
   counters `over` bytes above the managed memory.
   */
  lemma OvershootReached(c: Config, over: nat) returns (st: State)
    requires 1 <= AtMost(c) && over <= AtMost(c) * c.slack
    ensures Reachable(c, st) && st.Quiescent()
    ensures st.storage == 0 && st.exec == c.total + over
  {
    InitialReachable(c);
    var held := HoldersAt(c, INITIAL, 1, Exec, 0, AtMost(c), c.total);
    st := SettleEach(c, held, Exec, 0, AtMost(c), c.total + 1, over);
  }

  /**
   The storage bound, and with it the guaranteed exec share, is tight. With any part `exec` of its half
   in use by exec, an interleaving ends with storage `over` bytes above its quota; exec is then granted
   exactly what is left of its half less those bytes.
   */
  lemma StorageOvershootReached(c: Config, over: nat, exec: nat) returns (st: State)
    requires c.Valid() && 1 <= AtMostStorage(c) && over <= AtMostStorage(c) * c.slack && exec <= c.execQuota
    ensures Reachable(c, st) && st.Quiescent()
    ensures st.exec == exec && st.storage == c.storageQuota + over
    ensures forall n: nat :: InRange(Exec, n) ==> (Granted(c, st, Exec, n) <==> exec + n <= c.execQuota - over)
  {
    var k, extra := AtMostStorage(c), c.storageQuota % STORAGE_MIN;
    InitialReachable(c);
    var start := FillTo(c, INITIAL, 1, Exec, exec);
    var held := HoldersAt(c, start, 1 + exec, Storage, extra, k, c.storageQuota);
    st := SettleEach(c, held, Storage, extra, k, 1 + exec + c.storageQuota, over);
  }

  // ----- exactly how far each promise is kept -----

  /** The counters stay within `margin` of the managed memory exactly when it covers one slack for each possible allocation in flight. */
  lemma TotalMarginExact(c: Config, margin: nat)
    requires c.Valid()
    ensures (forall st :: Reachable(c, st) ==> st.exec + st.storage <= c.total + margin)
            <==> AtMost(c) * c.slack <= margin
  {
    if AtMost(c) * c.slack <= margin {
      forall st | Reachable(c, st) ensures st.exec + st.storage <= c.total + margin {
        ClampedBound(c, st);
      }
    } else {
      var st := OvershootReached(c, AtMost(c) * c.slack);
      assert Reachable(c, st) && st.exec + st.storage > c.total + margin;
    }
  }

  /** The same for the real bytes live in the allocator. */
  lemma PhysicalMarginExact(c: Config, margin: nat)
    requires c.Valid()
    ensures (forall st :: Reachable(c, st) ==> MapSum(st.heap, SizeOf()) <= c.total + margin)
            <==> AtMost(c) * c.slack <= margin
  {
    if AtMost(c) * c.slack <= margin {
      forall st | Reachable(c, st) ensures MapSum(st.heap, SizeOf()) <= c.total + margin {
        ClampInFlight(c, st);
        PhysicalBound(Clamped(c), st);
      }
    } else {
      var st := OvershootReached(c, AtMost(c) * c.slack);
      Quiescence(c, st, Exec);
      Quiescence(c, st, Storage);
      SumSplit(st.heap, SizeOf(), SizeIn(Exec), SizeIn(Storage));
      assert Reachable(c, st) && MapSum(st.heap, SizeOf()) > c.total + margin;
    }
  }

  /** Storage stays within `margin` of its quota exactly when it covers one slack for each possible storage allocation in flight. */
  lemma StorageMarginExact(c: Config, margin: nat)
    requires c.Valid()
    ensures (forall st :: Reachable(c, st) ==> st.storage <= c.storageQuota + margin)
            <==> AtMostStorage(c) * c.slack <= margin
  {
    if AtMostStorage(c) * c.slack <= margin {
      forall st | Reachable(c, st) ensures st.storage <= c.storageQuota + margin {
        StorageBound(c, st);
      }
    } else {
      var st := StorageOvershootReached(c, AtMostStorage(c) * c.slack, 0);
      assert Reachable(c, st) && st.storage > c.storageQuota + margin;
    }
  }

  /** Exec is granted every request that leaves it `margin` below its half. */
  ghost predicate ExecShareKept(c: Config, margin: nat) {
    forall st, n: nat :: Reachable(c, st) && InRange(Exec, n) && st.exec + n <= c.execQuota - margin ==>
                           Granted(c, st, Exec, n)
  }

  /**
   The exec half less `margin` is guaranteed, whatever storage does, exactly when the margin covers one
   slack for each possible storage allocation in flight, or leaves nothing of the half.
   */
  lemma ExecShareExact(c: Config, margin: nat)
    requires c.Valid()
    ensures ExecShareKept(c, margin) <==> AtMostStorage(c) * c.slack <= margin || c.execQuota <= margin
  {
    if AtMostStorage(c) * c.slack <= margin || c.execQuota <= margin {
      forall st, n: nat | Reachable(c, st) && InRange(Exec, n) && st.exec + n <= c.execQuota - margin
        ensures Granted(c, st, Exec, n)
      {
        StorageBound(c, st);
        CountersCover(c, st);
      }
    } else {
      var st := StorageOvershootReached(c, AtMostStorage(c) * c.slack, c.execQuota - margin - 1);
      assert Reachable(c, st) && InRange(Exec, 1) && !Granted(c, st, Exec, 1);
    }
  }

  lemma ZeroProduct(a: nat, b: nat)
    ensures a * b <= 0 <==> a == 0 || b == 0
  {
  }

  /**
   "Used memory never exceeds the managed memory" is false as soon as the allocator rounds up: it
   holds in every reachable state exactly when there is no slack, or nothing can be granted at all.
   */
  lemma TotalRespectedIffNoSlack(c: Config)
    requires c.Valid()
    ensures (forall st :: Reachable(c, st) ==> st.exec + st.storage <= c.total)
            <==> c.slack == 0 || c.inFlight == 0 || c.total == 0
  {
    TotalMarginExact(c, 0);
    ZeroProduct(AtMost(c), c.slack);
  }

  /** Storage stays within its quota in every reachable state exactly when there is no slack, or storage can be granted nothing. */
  lemma StorageRespectedIffNoSlack(c: Config)
    requires c.Valid()
    ensures (forall st :: Reachable(c, st) ==> st.storage <= c.storageQuota)
            <==> c.slack == 0 || c.inFlight == 0 || c.storageQuota < STORAGE_MIN
  {
    StorageMarginExact(c, 0);
    ZeroProduct(AtMostStorage(c), c.slack);
  }

  /** Exec gets its whole half whatever storage does exactly when storage can not pass its quota, or there is no half to get. */
  lemma ExecHalfIffNoSlack(c: Config)
    requires c.Valid()
    ensures (forall st, n: nat :: Reachable(c, st) && InRange(Exec, n) && st.exec + n <= c.execQuota ==>
                                    Granted(c, st, Exec, n))
            <==> c.slack == 0 || c.inFlight == 0 || c.storageQuota < STORAGE_MIN || c.execQuota == 0
  {
    ExecShareExact(c, 0);
    ZeroProduct(AtMostStorage(c), c.slack);
    assert c.execQuota - 0 == c.execQuota;
  }
}
