/** Exactly when the signed additions that correct a counter can never leave the range of `signed long`. */
module SignedRange {
  import opened CArith
  import opened Protocol
  import opened Invariant
  import opened Accounting
  import opened Arith
  import opened Tight
  import MemMgr

  /** What the next policy call of an unfinished call adds to its counter. */
  function Correction(op: Op): int {
    match op
    case Reserved(_, _) => 0
    case NoMemory(_, n) => 0 - n
    case Allocated(_, n, _, size) => size - n
    case SizeRead(_, _, _) => 0
    case Freed(_, size) => 0 - size
  }

  /** The machine's sum `(signed long)used + diff`, with `diff` converted from `size_t`, is in range. */
  predicate SumFits(used: int, diff: int) {
    0 - TWO_63 <= ToLong(ToSize(used)) + ToLong(ToSize(diff)) < TWO_63
  }

  /** No correction that any thread is about to make overflows. */
  ghost predicate CorrectionsFit(st: State) {
    forall t :: t in st.ops ==> SumFits(st.Used(st.ops[t].pool), Correction(st.ops[t]))
  }

  /** Every block and every size a thread has read is a `size_t`. */
  ghost predicate MachineSizes(st: State) {
    && (forall p :: p in st.heap ==> st.heap[p].size < TWO_64)
    && (forall t :: t in st.ops ==> (st.ops[t].Allocated? || st.ops[t].SizeRead? || st.ops[t].Freed? ==> st.ops[t].size < TWO_64))
  }

  lemma ExactSum(used: int, diff: int)
    requires 0 <= used < TWO_63 && 0 <= used + diff < TWO_63
    ensures SumFits(used, diff)
  {
  }

  /** Within the range, every correction is an exact sum between 0 and 2^63. */
  lemma FitsIsEnough(c: Config, st: State, t: Tid)
    requires c.Valid() && MemMgr.Fits(c) && Reachable(c, st) && t in st.ops
    ensures SumFits(st.Used(st.ops[t].pool), Correction(st.ops[t]))
  {
    var op := st.ops[t];
    MemMgr.CountersFit(c, st);
    if op.Allocating() {
      MemMgr.PendingRoom(c, st, t);
      if op.Allocated? {
        MemMgr.AllocatedBlock(c, st, t);
      }
    } else if op.Freed? {
      MemMgr.FreedRoom(c, st, t);
    }
    ExactSum(st.Used(op.pool), Correction(op));
  }

  /** Where nothing may be in flight, nothing ever happens. */
  lemma {:induction false} NothingInFlight(c: Config, acts: seq<Action>, st: State)
    requires c.inFlight == 0 && Legal(c, st, acts) && st.heap == map[] && st.ops == map[]
    ensures Run(c, st, acts).ops == map[]
    decreases |acts|
  {
    if acts != [] {
      NothingInFlight(c, acts[1..], Apply(c, st, acts[0]));
    }
  }

  /** Where one full slack would carry the counter across 2^63, a block rounded up to just there overflows it. */
  lemma CrossHere(c: Config, st: State, t: Tid, p: Ptr) returns (bad: State)
    requires Reachable(c, st) && MachineSizes(st)
    requires t in st.ops && st.ops[t] == Reserved(Exec, 1)
    requires NULL < p && forall q :: q in st.heap ==> q < p
    requires 1 <= st.exec < TWO_63 <= st.exec + c.slack
    ensures Reachable(c, bad) && MachineSizes(bad) && !CorrectionsFit(bad)
    ensures bad.exec == st.exec && bad.storage == st.storage
  {
    bad := ServeOne(c, st, t, p, 1 + TWO_63 - st.exec);
    assert !SumFits(bad.Used(Exec), Correction(bad.ops[t]));
  }

  /** Threads that charge their slacks one after the other carry the counter across 2^63 in one of them. */
  lemma {:induction false} Crossing(c: Config, st: State, k: nat, first: Ptr) returns (bad: State)
    requires Reachable(c, st) && Holders(st.ops, Exec, 0, k) && MachineSizes(st)
    requires NULL < first && forall p :: p in st.heap ==> p < first
    requires 1 <= st.exec < TWO_63 <= st.exec + k * c.slack
    ensures Reachable(c, bad) && MachineSizes(bad) && !CorrectionsFit(bad)
    ensures 0 <= bad.exec < TWO_63 && bad.storage == st.storage
    decreases k
  {
    var t: Tid := k - 1;
    assert t in st.ops;
    if TWO_63 <= st.exec + c.slack {
      bad := CrossHere(c, st, t, first);
    } else {
      var st1 := SettleOne(c, st, Exec, 0, t, first, c.slack);
      MulStep(t, c.slack);
      bad := Crossing(c, st1, t, first + 1);
    }
  }

  /** With 2^63 bytes or more, one failed request at 2^63 used bytes takes the rollback below the range. */
  lemma RollbackOverflow(c: Config) returns (bad: State)
    requires c.Valid() && 1 <= c.inFlight && TWO_63 <= c.total
    ensures Reachable(c, bad) && MachineSizes(bad) && !CorrectionsFit(bad)
  {
    InitialReachable(c);
    var held := HoldersAt(c, INITIAL, 1, Exec, 0, 1, TWO_63);
    var t: Tid := 0;
    assert t in held.ops && held.ops[t] == Reserved(Exec, 1);
    ReachableStep(c, held, MallocFail(t));
    bad := Apply(c, held, MallocFail(t));
    assert bad.ops[t] == NoMemory(Exec, 1) && !SumFits(bad.Used(Exec), Correction(bad.ops[t]));
  }

  /** Beyond the range, an interleaving with machine sizes reaches a correction that overflows. */
  lemma Overflow(c: Config) returns (bad: State)
    requires c.Valid() && 1 <= AtMost(c) && !MemMgr.Fits(c)
    ensures Reachable(c, bad) && MachineSizes(bad) && !CorrectionsFit(bad)
  {
    if TWO_63 <= c.total {
      bad := RollbackOverflow(c);
    } else {
      var k := AtMost(c);
      InitialReachable(c);
      var held := HoldersAt(c, INITIAL, 1, Exec, 0, k, c.total);
      bad := Crossing(c, held, k, c.total + 1);
    }
  }

  lemma AllInRange(c: Config, st: State)
    requires c.Valid() && Reachable(c, st) && (AtMost(c) == 0 || MemMgr.Fits(c))
    ensures CorrectionsFit(st)
  {
    if MemMgr.Fits(c) {
      forall t | t in st.ops ensures SumFits(st.Used(st.ops[t].pool), Correction(st.ops[t])) {
        FitsIsEnough(c, st, t);
      }
    } else {
      ClampInFlight(c, st);
      var acts :| Reaches(Clamped(c), acts, st);
      NothingInFlight(Clamped(c), acts, INITIAL);
    }
  }

  /**
   The signed additions, for slack, rollback and free alike, are in range in every reachable state if
   and only if nothing can be in flight at all, or the managed memory plus one slack for each
   allocation that can be in flight stays below 2^63.
   */
  lemma SignedAdditionExact(c: Config)
    requires c.Valid()
    ensures (forall st :: Reachable(c, st) && MachineSizes(st) ==> CorrectionsFit(st))
            <==> AtMost(c) == 0 || c.total + AtMost(c) * c.slack < TWO_63
  {
    if AtMost(c) == 0 || MemMgr.Fits(c) {
      forall st | Reachable(c, st) && MachineSizes(st) ensures CorrectionsFit(st) {
        AllInRange(c, st);
      }
    } else {
      var bad := Overflow(c);
      assert Reachable(c, bad) && MachineSizes(bad) && !CorrectionsFit(bad);
    }
  }
}
