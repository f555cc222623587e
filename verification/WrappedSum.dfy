/** A reachable state whose counters add up to 2^64, where the 64-bit admission decision is wrong. */
module WrappedSum {
  import opened CArith
  import opened Protocol
  import opened Invariant
  import opened Fill
  import opened Tight
  import opened MemMgr
  import Policy = PolicyMgr

  /** The 64-bit decision over the counters as the machine holds them. */
  ghost predicate AdmitsModulo(c: Config, st: State, pool: Pool, n: SizeT)
    requires c.Valid() && c.total < TWO_64
  {
    Policy.AdmitsWrapped(c.total, c.storageQuota, ToSize(st.exec), ToSize(st.storage), pool, n)
  }

  /**
   On a manager of nearly 2^64 bytes, exec takes all but the smallest storage request, storage takes
   that, and its block is rounded up so far that the counters add up to exactly 2^64. Both counters are
   in range and the memory is full, but the wrapped sum is 0 and the smallest exec request is granted.
   */
  lemma WrapReached(c: Config) returns (st: State)
    requires c.Valid() && 1 <= c.inFlight && STORAGE_MIN <= c.storageQuota
    requires TWO_63 + STORAGE_MIN < c.total < TWO_64 <= c.total + c.slack
    ensures Reachable(c, st) && st.Quiescent()
    ensures 0 <= st.exec < TWO_64 && 0 <= st.storage < TWO_63 && st.exec + st.storage == TWO_64
    ensures !Granted(c, st, Exec, EXEC_MIN)
    ensures Policy.AdmitsWrapped(c.total, c.storageQuota, st.exec, st.storage, Exec, EXEC_MIN)
  {
    InitialReachable(c);
    var full := FillTo(c, INITIAL, 1, Exec, c.total - STORAGE_MIN);
    var size := STORAGE_MIN + TWO_64 - c.total;
    var acts := Round(0, Storage, STORAGE_MIN, c.total, size);
    EmptyPending(full.ops);
    RoundRun(c, full, 0, Storage, STORAGE_MIN, c.total, size);
    st := Run(c, full, acts);
    ReachableRun(c, full, acts);
  }

  /**
   Over counters that the machine holds modulo 2^64, the decision is the published policy in every
   reachable state exactly when even the largest overshoot does not wrap. Otherwise a manager that
   stands at 2^64 exactly looks empty.
   */
  lemma DecisionIffNoWrap(c: Config)
    requires c.Valid() && c.total < TWO_64
    ensures (forall st, pool, n: SizeT :: Reachable(c, st) ==>
                                            (AdmitsModulo(c, st, pool, n) <==> Granted(c, st, pool, n)))
            <==> NoWrap(c)
  {
    if NoWrap(c) {
      forall st, pool, n: SizeT | Reachable(c, st) ensures AdmitsModulo(c, st, pool, n) <==> Granted(c, st, pool, n) {
        DecisionExact(c, st, pool, n);
      }
    } else {
      var st := OvershootReached(c, TWO_64 - c.total);
      assert ToSize(st.exec) == 0 && ToSize(st.storage) == 0;
      assert Reachable(c, st) && AdmitsModulo(c, st, Exec, 1) && !Granted(c, st, Exec, 1);
    }
  }
}
