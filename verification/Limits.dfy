/** What is granted, in numbers of bytes: the limits of one request, and what is left of the memory. */
module Limits {
  import opened CArith
  import opened Protocol
  import opened Sums
  import opened Invariant
  import opened Accounting
  import opened MemMgr
  import Policy = PolicyMgr

  /** Real bytes of the live blocks of a pool. */
  ghost function Live(st: State, pool: Pool): nat {
    MapSum(st.heap, SizeIn(pool))
  }

  /** No state of the counters lets the machine decision grant a request outside 1 byte to 8 MiB, or 4 KiB to 64 MiB. */
  lemma MachineLimits(total: SizeT, storageQuota: SizeT, exec: SizeT, storage: SizeT, n: SizeT)
    ensures Policy.AdmitsWrapped(total, storageQuota, exec, storage, Exec, n) ==> 1 <= n <= 8388608
    ensures Policy.AdmitsWrapped(total, storageQuota, exec, storage, Storage, n) ==> 4096 <= n <= 67108864
  {
  }

  /** In every reachable state the machine grants exactly the allowed sizes that fit in what the counters leave. */
  lemma GrantedExactly(c: Config, st: State, n: SizeT)
    requires c.Valid() && NoWrap(c) && Reachable(c, st)
    ensures c.total < TWO_64 && 0 <= st.exec < TWO_64 && 0 <= st.storage < TWO_64
    ensures Policy.AdmitsWrapped(c.total, c.storageQuota, st.exec, st.storage, Exec, n)
            <==> 1 <= n <= 8388608 && st.exec + st.storage + n <= c.total
    ensures Policy.AdmitsWrapped(c.total, c.storageQuota, st.exec, st.storage, Storage, n)
            <==> 4096 <= n <= 67108864 && st.storage + n <= c.storageQuota && st.exec + st.storage + n <= c.total
  {
    DecisionExact(c, st, Exec, n);
    DecisionExact(c, st, Storage, n);
  }

  /** With no call in progress, that is what the live blocks leave. */
  lemma GrantedByLiveBytes(c: Config, st: State, n: nat)
    requires c.Valid() && Reachable(c, st) && st.Quiescent()
    ensures Granted(c, st, Exec, n) <==> 1 <= n <= 8388608 && Live(st, Exec) + Live(st, Storage) + n <= c.total
    ensures Granted(c, st, Storage, n)
            <==> && 4096 <= n <= 67108864 && Live(st, Storage) + n <= c.storageQuota
                 && Live(st, Exec) + Live(st, Storage) + n <= c.total
  {
    Quiescence(c, st, Exec);
    Quiescence(c, st, Storage);
  }

  /** A fresh manager grants every allowed size that fits, and no other. */
  lemma GrantedFresh(c: Config, n: nat)
    requires c.Valid()
    ensures Granted(c, INITIAL, Exec, n) <==> 1 <= n <= 8388608 && n <= c.total
    ensures Granted(c, INITIAL, Storage, n) <==> 4096 <= n <= 67108864 && n <= c.storageQuota
  {
  }

  /** The size tests of the repository: what they expect to be refused is refused in every state. */
  lemma SizesRefused(c: Config, st: State)
    ensures !Granted(c, st, Exec, 8 * 1024 * 1024 + 1)
    ensures !Granted(c, st, Storage, 1) && !Granted(c, st, Storage, 4) && !Granted(c, st, Storage, 8)
    ensures !Granted(c, st, Storage, 64 * 1024 * 1024 + 1)
  {
  }

  /** And what they expect to be granted is granted by the fresh manager of 128 MiB that they use. */
  lemma SizesGranted(c: Config)
    requires c.Valid() && c.total == 128 * 1024 * 1024 && c.storageQuota == 64 * 1024 * 1024
    ensures Granted(c, INITIAL, Exec, 1) && Granted(c, INITIAL, Exec, 4) && Granted(c, INITIAL, Exec, 8)
    ensures Granted(c, INITIAL, Storage, 4 * 1024)
  {
  }
}
