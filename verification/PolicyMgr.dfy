/** The policy manager with its machine arithmetic: the quota split, the admission decision, the counter updates. */
module PolicyMgr {
  import opened CArith
  import opened Protocol

  const EXEC_POOL_QUOTA := 50

  /** The exec quota the code computes; the product wraps for very large totals. */
  function ExecQuota(total: SizeT): SizeT {
    ToSize(EXEC_POOL_QUOTA * total) / 100
  }

  /**
   The split is sound for every total, also where the product wraps: both parts are in range and add
   up to the total. It is the documented half and half exactly when the product does not wrap.
   */
  lemma QuotaSplit(total: SizeT)
    ensures ExecQuota(total) <= total - ExecQuota(total)
    ensures ToSize(total - ExecQuota(total)) + ExecQuota(total) == total
    ensures ExecQuota(total) == total / 2 <==> total <= (TWO_64 - 1) / 50
    ensures total <= (TWO_64 - 1) / 50 ==> total - ExecQuota(total) == (total + 1) / 2
  {
    var product := 50 * total;
    if product < TWO_64 {
      assert ToSize(product) == product;
    } else {
      var q := product / TWO_64;
      assert product == q * TWO_64 + ToSize(product);
      assert 1 <= q;
      assert ToSize(product) <= product - TWO_64;
    }
  }

  /** The admission decision over 64-bit counters: the system-wide check adds them with wrap-around. */
  predicate AdmitsWrapped(total: SizeT, storageQuota: SizeT, exec: SizeT, storage: SizeT, pool: Pool, n: SizeT) {
    && InRange(pool, n)
    && (if pool == Exec then exec + n <= total else storage + n <= storageQuota)
    && ToSize(exec + storage) + n <= total
  }

  /**
   Admission exactness. The 64-bit decision is the published policy on every request exactly when the
   sum of the counters does not wrap, or wraps where each pool is full on its own.
   */
  lemma AdmissionExact(c: Config, exec: SizeT, storage: SizeT)
    requires c.Valid() && c.total < TWO_64
    ensures (forall pool, n: SizeT ::
               AdmitsWrapped(c.total, c.storageQuota, exec, storage, pool, n) <==> Admits(c, exec, storage, pool, n))
            <==> exec + storage < TWO_64 || (c.total <= exec && c.storageQuota < storage + STORAGE_MIN)
  {
    if exec + storage < TWO_64 {
      assert ToSize(exec + storage) == exec + storage;
    } else {
      assert ToSize(exec + storage) == exec + storage - TWO_64;
      assert AdmitsWrapped(c.total, c.storageQuota, exec, storage, Exec, 1) <==> exec < c.total;
      assert AdmitsWrapped(c.total, c.storageQuota, exec, storage, Storage, STORAGE_MIN)
          <==> storage + STORAGE_MIN <= c.storageQuota;
      assert !Admits(c, exec, storage, Exec, 1) && !Admits(c, exec, storage, Storage, STORAGE_MIN);
    }
  }

  class PoolCtx {
    var used: SizeT
    var minReqSize: SizeT
    var maxReqSize: SizeT
    var totalPoolMem: SizeT

    constructor ()
      ensures used == minReqSize == maxReqSize == totalPoolMem == 0
    {
      used, minReqSize, maxReqSize, totalPoolMem := 0, 0, 0, 0;
    }
  }

  class PolicyMgr {
    var totalMemory: SizeT
    const exec: PoolCtx
    const storage: PoolCtx

    /** The manager has been initialised: size limits, and a quota split that adds up. */
    ghost predicate Valid()
      reads this, exec, storage
    {
      && exec != storage
      && exec.minReqSize == EXEC_MIN && exec.maxReqSize == EXEC_MAX
      && storage.minReqSize == STORAGE_MIN && storage.maxReqSize == STORAGE_MAX
      && exec.totalPoolMem + storage.totalPoolMem == totalMemory
    }

    function Ctx(pool: Pool): PoolCtx {
      if pool == Exec then exec else storage
    }

    constructor ()
      ensures exec != storage && fresh(exec) && fresh(storage)
    {
      exec := new PoolCtx();
      storage := new PoolCtx();
      totalMemory := 0;
    }

    method Init(total: SizeT)
      requires exec != storage
      modifies this, exec, storage
      ensures Valid() && totalMemory == total
      ensures exec.used == 0 && storage.used == 0
      ensures exec.totalPoolMem == ExecQuota(total)
    {
      totalMemory := total;
      var execTotal := ToSize(EXEC_POOL_QUOTA * total) / 100;
      exec.totalPoolMem := execTotal;
      exec.minReqSize := EXEC_MIN;
      exec.maxReqSize := EXEC_MAX;
      exec.used := 0;
      storage.totalPoolMem := ToSize(total - execTotal);
      storage.minReqSize := STORAGE_MIN;
      storage.maxReqSize := STORAGE_MAX;
      storage.used := 0;
      QuotaSplit(total);
    }

    /** Decides a request under the mutex and, when it is granted, reserves the requested bytes. */
    method Alloc(pool: Pool, n: SizeT) returns (granted: bool)
      requires Valid()
      modifies exec`used, storage`used
      ensures granted <==> AdmitsWrapped(totalMemory, storage.totalPoolMem, old(exec.used), old(storage.used), pool, n)
      ensures granted && pool == Exec ==> 1 <= n <= 8388608
      ensures granted && pool == Storage ==> 4096 <= n <= 67108864
      ensures exec.used == old(exec.used) + (if granted && pool == Exec then n else 0)
      ensures storage.used == old(storage.used) + (if granted && pool == Storage then n else 0)
    {
      var execUsed := exec.used;
      var storageTotal := storage.totalPoolMem;
      var storageUsed := storage.used;
      var totalUsed := ToSize(execUsed + storageUsed);
      match pool {
        case Exec =>
          if n > exec.maxReqSize || n < exec.minReqSize || n > totalMemory {
            return false;
          }
          if ToSize(totalMemory - n) < execUsed {
            return false;
          }
        case Storage =>
          if n > storage.maxReqSize || n < storage.minReqSize || n > storageTotal {
            return false;
          }
          if ToSize(storageTotal - n) < storageUsed {
            return false;
          }
      }
      if ToSize(totalMemory - n) < totalUsed {
        return false;
      }
      if pool == Exec {
        exec.used := ToSize(execUsed + n);
      } else {
        storage.used := ToSize(storageUsed + n);
      }
      return true;
    }

    /** Adds a signed difference to a counter, by way of `signed long`; the sum must be a `signed long`. */
    method AdjustAlloc(pool: Pool, diff: Long)
      requires exec != storage
      requires -TWO_63 <= ToLong(Ctx(pool).used) + diff < TWO_63
      modifies Ctx(pool)`used
      ensures Ctx(pool).used == ToSize(old(Ctx(pool).used) + diff)
    {
      var ctx := Ctx(pool);
      var sum: Long := ToLong(ctx.used) + diff;
      ctx.used := ToSize(sum);
    }
  }
}
