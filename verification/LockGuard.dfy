/** The lock table's classes. Each method is one atomic section of the source, under both locks or
    under one `try_write`, and does to the table what the corresponding step of `LockTable` does. */
module LockGuard {
  import opened Core
  import opened LockTable

  /** The table after an event, when the only guard it concerns is `g`. */
  ghost function After(t: Table, g: Guard, e: Event): Table
    requires Enabled(System(t, map[0 := g]), e)
  {
    Next(System(t, map[0 := g]), e).table
  }

  /** `AccountLocks` and `AsyncAccountLocks`: the same two tables behind different lock types. */
  class AccountLocks {
    var writeLocked: set<Pubkey>
    var readLocked: map<Pubkey, nat>

    function View(): Table
      reads this
    {
      Table(writeLocked, readLocked)
    }

    /** No reader count is stored as zero. */
    ghost predicate Valid()
      reads this
    {
      forall a :: a in readLocked ==> readLocked[a] > 0
    }

    constructor ()
      ensures Valid() && View() == EMPTY_TABLE
    {
      writeLocked, readLocked := {}, map[];
    }

    method WouldConflict(writeAccounts: set<Pubkey>, readAccounts: set<Pubkey>) returns (conflict: bool)
      ensures conflict <==> LockTable.WouldConflict(View(), writeAccounts, readAccounts)
    {
      var todo := writeAccounts;
      while todo != {}
        invariant todo <= writeAccounts
        invariant forall a :: a in writeAccounts - todo ==> a !in writeLocked && a !in readLocked
        decreases todo
      {
        var acc :| acc in todo;
        if acc in writeLocked || acc in readLocked {
          return true;
        }
        todo := todo - {acc};
      }
      todo := readAccounts;
      while todo != {}
        invariant todo <= readAccounts
        invariant forall a :: a in readAccounts - todo ==> a !in writeLocked
        decreases todo
      {
        var acc :| acc in todo;
        if acc in writeLocked {
          return true;
        }
        todo := todo - {acc};
      }
      return false;
    }

    /** Take the locks, or report the conflict and change nothing. */
    method TryAcquire(writeAccounts: set<Pubkey>, readAccounts: set<Pubkey>) returns (granted: bool)
      requires Valid()
      modifies this
      ensures Valid()
      ensures granted <==> !LockTable.WouldConflict(old(View()), writeAccounts, readAccounts)
      ensures View() == Next(System(old(View()), map[]), LockTable.Acquire(0, writeAccounts, readAccounts)).table
      ensures View() == if granted then Grant(old(View()), writeAccounts, readAccounts) else old(View())
    {
      var conflict := WouldConflict(writeAccounts, readAccounts);
      if conflict {
        return false;
      }
      writeLocked := writeLocked + writeAccounts;
      ghost var before := readLocked;
      var todo := readAccounts;
      while todo != {}
        invariant todo <= readAccounts && writeLocked == old(writeLocked) + writeAccounts
        invariant readLocked == AddReaders(before, readAccounts - todo)
        decreases todo
      {
        var acc :| acc in todo;
        var count := if acc in readLocked then readLocked[acc] else 0;
        readLocked := readLocked[acc := count + 1];
        todo := todo - {acc};
      }
      assert readAccounts - todo == readAccounts;
      return true;
    }

    method ReleaseWrites(writeAccounts: set<Pubkey>)
      requires Valid()
      modifies this`writeLocked
      ensures Valid() && View() == LockTable.ReleaseWrites(old(View()), writeAccounts)
    {
      var todo := writeAccounts;
      while todo != {}
        invariant todo <= writeAccounts && writeLocked == old(writeLocked) - (writeAccounts - todo)
        decreases todo
      {
        var acc :| acc in todo;
        writeLocked := writeLocked - {acc};
        todo := todo - {acc};
      }
    }

    /** The decrement is on a positive count, so it cannot underflow. */
    method ReleaseReads(readAccounts: set<Pubkey>)
      requires Valid()
      modifies this`readLocked
      ensures Valid() && View() == LockTable.ReleaseReads(old(View()), readAccounts)
    {
      ghost var before := readLocked;
      var todo := readAccounts;
      while todo != {}
        invariant Valid() && todo <= readAccounts
        invariant readLocked == DropReaders(before, readAccounts - todo)
        decreases todo
      {
        var acc :| acc in todo;
        if acc in readLocked {
          var count: nat := readLocked[acc] - 1;
          readLocked := if count == 0 then readLocked - {acc} else readLocked[acc := count];
        }
        todo := todo - {acc};
      }
      assert readAccounts - todo == readAccounts;
    }
  }

  /** The synchronous guard: what it holds is fixed at acquisition and released when it is dropped. */
  class AccountLockGuard {
    const locks: AccountLocks
    const writeAccounts: set<Pubkey>
    const readAccounts: set<Pubkey>

    constructor (locks: AccountLocks, writeAccounts: set<Pubkey>, readAccounts: set<Pubkey>)
      ensures this.locks == locks && this.writeAccounts == writeAccounts && this.readAccounts == readAccounts
    {
      this.locks, this.writeAccounts, this.readAccounts := locks, writeAccounts, readAccounts;
    }

    static method Acquire(locks: AccountLocks, writeAccounts: set<Pubkey>, readAccounts: set<Pubkey>)
      returns (r: Result<AccountLockGuard, LockError>)
      requires locks.Valid()
      modifies locks
      ensures locks.Valid()
      ensures r.Ok? <==> !LockTable.WouldConflict(old(locks.View()), writeAccounts, readAccounts)
      ensures r.Err? ==> locks.View() == old(locks.View())
      ensures r.Ok? ==>
        && locks.View() == Grant(old(locks.View()), writeAccounts, readAccounts)
        && r.value.locks == locks && r.value.writeAccounts == writeAccounts && r.value.readAccounts == readAccounts
    {
      var granted := locks.TryAcquire(writeAccounts, readAccounts);
      if !granted {
        return Err(LockAcquisitionFailed);
      }
      var guard := new AccountLockGuard(locks, writeAccounts, readAccounts);
      return Ok(guard);
    }

    static method AcquireAllAsWrite(locks: AccountLocks, accounts: set<Pubkey>)
      returns (r: Result<AccountLockGuard, LockError>)
      requires locks.Valid()
      modifies locks
      ensures locks.Valid()
      ensures r.Ok? <==> accounts !! old(locks.View()).writeLocked + old(locks.View()).readLocked.Keys
      ensures locks.View() == if r.Ok? then Grant(old(locks.View()), accounts, {}) else old(locks.View())
    {
      r := Acquire(locks, accounts, {});
    }

    method Drop()
      requires locks.Valid()
      modifies locks
      ensures locks.Valid()
      ensures locks.View() == After(old(locks.View()), Guard(writeAccounts, readAccounts, Live), LockTable.Release(0))
      ensures locks.View() ==
        LockTable.ReleaseReads(LockTable.ReleaseWrites(old(locks.View()), writeAccounts), readAccounts)
    {
      locks.ReleaseWrites(writeAccounts);
      locks.ReleaseReads(readAccounts);
    }
  }

  /** The async guard. Its drop runs in two sections, each of which may fail to get its lock. */
  class AsyncAccountLockGuard {
    const locks: AccountLocks
    const writeAccounts: set<Pubkey>
    const readAccounts: set<Pubkey>
    var released: bool

    constructor (locks: AccountLocks, writeAccounts: set<Pubkey>, readAccounts: set<Pubkey>)
      ensures this.locks == locks && this.writeAccounts == writeAccounts && this.readAccounts == readAccounts
      ensures !released
    {
      this.locks, this.writeAccounts, this.readAccounts := locks, writeAccounts, readAccounts;
      released := false;
    }

    static method Acquire(locks: AccountLocks, writeAccounts: set<Pubkey>, readAccounts: set<Pubkey>)
      returns (r: Result<AsyncAccountLockGuard, LockError>)
      requires locks.Valid()
      modifies locks
      ensures locks.Valid()
      ensures r.Ok? <==> !LockTable.WouldConflict(old(locks.View()), writeAccounts, readAccounts)
      ensures r.Err? ==> locks.View() == old(locks.View())
      ensures r.Ok? ==>
        && locks.View() == Grant(old(locks.View()), writeAccounts, readAccounts) && fresh(r.value)
        && r.value.locks == locks && r.value.writeAccounts == writeAccounts && r.value.readAccounts == readAccounts
        && !r.value.released
    {
      var granted := locks.TryAcquire(writeAccounts, readAccounts);
      if !granted {
        return Err(LockAcquisitionFailed);
      }
      var guard := new AsyncAccountLockGuard(locks, writeAccounts, readAccounts);
      return Ok(guard);
    }

    method Release()
      requires locks.Valid()
      modifies this, locks
      ensures locks.Valid() && released
      ensures locks.View() == After(old(locks.View()), Guard(writeAccounts, readAccounts, Live), LockTable.Release(0))
      ensures locks.View() ==
        LockTable.ReleaseReads(LockTable.ReleaseWrites(old(locks.View()), writeAccounts), readAccounts)
    {
      locks.ReleaseWrites(writeAccounts);
      locks.ReleaseReads(readAccounts);
      released := true;
    }

    /** First section of drop; `gotLock` is the outcome of `try_write` on the write set. */
    method DropWrites(gotLock: bool)
      requires locks.Valid()
      modifies locks
      ensures locks.Valid()
      ensures !released ==>
        locks.View() == After(old(locks.View()), Guard(writeAccounts, readAccounts, Live), FallbackWrites(0, gotLock))
      ensures locks.View() ==
        if !released && gotLock then LockTable.ReleaseWrites(old(locks.View()), writeAccounts) else old(locks.View())
    {
      if released {
        return;
      }
      if gotLock {
        locks.ReleaseWrites(writeAccounts);
      }
    }

    /** Second section of drop, over the reader counts. */
    method DropReads(gotLock: bool)
      requires locks.Valid()
      modifies locks
      ensures locks.Valid()
      ensures !released ==> forall left ::
        var g := Guard(writeAccounts, readAccounts, WriteTried(left));
        locks.View() == After(old(locks.View()), g, FallbackReads(0, gotLock))
      ensures locks.View() ==
        if !released && gotLock then LockTable.ReleaseReads(old(locks.View()), readAccounts) else old(locks.View())
    {
      if released {
        return;
      }
      if gotLock {
        locks.ReleaseReads(readAccounts);
      }
    }
  }
}
