// The transaction manager: ids, write sets with first before-images, locks held to the end.
module Transactions {
  import opened Bytes
  import opened Recovery
  import opened Locks
  import opened Wal
  import LogRecord

  datatype State = Active | HasCommitted | HasAborted

  datatype Transaction = Transaction(state: State, writeSet: map<PageId, seq<byte>>, readSet: seq<PageId>)

  datatype Manager = Manager(next: Recovery.Txn, active: map<Recovery.Txn, Transaction>, table: Table)

  // ----- the operations on values -----

  function Started(m: Manager): Manager {
    Manager(m.next + 1, m.active[m.next := Transaction(Active, map[], [])], m.table)
  }

  /** Refused for an unknown transaction and on conflict; the manager is then unchanged. */
  function ReadLocked(m: Manager, t: Recovery.Txn, p: PageId): (bool, Manager) {
    if t !in m.active then (false, m)
    else
      var (o, table) := Acquired(m.table, t, p, Shared);
      if o == Conflict then (false, m)
      else (true, m.(table := table, active := m.active[t := m.active[t].(readSet := m.active[t].readSet + [p])]))
  }

  /** Only the first before-image of a page is kept. */
  function Remember(x: Transaction, p: PageId, before: seq<byte>): Transaction {
    if p in x.writeSet then x else x.(writeSet := x.writeSet[p := before])
  }

  function WriteLocked(m: Manager, t: Recovery.Txn, p: PageId, before: seq<byte>): (bool, Manager) {
    if t !in m.active then (false, m)
    else
      var (o, table) := Acquired(m.table, t, p, Exclusive);
      if o == Conflict then (false, m)
      else (true, m.(table := table, active := m.active[t := Remember(m.active[t], p, before)]))
  }

  function Finished(m: Manager, t: Recovery.Txn): Manager {
    m.(active := m.active - {t}, table := Released(m.table, t))
  }

  // ----- what they mean -----

  // A read lock is refused exactly when someone else writes, or the transaction is unknown.
  lemma ReadLockedMeaning(m: Manager, t: Recovery.Txn, p: PageId)
    requires Sane(m.table)
    ensures var (ok, m') := ReadLocked(m, t, p);
            && (ok <==> t in m.active && !Blocked(m.table, t, p, Shared))
            && (ok ==> HoldsIn(m'.table, t, p, Shared) && t in m'.active && p in m'.active[t].readSet)
            && (!ok ==> m' == m)
            && (HoldsIn(m'.table, t, p, Exclusive) <==> HoldsIn(m.table, t, p, Exclusive))
            && m'.next == m.next && m'.active.Keys == m.active.Keys
            && forall u :: u in m.active ==> m'.active[u].writeSet == m.active[u].writeSet
  {
    AcquireMeaning(m.table, t, p, Shared);
  }

  // A write lock is refused exactly when someone else holds the page, or the transaction is unknown;
  // the before-image of the first one stays.
  lemma WriteLockedMeaning(m: Manager, t: Recovery.Txn, p: PageId, before: seq<byte>)
    requires Sane(m.table)
    ensures var (ok, m') := WriteLocked(m, t, p, before);
            && (ok <==> t in m.active && !Blocked(m.table, t, p, Exclusive))
            && (ok ==> HoldsIn(m'.table, t, p, Exclusive) && t in m'.active && p in m'.active[t].writeSet
                       && m'.active[t].writeSet[p] ==
                          if p in m.active[t].writeSet then m.active[t].writeSet[p] else before)
            && (!ok ==> m' == m)
            && m'.next == m.next && m'.active.Keys == m.active.Keys
            && (forall u, q :: u in m.active && q in m.active[u].writeSet ==>
                  q in m'.active[u].writeSet && m'.active[u].writeSet[q] == m.active[u].writeSet[q])
  {
    AcquireMeaning(m.table, t, p, Exclusive);
  }

  const LIMIT: nat := 0x1_0000_0000_0000_0000

  class TransactionManager {
    const locks: LockManager
    var next: Recovery.Txn
    var active: map<Recovery.Txn, Transaction>

    ghost function Value(): Manager
      reads this, locks
    {
      Manager(next, active, locks.table)
    }

    ghost predicate Valid()
      reads this, locks
    {
      locks.Valid() && forall t :: t in active ==> active[t].state == Active && t < next <= LIMIT
    }

    constructor ()
      ensures Valid() && Value() == Manager(1, map[], map[]) && fresh(locks)
    {
      locks := new LockManager();
      next, active := 1, map[];
    }

    method Begin(wal: WalManager) returns (t: LogRecord.Word)
      requires Valid() && wal.Valid() && next + 1 < LIMIT && wal.nextLsn + 1 < LIMIT
      modifies this, wal
      ensures Valid() && wal.Valid() && t == old(next) && Value() == Started(old(Value()))
      ensures wal.History() == old(wal.History()) + [Begun(t)]
      ensures wal.durable == old(wal.durable) && wal.found == old(wal.found)
    {
      t := next;
      next := next + 1;
      active := active[t := Transaction(Active, map[], [])];
      var _ := wal.LogBegin(t);
    }

    method AcquireReadLock(t: Recovery.Txn, p: PageId) returns (ok: bool)
      requires Valid()
      modifies this, locks
      ensures Valid() && (ok, Value()) == ReadLocked(old(Value()), t, p)
      ensures ok <==> t in old(active) && !Blocked(old(locks.table), t, p, Shared)
    {
      ReadLockedMeaning(Value(), t, p);
      if t !in active {
        return false;
      }
      AcquireMeaning(locks.table, t, p, Shared);
      var o := locks.Acquire(t, p, Shared);
      if o == Conflict {
        return false;
      }
      active := active[t := active[t].(readSet := active[t].readSet + [p])];
      return true;
    }

    method AcquireWriteLock(t: Recovery.Txn, p: PageId, before: seq<byte>) returns (ok: bool)
      requires Valid()
      modifies this, locks
      ensures Valid() && (ok, Value()) == WriteLocked(old(Value()), t, p, before)
      ensures ok <==> t in old(active) && !Blocked(old(locks.table), t, p, Exclusive)
    {
      WriteLockedMeaning(Value(), t, p, before);
      if t !in active {
        return false;
      }
      AcquireMeaning(locks.table, t, p, Exclusive);
      var o := locks.Acquire(t, p, Exclusive);
      if o == Conflict {
        return false;
      }
      if p !in active[t].writeSet {
        active := active[t := active[t].(writeSet := active[t].writeSet[p := before])];
      } else {
        assert active == active[t := active[t]];
      }
      return true;
    }

    method LogWrite(wal: WalManager, t: Recovery.Txn, p: PageId, before: seq<byte>, after: seq<byte>) returns (ok: bool)
      requires Valid() && wal.Valid() && wal.nextLsn + 1 < LIMIT
      requires LogRecord.HEADER_SIZE + 4 + |before| + |after| < 0x1_0000_0000
      modifies wal
      ensures wal.Valid() && ok == (t in active)
      ensures wal.History() == if ok then old(wal.History()) + [Written(t, p, before, after)] else old(wal.History())
      ensures wal.durable == old(wal.durable) && wal.found == old(wal.found)
    {
      if t !in active {
        return false;
      }
      var _ := wal.LogPageWrite(t, p, before, after);
      return true;
    }

    /** On success the commit record is in the file before the locks are given back. */
    method Commit(wal: WalManager, t: Recovery.Txn) returns (ok: bool)
      requires Valid() && wal.Valid() && wal.nextLsn + 1 < LIMIT
      modifies this, locks, wal
      ensures Valid() && wal.Valid() && ok == (t in old(active))
      ensures Value() == if ok then Finished(old(Value()), t) else old(Value())
      ensures wal.History() == if ok then old(wal.History()) + [Committed(t)] else old(wal.History())
      ensures wal.durable == (if ok then |wal.records| else old(wal.durable)) && wal.found == old(wal.found)
    {
      if t !in active {
        return false;
      }
      if active[t].state != Active {
        return false;
      }
      active := active[t := active[t].(state := HasCommitted)];
      var _ := wal.LogCommit(t);
      locks.ReleaseAll(t);
      active := active - {t};
      assert active == old(active) - {t};
      return true;
    }

    /** Hands back the first before-image of every page the transaction wrote. */
    method Abort(wal: WalManager, t: Recovery.Txn) returns (ok: bool, writeSet: map<PageId, seq<byte>>)
      requires Valid() && wal.Valid() && wal.nextLsn + 1 < LIMIT
      modifies this, locks, wal
      ensures Valid() && wal.Valid() && ok == (t in old(active))
      ensures Value() == if ok then Finished(old(Value()), t) else old(Value())
      ensures wal.History() == if ok then old(wal.History()) + [Aborted(t)] else old(wal.History())
      ensures ok ==> writeSet == old(active)[t].writeSet
      ensures wal.durable == old(wal.durable) && wal.found == old(wal.found)
    {
      writeSet := map[];
      if t !in active {
        return false, writeSet;
      }
      active := active[t := active[t].(state := HasAborted)];
      writeSet := active[t].writeSet;
      var _ := wal.LogAbort(t);
      locks.ReleaseAll(t);
      active := active - {t};
      assert active == old(active) - {t};
      return true, writeSet;
    }
  }
}
