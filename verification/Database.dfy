// Transaction manager, log and buffer pool as one: a client that takes locks before it
// reads or writes and flushes the log before the pool may write pages out.  Each method
// is steps of the machine in `System`.
module Database {
  import opened Bytes
  import opened Layout
  import opened BufferPool
  import opened Wal
  import opened Transactions
  import Engine
  import Epochs
  import Framing
  import Locks
  import LogRecord
  import Recovery
  import System

  type Sys = System.Sys

  // ----- pages the pool writes out on its own -----

  /** The log was flushed, then some pages were written out. */
  ghost predicate Flushes(s: Sys, s': Sys) {
    s' == s.(flushed := |s.log|, disk := s'.disk) && Spilled(s.disk, s'.disk, s.mem)
  }

  /** Pages written out while the log records of their writes were safe. */
  ghost predicate Spills(s: Sys, s': Sys) {
    s' == s.(disk := s'.disk) && Spilled(s.disk, s'.disk, s.mem)
    && s.flushed <= |s.log| && forall i :: s.flushed <= i < |s.log| ==> !s.log[i].Written?
  }

  /** `s` with the first `n` pages as `disk` has them. */
  ghost function Upto(s: Sys, disk: seq<Image>, n: nat): Sys
    requires n <= |s.disk| == |disk|
  {
    s.(disk := disk[..n] + s.disk[n..])
  }

  // Writing out pages is a run of page flushes, so it keeps the invariant.
  lemma {:induction false} SpillSteps(init: seq<Image>, s: Sys, s': Sys, n: nat)
    requires System.Inv(init, s) && Spills(s, s') && n <= |s.disk|
    ensures System.Inv(init, Upto(s, s'.disk, n))
    ensures n > 0 ==> var a, b := Upto(s, s'.disk, n - 1), Upto(s, s'.disk, n);
                      a == b || System.Follows(a, System.FlushPage(n - 1), b)
  {
    if n == 0 {
      assert Upto(s, s'.disk, 0) == s;
    } else {
      SpillSteps(init, s, s', n - 1);
      SpillOne(s, s', n - 1);
      var a, b := Upto(s, s'.disk, n - 1), Upto(s, s'.disk, n);
      if a != b { System.StepKeeps(init, a, System.FlushPage(n - 1)); }
    }
  }

  lemma SpillOne(s: Sys, s': Sys, p: PageId)
    requires Spills(s, s') && p < |s.disk| <= INVALID_PAGE_ID
    ensures var a, b := Upto(s, s'.disk, p), Upto(s, s'.disk, p + 1);
            a == b || System.Follows(a, System.FlushPage(p), b)
  {
    OnePage(s.disk, s'.disk, p);
  }

  lemma OnePage(d: seq<Image>, d': seq<Image>, n: nat)
    requires n < |d| == |d'|
    ensures d'[..n + 1] + d[n + 1..] == (d'[..n] + d[n..])[n := d'[n]]
    ensures d'[n] == d[n] ==> d'[..n + 1] + d[n + 1..] == d'[..n] + d[n..]
  {
  }

  lemma SpillKeeps(init: seq<Image>, s: Sys, s': Sys)
    requires System.Inv(init, s) && Spills(s, s')
    ensures System.Inv(init, s')
  {
    SpillSteps(init, s, s', |s.disk|);
    assert Upto(s, s'.disk, |s.disk|) == s';
  }

  lemma FlushKeeps(init: seq<Image>, s: Sys, s': Sys)
    requires System.Inv(init, s) && Flushes(s, s')
    ensures System.Inv(init, s')
  {
    System.StepKeeps(init, s, System.FlushLog);
    SpillKeeps(init, System.Do(s, System.FlushLog), s');
  }

  // ----- the client -----

  // What a session that starts afresh finds in front of its own records.
  lemma StartsSound(c: Framing.Codec<LogRecord.Record>, bytes: seq<byte>)
    requires LogRecord.LogCodec(c) && Epochs.Legible(c, bytes)
    ensures Epochs.Renews(c, bytes) && AllWell(Framing.ReadAll(c, bytes).records) ==>
              var found := if Recovery.Actions(Epochs.Seen(c, bytes)) == [] then bytes else [];
              SoundLog(c, found) && Recovery.Silent(Epochs.Seen(c, found))
  {
    assert Framing.ReadAll(c, []) == Framing.Log([]);
  }

  class Client {
    const pool: Pool
    const wal: WalManager
    const txns: TransactionManager
    ghost var init: seq<Image>

    ghost function Abs(): Sys
      reads pool, wal, txns, txns.locks
    {
      System.Sys(txns.Value(), wal.History(), wal.durable, pool.View(), pool.disk)
    }

    ghost predicate Parts()
      reads pool, wal, txns, txns.locks
    {
      && pool.Idle() && wal.Valid() && txns.Valid()
      && SoundLog(wal.codec, wal.found) && Recovery.Silent(Epochs.Seen(wal.codec, wal.found))
    }

    ghost predicate Valid()
      reads this, pool, wal, txns, txns.locks
    {
      Parts() && System.Inv(init, Abs())
    }

    /** Room for one more transaction id and log record. */
    ghost predicate Room()
      reads wal, txns
    {
      txns.next + 1 < LIMIT && wal.nextLsn + 1 < LIMIT
    }

    /** Open an existing database on what a crash has left: the session is the one that follows,
        and it is sound if it starts afresh. */
    constructor Open(bytes: seq<byte>, pages: seq<Image>, ghost c: Framing.Codec<LogRecord.Record>)
      requires LogRecord.LogCodec(c) && 0 < |pages| <= INVALID_PAGE_ID && Epochs.Legible(c, bytes)
      ensures Epochs.Up(Abs(), wal.found, wal.records) == Epochs.Reborn(c, bytes, pages)
      ensures init == Recovery.Recovered(pages, Epochs.Seen(c, bytes)) && System.Inv(init, Abs())
      ensures Epochs.Renews(c, bytes) && AllWell(Framing.ReadAll(c, bytes).records) ==> Valid()
    {
      var buffers, log := Engine.Reopen(bytes, pages, c);
      var manager := new TransactionManager();
      pool, wal, txns := buffers, log, manager;
      init := Recovery.Recovered(pages, Epochs.Seen(c, bytes));
      new;
      System.InvAtStart(init);
      StartsSound(c, bytes);
    }

    method Begin() returns (t: LogRecord.Word)
      requires Valid() && Room()
      modifies wal, txns
      ensures Valid() && t == old(txns.next) && Abs() == System.Do(old(Abs()), System.Start)
    {
      System.StartKeeps(init, Abs());
      t := txns.Begin(wal);
    }

    method LockForReading(t: Recovery.Txn, p: PageId) returns (ok: bool)
      requires Valid()
      modifies txns, txns.locks
      ensures Valid() && Abs() == System.Do(old(Abs()), System.LockRead(t, p))
      ensures ok == ReadLocked(old(Abs()).mgr, t, p).0
    {
      System.LockReadKeeps(init, Abs(), t, p);
      ok := txns.AcquireReadLock(t, p);
    }

    /** A locked page shows the serial state, or the reader's own write. */
    method Read(t: Recovery.Txn, p: PageId) returns (d: Image)
      requires Valid() && p < |pool.disk| && Locks.HoldsAny(txns.locks.table, t, p)
      modifies pool, wal
      ensures Valid() && Flushes(old(Abs()), Abs()) && d == Abs().mem[p]
      ensures d == Recovery.Serial(init, Abs().log)[p] || Recovery.PageAt(init[p], Abs().log, p).owner == Some(t)
    {
      d := Look(p);
      System.CleanRead(init, Abs(), t, p);
    }

    /** Flush the log, then copy a page out of the pool. */
    method Look(p: PageId) returns (d: Image)
      requires Valid() && p < |pool.disk|
      modifies pool, wal
      ensures Valid() && Flushes(old(Abs()), Abs()) && d == Abs().mem[p] && wal.nextLsn == old(wal.nextLsn)
    {
      ghost var s := Abs();
      d := FlushAndCopy(p);
      FlushKeeps(init, s, Abs());
    }

    method FlushAndCopy(p: PageId) returns (d: Image)
      requires Parts() && p < |pool.disk|
      modifies pool, wal
      ensures Parts() && Flushes(old(Abs()), Abs()) && d == Abs().mem[p] && wal.nextLsn == old(wal.nextLsn)
    {
      wal.Flush();
      d := pool.ReadCopy(p);
    }

    method LockForWriting(t: Recovery.Txn, p: PageId) returns (ok: bool, ghost mid: Sys)
      requires Valid() && p < |pool.disk|
      modifies pool, wal, txns, txns.locks
      ensures Valid() && Flushes(old(Abs()), mid) && System.Follows(mid, System.LockWrite(t, p), Abs())
      ensures ok == WriteLocked(mid.mgr, t, p, mid.mem[p]).0
    {
      var before := Look(p);
      mid := Abs();
      System.LockWriteKeeps(init, mid, t, p);
      ok := AskForWriting(t, p, before);
    }

    method AskForWriting(t: Recovery.Txn, p: PageId, before: Image) returns (ok: bool)
      requires Parts()
      modifies txns, txns.locks
      ensures Parts() && ok == WriteLocked(old(Abs()).mgr, t, p, before).0
      ensures Abs() == old(Abs()).(mgr := WriteLocked(old(Abs()).mgr, t, p, before).1)
    {
      ok := txns.AcquireWriteLock(t, p, before);
    }

    /** Log both images, then change the page. */
    method Write(t: Recovery.Txn, p: PageId, img: Image) returns (ghost mid: Sys)
      requires Valid() && Room() && p < |pool.disk| && t in txns.active && p in txns.active[t].writeSet
      modifies pool, wal
      ensures Valid() && Flushes(old(Abs()), mid) && System.Follows(mid, System.Write(t, p, img), Abs())
    {
      ghost var s := Abs();
      var before := Look(p);
      ghost var f := Abs();
      LogAndWrite(t, p, before, img);
      mid := WriteParts(init, s, f, Abs(), t, p, img);
    }

    method LogAndWrite(t: Recovery.Txn, p: PageId, before: Image, img: Image)
      requires Parts() && Room() && p < |pool.disk| && t in txns.active
      modifies pool, wal
      ensures Parts() && Spilled(old(pool.disk), pool.disk, old(pool.View()))
      ensures Abs() == old(Abs()).(log := old(Abs()).log + [Recovery.Written(t, p, before, img)],
                                   mem := old(Abs()).mem[p := img], disk := pool.disk)
    {
      var _ := txns.LogWrite(wal, t, p, before, img);
      pool.Overwrite(p, img);
    }

    method Commit(t: Recovery.Txn) returns (ok: bool)
      requires Valid() && Room()
      modifies wal, txns, txns.locks
      ensures Valid() && ok == (t in old(txns.active))
      ensures if ok then System.Follows(old(Abs()), System.Commit(t), Abs()) else Abs() == old(Abs())
    {
      ghost var s := Abs();
      ok := LogAndFinish(t);
      if ok { System.CommitKeeps(init, s, t); }
    }

    method LogAndFinish(t: Recovery.Txn) returns (ok: bool)
      requires Parts() && Room()
      modifies wal, txns, txns.locks
      ensures Parts() && ok == (t in old(txns.active))
      ensures Abs() == if ok then Committed(old(Abs()), t) else old(Abs())
    {
      ok := txns.Commit(wal, t);
    }

    method FlushLog()
      requires Valid()
      modifies wal
      ensures Valid() && System.Follows(old(Abs()), System.FlushLog, Abs())
    {
      System.FlushLogKeeps(init, Abs());
      wal.Flush();
    }

    method FlushPage(p: PageId)
      requires Valid() && System.Enabled(Abs(), System.FlushPage(p))
      modifies pool
      ensures Valid() && System.Follows(old(Abs()), System.FlushPage(p), Abs())
    {
      System.FlushPageKeeps(init, Abs(), p);
      pool.FlushPage(p);
    }

    /** Give up the locks and put the before-images back, as one step. */
    method Abort(t: Recovery.Txn) returns (ok: bool, ghost mid: Sys, ghost done: Sys)
      requires Valid() && Room()
      modifies pool, wal, txns, txns.locks
      ensures Valid() && ok == (t in old(txns.active))
      ensures if ok then Flushes(old(Abs()), mid) && System.Follows(mid, System.Abort(t), done) && Spills(done, Abs())
              else Abs() == old(Abs())
    {
      mid, done := Abs(), Abs();
      ok := t in txns.active;
      if ok {
        KeysStored(init, mid, t);
        AbortAndRestore(t);
        mid, done := AbortParts(init, mid, Abs(), t);
      }
    }

    method AbortAndRestore(t: Recovery.Txn)
      requires Parts() && Room() && t in txns.active && |pool.disk| <= INVALID_PAGE_ID
      requires forall p :: p in txns.active[t].writeSet ==> p < |pool.disk|
      modifies pool, wal, txns, txns.locks
      ensures Parts() && SpilledTwice(old(pool.disk), pool.disk, old(pool.View()), pool.View())
      ensures Abs() == Aborted(old(Abs()), t, pool.disk)
    {
      ghost var s := Abs();
      var writeSet := FlushAndGiveUp(t);
      ghost var f := Abs();
      PutBack(writeSet);
      assert Abs() == f.(mem := pool.View(), disk := pool.disk);
    }

    method FlushAndGiveUp(t: Recovery.Txn) returns (writeSet: map<PageId, seq<byte>>)
      requires Parts() && Room() && t in txns.active
      modifies wal, txns, txns.locks
      ensures Parts() && writeSet == old(txns.active)[t].writeSet
      ensures Abs() == old(Abs()).(mgr := Finished(old(Abs()).mgr, t), log := old(Abs()).log + [Recovery.Aborted(t)],
                                   flushed := |old(Abs()).log|)
    {
      var ok;
      wal.Flush();
      ok, writeSet := txns.Abort(wal, t);
    }

    /** Restore the pages of a write set through the pool. */
    method PutBack(writeSet: map<PageId, seq<byte>>)
      requires pool.Idle() && |pool.disk| <= INVALID_PAGE_ID && forall p :: p in writeSet ==> p < |pool.disk|
      modifies pool
      ensures pool.Idle() && pool.View() == System.Restore(old(pool.View()), writeSet)
      ensures SpilledTwice(old(pool.disk), pool.disk, old(pool.View()), pool.View())
      decreases |writeSet|
    {
      ghost var disk, view := pool.disk, pool.View();
      if writeSet == map[] {
        RestoreNone(view);
      } else {
        var p :| p in writeSet;
        Engine.Patch(pool, p, writeSet[p]);
        ghost var spilt := pool.disk;
        PutBack(writeSet - {p});
        RestoreOne(disk, spilt, pool.disk, view, writeSet, p);
      }
    }
  }

  // The page goes into the pool after the pool made room for it.
  lemma WriteParts(init: seq<Image>, s: Sys, f: Sys, s': Sys, t: Recovery.Txn, p: PageId, img: Image) returns (mid: Sys)
    requires System.Inv(init, f) && Flushes(s, f) && System.Enabled(f, System.Write(t, p, img))
    requires Spilled(f.disk, s'.disk, f.mem) && s' == System.Do(f.(disk := s'.disk), System.Write(t, p, img))
    ensures Flushes(s, mid) && System.Follows(mid, System.Write(t, p, img), s') && System.Inv(init, s')
  {
    mid := f.(disk := s'.disk);
    SpillKeeps(init, f, mid);
    System.WriteKeeps(init, mid, t, p, img);
  }

  ghost function Committed(s: Sys, t: Recovery.Txn): Sys {
    s.(mgr := Finished(s.mgr, t), log := s.log + [Recovery.Committed(t)], flushed := |s.log| + 1)
  }

  // ----- restoring a write set page by page -----

  lemma RestoreNone(view: seq<Image>)
    requires |view| <= INVALID_PAGE_ID
    ensures System.Restore(view, map[]) == view
  {
    forall i | 0 <= i < |view| ensures System.Restore(view, map[])[i] == view[i] { var q: PageId := i; }
  }

  lemma RestoreOne(disk: seq<Image>, disk1: seq<Image>, disk2: seq<Image>, view: seq<Image>,
                   ws: map<PageId, seq<byte>>, p: PageId)
    requires p in ws && p < |view| <= INVALID_PAGE_ID && Spilled(disk, disk1, view)
    requires var view1 := view[p := Recovery.Overlay(view[p], ws[p])];
             SpilledTwice(disk1, disk2, view1, System.Restore(view1, ws - {p}))
    ensures var view1 := view[p := Recovery.Overlay(view[p], ws[p])];
            && System.Restore(view1, ws - {p}) == System.Restore(view, ws)
            && SpilledTwice(disk, disk2, view, System.Restore(view, ws))
  {
    RestoreFirst(view, ws, p);
    var view1, all := view[p := Recovery.Overlay(view[p], ws[p])], System.Restore(view, ws);
    assert view1[p] == all[p];
  }

  lemma RestoreFirst(view: seq<Image>, ws: map<PageId, seq<byte>>, p: PageId)
    requires p in ws && p < |view| <= INVALID_PAGE_ID
    ensures System.Restore(view[p := Recovery.Overlay(view[p], ws[p])], ws - {p}) == System.Restore(view, ws)
  {
    var view1 := view[p := Recovery.Overlay(view[p], ws[p])];
    forall i | 0 <= i < |view| ensures System.Restore(view1, ws - {p})[i] == System.Restore(view, ws)[i] {
      RestoreAt(view, ws, view1, ws - {p}, p, i);
    }
  }

  lemma RestoreAt(view: seq<Image>, ws: map<PageId, seq<byte>>, view1: seq<Image>, rest: map<PageId, seq<byte>>,
                  p: PageId, q: PageId)
    requires p in ws && q < |view| == |view1| <= INVALID_PAGE_ID && rest == ws - {p}
    requires view1[q] == if q == p then Recovery.Overlay(view[q], ws[q]) else view[q]
    ensures System.Restore(view1, rest)[q] == System.Restore(view, ws)[q]
  {
  }

  /** The state after a log flush, an abort and the restoring of its pages, the disk being `disk`. */
  ghost function Aborted(s: Sys, t: Recovery.Txn, disk: seq<Image>): Sys
    requires t in s.mgr.active && |s.mem| <= INVALID_PAGE_ID
  {
    System.Sys(Finished(s.mgr, t), s.log + [Recovery.Aborted(t)], |s.log|,
               System.Restore(s.mem, s.mgr.active[t].writeSet), disk)
  }

  // Pages written out before the restoring were flushed before the abort, the others after it.
  lemma AbortParts(init: seq<Image>, s: Sys, s': Sys, t: Recovery.Txn) returns (mid: Sys, done: Sys)
    requires System.Inv(init, s) && t in s.mgr.active && s' == Aborted(s, t, s'.disk)
    requires SpilledTwice(s.disk, s'.disk, s.mem, s'.mem)
    ensures Flushes(s, mid) && System.Follows(mid, System.Abort(t), done) && Spills(done, s') && System.Inv(init, s')
  {
    mid := s.(flushed := |s.log|, disk := Before(s.disk, s'.disk, s.mem));
    FlushKeeps(init, s, mid);
    System.AbortKeeps(init, mid, t);
    done := System.Do(mid, System.Abort(t));
    SpillKeeps(init, done, s');
  }

  /** Pages written out with their contents before or after. */
  ghost predicate SpilledTwice(disk: seq<Image>, disk': seq<Image>, before: seq<Image>, after: seq<Image>) {
    && |disk'| == |disk| == |before| == |after|
    && forall p :: 0 <= p < |disk| ==> disk'[p] == disk[p] || disk'[p] == before[p] || disk'[p] == after[p]
  }

  /** What had been written out with the contents before. */
  ghost function Before(disk: seq<Image>, disk': seq<Image>, before: seq<Image>): seq<Image>
    requires |disk'| == |disk| == |before|
  {
    seq(|disk|, p requires 0 <= p < |disk| => if disk'[p] == before[p] then before[p] else disk[p])
  }

  lemma KeysStored(init: seq<Image>, s: Sys, t: Recovery.Txn)
    requires System.Inv(init, s) && t in s.mgr.active
    ensures forall p :: p in s.mgr.active[t].writeSet ==> p < |s.disk|
  {
    forall p | p in s.mgr.active[t].writeSet ensures p < |s.disk| { assert System.Remembers(init, s, t, p); }
  }
}
