// The whole protocol as a step machine: locked, logged page writes, commits that
// force the log, aborts that restore, log and page flushes under the write-ahead
// rule, and a crash at any point.
module System {
  import opened Bytes
  import opened Layout
  import opened Recovery
  import opened Locks
  import opened Transactions

  /** `mem` is what the pool shows, `disk` what has been written out, `flushed` how much of the log is safe. */
  datatype Sys = Sys(mgr: Manager, log: History, flushed: nat, mem: seq<Image>, disk: seq<Image>)

  datatype Step =
    | Start
    | LockRead(t: Txn, p: PageId)
    | LockWrite(t: Txn, p: PageId)
    | Write(t: Txn, p: PageId, img: Image)
    | Commit(t: Txn)
    | Abort(t: Txn)
    | FlushLog
    | FlushPage(p: PageId)

  /** The caller puts the returned before-images back. */
  function Restore(mem: seq<Image>, ws: map<PageId, seq<byte>>): (r: seq<Image>)
    requires |mem| <= INVALID_PAGE_ID
    ensures |r| == |mem|
    ensures forall p: PageId :: p < |mem| ==> r[p] == if p in ws then Overlay(mem[p], ws[p]) else mem[p]
  {
    seq(|mem|, p requires 0 <= p < |mem| => if p in ws then Overlay(mem[p], ws[p]) else mem[p])
  }

  ghost predicate LogsPage(log: History, p: PageId) {
    exists i :: 0 <= i < |log| && log[i].Written? && log[i].p == p
  }

  /** What a transaction does without holding the lock, or a page flush ahead of its log records, is no step. */
  ghost predicate Enabled(s: Sys, a: Step) {
    |s.mem| == |s.disk| <= INVALID_PAGE_ID && May(s, a)
  }

  ghost predicate May(s: Sys, a: Step) {
    match a
    case LockWrite(_, p) => p < |s.mem|
    case Write(t, p, _) => p < |s.mem| && t in s.mgr.active && p in s.mgr.active[t].writeSet
    case Commit(t) => t in s.mgr.active
    case Abort(t) => t in s.mgr.active
    case FlushPage(p) => p < |s.mem| && s.flushed <= |s.log| && !LogsPage(s.log[s.flushed..], p)
    case _ => true
  }

  ghost function Do(s: Sys, a: Step): Sys
    requires Enabled(s, a)
  {
    match a
    case Start => s.(mgr := Started(s.mgr), log := s.log + [Begun(s.mgr.next)])
    case LockRead(t, p) => s.(mgr := ReadLocked(s.mgr, t, p).1)
    case LockWrite(t, p) => s.(mgr := WriteLocked(s.mgr, t, p, s.mem[p]).1)
    case Write(t, p, img) => s.(log := s.log + [Written(t, p, s.mem[p], img)], mem := s.mem[p := img])
    case Commit(t) => s.(mgr := Finished(s.mgr, t), log := s.log + [Committed(t)], flushed := |s.log| + 1)
    case Abort(t) => s.(mgr := Finished(s.mgr, t), log := s.log + [Aborted(t)],
                        mem := Restore(s.mem, s.mgr.active[t].writeSet))
    case FlushLog => s.(flushed := |s.log|)
    case FlushPage(p) => s.(disk := s.disk[p := s.mem[p]])
  }

  // ----- what every step keeps -----

  /** The page's content follows the log, and its writer remembers it. */
  ghost predicate Tracks(init: seq<Image>, s: Sys, p: PageId) {
    p < |init| && p < |s.mem| ==>
      && Disciplined(init[p], s.log, p)
      && var x := PageAt(init[p], s.log, p);
         && s.mem[p] == x.now
         && (x.owner.Some? ==> x.owner.value in s.mgr.active && p in s.mgr.active[x.owner.value].writeSet)
  }

  /** A page in a write set is locked for its transaction, with the last stable content as before-image. */
  ghost predicate Remembers(init: seq<Image>, s: Sys, t: Txn, p: PageId) {
    t in s.mgr.active && p in s.mgr.active[t].writeSet ==>
      && p < |init|
      && HoldsIn(s.mgr.table, t, p, Exclusive)
      && s.mgr.active[t].writeSet[p] == PageAt(init[p], s.log, p).stable
  }

  /** A page none of whose writes are safely logged has not changed on disk. */
  ghost predicate Safe(init: seq<Image>, s: Sys, p: PageId) {
    p < |init| && p < |s.disk| && s.flushed <= |s.log| && !LogsPage(s.log[..s.flushed], p) ==> s.disk[p] == init[p]
  }

  ghost predicate Known(s: Sys, t: Txn) {
    var a := Analyze(s.log);
    && (t in a.active || t in a.committed || t in a.aborted ==> 0 < t < s.mgr.next)
    && (forall p {:trigger HoldsAny(s.mgr.table, t, p)} :: HoldsAny(s.mgr.table, t, p) ==> t in s.mgr.active)
  }

  ghost predicate Inv(init: seq<Image>, s: Sys) {
    && |s.mem| == |s.disk| == |init| <= INVALID_PAGE_ID && s.flushed <= |s.log| && s.mgr.next > 0
    && Lawful(s.log) && Analyze(s.log).active == s.mgr.active.Keys && Sane(s.mgr.table)
    && (forall i :: 0 <= i < |s.log| && s.log[i].Committed? ==> i < s.flushed)
    && (forall t {:trigger Known(s, t)} :: Known(s, t))
    && (forall p {:trigger Tracks(init, s, p)} :: Tracks(init, s, p))
    && (forall t, p {:trigger Remembers(init, s, t, p)} :: Remembers(init, s, t, p))
    && (forall p {:trigger Safe(init, s, p)} :: Safe(init, s, p))
  }

  lemma InvAtStart(init: seq<Image>)
    requires |init| <= INVALID_PAGE_ID
    ensures Inv(init, Sys(Manager(1, map[], map[]), [], 0, init, init))
  {
  }

  lemma OneMore(log: History, r: Rec)
    ensures Front(log + [r]) == log && Last(log + [r]) == r
  {
  }

  // Whoever has written a page since it was last stable is the transaction that may write it.
  lemma WriterIsHolder(init: seq<Image>, s: Sys, t: Txn, p: PageId)
    requires Inv(init, s) && t in s.mgr.active && p < |init| && HoldsAny(s.mgr.table, t, p)
    ensures var x := PageAt(init[p], s.log, p); x.owner == None || x.owner == Some(t)
    ensures HoldsIn(s.mgr.table, t, p, Exclusive) ==>
              forall u :: u != t && u in s.mgr.active ==> p !in s.mgr.active[u].writeSet
  {
    assert Tracks(init, s, p);
    var x := PageAt(init[p], s.log, p);
    if x.owner.Some? {
      assert Remembers(init, s, x.owner.value, p);
      Exclusion(s.mgr.table, x.owner.value, t, p);
    }
    if HoldsIn(s.mgr.table, t, p, Exclusive) {
      forall u | u != t && u in s.mgr.active ensures p !in s.mgr.active[u].writeSet {
        assert Remembers(init, s, u, p);
        if p in s.mgr.active[u].writeSet { Exclusion(s.mgr.table, t, u, p); assert false; }
      }
    }
  }

  // ----- step by step -----

  lemma StartKeeps(init: seq<Image>, s: Sys)
    requires Inv(init, s)
    ensures Inv(init, Do(s, Start))
  {
    var s' := Do(s, Start);
    var r := Begun(s.mgr.next);
    OneMore(s.log, r);
    assert Known(s, s.mgr.next);
    forall t ensures Known(s', t) { assert Known(s, t); }
    forall p ensures Tracks(init, s', p) { assert Tracks(init, s, p); }
    forall t, p ensures Remembers(init, s', t, p) { assert Remembers(init, s, t, p); }
    forall p ensures Safe(init, s', p) { SafeLonger(init, s, s', p); }
  }

  lemma SafeLonger(init: seq<Image>, s: Sys, s': Sys, p: PageId)
    requires Safe(init, s, p) && s'.disk == s.disk && s.log <= s'.log && s.flushed <= s'.flushed && s.flushed <= |s.log|
    ensures Safe(init, s', p)
  {
    if s'.flushed <= |s'.log| && !LogsPage(s'.log[..s'.flushed], p) {
      forall i | 0 <= i < s.flushed && s.log[i].Written? ensures s.log[i].p != p {
        assert s'.log[..s'.flushed][i] == s.log[i];
      }
    }
  }

  // Granting a lock takes none away.
  lemma GrantKeeps(table: Table, t: Txn, p: PageId, mode: Mode, u: Txn, q: PageId, m: Mode)
    requires Sane(table) && HoldsIn(table, u, q, m)
    ensures HoldsIn(Acquired(table, t, p, mode).1, u, q, m)
  {
    if u != t || q != p { AcquireFrame(table, t, p, mode, u, q, m); }
  }

  lemma GrantKnown(init: seq<Image>, s: Sys, t: Txn, p: PageId, mode: Mode, u: Txn)
    requires Inv(init, s) && t in s.mgr.active
    ensures forall q {:trigger HoldsAny(Acquired(s.mgr.table, t, p, mode).1, u, q)} ::
              HoldsAny(Acquired(s.mgr.table, t, p, mode).1, u, q) ==> u in s.mgr.active
  {
    var table' := Acquired(s.mgr.table, t, p, mode).1;
    assert Known(s, u);
    forall q | HoldsAny(table', u, q) ensures u in s.mgr.active {
      if u != t || q != p {
        AcquireFrame(s.mgr.table, t, p, mode, u, q, Shared);
        assert HoldsIn(table', u, q, Shared) && HoldsAny(s.mgr.table, u, q);
      }
    }
  }

  lemma LockReadKeeps(init: seq<Image>, s: Sys, t: Txn, p: PageId)
    requires Inv(init, s)
    ensures Inv(init, Do(s, LockRead(t, p)))
  {
    var s' := Do(s, LockRead(t, p));
    AcquireMeaning(s.mgr.table, t, p, Shared);
    if s' != s {
      forall u ensures Known(s', u) { assert Known(s, u); GrantKnown(init, s, t, p, Shared, u); }
      forall q ensures Tracks(init, s', q) { assert Tracks(init, s, q); }
      forall u, q ensures Remembers(init, s', u, q) {
        assert Remembers(init, s, u, q);
        if u in s.mgr.active && q in s.mgr.active[u].writeSet {
          GrantKeeps(s.mgr.table, t, p, Shared, u, q, Exclusive);
        }
      }
      forall q ensures Safe(init, s', q) { assert Safe(init, s, q); }
    }
  }

  // When the exclusive lock is granted, the page is stable unless the transaction has written it itself.
  lemma LockedStable(init: seq<Image>, s: Sys, t: Txn, p: PageId)
    requires Inv(init, s) && p < |s.mem| && Acquired(s.mgr.table, t, p, Exclusive).0 != Conflict
    requires t in s.mgr.active && p !in s.mgr.active[t].writeSet
    ensures s.mem[p] == PageAt(init[p], s.log, p).stable
  {
    AcquireMeaning(s.mgr.table, t, p, Exclusive);
    assert Tracks(init, s, p);
    var x := PageAt(init[p], s.log, p);
    OwnerActive(init[p], s.log, p);
    var u := if x.owner.Some? then x.owner.value else t;
    assert Remembers(init, s, u, p);
  }

  lemma LockWriteKeeps(init: seq<Image>, s: Sys, t: Txn, p: PageId)
    requires Inv(init, s) && Enabled(s, LockWrite(t, p))
    ensures Inv(init, Do(s, LockWrite(t, p)))
  {
    var s' := Do(s, LockWrite(t, p));
    AcquireMeaning(s.mgr.table, t, p, Exclusive);
    if s' != s {
      forall u ensures Known(s', u) { assert Known(s, u); GrantKnown(init, s, t, p, Exclusive, u); }
      forall q ensures Tracks(init, s', q) { assert Tracks(init, s, q); }
      forall u, q ensures Remembers(init, s', u, q) { LockWriteRemembers(init, s, t, p, u, q); }
      forall q ensures Safe(init, s', q) { assert Safe(init, s, q); }
    }
  }

  lemma LockWriteRemembers(init: seq<Image>, s: Sys, t: Txn, p: PageId, u: Txn, q: PageId)
    requires Inv(init, s) && p < |s.mem| && t in s.mgr.active && Acquired(s.mgr.table, t, p, Exclusive).0 != Conflict
    ensures Remembers(init, Do(s, LockWrite(t, p)), u, q)
  {
    assert Remembers(init, s, u, q);
    AcquireMeaning(s.mgr.table, t, p, Exclusive);
    if u in s.mgr.active && q in s.mgr.active[u].writeSet {
      GrantKeeps(s.mgr.table, t, p, Exclusive, u, q, Exclusive);
    } else if u == t && q == p {
      LockedStable(init, s, t, p);
    }
  }

  lemma WriteKeeps(init: seq<Image>, s: Sys, t: Txn, p: PageId, img: Image)
    requires Inv(init, s) && Enabled(s, Write(t, p, img))
    ensures Inv(init, Do(s, Write(t, p, img)))
  {
    var s' := Do(s, Write(t, p, img));
    OneMore(s.log, Written(t, p, s.mem[p], img));
    assert Remembers(init, s, t, p);
    WriterIsHolder(init, s, t, p);
    forall u ensures Known(s', u) { assert Known(s, u); }
    forall q ensures Tracks(init, s', q) { assert Tracks(init, s, q); }
    forall u, q ensures Remembers(init, s', u, q) { assert Remembers(init, s, u, q); }
    forall q ensures Safe(init, s', q) { SafeLonger(init, s, s', q); }
  }

  lemma FinishKeeps(init: seq<Image>, s: Sys, t: Txn, u: Txn, q: PageId)
    requires Inv(init, s) && t in s.mgr.active
    ensures Sane(Released(s.mgr.table, t))
    ensures HoldsAny(Released(s.mgr.table, t), u, q) ==> u in s.mgr.active - {t}
    ensures u != t && HoldsIn(s.mgr.table, u, q, Exclusive) ==> HoldsIn(Released(s.mgr.table, t), u, q, Exclusive)
  {
    assert Known(s, u);
    ReleaseMeaning(s.mgr.table, t, u, q, Exclusive);
    ReleaseMeaning(s.mgr.table, t, u, q, Shared);
    assert HoldsAny(Released(s.mgr.table, t), u, q) <==> HoldsIn(Released(s.mgr.table, t), u, q, Shared);
    assert HoldsAny(s.mgr.table, u, q) <==> HoldsIn(s.mgr.table, u, q, Shared);
  }

  // A page in someone else's write set is not one this transaction has written.
  lemma NotMine(init: seq<Image>, s: Sys, t: Txn, u: Txn, q: PageId)
    requires Inv(init, s) && t != u && u in s.mgr.active && q in s.mgr.active[u].writeSet
    ensures q < |init| && PageAt(init[q], s.log, q).owner != Some(t)
  {
    assert Remembers(init, s, u, q);
    WriterIsHolder(init, s, u, q);
  }

  lemma CommitKeeps(init: seq<Image>, s: Sys, t: Txn)
    requires Inv(init, s) && Enabled(s, Commit(t))
    ensures Inv(init, Do(s, Commit(t)))
  {
    var s' := Do(s, Commit(t));
    OneMore(s.log, Committed(t));
    FinishKeeps(init, s, t, t, 0);
    forall u ensures Known(s', u) { EndKnown(init, s, s', t, u); }
    forall q ensures Tracks(init, s', q) { assert Tracks(init, s, q); }
    forall u, q ensures Remembers(init, s', u, q) { EndRemembers(init, s, s', t, u, q); }
    forall q ensures Safe(init, s', q) { SafeLonger(init, s, s', q); }
  }

  lemma EndKnown(init: seq<Image>, s: Sys, s': Sys, t: Txn, u: Txn)
    requires Inv(init, s) && t in s.mgr.active && s'.mgr == Finished(s.mgr, t)
    requires s'.log == s.log + [Committed(t)] || s'.log == s.log + [Aborted(t)]
    ensures Known(s', u)
  {
    assert Known(s, u) && Known(s, t);
    OneMore(s.log, Last(s'.log));
    forall q | HoldsAny(s'.mgr.table, u, q) ensures u in s'.mgr.active { FinishKeeps(init, s, t, u, q); }
  }

  lemma EndRemembers(init: seq<Image>, s: Sys, s': Sys, t: Txn, u: Txn, q: PageId)
    requires Inv(init, s) && t in s.mgr.active && s'.mgr == Finished(s.mgr, t)
    requires s'.log == s.log + [Committed(t)] || s'.log == s.log + [Aborted(t)]
    ensures Remembers(init, s', u, q)
  {
    OneMore(s.log, Last(s'.log));
    assert Remembers(init, s, u, q);
    if u != t && u in s.mgr.active && q in s.mgr.active[u].writeSet {
      FinishKeeps(init, s, t, u, q);
      NotMine(init, s, t, u, q);
    }
  }

  // Restoring undoes exactly what the transaction wrote.
  lemma AbortTracks(init: seq<Image>, s: Sys, t: Txn, q: PageId)
    requires Inv(init, s) && Enabled(s, Abort(t))
    ensures Tracks(init, Do(s, Abort(t)), q)
  {
    var s' := Do(s, Abort(t));
    OneMore(s.log, Aborted(t));
    assert Tracks(init, s, q) && Remembers(init, s, t, q);
    if q < |init| {
      OwnerActive(init[q], s.log, q);
      if q in s.mgr.active[t].writeSet { WriterIsHolder(init, s, t, q); }
    }
  }

  lemma AbortKeeps(init: seq<Image>, s: Sys, t: Txn)
    requires Inv(init, s) && Enabled(s, Abort(t))
    ensures Inv(init, Do(s, Abort(t)))
  {
    var s' := Do(s, Abort(t));
    OneMore(s.log, Aborted(t));
    FinishKeeps(init, s, t, t, 0);
    forall u ensures Known(s', u) { EndKnown(init, s, s', t, u); }
    forall q ensures Tracks(init, s', q) { AbortTracks(init, s, t, q); }
    forall u, q ensures Remembers(init, s', u, q) { EndRemembers(init, s, s', t, u, q); }
    forall q ensures Safe(init, s', q) { SafeLonger(init, s, s', q); }
  }

  lemma FlushLogKeeps(init: seq<Image>, s: Sys)
    requires Inv(init, s)
    ensures Inv(init, Do(s, FlushLog))
  {
    var s' := Do(s, FlushLog);
    forall u ensures Known(s', u) { assert Known(s, u); }
    forall q ensures Tracks(init, s', q) { assert Tracks(init, s, q); }
    forall u, q ensures Remembers(init, s', u, q) { assert Remembers(init, s, u, q); }
    forall q ensures Safe(init, s', q) { SafeLonger(init, s, s', q); }
  }

  // This is where the write-ahead rule is needed.
  lemma FlushPageKeeps(init: seq<Image>, s: Sys, p: PageId)
    requires Inv(init, s) && Enabled(s, FlushPage(p))
    ensures Inv(init, Do(s, FlushPage(p)))
  {
    var s' := Do(s, FlushPage(p));
    forall u ensures Known(s', u) { assert Known(s, u); }
    forall q ensures Tracks(init, s', q) { assert Tracks(init, s, q); }
    forall u, q ensures Remembers(init, s', u, q) { assert Remembers(init, s, u, q); }
    forall q ensures Safe(init, s', q) {
      assert Safe(init, s, q) && Tracks(init, s, q);
      if q == p && !LogsPage(s.log[..s.flushed], p) {
        assert s.log == s.log[..s.flushed] + s.log[s.flushed..];
        Unwritten(init[p], s.log, p);
      }
    }
  }

  lemma {:induction false} Unwritten(x: Image, log: History, p: PageId)
    requires !LogsPage(log, p)
    ensures PageAt(x, log, p) == PageState(x, None, x)
  {
    if log != [] {
      forall i | 0 <= i < |Front(log)| && Front(log)[i].Written? ensures Front(log)[i].p != p { assert log[i].p != p; }
      Unwritten(x, Front(log), p);
      assert Last(log).Written? ==> Last(log).p != p;
    }
  }

  lemma StepKeeps(init: seq<Image>, s: Sys, a: Step)
    requires Inv(init, s) && Enabled(s, a)
    ensures Inv(init, Do(s, a))
  {
    match a
    case Start => StartKeeps(init, s);
    case LockRead(t, p) => LockReadKeeps(init, s, t, p);
    case LockWrite(t, p) => LockWriteKeeps(init, s, t, p);
    case Write(t, p, img) => WriteKeeps(init, s, t, p, img);
    case Commit(t) => CommitKeeps(init, s, t);
    case Abort(t) => AbortKeeps(init, s, t);
    case FlushLog => FlushLogKeeps(init, s);
    case FlushPage(p) => FlushPageKeeps(init, s, p);
  }

  // ----- whole runs -----

  ghost predicate Follows(s: Sys, a: Step, s': Sys) {
    Enabled(s, a) && s' == Do(s, a)
  }

  ghost predicate Run(ss: seq<Sys>, acts: seq<Step>) {
    |ss| == |acts| + 1 && forall i {:trigger acts[i]} :: 0 <= i < |acts| ==> Follows(ss[i], acts[i], ss[i + 1])
  }

  lemma {:induction false} RunKeeps(init: seq<Image>, ss: seq<Sys>, acts: seq<Step>, k: nat)
    requires Run(ss, acts) && Inv(init, ss[0]) && k <= |acts|
    ensures Inv(init, ss[k])
  {
    if k > 0 {
      RunKeeps(init, ss, acts, k - 1);
      assert acts[k - 1] == acts[k - 1];
      StepKeeps(init, ss[k - 1], acts[k - 1]);
    }
  }

  // ----- crashes -----

  // Commits are safe, so what a crash cuts off commits nothing.
  lemma {:induction false} CommitsSurvive(init: seq<Image>, log: History, k: nat)
    requires k <= |log| && forall i :: k <= i < |log| ==> !log[i].Committed?
    ensures Analyze(log[..k]).committed == Analyze(log).committed && Serial(init, log[..k]) == Serial(init, log)
  {
    if k < |log| {
      assert Front(log)[..k] == log[..k];
      CommitsSurvive(init, Front(log), k);
    } else {
      assert log[..k] == log;
    }
  }

  /** Written, but only by transactions that aborted. */
  ghost predicate AbortedOnly(log: History, p: PageId) {
    LogsPage(log, p) && Untouched(log, p)
  }

  lemma SilentWrites(a: History, b: History, p: PageId)
    requires Silent(a)
    ensures LogsPage(a + b, p) <==> LogsPage(b, p)
  {
    if LogsPage(b, p) {
      var i :| 0 <= i < |b| && b[i].Written? && b[i].p == p;
      assert (a + b)[|a| + i] == b[i];
    }
  }

  // One page after recovery from a cut behind the safe part of the log: what the committed
  // transactions make of it, or what was on disk if only aborted ones had written it.
  lemma CrashAt(init: seq<Image>, s: Sys, k: nat, p: PageId)
    requires Inv(init, s) && s.flushed <= k <= |s.log| && p < |init|
    ensures Recovered(s.disk, s.log[..k])[p] ==
            if AbortedOnly(s.log[..k], p) then s.disk[p] else Serial(init, s.log)[p]
    ensures AbortedOnly(s.log[..k], p) ==> Serial(init, s.log)[p] == init[p]
  {
    var log := s.log[..k];
    EndsStay(s.log, k);
    assert Tracks(init, s, p);
    DisciplinedPrefix(init[p], s.log, p, k);
    SerialAt(init, log, p);
    RecoveredAt(init[p], s.disk, log, p);
    CommitsSurvive(init, s.log, k);
    if !LogsPage(log, p) {
      assert Safe(init, s, p);
      forall i | 0 <= i < s.flushed && s.log[i].Written? ensures s.log[i].p != p { assert log[i] == s.log[i]; }
    }
  }

  // Whatever has reached the disk and wherever the log is cut behind its safe part: recovery
  // yields the serial execution of all committed transactions if and only if the pages that
  // only aborted transactions wrote hold their initial content on disk.
  lemma CrashIff(init: seq<Image>, s: Sys, k: nat)
    requires Inv(init, s) && s.flushed <= k <= |s.log|
    ensures Recovered(s.disk, s.log[..k]) == Serial(init, s.log)
       <==> forall p: PageId {:trigger AbortedOnly(s.log[..k], p)} ::
              p < |init| && AbortedOnly(s.log[..k], p) ==> s.disk[p] == init[p]
  {
    var log := s.log[..k];
    if forall p: PageId {:trigger AbortedOnly(log, p)} :: p < |init| && AbortedOnly(log, p) ==> s.disk[p] == init[p] {
      forall i | 0 <= i < |init| ensures Recovered(s.disk, log)[i] == Serial(init, s.log)[i] {
        CrashAt(init, s, k, i);
        var p: PageId := i;
        assert AbortedOnly(log, p) ==> s.disk[p] == init[p];
      }
    }
    if Recovered(s.disk, log) == Serial(init, s.log) {
      forall p: PageId | p < |init| && AbortedOnly(log, p) ensures s.disk[p] == init[p] { CrashAt(init, s, k, p); }
    }
  }

  // The recovery from every later crash finds all of a committed transaction in the log: it is
  // classified as committed, and each of its writes is redone.
  lemma CommitDurable(init: seq<Image>, ss: seq<Sys>, acts: seq<Step>, i: nat, j: nat, k: nat)
    requires Run(ss, acts) && Inv(init, ss[0]) && i < j <= |acts| && acts[i].Commit?
    requires ss[j].flushed <= k <= |ss[j].log|
    ensures var log, t := ss[j].log, acts[i].t;
            && t in Analyze(log[..k]).committed
            && forall m :: 0 <= m < |log| && log[m].Written? && log[m].t == t ==>
                 m < k && (log[m].p, log[m].after) in Redo(log[..k], Analyze(log[..k]).committed)
  {
    RunKeeps(init, ss, acts, j);
    CommitStays(init, ss, acts, i, j);
    var log, t := ss[j].log, acts[i].t;
    CommitsSurvive(init, log, k);
    forall m | 0 <= m < |log| && log[m].Written? && log[m].t == t
      ensures m < k && (log[m].p, log[m].after) in Redo(log[..k], Analyze(log[..k]).committed)
    {
      WrittenFirst(log, k, m);
      assert log[..k][m] == log[m];
      RedoHas(log[..k], Analyze(log[..k]).committed, m);
    }
  }

  // What a transaction writes it writes before it commits.
  lemma {:induction false} WrittenFirst(log: History, k: nat, m: nat)
    requires Lawful(log) && k <= |log| && m < |log| && log[m].Written? && log[m].t in Analyze(log[..k]).committed
    ensures m < k
  {
    if k <= m {
      assert log[..m + 1][..m] == log[..m] && log[..m][..k] == log[..k] && Front(log[..m + 1]) == log[..m];
      EndsStay(log, m + 1);
      EndsStay(log[..m + 1], m);
      EndsStay(log[..m], k);
      LawfulSets(log[..m]);
    }
  }

  lemma {:induction false} CommitStays(init: seq<Image>, ss: seq<Sys>, acts: seq<Step>, i: nat, j: nat)
    requires Run(ss, acts) && Inv(init, ss[0]) && i < j <= |acts| && acts[i].Commit?
    ensures acts[i].t in Analyze(ss[j].log).committed
  {
    var a := acts[j - 1];
    assert Follows(ss[j - 1], a, ss[j]);
    if j - 1 > i { CommitStays(init, ss, acts, i, j - 1); }
    Grows(ss[j - 1], a);
  }

  lemma Grows(s: Sys, a: Step)
    requires Enabled(s, a)
    ensures Analyze(s.log).committed <= Analyze(Do(s, a).log).committed
    ensures a.Commit? ==> a.t in Analyze(Do(s, a).log).committed
  {
    var log' := Do(s, a).log;
    if log' != s.log { OneMore(s.log, Last(log')); assert Front(log') == s.log; }
  }

  // ----- isolation -----

  // What a transaction sees under a lock is the serial state, or its own write.
  lemma CleanRead(init: seq<Image>, s: Sys, t: Txn, p: PageId)
    requires Inv(init, s) && p < |init| && HoldsAny(s.mgr.table, t, p)
    ensures s.mem[p] == Serial(init, s.log)[p] || PageAt(init[p], s.log, p).owner == Some(t)
  {
    assert Known(s, t) && Tracks(init, s, p);
    WriterIsHolder(init, s, t, p);
    OwnerActive(init[p], s.log, p);
    SerialAt(init, s.log, p);
  }

  /** The transaction a step belongs to, if any. */
  function Actor(a: Step): Option<Txn> {
    match a
    case LockRead(t, _) => Some(t)
    case LockWrite(t, _) => Some(t)
    case Write(t, _, _) => Some(t)
    case Commit(t) => Some(t)
    case Abort(t) => Some(t)
    case _ => None
  }

  // While a transaction holds a lock, no step of another changes the page, the serial
  // state of the page, or the lock: what it read stays what the serial execution reads.
  lemma HeldPageStays(init: seq<Image>, s: Sys, a: Step, t: Txn, p: PageId)
    requires Inv(init, s) && Enabled(s, a) && p < |init| && HoldsAny(s.mgr.table, t, p) && Actor(a) != Some(t)
    ensures var s' := Do(s, a);
            s'.mem[p] == s.mem[p] && Serial(init, s'.log)[p] == Serial(init, s.log)[p] && HoldsAny(s'.mgr.table, t, p)
  {
    assert Known(s, t) && Tracks(init, s, p);
    var s' := Do(s, a);
    StepKeeps(init, s, a);
    assert Tracks(init, s', p);
    SerialAt(init, s.log, p);
    SerialAt(init, s'.log, p);
    WriterIsHolder(init, s, t, p);
    if s'.log != s.log { OneMore(s.log, Last(s'.log)); assert Front(s'.log) == s.log; }
    OthersAway(init, s, a, t, p);
  }

  lemma OthersAway(init: seq<Image>, s: Sys, a: Step, t: Txn, p: PageId)
    requires Inv(init, s) && Enabled(s, a) && p < |init| && HoldsAny(s.mgr.table, t, p) && Actor(a) != Some(t)
    ensures HoldsAny(Do(s, a).mgr.table, t, p) && Do(s, a).mem[p] == s.mem[p]
    ensures a.Write? ==> a.p != p
  {
    assert HoldsIn(s.mgr.table, t, p, Shared);
    match a
    case LockRead(u, q) => GrantKeeps(s.mgr.table, u, q, Shared, t, p, Shared);
    case LockWrite(u, q) => GrantKeeps(s.mgr.table, u, q, Exclusive, t, p, Shared);
    case Write(u, q, _) =>
      assert Remembers(init, s, u, q);
      if q == p { Exclusion(s.mgr.table, u, t, p); assert false; }
    case Commit(u) => ReleaseMeaning(s.mgr.table, u, t, p, Shared);
    case Abort(u) =>
      ReleaseMeaning(s.mgr.table, u, t, p, Shared);
      assert Remembers(init, s, u, p);
      if p in s.mgr.active[u].writeSet { Exclusion(s.mgr.table, u, t, p); assert false; }
    case _ =>
  }

  // ----- abort is an exact undo -----

  lemma {:induction false} FirstImageKept(init: seq<Image>, ss: seq<Sys>, acts: seq<Step>, i: nat, j: nat,
                                        t: Txn, p: PageId)
    requires Run(ss, acts) && Inv(init, ss[0]) && i < j <= |acts| && acts[i] == LockWrite(t, p)
    requires t in ss[i].mgr.active && p !in ss[i].mgr.active[t].writeSet
    requires Acquired(ss[i].mgr.table, t, p, Exclusive).0 != Conflict
    requires forall m :: i < m < j ==> acts[m] != Commit(t) && acts[m] != Abort(t)
    ensures t in ss[j].mgr.active && p in ss[j].mgr.active[t].writeSet && p < |ss[i].mem|
    ensures ss[j].mgr.active[t].writeSet[p] == ss[i].mem[p]
  {
    var a := acts[j - 1];
    assert Follows(ss[j - 1], a, ss[j]);
    if j - 1 > i {
      FirstImageKept(init, ss, acts, i, j - 1, t, p);
      RunKeeps(init, ss, acts, j - 1);
      assert Known(ss[j - 1], t);
    }
  }

  // Aborting gives each page the value it had when the transaction first locked it for
  // writing, whatever the others did in between, and leaves the other pages alone.
  lemma AbortExact(init: seq<Image>, ss: seq<Sys>, acts: seq<Step>, i: nat, j: nat, t: Txn, p: PageId)
    requires Run(ss, acts) && Inv(init, ss[0]) && i < j < |acts| && acts[i] == LockWrite(t, p) && acts[j] == Abort(t)
    requires t in ss[i].mgr.active && p !in ss[i].mgr.active[t].writeSet
    requires Acquired(ss[i].mgr.table, t, p, Exclusive).0 != Conflict
    requires forall m :: i < m < j ==> acts[m] != Commit(t) && acts[m] != Abort(t)
    ensures p < |init| && |ss[j + 1].mem| == |ss[i].mem| == |ss[j].mem| == |init| && ss[j + 1].mem[p] == ss[i].mem[p]
    ensures forall q: PageId :: q < |init| && q !in ss[j].mgr.active[t].writeSet ==> ss[j + 1].mem[q] == ss[j].mem[q]
  {
    FirstImageKept(init, ss, acts, i, j, t, p);
    RunKeeps(init, ss, acts, i);
    RunKeeps(init, ss, acts, j);
    assert Follows(ss[j], acts[j], ss[j + 1]);
    assert Remembers(init, ss[j], t, p);
  }
}
