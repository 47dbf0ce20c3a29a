// Histories of lock grants and transaction ends: conflicting transactions are
// ordered by their ends, so the precedence graph has no cycle.
module Schedule {
  import opened Bytes
  import opened Recovery
  import opened Locks
  import opened Layout
  import opened Transactions
  import System

  datatype Event = Lock(t: Txn, p: PageId, mode: Mode) | End(t: Txn)

  /** The lock table after the events. */
  function After(es: seq<Event>): Table {
    if es == [] then map[]
    else
      var table := After(es[..|es| - 1]);
      Changed(table, es[|es| - 1])
  }

  function Changed(table: Table, e: Event): Table {
    match e
    case Lock(t, p, mode) => Acquired(table, t, p, mode).1
    case End(t) => Released(table, t)
  }

  /** Every request in the history succeeded, and nothing follows a transaction's end. */
  ghost predicate Proper(es: seq<Event>) {
    es != [] ==>
      var n := |es| - 1;
      && Proper(es[..n])
      && (es[n].Lock? ==> Acquired(After(es[..n]), es[n].t, es[n].p, es[n].mode).0 != Conflict)
      && End(es[n].t) !in es[..n]
  }

  lemma {:induction false} ProperPrefix(es: seq<Event>, k: nat)
    requires Proper(es) && k <= |es|
    ensures Proper(es[..k]) && Sane(After(es[..k]))
  {
    if k < |es| {
      ProperPrefix(es[..|es| - 1], k);
      assert es[..|es| - 1][..k] == es[..k];
    } else {
      assert es[..k] == es;
      if es != [] {
        var f, e := es[..|es| - 1], es[|es| - 1];
        ProperPrefix(f, |f|);
        assert f[..|f|] == f;
        if e.Lock? {
          AcquireMeaning(After(f), e.t, e.p, e.mode);
        } else {
          ReleaseMeaning(After(f), e.t, e.t, 0, Shared);
        }
      }
    }
  }

  // A lock is held until its transaction ends.
  lemma {:induction false} HeldUntilEnd(es: seq<Event>, i: nat, k: nat)
    requires Proper(es) && i < k <= |es| && es[i].Lock? && End(es[i].t) !in es[i + 1..k]
    ensures HoldsIn(After(es[..k]), es[i].t, es[i].p, es[i].mode)
  {
    var f, e := es[..k - 1], es[k - 1];
    assert es[..k][..k - 1] == f;
    ProperPrefix(es, k - 1);
    ProperPrefix(es, k);
    var t, p, mode := es[i].t, es[i].p, es[i].mode;
    if i == k - 1 {
      AcquireMeaning(After(f), t, p, mode);
    } else {
      assert End(t) !in es[i + 1..k - 1] by { assert es[i + 1..k - 1] <= es[i + 1..k]; }
      HeldUntilEnd(es, i, k - 1);
      assert e == es[i + 1..k][k - 1 - (i + 1)];
      if e.Lock? { StillHeld(After(f), e, t, p, mode); } else { ReleaseMeaning(After(f), e.t, t, p, mode); }
    }
  }

  lemma StillHeld(table: Table, e: Event, t: Txn, p: PageId, mode: Mode)
    requires Sane(table) && e.Lock? && HoldsIn(table, t, p, mode)
    ensures HoldsIn(Acquired(table, e.t, e.p, e.mode).1, t, p, mode)
  {
    if e.t != t || e.p != p { AcquireFrame(table, e.t, e.p, e.mode, t, p, mode); }
  }

  ghost predicate Conflicts(a: Event, b: Event) {
    a.Lock? && b.Lock? && a.t != b.t && a.p == b.p && (a.mode == Exclusive || b.mode == Exclusive)
  }

  // Of two conflicting grants, the first transaction ended before the second grant.
  lemma FirstEndsFirst(es: seq<Event>, i: nat, j: nat)
    requires Proper(es) && i < j < |es| && Conflicts(es[i], es[j])
    ensures End(es[i].t) in es[i + 1..j]
  {
    if End(es[i].t) !in es[i + 1..j] {
      HeldUntilEnd(es, i, j);
      ProperPrefix(es, j);
      ProperPrefix(es, j + 1);
      assert es[..j + 1][..j] == es[..j];
      AcquireMeaning(After(es[..j]), es[j].t, es[j].p, es[j].mode);
      assert false;
    }
  }

  /** Where the transaction ends, or the end of the history if it does not. */
  ghost function EndOf(es: seq<Event>, t: Txn): nat {
    if End(t) in es then FirstEnd(es, t) else |es|
  }

  ghost function FirstEnd(es: seq<Event>, t: Txn): (i: nat)
    requires End(t) in es
    ensures i < |es| && es[i] == End(t)
  {
    var i :| 0 <= i < |es| && es[i] == End(t);
    i
  }

  ghost predicate Precedes(es: seq<Event>, t: Txn, u: Txn) {
    exists i, j :: 0 <= i < j < |es| && es[i].t == t && es[j].t == u && Conflicts(es[i], es[j])
  }

  lemma {:induction false} NothingAfterEnd(es: seq<Event>, i: nat, j: nat)
    requires Proper(es) && i < |es| && j < |es| && es[i] == End(es[j].t)
    ensures j <= i
  {
    ProperPrefix(es, j + 1);
    var f := es[..j + 1];
    assert f[..j] == es[..j] && End(es[j].t) !in es[..j];
    assert forall k :: 0 <= k < j ==> es[..j][k] == es[k];
  }

  lemma PrecedesByEnd(es: seq<Event>, t: Txn, u: Txn)
    requires Proper(es) && Precedes(es, t, u)
    ensures EndOf(es, t) < EndOf(es, u)
  {
    var i, j :| 0 <= i < j < |es| && es[i].t == t && es[j].t == u && Conflicts(es[i], es[j]);
    FirstEndsFirst(es, i, j);
    var k :| 0 <= k < |es[i + 1..j]| && es[i + 1..j][k] == End(t);
    var e := i + 1 + k;
    assert es[e] == End(t);
    NothingAfterEnd(es, e, EndOf(es, t));
    if End(u) in es { NothingAfterEnd(es, EndOf(es, u), j); }
  }

  ghost predicate Path(es: seq<Event>, ts: seq<Txn>) {
    forall i :: 0 <= i < |ts| - 1 ==> Precedes(es, ts[i], ts[i + 1])
  }

  // The precedence graph has no cycle: transactions can be serialized in the order they end.
  lemma {:induction false} NoCycle(es: seq<Event>, ts: seq<Txn>)
    requires Proper(es) && |ts| >= 2 && Path(es, ts)
    ensures EndOf(es, ts[0]) < EndOf(es, ts[|ts| - 1]) && ts[0] != ts[|ts| - 1]
  {
    var n := |ts| - 1;
    PrecedesByEnd(es, ts[n - 1], ts[n]);
    if n > 1 {
      forall i | 0 <= i < |ts[..n]| - 1 ensures Precedes(es, ts[..n][i], ts[..n][i + 1]) {
        assert Precedes(es, ts[i], ts[i + 1]);
      }
      NoCycle(es, ts[..n]);
    }
  }

  // ----- the histories that runs of the engine produce -----

  /** The grant or end a step amounts to; a refused request is neither. */
  function EventsOf(s: System.Sys, a: System.Step): seq<Event> {
    match a
    case LockRead(t, p) => if ReadLocked(s.mgr, t, p).0 then [Lock(t, p, Shared)] else []
    case LockWrite(t, p) => if WriteLocked(s.mgr, t, p, []).0 then [Lock(t, p, Exclusive)] else []
    case Commit(t) => [End(t)]
    case Abort(t) => [End(t)]
    case _ => []
  }

  function Events(ss: seq<System.Sys>, acts: seq<System.Step>, k: nat): seq<Event>
    requires k <= |acts| < |ss|
  {
    if k == 0 then [] else Events(ss, acts, k - 1) + EventsOf(ss[k - 1], acts[k - 1])
  }

  /** Transactions that ended in the history have ended in the log. */
  ghost predicate EndsLogged(es: seq<Event>, log: History) {
    forall t {:trigger End(t) in es} :: End(t) in es ==> t in Analyze(log).committed || t in Analyze(log).aborted
  }

  lemma {:induction false} RunIsProper(init: seq<Image>, ss: seq<System.Sys>, acts: seq<System.Step>, k: nat)
    requires System.Run(ss, acts) && System.Inv(init, ss[0]) && ss[0].mgr.table == map[] && k <= |acts|
    ensures var es := Events(ss, acts, k);
            Proper(es) && After(es) == ss[k].mgr.table && EndsLogged(es, ss[k].log)
  {
    if k > 0 {
      RunIsProper(init, ss, acts, k - 1);
      System.RunKeeps(init, ss, acts, k - 1);
      var s, a, f := ss[k - 1], acts[k - 1], Events(ss, acts, k - 1);
      assert System.Follows(s, a, ss[k]);
      StepIsProper(init, s, a, f);
    }
  }

  lemma StepIsProper(init: seq<Image>, s: System.Sys, a: System.Step, f: seq<Event>)
    requires System.Inv(init, s) && System.Enabled(s, a) && Proper(f) && After(f) == s.mgr.table && EndsLogged(f, s.log)
    ensures var s', es := System.Do(s, a), f + EventsOf(s, a);
            Proper(es) && After(es) == s'.mgr.table && EndsLogged(es, s'.log)
  {
    var s', one := System.Do(s, a), EventsOf(s, a);
    LawfulSets(s.log);
    OutcomeOf(s, a);
    EndsGrow(s, a);
    if one == [] {
      assert f + one == f;
    } else {
      OneEvent(f, one[0], s'.mgr.table, s.log, s'.log);
    }
  }

  // The step's event is what happens to the lock table.
  lemma OutcomeOf(s: System.Sys, a: System.Step)
    requires System.Enabled(s, a) && Sane(s.mgr.table)
    ensures var s', one := System.Do(s, a), EventsOf(s, a);
            && (one == [] ==> s'.mgr.table == s.mgr.table)
            && (one != [] ==> |one| == 1 && one[0].t in s.mgr.active && s'.mgr.table == Changed(s.mgr.table, one[0]))
            && (one != [] && one[0].Lock? ==> Acquired(s.mgr.table, one[0].t, one[0].p, one[0].mode).0 != Conflict)
  {
  }

  lemma EndsGrow(s: System.Sys, a: System.Step)
    requires System.Enabled(s, a)
    ensures var s', one := System.Do(s, a), EventsOf(s, a);
            && Analyze(s.log).committed <= Analyze(s'.log).committed
            && Analyze(s.log).aborted <= Analyze(s'.log).aborted
            && (one != [] && one[0].End? ==>
                  one[0].t in Analyze(s'.log).committed || one[0].t in Analyze(s'.log).aborted)
  {
    var log' := System.Do(s, a).log;
    if log' != s.log { System.OneMore(s.log, Last(log')); assert Front(log') == s.log; }
  }

  lemma OneEvent(f: seq<Event>, e: Event, table': Table, log: History, log': History)
    requires Proper(f) && EndsLogged(f, log) && table' == Changed(After(f), e)
    requires e.Lock? ==> Acquired(After(f), e.t, e.p, e.mode).0 != Conflict
    requires e.t !in Analyze(log).committed && e.t !in Analyze(log).aborted
    requires Analyze(log).committed <= Analyze(log').committed && Analyze(log).aborted <= Analyze(log').aborted
    requires e.End? ==> e.t in Analyze(log').committed || e.t in Analyze(log').aborted
    ensures Proper(f + [e]) && After(f + [e]) == table' && EndsLogged(f + [e], log')
  {
    var es := f + [e];
    assert es[..|es| - 1] == f && es[|es| - 1] == e;
    assert End(e.t) !in f;
  }

  // Every run is serializable in the order transactions end: no path of conflicts closes.
  lemma RunsSerializable(init: seq<Image>, ss: seq<System.Sys>, acts: seq<System.Step>, ts: seq<Recovery.Txn>)
    requires System.Run(ss, acts) && System.Inv(init, ss[0]) && ss[0].mgr.table == map[]
    requires |ts| >= 2 && Path(Events(ss, acts, |acts|), ts)
    ensures ts[0] != ts[|ts| - 1]
    ensures EndOf(Events(ss, acts, |acts|), ts[0]) < EndOf(Events(ss, acts, |acts|), ts[|ts| - 1])
  {
    RunIsProper(init, ss, acts, |acts|);
    NoCycle(Events(ss, acts, |acts|), ts);
  }
}
