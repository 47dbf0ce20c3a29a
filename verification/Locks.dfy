// Strict two-phase locking on pages: the lock manager and what a grant means.
module Locks {
  import opened Bytes
  import opened Recovery

  datatype Mode = Shared | Exclusive

  datatype Entry = Entry(mode: Mode, holders: set<Txn>)

  type Table = map<PageId, Entry>

  datatype Outcome = Granted | AlreadyHeld | Conflict

  // ----- the lock table as a value -----

  function Acquired(table: Table, t: Txn, p: PageId, mode: Mode): (Outcome, Table) {
    if p !in table then (Granted, table[p := Entry(mode, {t})])
    else
      var e := table[p];
      if t in e.holders then
        if e.mode == Shared && mode == Exclusive then
          if |e.holders| == 1 then (Granted, table[p := e.(mode := Exclusive)]) else (Conflict, table)
        else (AlreadyHeld, table)
      else if e.holders == {} then (Granted, table[p := Entry(mode, {t})])
      else if e.mode == Shared && mode == Shared then (Granted, table[p := e.(holders := e.holders + {t})])
      else (Conflict, table)
  }

  function Released(table: Table, t: Txn): Table {
    map p | p in table && table[p].holders - {t} != {} :: table[p].(holders := table[p].holders - {t})
  }

  ghost predicate SaneAt(table: Table, p: PageId) {
    p in table ==> table[p].holders != {} && (table[p].mode == Exclusive ==> |table[p].holders| == 1)
  }

  /** No entry without a holder, and an exclusive lock has one. */
  ghost predicate Sane(table: Table) {
    forall p {:trigger SaneAt(table, p)} :: SaneAt(table, p)
  }

  predicate HoldsAny(table: Table, t: Txn, p: PageId) {
    p in table && t in table[p].holders
  }

  /** The transaction holds the page in this mode or a stronger one. */
  predicate HoldsIn(table: Table, t: Txn, p: PageId, mode: Mode) {
    HoldsAny(table, t, p) && (mode == Exclusive ==> table[p].mode == Exclusive)
  }

  lemma OnlyOne(s: set<Txn>, t: Txn, u: Txn)
    requires |s| == 1 && t in s && u in s
    ensures t == u
  {
    assert |s - {t}| == 0;
    assert u != t ==> u in s - {t};
  }

  lemma OneMore(s: set<Txn>, t: Txn)
    requires t in s && |s| != 1
    ensures exists u :: u in s && u != t
  {
    var rest := s - {t};
    assert |rest| == |s| - 1;
    var u :| u in rest;
  }

  // An exclusive holder is alone.
  lemma Exclusion(table: Table, t: Txn, u: Txn, p: PageId)
    requires Sane(table) && HoldsIn(table, t, p, Exclusive) && HoldsAny(table, u, p)
    ensures t == u
  {
    assert SaneAt(table, p);
    OnlyOne(table[p].holders, t, u);
  }

  /** Someone else holds the page, in a mode that excludes the one asked for. */
  ghost predicate Blocked(table: Table, t: Txn, p: PageId, mode: Mode) {
    exists u :: u != t && HoldsAny(table, u, p) && (mode == Exclusive || table[p].mode == Exclusive)
  }

  // What a request does to the requested lock: with `AcquireFrame` this determines the new table.
  lemma AcquireMeaning(table: Table, t: Txn, p: PageId, mode: Mode)
    requires Sane(table)
    ensures var (o, table') := Acquired(table, t, p, mode);
            && (o == Conflict <==> Blocked(table, t, p, mode))
            && (o == AlreadyHeld <==> HoldsIn(table, t, p, mode))
            && (o != Granted ==> table' == table)
            && (HoldsAny(table', t, p) <==> HoldsAny(table, t, p) || o != Conflict)
            && (HoldsIn(table', t, p, Exclusive) <==>
                HoldsIn(table, t, p, Exclusive) || (o != Conflict && mode == Exclusive))
            && Sane(table')
  {
    var (o, table') := Acquired(table, t, p, mode);
    assert SaneAt(table, p);
    if p in table {
      var e := table[p];
      if t in e.holders {
        if |e.holders| == 1 {
          forall u | u in e.holders ensures u == t { OnlyOne(e.holders, t, u); }
        } else {
          OneMore(e.holders, t);
          var u :| u in e.holders && u != t;
          assert HoldsAny(table, u, p);
        }
      } else {
        var u :| u in e.holders;
        assert u != t && HoldsAny(table, u, p);
      }
    }
    forall q ensures SaneAt(table', q) { assert SaneAt(table, q); }
  }

  // A request changes nobody else's locks and none of one's own but this one.
  lemma AcquireFrame(table: Table, t: Txn, p: PageId, mode: Mode, u: Txn, q: PageId, m: Mode)
    requires Sane(table) && (u != t || q != p)
    ensures HoldsIn(Acquired(table, t, p, mode).1, u, q, m) <==> HoldsIn(table, u, q, m)
  {
    assert SaneAt(table, p);
    if p in table && t in table[p].holders && u in table[p].holders && u != t && |table[p].holders| == 1 {
      OnlyOne(table[p].holders, t, u);
    }
  }

  lemma ReleaseMeaning(table: Table, t: Txn, u: Txn, p: PageId, mode: Mode)
    requires Sane(table)
    ensures Sane(Released(table, t)) && !HoldsAny(Released(table, t), t, p)
    ensures u != t ==> (HoldsIn(Released(table, t), u, p, mode) <==> HoldsIn(table, u, p, mode))
  {
    var table' := Released(table, t);
    forall q ensures SaneAt(table', q) {
      assert SaneAt(table, q);
      if q in table' && table[q].mode == Exclusive {
        var x :| x in table[q].holders - {t};
        if t in table[q].holders { OnlyOne(table[q].holders, t, x); }
        assert table'[q].holders == table[q].holders;
      }
    }
    if u != t && HoldsAny(table, u, p) { assert u in table[p].holders - {t}; }
  }

  // ----- the lock manager -----

  class LockManager {
    var table: Table
    var owned: map<Txn, set<PageId>>

    ghost predicate Valid()
      reads this
    {
      Sane(table) && Indexed(table, owned)
    }

    constructor ()
      ensures Valid() && table == map[]
    {
      table, owned := map[], map[];
    }

    method Acquire(t: Txn, p: PageId, mode: Mode) returns (o: Outcome)
      requires Valid()
      modifies this
      ensures Valid() && (o, table) == Acquired(old(table), t, p, mode)
      ensures o == Conflict <==> Blocked(old(table), t, p, mode)
      ensures o == AlreadyHeld <==> HoldsIn(old(table), t, p, mode)
    {
      AcquireMeaning(table, t, p, mode);
      ghost var before := table;
      assert SaneAt(table, p);
      if p !in table {
        table := table[p := Entry(Shared, {})];
      }
      var entry := table[p];
      if t in entry.holders {
        if entry.mode == Shared && mode == Exclusive {
          if |entry.holders| == 1 {
            table := table[p := entry.(mode := Exclusive)];
            IndexSame(before, owned, table);
            return Granted;
          }
          return Conflict;
        }
        return AlreadyHeld;
      }
      if entry.holders == {} {
        table := table[p := Entry(mode, entry.holders + {t})];
        assert entry.holders + {t} == {t} && table == before[p := Entry(mode, {t})];
        IndexOne(before, owned, t, p, table);
        Own(t, p);
        return Granted;
      }
      if entry.mode == Shared && mode == Shared {
        table := table[p := entry.(holders := entry.holders + {t})];
        IndexOne(before, owned, t, p, table);
        Own(t, p);
        return Granted;
      }
      return Conflict;
    }

    method Own(t: Txn, p: PageId)
      modifies this`owned
      ensures owned == OwnedWith(old(owned), t, p)
    {
      owned := owned[t := (if t in owned then owned[t] else {}) + {p}];
    }

    method GiveBack(t: Txn, p: PageId)
      modifies this`table
      ensures table == if p !in old(table) then old(table)
                       else if old(table)[p].holders - {t} == {} then old(table) - {p}
                       else old(table)[p := old(table)[p].(holders := old(table)[p].holders - {t})]
    {
      if p in table {
        table := table[p := table[p].(holders := table[p].holders - {t})];
        if table[p].holders == {} {
          table := table - {p};
        }
      }
    }

    method ReleaseAll(t: Txn)
      requires Valid()
      modifies this
      ensures Valid() && table == Released(old(table), t)
    {
      ReleaseMeaning(table, t, t, 0, Shared);
      ReleaseStart(table, t);
      if t !in owned {
        NothingHeld(table, owned, t);
        return;
      }
      var resources := owned[t];
      owned := owned - {t};
      var left := resources;
      while left != {}
        invariant left <= resources && owned == old(owned) - {t}
        invariant table == ReleasedOn(old(table), t, resources - left)
        decreases |left|
      {
        var p :| p in left;
        ghost var done := resources - left;
        ReleaseOne(old(table), t, done, p);
        left := left - {p};
        assert resources - left == done + {p};
        GiveBack(t, p);
      }
      assert resources - left == resources;
      ReleaseEnd(old(table), old(owned), t);
    }
  }

  /** `owned` lists for each transaction the pages it holds. */
  ghost predicate Indexed(table: Table, owned: map<Txn, set<PageId>>) {
    forall t, p {:trigger HoldsAny(table, t, p)} :: HoldsAny(table, t, p) <==> t in owned && p in owned[t]
  }

  lemma IndexSame(table: Table, owned: map<Txn, set<PageId>>, table': Table)
    requires Indexed(table, owned) && forall u, q :: HoldsAny(table', u, q) <==> HoldsAny(table, u, q)
    ensures Indexed(table', owned)
  {
  }

  lemma IndexOne(table: Table, owned: map<Txn, set<PageId>>, t: Txn, p: PageId, table': Table)
    requires Indexed(table, owned)
    requires forall u, q :: HoldsAny(table', u, q) <==> HoldsAny(table, u, q) || (u == t && q == p)
    ensures Indexed(table', OwnedWith(owned, t, p))
  {
    forall u, q ensures HoldsAny(table', u, q) <==> u in OwnedWith(owned, t, p) && q in OwnedWith(owned, t, p)[u] {
      assert HoldsAny(table, u, q) <==> u in owned && q in owned[u];
    }
  }

  function OwnedWith(owned: map<Txn, set<PageId>>, t: Txn, p: PageId): map<Txn, set<PageId>> {
    owned[t := (if t in owned then owned[t] else {}) + {p}]
  }

  /** The table after the locks of `t` on the pages `done` were given back. */
  ghost function ReleasedOn(table: Table, t: Txn, done: set<PageId>): Table {
    map p | p in table && !(p in done && table[p].holders - {t} == {}) ::
      if p in done then table[p].(holders := table[p].holders - {t}) else table[p]
  }

  lemma ReleaseStart(table: Table, t: Txn)
    ensures ReleasedOn(table, t, {}) == table
  {
  }

  lemma ReleaseOne(table: Table, t: Txn, done: set<PageId>, p: PageId)
    requires p !in done
    ensures var now := ReleasedOn(table, t, done);
            ReleasedOn(table, t, done + {p}) ==
              if p !in now then now
              else if now[p].holders - {t} == {} then now - {p}
              else now[p := now[p].(holders := now[p].holders - {t})]
  {
  }

  lemma NothingHeld(table: Table, owned: map<Txn, set<PageId>>, t: Txn)
    requires Sane(table) && Indexed(table, owned) && t !in owned
    ensures Released(table, t) == table
  {
    forall p | p in table ensures table[p].holders - {t} == table[p].holders != {} {
      assert SaneAt(table, p) && !HoldsAny(table, t, p);
    }
  }

  lemma ReleaseEnd(table: Table, owned: map<Txn, set<PageId>>, t: Txn)
    requires Sane(table) && Indexed(table, owned) && t in owned
    ensures ReleasedOn(table, t, owned[t]) == Released(table, t)
    ensures Indexed(Released(table, t), owned - {t})
  {
    forall p | p in table && p !in owned[t] ensures table[p].holders - {t} == table[p].holders != {} {
      assert SaneAt(table, p) && !HoldsAny(table, t, p);
    }
    var table' := Released(table, t);
    forall u, p ensures HoldsAny(table', u, p) <==> u in owned - {t} && p in (owned - {t})[u] {
      ReleaseMeaning(table, t, u, p, Shared);
      assert HoldsAny(table, u, p) <==> HoldsIn(table, u, p, Shared);
      assert HoldsAny(table', u, p) <==> HoldsIn(table', u, p, Shared);
    }
  }
}
