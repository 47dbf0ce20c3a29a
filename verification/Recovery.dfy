// Crash recovery on abstract log records: analysis, redo in log order, undo in
// reverse, against a serial replay of the committed transactions.
module Recovery {
  import opened Bytes
  import opened Layout

  type Txn = nat

  datatype Rec =
    | Begun(t: Txn)
    | Written(t: Txn, p: PageId, before: seq<byte>, after: seq<byte>)
    | Committed(t: Txn)
    | Aborted(t: Txn)
    | Marked

  type History = seq<Rec>

  function Front(log: History): History
    requires log != []
  {
    log[..|log| - 1]
  }

  function Last(log: History): Rec
    requires log != []
  {
    log[|log| - 1]
  }

  // ----- analysis -----

  datatype Analysis = Analysis(active: set<Txn>, committed: set<Txn>, aborted: set<Txn>)

  function Note(a: Analysis, r: Rec): Analysis {
    match r
    case Begun(t) => a.(active := a.active + {t})
    case Committed(t) => a.(committed := a.committed + {t}, active := a.active - {t})
    case Aborted(t) => a.(aborted := a.aborted + {t}, active := a.active - {t})
    case _ => a
  }

  function Analyze(log: History): Analysis {
    if log == [] then Analysis({}, {}, {}) else Note(Analyze(Front(log)), Last(log))
  }

  // ----- redo and undo -----

  type Action = (PageId, seq<byte>)

  function Redo(log: History, committed: set<Txn>): seq<Action> {
    if log == [] then []
    else
      var r := Last(log);
      Redo(Front(log), committed) + if r.Written? && r.t in committed then [(r.p, r.after)] else []
  }

  function Undo(log: History, active: set<Txn>): seq<Action> {
    if log == [] then []
    else
      var r := Last(log);
      (if r.Written? && r.t in active then [(r.p, r.before)] else []) + Undo(Front(log), active)
  }

  /** `page.data[..n].copy_from_slice(&img[..n])` with `n` the smaller length. */
  function Overlay(page: Image, img: seq<byte>): (r: Image)
    ensures |img| == PAGE_SIZE ==> r == img
  {
    if |img| >= PAGE_SIZE then img[..PAGE_SIZE] else img + page[|img|..]
  }

  /** Pages beyond the end of the file are skipped. */
  function Apply(pages: seq<Image>, a: Action): seq<Image> {
    if a.0 < |pages| then pages[a.0 := Overlay(pages[a.0], a.1)] else pages
  }

  function ApplyAll(pages: seq<Image>, acts: seq<Action>): (r: seq<Image>)
    ensures |r| == |pages|
    decreases |acts|
  {
    if acts == [] then pages else ApplyAll(Apply(pages, acts[0]), acts[1..])
  }

  /** The same, seen from one page. */
  function ApplyAt(x: Image, p: PageId, acts: seq<Action>): Image
    decreases |acts|
  {
    if acts == [] then x
    else ApplyAt(if acts[0].0 == p then Overlay(x, acts[0].1) else x, p, acts[1..])
  }

  lemma {:induction false} ApplyPagewise(pages: seq<Image>, acts: seq<Action>, p: PageId)
    requires p < |pages|
    ensures ApplyAll(pages, acts)[p] == ApplyAt(pages[p], p, acts)
    decreases |acts|
  {
    if acts != [] { ApplyPagewise(Apply(pages, acts[0]), acts[1..], p); }
  }

  lemma {:induction false} ApplyAtConcat(x: Image, p: PageId, a: seq<Action>, b: seq<Action>)
    ensures ApplyAt(x, p, a + b) == ApplyAt(ApplyAt(x, p, a), p, b)
    decreases |a|
  {
    if a == [] {
      assert a + b == b;
    } else {
      assert (a + b)[0] == a[0] && (a + b)[1..] == a[1..] + b;
      ApplyAtConcat(if a[0].0 == p then Overlay(x, a[0].1) else x, p, a[1..], b);
    }
  }

  function Actions(log: History): seq<Action> {
    Redo(log, Analyze(log).committed) + Undo(log, Analyze(log).active)
  }

  function Recovered(pages: seq<Image>, log: History): (r: seq<Image>)
    ensures |r| == |pages|
  {
    ApplyAll(pages, Actions(log))
  }

  // ----- what the log promises -----

  /** Each transaction begins once, acts while it is active and ends once. */
  ghost predicate Lawful(log: History) {
    log != [] ==>
      && Lawful(Front(log))
      && var a := Analyze(Front(log));
         match Last(log)
         case Begun(t) => t !in a.active && t !in a.committed && t !in a.aborted
         case Written(t, _, _, _) => t in a.active
         case Committed(t) => t in a.active
         case Aborted(t) => t in a.active
         case Marked => true
  }

  lemma {:induction false} LawfulSets(log: History)
    requires Lawful(log)
    ensures var a := Analyze(log); a.active !! a.committed && a.active !! a.aborted && a.committed !! a.aborted
  {
    if log != [] { LawfulSets(Front(log)); }
  }

  // What has ended stays ended, in the same way.
  lemma {:induction false} EndsStay(log: History, k: nat)
    requires Lawful(log) && k <= |log|
    ensures Lawful(log[..k])
    ensures Analyze(log[..k]).committed <= Analyze(log).committed && Analyze(log[..k]).aborted <= Analyze(log).aborted
  {
    if k < |log| {
      EndsStay(Front(log), k);
      assert Front(log)[..k] == log[..k];
    } else {
      assert log[..k] == log;
    }
  }

  /** One page while a log is replayed: its last stable content, the transaction that
      has written it since, and its present content. */
  datatype PageState = PageState(stable: Image, owner: Option<Txn>, now: Image)

  function Advance(s: PageState, r: Rec, p: PageId): PageState {
    match r
    case Written(t, q, _, after) =>
      if q == p && |after| == PAGE_SIZE then PageState(s.stable, Some(t), after) else s
    case Committed(t) => if s.owner == Some(t) then PageState(s.now, None, s.now) else s
    case Aborted(t) => if s.owner == Some(t) then PageState(s.stable, None, s.stable) else s
    case _ => s
  }

  function PageAt(x: Image, log: History, p: PageId): PageState {
    if log == [] then PageState(x, None, x) else Advance(PageAt(x, Front(log), p), Last(log), p)
  }

  /** Writes to the page carry full images, come from its only writer, and record what was there. */
  ghost predicate Disciplined(x: Image, log: History, p: PageId) {
    log != [] ==>
      && Disciplined(x, Front(log), p)
      && var s := PageAt(x, Front(log), p);
         match Last(log)
         case Written(t, q, before, after) =>
           q == p ==> |after| == PAGE_SIZE && before == s.now && (s.owner == None || s.owner == Some(t))
         case _ => true
  }

  lemma {:induction false} DisciplinedPrefix(x: Image, log: History, p: PageId, k: nat)
    requires Disciplined(x, log, p) && k <= |log|
    ensures Disciplined(x, log[..k], p)
  {
    if k < |log| {
      DisciplinedPrefix(x, Front(log), p, k);
      assert Front(log)[..k] == log[..k];
    } else {
      assert log[..k] == log;
    }
  }

  // A page without a writer is stable; a writer is active.
  lemma {:induction false} OwnerActive(x: Image, log: History, p: PageId)
    requires Lawful(log) && Disciplined(x, log, p)
    ensures var s := PageAt(x, log, p);
            if s.owner == None then s.now == s.stable else s.owner.value in Analyze(log).active
  {
    if log != [] { OwnerActive(x, Front(log), p); }
  }

  // ----- redo -----

  /** Some transaction of `committed` wrote the page. */
  ghost predicate WrittenBy(log: History, who: set<Txn>, p: PageId) {
    log != [] && (WrittenBy(Front(log), who, p) || (Last(log).Written? && Last(log).p == p && Last(log).t in who))
  }

  /** What redo of a prefix leaves on a page that held `d`. */
  ghost predicate Redone(x: Image, log: History, who: set<Txn>, p: PageId, d: Image) {
    var s, y := PageAt(x, log, p), ApplyAt(d, p, Redo(log, who));
    if WrittenBy(log, who, p) then y == if s.owner.Some? && s.owner.value in who then s.now else s.stable
    else y == d && s.stable == x && !(s.owner.Some? && s.owner.value in who)
  }

  lemma {:induction false} RedoPrefix(x: Image, log: History, k: nat, p: PageId, d: Image)
    requires Lawful(log) && Disciplined(x, log, p) && k <= |log|
    ensures Redone(x, log[..k], Analyze(log).committed, p, d)
  {
    if k > 0 {
      RedoPrefix(x, log, k - 1, p, d);
      var m := log[..k];
      assert Front(m) == log[..k - 1];
      EndsStay(log, k);
      LawfulSets(log);
      DisciplinedPrefix(x, log, p, k);
      OwnerActive(x, Front(m), p);
      RedoStep(x, m, Analyze(log).committed, p, d);
    }
  }

  lemma RedoStep(x: Image, m: History, who: set<Txn>, p: PageId, d: Image)
    requires m != [] && Disciplined(x, m, p) && Redone(x, Front(m), who, p, d)
    requires var s := PageAt(x, Front(m), p); s.owner == None ==> s.now == s.stable
    requires Last(m).Committed? ==> Last(m).t in who
    requires Last(m).Aborted? ==> Last(m).t !in who
    ensures Redone(x, m, who, p, d)
  {
    var r := Last(m);
    if r.Written? && r.t in who {
      ApplyAtConcat(d, p, Redo(Front(m), who), [(r.p, r.after)]);
      assert ApplyAt(ApplyAt(d, p, Redo(Front(m), who)), p, [(r.p, r.after)])
          == if r.p == p then r.after else ApplyAt(d, p, Redo(Front(m), who));
    } else {
      assert Redo(m, who) == Redo(Front(m), who);
    }
  }

  // ----- undo -----

  /** What undo of a prefix leaves on a page that held `d`: the first active writer's before-image. */
  ghost predicate Undone(x: Image, log: History, who: set<Txn>, p: PageId, d: Image) {
    var s := PageAt(x, log, p);
    ApplyAt(d, p, Undo(log, who)) == if s.owner.Some? && s.owner.value in who then s.stable else d
  }

  lemma {:induction false} UndoPrefix(x: Image, log: History, k: nat, p: PageId, d: Image)
    requires Lawful(log) && Disciplined(x, log, p) && k <= |log|
    ensures Undone(x, log[..k], Analyze(log).active, p, d)
  {
    if k > 0 {
      var m := log[..k];
      assert Front(m) == log[..k - 1];
      EndsStay(log, k);
      LawfulSets(log);
      DisciplinedPrefix(x, log, p, k);
      OwnerActive(x, Front(m), p);
      var r := Last(m);
      var d' := if r.Written? && r.t in Analyze(log).active && r.p == p then r.before else d;
      UndoPrefix(x, log, k - 1, p, if |d'| == PAGE_SIZE then d' else d);
      UndoStep(x, m, Analyze(log).active, p, d);
    }
  }

  lemma UndoStep(x: Image, m: History, who: set<Txn>, p: PageId, d: Image)
    requires m != [] && Disciplined(x, m, p)
    requires var r := Last(m);
             Undone(x, Front(m), who, p,
                    if r.Written? && r.t in who && r.p == p && |r.before| == PAGE_SIZE then r.before else d)
    requires var s := PageAt(x, Front(m), p); s.owner == None ==> s.now == s.stable
    requires Last(m).Committed? || Last(m).Aborted? ==> Last(m).t !in who
    ensures Undone(x, m, who, p, d)
  {
    UndoUnfold(m, who, p, d);
  }

  lemma UndoUnfold(m: History, who: set<Txn>, p: PageId, d: Image)
    requires m != []
    ensures var r := Last(m);
            ApplyAt(d, p, Undo(m, who)) ==
              ApplyAt(if r.Written? && r.t in who && r.p == p then Overlay(d, r.before) else d, p, Undo(Front(m), who))
  {
    var r := Last(m);
    if r.Written? && r.t in who {
      assert Undo(m, who)[0] == (r.p, r.before) && Undo(m, who)[1..] == Undo(Front(m), who);
    } else {
      assert Undo(m, who) == Undo(Front(m), who);
    }
  }

  // ----- the two together -----

  /** A page that recovery leaves as it finds it: no committed and no active transaction wrote it. */
  ghost predicate Untouched(log: History, p: PageId) {
    !WrittenBy(log, Analyze(log).committed, p) && !WrittenBy(log, Analyze(log).active, p)
  }

  lemma RecoveredAt(x: Image, pages: seq<Image>, log: History, p: PageId)
    requires Lawful(log) && Disciplined(x, log, p) && p < |pages|
    ensures Recovered(pages, log)[p] == if Untouched(log, p) then pages[p] else PageAt(x, log, p).stable
    ensures Untouched(log, p) ==> PageAt(x, log, p).stable == x
  {
    var a := Analyze(log);
    ApplyPagewise(pages, Actions(log), p);
    ApplyAtConcat(pages[p], p, Redo(log, a.committed), Undo(log, a.active));
    assert log[..|log|] == log;
    RedoPrefix(x, log, |log|, p, pages[p]);
    UndoPrefix(x, log, |log|, p, ApplyAt(pages[p], p, Redo(log, a.committed)));
    LawfulSets(log);
    OwnerActive(x, log, p);
    ActiveWriterOwns(x, log, p);
  }

  // The active writer of a page, if there is one, is its owner.
  lemma {:induction false} ActiveWriterOwns(x: Image, log: History, p: PageId)
    requires Lawful(log) && Disciplined(x, log, p)
    ensures WrittenBy(log, Analyze(log).active, p) <==> PageAt(x, log, p).owner.Some?
  {
    WritersOwn(x, log, |log|, p);
    assert log[..|log|] == log;
    OwnerActive(x, log, p);
  }

  lemma {:induction false} WritersOwn(x: Image, log: History, k: nat, p: PageId)
    requires Lawful(log) && Disciplined(x, log, p) && k <= |log|
    ensures var s := PageAt(x, log[..k], p);
            WrittenBy(log[..k], Analyze(log).active, p) <==> s.owner.Some? && s.owner.value in Analyze(log).active
  {
    if k > 0 {
      WritersOwn(x, log, k - 1, p);
      assert Front(log[..k]) == log[..k - 1];
      EndsStay(log, k);
      LawfulSets(log);
      DisciplinedPrefix(x, log, p, k);
    }
  }

  // ----- the reference: one transaction after the other, in commit order -----

  /** All writes of a transaction, in log order, at the moment it commits; nothing else. */
  function Serial(init: seq<Image>, log: History): (r: seq<Image>)
    ensures |r| == |init|
  {
    if log == [] then init
    else
      match Last(log)
      case Committed(t) => ApplyAll(Serial(init, Front(log)), Redo(Front(log), {t}))
      case _ => Serial(init, Front(log))
  }

  // A transaction that has not ended has written a page if and only if it owns it.
  lemma {:induction false} OwnWrites(x: Image, log: History, t: Txn, p: PageId, d: Image)
    requires Lawful(log) && Disciplined(x, log, p) && t !in Analyze(log).committed && t !in Analyze(log).aborted
    ensures var s := PageAt(x, log, p);
            ApplyAt(d, p, Redo(log, {t})) == if s.owner == Some(t) then s.now else d
  {
    if log != [] {
      OwnWrites(x, Front(log), t, p, d);
      var r := Last(log);
      if r.Written? && r.t == t {
        ApplyAtConcat(d, p, Redo(Front(log), {t}), [(r.p, r.after)]);
        assert ApplyAt(ApplyAt(d, p, Redo(Front(log), {t})), p, [(r.p, r.after)])
            == if r.p == p then r.after else ApplyAt(d, p, Redo(Front(log), {t}));
      } else {
        assert Redo(log, {t}) == Redo(Front(log), {t});
        OwnerActive(x, Front(log), p);
      }
    }
  }

  lemma {:induction false} SerialAt(init: seq<Image>, log: History, p: PageId)
    requires p < |init| && Lawful(log) && Disciplined(init[p], log, p)
    ensures Serial(init, log)[p] == PageAt(init[p], log, p).stable
  {
    if log != [] {
      var f := Front(log);
      SerialAt(init, f, p);
      if Last(log).Committed? {
        var t := Last(log).t;
        LawfulSets(f);
        OwnWrites(init[p], f, t, p, Serial(init, f)[p]);
        ApplyPagewise(Serial(init, f), Redo(f, {t}), p);
      }
    }
  }

  ghost predicate DisciplinedAll(init: seq<Image>, log: History) {
    forall p: PageId {:trigger Disciplined(init[p], log, p)} :: p < |init| ==> Disciplined(init[p], log, p)
  }

  /** Pages that recovery does not touch already hold what they held at the start. */
  ghost predicate Restored(init: seq<Image>, pages: seq<Image>, log: History)
    requires |pages| == |init|
  {
    forall p: PageId {:trigger Untouched(log, p)} :: p < |init| && Untouched(log, p) ==> pages[p] == init[p]
  }

  // Recovery yields the serial execution of the committed transactions if and only if
  // every page that only aborted transactions wrote had been restored before the crash.
  lemma RecoveryIff(init: seq<Image>, pages: seq<Image>, log: History)
    requires Lawful(log) && DisciplinedAll(init, log) && |pages| == |init| <= INVALID_PAGE_ID
    ensures Recovered(pages, log) == Serial(init, log) <==> Restored(init, pages, log)
  {
    forall p: PageId | p < |init|
      ensures Recovered(pages, log)[p] == if Untouched(log, p) then pages[p] else Serial(init, log)[p]
      ensures Untouched(log, p) ==> Serial(init, log)[p] == init[p]
    {
      assert Disciplined(init[p], log, p);
      SerialAt(init, log, p);
      RecoveredAt(init[p], pages, log, p);
    }
    if Restored(init, pages, log) {
      forall p | 0 <= p < |init| ensures Recovered(pages, log)[p] == Serial(init, log)[p] {
        var q: PageId := p;
        assert Untouched(log, q) ==> pages[q] == init[q];
      }
    }
  }

  // ----- what recovery leaves, byte by byte -----

  // An image is copied over the front of the page; the bytes behind it stay.
  lemma OverlayBytes(page: Image, img: seq<byte>, i: nat)
    requires i < PAGE_SIZE
    ensures Overlay(page, img)[i] == if i < |img| then img[i] else page[i]
  {
  }

  /** The action writes byte `i` of page `p`. */
  ghost predicate Hits(a: Action, p: PageId, i: nat) {
    a.0 == p && i < |a.1|
  }

  /** Action `j` is the last one that does. */
  ghost predicate LastHit(acts: seq<Action>, p: PageId, i: nat, j: nat) {
    j < |acts| && Hits(acts[j], p, i) && forall k :: j < k < |acts| ==> !Hits(acts[k], p, i)
  }

  // A byte is what the last action that writes it says, and as it was if none does.
  lemma {:induction false} ApplyByte(pages: seq<Image>, acts: seq<Action>, p: PageId, i: nat)
    requires p < |pages| && i < PAGE_SIZE
    ensures (forall j :: 0 <= j < |acts| ==> !Hits(acts[j], p, i)) ==> ApplyAll(pages, acts)[p][i] == pages[p][i]
    ensures forall j: nat {:trigger LastHit(acts, p, i, j)} ::
              LastHit(acts, p, i, j) ==> ApplyAll(pages, acts)[p][i] == acts[j].1[i]
    decreases |acts|
  {
    if acts != [] {
      var now, rest := Apply(pages, acts[0]), acts[1..];
      OverlayBytes(pages[p], acts[0].1, i);
      ApplyByte(now, rest, p, i);
      forall j: nat | LastHit(acts, p, i, j) ensures ApplyAll(pages, acts)[p][i] == acts[j].1[i] {
        if j > 0 { assert rest[j - 1] == acts[j] && LastHit(rest, p, i, j - 1); }
      }
    }
  }

  ghost predicate HasCommit(log: History, t: Txn) {
    exists i :: 0 <= i < |log| && log[i] == Committed(t)
  }

  ghost predicate HasAbort(log: History, t: Txn) {
    exists i :: 0 <= i < |log| && log[i] == Aborted(t)
  }

  ghost predicate StartedAt(log: History, t: Txn, i: nat) {
    i < |log| && log[i] == Begun(t) && forall k :: i < k < |log| ==> log[k] != Committed(t) && log[k] != Aborted(t)
  }

  /** The transaction has begun and not ended since. */
  ghost predicate Unfinished(log: History, t: Txn) {
    exists i :: StartedAt(log, t, i)
  }

  // What analysis finds out, of any log.
  lemma {:induction false} AnalyzeMeaning(log: History, t: Txn)
    ensures t in Analyze(log).committed <==> HasCommit(log, t)
    ensures t in Analyze(log).aborted <==> HasAbort(log, t)
    ensures t in Analyze(log).active <==> Unfinished(log, t)
  {
    if log != [] {
      var front, n := Front(log), |log| - 1;
      AnalyzeMeaning(front, t);
      assert forall i :: 0 <= i < n ==> front[i] == log[i];
      if Last(log) == Begun(t) { assert StartedAt(log, t, n); }
      if Last(log) != Committed(t) && Last(log) != Aborted(t) {
        forall i: nat | i < n ensures StartedAt(log, t, i) <==> StartedAt(front, t, i) {}
      }
      if Unfinished(log, t) && Last(log) != Begun(t) {
        var i: nat :| StartedAt(log, t, i);
        assert i < n && Last(log) == log[n] && StartedAt(front, t, i);
      }
    }
  }

  /** Record `j` writes byte `i` of page `p`, for one of these transactions. */
  ghost predicate RedoesAt(log: History, who: set<Txn>, p: PageId, i: nat, j: nat) {
    j < |log| && log[j].Written? && log[j].t in who && log[j].p == p && i < |log[j].after|
  }

  ghost predicate UndoesAt(log: History, who: set<Txn>, p: PageId, i: nat, j: nat) {
    j < |log| && log[j].Written? && log[j].t in who && log[j].p == p && i < |log[j].before|
  }

  lemma ApplyOne(x: Image, p: PageId, a: Action, i: nat)
    requires i < PAGE_SIZE
    ensures ApplyAt(x, p, [a])[i] == if Hits(a, p, i) then a.1[i] else x[i]
  {
    OverlayBytes(x, a.1, i);
    assert [a][1..] == [];
  }

  ghost predicate LastRedo(log: History, who: set<Txn>, p: PageId, i: nat, j: nat) {
    RedoesAt(log, who, p, i, j) && forall k: nat :: j < k ==> !RedoesAt(log, who, p, i, k)
  }

  ghost predicate FirstUndo(log: History, who: set<Txn>, p: PageId, i: nat, j: nat) {
    UndoesAt(log, who, p, i, j) && forall k: nat :: k < j ==> !UndoesAt(log, who, p, i, k)
  }

  // What the last record contributes to one byte.
  lemma RedoEnd(x: Image, log: History, who: set<Txn>, p: PageId, i: nat)
    requires i < PAGE_SIZE && log != []
    ensures ApplyAt(x, p, Redo(log, who))[i] ==
            if RedoesAt(log, who, p, i, |log| - 1) then Last(log).after[i] else ApplyAt(x, p, Redo(Front(log), who))[i]
  {
    var r := Last(log);
    if r.Written? && r.t in who {
      ApplyAtConcat(x, p, Redo(Front(log), who), [(r.p, r.after)]);
      ApplyOne(ApplyAt(x, p, Redo(Front(log), who)), p, (r.p, r.after), i);
    } else {
      assert Redo(log, who) == Redo(Front(log), who);
    }
  }

  lemma {:induction false} RedoNone(x: Image, log: History, who: set<Txn>, p: PageId, i: nat)
    requires i < PAGE_SIZE && forall j: nat :: !RedoesAt(log, who, p, i, j)
    ensures ApplyAt(x, p, Redo(log, who))[i] == x[i]
  {
    if log != [] {
      RedoEnd(x, log, who, p, i);
      forall j: nat ensures !RedoesAt(Front(log), who, p, i, j) { assert !RedoesAt(log, who, p, i, j); }
      RedoNone(x, Front(log), who, p, i);
    }
  }

  lemma {:induction false} RedoByte(x: Image, log: History, who: set<Txn>, p: PageId, i: nat, j: nat)
    requires i < PAGE_SIZE && LastRedo(log, who, p, i, j)
    ensures ApplyAt(x, p, Redo(log, who))[i] == log[j].after[i]
  {
    RedoEnd(x, log, who, p, i);
    if j < |log| - 1 {
      assert !RedoesAt(log, who, p, i, |log| - 1);
      forall k: nat | j < k ensures !RedoesAt(Front(log), who, p, i, k) { assert !RedoesAt(log, who, p, i, k); }
      RedoByte(x, Front(log), who, p, i, j);
    }
  }

  lemma UndoEnd(x: Image, log: History, who: set<Txn>, p: PageId, i: nat) returns (y: Image)
    requires i < PAGE_SIZE && log != []
    ensures ApplyAt(x, p, Undo(log, who)) == ApplyAt(y, p, Undo(Front(log), who))
    ensures y[i] == if UndoesAt(log, who, p, i, |log| - 1) then Last(log).before[i] else x[i]
  {
    var r := Last(log);
    if r.Written? && r.t in who {
      y := ApplyAt(x, p, [(r.p, r.before)]);
      ApplyAtConcat(x, p, [(r.p, r.before)], Undo(Front(log), who));
      ApplyOne(x, p, (r.p, r.before), i);
    } else {
      y := x;
      UndoSkips(log, who);
    }
  }

  lemma {:induction false} UndoNone(x: Image, log: History, who: set<Txn>, p: PageId, i: nat)
    requires i < PAGE_SIZE && forall j: nat :: !UndoesAt(log, who, p, i, j)
    ensures ApplyAt(x, p, Undo(log, who))[i] == x[i]
    decreases log
  {
    if log != [] {
      var y := UndoEnd(x, log, who, p, i);
      forall j: nat ensures !UndoesAt(Front(log), who, p, i, j) { assert !UndoesAt(log, who, p, i, j); }
      UndoNone(y, Front(log), who, p, i);
    }
  }

  lemma {:induction false} UndoByte(x: Image, log: History, who: set<Txn>, p: PageId, i: nat, j: nat)
    requires i < PAGE_SIZE && FirstUndo(log, who, p, i, j)
    ensures ApplyAt(x, p, Undo(log, who))[i] == log[j].before[i]
    decreases log
  {
    var y := UndoEnd(x, log, who, p, i);
    if j < |log| - 1 {
      forall k: nat | k < j ensures !UndoesAt(Front(log), who, p, i, k) { assert !UndoesAt(log, who, p, i, k); }
      UndoByte(y, Front(log), who, p, i, j);
    } else {
      forall k: nat ensures !UndoesAt(Front(log), who, p, i, k) {
        if k < j { assert !UndoesAt(log, who, p, i, k); }
      }
      UndoNone(y, Front(log), who, p, i);
    }
  }

  /** Record `j` is a write of byte `i` of page `p` by a transaction that committed. */
  ghost predicate KeptWrite(log: History, p: PageId, i: nat, j: nat) {
    j < |log| && log[j].Written? && HasCommit(log, log[j].t) && log[j].p == p && i < |log[j].after|
  }

  /** Record `j` is a write of byte `i` of page `p` by a transaction that never ended. */
  ghost predicate OpenWrite(log: History, p: PageId, i: nat, j: nat) {
    j < |log| && log[j].Written? && Unfinished(log, log[j].t) && log[j].p == p && i < |log[j].before|
  }

  ghost predicate LastKept(log: History, p: PageId, i: nat, j: nat) {
    KeptWrite(log, p, i, j) && forall k: nat :: j < k ==> !KeptWrite(log, p, i, k)
  }

  ghost predicate FirstOpen(log: History, p: PageId, i: nat, j: nat) {
    OpenWrite(log, p, i, j) && forall k: nat :: k < j ==> !OpenWrite(log, p, i, k)
  }

  // Each byte after recovery, whatever the log, the pages and the lengths of the images: what it was
  // before the first write of a transaction that never ended; else what the last write of a
  // committed one made it; else what it was.
  lemma RecoveredByte(pages: seq<Image>, log: History, p: PageId, i: nat)
    requires p < |pages| && i < PAGE_SIZE
    ensures forall j: nat {:trigger FirstOpen(log, p, i, j)} ::
              FirstOpen(log, p, i, j) ==> Recovered(pages, log)[p][i] == log[j].before[i]
    ensures (forall j: nat :: !OpenWrite(log, p, i, j)) ==>
              forall j: nat {:trigger LastKept(log, p, i, j)} ::
                LastKept(log, p, i, j) ==> Recovered(pages, log)[p][i] == log[j].after[i]
    ensures (forall j: nat :: !OpenWrite(log, p, i, j)) && (forall j: nat :: !KeptWrite(log, p, i, j)) ==>
              Recovered(pages, log)[p][i] == pages[p][i]
  {
    var a := Analyze(log);
    var redo, undo := Redo(log, a.committed), Undo(log, a.active);
    ApplyPagewise(pages, redo + undo, p);
    ApplyAtConcat(pages[p], p, redo, undo);
    var x := ApplyAt(pages[p], p, redo);
    forall j: nat ensures KeptWrite(log, p, i, j) <==> RedoesAt(log, a.committed, p, i, j) {
      if j < |log| && log[j].Written? { AnalyzeMeaning(log, log[j].t); }
    }
    forall j: nat ensures OpenWrite(log, p, i, j) <==> UndoesAt(log, a.active, p, i, j) {
      if j < |log| && log[j].Written? { AnalyzeMeaning(log, log[j].t); }
    }
    forall j: nat | FirstOpen(log, p, i, j) ensures Recovered(pages, log)[p][i] == log[j].before[i] {
      UndoByte(x, log, a.active, p, i, j);
    }
    if forall j: nat :: !OpenWrite(log, p, i, j) {
      UndoNone(x, log, a.active, p, i);
      forall j: nat | LastKept(log, p, i, j) ensures Recovered(pages, log)[p][i] == log[j].after[i] {
        RedoByte(pages[p], log, a.committed, p, i, j);
      }
      if forall j: nat :: !KeptWrite(log, p, i, j) { RedoNone(pages[p], log, a.committed, p, i); }
    }
  }

  // ----- recovery may itself be interrupted -----

  /** Some action writes byte `i` of the page. */
  ghost predicate Touches(acts: seq<Action>, p: PageId, i: nat) {
    exists j :: 0 <= j < |acts| && acts[j].0 == p && i < |acts[j].1|
  }

  lemma {:induction false} TouchedForgets(x: Image, y: Image, p: PageId, acts: seq<Action>, i: nat)
    requires i < PAGE_SIZE
    ensures Touches(acts, p, i) ==> ApplyAt(x, p, acts)[i] == ApplyAt(y, p, acts)[i]
    ensures !Touches(acts, p, i) ==> ApplyAt(x, p, acts)[i] == x[i]
    decreases |acts|
  {
    if acts != [] {
      var x' := if acts[0].0 == p then Overlay(x, acts[0].1) else x;
      var y' := if acts[0].0 == p then Overlay(y, acts[0].1) else y;
      TouchedForgets(x', y', p, acts[1..], i);
      assert acts == [acts[0]] + acts[1..];
      if Touches(acts[1..], p, i) {
        var j :| 0 <= j < |acts[1..]| && acts[1..][j].0 == p && i < |acts[1..][j].1|;
        assert acts[j + 1] == acts[1..][j];
      } else if Touches(acts, p, i) {
        TouchedForgets(y', x', p, acts[1..], i);
      }
    }
  }

  /** The page as some number of the actions leaves it. */
  ghost predicate Reached(pages: seq<Image>, acts: seq<Action>, p: nat, x: Image)
    requires p < |pages|
  {
    exists k :: 0 <= k <= |acts| && x == ApplyAll(pages, acts[..k])[p]
  }

  /** Each page was last written out after some number of actions, every page after its own. */
  ghost predicate Interrupted(pages: seq<Image>, acts: seq<Action>, now: seq<Image>) {
    |now| == |pages| && forall p :: 0 <= p < |pages| ==> Reached(pages, acts, p, now[p])
  }

  lemma Restartable(pages: seq<Image>, log: History, now: seq<Image>)
    requires Interrupted(pages, Actions(log), now) && |pages| <= INVALID_PAGE_ID
    ensures Recovered(now, log) == Recovered(pages, log)
  {
    var acts := Actions(log);
    forall p | 0 <= p < |pages| ensures Recovered(now, log)[p] == Recovered(pages, log)[p] {
      var q: PageId := p;
      assert Reached(pages, acts, p, now[p]);
      var k :| 0 <= k <= |acts| && now[p] == ApplyAll(pages, acts[..k])[p];
      ApplyPagewise(now, acts, q);
      ApplyPagewise(pages, acts, q);
      ApplyPagewise(pages, acts[..k], q);
      forall i | 0 <= i < PAGE_SIZE ensures ApplyAt(now[p], q, acts)[i] == ApplyAt(pages[p], q, acts)[i] {
        RestartByte(pages[p], now[p], q, acts, k, i);
      }
    }
  }

  lemma RestartByte(x: Image, y: Image, p: PageId, acts: seq<Action>, k: nat, i: nat)
    requires k <= |acts| && i < PAGE_SIZE && (y == x || y == ApplyAt(x, p, acts[..k]))
    ensures ApplyAt(y, p, acts)[i] == ApplyAt(x, p, acts)[i]
  {
    TouchedForgets(y, x, p, acts, i);
    TouchedForgets(x, x, p, acts, i);
    TouchedForgets(x, x, p, acts[..k], i);
    if Touches(acts[..k], p, i) {
      var j :| 0 <= j < |acts[..k]| && acts[..k][j].0 == p && i < |acts[..k][j].1|;
      assert acts[j] == acts[..k][j];
    }
  }

  // ----- logs that may stay in front of another -----

  /** The log holds no write and no commit. */
  ghost predicate Silent(log: History) {
    forall i :: 0 <= i < |log| ==> !log[i].Written? && !log[i].Committed?
  }

  function Names(log: History): set<Txn> {
    var a := Analyze(log);
    a.active + a.committed + a.aborted
  }

  lemma FrontConcat(a: History, b: History)
    requires b != []
    ensures a + b != [] && Front(a + b) == a + Front(b) && Last(a + b) == Last(b)
  {
  }

  lemma SilentFront(log: History)
    requires Silent(log) && log != []
    ensures Silent(Front(log)) && !Last(log).Written? && !Last(log).Committed?
  {
    forall i | 0 <= i < |Front(log)| ensures !Front(log)[i].Written? && !Front(log)[i].Committed? {
      assert Front(log)[i] == log[i];
    }
  }

  lemma {:induction false} SilentAlone(log: History, who: set<Txn>, p: PageId)
    requires Silent(log)
    ensures Analyze(log).committed == {} && Redo(log, who) == [] && Undo(log, who) == [] && !WrittenBy(log, who, p)
  {
    if log != [] {
      SilentFront(log);
      SilentAlone(Front(log), who, p);
    }
  }

  // The transactions of the second log fare as they do without the first.
  lemma {:induction false} SilentAnalysis(a: History, b: History)
    requires Silent(a) && Lawful(b)
    ensures Analyze(a + b).committed == Analyze(b).committed
    ensures forall t :: t in Names(b) ==> (t in Analyze(a + b).active <==> t in Analyze(b).active)
  {
    if b == [] {
      assert a + b == a;
      SilentAlone(a, {}, 0);
    } else {
      FrontConcat(a, b);
      SilentAnalysis(a, Front(b));
    }
  }

  lemma {:induction false} WriterNamed(log: History, i: nat)
    requires Lawful(log) && i < |log| && log[i].Written?
    ensures log[i].t in Names(log)
  {
    if i < |log| - 1 {
      assert Front(log)[i] == log[i];
      WriterNamed(Front(log), i);
    }
  }

  lemma {:induction false} RedoConcat(a: History, b: History, who: set<Txn>)
    ensures Redo(a + b, who) == Redo(a, who) + Redo(b, who)
  {
    if b == [] {
      assert a + b == a;
    } else {
      FrontConcat(a, b);
      RedoConcat(a, Front(b), who);
    }
  }

  lemma {:induction false} UndoConcat(a: History, b: History, who: set<Txn>)
    ensures Undo(a + b, who) == Undo(b, who) + Undo(a, who)
  {
    if b == [] {
      assert a + b == a;
    } else {
      FrontConcat(a, b);
      UndoConcat(a, Front(b), who);
    }
  }

  lemma {:induction false} WrittenByConcat(a: History, b: History, who: set<Txn>, p: PageId)
    ensures WrittenBy(a + b, who, p) <==> WrittenBy(a, who, p) || WrittenBy(b, who, p)
  {
    if b == [] {
      assert a + b == a;
    } else {
      FrontConcat(a, b);
      WrittenByConcat(a, Front(b), who, p);
    }
  }

  lemma {:induction false} UndoAgrees(log: History, who: set<Txn>, who': set<Txn>, p: PageId)
    requires forall i :: 0 <= i < |log| && log[i].Written? ==> (log[i].t in who <==> log[i].t in who')
    ensures Undo(log, who) == Undo(log, who') && (WrittenBy(log, who, p) <==> WrittenBy(log, who', p))
  {
    if log != [] {
      forall i | 0 <= i < |Front(log)| && Front(log)[i].Written?
        ensures Front(log)[i].t in who <==> Front(log)[i].t in who'
      {
        assert Front(log)[i] == log[i];
      }
      UndoAgrees(Front(log), who, who', p);
    }
  }

  lemma SilentSkips(a: History, b: History, p: PageId)
    requires Silent(a) && Lawful(b)
    ensures Actions(a + b) == Actions(b) && (Untouched(a + b, p) <==> Untouched(b, p))
  {
    var x, y := Analyze(a + b), Analyze(b);
    SilentAnalysis(a, b);
    SilentAlone(a, y.committed, p);
    SilentAlone(a, x.active, p);
    RedoConcat(a, b, y.committed);
    UndoConcat(a, b, x.active);
    WrittenByConcat(a, b, y.committed, p);
    WrittenByConcat(a, b, x.active, p);
    forall i | 0 <= i < |b| && b[i].Written? ensures b[i].t in x.active <==> b[i].t in y.active { WriterNamed(b, i); }
    UndoAgrees(b, x.active, y.active, p);
  }

  /** The first log does not change what the second calls for. */
  ghost predicate KeptBefore(a: History, b: History) {
    Lawful(b) ==> Actions(a + b) == Actions(b)
  }

  // A log that calls for no action may stay in front of every other log if and only if it is silent.
  lemma KeepIff(a: History)
    requires Actions(a) == []
    ensures (forall b {:trigger KeptBefore(a, b)} :: KeptBefore(a, b)) <==> Silent(a)
  {
    if Silent(a) {
      forall b ensures KeptBefore(a, b) {
        if Lawful(b) { SilentSkips(a, b, 0); }
      }
    } else {
      var i :| 0 <= i < |a| && (a[i].Written? || a[i].Committed?);
      var b;
      if a[i].Written? { b := Revived(a, i); } else { b := Overtaken(a, i); }
      assert !KeptBefore(a, b);
    }
  }

  lemma {:induction false} RedoHas(log: History, who: set<Txn>, i: nat)
    requires i < |log| && log[i].Written? && log[i].t in who
    ensures (log[i].p, log[i].after) in Redo(log, who)
  {
    if i < |log| - 1 {
      assert Front(log)[i] == log[i];
      RedoHas(Front(log), who, i);
    }
  }

  lemma {:induction false} CommitNoted(log: History, i: nat)
    requires i < |log| && log[i].Committed?
    ensures log[i].t in Analyze(log).committed
  {
    if i < |log| - 1 {
      assert Front(log)[i] == log[i];
      CommitNoted(Front(log), i);
    }
  }

  // A write that was not to be redone is, once a transaction of the same name commits.
  lemma Revived(a: History, i: nat) returns (b: History)
    requires i < |a| && a[i].Written?
    ensures Lawful(b) && Actions(b) == [] && Actions(a + b) != []
  {
    var t := a[i].t;
    b := [Begun(t), Committed(t)];
    var b1 := b[..1];
    var none: set<Txn> := {};
    assert b1 == [Begun(t)] && Front(b) == b1 && Front(b1) == [];
    assert Analyze(b1) == Analysis({t}, {}, {}) && Lawful(b1);
    assert Analyze(b) == Analysis({}, {t}, {});
    assert Redo(b1, {t}) == [];
    UndoSkips(b1, none);
    FrontConcat(a, b);
    var who := Analyze(a + b).committed;
    assert (a + b)[i] == a[i];
    RedoHas(a + b, who, i);
  }

  // A write that was aborted is redone, if a transaction of the same name committed before.
  lemma Overtaken(a: History, i: nat) returns (b: History)
    requires i < |a| && a[i].Committed?
    ensures Lawful(b) && Actions(b) == [] && Actions(a + b) != []
  {
    var t := a[i].t;
    b := [Begun(t), Written(t, 0, [], []), Aborted(t)];
    var b1, b2 := b[..1], b[..2];
    assert b1 == [Begun(t)] && Front(b) == b2 && Front(b2) == b1 && Front(b1) == [];
    assert Analyze(b1) == Analysis({t}, {}, {}) && Analyze(b2) == Analysis({t}, {}, {}) && Lawful(b2);
    assert Analyze(b) == Analysis({}, {}, {t});
    var none: set<Txn> := {};
    UndoSkips(b1, none);
    UndoSkips(b2, none);
    UndoSkips(b, none);
    assert Redo(b1, none) == [];
    assert Last(b2) == b[1] && Redo(b2, none) == Redo(b1, none);
    var all, j := a + b, |a| + 1;
    assert all[i] == a[i] && all[j] == b[1];
    CommitNoted(all, i);
    RedoHas(all, Analyze(all).committed, j);
  }

  // ----- the last committed writer of a page -----

  /** The last image a transaction wrote to a page. */
  function LastBy(log: History, t: Txn, p: PageId): Option<seq<byte>> {
    if log == [] then None
    else if Last(log).Written? && Last(log).t == t && Last(log).p == p then Some(Last(log).after)
    else LastBy(Front(log), t, p)
  }

  /** The image the page's last writer left, of those that committed, in commit order. */
  function Newest(log: History, p: PageId): Option<seq<byte>> {
    if log == [] then None
    else if Last(log).Committed? && LastBy(Front(log), Last(log).t, p).Some? then LastBy(Front(log), Last(log).t, p)
    else Newest(Front(log), p)
  }

  ghost predicate FullImages(log: History, p: PageId) {
    forall i :: 0 <= i < |log| && log[i].Written? && log[i].p == p ==> |log[i].after| == PAGE_SIZE
  }

  lemma {:induction false} DisciplinedFull(x: Image, log: History, p: PageId)
    requires Disciplined(x, log, p)
    ensures FullImages(log, p)
  {
    if log != [] {
      DisciplinedFull(x, Front(log), p);
      forall i | 0 <= i < |log| && log[i].Written? && log[i].p == p ensures |log[i].after| == PAGE_SIZE {
        if i < |log| - 1 { assert Front(log)[i] == log[i]; }
      }
    }
  }

  lemma FullFront(log: History, p: PageId)
    requires FullImages(log, p) && log != []
    ensures FullImages(Front(log), p) && (Last(log).Written? && Last(log).p == p ==> |Last(log).after| == PAGE_SIZE)
  {
    forall i | 0 <= i < |Front(log)| && Front(log)[i].Written? && Front(log)[i].p == p
      ensures |Front(log)[i].after| == PAGE_SIZE
    {
      assert Front(log)[i] == log[i];
    }
  }

  lemma {:induction false} RedoIsLast(x: Image, log: History, t: Txn, p: PageId)
    requires FullImages(log, p)
    ensures ApplyAt(x, p, Redo(log, {t})) == if LastBy(log, t, p).Some? then LastBy(log, t, p).value else x
  {
    if log != [] {
      var f, r := Front(log), Last(log);
      FullFront(log, p);
      RedoIsLast(x, f, t, p);
      if r.Written? && r.t == t {
        var act := [(r.p, r.after)];
        ApplyAtConcat(x, p, Redo(f, {t}), act);
        assert act[1..] == [];
      } else {
        assert Redo(log, {t}) == Redo(f, {t});
      }
    }
  }

  // The serial execution leaves on a page what its last committed writer wrote.
  lemma {:induction false} SerialIsNewest(init: seq<Image>, log: History, p: PageId)
    requires p < |init| && FullImages(log, p)
    ensures Serial(init, log)[p] == if Newest(log, p).Some? then Newest(log, p).value else init[p]
  {
    if log != [] {
      var f := Front(log);
      FullFront(log, p);
      SerialIsNewest(init, f, p);
      if Last(log).Committed? {
        var t := Last(log).t;
        ApplyPagewise(Serial(init, f), Redo(f, {t}), p);
        RedoIsLast(Serial(init, f)[p], f, t, p);
      }
    }
  }

  lemma {:induction false} WroteIt(log: History, t: Txn, p: PageId, who: set<Txn>)
    requires LastBy(log, t, p).Some? && t in who
    ensures WrittenBy(log, who, p)
  {
    if !(Last(log).Written? && Last(log).t == t && Last(log).p == p) { WroteIt(Front(log), t, p, who); }
  }

  lemma {:induction false} NewestTouched(log: History, p: PageId, who: set<Txn>)
    requires Newest(log, p).Some? && Analyze(log).committed <= who
    ensures WrittenBy(log, who, p)
  {
    if Last(log).Committed? && LastBy(Front(log), Last(log).t, p).Some? {
      WroteIt(Front(log), Last(log).t, p, who);
    } else {
      NewestTouched(Front(log), p, who);
    }
  }

  // ----- where the hypotheses are needed -----

  lemma UndoSkips(m: History, who: set<Txn>)
    requires m != [] && (Last(m).Written? ==> Last(m).t !in who)
    ensures Undo(m, who) == Undo(Front(m), who)
  {
  }

  lemma SerialSkips(init: seq<Image>, m: History)
    requires m != [] && !Last(m).Committed?
    ensures Serial(init, m) == Serial(init, Front(m)) && Serial(init, []) == init
  {
  }

  // A page that only an aborted transaction wrote stays as the crash left it.
  lemma AbortedOnlyStays(x: Image, y: Image)
    requires x != y
    ensures var log := [Begun(1), Written(1, 0, x, y), Aborted(1)];
            && Lawful(log) && DisciplinedAll([x], log)
            && Recovered([y], log) == [y] && Serial([x], log) == [x]
  {
    var log := [Begun(1), Written(1, 0, x, y), Aborted(1)];
    var l2, l1 := log[..2], log[..1];
    assert Front(log) == l2 && Front(l2) == l1 && Front(l1) == [];
    assert Analyze(l1) == Analysis({1}, {}, {}) && Lawful(l1);
    assert Analyze(l2) == Analysis({1}, {}, {}) && Lawful(l2);
    assert Analyze(log) == Analysis({}, {}, {1}) && Lawful(log);
    var none: set<Txn> := {};
    UndoSkips(l1, none);
    UndoSkips(l2, none);
    UndoSkips(log, none);
    var init := [x];
    SerialSkips(init, l1);
    SerialSkips(init, l2);
    SerialSkips(init, log);
    assert Redo(l1, none) == [] && Undo(l1, none) == [] && Serial(init, Front(l1)) == init;
    assert Redo(l2, none) == [] && Undo(l2, none) == [] && Serial(init, l2) == Serial(init, l1);
    assert Redo(log, none) == [] && Undo(log, none) == [];
    forall p: PageId | p < 1 ensures Disciplined([x][p], log, p) {
      assert PageAt(x, l1, p) == PageState(x, None, x) && Disciplined(x, l1, p);
      assert Disciplined(x, l2, p);
    }
  }
}
