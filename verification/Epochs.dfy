// Lives of a database: sessions of the step machine, crashes that cut the log file at any
// byte, recoveries that may themselves be interrupted, and the sessions that follow.
module Epochs {
  import opened Bytes
  import opened Layout
  import opened Framing
  import Checksum
  import opened Recovery
  import opened Locks
  import opened Transactions
  import opened System
  import LogRecord
  import Wal

  type Record = LogRecord.Record

  /** Running, with what the log file held at opening and the records appended since; or stopped,
      with what a crash has left of log file and disk. */
  datatype Phase =
    | Up(s: Sys, found: seq<byte>, records: seq<Record>)
    | Down(file: seq<byte>, disk: seq<Image>)

  /** A session's own log, the log that is read after its crash, and the pages the crash left. */
  datatype Remains = Remains(log: History, seen: History, disk: seq<Image>)

  /** `starts` are the pages each session began with, `crashes` what each one ended with. */
  datatype World = World(codec: Codec<Record>, starts: seq<seq<Image>>, crashes: seq<Remains>, phase: Phase)

  /** A step comes with the records it appends; `Fail(n)` leaves `n` bytes of the log file. */
  datatype Move =
    | Act(a: Step, written: seq<Record>)
    | Fail(n: nat)
    | Interrupt(now: seq<Image>)
    | Reopen

  /** Reading the file does not run off its end. */
  ghost predicate Legible(c: Codec<Record>, file: seq<byte>) {
    ReadAll(c, file).Log? && Wal.AllSliceable(ReadAll(c, file).records)
  }

  ghost function Seen(c: Codec<Record>, file: seq<byte>): History {
    if ReadAll(c, file).Log? then Wal.AbsAll(ReadAll(c, file).records) else []
  }

  /** A session before its first step: transactions are numbered from 1 again. */
  function Fresh(pages: seq<Image>): Sys {
    Sys(Manager(1, map[], map[]), [], 0, pages, pages)
  }

  /** The engine as reopening leaves it: the file is emptied only if there was something to redo or undo. */
  ghost function Reborn(c: Codec<Record>, file: seq<byte>, disk: seq<Image>): Phase {
    Up(Fresh(Recovered(disk, Seen(c, file))), if Actions(Seen(c, file)) == [] then file else [], [])
  }

  ghost predicate Can(w: World, a: Move) {
    match a
    case Act(step, rs) =>
      && w.phase.Up? && Enabled(w.phase.s, step) && Wal.AllWell(rs)
      && Do(w.phase.s, step).log == w.phase.s.log + Wal.AbsAll(rs)
    case Fail(n) =>
      && w.phase.Up? && w.phase.s.flushed <= |w.phase.records|
      && |w.phase.found + Concat(w.codec, w.phase.records[..w.phase.s.flushed])| <= n
      && n <= |w.phase.found + Concat(w.codec, w.phase.records)|
    case Interrupt(now) =>
      && w.phase.Down? && Legible(w.codec, w.phase.file)
      && Interrupted(w.phase.disk, Actions(Seen(w.codec, w.phase.file)), now)
    case Reopen => w.phase.Down? && Legible(w.codec, w.phase.file)
  }

  ghost function Moved(w: World, a: Move): World
    requires Can(w, a)
  {
    match a
    case Act(step, rs) => w.(phase := Up(Do(w.phase.s, step), w.phase.found, w.phase.records + rs))
    case Fail(n) =>
      var file := (w.phase.found + Concat(w.codec, w.phase.records))[..n];
      w.(crashes := w.crashes + [Remains(w.phase.s.log, Seen(w.codec, file), w.phase.s.disk)],
         phase := Down(file, w.phase.s.disk))
    case Interrupt(now) => w.(phase := Down(w.phase.file, now))
    case Reopen =>
      w.(starts := w.starts + [Recovered(w.phase.disk, Seen(w.codec, w.phase.file))],
         phase := Reborn(w.codec, w.phase.file, w.phase.disk))
  }

  // ----- when a session starts afresh -----

  /** Recovery empties the file, or the file holds whole records, no write and no commit among them. */
  ghost predicate Renews(c: Codec<Record>, file: seq<byte>) {
    Actions(Seen(c, file)) != [] || (Silent(Seen(c, file)) && Whole(c, file))
  }

  // When recovery has nothing to do: whatever a session appends will be read back behind what is
  // there, and calls for the same actions as without it, if and only if the session starts afresh.
  lemma RenewsIff(c: Codec<Record>, rs: seq<Record>, r: Record, torn: seq<byte>)
    requires LogRecord.LogCodec(c) && Wal.AllWell(rs) && Wal.WellFormed(r) && torn < c.enc(r)
    requires Actions(Wal.AbsAll(rs)) == []
    ensures Seen(c, Concat(c, rs) + torn) == Wal.AbsAll(rs)
    ensures Renews(c, Concat(c, rs) + torn) <==>
            && (forall more {:trigger Wal.ReadBehind(c, rs, torn, more)} :: Wal.ReadBehind(c, rs, torn, more))
            && (forall b {:trigger KeptBefore(Wal.AbsAll(rs), b)} :: KeptBefore(Wal.AbsAll(rs), b))
  {
    Wal.FitAll(c, rs);
    assert LogRecord.Framed(c, r);
    ReadBack(c, rs, r, torn);
    Wal.TornIff(c, rs, r, torn);
    KeepIff(Wal.AbsAll(rs));
    assert Concat(c, rs) + torn == Concat(c, rs) <==> torn == [] by {
      assert |Concat(c, rs) + torn| == |Concat(c, rs)| + |torn|;
    }
  }

  // ----- what every move keeps -----

  ghost function Latest(ss: seq<seq<Image>>): seq<Image>
    requires ss != []
  {
    ss[|ss| - 1]
  }

  /** The crash left a page that only aborted transactions had written with something else than
      the session began with. */
  ghost predicate Damaged(start: seq<Image>, c: Remains, p: PageId)
    requires p < |start| && p < |c.disk|
  {
    AbortedOnly(c.seen, p) && c.disk[p] != start[p]
  }

  /** What recovery makes of a page: what the session's committed transactions do, or the damage. */
  ghost predicate SettlesAt(start: seq<Image>, c: Remains, p: PageId) {
    p < |start| ==>
      && p < |c.disk|
      && Recovered(c.disk, c.seen)[p] == (if Damaged(start, c, p) then c.disk[p] else Serial(start, c.log)[p])
      && (Damaged(start, c, p) ==> Serial(start, c.log)[p] == start[p])
      && FullImages(c.log, p) && (Newest(c.log, p).Some? ==> !Damaged(start, c, p))
  }

  ghost predicate Settles(start: seq<Image>, c: Remains) {
    |c.disk| == |start| && forall p {:trigger SettlesAt(start, c, p)} :: SettlesAt(start, c, p)
  }

  /** Session `e`'s crash settles it, and its recovery is where the next session starts. */
  ghost predicate SettledAt(w: World, e: nat)
    requires |w.crashes| <= |w.starts|
  {
    e < |w.crashes| ==>
      && Settles(w.starts[e], w.crashes[e])
      && (e + 1 < |w.starts| ==> w.starts[e + 1] == Recovered(w.crashes[e].disk, w.crashes[e].seen))
  }

  ghost predicate Linked(w: World) {
    && w.starts != [] && |w.crashes| <= |w.starts| <= |w.crashes| + 1
    && forall e {:trigger SettledAt(w, e)} :: 0 <= e ==> SettledAt(w, e)
  }

  /** A session that keeps the machine's invariant, on a file that holds nothing that matters to it. */
  ghost predicate Running(c: Codec<Record>, start: seq<Image>, u: Phase)
    requires u.Up?
  {
    && Inv(start, u.s) && u.s.log == Wal.AbsAll(u.records) && Wal.AllWell(u.records)
    && Wal.SoundLog(c, u.found) && Silent(Seen(c, u.found))
  }

  ghost predicate Stopped(c: Codec<Record>, end: Remains, d: Phase)
    requires d.Down?
  {
    && Legible(c, d.file) && Wal.AllWell(ReadAll(c, d.file).records) && end.seen == Seen(c, d.file)
    && |d.disk| <= INVALID_PAGE_ID && Recovered(d.disk, end.seen) == Recovered(end.disk, end.seen)
  }

  ghost predicate Alive(w: World) {
    && Linked(w) && LogRecord.LogCodec(w.codec)
    && if w.phase.Up? then |w.starts| == |w.crashes| + 1 && Running(w.codec, Latest(w.starts), w.phase)
       else |w.starts| == |w.crashes| && Stopped(w.codec, w.crashes[|w.crashes| - 1], w.phase)
  }

  // Wherever the file is cut behind what was flushed, it reads as what was found and some of the
  // session's own records, all flushed ones included.
  lemma CutSeen(c: Codec<Record>, start: seq<Image>, u: Phase, n: nat) returns (k: nat)
    requires LogRecord.LogCodec(c) && u.Up? && Running(c, start, u) && u.s.flushed <= |u.records|
    requires |u.found + Concat(c, u.records[..u.s.flushed])| <= n <= |u.found + Concat(c, u.records)|
    ensures u.s.flushed <= k <= |u.records|
    ensures var file := (u.found + Concat(c, u.records))[..n];
            && ReadAll(c, file) == Log(ReadAll(c, u.found).records + u.records[..k])
            && Legible(c, file) && Wal.AllWell(ReadAll(c, file).records)
            && Seen(c, file) == Seen(c, u.found) + u.s.log[..k]
  {
    var before := ReadAll(c, u.found).records;
    Wal.FitAll(c, before);
    Wal.FitAll(c, u.records);
    k := CutBehind(c, u.found, u.records, u.s.flushed, n);
    Wal.AllWellPrefix(u.records, k);
    Wal.AllWellConcat(before, u.records[..k]);
    Wal.FitAll(c, before + u.records[..k]);
  }

  // The crash of a session settles every page.
  lemma CrashSettles(start: seq<Image>, s: Sys, a: History, k: nat)
    requires Inv(start, s) && s.flushed <= k <= |s.log| && Silent(a)
    ensures Settles(start, Remains(s.log, a + s.log[..k], s.disk))
  {
    var c := Remains(s.log, a + s.log[..k], s.disk);
    forall p: PageId ensures SettlesAt(start, c, p) {
      if p < |start| { PageSettles(start, s, a, k, p); }
    }
  }

  lemma PageSettles(start: seq<Image>, s: Sys, a: History, k: nat, p: PageId)
    requires Inv(start, s) && s.flushed <= k <= |s.log| && Silent(a) && p < |start|
    ensures SettlesAt(start, Remains(s.log, a + s.log[..k], s.disk), p)
  {
    var b := s.log[..k];
    EndsStay(s.log, k);
    SilentSkips(a, b, p);
    SilentWrites(a, b, p);
    CrashAt(start, s, k, p);
    assert Tracks(start, s, p);
    DisciplinedFull(start[p], s.log, p);
    if Newest(s.log, p).Some? {
      NewestCut(s.log, k, p);
      NewestTouched(b, p, Analyze(b).committed);
    }
  }

  lemma {:induction false} NewestCut(log: History, k: nat, p: PageId)
    requires k <= |log| && forall i :: k <= i < |log| ==> !log[i].Committed?
    ensures Newest(log[..k], p) == Newest(log, p)
  {
    if k < |log| {
      assert Front(log)[..k] == log[..k];
      NewestCut(Front(log), k, p);
    } else {
      assert log[..k] == log;
    }
  }

  lemma FailKeeps(w: World, n: nat)
    requires Alive(w) && Can(w, Fail(n))
    ensures Alive(Moved(w, Fail(n)))
  {
    var k := CutSeen(w.codec, Latest(w.starts), w.phase, n);
    CrashSettles(Latest(w.starts), w.phase.s, Seen(w.codec, w.phase.found), k);
    OneEnded(w, Moved(w, Fail(n)));
  }

  lemma OneEnded(w: World, w': World)
    requires Linked(w) && |w.starts| == |w.crashes| + 1 && w'.starts == w.starts
    requires |w'.crashes| == |w.crashes| + 1 && w'.crashes[..|w.crashes|] == w.crashes
    requires Settles(Latest(w.starts), w'.crashes[|w.crashes|])
    ensures Linked(w')
  {
    forall e | 0 <= e ensures SettledAt(w', e) {
      assert SettledAt(w, e);
      if e < |w.crashes| { assert w'.crashes[e] == w'.crashes[..|w.crashes|][e]; }
    }
  }

  lemma ActKeeps(w: World, step: Step, rs: seq<Record>)
    requires Alive(w) && Can(w, Act(step, rs))
    ensures Alive(Moved(w, Act(step, rs)))
  {
    StepKeeps(Latest(w.starts), w.phase.s, step);
    Wal.AllWellConcat(w.phase.records, rs);
    SamePast(w, Moved(w, Act(step, rs)));
  }

  lemma ReopenKeeps(w: World)
    requires Alive(w) && Can(w, Reopen) && Renews(w.codec, w.phase.file)
    ensures Alive(Moved(w, Reopen))
  {
    var w' := Moved(w, Reopen);
    InvAtStart(Latest(w'.starts));
    NextStart(w, w');
  }

  lemma NextStart(w: World, w': World)
    requires Linked(w) && |w.starts| == |w.crashes| && w'.crashes == w.crashes
    requires var c := w.crashes[|w.crashes| - 1]; w'.starts == w.starts + [Recovered(c.disk, c.seen)]
    ensures Linked(w')
  {
    forall e | 0 <= e ensures SettledAt(w', e) { assert SettledAt(w, e); }
  }

  lemma SamePast(w: World, w': World)
    requires Linked(w) && w'.starts == w.starts && w'.crashes == w.crashes
    ensures Linked(w')
  {
    forall e | 0 <= e ensures SettledAt(w', e) { assert SettledAt(w, e); }
  }

  lemma MoveKeeps(w: World, a: Move)
    requires Alive(w) && Can(w, a) && (a.Reopen? ==> Renews(w.codec, w.phase.file))
    ensures Alive(Moved(w, a))
  {
    match a
    case Act(step, rs) => ActKeeps(w, step, rs);
    case Fail(n) => FailKeeps(w, n);
    case Interrupt(now) =>
      Restartable(w.phase.disk, Seen(w.codec, w.phase.file), now);
      SamePast(w, Moved(w, a));
    case Reopen => ReopenKeeps(w);
  }

  // ----- whole lives -----

  ghost predicate Leads(w: World, a: Move, w': World) {
    Can(w, a) && w' == Moved(w, a)
  }

  ghost predicate LeadsAt(ws: seq<World>, moves: seq<Move>, i: nat)
    requires |ws| == |moves| + 1
  {
    i < |moves| ==> Leads(ws[i], moves[i], ws[i + 1])
  }

  ghost predicate Life(ws: seq<World>, moves: seq<Move>) {
    |ws| == |moves| + 1 && forall i {:trigger LeadsAt(ws, moves, i)} :: 0 <= i ==> LeadsAt(ws, moves, i)
  }

  ghost predicate RenewsAt(ws: seq<World>, moves: seq<Move>, i: nat)
    requires |ws| == |moves| + 1
  {
    i < |moves| && moves[i].Reopen? && ws[i].phase.Down? ==> Renews(ws[i].codec, ws[i].phase.file)
  }

  /** Every session of the life starts afresh. */
  ghost predicate Renewed(ws: seq<World>, moves: seq<Move>)
    requires |ws| == |moves| + 1
  {
    forall i {:trigger RenewsAt(ws, moves, i)} :: 0 <= i ==> RenewsAt(ws, moves, i)
  }

  ghost function Newborn(c: Codec<Record>, first: seq<Image>): World {
    World(c, [first], [], Up(Fresh(first), [], []))
  }

  lemma NewbornAlive(c: Codec<Record>, first: seq<Image>)
    requires LogRecord.LogCodec(c) && |first| <= INVALID_PAGE_ID
    ensures Alive(Newborn(c, first))
  {
    InvAtStart(first);
  }

  lemma LifeStep(ws: seq<World>, moves: seq<Move>, i: nat)
    requires Life(ws, moves) && i < |moves|
    ensures Leads(ws[i], moves[i], ws[i + 1])
    ensures Renewed(ws, moves) && moves[i].Reopen? ==> Renews(ws[i].codec, ws[i].phase.file)
  {
    assert LeadsAt(ws, moves, i);
    if Renewed(ws, moves) { assert RenewsAt(ws, moves, i); }
  }

  lemma LeadKeeps(w: World, a: Move, w': World)
    requires Alive(w) && Leads(w, a, w') && (a.Reopen? ==> Renews(w.codec, w.phase.file))
    ensures Alive(w')
  {
    MoveKeeps(w, a);
  }

  lemma {:induction false} LifeKeeps(ws: seq<World>, moves: seq<Move>, k: nat)
    requires Life(ws, moves) && Renewed(ws, moves) && Alive(ws[0]) && k <= |moves|
    ensures Alive(ws[k])
  {
    if k > 0 {
      LifeKeeps(ws, moves, k - 1);
      LifeStep(ws, moves, k - 1);
      LeadKeeps(ws[k - 1], moves[k - 1], ws[k]);
    }
  }

  // ----- every session begins right, page by page -----

  /** The committed transactions of session after session, each in commit order. */
  function SerialLife(first: seq<Image>, crashes: seq<Remains>): (r: seq<Image>)
    ensures |r| == |first|
  {
    if crashes == [] then first
    else Serial(SerialLife(first, crashes[..|crashes| - 1]), crashes[|crashes| - 1].log)
  }

  // What the serial execution makes of a page depends on that page only.
  lemma {:induction false} SerialLocal(a: seq<Image>, b: seq<Image>, log: History, p: PageId)
    requires p < |a| && p < |b| && a[p] == b[p]
    ensures Serial(a, log)[p] == Serial(b, log)[p]
  {
    if log != [] {
      var f := Front(log);
      SerialLocal(a, b, f, p);
      if Last(log).Committed? {
        ApplyPagewise(Serial(a, f), Redo(f, {Last(log).t}), p);
        ApplyPagewise(Serial(b, f), Redo(f, {Last(log).t}), p);
      }
    }
  }

  /** Session `e` began with the page as the serial execution of all sessions before it leaves it. */
  ghost predicate RightAt(w: World, e: nat, p: PageId) {
    && e < |w.starts| && e <= |w.crashes| && p < |w.starts[0]| && p < |w.starts[e]|
    && w.starts[e][p] == SerialLife(w.starts[0], w.crashes[..e])[p]
  }

  ghost predicate DamagedAt(w: World, e: nat, p: PageId) {
    && e < |w.crashes| && e < |w.starts| && p < |w.starts[e]| && p < |w.crashes[e].disk|
    && Damaged(w.starts[e], w.crashes[e], p)
  }

  ghost predicate AlwaysRight(w: World, n: nat, p: PageId) {
    forall e {:trigger RightAt(w, e, p)} :: 0 <= e <= n ==> RightAt(w, e, p)
  }

  ghost predicate NeverDamaged(w: World, n: nat, p: PageId) {
    forall e {:trigger DamagedAt(w, e, p)} :: 0 <= e < n ==> !DamagedAt(w, e, p)
  }

  lemma NextPage(w: World, e: nat, p: PageId)
    requires Linked(w) && e < |w.crashes| && e + 1 < |w.starts| && p < |w.starts[e]|
    ensures p < |w.starts[e + 1]| == |w.starts[e]|
    ensures w.starts[e + 1][p] ==
            if DamagedAt(w, e, p) then w.crashes[e].disk[p] else Serial(w.starts[e], w.crashes[e].log)[p]
    ensures DamagedAt(w, e, p) ==> Serial(w.starts[e], w.crashes[e].log)[p] == w.starts[e][p] != w.crashes[e].disk[p]
    ensures FullImages(w.crashes[e].log, p) && (Newest(w.crashes[e].log, p).Some? ==> !DamagedAt(w, e, p))
  {
    assert SettledAt(w, e) && SettlesAt(w.starts[e], w.crashes[e], p);
  }

  // A page that began a session right begins the next one right if and only if the crash did it no damage.
  lemma OneSession(w: World, e: nat, p: PageId)
    requires Linked(w) && e < |w.crashes| && e + 1 < |w.starts| && RightAt(w, e, p)
    ensures RightAt(w, e + 1, p) <==> !DamagedAt(w, e, p)
  {
    NextPage(w, e, p);
    assert w.crashes[..e + 1][..e] == w.crashes[..e];
    SerialLocal(w.starts[e], SerialLife(w.starts[0], w.crashes[..e]), w.crashes[e].log, p);
  }

  lemma {:induction false} SessionsIff(w: World, n: nat, p: PageId)
    requires Linked(w) && n < |w.starts| && n <= |w.crashes| && p < |w.starts[0]|
    ensures AlwaysRight(w, n, p) <==> NeverDamaged(w, n, p)
  {
    if n == 0 {
      assert w.crashes[..0] == [];
      assert RightAt(w, 0, p);
    } else {
      SessionsIff(w, n - 1, p);
      assert NeverDamaged(w, n, p) <==> NeverDamaged(w, n - 1, p) && !DamagedAt(w, n - 1, p);
      assert AlwaysRight(w, n, p) <==> AlwaysRight(w, n - 1, p) && RightAt(w, n, p);
      if AlwaysRight(w, n - 1, p) {
        assert RightAt(w, n - 1, p);
        OneSession(w, n - 1, p);
      }
    }
  }

  // However often the engine crashes and is reopened, recovery interrupted or not: every session
  // begins with each page as the serial execution of all committed transactions of all sessions
  // before it leaves it, if and only if no crash left that page as aborted transactions wrote it.
  lemma LivesAreSerial(c: Codec<Record>, first: seq<Image>, ws: seq<World>, moves: seq<Move>, p: PageId)
    requires LogRecord.LogCodec(c) && Life(ws, moves) && Renewed(ws, moves) && ws[0] == Newborn(c, first)
    requires p < |first| <= INVALID_PAGE_ID
    ensures var w := ws[|moves|]; var n := |w.starts| - 1;
            n >= 0 && w.starts[0] == first && (AlwaysRight(w, n, p) <==> NeverDamaged(w, n, p))
  {
    NewbornAlive(c, first);
    LifeKeeps(ws, moves, |moves|);
    FirstStays(ws, moves, |moves|);
    SessionsIff(ws[|moves|], |ws[|moves|].starts| - 1, p);
  }

  lemma {:induction false} FirstStays(ws: seq<World>, moves: seq<Move>, k: nat)
    requires Life(ws, moves) && k <= |moves| && ws[0].starts != []
    ensures ws[k].starts != [] && ws[k].starts[0] == ws[0].starts[0]
  {
    if k > 0 {
      FirstStays(ws, moves, k - 1);
      LifeStep(ws, moves, k - 1);
      StartsGrow(ws[k - 1], moves[k - 1], ws[k]);
    }
  }

  lemma StartsGrow(w: World, a: Move, w': World)
    requires Leads(w, a, w')
    ensures w.starts <= w'.starts
  {
  }

  // ----- commits, for ever -----

  /** The image of the page's last committed writer in these sessions. */
  function NewestOf(crashes: seq<Remains>, p: PageId): Option<seq<byte>> {
    if crashes == [] then None
    else if Newest(crashes[|crashes| - 1].log, p).Some? then Newest(crashes[|crashes| - 1].log, p)
    else NewestOf(crashes[..|crashes| - 1], p)
  }

  /** Some transaction that wrote the page has committed in session `e`. */
  ghost predicate CommittedIn(w: World, e: nat, p: PageId) {
    if e < |w.crashes| then Newest(w.crashes[e].log, p).Some?
    else w.phase.Up? && |w.crashes| == e && Newest(w.phase.s.log, p).Some?
  }

  lemma CommitNow(w: World, t: Txn, rs: seq<Record>, w': World, p: PageId)
    requires Leads(w, Act(Commit(t), rs), w') && LastBy(w.phase.s.log, t, p).Some?
    ensures CommittedIn(w', |w.crashes|, p) && Newest(w'.phase.s.log, p) == LastBy(w.phase.s.log, t, p)
  {
    System.OneMore(w.phase.s.log, Committed(t));
  }

  lemma CommitOn(w: World, a: Move, w': World, e: nat, p: PageId)
    requires Leads(w, a, w') && CommittedIn(w, e, p)
    ensures CommittedIn(w', e, p)
  {
    if a.Act? && e >= |w.crashes| {
      var log, log' := w.phase.s.log, w'.phase.s.log;
      if log' != log {
        System.OneMore(log, Last(log'));
        assert Front(log') == log;
      }
    }
  }

  lemma {:induction false} CommitStands(ws: seq<World>, moves: seq<Move>, i: nat, j: nat, t: Txn, p: PageId)
    requires Life(ws, moves) && i < j <= |moves| && moves[i].Act? && moves[i].a == Commit(t) && ws[i].phase.Up?
    requires LastBy(ws[i].phase.s.log, t, p).Some?
    ensures CommittedIn(ws[j], |ws[i].crashes|, p)
    decreases j
  {
    LifeStep(ws, moves, j - 1);
    if j - 1 > i {
      CommitStands(ws, moves, i, j - 1, t, p);
      CommitOn(ws[j - 1], moves[j - 1], ws[j], |ws[i].crashes|, p);
    } else {
      CommitNow(ws[i], t, moves[i].written, ws[j], p);
    }
  }

  /** No crash from session `a` on and before session `b` damaged the page. */
  ghost predicate UndamagedFrom(w: World, a: nat, b: nat, p: PageId) {
    forall e {:trigger DamagedAt(w, e, p)} :: a <= e < b ==> !DamagedAt(w, e, p)
  }

  lemma {:induction false} NewestHolds(w: World, e: nat, n: nat, p: PageId)
    requires Linked(w) && e < n < |w.starts| && n <= |w.crashes| && p < |w.starts[e]|
    requires Newest(w.crashes[e].log, p).Some? && UndamagedFrom(w, e + 1, n, p)
    ensures NewestOf(w.crashes[e..n], p).Some? && p < |w.starts[n]|
    ensures w.starts[n][p] == NewestOf(w.crashes[e..n], p).value
    decreases n
  {
    var m := n - 1;
    assert w.crashes[e..n][..n - e - 1] == w.crashes[e..m] && w.crashes[e..n][n - e - 1] == w.crashes[m];
    if m > e { NewestHolds(w, e, m, p); }
    NextPage(w, m, p);
    SerialIsNewest(w.starts[m], w.crashes[m].log, p);
  }

  // A page a committed transaction wrote holds, at the start of every later session, the image of
  // its last committed writer, as long as no later crash leaves that page as aborted transactions
  // wrote it; damage before the commit, and to other pages, does not matter.
  lemma CommitForEver(ws: seq<World>, moves: seq<Move>, i: nat, t: Txn, p: PageId, n: nat)
    requires Life(ws, moves) && Renewed(ws, moves) && Alive(ws[0]) && i < |moves|
    requires moves[i].Act? && moves[i].a == Commit(t) && ws[i].phase.Up? && LastBy(ws[i].phase.s.log, t, p).Some?
    requires var w := ws[|moves|];
             |ws[i].crashes| < n < |w.starts| && p < |w.starts[0]| && UndamagedFrom(w, |ws[i].crashes| + 1, n, p)
    ensures var w, e := ws[|moves|], |ws[i].crashes|;
            && n <= |w.crashes| && p < |w.starts[n]| && NewestOf(w.crashes[e..n], p).Some?
            && w.starts[n][p] == NewestOf(w.crashes[e..n], p).value
  {
    LifeKeeps(ws, moves, |moves|);
    CommitStands(ws, moves, i, |moves|, t, p);
    var w, e := ws[|moves|], |ws[i].crashes|;
    SameSize(w, e);
    NewestHolds(w, e, n, p);
  }

  lemma {:induction false} SameSize(w: World, e: nat)
    requires Linked(w) && e < |w.starts|
    ensures |w.starts[e]| == |w.starts[0]|
  {
    if e > 0 {
      SameSize(w, e - 1);
      assert SettledAt(w, e - 1);
    }
  }

  // ----- building lives -----

  lemma JoinLives(ws: seq<World>, moves: seq<Move>, ws': seq<World>, moves': seq<Move>)
    requires Life(ws, moves) && Life(ws', moves') && ws'[0] == ws[|moves|]
    ensures Life(ws + ws'[1..], moves + moves')
  {
    var all, acts := ws + ws'[1..], moves + moves';
    forall i | 0 <= i ensures LeadsAt(all, acts, i) {
      if i < |moves| { assert LeadsAt(ws, moves, i); } else { assert LeadsAt(ws', moves', i - |moves|); }
    }
  }

  lemma TwoMoves(a: World, m: Move, b: World, m': Move, c: World)
    requires Leads(a, m, b) && Leads(b, m', c)
    ensures Life([a, b, c], [m, m'])
  {
    forall i | 0 <= i ensures LeadsAt([a, b, c], [m, m'], i) {}
  }

  // ----- the records of the lives below -----

  function EndRecord(lsn: LogRecord.Word, prev: LogRecord.Word, kind: LogRecord.Kind): Record {
    LogRecord.Record(lsn, 1, prev, kind, 0, [])
  }

  function WriteRecord(lsn: LogRecord.Word, prev: LogRecord.Word, x: Image, y: Image): Record {
    LogRecord.Record(lsn, 1, prev, LogRecord.PageWrite, 0, LogRecord.PageWriteData(x, y))
  }

  lemma BeginIs(lsn: LogRecord.Word)
    ensures Wal.AllWell([LogRecord.FirstBegin(lsn)]) && Wal.AbsAll([LogRecord.FirstBegin(lsn)]) == [Begun(1)]
  {
    Wal.PlainRecord(LogRecord.FirstBegin(lsn));
  }

  lemma EndIs(lsn: LogRecord.Word, prev: LogRecord.Word, kind: LogRecord.Kind)
    requires kind.Commit? || kind.Abort?
    ensures Wal.AllWell([EndRecord(lsn, prev, kind)])
    ensures Wal.AbsAll([EndRecord(lsn, prev, kind)]) == [if kind.Commit? then Committed(1) else Aborted(1)]
  {
    Wal.PlainRecord(EndRecord(lsn, prev, kind));
  }

  lemma WriteIs(lsn: LogRecord.Word, prev: LogRecord.Word, x: Image, y: Image)
    ensures Wal.AllWell([WriteRecord(lsn, prev, x, y)])
    ensures Wal.AbsAll([WriteRecord(lsn, prev, x, y)]) == [Written(1, 0, x, y)]
  {
    Wal.WriteRecord(WriteRecord(lsn, prev, x, y), x, y);
  }

  lemma ReadWhole(c: Codec<Record>, rs: seq<Record>)
    requires LogRecord.LogCodec(c) && Wal.AllWell(rs)
    ensures ReadAll(c, Concat(c, rs)) == Log(rs) && Legible(c, Concat(c, rs))
    ensures Seen(c, Concat(c, rs)) == Wal.AbsAll(rs)
  {
    Wal.FitAll(c, rs);
    ReadOn(c, rs, []);
    assert Concat(c, rs) + [] == Concat(c, rs) && rs + [] == rs;
  }

  // ----- a session that writes a page -----

  const IDLE := Transaction(Active, map[], [])

  function Busy(x: Image): Transaction {
    Transaction(Active, map[0 := x], [])
  }

  const LOCKED: Table := map[0 := Entry(Exclusive, {1})]

  /** Transaction 1 has locked page 0 and written it. */
  function Wrote(x: Image, y: Image): Sys {
    Sys(Manager(2, map[1 := Busy(x)], LOCKED), [Begun(1), Written(1, 0, x, y)], 0, [y], [x])
  }

  lemma Begins(w: World, x: Image, lsn: LogRecord.Word) returns (w1: World, w2: World)
    requires w.phase.Up? && w.phase.s == Fresh([x]) && w.phase.records == []
    ensures Leads(w, Act(Start, [LogRecord.FirstBegin(lsn)]), w1) && Leads(w1, Act(LockWrite(1, 0), []), w2)
    ensures w2 == w.(phase := Up(Sys(Manager(2, map[1 := Busy(x)], LOCKED), [Begun(1)], 0, [x], [x]),
                                 w.phase.found, [LogRecord.FirstBegin(lsn)]))
  {
    BeginIs(lsn);
    w1 := w.(phase := Up(Sys(Manager(2, map[1 := IDLE], map[]), [Begun(1)], 0, [x], [x]),
                         w.phase.found, [LogRecord.FirstBegin(lsn)]));
    assert map[][1 := IDLE] == map[1 := IDLE] && map[1 := IDLE][1 := Busy(x)] == map[1 := Busy(x)];
    assert [] + [Begun(1)] == [Begun(1)] && Wal.AbsAll([]) == [] && w1.phase.records + [] == w1.phase.records;
    w2 := Moved(w1, Act(LockWrite(1, 0), []));
  }

  lemma Writes(w: World, x: Image, y: Image, lsn: LogRecord.Word) returns (w': World)
    requires w.phase.Up? && w.phase.s == Sys(Manager(2, map[1 := Busy(x)], LOCKED), [Begun(1)], 0, [x], [x])
    requires w.phase.records == [LogRecord.FirstBegin(lsn)] && lsn < 100
    ensures Leads(w, Act(Write(1, 0, y), [WriteRecord(lsn + 1, lsn, x, y)]), w')
    ensures w' == w.(phase := Up(Wrote(x, y), w.phase.found,
                                 [LogRecord.FirstBegin(lsn), WriteRecord(lsn + 1, lsn, x, y)]))
  {
    WriteIs(lsn + 1, lsn, x, y);
    assert [x][0 := y] == [y] && [Begun(1)] + [Written(1, 0, x, y)] == [Begun(1), Written(1, 0, x, y)];
    assert w.phase.records + [WriteRecord(lsn + 1, lsn, x, y)] ==
           [LogRecord.FirstBegin(lsn), WriteRecord(lsn + 1, lsn, x, y)];
    w' := Moved(w, Act(Write(1, 0, y), [WriteRecord(lsn + 1, lsn, x, y)]));
  }

  /** The session's log, ended by a commit or an abort. */
  function OwnLog(x: Image, y: Image, end: Rec): History {
    [Begun(1), Written(1, 0, x, y), end]
  }

  function OwnRecords(lsn: LogRecord.Word, x: Image, y: Image, kind: LogRecord.Kind): seq<Record>
    requires lsn < 100
  {
    [LogRecord.FirstBegin(lsn), WriteRecord(lsn + 1, lsn, x, y), EndRecord(lsn + 2, lsn + 1, kind)]
  }

  lemma OwnIs(lsn: LogRecord.Word, x: Image, y: Image, kind: LogRecord.Kind)
    requires lsn < 100 && (kind.Commit? || kind.Abort?)
    ensures Wal.AllWell(OwnRecords(lsn, x, y, kind))
    ensures Wal.AbsAll(OwnRecords(lsn, x, y, kind)) == OwnLog(x, y, if kind.Commit? then Committed(1) else Aborted(1))
  {
    BeginIs(lsn);
    WriteIs(lsn + 1, lsn, x, y);
    EndIs(lsn + 2, lsn + 1, kind);
    var a, b, c := [LogRecord.FirstBegin(lsn)], [WriteRecord(lsn + 1, lsn, x, y)], [EndRecord(lsn + 2, lsn + 1, kind)];
    Wal.AllWellConcat(a, b);
    Wal.AllWellConcat(a + b, c);
    assert a + b + c == OwnRecords(lsn, x, y, kind);
  }

  lemma Commits(w: World, x: Image, y: Image, lsn: LogRecord.Word) returns (w': World)
    requires lsn < 100 && w.phase.Up? && w.phase.s == Wrote(x, y)
    requires w.phase.records == [LogRecord.FirstBegin(lsn), WriteRecord(lsn + 1, lsn, x, y)]
    ensures Leads(w, Act(Commit(1), [EndRecord(lsn + 2, lsn + 1, LogRecord.Commit)]), w')
    ensures w' == w.(phase := Up(Sys(Manager(2, map[], map[]), OwnLog(x, y, Committed(1)), 3, [y], [x]),
                                 w.phase.found, OwnRecords(lsn, x, y, LogRecord.Commit)))
  {
    EndIs(lsn + 2, lsn + 1, LogRecord.Commit);
    assert map[1 := Busy(x)] - {1} == map[] && Released(LOCKED, 1) == map[];
    assert [Begun(1), Written(1, 0, x, y)] + [Committed(1)] == OwnLog(x, y, Committed(1));
    assert w.phase.records + [EndRecord(lsn + 2, lsn + 1, LogRecord.Commit)] == OwnRecords(lsn, x, y, LogRecord.Commit);
    w' := Moved(w, Act(Commit(1), [EndRecord(lsn + 2, lsn + 1, LogRecord.Commit)]));
  }

  lemma Aborts(w: World, x: Image, y: Image, lsn: LogRecord.Word) returns (w': World)
    requires lsn < 100 && w.phase.Up? && w.phase.s == Wrote(x, y)
    requires w.phase.records == [LogRecord.FirstBegin(lsn), WriteRecord(lsn + 1, lsn, x, y)]
    ensures Leads(w, Act(Abort(1), [EndRecord(lsn + 2, lsn + 1, LogRecord.Abort)]), w')
    ensures w' == w.(phase := Up(Sys(Manager(2, map[], map[]), OwnLog(x, y, Aborted(1)), 0, [x], [x]),
                                 w.phase.found, OwnRecords(lsn, x, y, LogRecord.Abort)))
  {
    EndIs(lsn + 2, lsn + 1, LogRecord.Abort);
    assert map[1 := Busy(x)] - {1} == map[] && Released(LOCKED, 1) == map[];
    assert Overlay(y, x) == x && Restore([y], Busy(x).writeSet) == [x];
    assert [Begun(1), Written(1, 0, x, y)] + [Aborted(1)] == OwnLog(x, y, Aborted(1));
    assert w.phase.records + [EndRecord(lsn + 2, lsn + 1, LogRecord.Abort)] == OwnRecords(lsn, x, y, LogRecord.Abort);
    w' := Moved(w, Act(Abort(1), [EndRecord(lsn + 2, lsn + 1, LogRecord.Abort)]));
  }

  // A crash that leaves all of the file, and what comes next.
  lemma Ends(w: World) returns (w1: World, w2: World)
    requires w.phase.Up? && w.phase.s.flushed <= |w.phase.records|
    requires Legible(w.codec, w.phase.found + Concat(w.codec, w.phase.records))
    ensures var file, s := w.phase.found + Concat(w.codec, w.phase.records), w.phase.s;
            && Leads(w, Fail(|file|), w1) && Leads(w1, Reopen, w2)
            && w1.codec == w.codec && w1.phase == Down(file, s.disk)
            && w2 == World(w.codec, w.starts + [Recovered(s.disk, Seen(w.codec, file))],
                           w.crashes + [Remains(s.log, Seen(w.codec, file), s.disk)], Reborn(w.codec, file, s.disk))
  {
    var file, rs, k := w.phase.found + Concat(w.codec, w.phase.records), w.phase.records, w.phase.s.flushed;
    ConcatParts(w.codec, rs[..k], rs[k..]);
    assert rs[..k] + rs[k..] == rs && file[..|file|] == file;
    w1 := Moved(w, Fail(|file|));
    w2 := Moved(w1, Reopen);
  }

  // Session after session: begin, lock, write, end, crash, reopen.
  lemma WritingSession(w: World, x: Image, y: Image, lsn: LogRecord.Word, kind: LogRecord.Kind)
    returns (ws: seq<World>, moves: seq<Move>)
    requires lsn < 100 && (kind.Commit? || kind.Abort?) && w.phase.Up? && w.phase.s == Fresh([x])
    requires w.phase.records == []
    requires Legible(w.codec, w.phase.found + Concat(w.codec, OwnRecords(lsn, x, y, kind)))
    ensures Life(ws, moves) && |moves| == 6 && ws[0] == w && !moves[0].Reopen?
    ensures moves[3] == Act(if kind.Commit? then Commit(1) else Abort(1), [EndRecord(lsn + 2, lsn + 1, kind)])
    ensures var seen := Seen(w.codec, w.phase.found + Concat(w.codec, OwnRecords(lsn, x, y, kind)));
            && ws[6].starts == w.starts + [Recovered([x], seen)]
            && ws[6].crashes ==
                 w.crashes + [Remains(OwnLog(x, y, if kind.Commit? then Committed(1) else Aborted(1)), seen, [x])]
  {
    var w1, w2 := Begins(w, x, lsn);
    var w3 := Writes(w2, x, y, lsn);
    var w4;
    if kind.Commit? { w4 := Commits(w3, x, y, lsn); } else { w4 := Aborts(w3, x, y, lsn); }
    var w5, w6 := Ends(w4);
    var end := Act(if kind.Commit? then Commit(1) else Abort(1), [EndRecord(lsn + 2, lsn + 1, kind)]);
    var a := [Act(Start, [LogRecord.FirstBegin(lsn)]), Act(LockWrite(1, 0), [])];
    var b := [Act(Write(1, 0, y), [WriteRecord(lsn + 1, lsn, x, y)]), end];
    var fail := Fail(|w.phase.found + Concat(w.codec, OwnRecords(lsn, x, y, kind))|);
    TwoMoves(w, a[0], w1, a[1], w2);
    TwoMoves(w2, b[0], w3, b[1], w4);
    TwoMoves(w4, fail, w5, Reopen, w6);
    ws := JoinThree([w, w1, w2], a, [w2, w3, w4], b, [w4, w5, w6], [fail, Reopen]);
    moves := a + b + [fail, Reopen];
  }

  lemma JoinThree(us: seq<World>, a: seq<Move>, vs: seq<World>, b: seq<Move>, ws: seq<World>, c: seq<Move>)
    returns (all: seq<World>)
    requires Life(us, a) && Life(vs, b) && Life(ws, c) && vs[0] == us[|a|] && ws[0] == vs[|b|]
    ensures Life(all, a + b + c) && all[0] == us[0] && all[|a| + |b| + |c|] == ws[|c|]
  {
    JoinLives(us, a, vs, b);
    JoinLives(us + vs[1..], a + b, ws, c);
    all := us + vs[1..] + ws[1..];
  }

  // ----- a life whose second session does not start afresh: a name is used again -----

  function Quiet(): History {
    [Begun(1), Committed(1)]
  }

  function QuietRecords(): seq<Record> {
    [LogRecord.FirstBegin(1), EndRecord(2, 1, LogRecord.Commit)]
  }

  lemma QuietIs()
    ensures Wal.AllWell(QuietRecords()) && Wal.AbsAll(QuietRecords()) == Quiet()
  {
    BeginIs(1);
    EndIs(2, 1, LogRecord.Commit);
    Wal.AllWellConcat([LogRecord.FirstBegin(1)], [EndRecord(2, 1, LogRecord.Commit)]);
    assert [LogRecord.FirstBegin(1)] + [EndRecord(2, 1, LogRecord.Commit)] == QuietRecords();
  }

  lemma QuietActions()
    ensures Actions(Quiet()) == [] && !Silent(Quiet())
  {
    var log := Quiet();
    var l1 := log[..1];
    assert Front(log) == l1 && Front(l1) == [];
    assert Analyze(l1) == Analysis({1}, {}, {});
    assert Analyze(log) == Analysis({}, {1}, {});
    UndoSkips(l1, {});
    UndoSkips(log, {});
    assert Redo(l1, {1}) == [] && Redo(log, {1}) == [];
    assert log[1].Committed?;
  }

  // Session one begins and commits a transaction that writes nothing: there is nothing to redo or
  // undo, so the log is kept and the next session's transaction is number 1 again.
  lemma QuietSession(c: Codec<Record>, x: Image) returns (ws: seq<World>, moves: seq<Move>)
    requires LogRecord.LogCodec(c)
    ensures Life(ws, moves) && |moves| == 4 && moves[3] == Reopen && ws[0] == Newborn(c, [x])
    ensures ws[3].codec == c && ws[3].phase == Down(Concat(c, QuietRecords()), [x])
    ensures ws[4] == World(c, [[x], [x]], [Remains(Quiet(), Quiet(), [x])],
                           Up(Fresh([x]), Concat(c, QuietRecords()), []))
  {
    var w0 := Newborn(c, [x]);
    var w1, w2 := QuietSteps(c, x);
    QuietIs();
    QuietActions();
    ReadWhole(c, QuietRecords());
    assert [] + Concat(c, QuietRecords()) == Concat(c, QuietRecords());
    var w3, w4 := Ends(w2);
    var begin, end := Act(Start, [LogRecord.FirstBegin(1)]), Act(Commit(1), [EndRecord(2, 1, LogRecord.Commit)]);
    var fail := Fail(|[] + Concat(c, QuietRecords())|);
    TwoMoves(w0, begin, w1, end, w2);
    TwoMoves(w2, fail, w3, Reopen, w4);
    JoinLives([w0, w1, w2], [begin, end], [w2, w3, w4], [fail, Reopen]);
    ws, moves := [w0, w1, w2] + [w2, w3, w4][1..], [begin, end] + [fail, Reopen];
  }

  lemma QuietSteps(c: Codec<Record>, x: Image) returns (w1: World, w2: World)
    ensures Leads(Newborn(c, [x]), Act(Start, [LogRecord.FirstBegin(1)]), w1)
    ensures Leads(w1, Act(Commit(1), [EndRecord(2, 1, LogRecord.Commit)]), w2)
    ensures w2 == Newborn(c, [x]).(phase := Up(Sys(Manager(2, map[], map[]), Quiet(), 2, [x], [x]), [], QuietRecords()))
  {
    BeginIs(1);
    EndIs(2, 1, LogRecord.Commit);
    var w0 := Newborn(c, [x]);
    w1 := w0.(phase := Up(Sys(Manager(2, map[1 := IDLE], map[]), [Begun(1)], 0, [x], [x]), [],
                          [LogRecord.FirstBegin(1)]));
    assert map[][1 := IDLE] == map[1 := IDLE] && [] + [Begun(1)] == [Begun(1)];
    assert [Begun(1)] + [Committed(1)] == Quiet() && map[1 := IDLE] - {1} == map[] && Released(map[], 1) == map[];
    assert [LogRecord.FirstBegin(1)] + [EndRecord(2, 1, LogRecord.Commit)] == QuietRecords();
    w2 := Moved(w1, Act(Commit(1), [EndRecord(2, 1, LogRecord.Commit)]));
  }

  // Redo brings back a write that was aborted and never reached the disk: no transaction that
  // wrote anything has committed, yet the third session begins with the page as it was written.
  lemma ReusedIdLife(c: Codec<Record>, x: Image, y: Image) returns (ws: seq<World>, moves: seq<Move>)
    requires LogRecord.LogCodec(c) && x != y
    ensures Life(ws, moves) && ws[0] == Newborn(c, [x]) && !Renewed(ws, moves)
    ensures var w := ws[|moves|];
            w.starts == [[x], [x], [y]] && |w.crashes| == 2 && SerialLife([x], w.crashes) == [x]
  {
    var ws1, moves1 := QuietSession(c, x);
    var own := OwnRecords(3, x, y, LogRecord.Abort);
    NoisySeen(c, x, y);
    var ws2, moves2 := WritingSession(ws1[4], x, y, 3, LogRecord.Abort);
    JoinLives(ws1, moves1, ws2, moves2);
    ws, moves := ws1 + ws2[1..], moves1 + moves2;
    assert ws[3] == ws1[3] && moves[3] == Reopen && ws[10] == ws2[6];
    NotRenewed(c, x, ws, moves);
    NoisyRecovery(x, y);
    NoisySerial(x, y, ws[10].crashes);
  }

  lemma NotRenewed(c: Codec<Record>, x: Image, ws: seq<World>, moves: seq<Move>)
    requires LogRecord.LogCodec(c) && |ws| == |moves| + 1 && |moves| > 3 && ws[3].codec == c && moves[3] == Reopen
    requires ws[3].phase == Down(Concat(c, QuietRecords()), [x])
    ensures !Renewed(ws, moves)
  {
    QuietIs();
    QuietActions();
    ReadWhole(c, QuietRecords());
    assert !RenewsAt(ws, moves, 3);
  }

  /** What is read after session two, which still holds the log of session one. */
  function Noisy(x: Image, y: Image): History {
    Quiet() + OwnLog(x, y, Aborted(1))
  }

  lemma NoisySeen(c: Codec<Record>, x: Image, y: Image)
    requires LogRecord.LogCodec(c)
    ensures var file := Concat(c, QuietRecords()) + Concat(c, OwnRecords(3, x, y, LogRecord.Abort));
            Legible(c, file) && Seen(c, file) == Noisy(x, y)
  {
    var a, b := QuietRecords(), OwnRecords(3, x, y, LogRecord.Abort);
    QuietIs();
    OwnIs(3, x, y, LogRecord.Abort);
    Wal.AllWellConcat(a, b);
    ConcatParts(c, a, b);
    ReadWhole(c, a + b);
  }

  lemma NoisyRecovery(x: Image, y: Image)
    ensures Recovered([x], Noisy(x, y)) == [y]
  {
    var log := Noisy(x, y);
    var l4, l3, l2, l1 := log[..4], log[..3], log[..2], log[..1];
    assert Front(log) == l4 && Front(l4) == l3 && Front(l3) == l2;
    assert l2 == Quiet() && Front(l2) == l1 && Front(l1) == [];
    assert Analyze(l1) == Analysis({1}, {}, {});
    assert Analyze(l2) == Analysis({}, {1}, {});
    assert Analyze(l3) == Analysis({1}, {1}, {});
    assert Analyze(l4) == Analysis({1}, {1}, {});
    assert Analyze(log) == Analysis({}, {1}, {1});
    var c: set<Txn>, none: set<Txn> := {1}, {};
    UndoSkips(l1, none);
    UndoSkips(l2, none);
    UndoSkips(l3, none);
    UndoSkips(l4, none);
    UndoSkips(log, none);
    assert Redo(l1, c) == [] && Redo(l2, c) == [] && Redo(l3, c) == [];
    assert Redo(l4, c) == [(0, y)] && Redo(log, c) == [(0, y)];
    var acts := [(0, y)];
    assert Actions(log) == acts;
    assert ApplyAll([x], acts) == ApplyAll([y], acts[1..]);
  }

  lemma {:induction false} NoisySerial(x: Image, y: Image, crashes: seq<Remains>)
    requires |crashes| == 2 && crashes[0].log == Quiet() && crashes[1].log == OwnLog(x, y, Aborted(1))
    ensures SerialLife([x], crashes) == [x]
  {
    assert crashes[..1][..0] == [];
    OwnFull(x, y, Aborted(1));
    assert Front(Quiet()) == [Begun(1)] && Front([Begun(1)]) == [];
    assert Newest(Quiet(), 0) == None;
    SerialIsNewest([x], Quiet(), 0);
    SerialIsNewest([x], OwnLog(x, y, Aborted(1)), 0);
    assert Serial([x], Quiet()) == [x] && SerialLife([x], crashes[..1]) == Serial([x], Quiet());
  }

  lemma OwnFull(x: Image, y: Image, end: Rec)
    requires end == Committed(1) || end == Aborted(1)
    ensures FullImages(OwnLog(x, y, end), 0)
    ensures Newest(OwnLog(x, y, end), 0) == if end.Committed? then Some(y) else None
  {
    var log := OwnLog(x, y, end);
    var l2, l1 := log[..2], log[..1];
    assert Front(log) == l2 && Front(l2) == l1 && Front(l1) == [];
    assert Last(l2) == log[1] && Last(l1) == log[0];
    assert LastBy(l2, 1, 0) == Some(y);
    assert Newest(l1, 0) == Newest([], 0) == None;
    assert Newest(l2, 0) == Newest(l1, 0);
  }

  // ----- a life whose second session does not start afresh: a torn record stays in the file -----

  /** What is left of session one's file: the first byte of a begin record. */
  ghost function TornFile(c: Codec<Record>): seq<byte> {
    var all := Concat(c, [LogRecord.FirstBegin(1)]);
    if |all| > 0 then all[..1] else []
  }

  lemma TornBytes(c: Codec<Record>)
    requires LogRecord.LogCodec(c)
    ensures |Concat(c, [LogRecord.FirstBegin(1)])| == 41 && TornFile(c) == [41]
    ensures ReadAll(c, TornFile(c)) == Log([]) && Legible(c, TornFile(c)) && !Renews(c, TornFile(c))
  {
    var r := LogRecord.FirstBegin(1);
    assert Concat(c, [r]) == c.enc(r) + [] == c.enc(r);
    FirstByte(c);
    assert LogRecord.Framed(c, r);
    BeginIs(1);
    ReadBack(c, [], r, TornFile(c));
    assert Concat(c, []) + TornFile(c) == TornFile(c);
    assert Actions([]) == [];
  }

  // What session two appends behind that byte is not read back, its commit included.
  lemma BehindTorn(c: Codec<Record>, x: Image, y: Image)
    requires LogRecord.LogCodec(c)
    ensures var file := TornFile(c) + Concat(c, OwnRecords(1, x, y, LogRecord.Commit));
            ReadAll(c, file) == Log([]) && Legible(c, file) && Seen(c, file) == []
  {
    var rs := OwnRecords(1, x, y, LogRecord.Commit);
    var file := TornFile(c) + Concat(c, rs);
    TornBytes(c);
    OwnSize(c, x, y);
    LogRecord.HighByte(file, 1);
    Wal.ContinuedBehindTorn(c, [], TornFile(c), rs);
    assert Concat(c, []) + TornFile(c) == TornFile(c);
  }

  lemma FrameSize(c: Codec<Record>, r: Record)
    requires LogRecord.LogCodec(c)
    ensures |c.enc(r)| == 41 + |r.data|
  {
    assert LogRecord.Framed(c, r);
  }

  lemma ThreeFrames(c: Codec<Record>, rs: seq<Record>)
    requires |rs| == 3
    ensures |Concat(c, rs)| == |c.enc(rs[0])| + |c.enc(rs[1])| + |c.enc(rs[2])|
    ensures forall i :: 0 <= i < |c.enc(rs[0])| ==> Concat(c, rs)[i] == c.enc(rs[0])[i]
  {
    assert rs[1..][0] == rs[1] && rs[1..][1..] == rs[2..] && rs[2..][0] == rs[2] && rs[2..][1..] == [];
    assert Concat(c, rs[2..]) == c.enc(rs[2]) + Concat(c, []);
  }

  lemma OwnSize(c: Codec<Record>, x: Image, y: Image)
    requires LogRecord.LogCodec(c)
    ensures var all := Concat(c, OwnRecords(1, x, y, LogRecord.Commit)); |all| == 8319 && all[0] == 41
  {
    var rs := OwnRecords(1, x, y, LogRecord.Commit);
    FrameSize(c, rs[0]);
    FrameSize(c, rs[1]);
    FrameSize(c, rs[2]);
    ThreeFrames(c, rs);
    FirstByte(c);
    assert |rs[1].data| == 8196 by { assert |Le32(|x|)| == 4; }
  }

  lemma FirstByte(c: Codec<Record>)
    requires LogRecord.LogCodec(c)
    ensures |c.enc(LogRecord.FirstBegin(1))| == 41 && c.enc(LogRecord.FirstBegin(1))[0] == 41
  {
    assert LogRecord.Framed(c, LogRecord.FirstBegin(1));
    LogRecord.FirstBeginBytes(Checksum.Crc, 1);
  }

  // The commit of session two was flushed; after the crash nothing of it is found.
  lemma TornLife(c: Codec<Record>, x: Image, y: Image) returns (ws: seq<World>, moves: seq<Move>)
    requires LogRecord.LogCodec(c) && x != y
    ensures Life(ws, moves) && ws[0] == Newborn(c, [x]) && !Renewed(ws, moves)
    ensures |moves| == 9 && moves[6].Act? && moves[6].a == Commit(1)
    ensures var w := ws[|moves|];
            w.starts == [[x], [x], [x]] && |w.crashes| == 2 && SerialLife([x], w.crashes) == [y]
  {
    var ws1, moves1 := TornSession(c, x);
    BehindTorn(c, x, y);
    var ws2, moves2 := WritingSession(ws1[3], x, y, 1, LogRecord.Commit);
    JoinLives(ws1, moves1, ws2, moves2);
    ws, moves := ws1 + ws2[1..], moves1 + moves2;
    assert ws[2] == ws1[2] && moves[2] == Reopen && ws[9] == ws2[6];
    TornBytes(c);
    assert !RenewsAt(ws, moves, 2);
    TornSerial(x, y, ws[9].crashes);
  }

  lemma TornSession(c: Codec<Record>, x: Image) returns (ws: seq<World>, moves: seq<Move>)
    requires LogRecord.LogCodec(c)
    ensures Life(ws, moves) && |moves| == 3 && moves[2] == Reopen && ws[0] == Newborn(c, [x])
    ensures ws[2].codec == c && ws[2].phase == Down(TornFile(c), [x])
    ensures ws[3] == World(c, [[x], [x]], [Remains([Begun(1)], [], [x])], Up(Fresh([x]), TornFile(c), []))
  {
    var w0 := Newborn(c, [x]);
    var w1, _ := QuietSteps(c, x);
    var w2, w3 := TornEnd(c, x, w1);
    var begin := Act(Start, [LogRecord.FirstBegin(1)]);
    ws, moves := [w0, w1, w2, w3], [begin, Fail(1), Reopen];
    forall i | 0 <= i ensures LeadsAt(ws, moves, i) {}
  }

  lemma TornEnd(c: Codec<Record>, x: Image, w: World) returns (w1: World, w2: World)
    requires LogRecord.LogCodec(c) && Leads(Newborn(c, [x]), Act(Start, [LogRecord.FirstBegin(1)]), w)
    ensures Leads(w, Fail(1), w1) && Leads(w1, Reopen, w2) && w1.codec == c && w1.phase == Down(TornFile(c), [x])
    ensures w2 == World(c, [[x], [x]], [Remains([Begun(1)], [], [x])], Up(Fresh([x]), TornFile(c), []))
  {
    TornBytes(c);
    var r := LogRecord.FirstBegin(1);
    var file := Concat(c, [r]);
    assert w.phase.records == [r] && w.phase.s.log == [Begun(1)] && [r][..0] == [] && [] + file == file;
    w1 := Moved(w, Fail(1));
    assert w1.phase.file == TornFile(c) && Seen(c, TornFile(c)) == [];
    assert Actions([]) == [] && Recovered([x], []) == [x];
    w2 := Moved(w1, Reopen);
  }

  lemma {:induction false} TornSerial(x: Image, y: Image, crashes: seq<Remains>)
    requires |crashes| == 2 && crashes[0].log == [Begun(1)] && crashes[1].log == OwnLog(x, y, Committed(1))
    ensures SerialLife([x], crashes) == [y]
  {
    assert crashes[..1][..0] == [];
    SerialSkips([x], [Begun(1)]);
    OwnFull(x, y, Committed(1));
    SerialIsNewest([x], OwnLog(x, y, Committed(1)), 0);
    assert SerialLife([x], crashes[..1]) == [x];
  }
}
