// The write-ahead log: a file, a write buffer in front of it, and recovery from
// what a crash leaves of the two.
module Wal {
  import opened Bytes
  import opened Checksum
  import opened Framing
  import opened LogRecord
  import Recovery

  type Txn = Recovery.Txn

  // ----- records as recovery sees them -----

  function Abs(r: Record): Recovery.Rec {
    match r.kind
    case Begin => Recovery.Begun(r.txn)
    case Commit => Recovery.Committed(r.txn)
    case Abort => Recovery.Aborted(r.txn)
    case PageWrite =>
      var images := PageWriteImages(r);
      if images.Images? then Recovery.Written(r.txn, r.page, images.before, images.after) else Recovery.Marked
    case _ => Recovery.Marked
  }

  function AbsAll(rs: seq<Record>): (h: Recovery.History)
    ensures |h| == |rs|
    ensures forall i :: 0 <= i < |rs| ==> h[i] == Abs(rs[i])
  {
    seq(|rs|, i requires 0 <= i < |rs| => Abs(rs[i]))
  }

  /** Reading the images of the record does not run off its end. */
  predicate Sliceable(r: Record) {
    PageWriteImages(r) != ImagesPanic
  }

  ghost predicate AllSliceable(rs: seq<Record>) {
    forall i :: 0 <= i < |rs| ==> Sliceable(rs[i])
  }

  // ----- recovery actions -----

  lemma TakeFront(h: Recovery.History, i: nat)
    requires i < |h|
    ensures h[..i + 1] != [] && Recovery.Front(h[..i + 1]) == h[..i] && Recovery.Last(h[..i + 1]) == h[i]
  {
  }

  method Analyze(rs: seq<Record>) returns (active: set<Txn>, committed: set<Txn>, aborted: set<Txn>)
    ensures Recovery.Analysis(active, committed, aborted) == Recovery.Analyze(AbsAll(rs))
  {
    active, committed, aborted := {}, {}, {};
    ghost var h := AbsAll(rs);
    for i := 0 to |rs|
      invariant Recovery.Analysis(active, committed, aborted) == Recovery.Analyze(h[..i])
    {
      TakeFront(h, i);
      match rs[i].kind {
        case Begin => active := active + {rs[i].txn};
        case Commit =>
          committed := committed + {rs[i].txn};
          active := active - {rs[i].txn};
        case Abort =>
          aborted := aborted + {rs[i].txn};
          active := active - {rs[i].txn};
        case _ =>
      }
    }
    assert h[..|rs|] == h;
  }

  method RedoActions(rs: seq<Record>, committed: set<Txn>) returns (redo: seq<Recovery.Action>)
    requires AllSliceable(rs)
    ensures redo == Recovery.Redo(AbsAll(rs), committed)
  {
    redo := [];
    ghost var h := AbsAll(rs);
    for i := 0 to |rs|
      invariant redo == Recovery.Redo(h[..i], committed)
    {
      TakeFront(h, i);
      if rs[i].kind == PageWrite && rs[i].txn in committed {
        match PageWriteImages(rs[i]) {
          case Images(_, after) => redo := redo + [(rs[i].page, after)];
          case _ =>
        }
      }
    }
    assert h[..|rs|] == h;
  }

  lemma UndoTurn(undo: seq<Recovery.Action>, h: Recovery.History, i: nat, active: set<Txn>)
    requires i < |h|
    ensures undo + Recovery.Undo(h[..i + 1], active) ==
            (if h[i].Written? && h[i].t in active then undo + [(h[i].p, h[i].before)] else undo)
            + Recovery.Undo(h[..i], active)
  {
    TakeFront(h, i);
    var rest := Recovery.Undo(h[..i], active);
    if h[i].Written? && h[i].t in active {
      assert undo + ([(h[i].p, h[i].before)] + rest) == undo + [(h[i].p, h[i].before)] + rest;
    } else {
      Recovery.UndoSkips(h[..i + 1], active);
    }
  }

  method UndoActions(rs: seq<Record>, active: set<Txn>) returns (undo: seq<Recovery.Action>)
    requires AllSliceable(rs)
    ensures undo == Recovery.Undo(AbsAll(rs), active)
  {
    undo := [];
    ghost var h := AbsAll(rs);
    assert h[..|rs|] == h;
    for i := |rs| downto 0
      invariant undo + Recovery.Undo(h[..i], active) == Recovery.Undo(h, active)
    {
      UndoTurn(undo, h, i, active);
      if rs[i].kind == PageWrite && rs[i].txn in active {
        match PageWriteImages(rs[i]) {
          case Images(before, _) => undo := undo + [(rs[i].page, before)];
          case _ =>
        }
      }
    }
  }

  // ----- the file -----

  /** `seek` then `write_all`. */
  function WriteAt(file: seq<byte>, pos: nat, bs: seq<byte>): seq<byte>
    requires pos <= |file|
  {
    file[..pos] + bs + if pos + |bs| < |file| then file[pos + |bs|..] else []
  }

  method ReadRecords(buf: seq<byte>, ghost c: Codec<Record>) returns (rs: seq<Record>)
    requires LogCodec(c) && ReadAll(c, buf).Log?
    ensures ReadAll(c, buf) == Log(rs)
  {
    rs := [];
    var pos := 0;
    while pos < |buf|
      invariant pos <= |buf| && ReadAll(c, buf[pos..]).Log?
      invariant ReadAll(c, buf) == Log(rs + ReadAll(c, buf[pos..]).records)
    {
      ReadTurn(c, buf, pos);
      var parsed := Parse(buf[pos..], c);
      match parsed {
        case Parsed(r, consumed) =>
          rs := rs + [r];
          pos := pos + consumed;
        case Rejected =>
          return;
      }
    }
  }

  method Parse(buf: seq<byte>, ghost c: Codec<Record>) returns (d: Parsed<Record>)
    requires LogCodec(c)
    ensures d == c.parse(buf)
  {
    assert Parses(c, buf);
    d := Deserialize(Crc, buf);
  }

  lemma ReadTurn(c: Codec<Record>, buf: seq<byte>, pos: nat)
    requires pos < |buf| && ReadAll(c, buf[pos..]).Log?
    ensures var d := c.parse(buf[pos..]);
            && d != Panicked && (d == Rejected ==> ReadAll(c, buf[pos..]) == Log([]))
            && (d.Parsed? ==>
                  && 0 < d.consumed <= |buf| - pos && ReadAll(c, buf[pos + d.consumed..]).Log?
                  && ReadAll(c, buf[pos..]).records == [d.record] + ReadAll(c, buf[pos + d.consumed..]).records)
  {
    var d := c.parse(buf[pos..]);
    if d.Parsed? && d.consumed <= |buf| - pos { assert buf[pos..][d.consumed..] == buf[pos + d.consumed..]; }
  }

  // ----- the log manager -----

  ghost predicate Precedes(rs: seq<Record>, i: nat, j: nat) {
    i < j < |rs| ==> rs[i].lsn < rs[j].lsn
  }

  ghost predicate NumberedAt(rs: seq<Record>, next: nat, i: nat) {
    i < |rs| ==> 0 < rs[i].lsn < next
  }

  ghost predicate Ascending(rs: seq<Record>, next: nat) {
    && (forall i: nat, j: nat {:trigger Precedes(rs, i, j)} :: Precedes(rs, i, j))
    && (forall i: nat {:trigger NumberedAt(rs, next, i)} :: NumberedAt(rs, next, i))
  }

  predicate WellFormed(r: Record) {
    Fits(r) && Sliceable(r)
  }

  ghost predicate AllWell(rs: seq<Record>) {
    forall i {:trigger WellFormed(rs[i])} :: 0 <= i < |rs| ==> WellFormed(rs[i])
  }

  lemma AllWellConcat(a: seq<Record>, b: seq<Record>)
    requires AllWell(a) && AllWell(b)
    ensures AllWell(a + b) && AbsAll(a + b) == AbsAll(a) + AbsAll(b)
  {
    forall i | 0 <= i < |a + b| ensures WellFormed((a + b)[i]) {
      if i < |a| { assert WellFormed(a[i]); } else { assert WellFormed(b[i - |a|]); }
    }
  }

  lemma AllWellPrefix(rs: seq<Record>, k: nat)
    requires AllWell(rs) && k <= |rs|
    ensures AllWell(rs[..k]) && AbsAll(rs[..k]) == AbsAll(rs)[..k]
  {
    forall i | 0 <= i < k ensures WellFormed(rs[..k][i]) { assert WellFormed(rs[i]); }
  }

  /** All the records are well-formed and in order. */
  ghost predicate Kept(rs: seq<Record>, next: nat) {
    AllWell(rs) && Ascending(rs, next)
  }

  /** A file of whole, well-formed records. */
  ghost predicate SoundLog(c: Codec<Record>, bytes: seq<byte>) {
    Whole(c, bytes) && AllWell(ReadAll(c, bytes).records)
  }

  /** The records in the file are those up to the flushed number. */
  ghost predicate FlushedUpTo(rs: seq<Record>, durable: nat, flushed: nat) {
    forall i: nat {:trigger FlushedAt(rs, durable, flushed, i)} :: FlushedAt(rs, durable, flushed, i)
  }

  ghost predicate FlushedAt(rs: seq<Record>, durable: nat, flushed: nat, i: nat) {
    i < |rs| ==> (rs[i].lsn <= flushed <==> i < durable)
  }

  lemma KeptMore(rs: seq<Record>, next: nat, durable: nat, flushed: nat, r: Record)
    requires Kept(rs, next) && WellFormed(r) && 0 < next == r.lsn
    requires durable <= |rs| && flushed < next && FlushedUpTo(rs, durable, flushed)
    ensures Kept(rs + [r], next + 1) && FlushedUpTo(rs + [r], durable, flushed)
  {
    var rs' := rs + [r];
    forall i | 0 <= i < |rs'| ensures WellFormed(rs'[i]) {
      if i < |rs| { assert WellFormed(rs[i]); }
    }
    var after := next + 1;
    forall i: nat ensures NumberedAt(rs', after, i) { assert NumberedAt(rs, next, i); }
    forall i: nat ensures FlushedAt(rs', durable, flushed, i) { assert FlushedAt(rs, durable, flushed, i); }
    forall i: nat, j: nat ensures Precedes(rs', i, j) { assert Precedes(rs, i, j) && NumberedAt(rs, next, i); }
  }

  lemma AllFlushed(rs: seq<Record>, next: nat, flushed: nat)
    requires Ascending(rs, next) && next == flushed + 1
    ensures FlushedUpTo(rs, |rs|, flushed)
  {
    forall i: nat ensures FlushedAt(rs, |rs|, flushed, i) { assert NumberedAt(rs, next, i); }
  }

  /** File and buffer hold what was found and the records behind it, the first `durable` in the file. */
  ghost predicate Laid(c: Codec<Record>, file: seq<byte>, buffer: seq<byte>, offset: nat, found: seq<byte>,
                       rs: seq<Record>, durable: nat) {
    && durable <= |rs| && file == found + Concat(c, rs[..durable]) && buffer == Concat(c, rs[durable..])
    && offset == |file| + |buffer|
  }

  lemma LaidMore(c: Codec<Record>, file: seq<byte>, buffer: seq<byte>, offset: nat, found: seq<byte>,
                 rs: seq<Record>, durable: nat, r: Record)
    requires Laid(c, file, buffer, offset, found, rs, durable)
    ensures Laid(c, file, buffer + c.enc(r), offset + |c.enc(r)|, found, rs + [r], durable)
  {
    AppendOne(c, rs, durable, r);
  }

  lemma LaidFlushed(c: Codec<Record>, file: seq<byte>, buffer: seq<byte>, offset: nat, found: seq<byte>,
                    rs: seq<Record>, durable: nat)
    requires Laid(c, file, buffer, offset, found, rs, durable)
    ensures offset - |buffer| == |file| && Laid(c, WriteAt(file, |file|, buffer), [], offset, found, rs, |rs|)
    ensures buffer == [] ==> WriteAt(file, |file|, buffer) == file
  {
    FlushParts(c, rs, durable);
    Associates(found, Concat(c, rs[..durable]), buffer);
    assert WriteAt(file, |file|, buffer) == file + buffer;
  }

  // ----- back links -----

  predicate IsEnd(r: Record) {
    r.kind == Commit || r.kind == Abort
  }

  ghost predicate AllEnds(rs: seq<Record>, ends: set<nat>) {
    forall i :: 0 <= i < |rs| && IsEnd(rs[i]) ==> i in ends
  }

  lemma AllEndsMore(rs: seq<Record>, ends: set<nat>, r: Record)
    ensures AllEnds(rs, ends) ==> AllEnds(rs + [r], if IsEnd(r) then ends + {|rs|} else ends)
  {
  }

  /** Record `j` is the transaction's latest before record `n`. */
  ghost predicate LatestAt(rs: seq<Record>, n: nat, t: Txn, j: nat) {
    j < n <= |rs| && rs[j].txn == t && forall k :: j < k < n ==> rs[k].txn != t
  }

  ghost predicate NoneOf(rs: seq<Record>, n: nat, t: Txn) {
    n <= |rs| && forall k :: 0 <= k < n ==> rs[k].txn != t
  }

  /** The record of a transaction names its latest one; none if there is none, or if that one ended it. */
  ghost predicate LinkedAt(rs: seq<Record>, ends: set<nat>, i: nat) {
    i < |rs| && rs[i].txn != 0 ==>
      && (NoneOf(rs, i, rs[i].txn) ==> rs[i].prev == 0)
      && (forall j: nat {:trigger LatestAt(rs, i, rs[i].txn, j)} :: LatestAt(rs, i, rs[i].txn, j) ==>
            rs[i].prev == if j in ends then 0 else rs[j].lsn)
  }

  /** `last` holds the latest record of every transaction that has not ended. */
  ghost predicate TracksAt(rs: seq<Record>, ends: set<nat>, last: map<Txn, Word>, t: Txn) {
    if t == 0 then t !in last
    else
      && (NoneOf(rs, |rs|, t) ==> t !in last)
      && (forall j: nat {:trigger LatestAt(rs, |rs|, t, j)} :: LatestAt(rs, |rs|, t, j) ==>
            if j in ends then t !in last else t in last && last[t] == rs[j].lsn)
  }

  ghost predicate Links(rs: seq<Record>, ends: set<nat>, last: map<Txn, Word>) {
    && (forall i: nat {:trigger LinkedAt(rs, ends, i)} :: LinkedAt(rs, ends, i))
    && (forall t {:trigger TracksAt(rs, ends, last, t)} :: TracksAt(rs, ends, last, t))
    && (forall i :: i in ends ==> i < |rs| && IsEnd(rs[i]))
  }

  lemma {:induction false} LatestExists(rs: seq<Record>, n: nat, t: Txn)
    requires n <= |rs|
    ensures NoneOf(rs, n, t) || exists j: nat :: LatestAt(rs, n, t, j)
  {
    if n > 0 {
      LatestExists(rs, n - 1, t);
      if rs[n - 1].txn == t {
        assert LatestAt(rs, n, t, n - 1);
      } else if !NoneOf(rs, n - 1, t) {
        var j: nat :| LatestAt(rs, n - 1, t, j);
        assert LatestAt(rs, n, t, j);
      }
    }
  }

  lemma LinkMore(rs: seq<Record>, ends: set<nat>, last: map<Txn, Word>, r: Record)
    requires Links(rs, ends, last) && r.prev == PrevOf(last, r)
    ensures Links(rs + [r], ends, if r.txn != 0 then last[r.txn := r.lsn] else last)
  {
    var rs', last', n := rs + [r], if r.txn != 0 then last[r.txn := r.lsn] else last, |rs|;
    NewLink(rs, ends, last, r);
    forall i: nat ensures LinkedAt(rs', ends, i) {
      assert LinkedAt(rs, ends, i);
      if i <= n { SameFront(rs, r, i, rs'[i].txn); }
    }
    forall t ensures TracksAt(rs', ends, last', t) {
      assert TracksAt(rs, ends, last, t);
      if t == r.txn { assert LatestAt(rs', n + 1, t, n); } else { OtherTxn(rs, r, t); }
    }
  }

  lemma SameFront(rs: seq<Record>, r: Record, n: nat, t: Txn)
    requires n <= |rs|
    ensures forall j: nat {:trigger LatestAt(rs + [r], n, t, j)} ::
              LatestAt(rs + [r], n, t, j) <==> LatestAt(rs, n, t, j)
    ensures NoneOf(rs + [r], n, t) <==> NoneOf(rs, n, t)
  {
    var rs' := rs + [r];
    assert forall k {:trigger rs'[k]} {:trigger rs[k]} :: 0 <= k < n ==> rs'[k] == rs[k];
  }

  lemma OtherTxn(rs: seq<Record>, r: Record, t: Txn)
    requires r.txn != t
    ensures forall j: nat {:trigger LatestAt(rs + [r], |rs| + 1, t, j)} ::
              LatestAt(rs + [r], |rs| + 1, t, j) <==> LatestAt(rs, |rs|, t, j)
    ensures NoneOf(rs + [r], |rs| + 1, t) <==> NoneOf(rs, |rs|, t)
  {
    var rs' := rs + [r];
    assert forall k {:trigger rs'[k]} {:trigger rs[k]} :: 0 <= k < |rs| ==> rs'[k] == rs[k];
    assert rs'[|rs|] == r;
  }

  lemma NewLink(rs: seq<Record>, ends: set<nat>, last: map<Txn, Word>, r: Record)
    requires Links(rs, ends, last) && r.prev == PrevOf(last, r)
    ensures r.txn != 0 ==>
              && (NoneOf(rs, |rs|, r.txn) ==> r.prev == 0)
              && (forall j: nat {:trigger LatestAt(rs, |rs|, r.txn, j)} :: LatestAt(rs, |rs|, r.txn, j) ==>
                    r.prev == if j in ends then 0 else rs[j].lsn)
  {
    assert TracksAt(rs, ends, last, r.txn);
  }

  lemma LinkEnd(rs: seq<Record>, ends: set<nat>, last: map<Txn, Word>)
    requires Links(rs, ends, last) && rs != [] && IsEnd(rs[|rs| - 1])
    ensures Links(rs, ends + {|rs| - 1}, last - {rs[|rs| - 1].txn})
  {
    var n, u, ends' := |rs| - 1, rs[|rs| - 1].txn, ends + {|rs| - 1};
    forall i: nat ensures LinkedAt(rs, ends', i) { assert LinkedAt(rs, ends, i); }
    forall t ensures TracksAt(rs, ends', last - {u}, t) {
      assert TracksAt(rs, ends, last, t);
      if t == u { assert LatestAt(rs, n + 1, t, n); }
    }
  }

  lemma NoLinks()
    ensures Links([], {}, map[])
  {
  }

  class WalManager {
    ghost const codec: Codec<Record>
    var file: seq<byte>
    var buffer: seq<byte>
    var offset: nat
    var nextLsn: nat
    var flushedLsn: nat
    var lastLsn: map<Txn, Word>
    ghost var found: seq<byte>
    ghost var records: seq<Record>
    ghost var durable: nat
    /** The records after which tracking of their transaction stopped. */
    ghost var ends: set<nat>

    /** File and buffer hold what was found at opening and, behind it, the records appended since,
        the first `durable` of them in the file. */
    ghost predicate Valid()
      reads this`file, this`buffer, this`offset, this`nextLsn, this`flushedLsn, this`found, this`records, this`durable
      reads this`lastLsn, this`ends
    {
      ValidBelow(nextLsn) && Links(records, ends, lastLsn)
    }

    /** Every end record went through `LogCommit` or `LogAbort`. */
    ghost predicate Tidy()
      reads this`records, this`ends
    {
      AllEnds(records, ends)
    }

    ghost predicate ValidBelow(next: nat)
      reads this`file, this`buffer, this`offset, this`flushedLsn, this`found, this`records, this`durable
    {
      && LogCodec(codec) && Laid(codec, file, buffer, offset, found, records, durable)
      && Kept(records, next) && flushedLsn < next && FlushedUpTo(records, durable, flushedLsn)
    }

    /** The file can be read for recovery, whether or not it ends in a torn record. */
    ghost predicate Readable()
      reads this`file, this`flushedLsn, this`nextLsn
    {
      LogCodec(codec) && flushedLsn < nextLsn && ReadAll(codec, file).Log? && AllSliceable(ReadAll(codec, file).records)
    }

    /** The whole records at the front of the file. */
    ghost function OnFile(): seq<Record>
      requires Readable()
      reads this`file, this`flushedLsn, this`nextLsn
    {
      ReadAll(codec, file).records
    }

    lemma ValidReadable()
      requires Valid() && SoundLog(codec, found)
      ensures Readable() && OnFile() == ReadAll(codec, found).records + records[..durable]
    {
      DurableRead(codec, found, records, durable, nextLsn);
    }

    /** Open an existing file: numbering continues, appending starts at the end of the file,
        whether or not it ends in a torn record. */
    constructor Open(bytes: seq<byte>, ghost c: Codec<Record>)
      requires LogCodec(c) && ReadAll(c, bytes).Log?
      ensures codec == c && file == bytes && Valid() && found == bytes && records == [] && durable == 0
      ensures Tidy() && flushedLsn + 1 == nextLsn
      ensures var rs := ReadAll(c, bytes).records;
              && (forall r :: r in rs ==> r.lsn < nextLsn)
              && (nextLsn == 1 || exists r :: r in rs && r.lsn + 1 == nextLsn)
              && (AllSliceable(rs) ==> Readable() && OnFile() == rs)
    {
      var rs := ReadRecords(bytes, c);
      var max: nat := 0;
      for i := 0 to |rs|
        invariant forall j :: 0 <= j < i ==> rs[j].lsn <= max
        invariant max == 0 || exists j :: 0 <= j < i && rs[j].lsn == max
      {
        if rs[i].lsn > max {
          max := rs[i].lsn;
        }
      }
      codec := c;
      file, buffer, offset := bytes, [], |bytes|;
      nextLsn, flushedLsn, lastLsn := max + 1, max, map[];
      found, records, durable, ends := bytes, [], 0, {};
      NoLinks();
    }

    ghost function History(): Recovery.History
      reads this`records
    {
      AbsAll(records)
    }

    method Append(record: Record) returns (lsn: Word)
      requires Valid() && WellFormed(record) && nextLsn + 1 < 0x1_0000_0000_0000_0000
      modifies this`buffer, this`offset, this`nextLsn, this`lastLsn, this`records
      ensures Valid() && lsn == old(nextLsn) && nextLsn == lsn + 1
      ensures records == old(records) + [record.(lsn := lsn, prev := PrevOf(old(lastLsn), record))]
      ensures lastLsn == if record.txn != 0 then old(lastLsn)[record.txn := lsn] else old(lastLsn)
      ensures History() == old(History()) + [Abs(record)]
    {
      var stamped := Stamp(record);
      Restamped(record, stamped);
      LinkMore(records, ends, old(lastLsn), stamped);
      Push(stamped);
      lsn := stamped.lsn;
    }

    /** Number the record and link it to its transaction's latest one. */
    method Stamp(record: Record) returns (stamped: Record)
      requires nextLsn + 1 < 0x1_0000_0000_0000_0000
      modifies this`nextLsn, this`lastLsn
      ensures stamped == record.(lsn := old(nextLsn), prev := PrevOf(old(lastLsn), record))
      ensures nextLsn == old(nextLsn) + 1
      ensures lastLsn == if record.txn != 0 then old(lastLsn)[record.txn := stamped.lsn] else old(lastLsn)
    {
      stamped := record.(lsn := nextLsn);
      nextLsn := nextLsn + 1;
      if stamped.txn != 0 {
        stamped := stamped.(prev := if stamped.txn in lastLsn then lastLsn[stamped.txn] else 0);
        lastLsn := lastLsn[stamped.txn := stamped.lsn];
      }
    }

    /** Put the bytes of a numbered record into the buffer. */
    method Push(r: Record)
      requires ValidBelow(r.lsn) && nextLsn == r.lsn + 1 && WellFormed(r)
      modifies this`buffer, this`offset, this`records
      ensures ValidBelow(nextLsn) && records == old(records) + [r] && History() == old(History()) + [Abs(r)]
    {
      var bytes := Encode(r, codec);
      LaidMore(codec, file, buffer, offset, found, records, durable, r);
      AbsOneMore(records, r);
      KeptMore(records, r.lsn, durable, flushedLsn, r);
      buffer := buffer + bytes;
      offset := offset + |bytes|;
      records := records + [r];
    }

    /** Append a record without images. */
    method AppendPlain(kind: Kind, t: Word, prev: Word) returns (lsn: Word, ghost r: Record)
      requires Valid() && kind != PageWrite && nextLsn + 1 < 0x1_0000_0000_0000_0000 && (t == 0 ==> prev == 0)
      modifies this`buffer, this`offset, this`nextLsn, this`lastLsn, this`records
      ensures Valid() && lsn == old(nextLsn) && nextLsn == lsn + 1
      ensures r == Record(lsn, t, LinkFor(old(lastLsn), t), kind, 0, [])
      ensures records == old(records) + [r] && History() == old(History()) + [Abs(r)]
    {
      var record := Record(0, t, prev, kind, 0, []);
      PlainRecord(record);
      assert TracksAt(records, ends, lastLsn, 0);
      lsn := Append(record);
      r := Record(lsn, t, LinkFor(old(lastLsn), t), kind, 0, []);
      Restamped(record, r);
    }

    method LogBegin(t: Word) returns (lsn: Word)
      requires Valid() && nextLsn + 1 < 0x1_0000_0000_0000_0000
      modifies this`buffer, this`offset, this`nextLsn, this`lastLsn, this`records
      ensures Valid() && lsn == old(nextLsn) && nextLsn == lsn + 1
      ensures records == old(records) + [Record(lsn, t, LinkFor(old(lastLsn), t), Begin, 0, [])]
      ensures History() == old(History()) + [Recovery.Begun(t)] && (old(Tidy()) ==> Tidy())
    {
      ghost var r;
      lsn, r := AppendPlain(Begin, t, 0);
      AllEndsMore(old(records), ends, r);
    }

    method LogCommit(t: Word) returns (lsn: Word)
      requires Valid() && nextLsn + 1 < 0x1_0000_0000_0000_0000
      modifies this
      ensures Valid() && lsn == old(nextLsn) && nextLsn == lsn + 1
      ensures records == old(records) + [Record(lsn, t, LinkFor(old(lastLsn), t), Commit, 0, [])]
      ensures History() == old(History()) + [Recovery.Committed(t)]
      ensures durable == |records| && t !in lastLsn && found == old(found) && (old(Tidy()) ==> Tidy())
    {
      assert TracksAt(records, ends, lastLsn, 0);
      ghost var r;
      lsn, r := AppendPlain(Commit, t, if t in lastLsn then lastLsn[t] else 0);
      AllEndsMore(old(records), ends, r);
      Flush();
      Forget(t, old(records), r);
    }

    /** Stop tracking the transaction of the last record, which ends it. */
    method Forget(t: Word, ghost before: seq<Record>, ghost r: Record)
      requires Valid() && records == before + [r] && r.txn == t && IsEnd(r)
      modifies this`lastLsn, this`ends
      ensures Valid() && t !in lastLsn && ends == old(ends) + {|before|}
    {
      LinkEnd(records, ends, lastLsn);
      lastLsn := lastLsn - {t};
      ends := ends + {|before|};
    }

    method LogAbort(t: Word) returns (lsn: Word)
      requires Valid() && nextLsn + 1 < 0x1_0000_0000_0000_0000
      modifies this`buffer, this`offset, this`nextLsn, this`lastLsn, this`records, this`ends
      ensures Valid() && lsn == old(nextLsn) && nextLsn == lsn + 1
      ensures records == old(records) + [Record(lsn, t, LinkFor(old(lastLsn), t), Abort, 0, [])]
      ensures History() == old(History()) + [Recovery.Aborted(t)] && t !in lastLsn && (old(Tidy()) ==> Tidy())
    {
      assert TracksAt(records, ends, lastLsn, 0);
      ghost var r;
      lsn, r := AppendPlain(Abort, t, if t in lastLsn then lastLsn[t] else 0);
      AllEndsMore(old(records), ends, r);
      Forget(t, old(records), r);
    }

    method LogPageWrite(t: Word, p: PageId, before: seq<byte>, after: seq<byte>) returns (lsn: Word)
      requires Valid() && nextLsn + 1 < 0x1_0000_0000_0000_0000
      requires HEADER_SIZE + 4 + |before| + |after| < 0x1_0000_0000
      modifies this`buffer, this`offset, this`nextLsn, this`lastLsn, this`records
      ensures Valid() && lsn == old(nextLsn) && nextLsn == lsn + 1
      ensures records ==
              old(records) + [Record(lsn, t, LinkFor(old(lastLsn), t), PageWrite, p, PageWriteData(before, after))]
      ensures History() == old(History()) + [Recovery.Written(t, p, before, after)] && (old(Tidy()) ==> Tidy())
    {
      assert TracksAt(records, ends, lastLsn, 0);
      var record := Record(0, t, if t in lastLsn then lastLsn[t] else 0, PageWrite, p, PageWriteData(before, after));
      WriteRecord(record, before, after);
      lsn := Append(record);
      AllEndsMore(old(records), ends, records[|records| - 1]);
    }

    method Flush()
      requires Valid()
      modifies this`file, this`buffer, this`flushedLsn, this`durable
      ensures Valid() && durable == |records| && buffer == [] && History() == old(History())
    {
      LaidFlushed(codec, file, buffer, offset, found, records, durable);
      AllFlushed(records, nextLsn, nextLsn - 1);
      if buffer != [] {
        file := WriteAt(file, offset - |buffer|, buffer);
        buffer := [];
      }
      flushedLsn := nextLsn - 1;
      durable := |records|;
    }

    /** The records of the file, as recovery actions. */
    method Recover()
      returns (redo: seq<Recovery.Action>, undo: seq<Recovery.Action>, committed: set<Txn>, aborted: set<Txn>)
      requires Readable()
      ensures var h := AbsAll(OnFile()); var a := Recovery.Analyze(h);
              && redo == Recovery.Redo(h, a.committed) && undo == Recovery.Undo(h, a.active)
              && committed == a.committed && aborted == a.active
    {
      var rs := ReadRecords(file, codec);
      if rs == [] {
        return [], [], {}, {};
      }
      var active, ended;
      active, committed, ended := Analyze(rs);
      redo := RedoActions(rs, committed);
      undo := UndoActions(rs, active);
      aborted := active;
    }

    // Whatever part of the buffer reached the file, a crash leaves the records that were
    // flushed and some of those that followed, in order, behind the records found at opening.
    lemma AfterCrash(n: nat) returns (k: nat)
      requires Valid() && SoundLog(codec, found) && |file| <= n <= |file + buffer|
      ensures durable <= k <= |records|
      ensures ReadAll(codec, (file + buffer)[..n]) == Log(ReadAll(codec, found).records + records[..k])
      ensures AbsAll(records[..k]) == History()[..k]
    {
      FlushParts(codec, records, durable);
      assert records[..|records|] == records;
      Associates(found, Concat(codec, records[..durable]), buffer);
      FitAll(codec, records);
      FitAll(codec, ReadAll(codec, found).records);
      k := CutBehind(codec, found, records, durable, n);
    }

    method Truncate()
      requires LogCodec(codec) && flushedLsn < nextLsn
      modifies this`file, this`buffer, this`offset, this`lastLsn, this`found, this`records, this`durable, this`ends
      ensures Valid() && Tidy() && found == [] && records == [] && file == [] && buffer == []
    {
      buffer := [];
      file := [];
      offset := 0;
      lastLsn := map[];
      found, records, durable, ends := [], [], 0, {};
      NoLinks();
    }

    // In a log written through the operations, each record of a transaction names the one before it
    // in the same transaction; the first one, and the first one after an end, name none.
    lemma LinkedBack(i: nat, j: nat)
      requires Valid() && Tidy() && i < |records| && records[i].txn != 0
      ensures NoneOf(records, i, records[i].txn) ==> records[i].prev == 0
      ensures LatestAt(records, i, records[i].txn, j) ==>
                records[i].prev == if IsEnd(records[j]) then 0 else records[j].lsn
    {
      assert LinkedAt(records, ends, i);
    }
  }

  /** The reader finds fewer bytes than the length it reads. */
  ghost predicate Waiting(buf: seq<byte>) {
    |buf| < HEADER_SIZE || |buf| < U32(buf, 0)
  }

  // A log opened over a torn record continues behind it, and what follows is not read back while
  // the reader waits for more: even a commit that was flushed is lost.
  lemma ContinuedBehindTorn(c: Codec<Record>, rs: seq<Record>, torn: seq<byte>, more: seq<Record>)
    requires LogCodec(c) && AllFit(c, rs) && Waiting(torn + Concat(c, more))
    ensures ReadAll(c, Concat(c, rs) + torn + Concat(c, more)) == Log(rs)
  {
    assert Parses(c, torn + Concat(c, more));
    BehindTornUnread(c, rs, torn + Concat(c, more));
    Associates(Concat(c, rs), torn, Concat(c, more));
  }

  /** Records appended behind `torn` are read back, behind those before it. */
  ghost predicate ReadBehind(c: Codec<Record>, rs: seq<Record>, torn: seq<byte>, more: seq<Record>) {
    AllFit(c, more) ==> ReadAll(c, Concat(c, rs) + torn + Concat(c, more)) == Log(rs + more)
  }

  // What is appended behind the bytes of a cut record is read back, whatever it is, if and only
  // if no byte of that record is there.
  lemma TornIff(c: Codec<Record>, rs: seq<Record>, r: Record, torn: seq<byte>)
    requires LogCodec(c) && AllFit(c, rs) && Fits(r) && torn < c.enc(r)
    ensures (forall more {:trigger ReadBehind(c, rs, torn, more)} :: ReadBehind(c, rs, torn, more)) <==> torn == []
  {
    if torn == [] {
      forall more ensures ReadBehind(c, rs, torn, more) {
        if AllFit(c, more) { Continued(c, rs, more); }
      }
    } else {
      var more := TornLoses(c, rs, torn);
      assert !ReadBehind(c, rs, torn, more);
    }
  }

  lemma TornLoses(c: Codec<Record>, rs: seq<Record>, torn: seq<byte>) returns (more: seq<Record>)
    requires LogCodec(c) && AllFit(c, rs) && torn != []
    ensures !ReadBehind(c, rs, torn, more)
  {
    var lsn: Word := if |torn| >= 16 && U64(torn, 8) == 1 then 2 else 1;
    more := [FirstBegin(lsn)];
    TornUnread(c, torn, lsn);
    BehindOnly(c, rs, torn + Concat(c, more), more);
    Associates(Concat(c, rs), torn, Concat(c, more));
    assert Framed(c, more[0]);
  }

  lemma BehindOnly(c: Codec<Record>, rs: seq<Record>, rest: seq<byte>, more: seq<Record>)
    requires LogCodec(c) && AllFit(c, rs) && ReadAll(c, rest) != Log(more)
    ensures ReadAll(c, Concat(c, rs) + rest) != Log(rs + more)
  {
    ReadOn(c, rs, rest);
    if ReadAll(c, rest).Log? {
      var read := ReadAll(c, rest).records;
      assert (rs + read)[|rs|..] == read && (rs + more)[|rs|..] == more;
    }
  }

  lemma Continued(c: Codec<Record>, rs: seq<Record>, more: seq<Record>)
    requires LogCodec(c) && AllFit(c, rs) && AllFit(c, more)
    ensures ReadAll(c, Concat(c, rs) + [] + Concat(c, more)) == Log(rs + more)
  {
    ConcatParts(c, rs, more);
    assert Concat(c, rs) + [] + Concat(c, more) == Concat(c, rs + more) + [] && rs + more + [] == rs + more;
    ReadOn(c, rs + more, []);
  }

  lemma TornUnread(c: Codec<Record>, torn: seq<byte>, lsn: Word)
    requires LogCodec(c) && torn != [] && (|torn| >= 16 ==> U64(torn, 8) != lsn)
    ensures ReadAll(c, torn + Concat(c, [FirstBegin(lsn)])) != Log([FirstBegin(lsn)])
  {
    var q := FirstBegin(lsn);
    assert Framed(c, q) && Concat(c, [q]) == Frame(Crc, q) + [] == Frame(Crc, q);
    assert Parses(c, torn + Frame(Crc, q));
    FirstBeginBytes(Crc, lsn);
    if |torn| <= 3 {
      ShortTornRejected(Crc, torn, Frame(Crc, q));
    } else {
      LongTornDiffers(Crc, torn, lsn, Frame(Crc, q));
    }
  }

  function LinkFor(last: map<Txn, Word>, t: Txn): Word {
    if t in last then last[t] else 0
  }

  /** The number of the transaction's latest record, if it is tracked. */
  function PrevOf(last: map<Txn, Word>, r: Record): Word {
    if r.txn == 0 then r.prev else LinkFor(last, r.txn)
  }

  lemma FitAll(c: Codec<Record>, rs: seq<Record>)
    requires LogCodec(c) && AllWell(rs)
    ensures AllFit(c, rs) && AllSliceable(rs)
  {
    forall i | 0 <= i < |rs| ensures c.fits(rs[i]) && Sliceable(rs[i]) {
      assert Framed(c, rs[i]) && WellFormed(rs[i]);
    }
  }

  lemma DurableRead(c: Codec<Record>, found: seq<byte>, rs: seq<Record>, k: nat, next: nat)
    requires LogCodec(c) && SoundLog(c, found) && Kept(rs, next) && k <= |rs|
    ensures var before := ReadAll(c, found).records;
            ReadAll(c, found + Concat(c, rs[..k])) == Log(before + rs[..k]) && AllSliceable(before + rs[..k])
  {
    var before := ReadAll(c, found).records;
    FitAll(c, before);
    FitAll(c, rs);
    var all := before + rs[..k];
    ConcatParts(c, before, rs[..k]);
    assert Concat(c, all) + [] == Concat(c, all) && all + [] == all;
    ReadOn(c, all, []);
  }

  lemma PlainRecord(r: Record)
    requires r.data == [] && r.kind != PageWrite
    ensures WellFormed(r)
  {
  }

  lemma WriteRecord(r: Record, before: seq<byte>, after: seq<byte>)
    requires r.kind == PageWrite && r.data == PageWriteData(before, after)
    requires HEADER_SIZE + 4 + |before| + |after| < 0x1_0000_0000
    ensures WellFormed(r) && Abs(r) == Recovery.Written(r.txn, r.page, before, after)
  {
    ImagesRoundTrip(r, before, after);
  }

  lemma AbsOneMore(rs: seq<Record>, r: Record)
    ensures AbsAll(rs + [r]) == AbsAll(rs) + [Abs(r)]
  {
  }

  lemma Restamped(r: Record, s: Record)
    requires WellFormed(r) && s == r.(lsn := s.lsn, prev := s.prev)
    ensures WellFormed(s) && Abs(s) == Abs(r)
  {
  }

  method Encode(r: Record, ghost c: Codec<Record>) returns (bytes: seq<byte>)
    requires LogCodec(c)
    ensures bytes == c.enc(r)
  {
    assert Framed(c, r);
    bytes := Serialize(r);
  }

  lemma AppendOne(c: Codec<Record>, rs: seq<Record>, k: nat, r: Record)
    requires k <= |rs|
    ensures Concat(c, (rs + [r])[k..]) == Concat(c, rs[k..]) + c.enc(r) && (rs + [r])[..k] == rs[..k]
  {
    assert (rs + [r])[k..] == rs[k..] + [r];
    ConcatParts(c, rs[k..], [r]);
    assert Concat(c, [r]) == c.enc(r) + Concat(c, []);
  }

  lemma FlushParts(c: Codec<Record>, rs: seq<Record>, k: nat)
    requires k <= |rs|
    ensures Concat(c, rs[..k]) + Concat(c, rs[k..]) == Concat(c, rs[..|rs|]) && Concat(c, rs[|rs|..]) == []
  {
    assert rs[..k] + rs[k..] == rs[..|rs|];
    ConcatParts(c, rs[..k], rs[k..]);
  }
}
