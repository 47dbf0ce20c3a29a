// Log records and their byte format.
//
// Lengths are cast to 32 bits when written; reading slices with the lengths it
// finds, so a reader given arbitrary bytes can run off the end of its buffer
// (`Panicked`).  Neither happens to what the log manager writes.
module LogRecord {
  import opened Bytes
  import opened Checksum
  import opened Framing

  type Word = x: int | 0 <= x < 0x1_0000_0000_0000_0000

  datatype Kind = Invalid | Begin | Commit | Abort | PageWrite | Checkpoint | Clr

  function Tag(k: Kind): byte {
    match k
    case Invalid => 0
    case Begin => 1
    case Commit => 2
    case Abort => 3
    case PageWrite => 4
    case Checkpoint => 5
    case Clr => 6
  }

  function KindOf(b: byte): Kind {
    if b == 1 then Begin
    else if b == 2 then Commit
    else if b == 3 then Abort
    else if b == 4 then PageWrite
    else if b == 5 then Checkpoint
    else if b == 6 then Clr
    else Invalid
  }

  datatype Record = Record(lsn: Word, txn: Word, prev: Word, kind: Kind, page: PageId, data: seq<byte>)

  const HEADER_SIZE: nat := 41

  // ----- the format -----

  /** The bytes of a record under a checksum `sum`; the log uses `Crc`. */
  ghost predicate Encodes(sum: seq<byte> -> nat, bs: seq<byte>, r: Record) {
    Fielded(bs, r) && U32(bs, 4) == sum(bs[8..]) % 0x1_0000_0000
  }

  /** Everything but the checksum is in its place. */
  ghost predicate Fielded(bs: seq<byte>, r: Record) {
    && |bs| == HEADER_SIZE + |r.data|
    && U32(bs, 0) == |bs| % 0x1_0000_0000
    && U64(bs, 8) == r.lsn && U64(bs, 16) == r.txn && U64(bs, 24) == r.prev
    && bs[32] == Tag(r.kind) && U32(bs, 33) == r.page && U32(bs, 37) == |r.data| % 0x1_0000_0000
    && bs[41..] == r.data
  }

  lemma Same32(a: seq<byte>, b: seq<byte>, off: nat)
    requires off + 4 <= |a| && off + 4 <= |b|
    ensures U32(a, off) == U32(b, off) <==> a[off..off + 4] == b[off..off + 4]
  {
    var x, y := a[off..off + 4], b[off..off + 4];
    assert U32(a, off) == U32(x, 0) && U32(b, off) == U32(y, 0);
    if U32(x, 0) == U32(y, 0) {
      assert U16(x, 0) == U16(y, 0) && U16(x, 2) == U16(y, 2);
    }
  }

  lemma Same64(a: seq<byte>, b: seq<byte>, off: nat)
    requires off + 8 <= |a| && off + 8 <= |b| && U64(a, off) == U64(b, off)
    ensures a[off..off + 8] == b[off..off + 8]
  {
    Same32(a, b, off);
    Same32(a, b, off + 4);
    assert a[off..off + 8] == a[off..off + 4] + a[off + 4..off + 8];
    assert b[off..off + 8] == b[off..off + 4] + b[off + 4..off + 8];
  }

  lemma EncodesUnique(sum: seq<byte> -> nat, a: seq<byte>, b: seq<byte>, r: Record)
    requires Encodes(sum, a, r) && Encodes(sum, b, r)
    ensures a == b
  {
    Same64(a, b, 8);
    Same64(a, b, 16);
    Same64(a, b, 24);
    Same32(a, b, 33);
    Same32(a, b, 37);
    FrontOf(a);
    FrontOf(b);
    assert a[8..] == b[8..];
    Same32(a, b, 0);
    Same32(a, b, 4);
    assert a == a[0..4] + a[4..8] + a[8..] && b == b[0..4] + b[4..8] + b[8..];
  }

  lemma FrontOf(a: seq<byte>)
    requires |a| >= HEADER_SIZE
    ensures a[8..] == a[8..16] + a[16..24] + a[24..32] + [a[32]] + a[33..37] + a[37..41] + a[41..]
  {
  }

  /** The fields in front of the kind, the checksum being anything. */
  ghost predicate Head(bs: seq<byte>, r: Record) {
    && |bs| == 32 && U32(bs, 0) == (HEADER_SIZE + |r.data|) % 0x1_0000_0000
    && U64(bs, 8) == r.lsn && U64(bs, 16) == r.txn && U64(bs, 24) == r.prev
  }

  /** The fields from the kind on. */
  ghost predicate Tail(bs: seq<byte>, r: Record) {
    && |bs| == 9 + |r.data| && bs[0] == Tag(r.kind)
    && U32(bs, 1) == r.page && U32(bs, 5) == |r.data| % 0x1_0000_0000 && bs[9..] == r.data
  }

  // Parts put one behind the other.
  lemma HeadOf(total: seq<byte>, zero: seq<byte>, lsn: seq<byte>, txn: seq<byte>, prev: seq<byte>, r: Record)
    requires |total| == |zero| == 4 && |lsn| == |txn| == |prev| == 8
    requires U32(total, 0) == (HEADER_SIZE + |r.data|) % 0x1_0000_0000
    requires U64(lsn, 0) == r.lsn && U64(txn, 0) == r.txn && U64(prev, 0) == r.prev
    ensures Head(total + zero + lsn + txn + prev, r)
  {
  }

  lemma TailOf(page: seq<byte>, len: seq<byte>, r: Record)
    requires |page| == |len| == 4 && U32(page, 0) == r.page && U32(len, 0) == |r.data| % 0x1_0000_0000
    ensures Tail([Tag(r.kind)] + page + len + r.data, r)
  {
  }

  lemma Joined(head: seq<byte>, tail: seq<byte>, r: Record)
    requires Head(head, r) && Tail(tail, r)
    ensures Fielded(head + tail, r)
  {
  }

  lemma Stamped(bs: seq<byte>, r: Record, check: seq<byte>)
    requires Fielded(bs, r) && |check| == 4
    ensures var s := Splice(bs, 4, check); Fielded(s, r) && s[8..] == bs[8..] && U32(s, 4) == U32(check, 0)
  {
  }

  method ToLe32(x: nat) returns (bs: seq<byte>)
    ensures |bs| == 4 && U32(bs, 0) == x % 0x1_0000_0000
  {
    bs := Le32(x);
  }

  method ToLe64(x: Word) returns (bs: seq<byte>)
    ensures |bs| == 8 && U64(bs, 0) == x
  {
    bs := Le64(x);
    InWord(x);
  }

  lemma InWord(x: Word)
    ensures x % 0x1_0000_0000_0000_0000 == x
  {
  }

  lemma Le32Exist(x: nat, y: nat) returns (a: seq<byte>, b: seq<byte>)
    ensures |a| == |b| == 4 && U32(a, 0) == x % 0x1_0000_0000 && U32(b, 0) == y % 0x1_0000_0000
  {
    a, b := Le32(x), Le32(y);
  }

  lemma Le64Exists(x: Word) returns (bs: seq<byte>)
    ensures |bs| == 8 && U64(bs, 0) == x
  {
    bs := Le64(x);
    InWord(x);
  }

  lemma FrameExists(sum: seq<byte> -> nat, r: Record)
    ensures exists bs :: Encodes(sum, bs, r)
  {
    var head := HeadExists(r);
    var tail := TailExists(r);
    Joined(head, tail, r);
    var check, _ := Le32Exist(sum((head + tail)[8..]), 0);
    Stamped(head + tail, r, check);
    assert Encodes(sum, Splice(head + tail, 4, check), r);
  }

  lemma HeadExists(r: Record) returns (head: seq<byte>)
    ensures Head(head, r)
  {
    var total, zero := Le32Exist(HEADER_SIZE + |r.data|, 0);
    var lsn := Le64Exists(r.lsn);
    var txn := Le64Exists(r.txn);
    var prev := Le64Exists(r.prev);
    HeadOf(total, zero, lsn, txn, prev, r);
    head := total + zero + lsn + txn + prev;
  }

  lemma TailExists(r: Record) returns (tail: seq<byte>)
    ensures Tail(tail, r)
  {
    var page, len := Le32Exist(r.page, |r.data|);
    TailOf(page, len, r);
    tail := [Tag(r.kind)] + page + len + r.data;
  }

  /** Build the buffer with a zero checksum, then patch the checksum in. */
  method Serialize(r: Record) returns (buf: seq<byte>)
    ensures buf == Frame(Crc, r)
  {
    buf := Assemble(r);
    var checksum := Crc32(buf[8..]);
    var check := ToLe32(checksum);
    Stamped(buf, r, check);
    buf := Splice(buf, 4, check);
    EncodesUnique(Crc, buf, Frame(Crc, r), r);
  }

  method Assemble(r: Record) returns (buf: seq<byte>)
    ensures Fielded(buf, r)
  {
    buf := AssembleHead(r);
    var tail := AssembleTail(r);
    Joined(buf, tail, r);
    buf := buf + tail;
  }

  method AssembleHead(r: Record) returns (buf: seq<byte>)
    ensures Head(buf, r)
  {
    var total := ToLe32(HEADER_SIZE + |r.data|);
    buf := total;
    var zero := ToLe32(0);
    buf := buf + zero;
    var lsn := ToLe64(r.lsn);
    buf := buf + lsn;
    var txn := ToLe64(r.txn);
    buf := buf + txn;
    var prev := ToLe64(r.prev);
    buf := buf + prev;
    HeadOf(total, zero, lsn, txn, prev, r);
  }

  method AssembleTail(r: Record) returns (buf: seq<byte>)
    ensures Tail(buf, r)
  {
    buf := [Tag(r.kind)];
    var page := ToLe32(r.page);
    buf := buf + page;
    var len := ToLe32(|r.data|);
    buf := buf + len;
    buf := buf + r.data;
    TailOf(page, len, r);
  }

  /** The one byte string that encodes the record. */
  ghost function Frame(sum: seq<byte> -> nat, r: Record): (bs: seq<byte>)
    ensures Encodes(sum, bs, r)
  {
    FrameExists(sum, r);
    var bs :| Encodes(sum, bs, r);
    bs
  }

  // ----- reading -----

  function Deserialize(sum: seq<byte> -> nat, buf: seq<byte>): (r: Parsed<Record>)
    ensures r.Parsed? ==> 8 <= r.consumed <= |buf|
  {
    if |buf| < HEADER_SIZE then Rejected
    else
      var total := U32(buf, 0);
      if |buf| < total then Rejected
      else if total < 8 then Panicked
      else if U32(buf, 4) != sum(buf[8..total]) then Rejected
      else
        var len := U32(buf, 37);
        if |buf| < HEADER_SIZE + len then Panicked
        else
          Parsed(Record(U64(buf, 8), U64(buf, 16), U64(buf, 24), KindOf(buf[32]), U32(buf, 33),
                        buf[HEADER_SIZE..HEADER_SIZE + len]),
                 total)
  }

  /** The lengths survive their cast to 32 bits. */
  predicate Fits(r: Record) {
    HEADER_SIZE + |r.data| < 0x1_0000_0000
  }

  ghost predicate Sum32(sum: seq<byte> -> nat) {
    forall x :: sum(x) < 0x1_0000_0000
  }

  lemma LengthsBefore(a: seq<byte>, rest: seq<byte>)
    requires |a| >= HEADER_SIZE
    ensures var b := a + rest;
            U32(b, 0) == U32(a, 0) && U32(b, 4) == U32(a, 4) && U32(b, 37) == U32(a, 37) && b[8..|a|] == a[8..]
  {
  }

  lemma RecordBefore(a: seq<byte>, rest: seq<byte>)
    requires |a| >= HEADER_SIZE
    ensures RecordAt(a + rest, |a|) == RecordAt(a, |a|)
  {
    assert (a + rest)[HEADER_SIZE..|a|] == a[HEADER_SIZE..|a|];
  }

  // Reading undoes writing, whatever follows, exactly for the records whose lengths fit.
  lemma RoundTrip(sum: seq<byte> -> nat, r: Record, rest: seq<byte>)
    requires Sum32(sum)
    ensures Deserialize(sum, Frame(sum, r) + rest) == Parsed(r, |Frame(sum, r)|) <==> Fits(r)
  {
    if Fits(r) { ParseOf(sum, Frame(sum, r), r, rest); }
  }

  lemma ParseOf(sum: seq<byte> -> nat, f: seq<byte>, r: Record, rest: seq<byte>)
    requires Sum32(sum) && Encodes(sum, f, r) && Fits(r)
    ensures Deserialize(sum, f + rest) == Parsed(r, |f|)
  {
    FieldsOf(f, r);
    RecordBefore(f, rest);
    LengthsBefore(f, rest);
    ParseAt(sum, f + rest, |f|);
  }

  /** The record whose fields are in `buf`, its data ending at `n`. */
  function RecordAt(buf: seq<byte>, n: nat): Record
    requires HEADER_SIZE <= n <= |buf|
  {
    Record(U64(buf, 8), U64(buf, 16), U64(buf, 24), KindOf(buf[32]), U32(buf, 33), buf[HEADER_SIZE..n])
  }

  lemma FieldsOf(f: seq<byte>, r: Record)
    requires Fielded(f, r) && Fits(r)
    ensures U32(f, 0) == |f| && U32(f, 37) == |f| - HEADER_SIZE && RecordAt(f, |f|) == r
  {
    assert KindOf(Tag(r.kind)) == r.kind;
    assert f[HEADER_SIZE..|f|] == f[41..] == r.data;
    assert |f| % 0x1_0000_0000 == |f| && |r.data| % 0x1_0000_0000 == |r.data|;
  }

  lemma ParseAt(sum: seq<byte> -> nat, buf: seq<byte>, n: nat)
    requires HEADER_SIZE <= n <= |buf| && U32(buf, 0) == n && U32(buf, 4) == sum(buf[8..n])
    requires U32(buf, 37) == n - HEADER_SIZE
    ensures Deserialize(sum, buf) == Parsed(RecordAt(buf, n), n)
  {
  }

  // Whatever is read was written as it is read, unless the two lengths disagree or the kind is unknown.
  lemma ReadIsWritten(sum: seq<byte> -> nat, buf: seq<byte>, r: Record, n: nat)
    requires Sum32(sum) && Deserialize(sum, buf) == Parsed(r, n)
    ensures Fits(r) && buf[..n] == Frame(sum, r) <==> n == 41 + |r.data| && buf[32] <= 6
    ensures buf[32] > 6 ==> r.kind == Invalid
  {
    if n == 41 + |r.data| && buf[32] <= 6 {
      ReadEncodes(sum, buf, r, n);
      EncodesUnique(sum, buf[..n], Frame(sum, r), r);
    }
  }

  lemma ReadEncodes(sum: seq<byte> -> nat, buf: seq<byte>, r: Record, n: nat)
    requires Sum32(sum) && Deserialize(sum, buf) == Parsed(r, n) && n == 41 + |r.data| && buf[32] <= 6
    ensures Fits(r) && Encodes(sum, buf[..n], r)
  {
    var f, rest := buf[..n], buf[n..];
    assert f + rest == buf;
    RecordBefore(f, rest);
    LengthsBefore(f, rest);
    FieldsBack(f, r);
  }

  lemma FieldsBack(f: seq<byte>, r: Record)
    requires |f| == 41 + |r.data| && U32(f, 0) == |f| && U32(f, 37) == |r.data| && f[32] <= 6 && RecordAt(f, |f|) == r
    ensures Fielded(f, r)
  {
    assert f[41..] == f[HEADER_SIZE..|f|];
    TagBack(f[32]);
    Small(|f|);
    Small(|r.data|);
  }

  lemma TagBack(b: byte)
    requires b <= 6
    ensures Tag(KindOf(b)) == b
  {
  }

  lemma Small(x: nat)
    requires x < 0x1_0000_0000
    ensures x % 0x1_0000_0000 == x
  {
  }

  // The reader runs off the buffer exactly when a length that passed the checks before is wrong.
  lemma PanicIff(sum: seq<byte> -> nat, buf: seq<byte>)
    ensures Deserialize(sum, buf) == Panicked <==>
            && 41 <= |buf| && U32(buf, 0) <= |buf|
            && (U32(buf, 0) < 8 || (U32(buf, 4) == sum(buf[8..U32(buf, 0)]) && |buf| < 41 + U32(buf, 37)))
  {
  }

  // A record cut off anywhere is rejected, and so is a longer tail that is still too short for it.
  lemma TornRejected(sum: seq<byte> -> nat, r: Record, torn: seq<byte>, more: seq<byte>)
    requires Fits(r) && torn < Frame(sum, r) && |torn| + |more| < |Frame(sum, r)|
    requires |torn| >= 4 || more == []
    ensures Deserialize(sum, torn + more) == Rejected
  {
    var buf := torn + more;
    if |buf| >= HEADER_SIZE {
      assert buf[0..4] == Frame(sum, r)[0..4];
      FrameTotal(sum, r);
      Same32(buf, Frame(sum, r), 0);
    }
  }

  lemma FrameTotal(sum: seq<byte> -> nat, r: Record)
    requires Fits(r)
    ensures U32(Frame(sum, r), 0) == |Frame(sum, r)| >= HEADER_SIZE
  {
  }

  // A record damaged within any four consecutive bytes behind its length and checksum is rejected.
  lemma DamagedRejected(r: Record, bad: seq<byte>, p: seq<byte>, u: seq<byte>, v: seq<byte>, s: seq<byte>,
                        rest: seq<byte>)
    requires Fits(r) && |bad| == |Frame(Crc, r)| && bad[..8] == Frame(Crc, r)[..8]
    requires Frame(Crc, r)[8..] == p + u + s && bad[8..] == p + v + s && |u| == |v| <= 4 && u != v
    ensures Deserialize(Crc, bad + rest) == Rejected
  {
    CrcBound(p + u + s);
    FourBytesDetected(p, u, v, s);
    Damaged(Crc, Frame(Crc, r), r, bad, rest);
  }

  // And so is a record whose stored checksum alone is damaged, in any of its bytes.
  lemma ChecksumDamaged(r: Record, bad: seq<byte>, rest: seq<byte>)
    requires Fits(r) && |bad| == |Frame(Crc, r)| && bad != Frame(Crc, r)
    requires bad[..4] == Frame(Crc, r)[..4] && bad[8..] == Frame(Crc, r)[8..]
    ensures Deserialize(Crc, bad + rest) == Rejected
  {
    CrcBound(bad[8..]);
    OtherStamp(Crc, Frame(Crc, r), r, bad, rest);
  }

  lemma OtherStamp(sum: seq<byte> -> nat, f: seq<byte>, r: Record, bad: seq<byte>, rest: seq<byte>)
    requires Encodes(sum, f, r) && Fits(r) && |bad| == |f| && bad != f && bad[..4] == f[..4] && bad[8..] == f[8..]
    requires sum(f[8..]) < 0x1_0000_0000
    ensures Deserialize(sum, bad + rest) == Rejected
  {
    Totals(sum, f, r);
    assert bad == bad[..4] + bad[4..8] + bad[8..] && f == f[..4] + f[4..8] + f[8..];
    assert bad[0..4] == f[0..4];
    Same32(bad, f, 0);
    Same32(bad, f, 4);
    WrongSum(sum, bad, rest);
  }

  lemma Damaged(sum: seq<byte> -> nat, f: seq<byte>, r: Record, bad: seq<byte>, rest: seq<byte>)
    requires Encodes(sum, f, r) && Fits(r) && |bad| == |f| && bad[..8] == f[..8]
    requires sum(bad[8..]) != sum(f[8..]) < 0x1_0000_0000
    ensures Deserialize(sum, bad + rest) == Rejected
  {
    Totals(sum, f, r);
    SameHead(bad, f);
    WrongSum(sum, bad, rest);
  }

  lemma Totals(sum: seq<byte> -> nat, f: seq<byte>, r: Record)
    requires Encodes(sum, f, r) && Fits(r)
    ensures HEADER_SIZE <= |f| == U32(f, 0)
    ensures sum(f[8..]) < 0x1_0000_0000 ==> U32(f, 4) == sum(f[8..])
  {
  }

  lemma SameHead(a: seq<byte>, b: seq<byte>)
    requires 8 <= |a| && 8 <= |b| && a[..8] == b[..8]
    ensures U32(a, 0) == U32(b, 0) && U32(a, 4) == U32(b, 4)
  {
    assert a[0..4] == a[..8][0..4] == b[..8][0..4] == b[0..4];
    assert a[4..8] == a[..8][4..8] == b[..8][4..8] == b[4..8];
    Same32(a, b, 0);
    Same32(a, b, 4);
  }

  lemma WrongSum(sum: seq<byte> -> nat, bad: seq<byte>, rest: seq<byte>)
    requires HEADER_SIZE <= |bad| == U32(bad, 0) && U32(bad, 4) != sum(bad[8..])
    ensures Deserialize(sum, bad + rest) == Rejected
  {
    var buf := bad + rest;
    LengthsBefore(bad, rest);
    assert buf[8..|bad|] == bad[8..];
  }

  // ----- behind a torn record -----

  lemma Small32(bs: seq<byte>, off: nat)
    requires off + 4 <= |bs| && U32(bs, off) < 256
    ensures bs[off] == U32(bs, off) && bs[off + 1] == bs[off + 2] == bs[off + 3] == 0
  {
  }

  lemma Small64(bs: seq<byte>, off: nat)
    requires off + 8 <= |bs| && U64(bs, off) < 256
    ensures bs[off] == U64(bs, off) && forall i :: off < i < off + 8 ==> bs[i] == 0
  {
    assert U32(bs, off + 4) == 0;
    Small32(bs, off);
    Small32(bs, off + 4);
  }

  /** The begin record of transaction 1. */
  function FirstBegin(lsn: Word): Record {
    Record(lsn, 1, 0, Begin, 0, [])
  }

  lemma FirstBeginBytes(sum: seq<byte> -> nat, lsn: Word)
    ensures var f := Frame(sum, FirstBegin(lsn));
            |f| == HEADER_SIZE && f[0] == 41 && forall i :: 17 <= i < 32 ==> f[i] == 0
  {
    LowFields(Frame(sum, FirstBegin(lsn)));
  }

  lemma LowFields(f: seq<byte>)
    requires |f| == HEADER_SIZE && U32(f, 0) == 41 && U64(f, 16) == 1 && U64(f, 24) == 0
    ensures f[0] == 41 && forall i :: 17 <= i < 32 ==> f[i] == 0
  {
    Small32(f, 0);
    Small64(f, 16);
    Small64(f, 24);
  }

  // Up to three torn bytes and what follows them read as a length that is never there.
  lemma ShortTornRejected(sum: seq<byte> -> nat, torn: seq<byte>, rest: seq<byte>)
    requires 1 <= |torn| <= 3 && rest != [] && rest[0] >= 41 && |torn| + |rest| < 256 * 41
    ensures Deserialize(sum, torn + rest) == Rejected
  {
    var buf := torn + rest;
    assert buf[|torn|] == rest[0];
    if |buf| >= HEADER_SIZE { HighByte(buf, |torn|); }
  }

  lemma HighByte(buf: seq<byte>, i: nat)
    requires |buf| >= 4 && 1 <= i <= 3
    ensures U32(buf, 0) >= 256 * (buf[i] as int)
  {
  }

  lemma FieldsRead(sum: seq<byte> -> nat, buf: seq<byte>)
    ensures var d := Deserialize(sum, buf);
            d.Parsed? ==> |buf| >= HEADER_SIZE && d.record.lsn == U64(buf, 8) && d.record.kind == KindOf(buf[32])
  {
  }

  lemma SameLsn(a: seq<byte>, b: seq<byte>)
    requires |a| >= 16
    ensures U64(a + b, 8) == U64(a, 8)
  {
  }

  // From four torn bytes on, a record appended behind them is not what is read.
  lemma LongTornDiffers(sum: seq<byte> -> nat, torn: seq<byte>, lsn: Word, f: seq<byte>)
    requires 4 <= |torn| && (|torn| >= 16 ==> U64(torn, 8) != lsn)
    requires |f| == HEADER_SIZE && forall i :: 17 <= i < 32 ==> f[i] == 0
    ensures var d := Deserialize(sum, torn + f); d.Parsed? ==> d.record != FirstBegin(lsn)
  {
    FieldsRead(sum, torn + f);
    if |torn| < 16 { assert (torn + f)[32] == f[32 - |torn|]; } else { SameLsn(torn, f); }
  }

  // ----- whole logs -----

  ghost function Records(sum: seq<byte> -> nat): Codec<Record> {
    Codec(r => Frame(sum, r), buf => Deserialize(sum, buf), Fits)
  }

  lemma RecordFormat(sum: seq<byte> -> nat)
    requires Sum32(sum)
    ensures Format(Records(sum))
  {
    var c := Records(sum);
    forall r ensures Undoes(c, r) {
      if Fits(r) {
        forall rest ensures c.parse(c.enc(r) + rest) == Parsed(r, |c.enc(r)|) { RoundTrip(sum, r, rest); }
        forall torn | torn < c.enc(r) ensures c.parse(torn) == Rejected {
          TornRejected(sum, r, torn, []);
          assert torn + [] == torn;
        }
      }
    }
  }

  ghost predicate Framed(c: Codec<Record>, r: Record) {
    c.enc(r) == Frame(Crc, r) && (c.fits(r) <==> Fits(r))
  }

  ghost predicate Parses(c: Codec<Record>, buf: seq<byte>) {
    c.parse(buf) == Deserialize(Crc, buf)
  }

  /** The codec of the log: `Frame` and `Deserialize` under CRC-32. */
  ghost predicate LogCodec(c: Codec<Record>) {
    && Format(c)
    && (forall r {:trigger Framed(c, r)} :: Framed(c, r))
    && (forall buf {:trigger Parses(c, buf)} :: Parses(c, buf))
  }

  lemma LogCodecExists()
    ensures LogCodec(Records(Crc))
  {
    forall x ensures Crc(x) < 0x1_0000_0000 { CrcBound(x); }
    RecordFormat(Crc);
  }

  // ----- page images -----

  function PageWriteData(before: seq<byte>, after: seq<byte>): seq<byte> {
    Le32(|before|) + before + after
  }

  datatype Images = Images(before: seq<byte>, after: seq<byte>) | NoImages | ImagesPanic

  function PageWriteImages(r: Record): Images {
    if r.kind != PageWrite || |r.data| < 4 then NoImages
    else
      var n := U32(r.data, 0);
      if |r.data| < 4 + n then ImagesPanic else Images(r.data[4..4 + n], r.data[4 + n..])
  }

  lemma ImagesRoundTrip(r: Record, before: seq<byte>, after: seq<byte>)
    requires r.kind == PageWrite && r.data == PageWriteData(before, after)
    ensures PageWriteImages(r) == Images(before, after) <==> |before| < 0x1_0000_0000
  {
    assert r.data[0..4] == Le32(|before|) == Le32(|before|)[0..4];
    Same32(r.data, Le32(|before|), 0);
    if |before| < 0x1_0000_0000 {
      assert r.data[4..4 + |before|] == before && r.data[4 + |before|..] == after;
    }
  }
}
