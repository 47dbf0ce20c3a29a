// What the bytes in the files mean, field by field, in plain numbers.
module Format {
  import opened Bytes
  import opened KeyOrder
  import opened NodeBody
  import opened Checksum
  import opened Layout
  import NodeCode
  import BufferPool
  import LogRecord

  // ----- numbers -----

  /** The number in the bytes from `a` up to `b`, the first byte the lowest. */
  function Num(d: seq<byte>, a: nat, b: nat): nat
    requires a <= b <= |d|
  {
    LeValue(d[a..b])
  }

  lemma At2(d: seq<byte>, off: nat)
    requires off + 2 <= |d|
    ensures U16(d, off) == Num(d, off, off + 2)
  {
    var w := d[off..off + 2];
    assert w[1..][1..] == [];
    assert LeValue(w[1..]) == w[1] as int;
  }

  lemma At4(d: seq<byte>, off: nat)
    requires off + 4 <= |d|
    ensures U32(d, off) == Num(d, off, off + 4)
  {
    WordAt(d, off);
  }

  lemma At8(d: seq<byte>, off: nat)
    requires off + 8 <= |d|
    ensures U64(d, off) == Num(d, off, off + 8)
  {
    var w := d[off..off + 8];
    assert w[..4] == d[off..off + 4] && w[4..] == d[off + 4..off + 8];
    WordAt(d, off);
    WordAt(d, off + 4);
    LeParts(w);
  }

  lemma LeParts(w: seq<byte>)
    requires |w| == 8
    ensures LeValue(w) == LeValue(w[..4]) + 0x1_0000_0000 * LeValue(w[4..])
  {
    var w1, w2, w3 := w[1..], w[2..], w[3..];
    assert LeValue(w3) == w[3] as int + 256 * LeValue(w[4..]) by { assert w3[1..] == w[4..]; }
    assert LeValue(w2) == w[2] as int + 256 * LeValue(w3) by { assert w2[1..] == w3; }
    assert LeValue(w1) == w[1] as int + 256 * LeValue(w2) by { assert w1[1..] == w2; }
    WordValue(w[..4]);
  }

  // ----- pages -----

  // A new page holds its id and where its free space starts, and zeroes.
  lemma FreshFormat(id: PageId)
    ensures var d := BufferPool.FreshPage(id);
            Num(d, 0, 4) == id && Num(d, 7, 9) == 16
            && forall i :: 4 <= i < 7 || 9 <= i < 4096 ==> d[i] == 0
  {
    var zero: seq<byte> := seq(PAGE_SIZE, i => 0 as byte);
    var d1 := Splice(zero, 0, Le32(id));
    var d := Splice(d1, 7, Le16(16));
    assert d == BufferPool.FreshPage(id);
    FreshFields(d, id, zero, d1);
  }

  lemma FreshFields(d: seq<byte>, id: PageId, zero: seq<byte>, d1: seq<byte>)
    requires |zero| == 4096 && (forall i :: 0 <= i < |zero| ==> zero[i] == 0)
    requires d1 == Splice(zero, 0, Le32(id)) && d == Splice(d1, 7, Le16(16))
    ensures Num(d, 0, 4) == id && Num(d, 7, 9) == 16
    ensures forall i :: 4 <= i < 7 || 9 <= i < 4096 ==> d[i] == 0
  {
    assert d[0..4] == Le32(id) && Le32(id)[0..4] == Le32(id);
    assert d[7..9] == Le16(16) && Le16(16)[0..2] == Le16(16);
    At4(Le32(id), 0);
    At2(Le16(16), 0);
  }

  // A leaf page: type 3, the number of entries, right sibling, parent.
  lemma LeafHeader(d: Image)
    requires NodePage(d) && BodyOf(d).Leaf?
    ensures d[4] == 3 && |BodyOf(d).entries| == Num(d, 5, 7)
    ensures BodyOf(d).next == Num(d, 16, 20) && ParentOf(d) == Num(d, 20, 24)
  {
    At2(d, 5);
    At4(d, 16);
    At4(d, 20);
  }

  /** Three consecutive 16-bit numbers from `o` on: where key and value start, and their lengths. */
  ghost predicate EntryAt(d: Image, o: nat, e: (Key, Value)) {
    && o + 6 <= 4096
    && var at, k, v := Num(d, o, o + 2), Num(d, o + 2, o + 4), Num(d, o + 4, o + 6);
       at + k + v <= 4096 && e == (d[at..at + k], d[at + k..at + k + v])
  }

  // From byte 26 on six bytes per entry.
  lemma LeafEntryFormat(d: Image, i: nat)
    requires NodePage(d) && BodyOf(d).Leaf? && i < |BodyOf(d).entries|
    ensures EntryAt(d, 26 + 6 * i, BodyOf(d).entries[i])
  {
    LeafSlotInPage(d, i);
    LeafSlotNums(d, 26 + 6 * i, LeafSlotAt(d, i));
  }

  lemma LeafSlotNums(d: Image, o: nat, s: LeafSlot)
    requires o + 6 <= 4096 && s == LeafSlot(U16(d, o), U16(d, o + 2), U16(d, o + 4))
    ensures s == LeafSlot(Num(d, o, o + 2), Num(d, o + 2, o + 4), Num(d, o + 4, o + 6))
  {
    At2(d, o);
    At2(d, o + 2);
    At2(d, o + 4);
  }

  // An internal page: type 2, the number of separators, parent, the leftmost child.
  lemma InnerHeader(d: Image)
    requires NodePage(d) && BodyOf(d).Inner?
    ensures d[4] == 2 && |BodyOf(d).seps| == Num(d, 5, 7)
    ensures BodyOf(d).first == Num(d, 26, 30) && ParentOf(d) == Num(d, 20, 24)
  {
    At2(d, 5);
    At4(d, 20);
    At4(d, 26);
  }

  /** Where the separator starts, how long it is, and the child right of it. */
  ghost predicate SeparatorAt(d: Image, o: nat, e: (Key, PageId)) {
    && o + 8 <= 4096
    && var at, k := Num(d, o, o + 2), Num(d, o + 2, o + 4);
       at + k <= 4096 && e.0 == d[at..at + k] && e.1 == Num(d, o + 4, o + 8)
  }

  // From byte 30 on eight bytes per separator.
  lemma SeparatorFormat(d: Image, i: nat)
    requires NodePage(d) && BodyOf(d).Inner? && i < |BodyOf(d).seps|
    ensures SeparatorAt(d, 30 + 8 * i, BodyOf(d).seps[i])
  {
    InnerSlotInPage(d, i);
    InnerSlotNums(d, 30 + 8 * i, InnerSlotAt(d, i));
  }

  lemma InnerSlotNums(d: Image, o: nat, s: InnerSlot)
    requires o + 8 <= 4096 && s == InnerSlot(U16(d, o), U16(d, o + 2), U32(d, o + 4))
    ensures s.off == Num(d, o, o + 2) && s.klen == Num(d, o + 2, o + 4) && s.child == Num(d, o + 4, o + 8)
  {
    At2(d, o);
    At2(d, o + 2);
    At4(d, o + 4);
  }

  // The checksum of everything from byte 16 on is in bytes 9 to 12.
  lemma ChecksumFormat(d: Image)
    ensures NodeCode.Checksummed(d) <==> Num(d, 9, 13) == Crc(d[16..])
  {
    At4(d, 9);
  }

  // No page: all bits set.
  lemma NoPage()
    ensures LeValue([0xFF, 0xFF, 0xFF, 0xFF]) == INVALID_PAGE_ID
  {
    WordValue([0xFF, 0xFF, 0xFF, 0xFF]);
  }

  // ----- log records -----

  function KindNumber(k: LogRecord.Kind): nat {
    match k
    case Begin => 1
    case Commit => 2
    case Abort => 3
    case PageWrite => 4
    case Checkpoint => 5
    case Clr => 6
    case Invalid => 0
  }

  // A record: length, checksum of what follows, sequence number, transaction, back link, kind, page,
  // length of the data, the data.
  lemma RecordFormat(r: LogRecord.Record)
    requires LogRecord.Fits(r)
    ensures var f := LogRecord.Frame(Crc, r);
            && |f| == 41 + |r.data| && Num(f, 0, 4) == |f| && Num(f, 4, 8) == Crc(f[8..])
            && Num(f, 8, 16) == r.lsn && Num(f, 16, 24) == r.txn && Num(f, 24, 32) == r.prev
            && f[32] as nat == KindNumber(r.kind) && Num(f, 33, 37) == r.page && Num(f, 37, 41) == |r.data|
            && f[41..] == r.data
  {
    var f := LogRecord.Frame(Crc, r);
    At4(f, 0);
    At4(f, 4);
    At8(f, 8);
    At8(f, 16);
    At8(f, 24);
    At4(f, 33);
    At4(f, 37);
    CrcBound(f[8..]);
    LogRecord.Small(|f|);
    LogRecord.Small(|r.data|);
    LogRecord.Small(Crc(f[8..]));
  }

  // The data of a page write: the length of the before-image, the before-image, the after-image.
  lemma ImagesFormat(before: seq<byte>, after: seq<byte>)
    requires |before| < 0x1_0000_0000
    ensures var d := LogRecord.PageWriteData(before, after);
            && |d| == 4 + |before| + |after| && Num(d, 0, 4) == |before|
            && d[4..4 + |before|] == before && d[4 + |before|..] == after
  {
    var d := LogRecord.PageWriteData(before, after);
    assert d[0..4] == Le32(|before|) == Le32(|before|)[0..4];
    At4(Le32(|before|), 0);
    LogRecord.Small(|before|);
  }
}
