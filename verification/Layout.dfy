// The slotted page: a 16-byte page header, a 10-byte node header, a directory of
// slots growing forward and key/value bytes growing backward from the page's end.
module Layout {
  import opened Bytes
  import opened KeyOrder
  import opened NodeBody

  const HEADER_SIZE: nat := 16
  const LEAF_SLOTS: nat := 26    // HEADER_SIZE + BTREE_HEADER_SIZE
  const INNER_SLOTS: nat := 30   // one more field: the leftmost child
  const LEAF_SLOT_SIZE: nat := 6
  const INNER_SLOT_SIZE: nat := 8

  const INTERNAL_PAGE: byte := 2
  const LEAF_PAGE: byte := 3

  type Image = d: seq<byte> | |d| == PAGE_SIZE witness seq(PAGE_SIZE, i => 0)

  // ----- regions of stored bytes -----

  datatype Region = Region(off: nat, len: nat)

  function Total(rs: seq<Region>): nat {
    if rs == [] then 0 else rs[0].len + Total(rs[1..])
  }

  lemma {:induction false} TotalInsert(rs: seq<Region>, i: nat, r: Region)
    requires i <= |rs|
    ensures Total(Insert(rs, i, r)) == Total(rs) + r.len
  {
    if i == 0 {
      assert Insert(rs, i, r)[1..] == rs;
    } else {
      assert Insert(rs, i, r)[1..] == Insert(rs[1..], i - 1, r);
      TotalInsert(rs[1..], i - 1, r);
    }
  }

  function Frontier(rs: seq<Region>): int {
    PAGE_SIZE - Total(rs)
  }

  /** The regions tile [Frontier, PAGE_SIZE) without overlap and stay clear of the directory. */
  ghost predicate Packed(rs: seq<Region>, slotsEnd: nat) {
    && slotsEnd <= Frontier(rs)
    && (forall i :: 0 <= i < |rs| ==> Frontier(rs) <= rs[i].off && rs[i].off + rs[i].len <= PAGE_SIZE)
    && (rs != [] ==> exists i :: 0 <= i < |rs| && rs[i].off == Frontier(rs))
    && (forall i, j {:trigger Apart(rs[i], rs[j])} :: 0 <= i < j < |rs| ==> Apart(rs[i], rs[j]))
  }

  ghost predicate Apart(a: Region, b: Region) {
    a.off + a.len <= b.off || b.off + b.len <= a.off
  }

  lemma FrontierIsLowest(rs: seq<Region>, slotsEnd: nat, w: nat)
    requires Packed(rs, slotsEnd) && w < |rs| && forall j :: 0 <= j < |rs| ==> rs[w].off <= rs[j].off
    ensures rs[w].off == Frontier(rs)
  {
  }

  lemma PackedInsert(rs: seq<Region>, slotsEnd: nat, i: nat, len: nat, rs': seq<Region>, slotsEnd': nat)
    requires Packed(rs, slotsEnd) && i <= |rs| && slotsEnd' + len <= Frontier(rs)
    requires rs' == Insert(rs, i, Region(Frontier(rs) - len, len))
    ensures Packed(rs', slotsEnd') && Frontier(rs') == Frontier(rs) - len
  {
    TotalInsert(rs, i, rs'[i]);
    assert rs'[i].off == Frontier(rs');
    forall a, c | 0 <= a < c < |rs'| ensures Apart(rs'[a], rs'[c]) {
      if a != i && c != i {
        assert Apart(rs[if a < i then a else a - 1], rs[if c < i then c else c - 1]);
      }
    }
  }

  function NumSlots(d: Image): nat {
    U16(d, 5)
  }

  // ----- the slot directory, whatever its slots mean -----

  datatype Kind = LeafKind | InnerKind

  /** Offset of slot `n`, that is, the end of a directory with `n` slots. */
  function End(kind: Kind, n: nat): nat {
    if kind.LeafKind? then LEAF_SLOTS + LEAF_SLOT_SIZE * n else INNER_SLOTS + INNER_SLOT_SIZE * n
  }

  function Raw(d: Image, kind: Kind, i: nat): seq<byte>
    requires End(kind, i + 1) <= PAGE_SIZE
  {
    d[End(kind, i)..End(kind, i + 1)]
  }

  lemma RawFrame(d: Image, d': Image, kind: Kind, i: nat)
    requires End(kind, i + 1) <= PAGE_SIZE && forall b :: End(kind, i) <= b < End(kind, i + 1) ==> d'[b] == d[b]
    ensures Raw(d', kind, i) == Raw(d, kind, i)
  {
  }

  lemma WriteRaw(d: Image, kind: Kind, i: nat, s: seq<byte>, j: nat)
    requires End(kind, i + 1) <= PAGE_SIZE && End(kind, j + 1) <= PAGE_SIZE && |s| == End(kind, 1) - End(kind, 0)
    ensures Raw(Splice(d, End(kind, i), s), kind, j) == if j == i then s else Raw(d, kind, j)
  {
    var d' := Splice(d, End(kind, i), s);
    if j != i {
      RawFrame(d, d', kind, j);
    }
  }

  /** Slots from `j` up to `n` have moved one place up. */
  ghost predicate SlotsMoved(d0: Image, d: Image, kind: Kind, j: nat, n: nat)
    requires j <= n && End(kind, n + 1) <= PAGE_SIZE
  {
    && (forall m :: 0 <= m <= j ==> Raw(d, kind, m) == Raw(d0, kind, m))
    && (forall m :: j < m <= n ==> Raw(d, kind, m) == Raw(d0, kind, m - 1))
    && d[..End(kind, 0)] == d0[..End(kind, 0)]
    && d[End(kind, n + 1)..] == d0[End(kind, n + 1)..]
  }

  /** Slot `i` is new and the ones after it moved up; nothing else touched. */
  ghost predicate SlotOpened(d0: Image, d: Image, kind: Kind, i: nat, n: nat, s: seq<byte>)
    requires i <= n && End(kind, n + 1) <= PAGE_SIZE
  {
    && (forall m :: 0 <= m < i ==> Raw(d, kind, m) == Raw(d0, kind, m))
    && Raw(d, kind, i) == s
    && (forall m :: i < m <= n ==> Raw(d, kind, m) == Raw(d0, kind, m - 1))
    && d[..End(kind, 0)] == d0[..End(kind, 0)]
    && d[End(kind, n + 1)..] == d0[End(kind, n + 1)..]
  }

  lemma MoveSlot(d0: Image, d: Image, kind: Kind, j: nat, n: nat)
    requires 0 < j <= n && End(kind, n + 1) <= PAGE_SIZE && SlotsMoved(d0, d, kind, j, n)
    ensures SlotsMoved(d0, Splice(d, End(kind, j), Raw(d, kind, j - 1)), kind, j - 1, n)
  {
    var s := Raw(d, kind, j - 1);
    var d' := Splice(d, End(kind, j), s);
    forall m | 0 <= m <= n ensures Raw(d', kind, m) == if m == j then s else Raw(d, kind, m) {
      WriteRaw(d, kind, j, s, m);
    }
    SpliceFrame(d, End(kind, j), s, End(kind, 0), End(kind, n + 1));
    MovedOnce(d0, d, d', kind, j, n);
  }

  lemma MovedOnce(d0: Image, d: Image, d': Image, kind: Kind, j: nat, n: nat)
    requires 0 < j <= n && End(kind, n + 1) <= PAGE_SIZE && SlotsMoved(d0, d, kind, j, n)
    requires forall m :: 0 <= m <= n ==> Raw(d', kind, m) == if m == j then Raw(d, kind, j - 1) else Raw(d, kind, m)
    requires d'[..End(kind, 0)] == d[..End(kind, 0)] && d'[End(kind, n + 1)..] == d[End(kind, n + 1)..]
    ensures SlotsMoved(d0, d', kind, j - 1, n)
  {
  }

  lemma SpliceFrame(d: seq<byte>, off: nat, xs: seq<byte>, a: nat, b: nat)
    requires a <= off && off + |xs| <= b <= |d|
    ensures Splice(d, off, xs)[..a] == d[..a] && Splice(d, off, xs)[b..] == d[b..]
  {
  }

  lemma OpenSlot(d0: Image, d: Image, kind: Kind, i: nat, n: nat, s: seq<byte>)
    requires i <= n && End(kind, n + 1) <= PAGE_SIZE && SlotsMoved(d0, d, kind, i, n)
    requires |s| == End(kind, 1) - End(kind, 0)
    ensures SlotOpened(d0, Splice(d, End(kind, i), s), kind, i, n, s)
  {
    var d' := Splice(d, End(kind, i), s);
    forall m | 0 <= m <= n ensures Raw(d', kind, m) == if m == i then s else Raw(d, kind, m) {
      WriteRaw(d, kind, i, s, m);
    }
    SpliceFrame(d, End(kind, i), s, End(kind, 0), End(kind, n + 1));
  }

  /** A new entry on the page: its bytes at `off`, its slot at index `i`, one more slot. */
  ghost predicate PlacedAs(d: Image, d': Image, kind: Kind, i: nat, off: nat, xs: seq<byte>, s: seq<byte>)
    requires i <= NumSlots(d) && End(kind, NumSlots(d) + 1) <= off && off + |xs| <= PAGE_SIZE
  {
    && d'[..5] == d[..5] && d'[7..End(kind, 0)] == d[7..End(kind, 0)] && NumSlots(d') == NumSlots(d) + 1
    && d'[off..off + |xs|] == xs && d'[off + |xs|..] == d[off + |xs|..]
    && (forall m :: 0 <= m < i ==> Raw(d', kind, m) == Raw(d, kind, m))
    && Raw(d', kind, i) == s
    && (forall m :: i < m <= NumSlots(d) ==> Raw(d', kind, m) == Raw(d, kind, m - 1))
  }

  lemma Placed(d: Image, d1: Image, d2: Image, d3: Image, kind: Kind, i: nat, off: nat, xs: seq<byte>, s: seq<byte>)
    requires i <= NumSlots(d) && End(kind, NumSlots(d) + 1) <= off && off + |xs| <= PAGE_SIZE
    requires d1[off..off + |xs|] == xs && d1[off + |xs|..] == d[off + |xs|..] && d1[..off] == d[..off]
    requires SlotOpened(d1, d2, kind, i, NumSlots(d), s)
    requires NumSlots(d3) == NumSlots(d) + 1 && d3[..5] == d2[..5] && d3[7..] == d2[7..]
    ensures PlacedAs(d, d3, kind, i, off, xs, s)
  {
    var n, f := NumSlots(d), off + |xs|;
    SuffixKept(d1, d2, End(kind, n + 1), off, f);
    SuffixKept(d2, d3, 7, off, f);
    PlacedHeader(d, d1, d2, d3, End(kind, 0), off);
    forall m | 0 <= m <= n ensures Raw(d3, kind, m) == Raw(d2, kind, m) { RawSuffix(d2, d3, kind, m); }
    forall m | 0 <= m < n ensures Raw(d1, kind, m) == Raw(d, kind, m) { RawPrefix(d, d1, kind, m, off); }
  }

  lemma RawSuffix(d: Image, d': Image, kind: Kind, m: nat)
    requires End(kind, m + 1) <= PAGE_SIZE && d'[7..] == d[7..]
    ensures Raw(d', kind, m) == Raw(d, kind, m)
  {
    SuffixKept(d, d', 7, End(kind, m), End(kind, m + 1));
  }

  lemma RawPrefix(d: Image, d': Image, kind: Kind, m: nat, off: nat)
    requires End(kind, m + 1) <= off <= PAGE_SIZE && d'[..off] == d[..off]
    ensures Raw(d', kind, m) == Raw(d, kind, m)
  {
    PrefixKept(d, d', off, End(kind, m), End(kind, m + 1));
  }

  lemma PrefixKept(d: Image, d': Image, off: nat, a: nat, c: nat)
    requires a <= c <= off <= PAGE_SIZE && d'[..off] == d[..off]
    ensures d'[a..c] == d[a..c]
  {
    assert d[a..c] == d[..off][a..c] && d'[a..c] == d'[..off][a..c];
  }

  lemma FieldKept(d: Image, d': Image, h: nat, off: nat)
    requires 7 <= off && off + 4 <= h <= PAGE_SIZE && d'[7..h] == d[7..h]
    ensures U32(d', off) == U32(d, off)
  {
    assert forall b :: off <= b < off + 4 ==> d'[b] == d'[7..h][b - 7] == d[7..h][b - 7] == d[b];
  }

  lemma PlacedHeader(d: Image, d1: Image, d2: Image, d3: Image, h: nat, off: nat)
    requires 7 <= h <= off <= PAGE_SIZE && d1[..off] == d[..off] && d2[..h] == d1[..h]
    requires d3[..5] == d2[..5] && d3[7..] == d2[7..]
    ensures d3[..5] == d[..5] && d3[7..h] == d[7..h]
  {
    assert d[..h] == d[..off][..h] == d1[..off][..h] == d1[..h];
    assert d2[..5] == d2[..h][..5] == d[..h][..5] == d[..5];
    assert d3[7..h] == d3[7..][..h - 7] == d2[7..][..h - 7] == d2[..h][7..] == d[..h][7..] == d[7..h];
  }

  // Unchanged from `a` on means unchanged on any later stretch.
  lemma SuffixKept(d: Image, d': Image, a: nat, off: nat, f: nat)
    requires a <= off <= f <= PAGE_SIZE && d'[a..] == d[a..]
    ensures d'[off..f] == d[off..f] && d'[f..] == d[f..]
  {
    SliceOfSuffix(d, a, off, f);
    SliceOfSuffix(d', a, off, f);
  }

  lemma SliceOfSuffix(d: seq<byte>, a: nat, off: nat, f: nat)
    requires a <= off <= f <= |d|
    ensures d[a..][off - a..f - a] == d[off..f] && d[a..][f - a..] == d[f..]
  {
  }

  // ----- leaf pages -----

  datatype LeafSlot = LeafSlot(off: nat, klen: nat, vlen: nat)

  function LeafSlotAt(d: Image, i: nat): LeafSlot
    requires LEAF_SLOTS + LEAF_SLOT_SIZE * (i + 1) <= PAGE_SIZE
  {
    var o := LEAF_SLOTS + LEAF_SLOT_SIZE * i;
    LeafSlot(U16(d, o), U16(d, o + 2), U16(d, o + 4))
  }

  function LeafEnd(n: nat): nat {
    End(LeafKind, n)
  }

  function LeafRegions(d: Image): (rs: seq<Region>)
    requires LeafEnd(NumSlots(d)) <= PAGE_SIZE
    ensures |rs| == NumSlots(d)
  {
    seq(NumSlots(d), i requires 0 <= i < NumSlots(d) =>
      Region(LeafSlotAt(d, i).off, LeafSlotAt(d, i).klen + LeafSlotAt(d, i).vlen))
  }

  ghost predicate LeafPage(d: Image) {
    && d[4] == LEAF_PAGE
    && LeafEnd(NumSlots(d)) <= PAGE_SIZE
    && Packed(LeafRegions(d), LeafEnd(NumSlots(d)))
  }

  function LeafEntryAt(d: Image, s: LeafSlot): (Key, Value)
    requires s.off + s.klen + s.vlen <= PAGE_SIZE
  {
    (d[s.off..s.off + s.klen], d[s.off + s.klen..s.off + s.klen + s.vlen])
  }

  lemma LeafSlotInPage(d: Image, i: nat)
    requires LeafPage(d) && i < NumSlots(d)
    ensures LEAF_SLOTS + LEAF_SLOT_SIZE * (i + 1) <= PAGE_SIZE
    ensures var s := LeafSlotAt(d, i); Frontier(LeafRegions(d)) <= s.off && s.off + s.klen + s.vlen <= PAGE_SIZE
  {
    assert LeafRegions(d)[i] == Region(LeafSlotAt(d, i).off, LeafSlotAt(d, i).klen + LeafSlotAt(d, i).vlen);
  }

  ghost function LeafEntries(d: Image): (es: seq<(Key, Value)>)
    requires LeafPage(d)
    ensures |es| == NumSlots(d)
  {
    seq(NumSlots(d), i requires 0 <= i < NumSlots(d) =>
      (LeafSlotInPage(d, i); LeafEntryAt(d, LeafSlotAt(d, i))))
  }

  /** Bytes a sequence of entries takes up, slots included. */
  function EntrySize(e: (Key, Value)): nat {
    LEAF_SLOT_SIZE + |e.0| + |e.1|
  }

  function LeafSize(es: seq<(Key, Value)>): nat {
    if es == [] then 0 else EntrySize(es[0]) + LeafSize(es[1..])
  }

  const LEAF_ROOM: nat := 4070   // PAGE_SIZE - LEAF_SLOTS

  lemma {:induction false} LeafSizeIsTotal(es: seq<(Key, Value)>, rs: seq<Region>)
    requires |es| == |rs| && forall i :: 0 <= i < |es| ==> |es[i].0| + |es[i].1| == rs[i].len
    ensures LeafSize(es) == Total(rs) + LEAF_SLOT_SIZE * |es|
  {
    if es != [] {
      LeafSizeIsTotal(es[1..], rs[1..]);
    }
  }

  lemma {:induction false} LeafSizeInsert(es: seq<(Key, Value)>, i: nat, e: (Key, Value))
    requires i <= |es|
    ensures LeafSize(Insert(es, i, e)) == LeafSize(es) + EntrySize(e)
  {
    if i == 0 {
      assert Insert(es, i, e)[1..] == es;
    } else {
      assert Insert(es, i, e)[1..] == Insert(es[1..], i - 1, e);
      LeafSizeInsert(es[1..], i - 1, e);
    }
  }

  lemma {:induction false} LeafSizeConcat(a: seq<(Key, Value)>, b: seq<(Key, Value)>)
    ensures LeafSize(a + b) == LeafSize(a) + LeafSize(b)
  {
    if a == [] {
      assert a + b == b;
    } else {
      assert (a + b)[1..] == a[1..] + b;
      LeafSizeConcat(a[1..], b);
    }
  }

  lemma LeafSizeRemove(es: seq<(Key, Value)>, i: nat)
    requires i < |es|
    ensures LeafSize(Remove(es, i)) <= LeafSize(es)
  {
    InsertRemoved(es, i);
    LeafSizeInsert(Remove(es, i), i, es[i]);
  }

  lemma LeafSizePrefix(es: seq<(Key, Value)>, i: nat)
    requires i <= |es|
    ensures LeafSize(es[..i]) <= LeafSize(es)
  {
    assert es == es[..i] + es[i..];
    LeafSizeConcat(es[..i], es[i..]);
  }

  // The free gap is exactly what the stored entries leave over.
  lemma LeafRoom(d: Image)
    requires LeafPage(d)
    ensures LeafSize(LeafEntries(d)) == Total(LeafRegions(d)) + LEAF_SLOT_SIZE * NumSlots(d)
    ensures Frontier(LeafRegions(d)) - LeafEnd(NumSlots(d)) == LEAF_ROOM - LeafSize(LeafEntries(d))
  {
    forall i | 0 <= i < NumSlots(d)
      ensures |LeafEntries(d)[i].0| + |LeafEntries(d)[i].1| == LeafRegions(d)[i].len
    {
      LeafSlotInPage(d, i);
    }
    LeafSizeIsTotal(LeafEntries(d), LeafRegions(d));
  }

  /** What one new entry changes on the page, data going right below offset `f`. */
  ghost predicate LeafInserted(d: Image, d': Image, i: nat, f: nat, k: Key, v: Value)
    requires i <= NumSlots(d) && LeafEnd(NumSlots(d) + 1) <= PAGE_SIZE && |k| + |v| <= f <= PAGE_SIZE
  {
    && d'[4] == LEAF_PAGE && NumSlots(d') == NumSlots(d) + 1
    && (forall j :: 0 <= j < i ==> LeafSlotAt(d', j) == LeafSlotAt(d, j))
    && LeafSlotAt(d', i) == LeafSlot(f - |k| - |v|, |k|, |v|)
    && (forall j :: i < j <= NumSlots(d) ==> LeafSlotAt(d', j) == LeafSlotAt(d, j - 1))
    && d'[f - |k| - |v|..f] == k + v
    && d'[f..] == d[f..]
  }

  function LeafSlotBytes(s: LeafSlot): (bs: seq<byte>)
    ensures |bs| == LEAF_SLOT_SIZE
  {
    Le16(s.off) + Le16(s.klen) + Le16(s.vlen)
  }

  lemma LeafSlotDecode(d: Image, i: nat, s: LeafSlot)
    requires LeafEnd(i + 1) <= PAGE_SIZE && s.off < 0x1_0000 && s.klen < 0x1_0000 && s.vlen < 0x1_0000
    requires Raw(d, LeafKind, i) == LeafSlotBytes(s)
    ensures LeafSlotAt(d, i) == s
  {
    var bs, o := LeafSlotBytes(s), LeafEnd(i);
    assert forall b :: 0 <= b < 6 ==> d[o + b] == bs[b];
    assert bs[0] == Le16(s.off)[0] && bs[1] == Le16(s.off)[1] && bs[2] == Le16(s.klen)[0]
        && bs[3] == Le16(s.klen)[1] && bs[4] == Le16(s.vlen)[0] && bs[5] == Le16(s.vlen)[1];
  }

  lemma LeafSlotSame(d: Image, i: nat, d': Image, j: nat)
    requires LeafEnd(i + 1) <= PAGE_SIZE && LeafEnd(j + 1) <= PAGE_SIZE
    requires Raw(d, LeafKind, i) == Raw(d', LeafKind, j)
    ensures LeafSlotAt(d, i) == LeafSlotAt(d', j)
  {
    assert forall b :: 0 <= b < 6 ==> Raw(d, LeafKind, i)[b] == d[LeafEnd(i) + b];
    assert forall b :: 0 <= b < 6 ==> Raw(d', LeafKind, j)[b] == d'[LeafEnd(j) + b];
  }

  lemma LeafPlaced(d: Image, d3: Image, i: nat, off: nat, k: Key, v: Value)
    requires d[4] == LEAF_PAGE && i <= NumSlots(d) && LeafEnd(NumSlots(d) + 1) <= off && off + |k| + |v| <= PAGE_SIZE
    requires PlacedAs(d, d3, LeafKind, i, off, k + v, LeafSlotBytes(LeafSlot(off, |k|, |v|)))
    ensures LeafInserted(d, d3, i, off + |k| + |v|, k, v)
    ensures U32(d3, HEADER_SIZE) == U32(d, HEADER_SIZE) && U32(d3, HEADER_SIZE + 4) == U32(d, HEADER_SIZE + 4)
  {
    assert d3[4] == d3[..5][4] == d[4];
    FieldKept(d, d3, LEAF_SLOTS, HEADER_SIZE);
    FieldKept(d, d3, LEAF_SLOTS, HEADER_SIZE + 4);
    LeafSlotsPlaced(d, d3, i, LeafSlot(off, |k|, |v|));
  }

  lemma LeafSlotsPlaced(d: Image, d3: Image, i: nat, s: LeafSlot)
    requires i <= NumSlots(d) && LeafEnd(NumSlots(d) + 1) <= PAGE_SIZE && s.off < 0x1_0000 && s.klen < 0x1_0000
    requires s.vlen < 0x1_0000
    requires forall m :: 0 <= m < i ==> Raw(d3, LeafKind, m) == Raw(d, LeafKind, m)
    requires Raw(d3, LeafKind, i) == LeafSlotBytes(s)
    requires forall m :: i < m <= NumSlots(d) ==> Raw(d3, LeafKind, m) == Raw(d, LeafKind, m - 1)
    ensures forall m :: 0 <= m < i ==> LeafSlotAt(d3, m) == LeafSlotAt(d, m)
    ensures LeafSlotAt(d3, i) == s
    ensures forall m :: i < m <= NumSlots(d) ==> LeafSlotAt(d3, m) == LeafSlotAt(d, m - 1)
  {
    LeafSlotDecode(d3, i, s);
    forall m | 0 <= m < i ensures LeafSlotAt(d3, m) == LeafSlotAt(d, m) { LeafSlotSame(d3, m, d, m); }
    forall m | i < m <= NumSlots(d) ensures LeafSlotAt(d3, m) == LeafSlotAt(d, m - 1) { LeafSlotSame(d3, m, d, m - 1); }
  }

  lemma LeafInsertRegions(d: Image, d': Image, i: nat, f: nat, k: Key, v: Value)
    requires i <= NumSlots(d) && LeafEnd(NumSlots(d) + 1) <= PAGE_SIZE && |k| + |v| <= f <= PAGE_SIZE
    requires LeafInserted(d, d', i, f, k, v)
    ensures LeafRegions(d') == Insert(LeafRegions(d), i, Region(f - |k| - |v|, |k| + |v|))
  {
    var rs, rs' := LeafRegions(d), LeafRegions(d');
    var r := Region(f - |k| - |v|, |k| + |v|);
    forall j | 0 <= j < |rs'| ensures rs'[j] == Insert(rs, i, r)[j] {
      if j < i {
        assert LeafSlotAt(d', j) == LeafSlotAt(d, j);
      } else if j > i {
        assert LeafSlotAt(d', j) == LeafSlotAt(d, j - 1);
      }
    }
  }

  ghost predicate LeafFits(d: Image, k: Key, v: Value) {
    LeafPage(d) && LeafEnd(NumSlots(d) + 1) + |k| + |v| <= Frontier(LeafRegions(d))
  }

  lemma LeafInsertPage(d: Image, d': Image, i: nat, k: Key, v: Value)
    requires LeafFits(d, k, v) && i <= NumSlots(d)
    requires LeafInserted(d, d', i, Frontier(LeafRegions(d)), k, v)
    ensures LeafPage(d')
  {
    LeafInsertRegions(d, d', i, Frontier(LeafRegions(d)), k, v);
    LeafRegionsFit(d, d', i, k, v);
  }

  lemma LeafRegionsFit(d: Image, d': Image, i: nat, k: Key, v: Value)
    requires LeafFits(d, k, v) && i <= NumSlots(d) && d'[4] == LEAF_PAGE && NumSlots(d') == NumSlots(d) + 1
    requires LeafRegions(d') == Insert(LeafRegions(d), i, Region(Frontier(LeafRegions(d)) - |k| - |v|, |k| + |v|))
    ensures LeafPage(d')
  {
    var n, rs, len := NumSlots(d), LeafRegions(d), |k| + |v|;
    assert Frontier(rs) - |k| - |v| == Frontier(rs) - len;
    PackedInsert(rs, LeafEnd(n), i, len, LeafRegions(d'), LeafEnd(n + 1));
  }

  lemma LeafInsertEntries(d: Image, d': Image, i: nat, k: Key, v: Value)
    requires LeafFits(d, k, v) && i <= NumSlots(d)
    requires LeafInserted(d, d', i, Frontier(LeafRegions(d)), k, v)
    ensures LeafPage(d') && LeafEntries(d') == Insert(LeafEntries(d), i, (k, v))
  {
    LeafInsertPage(d, d', i, k, v);
    var es, es' := LeafEntries(d), LeafEntries(d');
    forall j | 0 <= j < |es'| ensures es'[j] == Insert(es, i, (k, v))[j] {
      LeafInsertEntry(d, d', i, k, v, j);
    }
  }

  lemma LeafInsertEntry(d: Image, d': Image, i: nat, k: Key, v: Value, j: nat)
    requires LeafFits(d, k, v) && i <= NumSlots(d) && j <= NumSlots(d) && LeafPage(d')
    requires LeafInserted(d, d', i, Frontier(LeafRegions(d)), k, v)
    ensures LeafEntries(d')[j] == Insert(LeafEntries(d), i, (k, v))[j]
  {
    if j == i {
      LeafNewEntry(d, d', i, k, v);
    } else {
      LeafOtherEntry(d, d', i, k, v, j, if j < i then j else j - 1);
    }
  }

  lemma LeafNewEntry(d: Image, d': Image, i: nat, k: Key, v: Value)
    requires LeafFits(d, k, v) && i <= NumSlots(d) && LeafPage(d')
    requires LeafInserted(d, d', i, Frontier(LeafRegions(d)), k, v)
    ensures LeafEntries(d')[i] == (k, v)
  {
    LeafEntryIs(d', i);
    LeafEntryNew(d', Frontier(LeafRegions(d)), k, v);
  }

  lemma LeafEntryIs(d: Image, j: nat)
    requires LeafPage(d) && j < NumSlots(d)
    ensures LeafEnd(j + 1) <= PAGE_SIZE
    ensures var s := LeafSlotAt(d, j); s.off + s.klen + s.vlen <= PAGE_SIZE && LeafEntries(d)[j] == LeafEntryAt(d, s)
  {
    LeafSlotInPage(d, j);
  }

  lemma LeafOtherEntry(d: Image, d': Image, i: nat, k: Key, v: Value, j: nat, j0: nat)
    requires LeafFits(d, k, v) && i <= NumSlots(d) && j <= NumSlots(d) && j != i && j0 == (if j < i then j else j - 1)
    requires LeafInserted(d, d', i, Frontier(LeafRegions(d)), k, v) && LeafPage(d')
    ensures LeafEntries(d')[j] == LeafEntries(d)[j0]
  {
    LeafEntryIs(d', j);
    LeafEntryIs(d, j0);
    LeafSlotInPage(d, j0);
    LeafEntryKept(d, d', Frontier(LeafRegions(d)), LeafSlotAt(d, j0));
  }

  lemma HalvesOf(d: seq<byte>, o: nat, f: nat, k: seq<byte>, v: seq<byte>)
    requires o <= f <= |d| && d[o..f] == k + v
    ensures f == o + |k| + |v| && d[o..o + |k|] == k && d[o + |k|..f] == v
  {
    assert d[o..o + |k|] == d[o..f][..|k|];
    assert d[o + |k|..f] == d[o..f][|k|..];
  }

  lemma LeafEntryNew(d: Image, f: nat, k: Key, v: Value)
    requires |k| + |v| <= f <= PAGE_SIZE && d[f - |k| - |v|..f] == k + v
    ensures LeafEntryAt(d, LeafSlot(f - |k| - |v|, |k|, |v|)) == (k, v)
  {
    HalvesOf(d, f - |k| - |v|, f, k, v);
  }

  lemma LeafEntryKept(d: Image, d': Image, f: nat, s: LeafSlot)
    requires f <= s.off && s.off + s.klen + s.vlen <= PAGE_SIZE && d'[f..] == d[f..]
    ensures LeafEntryAt(d', s) == LeafEntryAt(d, s)
  {
    SuffixKept(d, d', f, s.off, s.off + s.klen);
    SuffixKept(d, d', f, s.off + s.klen, s.off + s.klen + s.vlen);
  }

  // ----- internal pages -----

  datatype InnerSlot = InnerSlot(off: nat, klen: nat, child: PageId)

  function InnerEnd(n: nat): nat {
    End(InnerKind, n)
  }

  function InnerSlotAt(d: Image, i: nat): InnerSlot
    requires InnerEnd(i + 1) <= PAGE_SIZE
  {
    var o := INNER_SLOTS + INNER_SLOT_SIZE * i;
    InnerSlot(U16(d, o), U16(d, o + 2), U32(d, o + 4))
  }

  function InnerRegions(d: Image): (rs: seq<Region>)
    requires InnerEnd(NumSlots(d)) <= PAGE_SIZE
    ensures |rs| == NumSlots(d)
  {
    seq(NumSlots(d), i requires 0 <= i < NumSlots(d) => Region(InnerSlotAt(d, i).off, InnerSlotAt(d, i).klen))
  }

  ghost predicate InnerPage(d: Image) {
    && d[4] == INTERNAL_PAGE
    && InnerEnd(NumSlots(d)) <= PAGE_SIZE
    && Packed(InnerRegions(d), InnerEnd(NumSlots(d)))
  }

  function SepAt(d: Image, s: InnerSlot): (Key, PageId)
    requires s.off + s.klen <= PAGE_SIZE
  {
    (d[s.off..s.off + s.klen], s.child)
  }

  lemma InnerSlotInPage(d: Image, i: nat)
    requires InnerPage(d) && i < NumSlots(d)
    ensures InnerEnd(i + 1) <= PAGE_SIZE
    ensures var s := InnerSlotAt(d, i); Frontier(InnerRegions(d)) <= s.off && s.off + s.klen <= PAGE_SIZE
  {
    assert InnerRegions(d)[i] == Region(InnerSlotAt(d, i).off, InnerSlotAt(d, i).klen);
  }

  ghost function Seps(d: Image): (es: seq<(Key, PageId)>)
    requires InnerPage(d)
    ensures |es| == NumSlots(d)
  {
    seq(NumSlots(d), i requires 0 <= i < NumSlots(d) => (InnerSlotInPage(d, i); SepAt(d, InnerSlotAt(d, i))))
  }

  function SepSize(e: (Key, PageId)): nat {
    INNER_SLOT_SIZE + |e.0|
  }

  function InnerSize(es: seq<(Key, PageId)>): nat {
    if es == [] then 0 else SepSize(es[0]) + InnerSize(es[1..])
  }

  const INNER_ROOM: nat := 4066   // PAGE_SIZE - INNER_SLOTS

  lemma {:induction false} InnerSizeIsTotal(es: seq<(Key, PageId)>, rs: seq<Region>)
    requires |es| == |rs| && forall i :: 0 <= i < |es| ==> |es[i].0| == rs[i].len
    ensures InnerSize(es) == Total(rs) + INNER_SLOT_SIZE * |es|
  {
    if es != [] {
      InnerSizeIsTotal(es[1..], rs[1..]);
    }
  }

  lemma {:induction false} InnerSizeInsert(es: seq<(Key, PageId)>, i: nat, e: (Key, PageId))
    requires i <= |es|
    ensures InnerSize(Insert(es, i, e)) == InnerSize(es) + SepSize(e)
  {
    if i == 0 {
      assert Insert(es, i, e)[1..] == es;
    } else {
      assert Insert(es, i, e)[1..] == Insert(es[1..], i - 1, e);
      InnerSizeInsert(es[1..], i - 1, e);
    }
  }

  lemma {:induction false} InnerSizeConcat(a: seq<(Key, PageId)>, b: seq<(Key, PageId)>)
    ensures InnerSize(a + b) == InnerSize(a) + InnerSize(b)
  {
    if a == [] {
      assert a + b == b;
    } else {
      assert (a + b)[1..] == a[1..] + b;
      InnerSizeConcat(a[1..], b);
    }
  }

  lemma InnerSizePrefix(es: seq<(Key, PageId)>, i: nat)
    requires i <= |es|
    ensures InnerSize(es[..i]) <= InnerSize(es)
  {
    assert es == es[..i] + es[i..];
    InnerSizeConcat(es[..i], es[i..]);
  }

  lemma InnerRoom(d: Image)
    requires InnerPage(d)
    ensures InnerSize(Seps(d)) == Total(InnerRegions(d)) + INNER_SLOT_SIZE * NumSlots(d)
    ensures Frontier(InnerRegions(d)) - InnerEnd(NumSlots(d)) == INNER_ROOM - InnerSize(Seps(d))
  {
    forall i | 0 <= i < NumSlots(d) ensures |Seps(d)[i].0| == InnerRegions(d)[i].len {
      InnerSlotInPage(d, i);
    }
    InnerSizeIsTotal(Seps(d), InnerRegions(d));
  }

  ghost predicate InnerInserted(d: Image, d': Image, i: nat, f: nat, k: Key, c: PageId)
    requires i <= NumSlots(d) && InnerEnd(NumSlots(d) + 1) <= PAGE_SIZE && |k| <= f <= PAGE_SIZE
  {
    && d'[4] == INTERNAL_PAGE && NumSlots(d') == NumSlots(d) + 1
    && (forall j :: 0 <= j < i ==> InnerSlotAt(d', j) == InnerSlotAt(d, j))
    && InnerSlotAt(d', i) == InnerSlot(f - |k|, |k|, c)
    && (forall j :: i < j <= NumSlots(d) ==> InnerSlotAt(d', j) == InnerSlotAt(d, j - 1))
    && d'[f - |k|..f] == k
    && d'[f..] == d[f..]
  }

  function InnerSlotBytes(s: InnerSlot): (bs: seq<byte>)
    ensures |bs| == INNER_SLOT_SIZE
  {
    Le16(s.off) + Le16(s.klen) + Le32(s.child)
  }

  lemma InnerSlotDecode(d: Image, i: nat, s: InnerSlot)
    requires InnerEnd(i + 1) <= PAGE_SIZE && s.off < 0x1_0000 && s.klen < 0x1_0000
    requires Raw(d, InnerKind, i) == InnerSlotBytes(s)
    ensures InnerSlotAt(d, i) == s
  {
    var bs, o := InnerSlotBytes(s), InnerEnd(i);
    assert forall b :: 0 <= b < 8 ==> d[o + b] == bs[b];
    assert bs[0] == Le16(s.off)[0] && bs[1] == Le16(s.off)[1] && bs[2] == Le16(s.klen)[0] && bs[3] == Le16(s.klen)[1];
    assert forall b :: 0 <= b < 4 ==> bs[4 + b] == Le32(s.child)[b];
    assert U32(d, o + 4) == U32(Le32(s.child), 0);
  }

  lemma InnerSlotSame(d: Image, i: nat, d': Image, j: nat)
    requires InnerEnd(i + 1) <= PAGE_SIZE && InnerEnd(j + 1) <= PAGE_SIZE
    requires Raw(d, InnerKind, i) == Raw(d', InnerKind, j)
    ensures InnerSlotAt(d, i) == InnerSlotAt(d', j)
  {
    assert forall b :: 0 <= b < 8 ==> Raw(d, InnerKind, i)[b] == d[InnerEnd(i) + b];
    assert forall b :: 0 <= b < 8 ==> Raw(d', InnerKind, j)[b] == d'[InnerEnd(j) + b];
  }

  lemma InnerPlaced(d: Image, d3: Image, i: nat, off: nat, k: Key, c: PageId)
    requires d[4] == INTERNAL_PAGE && i <= NumSlots(d) && InnerEnd(NumSlots(d) + 1) <= off && off + |k| <= PAGE_SIZE
    requires PlacedAs(d, d3, InnerKind, i, off, k, InnerSlotBytes(InnerSlot(off, |k|, c)))
    ensures InnerInserted(d, d3, i, off + |k|, k, c)
    ensures U32(d3, LEAF_SLOTS) == U32(d, LEAF_SLOTS) && U32(d3, HEADER_SIZE + 4) == U32(d, HEADER_SIZE + 4)
  {
    assert d3[4] == d3[..5][4] == d[4];
    FieldKept(d, d3, INNER_SLOTS, LEAF_SLOTS);
    FieldKept(d, d3, INNER_SLOTS, HEADER_SIZE + 4);
    InnerSlotsPlaced(d, d3, i, InnerSlot(off, |k|, c));
  }

  lemma InnerSlotsPlaced(d: Image, d3: Image, i: nat, s: InnerSlot)
    requires i <= NumSlots(d) && InnerEnd(NumSlots(d) + 1) <= PAGE_SIZE && s.off < 0x1_0000 && s.klen < 0x1_0000
    requires forall m :: 0 <= m < i ==> Raw(d3, InnerKind, m) == Raw(d, InnerKind, m)
    requires Raw(d3, InnerKind, i) == InnerSlotBytes(s)
    requires forall m :: i < m <= NumSlots(d) ==> Raw(d3, InnerKind, m) == Raw(d, InnerKind, m - 1)
    ensures forall m :: 0 <= m < i ==> InnerSlotAt(d3, m) == InnerSlotAt(d, m)
    ensures InnerSlotAt(d3, i) == s
    ensures forall m :: i < m <= NumSlots(d) ==> InnerSlotAt(d3, m) == InnerSlotAt(d, m - 1)
  {
    InnerSlotDecode(d3, i, s);
    forall m | 0 <= m < i ensures InnerSlotAt(d3, m) == InnerSlotAt(d, m) { InnerSlotSame(d3, m, d, m); }
    forall m | i < m <= NumSlots(d) ensures InnerSlotAt(d3, m) == InnerSlotAt(d, m - 1) {
      InnerSlotSame(d3, m, d, m - 1);
    }
  }

  lemma InnerInsertRegions(d: Image, d': Image, i: nat, f: nat, k: Key, c: PageId)
    requires i <= NumSlots(d) && InnerEnd(NumSlots(d) + 1) <= PAGE_SIZE && |k| <= f <= PAGE_SIZE
    requires InnerInserted(d, d', i, f, k, c)
    ensures InnerRegions(d') == Insert(InnerRegions(d), i, Region(f - |k|, |k|))
  {
    var rs, rs' := InnerRegions(d), InnerRegions(d');
    forall j | 0 <= j < |rs'| ensures rs'[j] == Insert(rs, i, Region(f - |k|, |k|))[j] {
      if j < i {
        assert InnerSlotAt(d', j) == InnerSlotAt(d, j);
      } else if j > i {
        assert InnerSlotAt(d', j) == InnerSlotAt(d, j - 1);
      }
    }
  }

  ghost predicate InnerFits(d: Image, k: Key) {
    InnerPage(d) && InnerEnd(NumSlots(d) + 1) + |k| <= Frontier(InnerRegions(d))
  }

  lemma InnerInsertPage(d: Image, d': Image, i: nat, k: Key, c: PageId)
    requires InnerFits(d, k) && i <= NumSlots(d)
    requires InnerInserted(d, d', i, Frontier(InnerRegions(d)), k, c)
    ensures InnerPage(d')
  {
    InnerInsertRegions(d, d', i, Frontier(InnerRegions(d)), k, c);
    InnerRegionsFit(d, d', i, k);
  }

  lemma InnerRegionsFit(d: Image, d': Image, i: nat, k: Key)
    requires InnerFits(d, k) && i <= NumSlots(d) && d'[4] == INTERNAL_PAGE && NumSlots(d') == NumSlots(d) + 1
    requires InnerRegions(d') == Insert(InnerRegions(d), i, Region(Frontier(InnerRegions(d)) - |k|, |k|))
    ensures InnerPage(d')
  {
    PackedInsert(InnerRegions(d), InnerEnd(NumSlots(d)), i, |k|, InnerRegions(d'), InnerEnd(NumSlots(d) + 1));
  }

  lemma InnerInsertEntries(d: Image, d': Image, i: nat, k: Key, c: PageId)
    requires InnerFits(d, k) && i <= NumSlots(d)
    requires InnerInserted(d, d', i, Frontier(InnerRegions(d)), k, c)
    ensures InnerPage(d') && Seps(d') == Insert(Seps(d), i, (k, c))
  {
    InnerInsertPage(d, d', i, k, c);
    var es, es' := Seps(d), Seps(d');
    forall j | 0 <= j < |es'| ensures es'[j] == Insert(es, i, (k, c))[j] {
      InnerInsertEntry(d, d', i, k, c, j);
    }
  }

  lemma InnerInsertEntry(d: Image, d': Image, i: nat, k: Key, c: PageId, j: nat)
    requires InnerFits(d, k) && i <= NumSlots(d) && j <= NumSlots(d) && InnerPage(d')
    requires InnerInserted(d, d', i, Frontier(InnerRegions(d)), k, c)
    ensures Seps(d')[j] == Insert(Seps(d), i, (k, c))[j]
  {
    if j == i {
      SepIs(d', i);
    } else {
      InnerOtherEntry(d, d', i, k, c, j, if j < i then j else j - 1);
    }
  }

  lemma SepIs(d: Image, j: nat)
    requires InnerPage(d) && j < NumSlots(d)
    ensures InnerEnd(j + 1) <= PAGE_SIZE
    ensures var s := InnerSlotAt(d, j); s.off + s.klen <= PAGE_SIZE && Seps(d)[j] == SepAt(d, s)
  {
    InnerSlotInPage(d, j);
  }

  lemma InnerOtherEntry(d: Image, d': Image, i: nat, k: Key, c: PageId, j: nat, j0: nat)
    requires InnerFits(d, k) && i <= NumSlots(d) && j <= NumSlots(d) && j != i && j0 == (if j < i then j else j - 1)
    requires InnerInserted(d, d', i, Frontier(InnerRegions(d)), k, c) && InnerPage(d')
    ensures Seps(d')[j] == Seps(d)[j0]
  {
    SepIs(d', j);
    SepIs(d, j0);
    InnerSlotInPage(d, j0);
    SepKept(d, d', Frontier(InnerRegions(d)), InnerSlotAt(d, j0));
  }

  lemma SepKept(d: Image, d': Image, f: nat, s: InnerSlot)
    requires f <= s.off && s.off + s.klen <= PAGE_SIZE && d'[f..] == d[f..]
    ensures SepAt(d', s) == SepAt(d, s)
  {
    SuffixKept(d, d', f, s.off, s.off + s.klen);
  }

  // ----- nodes -----

  /** A page that holds a node, and the node it holds. */
  ghost predicate NodePage(d: Image) {
    || (LeafPage(d) && Sorted(LeafEntries(d)))
    || (InnerPage(d) && Sorted(Seps(d)))
  }

  ghost function BodyOf(d: Image): Body
    requires NodePage(d)
  {
    if d[4] == LEAF_PAGE then Leaf(LeafEntries(d), U32(d, HEADER_SIZE)) else Inner(U32(d, LEAF_SLOTS), Seps(d))
  }

  function ParentOf(d: Image): PageId {
    U32(d, HEADER_SIZE + 4)
  }

  // The node is in the slot count, the page type and the bytes from the slots on.
  lemma SameLeaf(d: Image, d': Image)
    requires LeafPage(d) && d'[4..7] == d[4..7] && d'[LEAF_SLOTS..] == d[LEAF_SLOTS..]
    ensures LeafPage(d') && LeafEntries(d') == LeafEntries(d)
  {
    assert d'[4] == d'[4..7][0] == d[4] && d'[5] == d'[4..7][1] == d[5] && d'[6] == d'[4..7][2] == d[6];
    var n := NumSlots(d);
    forall i | 0 <= i < n ensures LeafSlotAt(d', i) == LeafSlotAt(d, i) {
      forall b | LEAF_SLOTS <= b < PAGE_SIZE ensures d'[b] == d[b] {
        assert d'[b] == d'[LEAF_SLOTS..][b - LEAF_SLOTS];
      }
    }
    assert LeafRegions(d') == LeafRegions(d);
    forall i | 0 <= i < n ensures LeafEntries(d')[i] == LeafEntries(d)[i] {
      LeafSlotInPage(d, i);
      LeafEntryKept(d, d', LEAF_SLOTS, LeafSlotAt(d, i));
    }
  }

  lemma SameInner(d: Image, d': Image)
    requires InnerPage(d) && d'[4..7] == d[4..7] && d'[INNER_SLOTS..] == d[INNER_SLOTS..]
    ensures InnerPage(d') && Seps(d') == Seps(d)
  {
    assert d'[4] == d'[4..7][0] == d[4] && d'[5] == d'[4..7][1] == d[5] && d'[6] == d'[4..7][2] == d[6];
    var n := NumSlots(d);
    forall i | 0 <= i < n ensures InnerSlotAt(d', i) == InnerSlotAt(d, i) {
      forall b | INNER_SLOTS <= b < PAGE_SIZE ensures d'[b] == d[b] {
        assert d'[b] == d'[INNER_SLOTS..][b - INNER_SLOTS];
      }
    }
    assert InnerRegions(d') == InnerRegions(d);
    forall i | 0 <= i < n ensures Seps(d')[i] == Seps(d)[i] {
      InnerSlotInPage(d, i);
      SepKept(d, d', INNER_SLOTS, InnerSlotAt(d, i));
    }
  }

  // A page with no slots is an empty node.
  lemma EmptyLeaf(d: Image)
    requires d[4] == LEAF_PAGE && NumSlots(d) == 0
    ensures LeafPage(d) && LeafEntries(d) == []
  {
  }

  lemma EmptyInner(d: Image)
    requires d[4] == INTERNAL_PAGE && NumSlots(d) == 0
    ensures InnerPage(d) && Seps(d) == []
  {
  }
}
