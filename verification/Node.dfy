// A B+ tree node as the code handles it: a page buffer changed in place.
// Every method is specified by what it does to the node the bytes stand for.
module NodeCode {
  import opened Bytes
  import opened KeyOrder
  import opened NodeBody
  import opened Layout
  import opened Checksum

  /** Page id, start of the free space, and level in the header of a new node. */
  ghost predicate Titled(d: Image, id: PageId, level: nat) {
    U32(d, 0) == id && U16(d, 7) == 26 && U16(d, 24) == level
  }

  lemma TitleBack(d: Image, id: PageId, level: nat)
    requires d[0..4] == Le32(id) && d[7..9] == Le16(26) && d[24..26] == Le16(level) && level < 0x1_0000
    ensures Titled(d, id, level)
  {
    ReadBack32(d, 0, id);
    ReadBack16(d, 7, 26);
    ReadBack16(d, 24, level);
  }

  lemma ResetFields(d: Image, d1: Image, d2: Image, d3: Image, kind: byte, next: PageId, parent: PageId,
                    id: PageId, level: nat)
    requires d[0..4] == Le32(id) && d[4] == kind && d[5..7] == Le16(0) && d[7..9] == Le16(26) && level < 0x1_0000
    requires d1 == Splice(d, 16, Le32(next)) && d2 == Splice(d1, 20, Le32(parent)) && d3 == Splice(d2, 24, Le16(level))
    ensures d3[4] == kind && NumSlots(d3) == 0 && U32(d3, 16) == next && ParentOf(d3) == parent && Titled(d3, id, level)
  {
    assert d3[0..4] == d[0..4] && d3[5..7] == d[5..7] && d3[7..9] == d[7..9];
    assert d3[16..20] == d1[16..20] == Le32(next);
    assert d3[20..24] == d2[20..24] == Le32(parent);
    assert d3[24..26] == Le16(level);
    ReadBack16(d3, 5, 0);
    ReadBack32(d3, 16, next);
    ReadBack32(d3, 20, parent);
    TitleBack(d3, id, level);
  }

  class Node {
    const id: PageId
    const data: array<byte>

    ghost predicate Buffer()
      reads this
    {
      data.Length == PAGE_SIZE
    }

    ghost function Bytes(): (d: Image)
      requires Buffer()
      reads this, data
    {
      data[..]
    }

    ghost predicate Valid()
      reads this, data
    {
      Buffer() && NodePage(Bytes())
    }

    ghost predicate IsLeafNode()
      reads this, data
    {
      Valid() && LeafPage(Bytes())
    }

    ghost predicate IsInnerNode()
      reads this, data
    {
      Valid() && InnerPage(Bytes())
    }

    ghost function Body(): Body
      requires Valid()
      reads this, data
    {
      BodyOf(Bytes())
    }

    ghost function Parent(): PageId
      requires Buffer()
      reads this, data
    {
      ParentOf(Bytes())
    }

    constructor FromPage(id: PageId, d: Image)
      ensures fresh(data) && Buffer() && this.id == id && Bytes() == d
    {
      this.id := id;
      data := new byte[PAGE_SIZE](i requires 0 <= i < PAGE_SIZE => d[i]);
      new;
      assert data[..] == d;
    }

    /** `Page::new` followed by the header fields of an empty node. */
    method Reset(kind: byte, next: PageId, parent: PageId, level: nat)
      requires Buffer() && level < 0x1_0000
      modifies data
      ensures Bytes()[4] == kind && NumSlots(Bytes()) == 0
      ensures U32(Bytes(), HEADER_SIZE) == next && Parent() == parent && Titled(Bytes(), id, level)
    {
      forall i | 0 <= i < PAGE_SIZE { data[i] := 0; }
      CopyFromSlice(data, 0, Le32(id));
      data[4] := kind;
      CopyFromSlice(data, 5, Le16(0));
      CopyFromSlice(data, 7, Le16(LEAF_SLOTS));
      ghost var d := data[..];
      CopyFromSlice(data, HEADER_SIZE, Le32(next));
      ghost var d1 := data[..];
      CopyFromSlice(data, HEADER_SIZE + 4, Le32(parent));
      ghost var d2 := data[..];
      CopyFromSlice(data, HEADER_SIZE + 8, Le16(level));
      ResetFields(d, d1, d2, data[..], kind, next, parent, id, level);
    }

    constructor NewLeaf(id: PageId)
      ensures fresh(data) && Valid() && this.id == id
      ensures Body() == Leaf([], INVALID_PAGE_ID) && Parent() == INVALID_PAGE_ID && Titled(Bytes(), id, 0)
    {
      this.id := id;
      data := new byte[PAGE_SIZE](i => 0);
      new;
      Reset(LEAF_PAGE, INVALID_PAGE_ID, INVALID_PAGE_ID, 0);
      EmptyLeaf(data[..]);
    }

    constructor NewInternal(id: PageId)
      ensures fresh(data) && IsInnerNode() && this.id == id
      ensures Body().seps == [] && Parent() == INVALID_PAGE_ID && Titled(Bytes(), id, 1)
    {
      this.id := id;
      data := new byte[PAGE_SIZE](i => 0);
      new;
      Reset(INTERNAL_PAGE, INVALID_PAGE_ID, INVALID_PAGE_ID, 1);
      EmptyInner(data[..]);
    }

    method SetParent(p: PageId)
      requires Valid()
      modifies data
      ensures Valid() && Body() == old(Body()) && Parent() == p
    {
      ghost var d := data[..];
      CopyFromSlice(data, HEADER_SIZE + 4, Le32(p));
      ReadBack32(data[..], HEADER_SIZE + 4, p);
      HeaderChange(d, data[..]);
    }

    method SetRightSibling(p: PageId)
      requires IsLeafNode()
      modifies data
      ensures IsLeafNode() && Body() == Leaf(old(Body()).entries, p) && Parent() == old(Parent())
    {
      ghost var d := data[..];
      CopyFromSlice(data, HEADER_SIZE, Le32(p));
      ReadBack32(data[..], HEADER_SIZE, p);
      SameLeaf(d, data[..]);
    }

    method SetLeftmostChild(p: PageId)
      requires IsInnerNode()
      modifies data
      ensures IsInnerNode() && Body() == Inner(p, old(Body()).seps) && Parent() == old(Parent())
    {
      ghost var d := data[..];
      CopyFromSlice(data, LEAF_SLOTS, Le32(p));
      ReadBack32(data[..], LEAF_SLOTS, p);
      SameInner(d, data[..]);
    }

    // ----- leaves -----

    function IsLeaf(): (r: bool)
      requires Valid()
      reads this, data
      ensures r <==> Body().Leaf?
      ensures r <==> IsLeafNode()
      ensures !r <==> IsInnerNode()
    {
      data[4] == LEAF_PAGE
    }

    function ParentPointer(): (p: PageId)
      requires Buffer()
      reads this, data
      ensures p == Parent()
    {
      U32(data[..], HEADER_SIZE + 4)
    }

    function RightSibling(): (p: PageId)
      requires IsLeafNode()
      reads this, data
      ensures p == Body().next
    {
      U32(data[..], HEADER_SIZE)
    }

    function NumKeys(): (n: nat)
      requires Valid()
      reads this, data
      ensures Body().Leaf? ==> n == |Body().entries|
      ensures Body().Inner? ==> n == |Body().seps|
    {
      NumSlots(data[..])
    }

    function ReadLeafSlot(i: nat): (s: LeafSlot)
      requires IsLeafNode() && i < NumKeys()
      reads this, data
      ensures LeafRegions(Bytes())[i] == Region(s.off, s.klen + s.vlen)
    {
      LeafSlotInPage(data[..], i);
      LeafSlotAt(data[..], i)
    }

    function LeafKey(i: nat): (k: Key)
      requires IsLeafNode() && i < NumKeys()
      reads this, data
      ensures k == Body().entries[i].0
    {
      LeafSlotInPage(data[..], i);
      var s := ReadLeafSlot(i);
      data[s.off..s.off + s.klen]
    }

    function LeafValue(i: nat): (v: Value)
      requires IsLeafNode() && i < NumKeys()
      reads this, data
      ensures v == Body().entries[i].1
    {
      LeafSlotInPage(data[..], i);
      var s := ReadLeafSlot(i);
      data[s.off + s.klen..s.off + s.klen + s.vlen]
    }

    /** Binary search: the key's index, or where it would go. */
    method LeafFindSlot(key: Key) returns (idx: nat, found: bool)
      requires IsLeafNode()
      ensures idx == LowerBound(Body().entries, key)
      ensures found <==> idx < |Body().entries| && Body().entries[idx].0 == key
    {
      ghost var es := Body().entries;
      assert Sorted(es);
      var lo, hi := 0, NumKeys();
      while lo < hi
        invariant 0 <= lo <= hi <= |es|
        invariant forall j :: 0 <= j < lo ==> Rank(es[j].0) < Rank(key)
        invariant forall j :: hi <= j < |es| ==> Rank(key) < Rank(es[j].0)
      {
        var mid := (lo + hi) / 2;
        var midKey := LeafKey(mid);
        BinarySearchStep(es, mid, key);
        if Less(midKey, key) {
          lo := mid + 1;
        } else if midKey == key {
          return mid, true;
        } else {
          hi := mid;
        }
      }
      LowerBoundUnique(es, key, lo);
      return lo, false;
    }

    /** Lowest data offset in use: last slot, first slot, then the ones between. */
    method LeafDataFrontier() returns (f: nat)
      requires IsLeafNode()
      ensures f == Frontier(LeafRegions(Bytes()))
    {
      var n := NumKeys();
      if n == 0 {
        return PAGE_SIZE;
      }
      ghost var rs, w := LeafRegions(Bytes()), n - 1;
      f := SlotOffset(n - 1, rs);
      var first := SlotOffset(0, rs);
      if first < f {
        f, w := first, 0;
      }
      var i := 1;
      while i < n - 1
        invariant 1 <= i && 0 <= w < n && f == rs[w].off
        invariant f <= rs[n - 1].off && NoneLower(rs, i, f)
      {
        var off := SlotOffset(i, rs);
        LowerNext(rs, i, f);
        if off < f {
          f, w := off, i;
        }
        i := i + 1;
      }
      LowestIsFrontier(rs, LeafEnd(n), i, f, w);
    }

    method SlotOffset(i: nat, ghost rs: seq<Region>) returns (off: nat)
      requires IsLeafNode() && i < NumKeys() && rs == LeafRegions(Bytes())
      ensures off == rs[i].off
    {
      off := ReadLeafSlot(i).off;
    }

    /** One slot more than the entry needs must stay free. */
    method LeafCanFit(key: Key, value: Value) returns (b: bool)
      requires IsLeafNode()
      ensures b <==> LeafSize(Body().entries) + EntrySize((key, value)) + LEAF_SLOT_SIZE <= LEAF_ROOM
    {
      var n := NumKeys();
      var slotsEnd := LEAF_SLOTS + (n + 1) * LEAF_SLOT_SIZE;
      var dataStart := LeafDataFrontier();
      LeafRoom(data[..]);
      var available := if dataStart > slotsEnd then dataStart - slotsEnd else 0;
      b := available >= LEAF_SLOT_SIZE + |key| + |value|;
    }

    // ----- changing the slot directory -----

    /** Shift slots `i..n` right to make room, then write the new one. */
    method OpenSlotAt(kind: Kind, i: nat, n: nat, s: seq<byte>)
      requires Buffer() && i <= n && End(kind, n + 1) <= PAGE_SIZE && |s| == End(kind, 1) - End(kind, 0)
      modifies data
      ensures SlotOpened(old(data[..]), data[..], kind, i, n, s)
    {
      ghost var d0 := data[..];
      var j := n;
      while j > i
        invariant i <= j <= n && SlotsMoved(d0, data[..], kind, j, n)
      {
        MoveSlot(d0, data[..], kind, j, n);
        CopyFromSlice(data, End(kind, j), Raw(data[..], kind, j - 1));
        j := j - 1;
      }
      OpenSlot(d0, data[..], kind, i, n, s);
      CopyFromSlice(data, End(kind, i), s);
    }

    /** Write the entry's bytes at `off`, its slot at index `i`, and count it. */
    method Place(kind: Kind, i: nat, off: nat, xs: seq<byte>, s: seq<byte>)
      requires Buffer() && |s| == End(kind, 1) - End(kind, 0)
      requires i <= NumSlots(Bytes()) && End(kind, NumSlots(Bytes()) + 1) <= off && off + |xs| <= PAGE_SIZE
      modifies data
      ensures PlacedAs(old(data[..]), data[..], kind, i, off, xs, s)
    {
      ghost var d := data[..];
      var n := NumSlots(data[..]);
      CopyFromSlice(data, off, xs);
      ghost var d1 := data[..];
      OpenSlotAt(kind, i, n, s);
      ghost var d2 := data[..];
      CopyFromSlice(data, 5, Le16(n + 1));
      ReadBack16(data[..], 5, n + 1);
      Placed(d, d1, d2, data[..], kind, i, off, xs, s);
    }

    /** Store a new entry: data right below the frontier, a slot at index `i`. */
    method PlaceLeaf(i: nat, key: Key, value: Value)
      requires IsLeafNode() && i <= NumKeys() && LeafFits(Bytes(), key, value)
      modifies data
      ensures Buffer() && LeafPage(Bytes())
      ensures LeafEntries(Bytes()) == Insert(old(LeafEntries(Bytes())), i, (key, value))
      ensures U32(Bytes(), HEADER_SIZE) == old(U32(Bytes(), HEADER_SIZE)) && Parent() == old(Parent())
    {
      var f := LeafDataFrontier();
      ghost var d := data[..];
      var off := f - (|key| + |value|);
      Place(LeafKind, i, off, key + value, LeafSlotBytes(LeafSlot(off, |key|, |value|)));
      LeafPlaced(d, data[..], i, off, key, value);
      LeafInsertEntries(d, data[..], i, key, value);
    }

    /** Insert a new entry, or rewrite the page with the key's value replaced. */
    method LeafInsert(key: Key, value: Value) returns (isNew: bool)
      requires IsLeafNode() && LeafSize(PutEntry(Body().entries, key, value)) <= LEAF_ROOM
      modifies data
      ensures IsLeafNode() && Parent() == old(Parent())
      ensures Body() == Leaf(PutEntry(old(Body()).entries, key, value), old(Body()).next)
      ensures isNew <==> Assoc(old(Body()).entries, key) == None
      decreases if Assoc(Body().entries, key) == None then 0 else 2
    {
      ghost var es := Body().entries;
      LowerBoundMeaning(es, key);
      PutEntryMeaning(es, key, value, key);
      var idx, found := LeafFindSlot(key);
      if found {
        LeafUpdate(idx, value);
        return false;
      }
      LeafSizeInsert(es, idx, (key, value));
      LeafRoom(data[..]);
      PlaceLeaf(idx, key, value);
      return true;
    }

    /** Collect the entries with one value replaced, clear the page, insert them again. */
    method LeafUpdate(idx: nat, value: Value)
      requires IsLeafNode() && idx < |Body().entries|
      requires LeafSize(Body().entries[idx := (Body().entries[idx].0, value)]) <= LEAF_ROOM
      modifies data
      ensures IsLeafNode() && Parent() == old(Parent())
      ensures Body() == Leaf(old(Body()).entries[idx := (old(Body()).entries[idx].0, value)], old(Body()).next)
      decreases 1
    {
      var entries := LeafEntriesVec();
      entries := entries[idx := (entries[idx].0, value)];
      RebuildLeaf(entries);
    }

    /** Clear the page, keep its links, insert the entries in order. */
    method RebuildLeaf(entries: seq<(Key, Value)>)
      requires IsLeafNode() && Sorted(entries) && LeafSize(entries) <= LEAF_ROOM
      modifies data
      ensures IsLeafNode() && Parent() == old(Parent()) && Body() == Leaf(entries, old(Body()).next)
      decreases 1, 1
    {
      var next, parent := U32(data[..], HEADER_SIZE), U32(data[..], HEADER_SIZE + 4);
      Reset(LEAF_PAGE, next, parent, U16(data[..], HEADER_SIZE + 8));
      EmptyLeaf(data[..]);
      InsertAll(entries);
    }

    /** Insert entries in key order into an empty leaf. */
    method InsertAll(entries: seq<(Key, Value)>)
      requires IsLeafNode() && Body().entries == [] && Sorted(entries) && LeafSize(entries) <= LEAF_ROOM
      modifies data
      ensures IsLeafNode() && Parent() == old(Parent()) && Body() == Leaf(entries, old(Body()).next)
      decreases 1, 0
    {
      var i := 0;
      while i < |entries|
        invariant 0 <= i <= |entries| && IsLeafNode()
        invariant Body() == Leaf(entries[..i], old(Body()).next) && Parent() == old(Parent())
      {
        InsertNext(entries, i);
        var _ := LeafInsert(entries[i].0, entries[i].1);
        i := i + 1;
      }
      assert entries[..i] == entries;
    }

    /** `leaf_entries`: the node's contents as a vector. */
    method LeafEntriesVec() returns (es: seq<(Key, Value)>)
      requires IsLeafNode()
      ensures es == Body().entries
    {
      es := [];
      for i := 0 to NumKeys()
        invariant es == Body().entries[..i]
      {
        es := es + [(LeafKey(i), LeafValue(i))];
      }
    }

    /** Remove a key by rewriting the page without it. */
    method LeafDelete(key: Key) returns (oldValue: Option<Value>)
      requires IsLeafNode()
      modifies data
      ensures IsLeafNode() && Parent() == old(Parent())
      ensures Body() == Leaf(DropEntry(old(Body()).entries, key), old(Body()).next)
      ensures oldValue == Assoc(old(Body()).entries, key)
    {
      ghost var es := Body().entries;
      LowerBoundMeaning(es, key);
      DropEntryMeaning(es, key, key);
      var idx, found := LeafFindSlot(key);
      if !found {
        return None;
      }
      oldValue := Some(LeafValue(idx));
      var entries := LeafEntriesVec();
      entries := Remove(entries, idx);
      LeafRoom(data[..]);
      LeafSizeRemove(es, idx);
      RebuildLeaf(entries);
    }

    // ----- internal nodes -----

    function ReadInternalSlot(i: nat): (s: InnerSlot)
      requires IsInnerNode() && i < NumKeys()
      reads this, data
      ensures InnerRegions(Bytes())[i] == Region(s.off, s.klen) && s.child == Body().seps[i].1
    {
      InnerSlotInPage(data[..], i);
      InnerSlotAt(data[..], i)
    }

    function InternalKey(i: nat): (k: Key)
      requires IsInnerNode() && i < NumKeys()
      reads this, data
      ensures k == Body().seps[i].0
    {
      InnerSlotInPage(data[..], i);
      var s := ReadInternalSlot(i);
      data[s.off..s.off + s.klen]
    }

    function InternalChild(i: nat): (c: PageId)
      requires IsInnerNode() && i <= NumKeys()
      reads this, data
      ensures c == Child(Body(), i)
    {
      if i == 0 then U32(data[..], LEAF_SLOTS) else ReadInternalSlot(i - 1).child
    }

    /** Binary search for the child to follow: the number of separators not above the key. */
    method InternalFindChild(key: Key) returns (idx: nat)
      requires IsInnerNode()
      ensures idx <= |Body().seps|
      ensures forall j :: 0 <= j < idx ==> Rank(Body().seps[j].0) <= Rank(key)
      ensures forall j :: idx <= j < |Body().seps| ==> Rank(key) < Rank(Body().seps[j].0)
    {
      ghost var es := Body().seps;
      assert Sorted(es);
      var lo, hi := 0, NumKeys();
      while lo < hi
        invariant 0 <= lo <= hi <= |es|
        invariant forall j :: 0 <= j < lo ==> Rank(es[j].0) <= Rank(key)
        invariant forall j :: hi <= j < |es| ==> Rank(key) < Rank(es[j].0)
      {
        var mid := (lo + hi) / 2;
        var midKey := InternalKey(mid);
        BinarySearchTurn(es, mid, key);
        if Less(key, midKey) {
          hi := mid;
        } else {
          lo := mid + 1;
        }
      }
      idx := lo;
    }

    method InternalDataFrontier() returns (f: nat)
      requires IsInnerNode()
      ensures f == Frontier(InnerRegions(Bytes()))
    {
      var n := NumKeys();
      if n == 0 {
        return PAGE_SIZE;
      }
      ghost var rs, w := InnerRegions(Bytes()), 0;
      f := PAGE_SIZE;
      var i := 0;
      while i < n
        invariant 0 <= i <= n && 0 <= w < n && f <= PAGE_SIZE
        invariant (f == PAGE_SIZE || f == rs[w].off) && NoneLower(rs, i, f)
      {
        var off := SepOffset(i, rs);
        LowerNext(rs, i, f);
        if off < f {
          f, w := off, i;
        }
        i := i + 1;
      }
      LowestOrEnd(rs, InnerEnd(n), f, w);
    }

    method SepOffset(i: nat, ghost rs: seq<Region>) returns (off: nat)
      requires IsInnerNode() && i < NumKeys() && rs == InnerRegions(Bytes())
      ensures off == rs[i].off
    {
      off := ReadInternalSlot(i).off;
    }

    method InternalCanFit(key: Key) returns (b: bool)
      requires IsInnerNode()
      ensures b <==> InnerSize(Body().seps) + SepSize((key, 0)) + INNER_SLOT_SIZE <= INNER_ROOM
    {
      var n := NumKeys();
      var slotsEnd := INNER_SLOTS + (n + 1) * INNER_SLOT_SIZE;
      var dataStart := InternalDataFrontier();
      InnerRoom(data[..]);
      var available := if dataStart > slotsEnd then dataStart - slotsEnd else 0;
      b := available >= INNER_SLOT_SIZE + |key|;
    }

    /** Insert a separator that is not there yet, and the child to its right. */
    method InternalInsert(key: Key, child: PageId, ghost i: nat)
      requires IsInnerNode() && Slot(Body().seps, i, key)
      requires InnerSize(Body().seps) + SepSize((key, child)) <= INNER_ROOM
      modifies data
      ensures IsInnerNode() && Parent() == old(Parent())
      ensures Body() == Inner(old(Body()).first, Insert(old(Body()).seps, i, (key, child)))
    {
      ghost var es := Body().seps;
      var pos := InternalFindChild(key);
      SlotUnique(es, i, key, pos);
      InsertSorted(es, i, key, child);
      InnerRoom(data[..]);
      PlaceInner(pos, key, child);
    }

    method PlaceInner(i: nat, key: Key, child: PageId)
      requires IsInnerNode() && i <= NumKeys() && InnerFits(Bytes(), key)
      modifies data
      ensures Buffer() && InnerPage(Bytes()) && Seps(Bytes()) == Insert(old(Seps(Bytes())), i, (key, child))
      ensures U32(Bytes(), LEAF_SLOTS) == old(U32(Bytes(), LEAF_SLOTS)) && Parent() == old(Parent())
    {
      var f := InternalDataFrontier();
      ghost var d := data[..];
      var off := f - |key|;
      Place(InnerKind, i, off, key, InnerSlotBytes(InnerSlot(off, |key|, child)));
      InnerPlaced(d, data[..], i, off, key, child);
      InnerInsertEntries(d, data[..], i, key, child);
    }

    method InternalEntries() returns (leftmost: PageId, es: seq<(Key, PageId)>)
      requires IsInnerNode()
      ensures Body() == Inner(leftmost, es)
    {
      leftmost := U32(data[..], LEAF_SLOTS);
      es := [];
      for i := 0 to NumKeys()
        invariant es == Body().seps[..i]
      {
        es := es + [(InternalKey(i), ReadInternalSlot(i).child)];
      }
    }

    /** Clear the page, keep its links, insert the separators in order. */
    method InternalRebuild(leftmost: PageId, entries: seq<(Key, PageId)>)
      requires IsInnerNode() && Sorted(entries) && InnerSize(entries) <= INNER_ROOM
      modifies data
      ensures IsInnerNode() && Parent() == old(Parent()) && Body() == Inner(leftmost, entries)
    {
      var next, parent := U32(data[..], HEADER_SIZE), U32(data[..], HEADER_SIZE + 4);
      Reset(INTERNAL_PAGE, next, parent, U16(data[..], HEADER_SIZE + 8));
      EmptyInner(data[..]);
      SetLeftmostChild(leftmost);
      var i := 0;
      while i < |entries|
        invariant 0 <= i <= |entries| && IsInnerNode()
        invariant Body() == Inner(leftmost, entries[..i]) && Parent() == old(Parent())
      {
        SortedBelow(entries, i);
        InnerSizePrefix(entries, i + 1);
        InnerSizeInsert(entries[..i], i, entries[i]);
        assert Insert(entries[..i], i, entries[i]) == entries[..i + 1];
        InternalInsert(entries[i].0, entries[i].1, i);
        i := i + 1;
      }
      assert entries[..i] == entries;
    }

    // ----- checksum -----

    method UpdateChecksum()
      requires Valid()
      modifies data
      ensures Valid() && Body() == old(Body()) && Parent() == old(Parent()) && Checksummed(Bytes())
    {
      ghost var d := data[..];
      var crc := Crc32(data[HEADER_SIZE..]);
      assert data[HEADER_SIZE..] == d[HEADER_SIZE..];
      CrcBound(d[HEADER_SIZE..]);
      CopyFromSlice(data, 9, Le32(crc));
      Stamped(d, data[..], crc);
    }
  }

  lemma LowerNext(rs: seq<Region>, n: nat, f: nat)
    requires NoneLower(rs, n, f) && n < |rs|
    ensures NoneLower(rs, n + 1, if rs[n].off < f then rs[n].off else f)
  {
  }

  lemma LowestIsFrontier(rs: seq<Region>, slotsEnd: nat, n: nat, f: nat, w: nat)
    requires Packed(rs, slotsEnd) && NoneLower(rs, n, f) && |rs| - 1 <= n && w < |rs|
    requires f == rs[w].off <= rs[|rs| - 1].off
    ensures f == Frontier(rs)
  {
    FrontierIsLowest(rs, slotsEnd, w);
  }

  lemma InsertNext(es: seq<(Key, Value)>, i: nat)
    requires Sorted(es) && LeafSize(es) <= LEAF_ROOM && i < |es|
    ensures PutEntry(es[..i], es[i].0, es[i].1) == es[..i + 1] && LeafSize(es[..i + 1]) <= LEAF_ROOM
    ensures Assoc(es[..i], es[i].0) == None
  {
    PutLast(es, i);
    LeafSizePrefix(es, i + 1);
    AssocNone(es[..i], es[i].0);
    SortedBelow(es, i);
  }

  /** Among the first `n` regions none starts below `f`. */
  ghost predicate NoneLower(rs: seq<Region>, n: nat, f: nat) {
    forall j :: 0 <= j < n && j < |rs| ==> f <= rs[j].off
  }

  // What one comparison in a binary search settles.
  lemma BinarySearchStep<T>(es: seq<(Key, T)>, mid: nat, key: Key)
    requires Sorted(es) && mid < |es|
    ensures Less(es[mid].0, key) ==> forall j :: 0 <= j <= mid ==> Rank(es[j].0) < Rank(key)
    ensures es[mid].0 == key ==> mid == LowerBound(es, key)
    ensures !Less(es[mid].0, key) && es[mid].0 != key ==> forall j :: mid <= j < |es| ==> Rank(key) < Rank(es[j].0)
  {
    RankOrder(es[mid].0, key);
    SortedBelow(es, mid);
    SortedAbove(es, mid);
    if es[mid].0 == key { LowerBoundUnique(es, key, mid); }
  }

  lemma BinarySearchTurn<T>(es: seq<(Key, T)>, mid: nat, key: Key)
    requires Sorted(es) && mid < |es|
    ensures Less(key, es[mid].0) ==> forall j :: mid <= j < |es| ==> Rank(key) < Rank(es[j].0)
    ensures !Less(key, es[mid].0) ==> forall j :: 0 <= j <= mid ==> Rank(es[j].0) <= Rank(key)
  {
    RankOrder(key, es[mid].0);
    SortedBelow(es, mid);
    SortedAbove(es, mid);
  }

  /** `verify_checksum`: the header's checksum is that of the data region. */
  ghost predicate Checksummed(d: Image) {
    U32(d, 9) == Crc(d[HEADER_SIZE..])
  }

  // A page whose data region changed in at most four consecutive bytes no longer verifies.
  lemma CorruptionDetected(d: Image, off: nat, xs: seq<byte>)
    requires Checksummed(d) && |xs| <= 4 && HEADER_SIZE <= off && off + |xs| <= PAGE_SIZE
    requires d[off..off + |xs|] != xs
    ensures !Checksummed(Splice(d, off, xs))
  {
    var p, u, s := d[HEADER_SIZE..off], d[off..off + |xs|], d[off + |xs|..];
    RegionSpliced(d, off, xs);
    FourBytesDetected(p, u, xs, s);
  }

  lemma RegionSpliced(d: Image, off: nat, xs: seq<byte>)
    requires HEADER_SIZE <= off && off + |xs| <= PAGE_SIZE
    ensures U32(Splice(d, off, xs), 9) == U32(d, 9)
    ensures d[HEADER_SIZE..] == d[HEADER_SIZE..off] + d[off..off + |xs|] + d[off + |xs|..]
    ensures Splice(d, off, xs)[HEADER_SIZE..] == d[HEADER_SIZE..off] + xs + d[off + |xs|..]
  {
  }

  lemma LowestOrEnd(rs: seq<Region>, slotsEnd: nat, f: nat, w: nat)
    requires Packed(rs, slotsEnd) && w < |rs| && f <= PAGE_SIZE && (f == PAGE_SIZE || f == rs[w].off)
    requires forall j :: 0 <= j < |rs| ==> f <= rs[j].off
    ensures f == Frontier(rs)
  {
  }

  lemma ReadBack32(d: Image, off: nat, x: nat)
    requires off + 4 <= PAGE_SIZE && x < 0x1_0000_0000 && d[off..off + 4] == Le32(x)
    ensures U32(d, off) == x
  {
    var w := d[off..off + 4];
    assert w[0] == d[off] && w[1] == d[off + 1] && w[2] == d[off + 2] && w[3] == d[off + 3];
    assert U32(w, 0) == U32(d, off);
  }

  lemma ReadBack16(d: Image, off: nat, x: nat)
    requires off + 2 <= PAGE_SIZE && x < 0x1_0000 && d[off..off + 2] == Le16(x)
    ensures U16(d, off) == x
  {
    var w := d[off..off + 2];
    assert w[0] == d[off] && w[1] == d[off + 1];
  }

  // Page id, checksum, parent and level are not part of the node proper.
  lemma Stamped(d: Image, d': Image, crc: nat)
    requires NodePage(d) && crc < 0x1_0000_0000 && d' == Splice(d, 9, Le32(crc))
    ensures U32(d', 9) == crc && d'[HEADER_SIZE..] == d[HEADER_SIZE..]
    ensures NodePage(d') && BodyOf(d') == BodyOf(d) && ParentOf(d') == ParentOf(d)
  {
    ReadBack32(d', 9, crc);
    BeyondHeader(d, d');
    Field32(d, d', HEADER_SIZE + 4);
    HeaderChange(d, d');
  }

  lemma BeyondHeader(d: Image, d': Image)
    requires d'[HEADER_SIZE..] == d[HEADER_SIZE..]
    ensures d'[LEAF_SLOTS..] == d[LEAF_SLOTS..]
    ensures d'[HEADER_SIZE..HEADER_SIZE + 4] == d[HEADER_SIZE..HEADER_SIZE + 4]
    ensures d'[HEADER_SIZE + 4..HEADER_SIZE + 8] == d[HEADER_SIZE + 4..HEADER_SIZE + 8]
  {
    var t, t' := d[HEADER_SIZE..], d'[HEADER_SIZE..];
    assert d[LEAF_SLOTS..] == t[LEAF_SLOTS - HEADER_SIZE..] && d'[LEAF_SLOTS..] == t'[LEAF_SLOTS - HEADER_SIZE..];
    assert d[HEADER_SIZE..HEADER_SIZE + 4] == t[..4] && d'[HEADER_SIZE..HEADER_SIZE + 4] == t'[..4];
    assert d[HEADER_SIZE + 4..HEADER_SIZE + 8] == t[4..8] && d'[HEADER_SIZE + 4..HEADER_SIZE + 8] == t'[4..8];
  }

  lemma HeaderChange(d: Image, d': Image)
    requires NodePage(d) && d'[4..7] == d[4..7] && d'[LEAF_SLOTS..] == d[LEAF_SLOTS..]
    requires d'[HEADER_SIZE..HEADER_SIZE + 4] == d[HEADER_SIZE..HEADER_SIZE + 4]
    ensures NodePage(d') && BodyOf(d') == BodyOf(d)
  {
    Field32(d, d', HEADER_SIZE);
    if LeafPage(d) {
      SameLeaf(d, d');
    } else {
      assert d'[INNER_SLOTS..] == d'[LEAF_SLOTS..][4..] == d[LEAF_SLOTS..][4..] == d[INNER_SLOTS..];
      assert d'[LEAF_SLOTS..LEAF_SLOTS + 4] == d'[LEAF_SLOTS..][..4] == d[LEAF_SLOTS..][..4];
      Field32(d, d', LEAF_SLOTS);
      SameInner(d, d');
    }
  }

  lemma Field32(d: Image, d': Image, off: nat)
    requires off + 4 <= PAGE_SIZE && d'[off..off + 4] == d[off..off + 4]
    ensures U32(d', off) == U32(d, off)
  {
    var w, w' := d[off..off + 4], d'[off..off + 4];
    assert U32(w, 0) == U32(d, off) && U32(w', 0) == U32(d', off);
  }
}
