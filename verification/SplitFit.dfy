// A full node is split in the middle by entry count, not by bytes.  Whether both
// halves fit a page again depends on how large a single entry may be; the bound
// is exact.
module SplitFit {
  import opened Bytes
  import opened KeyOrder
  import opened Layout

  /** Largest entry, slot included, for which every split of a leaf works out. */
  const MAX_ENTRY: nat := 167

  ghost predicate EntriesWithin(es: seq<(Key, Value)>, bound: nat) {
    forall i :: 0 <= i < |es| ==> EntrySize(es[i]) <= bound
  }

  /** Both halves of a split at the middle fit. */
  ghost predicate HalvesFit(es: seq<(Key, Value)>) {
    LeafSize(es[..|es| / 2]) <= LEAF_ROOM && LeafSize(es[|es| / 2..]) <= LEAF_ROOM
  }

  lemma {:induction false} LeafSizeAtMost(es: seq<(Key, Value)>, bound: nat)
    requires EntriesWithin(es, bound)
    ensures LeafSize(es) <= bound * |es|
  {
    if es != [] {
      LeafSizeAtMost(es[1..], bound);
      assert bound * |es| == bound + bound * |es[1..]|;
    }
  }

  // Keys are distinct, so only the first can be empty.
  lemma {:induction false} LeafSizeAtLeast(es: seq<(Key, Value)>)
    requires Sorted(es)
    ensures LeafSize(es) >= 7 * |es| - (if es != [] && es[0].0 == [] then 1 else 0)
  {
    if es != [] {
      LeafSizeAtLeast(es[1..]);
      assert |es| > 1 ==> Rank(es[0].0) < Rank(es[1].0);
    }
  }

  lemma LeafHalvesFit(es: seq<(Key, Value)>, i: nat)
    requires Sorted(es) && i < |es| && EntriesWithin(es, MAX_ENTRY)
    requires LeafSize(Remove(es, i)) <= LEAF_ROOM
    ensures HalvesFit(es)
  {
    var s := |es| / 2;
    LeafSizeSplitOff(es, i);
    LeafSizeParts(es, s);
    LowerHalf(es, s);
    UpperHalf(es, s);
    HalvesArithmetic(|es|, s, LeafSize(es[..s]), LeafSize(es[s..]), EntrySize(es[i]));
  }

  lemma LeafSizeParts(es: seq<(Key, Value)>, s: nat)
    requires s <= |es|
    ensures LeafSize(es) == LeafSize(es[..s]) + LeafSize(es[s..])
  {
    assert es == es[..s] + es[s..];
    LeafSizeConcat(es[..s], es[s..]);
  }

  lemma LowerHalf(es: seq<(Key, Value)>, s: nat)
    requires Sorted(es) && EntriesWithin(es, MAX_ENTRY) && s <= |es|
    ensures 7 * s - 1 <= LeafSize(es[..s]) <= MAX_ENTRY * s
  {
    LeafSizeAtMost(es[..s], MAX_ENTRY);
    LeafSizeAtLeast(es[..s]);
  }

  lemma UpperHalf(es: seq<(Key, Value)>, s: nat)
    requires Sorted(es) && EntriesWithin(es, MAX_ENTRY) && s <= |es|
    ensures LeafSize(es[s..]) <= MAX_ENTRY * (|es| - s)
    ensures s > 0 ==> 7 * (|es| - s) <= LeafSize(es[s..])
  {
    LeafSizeAtMost(es[s..], MAX_ENTRY);
    LeafSizeAtLeast(es[s..]);
    if 0 < s < |es| { assert Rank(es[0].0) < Rank(es[s].0); }
  }

  lemma LeafSizeSplitOff(es: seq<(Key, Value)>, i: nat)
    requires i < |es|
    ensures LeafSize(es) == LeafSize(Remove(es, i)) + EntrySize(es[i])
  {
    InsertRemoved(es, i);
    LeafSizeInsert(Remove(es, i), i, es[i]);
  }

  lemma HalvesArithmetic(n: nat, s: nat, left: nat, right: nat, e: nat)
    requires s == n / 2 && e <= MAX_ENTRY && left + right <= LEAF_ROOM + e
    requires 7 * s - 1 <= left <= MAX_ENTRY * s && right <= MAX_ENTRY * (n - s)
    requires s > 0 ==> 7 * (n - s) <= right
    ensures left <= LEAF_ROOM && right <= LEAF_ROOM
  {
  }

  // ----- one byte more is too much -----

  function Block(first: nat, n: nat, len: nat): (es: seq<(Key, Value)>)
    requires first + n <= 256
    ensures |es| == n
    decreases n
  {
    if n == 0 then [] else [([first as byte], seq(len, j => 0 as byte))] + Block(first + 1, n - 1, len)
  }

  lemma {:induction false} BlockFacts(first: nat, n: nat, len: nat)
    requires first + n <= 256
    ensures LeafSize(Block(first, n, len)) == (7 + len) * n
    ensures EntriesWithin(Block(first, n, len), 7 + len)
    ensures forall j :: 0 <= j < n ==> Block(first, n, len)[j].0 == [(first + j) as byte]
    decreases n
  {
    if n > 0 {
      BlockFacts(first + 1, n - 1, len);
      assert (7 + len) * n == 7 + len + (7 + len) * (n - 1);
    }
  }

  // 24 tiny entries and 25 large ones; the one at index 24 is the newcomer.
  lemma Misfit() returns (es: seq<(Key, Value)>)
    ensures |es| == 49 && Sorted(es) && EntriesWithin(es, 168)
    ensures LeafSize(Remove(es, 24)) == LEAF_ROOM && LeafSize(es[24..]) == LEAF_ROOM + 1
  {
    var ones := Blocks(0, 23, 0, 0, 0);
    var added := Blocks(23, 1, 161, 0, 0);
    var big := Blocks(24, 15, 156, 9, 155);
    var tiny := [([], [])] + ones;
    assert LeafSize(tiny) == 167 by {
      LeafSizeConcat([([], [])], ones);
    }
    es := tiny + (added + big);
    LeafSizeConcat(added, big);
    LeafSizeConcat(tiny, big);
    assert es[24..] == added + big && Remove(es, 24) == tiny + big;
    MisfitSorted(es);
  }

  lemma Blocks(first: nat, n: nat, len: nat, n': nat, len': nat) returns (es: seq<(Key, Value)>)
    requires first + n + n' <= 256
    ensures |es| == n + n' && LeafSize(es) == (7 + len) * n + (7 + len') * n'
    ensures EntriesWithin(es, 7 + if len < len' then len' else len)
    ensures forall j :: 0 <= j < n + n' ==> es[j].0 == [(first + j) as byte]
  {
    es := Block(first, n, len) + Block(first + n, n', len');
    BlockFacts(first, n, len);
    BlockFacts(first + n, n', len');
    LeafSizeConcat(Block(first, n, len), Block(first + n, n', len'));
  }

  lemma MisfitSorted(es: seq<(Key, Value)>)
    requires |es| == 49 && es[0].0 == [] && forall j :: 0 < j < 49 ==> es[j].0 == [(j - 1) as byte]
    ensures Sorted(es)
  {
    forall a, c | 0 <= a < c < 49 ensures Rank(es[a].0) < Rank(es[c].0) {
      RankOrder(es[a].0, es[c].0);
    }
  }

  ghost predicate AlwaysFits(bound: nat) {
    forall es, i {:trigger Remove(es, i), EntriesWithin(es, bound)} ::
      Sorted(es) && 0 <= i < |es| && EntriesWithin(es, bound) && LeafSize(Remove(es, i)) <= LEAF_ROOM ==> HalvesFit(es)
  }

  // Splitting by count is safe for a bound on entry size if and only if it is at most 167.
  lemma SplitBoundExact(bound: nat)
    ensures AlwaysFits(bound) <==> bound <= MAX_ENTRY
  {
    if bound <= MAX_ENTRY {
      forall es, i | Sorted(es) && 0 <= i < |es| && EntriesWithin(es, bound) && LeafSize(Remove(es, i)) <= LEAF_ROOM
        ensures HalvesFit(es)
      {
        LeafHalvesFit(es, i);
      }
    } else {
      var es := Misfit();
      var i := 24;
      assert EntriesWithin(es, bound) && LeafSize(Remove(es, i)) <= LEAF_ROOM && !HalvesFit(es);
    }
  }

  // ----- internal nodes -----

  ghost predicate SepsWithin(es: seq<(Key, PageId)>) {
    forall i :: 0 <= i < |es| ==> 0 < |es[i].0| <= MAX_ENTRY - LEAF_SLOT_SIZE
  }

  lemma {:induction false} InnerSizeBetween(es: seq<(Key, PageId)>)
    requires SepsWithin(es)
    ensures 9 * |es| <= InnerSize(es) <= 169 * |es|
  {
    if es != [] {
      InnerSizeBetween(es[1..]);
    }
  }

  // The middle separator moves up; what is left on either side fits.
  lemma InnerHalvesFit(es: seq<(Key, PageId)>, i: nat)
    requires i < |es| && SepsWithin(es) && InnerSize(Remove(es, i)) <= INNER_ROOM
    ensures InnerSize(es[..|es| / 2]) <= INNER_ROOM && InnerSize(es[|es| / 2 + 1..]) <= INNER_ROOM
  {
    var s := |es| / 2;
    InnerSizeAround(es, s);
    InnerSizeSplitOff(es, i);
    InnerSizeBetween(es[..s]);
    InnerSizeBetween(es[s + 1..]);
    InnerHalvesArithmetic(|es|, s, InnerSize(es[..s]), SepSize(es[s]), InnerSize(es[s + 1..]), SepSize(es[i]));
  }

  lemma InnerSizeAround(es: seq<(Key, PageId)>, s: nat)
    requires s < |es|
    ensures InnerSize(es) == InnerSize(es[..s]) + SepSize(es[s]) + InnerSize(es[s + 1..])
  {
    assert es == es[..s] + es[s..] && es[s..][1..] == es[s + 1..];
    InnerSizeConcat(es[..s], es[s..]);
  }

  lemma InnerSizeSplitOff(es: seq<(Key, PageId)>, i: nat)
    requires i < |es|
    ensures InnerSize(es) == InnerSize(Remove(es, i)) + SepSize(es[i])
  {
    InsertRemoved(es, i);
    InnerSizeInsert(Remove(es, i), i, es[i]);
  }

  lemma InnerHalvesArithmetic(n: nat, s: nat, left: nat, mid: nat, right: nat, e: nat)
    requires s == n / 2 < n && e <= 169 && left + mid + right <= INNER_ROOM + e && 9 <= mid
    requires 9 * s <= left <= 169 * s && 9 * (n - s - 1) <= right <= 169 * (n - s - 1)
    ensures left <= INNER_ROOM && right <= INNER_ROOM
  {
  }
}
