// What a B+ tree node says, apart from how its bytes say it.
module NodeBody {
  import opened Bytes
  import opened KeyOrder

  datatype Body =
    | Leaf(entries: seq<(Key, Value)>, next: PageId)
    | Inner(first: PageId, seps: seq<(Key, PageId)>)

  /** `internal_child`: child 0 is the leftmost one, child i + 1 follows separator i. */
  function Child(n: Body, i: nat): PageId
    requires n.Inner? && i <= |n.seps|
  {
    if i == 0 then n.first else n.seps[i - 1].1
  }

  /** Number of keys smaller than `k`: where `k` is, or where it would be inserted. */
  function LowerBound<T>(es: seq<(Key, T)>, k: Key): (i: nat)
    ensures i <= |es|
  {
    if es == [] then 0
    else if Less(es[0].0, k) then 1 + LowerBound(es[1..], k)
    else 0
  }

  lemma {:induction false} LowerBoundMeaning<T>(es: seq<(Key, T)>, k: Key)
    requires Sorted(es)
    ensures var i := LowerBound(es, k);
            && (forall j :: 0 <= j < i ==> Rank(es[j].0) < Rank(k))
            && (forall j :: i <= j < |es| ==> Rank(k) <= Rank(es[j].0))
            && (if i < |es| && es[i].0 == k then Assoc(es, k) == Some(es[i].1)
                else Slot(es, i, k) && Assoc(es, k) == None)
  {
    if es != [] {
      RankOrder(es[0].0, k);
      LowerBoundMeaning(es[1..], k);
    }
    var i := LowerBound(es, k);
    AssocNone(es, k);
    if i < |es| {
      RankOrder(k, es[i].0);
      if es[i].0 == k { AssocAt(es, i); }
    }
  }

  lemma LowerBoundUnique<T>(es: seq<(Key, T)>, k: Key, i: nat)
    requires Sorted(es) && i <= |es|
    requires forall j :: 0 <= j < i ==> Rank(es[j].0) < Rank(k)
    requires i < |es| ==> Rank(k) <= Rank(es[i].0)
    ensures i == LowerBound(es, k)
  {
    LowerBoundMeaning(es, k);
  }

  /** Insert or overwrite. */
  function PutEntry<T>(es: seq<(Key, T)>, k: Key, v: T): seq<(Key, T)> {
    var i := LowerBound(es, k);
    if i < |es| && es[i].0 == k then es[i := (k, v)] else Insert(es, i, (k, v))
  }

  function DropEntry<T>(es: seq<(Key, T)>, k: Key): seq<(Key, T)> {
    var i := LowerBound(es, k);
    if i < |es| && es[i].0 == k then Remove(es, i) else es
  }

  // Both keep the order and act on lookups as on a map.
  lemma PutEntryMeaning<T>(es: seq<(Key, T)>, k: Key, v: T, k': Key)
    requires Sorted(es)
    ensures Sorted(PutEntry(es, k, v))
    ensures Assoc(PutEntry(es, k, v), k') == if k' == k then Some(v) else Assoc(es, k')
  {
    PutEntrySorted(es, k, v);
    var a, b, rest := PutEntryParts(es, k, v);
    PutBetween(a, b, rest, k, v, k');
  }

  lemma PutEntryParts<T>(es: seq<(Key, T)>, k: Key, v: T)
    returns (a: seq<(Key, T)>, b: seq<(Key, T)>, rest: seq<(Key, T)>)
    ensures es == a + b && PutEntry(es, k, v) == a + ([(k, v)] + rest) && Assoc(a, k) == None
    ensures rest == b || (b != [] && b[0].0 == k && rest == b[1..])
  {
    NoneBefore(es, k);
    var i := LowerBound(es, k);
    a, b := es[..i], es[i..];
    rest := if i < |es| && es[i].0 == k then b[1..] else b;
    PutAt(es, i, (k, v));
  }

  lemma PutAt<T>(s: seq<T>, i: nat, x: T)
    requires i <= |s|
    ensures s == s[..i] + s[i..] && Insert(s, i, x) == s[..i] + ([x] + s[i..])
    ensures i < |s| ==> s[i := x] == s[..i] + ([x] + s[i..][1..]) && Remove(s, i) == s[..i] + s[i..][1..]
  {
  }

  lemma PutEntrySorted<T>(es: seq<(Key, T)>, k: Key, v: T)
    requires Sorted(es)
    ensures Sorted(PutEntry(es, k, v))
  {
    LowerBoundMeaning(es, k);
    var i := LowerBound(es, k);
    if !(i < |es| && es[i].0 == k) { InsertSorted(es, i, k, v); }
  }

  lemma {:induction false} NoneBefore<T>(es: seq<(Key, T)>, k: Key)
    ensures Assoc(es[..LowerBound(es, k)], k) == None
  {
    var i := LowerBound(es, k);
    if i > 0 {
      RankOrder(es[0].0, k);
      NoneBefore(es[1..], k);
      assert es[..i][1..] == es[1..][..i - 1];
    }
  }

  lemma PutBetween<T>(a: seq<(Key, T)>, b: seq<(Key, T)>, rest: seq<(Key, T)>, k: Key, v: T, k': Key)
    requires rest == b || (b != [] && b[0].0 == k && rest == b[1..])
    requires Assoc(a, k) == None
    ensures Assoc(a + ([(k, v)] + rest), k') == if k' == k then Some(v) else Assoc(a + b, k')
  {
    AssocConcat(a, [(k, v)] + rest, k');
    AssocConcat(a, b, k');
    assert ([(k, v)] + rest)[1..] == rest;
  }

  lemma DropEntryMeaning<T>(es: seq<(Key, T)>, k: Key, k': Key)
    requires Sorted(es)
    ensures Sorted(DropEntry(es, k))
    ensures Assoc(DropEntry(es, k), k') == if k' == k then None else Assoc(es, k')
  {
    var i := LowerBound(es, k);
    if i < |es| && es[i].0 == k {
      NoneBefore(es, k);
      NoneBehind(es, i);
      PutAt(es, i, es[i]);
      DropBetween(es[..i], es[i..], k, k');
    } else {
      LowerBoundMeaning(es, k);
    }
  }

  lemma NoneBehind<T>(es: seq<(Key, T)>, i: nat)
    requires Sorted(es) && i < |es|
    ensures Assoc(es[i..][1..], es[i].0) == None
  {
    AssocNone(es[i..][1..], es[i].0);
  }

  lemma DropBetween<T>(a: seq<(Key, T)>, b: seq<(Key, T)>, k: Key, k': Key)
    requires b != [] && b[0].0 == k && Assoc(a, k) == None && Assoc(b[1..], k) == None
    ensures Assoc(a + b[1..], k') == if k' == k then None else Assoc(a + b, k')
  {
    AssocConcat(a, b[1..], k');
    AssocConcat(a, b, k');
  }

  // Appending in key order is what a rebuild does.
  lemma PutLast<T>(es: seq<(Key, T)>, i: nat)
    requires Sorted(es) && i < |es|
    ensures PutEntry(es[..i], es[i].0, es[i].1) == es[..i + 1]
  {
    LowerBoundUnique(es[..i], es[i].0, i);
  }
}
