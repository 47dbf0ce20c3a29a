// Keys are byte strings ordered lexicographically, a proper prefix first
// (Rust's slice comparison).  `Rank` embeds that order in the reals, so that
// key intervals become half-open real intervals inside [0, 1).
module KeyOrder {
  import opened Bytes

  type Key = seq<byte>
  type Value = seq<byte>

  predicate Less(a: Key, b: Key) {
    if b == [] then false
    else if a == [] then true
    else if a[0] != b[0] then a[0] < b[0]
    else Less(a[1..], b[1..])
  }

  function Rank(k: Key): (r: real)
    ensures 0.0 <= r < 1.0
    ensures r == 0.0 <==> k == []
  {
    if k == [] then 0.0 else (k[0] as real + 1.0 + Rank(k[1..])) / 257.0
  }

  /** The first place where the keys differ decides. */
  ghost predicate SmallerAt(a: Key, b: Key, i: nat) {
    i < |a| && i < |b| && a[..i] == b[..i] && a[i] < b[i]
  }

  // The order is the one of byte strings: a proper prefix comes first, else the first difference decides.
  lemma {:induction false} LessMeaning(a: Key, b: Key)
    ensures Less(a, b) <==> a < b || exists i: nat :: SmallerAt(a, b, i)
  {
    if a != [] && b != [] {
      var a', b' := a[1..], b[1..];
      LessMeaning(a', b');
      if a[0] == b[0] {
        assert a == [a[0]] + a' && b == [b[0]] + b';
        assert a < b <==> a' < b';
        if i: nat :| SmallerAt(a, b, i) {
          SmallerNext(a, b, i - 1);
        }
        if i: nat :| SmallerAt(a', b', i) {
          SmallerNext(a, b, i);
        }
      } else {
        if a[0] < b[0] { assert SmallerAt(a, b, 0); }
        forall i: nat | SmallerAt(a, b, i) ensures a[0] < b[0] {
          if i > 0 { assert a[..i][0] == b[..i][0]; }
        }
      }
    }
  }

  lemma SmallerNext(a: Key, b: Key, i: nat)
    requires a != [] && b != [] && a[0] == b[0]
    ensures SmallerAt(a, b, i + 1) <==> SmallerAt(a[1..], b[1..], i)
  {
    if i < |a| - 1 && i < |b| - 1 {
      assert a[..i + 1] == [a[0]] + a[1..][..i] && b[..i + 1] == [b[0]] + b[1..][..i];
      assert a[..i + 1][1..] == a[1..][..i] && b[..i + 1][1..] == b[1..][..i];
    }
  }

  // The embedding is faithful: it reflects the order and keeps keys apart.
  lemma {:induction false} RankOrder(a: Key, b: Key)
    ensures Less(a, b) <==> Rank(a) < Rank(b)
    ensures a == b <==> Rank(a) == Rank(b)
  {
    if a != [] && b != [] {
      if a[0] == b[0] {
        RankOrder(a[1..], b[1..]);
        assert a == [a[0]] + a[1..] && b == [b[0]] + b[1..];
      } else if a[0] < b[0] {
        assert a[0] as real + 1.0 <= b[0] as real;
      } else {
        assert b[0] as real + 1.0 <= a[0] as real;
      }
    }
  }

  /** Keys strictly increasing, whatever they carry. */
  ghost predicate Sorted<T>(es: seq<(Key, T)>) {
    forall i, j :: 0 <= i < j < |es| ==> Rank(es[i].0) < Rank(es[j].0)
  }

  lemma SortedParts<T>(es: seq<(Key, T)>, i: nat, j: nat)
    requires Sorted(es) && i <= |es| && j <= |es|
    ensures Sorted(es[..i]) && Sorted(es[j..])
  {
  }

  lemma SortedBelow<T>(es: seq<(Key, T)>, i: nat)
    requires Sorted(es) && i < |es|
    ensures forall j :: 0 <= j < i ==> Rank(es[j].0) < Rank(es[i].0)
  {
  }

  lemma SortedAbove<T>(es: seq<(Key, T)>, i: nat)
    requires Sorted(es) && i < |es|
    ensures forall j :: i < j < |es| ==> Rank(es[i].0) < Rank(es[j].0)
  {
  }

  /** First entry with the key: what a search of the sequence finds. */
  function Assoc<T>(es: seq<(Key, T)>, k: Key): Option<T> {
    if es == [] then None
    else if es[0].0 == k then Some(es[0].1)
    else Assoc(es[1..], k)
  }

  function Get<T>(m: map<Key, T>, k: Key): Option<T> {
    if k in m then Some(m[k]) else None
  }

  lemma {:induction false} AssocNone<T>(es: seq<(Key, T)>, k: Key)
    ensures Assoc(es, k) == None <==> forall i :: 0 <= i < |es| ==> es[i].0 != k
  {
    if es != [] {
      AssocNone(es[1..], k);
      if Assoc(es, k) == None {
        forall i | 0 <= i < |es| ensures es[i].0 != k {
          if i > 0 { assert es[i] == es[1..][i - 1]; }
        }
      }
    }
  }

  lemma {:induction false} AssocAt<T>(es: seq<(Key, T)>, i: nat)
    requires Sorted(es) && i < |es|
    ensures Assoc(es, es[i].0) == Some(es[i].1)
  {
    if i > 0 {
      assert es[i] == es[1..][i - 1];
      AssocAt(es[1..], i - 1);
    }
  }

  lemma {:induction false} AssocConcat<T>(a: seq<(Key, T)>, b: seq<(Key, T)>, k: Key)
    ensures Assoc(a + b, k) == if Assoc(a, k).Some? then Assoc(a, k) else Assoc(b, k)
  {
    if a == [] {
      assert a + b == b;
    } else {
      assert (a + b)[1..] == a[1..] + b;
      AssocConcat(a[1..], b, k);
    }
  }

  /** Where a new key goes: everything before is smaller, everything from there on larger. */
  ghost predicate Slot<T>(es: seq<(Key, T)>, i: nat, k: Key) {
    && i <= |es|
    && (forall j :: 0 <= j < i ==> Rank(es[j].0) < Rank(k))
    && (forall j :: i <= j < |es| ==> Rank(k) < Rank(es[j].0))
  }

  lemma SlotUnique<T>(es: seq<(Key, T)>, i: nat, k: Key, j: nat)
    requires Slot(es, i, k) && j <= |es|
    requires forall m :: 0 <= m < j ==> Rank(es[m].0) <= Rank(k)
    requires forall m :: j <= m < |es| ==> Rank(k) < Rank(es[m].0)
    ensures i == j
  {
    var atI := if i < |es| then Rank(es[i].0) else 1.0;
    var atJ := if j < |es| then Rank(es[j].0) else 1.0;
  }

  lemma InsertSorted<T>(es: seq<(Key, T)>, i: nat, k: Key, v: T)
    requires Sorted(es) && Slot(es, i, k)
    ensures Sorted(Insert(es, i, (k, v)))
  {
    var r := Insert(es, i, (k, v));
    forall a, c | 0 <= a < c < |r| ensures Rank(r[a].0) < Rank(r[c].0) {
      assert a != i ==> r[a] == es[if a < i then a else a - 1];
      assert c != i ==> r[c] == es[if c < i then c else c - 1];
    }
  }

  // Searching a sorted sequence means searching the right one of its two parts.
  lemma AssocCut<T>(es: seq<(Key, T)>, s: nat, k: Key)
    requires Sorted(es) && s < |es|
    ensures Assoc(es, k) == if Rank(k) < Rank(es[s].0) then Assoc(es[..s], k) else Assoc(es[s..], k)
  {
    assert es == es[..s] + es[s..];
    AssocConcat(es[..s], es[s..], k);
    AssocNone(es[..s], k);
    AssocNone(es[s..], k);
  }

  // Two sorted sequences that answer every lookup alike are the same sequence.
  lemma {:induction false} AssocExtensional<T>(a: seq<(Key, T)>, b: seq<(Key, T)>)
    requires Sorted(a) && Sorted(b)
    requires forall k :: Assoc(a, k) == Assoc(b, k)
    ensures a == b
  {
    var probe := if b == [] then Assoc(a, []) else Assoc(a, b[0].0);
    var other := if a == [] then Assoc(b, []) else Assoc(b, a[0].0);
    if a != [] && b != [] {
      HeadIsLeast(a, b);
      HeadIsLeast(b, a);
      RankOrder(a[0].0, b[0].0);
      AssocAt(a, 0);
      AssocAt(b, 0);
      assert a[0] == b[0];
      forall k ensures Assoc(a[1..], k) == Assoc(b[1..], k) {
        assert Assoc(a, k) == Assoc(b, k);
        if k == a[0].0 {
          AssocNone(a[1..], k);
          AssocNone(b[1..], k);
        }
      }
      AssocExtensional(a[1..], b[1..]);
    }
  }

  lemma HeadIsLeast<T>(a: seq<(Key, T)>, b: seq<(Key, T)>)
    requires Sorted(a) && Sorted(b) && a != [] && b != []
    requires forall k :: Assoc(a, k) == Assoc(b, k)
    ensures Rank(a[0].0) <= Rank(b[0].0)
  {
    AssocAt(b, 0);
    AssocNone(a, b[0].0);
    assert Assoc(a, b[0].0) == Assoc(b, b[0].0);
  }
}
