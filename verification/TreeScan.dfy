// Walking the leaves by their sibling pointers.
module TreeScan {
  import opened Bytes
  import opened KeyOrder
  import opened NodeBody
  import opened TreeShape
  import TreeSteps

  // ----- the leaves a walk meets -----

  /** The leaves along the sibling pointers with the keys each answers for there, and what they hold together. */
  datatype Trail = Trail(at: Shape, m: map<Key, Value>)

  ghost predicate TrailAt(b: Bodies, tr: Trail, p: PageId) {
    p in tr.at ==>
      && p in b && b[p].Leaf? && p != INVALID_PAGE_ID && 0.0 <= tr.at[p].lo < tr.at[p].hi <= 1.0
      && LeafOk(b[p], tr.at[p])
      && (if tr.at[p].hi == 1.0 then b[p].next == INVALID_PAGE_ID
          else b[p].next in tr.at && tr.at[b[p].next].lo == tr.at[p].hi)
  }

  ghost predicate ApartAt(at: Shape, p: PageId, q: PageId) {
    p in at && q in at && p != q ==> at[p].hi <= at[q].lo || at[q].hi <= at[p].lo
  }

  /** The sibling pointers lead along the trail, and its leaves hold its contents. */
  ghost predicate Followed(b: Bodies, tr: Trail) {
    && (forall p {:trigger TrailAt(b, tr, p)} :: TrailAt(b, tr, p))
    && (forall p, q {:trigger ApartAt(tr.at, p, q)} :: ApartAt(tr.at, p, q))
    && (forall p, k {:trigger Covers(tr.at[p], k)} :: p in tr.at && p in b && b[p].Leaf? && Covers(tr.at[p], k) ==>
          Get(tr.m, k) == Assoc(b[p].entries, k))
  }

  ghost predicate EntersAt(g: Shape, tr: Trail, p: PageId) {
    p in g && g[p].height == 0 ==>
      p in tr.at && tr.at[p].lo == g[p].lo && (tr.at[p].hi == g[p].hi || g[p].hi == 1.0)
  }

  /** The leaves of the tree lie on the trail; only its last one may answer for less there. */
  ghost predicate Enters(g: Shape, tr: Trail) {
    forall p {:trigger EntersAt(g, tr, p)} :: EntersAt(g, tr, p)
  }

  /** The part of a map from a rank on. */
  ghost function AtOrAbove(m: map<Key, Value>, x: real): map<Key, Value> {
    map k | k in m && x <= Rank(k) :: m[k]
  }

  /** The leaves of a shape. */
  ghost function LeavesOf(g: Shape): Shape {
    map p | p in g && g[p].height == 0 :: g[p]
  }

  // In a tree whose leaves are chained the trail is the whole tree.
  lemma WholeTrail(b: Bodies, g: Shape, root: PageId, m: map<Key, Value>)
    requires Shaped(b, g, root, Settled) && Chained(b, g) && Models(b, g, m)
    ensures Followed(b, Trail(LeavesOf(g), m)) && Enters(g, Trail(LeavesOf(g), m))
  {
    var tr := Trail(LeavesOf(g), m);
    forall p ensures TrailAt(b, tr, p) {
      if p in g { assert PageOk(b, g, root, Settled, p); }
    }
    forall p, q ensures ApartAt(tr.at, p, q) {
      if p in tr.at && q in tr.at && p != q { LeavesApart(b, g, root, p, q); }
    }
    forall p, k | p in tr.at && p in b && b[p].Leaf? && Covers(tr.at[p], k)
      ensures Get(tr.m, k) == Assoc(b[p].entries, k)
    {
      assert Covers(g[p], k);
    }
    forall p ensures EntersAt(g, tr, p) {}
  }

  lemma LeavesApart(b: Bodies, g: Shape, root: PageId, p: PageId, q: PageId)
    requires Shaped(b, g, root, Settled) && p in g && q in g && p != q && g[p].height == g[q].height
    ensures g[p].hi <= g[q].lo || g[q].hi <= g[p].lo
  {
    assert PageOk(b, g, root, Settled, p) && PageOk(b, g, root, Settled, q);
    if g[p].hi > g[q].lo && g[q].hi > g[p].lo {
      DisjointAtHeight(b, g, root, p, q, if g[p].lo < g[q].lo then g[q].lo else g[p].lo);
    }
  }

  lemma TrailKept(b: Bodies, b': Bodies, tr: Trail)
    requires Followed(b, tr) && forall p :: p in tr.at && p in b ==> p in b' && b'[p] == b[p]
    ensures Followed(b', tr)
  {
    forall p ensures TrailAt(b', tr, p) { assert TrailAt(b, tr, p); }
    forall p, k | p in tr.at && p in b' && b'[p].Leaf? && Covers(tr.at[p], k)
      ensures Get(tr.m, k) == Assoc(b'[p].entries, k)
    {
      assert TrailAt(b, tr, p);
    }
  }

  // ----- what operations on a leaf do to a trail -----

  // New entries in one leaf, within the keys it answers for.
  lemma TrailRewritten(b: Bodies, tr: Trail, p: PageId, es: seq<(Key, Value)>, m: map<Key, Value>)
    requires Followed(b, tr) && p in tr.at && p in b && b[p].Leaf? && LeafOk(Leaf(es, b[p].next), tr.at[p])
    requires forall k {:trigger Get(m, k)} ::
               if Covers(tr.at[p], k) then Get(m, k) == Assoc(es, k) else Get(m, k) == Get(tr.m, k)
    ensures Followed(b[p := Leaf(es, b[p].next)], Trail(tr.at, m))
  {
    var b', tr' := b[p := Leaf(es, b[p].next)], Trail(tr.at, m);
    forall q ensures TrailAt(b', tr', q) { assert TrailAt(b, tr, q); }
    forall q, k | q in tr'.at && q in b' && b'[q].Leaf? && Covers(tr'.at[q], k)
      ensures Get(m, k) == Assoc(b'[q].entries, k)
    {
      assert TrailAt(b, tr, q) && ApartAt(tr.at, p, q);
    }
  }

  lemma TrailPut(b: Bodies, tr: Trail, p: PageId, k: Key, v: Value)
    requires Followed(b, tr) && p in tr.at && p in b && b[p].Leaf? && Covers(tr.at[p], k)
    ensures Followed(b[p := Leaf(PutEntry(b[p].entries, k, v), b[p].next)], Trail(tr.at, tr.m[k := v]))
  {
    var es := b[p].entries;
    assert TrailAt(b, tr, p);
    TreeSteps.PutInLeaf(es, b[p].next, tr.at[p], k, v);
    forall j
      ensures if Covers(tr.at[p], j) then Get(tr.m[k := v], j) == Assoc(PutEntry(es, k, v), j)
              else Get(tr.m[k := v], j) == Get(tr.m, j)
    {
      if Covers(tr.at[p], j) { PutEntryMeaning(es, k, v, j); }
    }
    TrailRewritten(b, tr, p, PutEntry(es, k, v), tr.m[k := v]);
  }

  lemma TrailDrop(b: Bodies, tr: Trail, p: PageId, k: Key)
    requires Followed(b, tr) && p in tr.at && p in b && b[p].Leaf?
    ensures Followed(b[p := Leaf(DropEntry(b[p].entries, k), b[p].next)],
                     Trail(tr.at, if Covers(tr.at[p], k) then tr.m - {k} else tr.m))
  {
    var es, m := b[p].entries, if Covers(tr.at[p], k) then tr.m - {k} else tr.m;
    assert TrailAt(b, tr, p);
    DropEntryMeaning(es, k, k);
    forall j
      ensures if Covers(tr.at[p], j) then Get(m, j) == Assoc(DropEntry(es, k), j) else Get(m, j) == Get(tr.m, j)
    {
      DropEntryMeaning(es, k, j);
    }
    TrailRewritten(b, tr, p, DropEntry(es, k), m);
  }

  lemma TrailHalved(b: Bodies, tr: Trail, p: PageId, r: PageId, s: nat)
    requires Followed(b, tr) && p in tr.at && p in b && b[p].Leaf? && 0 < s < |b[p].entries|
    requires r !in b && r != INVALID_PAGE_ID
    ensures Followed(SplitLeafBodies(b, p, r, s), Trail(SplitShape(tr.at, p, r, Rank(b[p].entries[s].0)), tr.m))
  {
    var es, x := b[p].entries, Rank(b[p].entries[s].0);
    var b', tr' := SplitLeafBodies(b, p, r, s), Trail(SplitShape(tr.at, p, r, x), tr.m);
    assert TrailAt(b, tr, p) && TrailAt(b, tr, r);
    assert Covers(tr.at[p], es[s].0) && Rank(es[0].0) < x;
    forall q ensures TrailAt(b', tr', q) { HalvedAt(b, tr, p, r, s, q); }
    forall q, q' ensures ApartAt(tr'.at, q, q') {
      assert ApartAt(tr.at, q, q') && ApartAt(tr.at, p, q) && ApartAt(tr.at, p, q');
    }
    forall q, k | q in tr'.at && q in b' && b'[q].Leaf? && Covers(tr'.at[q], k)
      ensures Get(tr.m, k) == Assoc(b'[q].entries, k)
    {
      AssocCut(es, s, k);
      if q == p || q == r { assert Covers(tr.at[p], k); } else { assert Covers(tr.at[q], k); }
    }
  }

  lemma HalvedAt(b: Bodies, tr: Trail, p: PageId, r: PageId, s: nat, q: PageId)
    requires Followed(b, tr) && p in tr.at && p in b && b[p].Leaf? && 0 < s < |b[p].entries|
    requires r !in b && r != INVALID_PAGE_ID
    ensures TrailAt(SplitLeafBodies(b, p, r, s), Trail(SplitShape(tr.at, p, r, Rank(b[p].entries[s].0)), tr.m), q)
  {
    assert TrailAt(b, tr, p) && TrailAt(b, tr, r) && TrailAt(b, tr, q) && ApartAt(tr.at, p, q);
    assert Covers(tr.at[p], b[p].entries[s].0) && Rank(b[p].entries[0].0) < Rank(b[p].entries[s].0);
    if q in tr.at && q != p && tr.at[q].hi != 1.0 { assert b[q].next in tr.at; }
  }

  /** The trail from a rank on; its first leaf answers for everything below. */
  ghost function Onward(tr: Trail, x: real): Trail {
    Trail(map p | p in tr.at && x <= tr.at[p].lo :: if tr.at[p].lo == x then tr.at[p].(lo := 0.0) else tr.at[p],
          AtOrAbove(tr.m, x))
  }

  lemma TrailOnward(b: Bodies, tr: Trail, x: real)
    requires Followed(b, tr) && 0.0 <= x
    ensures Followed(b, Onward(tr, x))
  {
    var tr' := Onward(tr, x);
    forall p ensures TrailAt(b, tr', p) {
      assert TrailAt(b, tr, p);
      if p in tr'.at { assert TrailAt(b, tr, b[p].next); }
    }
    forall p, q ensures ApartAt(tr'.at, p, q) { assert ApartAt(tr.at, p, q) && TrailAt(b, tr, p) && TrailAt(b, tr, q); }
    forall p, k | p in tr'.at && p in b && b[p].Leaf? && Covers(tr'.at[p], k)
      ensures Get(tr'.m, k) == Assoc(b[p].entries, k)
    {
      assert TrailAt(b, tr, p);
      if Covers(tr.at[p], k) { assert Get(tr.m, k) == Assoc(b[p].entries, k); } else { AssocNone(b[p].entries, k); }
    }
  }

  // ----- walking it -----

  /** `es` is exactly the part of `m` with keys below `x`, in key order. */
  ghost predicate Scanned(es: seq<(Key, Value)>, m: map<Key, Value>, x: real) {
    && Sorted(es)
    && (forall i :: 0 <= i < |es| ==> Rank(es[i].0) < x)
    && (forall k {:trigger Assoc(es, k)} :: Rank(k) < x ==> Assoc(es, k) == Get(m, k))
  }

  lemma ScanLeaf(b: Bodies, tr: Trail, p: PageId, es: seq<(Key, Value)>)
    requires Followed(b, tr) && p in tr.at && Scanned(es, tr.m, tr.at[p].lo)
    ensures p in b && b[p].Leaf? && Scanned(es + b[p].entries, tr.m, tr.at[p].hi)
  {
    assert TrailAt(b, tr, p);
    var x, m := tr.at[p], tr.m;
    SortedConcat(es, b[p].entries, x.lo);
    forall k | Rank(k) < x.hi ensures Assoc(es + b[p].entries, k) == Get(m, k) {
      AssocConcat(es, b[p].entries, k);
      AssocNone(es, k);
      if Covers(tr.at[p], k) {
        assert Get(m, k) == Assoc(b[p].entries, k);
      } else {
        AssocNone(b[p].entries, k);
      }
    }
  }

  lemma SortedConcat<T>(a: seq<(Key, T)>, b: seq<(Key, T)>, x: real)
    requires Sorted(a) && Sorted(b)
    requires forall i :: 0 <= i < |a| ==> Rank(a[i].0) < x
    requires forall i :: 0 <= i < |b| ==> x <= Rank(b[i].0)
    ensures Sorted(a + b)
  {
  }

  // The next leaf starts where this one ends; the last one ends the scan.
  lemma NextLeaf(b: Bodies, tr: Trail, p: PageId)
    requires Followed(b, tr) && p in tr.at
    ensures p in b && b[p].Leaf? && (b[p].next == INVALID_PAGE_ID <==> tr.at[p].hi == 1.0)
    ensures b[p].next != INVALID_PAGE_ID ==>
              var q := b[p].next;
              q in tr.at && q in b && b[q].Leaf? && tr.at[q].lo == tr.at[p].hi && Ahead(tr.at, q) < Ahead(tr.at, p)
  {
    assert TrailAt(b, tr, p);
    if tr.at[p].hi != 1.0 {
      var q := b[p].next;
      assert TrailAt(b, tr, q);
      assert p in Ahead(tr.at, p) && p !in Ahead(tr.at, q);
    }
  }

  /** The pages not yet passed; shrinks with every leaf of a scan. */
  ghost function Ahead(g: Shape, p: PageId): set<PageId>
    requires p in g
  {
    set q | q in g && g[q].lo >= g[p].lo
  }

  // ----- keys beyond the leaf's place on the trail -----

  /** Everything the trail holds behind the leaf is larger than the key. */
  ghost predicate Clear(tr: Trail, p: PageId, k: Key)
    requires p in tr.at
  {
    forall j :: j in tr.m && tr.at[p].hi <= Rank(j) ==> Rank(k) < Rank(j)
  }

  lemma {:induction false} LeastAbove(m: map<Key, Value>, r: real) returns (y: real)
    requires r < 1.0
    ensures r < y <= 1.0 && forall j :: j in m && r < Rank(j) ==> y <= Rank(j)
    decreases |m|
  {
    if m == map[] {
      y := 1.0;
    } else {
      var j :| j in m;
      y := LeastAbove(m - {j}, r);
      if r < Rank(j) < y { y := Rank(j); }
    }
  }

  /** The ranks from `x` on, those below `y` drawn towards it. */
  ghost function Bend(x: real, y: real, c: real, z: real): real {
    if x <= z < y then y - Scaled(y - z, c) else z
  }

  ghost function Scaled(a: real, c: real): real {
    a * c
  }

  lemma ScaledOrder(a: real, b: real, c: real)
    requires a < b && 0.0 < c
    ensures Scaled(a, c) < Scaled(b, c)
  {
    assert Scaled(b, c) - Scaled(a, c) == (b - a) * c;
  }

  lemma ScaledLess(a: real, c: real)
    requires 0.0 < a && 0.0 < c <= 1.0
    ensures 0.0 < Scaled(a, c) <= a
  {
    assert a - Scaled(a, c) == a * (1.0 - c);
  }

  lemma BendUp(x: real, y: real, c: real, z: real)
    requires x < y && 0.0 < c <= 1.0
    ensures z <= Bend(x, y, c, z) && (x <= z < y ==> Bend(x, y, c, z) < y)
  {
    if x <= z < y { ScaledLess(y - z, c); }
  }

  lemma BendOrder(x: real, y: real, c: real, z: real, z': real)
    requires x < y && 0.0 < c <= 1.0 && z < z'
    ensures Bend(x, y, c, z) < Bend(x, y, c, z')
  {
    BendUp(x, y, c, z);
    BendUp(x, y, c, z');
    if x <= z && z' < y { ScaledOrder(y - z', y - z, c); }
  }

  lemma BendPast(x: real, y: real, r: real) returns (c: real)
    requires x <= r < y
    ensures 0.0 < c <= 1.0 && r < Bend(x, y, c, x) < y
  {
    c := (y - r) / (2.0 * (y - x));
    assert Scaled(y - x, c) == (y - r) / 2.0;
    Positive(y - r, y - x);
  }

  lemma Positive(a: real, b: real)
    requires 0.0 < a <= b
    ensures 0.0 < a / (2.0 * b) <= 1.0
  {
  }

  ghost function Bent(tr: Trail, x: real, y: real, c: real): Trail {
    Trail(map p | p in tr.at :: tr.at[p].(lo := Bend(x, y, c, tr.at[p].lo), hi := Bend(x, y, c, tr.at[p].hi)), tr.m)
  }

  // Nothing lies between, so the places of the leaves behind can be drawn back.
  lemma TrailBent(b: Bodies, tr: Trail, x: real, y: real, c: real)
    requires Followed(b, tr) && 0.0 <= x < y <= 1.0 && 0.0 < c <= 1.0
    requires forall j :: j in tr.m && x <= Rank(j) ==> y <= Rank(j)
    ensures Followed(b, Bent(tr, x, y, c))
  {
    var tr' := Bent(tr, x, y, c);
    forall p ensures TrailAt(b, tr', p) {
      if p in tr.at { BentAt(b, tr, x, y, c, p); }
    }
    forall p, q ensures ApartAt(tr'.at, p, q) {
      if p in tr.at && q in tr.at && p != q {
        assert ApartAt(tr.at, p, q);
        BendMono(x, y, c, tr.at[p].hi, tr.at[q].lo);
        BendMono(x, y, c, tr.at[q].hi, tr.at[p].lo);
      }
    }
    forall p, k | p in tr'.at && p in b && b[p].Leaf? && Covers(tr'.at[p], k)
      ensures Get(tr.m, k) == Assoc(b[p].entries, k)
    {
      BentLookup(b, tr, x, y, c, p, k);
    }
  }

  lemma BendMono(x: real, y: real, c: real, z: real, z': real)
    requires x < y && 0.0 < c <= 1.0
    ensures z <= z' ==> Bend(x, y, c, z) <= Bend(x, y, c, z')
  {
    if z < z' { BendOrder(x, y, c, z, z'); }
  }

  lemma BentAt(b: Bodies, tr: Trail, x: real, y: real, c: real, p: PageId)
    requires Followed(b, tr) && 0.0 <= x < y <= 1.0 && 0.0 < c <= 1.0 && p in tr.at
    requires forall j :: j in tr.m && x <= Rank(j) ==> y <= Rank(j)
    ensures TrailAt(b, Bent(tr, x, y, c), p)
  {
    assert TrailAt(b, tr, p);
    var a := tr.at[p];
    BendOrder(x, y, c, a.lo, a.hi);
    BendUp(x, y, c, a.lo);
    BendUp(x, y, c, a.hi);
    if a.hi < 1.0 { BendOrder(x, y, c, a.hi, 1.0); }
    var es := b[p].entries;
    forall i | 0 <= i < |es| ensures Covers(Bent(tr, x, y, c).at[p], es[i].0) {
      AssocAt(es, i);
      assert Covers(a, es[i].0) && es[i].0 in tr.m;
    }
  }

  lemma BentLookup(b: Bodies, tr: Trail, x: real, y: real, c: real, p: PageId, k: Key)
    requires Followed(b, tr) && 0.0 <= x < y <= 1.0 && 0.0 < c <= 1.0 && p in tr.at && p in b && b[p].Leaf?
    requires forall j :: j in tr.m && x <= Rank(j) ==> y <= Rank(j)
    requires Covers(Bent(tr, x, y, c).at[p], k)
    ensures Get(tr.m, k) == Assoc(b[p].entries, k)
  {
    assert TrailAt(b, tr, p);
    var a := tr.at[p];
    BendUp(x, y, c, a.lo);
    BendUp(x, y, c, a.hi);
    if !Covers(a, k) { AssocNone(b[p].entries, k); }
  }

  // A key that everything behind the leaf is larger than has its place there after all.
  lemma TrailStretched(b: Bodies, g: Shape, tr: Trail, p: PageId, k: Key) returns (tr': Trail)
    requires Followed(b, tr) && Enters(g, tr) && p in tr.at && p in g && g[p].height == 0 && Covers(g[p], k)
    requires forall q :: q in g && g[q].height == 0 && q != p ==> g[q].hi <= g[p].lo || g[p].hi <= g[q].lo
    requires forall q :: q in g ==> g[q].lo < g[q].hi <= 1.0
    requires Clear(tr, p, k)
    ensures Followed(b, tr') && Enters(g, tr') && tr'.m == tr.m && p in tr'.at && Covers(tr'.at[p], k)
  {
    assert EntersAt(g, tr, p) && TrailAt(b, tr, p);
    if Covers(tr.at[p], k) {
      tr' := tr;
    } else {
      var x := tr.at[p].hi;
      var y := LeastAbove(tr.m, Rank(k));
      var c := BendPast(x, y, Rank(k));
      TrailBent(b, tr, x, y, c);
      tr' := Bent(tr, x, y, c);
      forall q ensures EntersAt(g, tr', q) { assert EntersAt(g, tr, q); }
    }
  }

  // A key with something smaller or equal behind its leaf: the walk no longer follows any trail.
  lemma {:induction false} OutOfOrder(b: Bodies, tr: Trail, b': Bodies, tr': Trail, q: PageId, j: Key)
    requires Followed(b, tr) && Followed(b', tr') && q in tr.at && q in tr'.at && j in tr.m
    requires forall p :: p in tr.at && tr.at[p].lo >= tr.at[q].lo && p in b ==> p in b' && b'[p] == b[p]
    requires tr.at[q].lo <= Rank(j) < tr'.at[q].lo
    ensures false
    decreases Ahead(tr.at, q)
  {
    assert TrailAt(b, tr, q) && TrailAt(b', tr', q);
    if Covers(tr.at[q], j) {
      assert Get(tr.m, j) == Assoc(b[q].entries, j);
      AssocNone(b[q].entries, j);
    } else {
      NextLeaf(b, tr, q);
      OutOfOrder(b, tr, b', tr', b[q].next, j);
    }
  }

  // ----- every walk ends -----

  /** Each leaf is nearer to the end of its walk than the one before it. */
  ghost predicate NearerAt(b: Bodies, far: map<PageId, nat>, p: PageId) {
    p in b && b[p].Leaf? ==>
      p in far && (b[p].next == INVALID_PAGE_ID || NextNearer(b, far, p, b[p].next))
  }

  ghost predicate NextNearer(b: Bodies, far: map<PageId, nat>, p: PageId, q: PageId)
    requires p in far
  {
    q in b && b[q].Leaf? && q in far && far[q] < far[p]
  }

  ghost predicate Nearer(b: Bodies, far: map<PageId, nat>) {
    forall p {:trigger NearerAt(b, far, p)} :: NearerAt(b, far, p)
  }

  /** From every leaf, in the tree or cut off from it, the sibling pointers lead to an end. */
  ghost predicate Ends(b: Bodies) {
    exists far :: Nearer(b, far)
  }

  lemma EndsRewritten(b: Bodies, p: PageId, es: seq<(Key, Value)>)
    requires Ends(b) && p in b && b[p].Leaf?
    ensures Ends(b[p := Leaf(es, b[p].next)])
  {
    var far :| Nearer(b, far);
    var b' := b[p := Leaf(es, b[p].next)];
    forall q ensures NearerAt(b', far, q) { assert NearerAt(b, far, q); }
    assert Nearer(b', far);
  }

  // A leaf put between two others is between them for the walk as well.
  lemma EndsHalved(b: Bodies, p: PageId, r: PageId, lower: seq<(Key, Value)>, upper: seq<(Key, Value)>)
    requires Ends(b) && p in b && b[p].Leaf? && r !in b && r != INVALID_PAGE_ID
    ensures Ends(b[p := Leaf(lower, r)][r := Leaf(upper, b[p].next)])
  {
    var far :| Nearer(b, far);
    var b' := b[p := Leaf(lower, r)][r := Leaf(upper, b[p].next)];
    assert NearerAt(b, far, p);
    var far' := (map q | q in far :: 2 * far[q] + 1)[r := 2 * far[p]];
    forall q ensures NearerAt(b', far', q) { assert NearerAt(b, far, q); }
    assert Nearer(b', far');
  }

  // ----- what a walk meets, in any tree -----

  ghost predicate OnPath(b: Bodies, ps: seq<PageId>, i: nat)
    requires i < |ps|
  {
    ps[i] in b && b[ps[i]].Leaf? && (i + 1 < |ps| ==> b[ps[i]].next == ps[i + 1] != INVALID_PAGE_ID)
  }

  /** The sibling pointers lead from each of these leaves to the next. */
  ghost predicate Path(b: Bodies, ps: seq<PageId>) {
    ps != [] && forall i :: 0 <= i < |ps| ==> OnPath(b, ps, i)
  }

  ghost function Stop(b: Bodies, ps: seq<PageId>): PageId
    requires Path(b, ps)
  {
    assert OnPath(b, ps, |ps| - 1);
    b[ps[|ps| - 1]].next
  }

  /** What these leaves hold, one after the other. */
  ghost function Gathered(b: Bodies, ps: seq<PageId>): seq<(Key, Value)>
    requires Path(b, ps)
  {
    var p := ps[|ps| - 1];
    assert OnPath(b, ps, |ps| - 1);
    if |ps| == 1 then b[p].entries else PathFront(b, ps); Gathered(b, ps[..|ps| - 1]) + b[p].entries
  }

  lemma PathFront(b: Bodies, ps: seq<PageId>)
    requires Path(b, ps) && |ps| > 1
    ensures Path(b, ps[..|ps| - 1]) && Stop(b, ps[..|ps| - 1]) == ps[|ps| - 1] != INVALID_PAGE_ID
  {
    var front := ps[..|ps| - 1];
    forall i | 0 <= i < |front| ensures OnPath(b, front, i) { assert OnPath(b, ps, i); }
    assert OnPath(b, ps, |ps| - 2);
  }

  lemma PathMore(b: Bodies, ps: seq<PageId>, p: PageId)
    requires Path(b, ps) && Stop(b, ps) == p && p in b && b[p].Leaf? && p != INVALID_PAGE_ID
    ensures Path(b, ps + [p]) && Stop(b, ps + [p]) == b[p].next
    ensures Gathered(b, ps + [p]) == Gathered(b, ps) + b[p].entries
  {
    var more := ps + [p];
    forall i | 0 <= i < |more| ensures OnPath(b, more, i) { if i < |ps| { assert OnPath(b, ps, i); } }
    assert more[..|more| - 1] == ps;
  }

  /** `es` lists the map in key order. */
  ghost predicate Lists(es: seq<(Key, Value)>, m: map<Key, Value>) {
    Sorted(es) && forall k :: Assoc(es, k) == Get(m, k)
  }

  // A walk along a trail has met, in key order, what the trail holds up to where it is.
  lemma {:induction false} WalkScans(b: Bodies, tr: Trail, ps: seq<PageId>)
    requires Followed(b, tr) && Path(b, ps) && ps[0] in tr.at && tr.at[ps[0]].lo == 0.0
    ensures ps[|ps| - 1] in tr.at && Scanned(Gathered(b, ps), tr.m, tr.at[ps[|ps| - 1]].hi)
  {
    var p := ps[|ps| - 1];
    if |ps| == 1 {
      ScanLeaf(b, tr, p, []);
      assert [] + b[p].entries == b[p].entries;
    } else {
      var front := ps[..|ps| - 1];
      PathFront(b, ps);
      WalkScans(b, tr, front);
      NextLeaf(b, tr, front[|front| - 1]);
      ScanLeaf(b, tr, p, Gathered(b, front));
    }
  }

  // A walk to the end lists the whole trail.
  lemma WalkLists(b: Bodies, tr: Trail, ps: seq<PageId>)
    requires Followed(b, tr) && Path(b, ps) && Stop(b, ps) == INVALID_PAGE_ID
    requires ps[0] in tr.at && tr.at[ps[0]].lo == 0.0
    ensures Lists(Gathered(b, ps), tr.m)
  {
    WalkScans(b, tr, ps);
    NextLeaf(b, tr, ps[|ps| - 1]);
  }

  // ----- ranges -----

  predicate InRange(k: Key, lo: Key, hi: Key) {
    !Less(k, lo) && !Less(hi, k)
  }

  lemma InRangeRank(k: Key, lo: Key, hi: Key)
    ensures InRange(k, lo, hi) <==> Rank(lo) <= Rank(k) <= Rank(hi)
  {
    RankOrder(k, lo);
    RankOrder(hi, k);
  }

  /** The entries of a sequence whose keys lie in the range. */
  function Between(es: seq<(Key, Value)>, lo: Key, hi: Key): seq<(Key, Value)> {
    if es == [] then []
    else if InRange(es[0].0, lo, hi) then [es[0]] + Between(es[1..], lo, hi)
    else Between(es[1..], lo, hi)
  }

  ghost predicate RanksIn(es: seq<(Key, Value)>, a: real, c: real) {
    forall i :: 0 <= i < |es| ==> a <= Rank(es[i].0) < c
  }

  lemma {:induction false} BetweenBounds(es: seq<(Key, Value)>, lo: Key, hi: Key, a: real, c: real)
    requires RanksIn(es, a, c)
    ensures RanksIn(Between(es, lo, hi), a, c)
  {
    if es != [] {
      assert RanksIn(es[1..], a, c);
      BetweenBounds(es[1..], lo, hi, a, c);
    }
  }

  lemma {:induction false} BetweenSorted(es: seq<(Key, Value)>, lo: Key, hi: Key)
    requires Sorted(es)
    ensures Sorted(Between(es, lo, hi))
  {
    if |es| == 1 {
      assert es[1..] == [];
    } else if es != [] {
      BetweenSorted(es[1..], lo, hi);
      SortedAbove(es, 1);
      BetweenBounds(es[1..], lo, hi, Rank(es[1].0), 1.0);
      SortedConcat([es[0]], Between(es[1..], lo, hi), Rank(es[1].0));
    }
  }

  lemma {:induction false} BetweenMeaning(es: seq<(Key, Value)>, lo: Key, hi: Key, k: Key)
    requires Sorted(es)
    ensures Assoc(Between(es, lo, hi), k) == if InRange(k, lo, hi) then Assoc(es, k) else None
  {
    if es != [] {
      BetweenMeaning(es[1..], lo, hi, k);
      AssocNone(es[1..], k);
      if InRange(es[0].0, lo, hi) {
        AssocConcat([es[0]], Between(es[1..], lo, hi), k);
      }
    }
  }

  lemma {:induction false} BetweenConcat(a: seq<(Key, Value)>, c: seq<(Key, Value)>, lo: Key, hi: Key)
    ensures Between(a + c, lo, hi) == Between(a, lo, hi) + Between(c, lo, hi)
  {
    if a == [] {
      assert a + c == c;
    } else {
      assert (a + c)[1..] == a[1..] + c;
      BetweenConcat(a[1..], c, lo, hi);
    }
  }

  // Nothing from a key beyond the range on can be in it.
  lemma {:induction false} BetweenBeyond(es: seq<(Key, Value)>, lo: Key, hi: Key)
    requires Sorted(es) && (es != [] ==> Less(hi, es[0].0))
    ensures Between(es, lo, hi) == []
  {
    if |es| > 1 {
      RankOrder(hi, es[0].0);
      RankOrder(hi, es[1].0);
      BetweenBeyond(es[1..], lo, hi);
    }
  }

  /** `es` is exactly the part of `m` in the range and below `x`, in key order. */
  ghost predicate RangeScanned(es: seq<(Key, Value)>, m: map<Key, Value>, lo: Key, hi: Key, x: real) {
    && Sorted(es)
    && (forall i :: 0 <= i < |es| ==> Rank(es[i].0) < x)
    && (forall k {:trigger Assoc(es, k)} :: Rank(k) < x ==>
          Assoc(es, k) == if InRange(k, lo, hi) then Get(m, k) else None)
  }

  lemma RangeStart(tr: Trail, lo: Key, hi: Key, x: real)
    requires x <= Rank(lo)
    ensures RangeScanned([], tr.m, lo, hi, x)
  {
    forall k | Rank(k) < x ensures !InRange(k, lo, hi) { InRangeRank(k, lo, hi); }
  }

  lemma RangeLeaf(b: Bodies, tr: Trail, p: PageId, es: seq<(Key, Value)>, lo: Key, hi: Key)
    requires Followed(b, tr) && p in tr.at && RangeScanned(es, tr.m, lo, hi, tr.at[p].lo)
    ensures p in b && b[p].Leaf? && RangeScanned(es + Between(b[p].entries, lo, hi), tr.m, lo, hi, tr.at[p].hi)
  {
    assert TrailAt(b, tr, p);
    var g, m := tr.at, tr.m;
    var part := Between(b[p].entries, lo, hi);
    BetweenSorted(b[p].entries, lo, hi);
    BetweenBounds(b[p].entries, lo, hi, g[p].lo, g[p].hi);
    SortedConcat(es, part, g[p].lo);
    forall k | Rank(k) < g[p].hi
      ensures Assoc(es + part, k) == if InRange(k, lo, hi) then Get(m, k) else None
    {
      AssocConcat(es, part, k);
      AssocNone(es, k);
      BetweenMeaning(b[p].entries, lo, hi, k);
      if Covers(tr.at[p], k) {
        assert Get(m, k) == Assoc(b[p].entries, k);
      } else {
        AssocNone(b[p].entries, k);
      }
    }
  }

  // Past the end of the range nothing is missed.
  lemma RangeDone(es: seq<(Key, Value)>, m: map<Key, Value>, lo: Key, hi: Key, x: real)
    requires RangeScanned(es, m, lo, hi, x) && Rank(hi) < x
    ensures RangeScanned(es, m, lo, hi, 1.0)
  {
    forall k ensures Assoc(es, k) == if InRange(k, lo, hi) then Get(m, k) else None {
      InRangeRank(k, lo, hi);
      AssocNone(es, k);
    }
  }

  lemma RangeStop(b: Bodies, tr: Trail, p: PageId, es: seq<(Key, Value)>, lo: Key, hi: Key)
    requires Followed(b, tr) && p in tr.at && p in b && b[p].Leaf? && RangeScanned(es, tr.m, lo, hi, tr.at[p].hi)
    requires exists i :: 0 <= i < |b[p].entries| && Less(hi, b[p].entries[i].0)
    ensures RangeScanned(es, tr.m, lo, hi, 1.0)
  {
    assert TrailAt(b, tr, p);
    var i :| 0 <= i < |b[p].entries| && Less(hi, b[p].entries[i].0);
    RankOrder(hi, b[p].entries[i].0);
    RangeDone(es, tr.m, lo, hi, tr.at[p].hi);
  }

  /** Some key of the leaf lies beyond the range. */
  ghost predicate Beyond(b: Bodies, p: PageId, hi: Key) {
    p in b && b[p].Leaf? && exists i :: 0 <= i < |b[p].entries| && Less(hi, b[p].entries[i].0)
  }

  /** A walk that ended or was broken off where a key lies beyond the range. */
  ghost predicate Ranged(b: Bodies, ps: seq<PageId>, hi: Key) {
    && Path(b, ps) && (Stop(b, ps) == INVALID_PAGE_ID || Beyond(b, ps[|ps| - 1], hi))
    && forall i :: 0 <= i < |ps| - 1 ==> !Beyond(b, ps[i], hi)
  }

  /** `es` lists the part of the map in the range in key order. */
  ghost predicate ListsRange(es: seq<(Key, Value)>, m: map<Key, Value>, lo: Key, hi: Key) {
    Sorted(es) && forall k :: Assoc(es, k) == if InRange(k, lo, hi) then Get(m, k) else None
  }

  lemma {:induction false} WalkRanges(b: Bodies, tr: Trail, ps: seq<PageId>, lo: Key, hi: Key)
    requires Followed(b, tr) && Path(b, ps) && ps[0] in tr.at && tr.at[ps[0]].lo <= Rank(lo)
    ensures var p := ps[|ps| - 1];
            p in tr.at && RangeScanned(Between(Gathered(b, ps), lo, hi), tr.m, lo, hi, tr.at[p].hi)
  {
    var p := ps[|ps| - 1];
    if |ps| == 1 {
      RangeStart(tr, lo, hi, tr.at[p].lo);
      RangeLeaf(b, tr, p, [], lo, hi);
      assert [] + Between(b[p].entries, lo, hi) == Between(b[p].entries, lo, hi);
    } else {
      var front := ps[..|ps| - 1];
      PathFront(b, ps);
      WalkRanges(b, tr, front, lo, hi);
      NextLeaf(b, tr, front[|front| - 1]);
      RangeLeaf(b, tr, p, Between(Gathered(b, front), lo, hi), lo, hi);
      BetweenConcat(Gathered(b, front), b[p].entries, lo, hi);
    }
  }

  // A walk from the leaf that answers for the lower bound lists the range of the trail.
  lemma WalkListsRange(b: Bodies, tr: Trail, ps: seq<PageId>, lo: Key, hi: Key)
    requires Followed(b, tr) && Ranged(b, ps, hi) && ps[0] in tr.at && tr.at[ps[0]].lo <= Rank(lo)
    ensures ListsRange(Between(Gathered(b, ps), lo, hi), tr.m, lo, hi)
  {
    var p := ps[|ps| - 1];
    WalkRanges(b, tr, ps, lo, hi);
    NextLeaf(b, tr, p);
    if Beyond(b, p, hi) { RangeStop(b, tr, p, Between(Gathered(b, ps), lo, hi), lo, hi); }
  }

  // One turn of the loop over a leaf's entries.
  lemma RangeTurn(es: seq<(Key, Value)>, i: nat, lo: Key, hi: Key)
    requires Sorted(es) && i < |es|
    ensures Less(hi, es[i].0) ==> Between(es, lo, hi) == Between(es[..i], lo, hi)
    ensures Between(es[..i + 1], lo, hi) ==
            Between(es[..i], lo, hi) + (if InRange(es[i].0, lo, hi) then [es[i]] else [])
  {
    assert es == es[..i] + es[i..] && es[..i + 1] == es[..i] + [es[i]];
    BetweenConcat(es[..i], es[i..], lo, hi);
    BetweenConcat(es[..i], [es[i]], lo, hi);
    if Less(hi, es[i].0) { BetweenBeyond(es[i..], lo, hi); }
  }
}
