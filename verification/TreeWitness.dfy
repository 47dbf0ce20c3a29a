// A run from an empty tree that loses a key by inserting another one.
//
// Insertions and deletions first build a tree in perfect order: a full root over 25 leaves, most
// of them empty again.  Then one insertion splits the first leaf and the root; the leaf's right
// half sorts before the root's split point and stays without a parent.  The next insertion splits
// that half, which thereby becomes the root.
module TreeWitness {
  import opened Bytes
  import opened KeyOrder
  import opened NodeBody
  import opened Layout
  import opened SplitFit
  import opened TreeShape
  import opened TreeSteps
  import opened TreeCascade
  import opened TreeScan
  import opened TreeInsert

  // ----- what the two insertions do, for all such trees -----

  ghost predicate PagesBelow(b: Bodies, n: nat) {
    forall p :: p in b ==> p < n
  }

  /** The tree under a new root above its old one and that one's right half. */
  ghost function Rooted(u: Tree, right: PageId, top: PageId, key: Key): Tree
    requires u.root in u.g && right in u.g
  {
    Tree(u.b[top := Inner(u.root, [(key, right)])], u.par[top := INVALID_PAGE_ID][u.root := top][right := top],
         NewRootShape(u.g, u.root, right, top), top, u.m)
  }

  // The leaf split off as a value; whatever the cascade makes of it completes the insertion.
  lemma SplitOff(t: Tree, leaf: PageId, k: Key, v: Value, n: PageId) returns (u: Tree)
    requires Sound(t, Settled) && LeafFor(t, leaf, k) && EntrySize((k, v)) <= MAX_ENTRY && !InPlace(t, leaf, k, v)
    requires PagesBelow(t.b, n) && n < INVALID_PAGE_ID
    ensures Sound(u, Split(leaf, n)) && PagesBelow(u.b, n + 1) && leaf in t.par && u.par[n] == INVALID_PAGE_ID
    ensures Rank(MiddleOf(t, leaf, k, v)) == u.g[n].lo && 0 < |MiddleOf(t, leaf, k, v)| <= MAX_ENTRY - LEAF_SLOT_SIZE
    ensures u.g[leaf].height == 0 && u.par[leaf] == t.par[leaf] && (CutOff(t, leaf) ==> u.root == leaf)
    ensures u.b[n] == Leaf(RightHalf(t, leaf, k, v), t.b[leaf].next)
    ensures forall w {:trigger Inserted(t, leaf, k, v, w)} ::
              Led(u, leaf, n, FateIn(u, leaf, MiddleOf(t, leaf, k, v)), w) ==> Inserted(t, leaf, k, v, w)
    ensures !CutOff(t, leaf) ==>
              u.root == t.root && u.g[n].hi == t.g[leaf].hi && Above(t.b, t.par, t.g, u.b, u.par, u.g, 0)
  {
    u := LeafSplit(t, leaf, k, v, n);
    LeafSplitOk(t, leaf, k, v, n);
    SplitHasTwo(t, leaf, k, v);
    LeafSplitStore(t, leaf, k, v, n);
    if !CutOff(t, leaf) { LeafSplitAbove(t, leaf, k, v, n); }
    forall w | Led(u, leaf, n, FateIn(u, leaf, MiddleOf(t, leaf, k, v)), w) ensures Inserted(t, leaf, k, v, w) {
      InsertedBySplit(t, leaf, k, v, n, w);
    }
  }

  ghost function RightHalf(t: Tree, leaf: PageId, k: Key, v: Value): seq<(Key, Value)>
    requires LeafFor(t, leaf, k)
  {
    var es := PutEntry(t.b[leaf].entries, k, v);
    es[|es| / 2..]
  }

  // A full leaf below a full root, its new separator before the root's split point: the leaf's
  // right half ends up in the tree without a parent.
  lemma OrphanPut(t: Tree, leaf: PageId, k: Key, v: Value, n: PageId) returns (w: Tree)
    requires Sound(t, Settled) && LeafFor(t, leaf, k) && EntrySize((k, v)) <= MAX_ENTRY && !InPlace(t, leaf, k, v)
    requires leaf != t.root && leaf in t.par && t.par[leaf] == t.root && t.root in t.b && t.b[t.root].Inner?
    requires var sep := MiddleOf(t, leaf, k, v); var seps := t.b[t.root].seps;
             !InnerHasRoom(seps, sep) && LowerBound(seps, sep) < (|seps| + 1) / 2
    requires PagesBelow(t.b, n) && n + 3 < INVALID_PAGE_ID
    ensures Inserted(t, leaf, k, v, w) && PagesBelow(w.b, n + 3)
    ensures n in w.g && w.g[n].height == 0 && w.g[n].lo == Rank(MiddleOf(t, leaf, k, v)) && w.g[n].hi == t.g[leaf].hi
    ensures CutOff(w, n) && n in w.b && w.b[n] == Leaf(RightHalf(t, leaf, k, v), t.b[leaf].next)
  {
    var u := SplitOff(t, leaf, k, v, n);
    assert PageOk(t.b, t.g, t.root, Settled, t.root);
    assert AboveAt(t.b, t.par, t.g, u.b, u.par, u.g, 0, t.root);
    w := OrphanCascade(u, leaf, n, t.root, MiddleOf(t, leaf, k, v));
  }

  // The full root with the leaf's separator, split; the separator's page stays behind.
  lemma RootSplit(u: Tree, leaf: PageId, n: PageId, q: PageId, sep: Key) returns (s: Tree)
    requires SplitBelow(u, leaf, n, q, sep) && q == u.root && q in u.b && u.b[q].Inner? && u.g[leaf].height == 0
    requires !InnerHasRoom(u.b[q].seps, sep) && LowerBound(u.b[q].seps, sep) < (|u.b[q].seps| + 1) / 2
    requires PagesBelow(u.b, n + 1) && n + 2 < INVALID_PAGE_ID
    ensures Sound(s, Split(q, n + 1)) && s.root == q && PagesBelow(s.b, n + 2) && s.g[q].height > 0
    ensures Rank(Middle(u.b[q].seps, sep, n)) == s.g[n + 1].lo
    ensures 0 < |Middle(u.b[q].seps, sep, n)| <= MAX_ENTRY - LEAF_SLOT_SIZE
    ensures KeptAt(u, s, 0, n) && LeafStays(u.b, s.b, n) && n in s.par && s.par[n] == INVALID_PAGE_ID
    ensures forall w {:trigger Led(u, leaf, n, FateIn(u, leaf, sep), w)} ::
              Led(s, q, n + 1, FateIn(s, q, Middle(u.b[q].seps, sep, n)), w) ==>
                Led(u, leaf, n, FateIn(u, leaf, sep), w)
  {
    s := Stepped(u, q, sep, n, n + 1);
    SteppedOk(u, leaf, n, q, sep, n + 1);
    RootSplitPages(u, leaf, n, q, sep);
    RootSplitKeeps(u, leaf, n, q, sep);
    RootSplitLeads(u, leaf, n, q, sep, s);
  }

  lemma RootSplitLeads(u: Tree, leaf: PageId, n: PageId, q: PageId, sep: Key, s: Tree)
    requires SplitBelow(u, leaf, n, q, sep) && q in u.g && q in u.b && u.b[q].Inner? && q in u.par
    requires !InnerHasRoom(u.b[q].seps, sep) && n + 1 !in u.b && n + 1 < INVALID_PAGE_ID
    requires s == Stepped(u, q, sep, n, n + 1) && Sound(s, Split(q, n + 1))
    ensures forall w {:trigger Led(u, leaf, n, FateIn(u, leaf, sep), w)} ::
              Led(s, q, n + 1, FateIn(s, q, Middle(u.b[q].seps, sep, n)), w) ==>
                Led(u, leaf, n, FateIn(u, leaf, sep), w)
  {
    forall w | Led(s, q, n + 1, FateIn(s, q, Middle(u.b[q].seps, sep, n)), w)
      ensures Led(u, leaf, n, FateIn(u, leaf, sep), w)
    {
      LedBySplitting(u, leaf, n, q, sep, n + 1, w);
    }
  }

  lemma RootSplitPages(u: Tree, leaf: PageId, n: PageId, q: PageId, sep: Key)
    requires SplitBelow(u, leaf, n, q, sep) && q in u.g && q in u.b && u.b[q].Inner? && q in u.par
    requires PagesBelow(u.b, n + 1) && n + 2 < INVALID_PAGE_ID
    ensures var s := Stepped(u, q, sep, n, n + 1); PagesBelow(s.b, n + 2) && LeafStays(u.b, s.b, n)
  {
    SteppedStore(u, leaf, n, q, sep, n + 1);
  }

  lemma RootSplitKeeps(u: Tree, leaf: PageId, n: PageId, q: PageId, sep: Key)
    requires SplitBelow(u, leaf, n, q, sep) && q == u.root && q in u.g && q in u.b && u.b[q].Inner? && q in u.par
    requires !InnerHasRoom(u.b[q].seps, sep) && LowerBound(u.b[q].seps, sep) < (|u.b[q].seps| + 1) / 2
    requires u.g[leaf].height == 0 && n + 1 !in u.b && n + 2 < INVALID_PAGE_ID
    ensures var s := Stepped(u, q, sep, n, n + 1);
            && KeptAt(u, s, 0, n) && n in s.par && s.par[n] == INVALID_PAGE_ID && q in s.g && s.g[q].height > 0
  {
    SepIsNew(u, leaf, n, q, sep);
    NewChildMoves(u, leaf, n, q, sep, n + 1);
    AttachedOk(u, leaf, n, q, sep);
    StaysBehind(u, leaf, n, q, sep, n + 1);
    SteppedSame(u, leaf, n, q, sep, n + 1);
    SteppedAbove(u, leaf, n, q, sep, n + 1);
    assert KeptAt(u, Stepped(u, q, sep, n, n + 1), u.g[leaf].height, n);
  }

  lemma OrphanCascade(u: Tree, leaf: PageId, n: PageId, q: PageId, sep: Key) returns (w: Tree)
    requires SplitBelow(u, leaf, n, q, sep) && q == u.root && q in u.b && u.b[q].Inner? && u.g[leaf].height == 0
    requires !InnerHasRoom(u.b[q].seps, sep) && LowerBound(u.b[q].seps, sep) < (|u.b[q].seps| + 1) / 2
    requires PagesBelow(u.b, n + 1) && n + 3 < INVALID_PAGE_ID
    ensures Led(u, leaf, n, FateIn(u, leaf, sep), w) && PagesBelow(w.b, n + 3)
    ensures KeptAt(u, w, 0, n) && LeafStays(u.b, w.b, n) && CutOff(w, n)
  {
    var up := Middle(u.b[q].seps, sep, n);
    var s := RootSplit(u, leaf, n, q, sep);
    w := Rooted(s, n + 1, n + 2, up);
    LedByNewRoot(s, n + 1, n + 2, up);
    assert KeptAt(s, w, s.g[q].height, n) && LeafStays(s.b, w.b, n);
    assert Led(u, leaf, n, FateIn(u, leaf, sep), w);
    assert KeptAt(u, w, u.g[leaf].height, n);
  }

  // The child that does not move keeps its invalid pointer.
  lemma StaysBehind(u: Tree, leaf: PageId, n: PageId, q: PageId, sep: Key, right: PageId)
    requires SplitBelow(u, leaf, n, q, sep) && right !in u.b && right != INVALID_PAGE_ID
    requires q in u.g && q in u.b && u.b[q].Inner? && q in u.par && !CutOff(u, q) && n in u.par
    requires var a := Attached(u, q, sep, n); q in a.b && a.b[q].Inner? && !Moves(a.b[q], |a.b[q].seps| / 2, n)
    ensures var s := Stepped(u, q, sep, n, right); n in s.par && s.par[n] == INVALID_PAGE_ID
  {
    AttachedOk(u, leaf, n, q, sep);
  }

  // Splitting a full leaf that has lost its parent leaves the keys of its interval.
  lemma LossPut(t: Tree, leaf: PageId, k: Key, v: Value, n: PageId) returns (w: Tree)
    requires Sound(t, Settled) && LeafFor(t, leaf, k) && EntrySize((k, v)) <= MAX_ENTRY && !InPlace(t, leaf, k, v)
    requires CutOff(t, leaf) && PagesBelow(t.b, n) && n + 1 < INVALID_PAGE_ID
    ensures Inserted(t, leaf, k, v, w) && InsertFate(t, leaf, k, v).lost == Some(leaf)
  {
    var sep := MiddleOf(t, leaf, k, v);
    var u := SplitOff(t, leaf, k, v, n);
    w := Rooted(u, n, n + 1, sep);
    LedByNewRoot(u, n, n + 1, sep);
    assert Inserted(t, leaf, k, v, w);
  }

  // ----- runs -----

  ghost predicate FitOps(ops: seq<Op>) {
    forall i :: 0 <= i < |ops| && ops[i].Put? ==> EntrySize((ops[i].key, ops[i].value)) <= MAX_ENTRY
  }

  ghost predicate RunFrom(t: Tree, ts: seq<Tree>, ops: seq<Op>, w: Tree) {
    RunOf(ts, ops) && FitOps(ops) && ts[0] == t && ts[|ops|] == w
  }

  /** Some insertions of entries within the bound and some deletions lead from one tree to the other. */
  ghost predicate Reaches(t: Tree, w: Tree) {
    exists ts, ops :: RunFrom(t, ts, ops, w)
  }

  lemma ReachesItself(t: Tree)
    ensures Reaches(t, t)
  {
    assert RunFrom(t, [t], [], t) by {
      forall i | 0 <= i ensures TookAt([t], [], i) {}
    }
  }

  lemma ReachesMore(t: Tree, w: Tree, op: Op, w': Tree)
    requires Reaches(t, w) && Took(w, op, w') && (op.Put? ==> EntrySize((op.key, op.value)) <= MAX_ENTRY)
    ensures Reaches(t, w')
  {
    var ts, ops :| RunFrom(t, ts, ops, w);
    RunFromMore(t, ts, ops, w, op, w');
  }

  lemma RunFromMore(t: Tree, ts: seq<Tree>, ops: seq<Op>, w: Tree, op: Op, w': Tree)
    requires RunFrom(t, ts, ops, w) && Took(w, op, w') && (op.Put? ==> EntrySize((op.key, op.value)) <= MAX_ENTRY)
    ensures RunFrom(t, ts + [w'], ops + [op], w')
  {
    RunMore(ts, ops, op, w');
  }

  // ----- filling a leaf, emptying the tree -----

  function AddAll(m: map<Key, Value>, es: seq<(Key, Value)>): map<Key, Value> {
    if es == [] then m else AddAll(m, es[..|es| - 1])[es[|es| - 1].0 := es[|es| - 1].1]
  }

  lemma {:induction false} AddAllKeys(m: map<Key, Value>, es: seq<(Key, Value)>)
    ensures m.Keys <= AddAll(m, es).Keys
    ensures forall k :: k in AddAll(m, es) ==> k in m || exists i :: 0 <= i < |es| && es[i].0 == k
  {
    if es != [] {
      AddAllKeys(m, es[..|es| - 1]);
      forall k | k in AddAll(m, es) ensures k in m || exists i :: 0 <= i < |es| && es[i].0 == k {
        if k !in m && k != es[|es| - 1].0 {
          var i :| 0 <= i < |es[..|es| - 1]| && es[..|es| - 1][i].0 == k;
          assert es[i].0 == k;
        }
      }
    }
  }

  ghost function Filled(t: Tree, leaf: PageId, es: seq<(Key, Value)>): Tree
    requires leaf in t.b && t.b[leaf].Leaf?
  {
    t.(b := t.b[leaf := Leaf(es, t.b[leaf].next)], m := AddAll(t.m, es))
  }

  /** The entries can go into the empty leaf one after the other. */
  ghost predicate CanFill(t: Tree, leaf: PageId, es: seq<(Key, Value)>) {
    && InOrder(t, 0) && leaf in t.g && leaf in t.b && t.b[leaf].Leaf? && t.b[leaf].entries == []
    && Sorted(es) && EntriesWithin(es, MAX_ENTRY) && LeafSize(es) + LEAF_SLOT_SIZE <= LEAF_ROOM
    && forall j :: 0 <= j < |es| ==> Covers(t.g[leaf], es[j].0)
  }

  lemma {:induction false} FillReaches(t0: Tree, t: Tree, leaf: PageId, es: seq<(Key, Value)>, i: nat)
    requires Reaches(t0, t) && CanFill(t, leaf, es) && i <= |es|
    ensures InOrder(Filled(t, leaf, es[..i]), 0) && Reaches(t0, Filled(t, leaf, es[..i]))
  {
    if i == 0 {
      assert Filled(t, leaf, es[..0]) == t;
    } else {
      FillReaches(t0, t, leaf, es, i - 1);
      FillOne(t, leaf, es, i - 1);
      var w, w' := Filled(t, leaf, es[..i - 1]), Filled(t, leaf, es[..i]);
      ReachesMore(t0, w, Put(es[i - 1].0, es[i - 1].1), w');
    }
  }

  lemma FillOne(t: Tree, leaf: PageId, es: seq<(Key, Value)>, i: nat)
    requires CanFill(t, leaf, es) && i < |es| && InOrder(Filled(t, leaf, es[..i]), 0)
    ensures InOrder(Filled(t, leaf, es[..i + 1]), 0)
    ensures Took(Filled(t, leaf, es[..i]), Put(es[i].0, es[i].1), Filled(t, leaf, es[..i + 1]))
  {
    var w, k, v := Filled(t, leaf, es[..i]), es[i].0, es[i].1;
    PutLast(es, i);
    assert es[..i + 1][..i] == es[..i];
    assert PutIn(w, leaf, k, v) == Filled(t, leaf, es[..i + 1]);
    RoomFor(es, i);
    PutInOrder(w, leaf, k, v);
  }

  lemma RoomFor(es: seq<(Key, Value)>, i: nat)
    requires i < |es| && LeafSize(es) + LEAF_SLOT_SIZE <= LEAF_ROOM
    ensures LeafHasRoom(es[..i], es[i].0, es[i].1)
  {
    LeafSizePrefix(es, i + 1);
    SizeOneMore(es[..i], es[i]);
    assert es[..i + 1] == es[..i] + [es[i]];
  }

  lemma SizeOneMore(es: seq<(Key, Value)>, e: (Key, Value))
    ensures LeafSize(es + [e]) == LeafSize(es) + EntrySize(e)
  {
    LeafSizeConcat(es, [e]);
    assert [e][1..] == [];
  }

  lemma PutInOrder(t: Tree, leaf: PageId, k: Key, v: Value)
    requires InOrder(t, 0) && LeafFor(t, leaf, k) && EntrySize((k, v)) <= MAX_ENTRY && InPlace(t, leaf, k, v)
    ensures Took(t, Put(k, v), PutIn(t, leaf, k, v)) && InOrder(PutIn(t, leaf, k, v), 0)
  {
    InsertedInPlace(t, leaf, k, v);
    forall p | LeafFor(t, p, k) ensures !InsertFate(t, p, k, v).orphans { SameLeafFor(t, p, leaf, k); }
    OneOp(t, Put(k, v), PutIn(t, leaf, k, v), 0);
  }

  // Every key has its leaf.
  lemma {:induction false} LeafExists(t: Tree, p: PageId, k: Key) returns (leaf: PageId)
    requires Sound(t, Settled) && p in t.g && Covers(t.g[p], k)
    ensures LeafFor(t, leaf, k)
    decreases t.g[p].height
  {
    assert PageOk(t.b, t.g, t.root, Settled, p);
    if t.b[p].Leaf? {
      leaf := p;
    } else {
      var i := ChildFor(t.b[p].seps, k);
      Descend(t.b, t.g, t.root, p, i, k);
      leaf := LeafExists(t, Child(t.b[p], i), k);
    }
  }

  lemma {:induction false} ChildFor(seps: seq<(Key, PageId)>, k: Key) returns (i: nat)
    requires Sorted(seps)
    ensures i <= |seps| && (forall j :: 0 <= j < i ==> Rank(seps[j].0) <= Rank(k))
    ensures forall j :: i <= j < |seps| ==> Rank(k) < Rank(seps[j].0)
  {
    i := 0;
    if seps != [] && Rank(seps[0].0) <= Rank(k) {
      var j := ChildFor(seps[1..], k);
      i := j + 1;
    }
  }

  /** Deletions change leaves and contents only. */
  ghost predicate SameButLeaves(t: Tree, w: Tree) {
    && w.g == t.g && w.par == t.par && w.root == t.root && w.b.Keys == t.b.Keys
    && forall p :: p in t.b && t.b[p].Inner? ==> p in w.b && w.b[p] == t.b[p]
  }

  /** The key is one of the first `i`. */
  ghost predicate Among(es: seq<(Key, Value)>, i: nat, k: Key) {
    exists j :: 0 <= j < i && j < |es| && es[j].0 == k
  }

  lemma {:induction false} EmptiedReaches(t0: Tree, t: Tree, es: seq<(Key, Value)>, i: nat) returns (w: Tree)
    requires Reaches(t0, t) && InOrder(t, 0) && i <= |es|
    ensures Reaches(t0, w) && InOrder(w, 0) && SameButLeaves(t, w)
    ensures forall k :: k in w.m <==> k in t.m && !Among(es, i, k)
  {
    if i == 0 {
      w := t;
    } else {
      var k := es[i - 1].0;
      var u := EmptiedReaches(t0, t, es, i - 1);
      w := EmptiedOne(t0, u, k);
      forall j ensures Among(es, i, j) <==> Among(es, i - 1, j) || j == k {}
    }
  }

  lemma EmptiedOne(t0: Tree, u: Tree, k: Key) returns (w: Tree)
    requires Reaches(t0, u) && InOrder(u, 0)
    ensures Reaches(t0, w) && InOrder(w, 0) && SameButLeaves(u, w) && w.m == u.m - {k}
  {
    assert PageOk(u.b, u.g, u.root, Settled, u.root);
    var leaf := LeafExists(u, u.root, k);
    w := DropIn(u, leaf, k);
    DropInDrops(u, leaf, k);
    OneOp(u, Del(k), w, 0);
    ReachesMore(t0, u, Del(k), w);
  }

  // ----- 25 entries that split a leaf at a wide key -----

  function Zeros(n: nat): seq<byte> {
    seq(n, i => 0 as byte)
  }

  function Wide(b: byte): Key {
    [b] + Zeros(160)
  }

  function BatchEntry(j: nat, i: nat): (Key, Value)
    requires j < 100 && i < 25
  {
    if i < 12 then ([(49 + j) as byte, (i + 1) as byte], Zeros(159))
    else if i == 12 then (Wide((50 + j) as byte), [])
    else ([(50 + j) as byte, i as byte], Zeros(159))
  }

  function Batch(j: nat): (es: seq<(Key, Value)>)
    requires j < 100
    ensures |es| == 25
  {
    seq(25, i requires 0 <= i < 25 => BatchEntry(j, i))
  }

  lemma BatchOrder(j: nat, a: nat, c: nat)
    requires j < 100 && a < c < 25
    ensures Rank(BatchEntry(j, a).0) < Rank(BatchEntry(j, c).0)
  {
    var x, y := BatchEntry(j, a).0, BatchEntry(j, c).0;
    RankOrder(x, y);
    assert x[1..][0] == x[1] && y[1..][0] == y[1];
  }

  lemma BatchAbove(j: nat, a: nat)
    requires 0 < j < 100 && a < 25
    ensures Rank(Wide((49 + j) as byte)) < Rank(BatchEntry(j, a).0)
  {
    var x, y := Wide((49 + j) as byte), BatchEntry(j, a).0;
    RankOrder(x, y);
    assert x[1..][0] == x[1] == 0 && y[1..][0] == y[1];
  }

  lemma {:induction false} SameSizes(es: seq<(Key, Value)>)
    requires forall i :: 0 <= i < |es| ==> EntrySize(es[i]) == 167
    ensures LeafSize(es) == 167 * |es| && EntriesWithin(es, MAX_ENTRY)
  {
    if es != [] { SameSizes(es[1..]); }
  }

  lemma BatchFacts(j: nat)
    requires j < 100
    ensures var es := Batch(j);
            && Sorted(es) && EntriesWithin(es, MAX_ENTRY) && LeafSize(es[..24]) == 167 * 24 && EntrySize(es[24]) == 167
            && PutEntry(es[..24], es[24].0, es[24].1) == es && es[12].0 == Wide((50 + j) as byte)
            && Assoc(es[..24], es[24].0) == None
  {
    var es := Batch(j);
    forall a, c | 0 <= a < c < 25 ensures Rank(es[a].0) < Rank(es[c].0) { BatchOrder(j, a, c); }
    SameSizes(es);
    SameSizes(es[..24]);
    PutLast(es, 24);
    assert es[..25] == es;
    AssocNone(es[..24], es[24].0);
  }

  // ----- combs: a root over leaves, one separator more at a time -----

  /** Page 0 is the first leaf, 1 the half that split off it, 2 the root made then, the others followed. */
  const ROOT: PageId := 2

  ghost predicate WideKeys(seps: seq<(Key, PageId)>, n: nat) {
    |seps| == n < 100 && forall i :: 0 <= i < n ==> seps[i].0 == Wide((50 + i) as byte)
  }

  ghost predicate Rooting(t: Tree, n: nat) {
    && InOrder(t, 0) && t.root == ROOT && ROOT in t.b && ROOT in t.g && t.g[ROOT].height == 1 && PagesBelow(t.b, n + 2)
    && t.b[ROOT].Inner? && t.b[ROOT].first == 0 && WideKeys(t.b[ROOT].seps, n)
  }

  /** `n` wide separators over empty leaves. */
  ghost predicate Comb(t: Tree, n: nat) {
    Rooting(t, n) && t.m == map[]
  }

  lemma RootedLeaf(t: Tree, n: nat, i: nat) returns (leaf: PageId)
    requires Rooting(t, n) && i <= n
    ensures leaf == Child(t.b[ROOT], i) && leaf in t.g && leaf in t.b && t.b[leaf].Leaf? && leaf in t.par
    ensures leaf != ROOT && t.par[leaf] == ROOT
    ensures t.g[leaf].lo == (if i == 0 then 0.0 else Rank(Wide((49 + i) as byte)))
    ensures t.g[leaf].hi == (if i == n then 1.0 else Rank(Wide((50 + i) as byte)))
    ensures t.m == map[] ==> t.b[leaf].entries == []
  {
    assert PageOk(t.b, t.g, t.root, Settled, ROOT);
    leaf := Child(t.b[ROOT], i);
    assert ChildOk(t.g, Settled, ROOT, t.b[ROOT], i);
    assert PageOk(t.b, t.g, t.root, Settled, leaf);
    assert t.par[leaf] == t.par[leaf];
    if t.b[leaf].entries != [] { EntryStored(t, leaf, 0); }
  }

  lemma EntryStored(t: Tree, leaf: PageId, j: nat)
    requires Sound(t, Settled) && leaf in t.g && t.b[leaf].Leaf? && j < |t.b[leaf].entries|
    ensures t.b[leaf].entries[j].0 in t.m
  {
    assert PageOk(t.b, t.g, t.root, Settled, leaf);
    AssocAt(t.b[leaf].entries, j);
    assert Covers(t.g[leaf], t.b[leaf].entries[j].0);
  }

  lemma Emptied(t0: Tree, t: Tree, n: nat, es: seq<(Key, Value)>) returns (w: Tree)
    requires Reaches(t0, t) && Rooting(t, n) && forall k :: k in t.m ==> exists i :: 0 <= i < |es| && es[i].0 == k
    ensures Reaches(t0, w) && Comb(w, n)
  {
    w := EmptiedReaches(t0, t, es, |es|);
    forall k ensures k !in w.m {
      if k in t.m { assert Among(es, |es|, k); }
    }
    assert w.m == map[];
  }

  lemma PlantedInOrder()
    ensures InOrder(Planted(0), 0)
  {
    var t := Planted(0);
    assert PageOk(t.b, t.g, t.root, Settled, 0);
    assert BodyBounded(t.b, 0);
  }

  lemma BatchFilled(t0: Tree, t: Tree, leaf: PageId, j: nat) returns (t1: Tree)
    requires Reaches(t0, t) && InOrder(t, 0) && leaf in t.g && leaf in t.b && t.b[leaf].Leaf? && t.b[leaf].entries == []
    requires j < 100 && t.m == map[] && forall i :: 0 <= i < 25 ==> Covers(t.g[leaf], Batch(j)[i].0)
    ensures t1 == Filled(t, leaf, Batch(j)[..24]) && Reaches(t0, t1) && InOrder(t1, 0)
    ensures forall k :: k in t1.m ==> exists i :: 0 <= i < |Batch(j)[..24]| && Batch(j)[..24][i].0 == k
  {
    var es := Batch(j)[..24];
    BatchFacts(j);
    SortedParts(Batch(j), 24, 24);
    assert CanFill(t, leaf, es);
    FillReaches(t0, t, leaf, es, 24);
    assert es[..24] == es;
    t1 := Filled(t, leaf, es);
    AddAllKeys(map[], es);
  }

  lemma BatchDone(t0: Tree, t1: Tree, w: Tree, n: nat, es: seq<(Key, Value)>) returns (t: Tree)
    requires |es| == 25 && Reaches(t0, t1) && EntrySize(es[24]) <= MAX_ENTRY
    requires forall k :: k in t1.m ==> exists i :: 0 <= i < |es[..24]| && es[..24][i].0 == k
    requires Took(t1, Put(es[24].0, es[24].1), w) && Rooting(w, n) && w.m == t1.m[es[24].0 := es[24].1]
    ensures Reaches(t0, t) && Comb(t, n)
  {
    ReachesMore(t0, t1, Put(es[24].0, es[24].1), w);
    BatchKeys(t1, w, es);
    t := Emptied(t0, w, n, es);
  }

  lemma BatchKeys(t1: Tree, w: Tree, es: seq<(Key, Value)>)
    requires |es| == 25 && w.m == t1.m[es[24].0 := es[24].1]
    requires forall k :: k in t1.m ==> exists i :: 0 <= i < |es[..24]| && es[..24][i].0 == k
    ensures forall k :: k in w.m ==> exists i :: 0 <= i < |es| && es[i].0 == k
  {
    forall k | k in w.m ensures exists i :: 0 <= i < |es| && es[i].0 == k {
      if k != es[24].0 {
        var i :| 0 <= i < |es[..24]| && es[..24][i].0 == k;
        assert es[i].0 == k;
      }
    }
  }

  lemma BatchFull(t: Tree, leaf: PageId, j: nat)
    requires j < 100 && LeafFor(t, leaf, Batch(j)[24].0) && t.b[leaf].entries == Batch(j)[..24]
    ensures var k, v := Batch(j)[24].0, Batch(j)[24].1;
            && !InPlace(t, leaf, k, v) && MiddleOf(t, leaf, k, v) == Wide((50 + j) as byte)
            && EntrySize((k, v)) <= MAX_ENTRY
  {
    BatchFacts(j);
  }

  // Creation, a full leaf, and the split that makes the root.
  lemma FirstComb() returns (t: Tree)
    ensures Reaches(Planted(0), t) && Comb(t, 1)
  {
    var t0 := Planted(0);
    PlantedInOrder();
    ReachesItself(t0);
    var t1 := BatchFilled(t0, t0, 0, 0);
    var w := RootPut(t1);
    BatchFacts(0);
    t := BatchDone(t0, t1, w, 1, Batch(0));
  }

  lemma RootPut(t: Tree) returns (w: Tree)
    requires InOrder(t, 0) && t.root == 0 && t.b == map[0 := Leaf(Batch(0)[..24], INVALID_PAGE_ID)]
    requires t.g == map[0 := Info(0, 0.0, 1.0, INVALID_PAGE_ID)]
    ensures Took(t, Put(Batch(0)[24].0, Batch(0)[24].1), w) && Rooting(w, 1)
    ensures w.m == t.m[Batch(0)[24].0 := Batch(0)[24].1]
  {
    var k, v := Batch(0)[24].0, Batch(0)[24].1;
    assert LeafFor(t, 0, k);
    BatchFull(t, 0, 0);
    w := RootMade(t, k, v, MiddleOf(t, 0, k, v));
    TipInOrder(t, 0, k, v, w);
  }

  lemma RootMade(t: Tree, k: Key, v: Value, sep: Key) returns (w: Tree)
    requires Sound(t, Settled) && t.root == 0 && t.b.Keys == {0} && LeafFor(t, 0, k) && t.g[0].height == 0
    requires !InPlace(t, 0, k, v) && EntrySize((k, v)) <= MAX_ENTRY && MiddleOf(t, 0, k, v) == sep
    ensures Inserted(t, 0, k, v, w) && w.root == ROOT && PagesBelow(w.b, 3) && ROOT in w.g && w.g[ROOT].height == 1
    ensures ROOT in w.b && w.b[ROOT] == Inner(0, [(sep, 1)])
  {
    var u := SplitOff(t, 0, k, v, 1);
    w := NewRootLed(u, sep);
    assert Inserted(t, 0, k, v, w);
  }

  lemma NewRootLed(u: Tree, sep: Key) returns (w: Tree)
    requires Sound(u, Split(0, 1)) && u.root == 0 && u.g[0].height == 0 && PagesBelow(u.b, 2)
    requires Rank(sep) == u.g[1].lo && 0 < |sep| <= MAX_ENTRY - LEAF_SLOT_SIZE
    ensures Led(u, 0, 1, FateIn(u, 0, sep), w) && w.root == ROOT && PagesBelow(w.b, 3)
    ensures ROOT in w.g && w.g[ROOT].height == 1 && ROOT in w.b && w.b[ROOT] == Inner(0, [(sep, 1)])
  {
    w := Rooted(u, 1, ROOT, sep);
    LedByNewRoot(u, 1, ROOT, sep);
  }

  // A full last leaf, and the split that adds a separator.
  lemma NextComb(t0: Tree, t: Tree, n: nat) returns (t': Tree)
    requires 1 <= n < 24 && Reaches(t0, t) && Comb(t, n)
    ensures Reaches(t0, t') && Comb(t', n + 1)
  {
    var leaf := RootedLeaf(t, n, n);
    forall i | 0 <= i < 25 ensures Covers(t.g[leaf], Batch(n)[i].0) { BatchAbove(n, i); }
    var t1 := BatchFilled(t0, t, leaf, n);
    var w := TipPut(t1, n, leaf);
    BatchFacts(n);
    t' := BatchDone(t0, t1, w, n + 1, Batch(n));
  }

  lemma TipPut(t: Tree, n: nat, leaf: PageId) returns (w: Tree)
    requires 1 <= n < 24 && Rooting(t, n) && leaf == Child(t.b[ROOT], n) && leaf in t.g && leaf in t.b
    requires t.b[leaf].Leaf?
    requires t.b[leaf].entries == Batch(n)[..24] && Covers(t.g[leaf], Batch(n)[24].0)
    ensures Took(t, Put(Batch(n)[24].0, Batch(n)[24].1), w) && Rooting(w, n + 1)
    ensures w.m == t.m[Batch(n)[24].0 := Batch(n)[24].1]
  {
    var k, v, sep := Batch(n)[24].0, Batch(n)[24].1, Wide((50 + n) as byte);
    BatchFull(t, leaf, n);
    var _ := RootedLeaf(t, n, n);
    w := TipAttached(t, n, leaf, k, v, sep);
    TipInOrder(t, leaf, k, v, w);
  }

  lemma TipInOrder(t: Tree, leaf: PageId, k: Key, v: Value, w: Tree)
    requires InOrder(t, 0) && LeafFor(t, leaf, k) && t.g[leaf].hi == 1.0 && EntrySize((k, v)) <= MAX_ENTRY
    requires Inserted(t, leaf, k, v, w)
    ensures Took(t, Put(k, v), w) && InOrder(w, 0) && w.m == t.m[k := v]
  {
    forall p | LeafFor(t, p, k) ensures !InsertFate(t, p, k, v).orphans {
      SameLeafFor(t, p, leaf, k);
      RightmostNeverOrphans(t, leaf, k, v);
    }
    OneOp(t, Put(k, v), w, 0);
  }

  lemma TipAttached(t: Tree, n: nat, leaf: PageId, k: Key, v: Value, sep: Key) returns (w: Tree)
    requires 1 <= n < 24 && Rooting(t, n) && leaf in t.par && t.par[leaf] == ROOT && leaf != ROOT
    requires LeafFor(t, leaf, k) && !InPlace(t, leaf, k, v) && EntrySize((k, v)) <= MAX_ENTRY
    requires MiddleOf(t, leaf, k, v) == sep == Wide((50 + n) as byte)
    ensures Inserted(t, leaf, k, v, w) && w.root == ROOT && PagesBelow(w.b, n + 3) && ROOT in w.g
    ensures w.g[ROOT].height == 1
    ensures ROOT in w.b && w.b[ROOT] == Inner(0, t.b[ROOT].seps + [(sep, n + 2)]) && WideKeys(w.b[ROOT].seps, n + 1)
  {
    var seps, right := t.b[ROOT].seps, n + 2;
    var u := SplitOff(t, leaf, k, v, right);
    assert AboveAt(t.b, t.par, t.g, u.b, u.par, u.g, 0, ROOT);
    WideRoom(seps, n, sep);
    LedByAttaching(u, leaf, right, ROOT, sep);
    w := Attached(u, ROOT, sep, right).(par := u.par[right := ROOT]);
    WideLast(seps, n, sep, right);
  }

  lemma {:induction false} WideSize(seps: seq<(Key, PageId)>)
    requires forall i :: 0 <= i < |seps| ==> |seps[i].0| == 161
    ensures InnerSize(seps) == 169 * |seps|
  {
    if seps != [] { WideSize(seps[1..]); }
  }

  lemma WideRoom(seps: seq<(Key, PageId)>, n: nat, sep: Key)
    requires WideKeys(seps, n) && n < 24 && |sep| == 161
    ensures InnerHasRoom(seps, sep)
  {
    WideSize(seps);
  }

  lemma WideLast(seps: seq<(Key, PageId)>, n: nat, sep: Key, c: PageId)
    requires WideKeys(seps, n) && n < 99 && Sorted(seps) && sep == Wide((50 + n) as byte)
    ensures WithSep(seps, sep, c) == seps + [(sep, c)] && WideKeys(seps + [(sep, c)], n + 1)
  {
    forall i | 0 <= i < n ensures Rank(seps[i].0) < Rank(sep) { RankOrder(seps[i].0, sep); }
    LowerBoundUnique(seps, sep, n);
  }

  lemma {:induction false} CombReached(n: nat) returns (t: Tree)
    requires 1 <= n <= 24
    ensures Reaches(Planted(0), t) && Comb(t, n)
  {
    if n == 1 {
      t := FirstComb();
    } else {
      var u := CombReached(n - 1);
      t := NextComb(Planted(0), u, n - 1);
    }
  }

  // ----- the run -----

  function Large(b: byte): (e: (Key, Value)) {
    ([b], seq(160, j => 0 as byte))
  }

  // Tiny entries, then as many large ones.
  lemma MixedLeaf(m: nat) returns (es: seq<(Key, Value)>)
    requires 2 * m <= 256
    ensures |es| == 2 * m && LeafSize(es) == 7 * m + 167 * m && LeafSize(es[m..]) == 167 * m && Sorted(es)
    ensures EntriesWithin(es, MAX_ENTRY) && forall j :: 0 <= j < 2 * m ==> es[j].0 == [j as byte]
  {
    var tiny := Uniform(0, m, 0);
    var large := Uniform(m, m, 160);
    es := tiny + large;
    LeafSizeConcat(tiny, large);
    assert es[m..] == large;
    forall i, j | 0 <= i < j < 2 * m ensures Rank(es[i].0) < Rank(es[j].0) { RankOrder(es[i].0, es[j].0); }
  }

  lemma Uniform(first: nat, n: nat, len: nat) returns (es: seq<(Key, Value)>)
    requires first + n <= 256
    ensures |es| == n && LeafSize(es) == (7 + len) * n && EntriesWithin(es, 7 + len)
    ensures forall j :: 0 <= j < n ==> es[j].0 == [(first + j) as byte]
  {
    es := Block(first, n, len);
    BlockFacts(first, n, len);
  }

  // Counts and page ids such as `n == 24` below are parameters fixed by a `requires`: they are constants
  // of the example, passed by name so that the solver does not unfold sizes of literal length.

  // The tree in perfect order, reached from an empty one: a full root, a first leaf of tiny and large
  // entries, and one entry in the second leaf.
  lemma FirstTree(m: nat, n: nat) returns (t: Tree, es: seq<(Key, Value)>, other: Key)
    requires m == 23 && n == 24
    ensures Reaches(Planted(0), t) && Rooting(t, n) && other == Wide(50) && other in t.m
    ensures 0 in t.b && t.b[0].Leaf? && t.b[0].entries == es && 0 in t.g && 0 in t.par && t.par[0] == ROOT
    ensures t.g[0].lo == 0.0 && t.g[0].hi == Rank(other)
    ensures |es| == 2 * m && LeafSize(es) == 7 * m + 167 * m && Sorted(es)
    ensures LeafSize(es[m..]) == 167 * m && forall j :: 0 <= j < 2 * m ==> es[j].0 == [j as byte]
  {
    var t0 := CombReached(n);
    other := Wide(50);
    var t1 := SecondLeafPut(t0, n, other);
    es := MixedLeaf(m);
    var leaf := RootedLeaf(t1, n, 0);
    forall j | 0 <= j < |es| ensures Covers(t1.g[0], es[j].0) { RankOrder(es[j].0, other); }
    t := FirstLeafFilled(t1, n, es);
  }

  lemma FirstLeafFilled(t1: Tree, n: nat, es: seq<(Key, Value)>) returns (t: Tree)
    requires Reaches(Planted(0), t1) && Rooting(t1, n) && CanFill(t1, 0, es)
    ensures t == Filled(t1, 0, es) && Reaches(Planted(0), t) && Rooting(t, n) && t1.m.Keys <= t.m.Keys
  {
    FillReaches(Planted(0), t1, 0, es, |es|);
    assert es[..|es|] == es;
    t := Filled(t1, 0, es);
    AddAllKeys(t1.m, es);
  }

  lemma SecondLeafPut(t: Tree, n: nat, other: Key) returns (t1: Tree)
    requires Reaches(Planted(0), t) && Comb(t, n) && 2 <= n && other == Wide(50)
    ensures Reaches(Planted(0), t1) && Rooting(t1, n) && other in t1.m && 0 in t1.b && t1.b[0].Leaf?
    ensures t1.b[0].entries == []
  {
    var first := RootedLeaf(t, n, 0);
    var leaf := SecondLeaf(t, n, other);
    t1 := RootedPut(t, n, leaf, other, []);
    assert first == 0 && t1.b[0] == t.b[0];
  }

  lemma SecondLeaf(t: Tree, n: nat, other: Key) returns (leaf: PageId)
    requires Comb(t, n) && 2 <= n && other == Wide(50)
    ensures LeafFor(t, leaf, other) && leaf != 0 && leaf != ROOT
    ensures InPlace(t, leaf, other, []) && EntrySize((other, [])) <= MAX_ENTRY
  {
    var first := RootedLeaf(t, n, 0);
    leaf := RootedLeaf(t, n, 1);
    WideFits();
    assert other != [] && t.g[first].lo != t.g[leaf].lo;
  }

  lemma WideFits()
    ensures Rank(Wide(50)) < Rank(Wide(51)) && EntrySize((Wide(50), [])) <= MAX_ENTRY && LeafHasRoom([], Wide(50), [])
  {
    RankOrder(Wide(50), Wide(51));
    assert Wide(50)[0] == 50 && Wide(51)[0] == 51;
  }

  lemma RootedPut(t: Tree, n: nat, leaf: PageId, k: Key, v: Value) returns (t1: Tree)
    requires Reaches(Planted(0), t) && Rooting(t, n) && LeafFor(t, leaf, k) && leaf != ROOT
    requires InPlace(t, leaf, k, v) && EntrySize((k, v)) <= MAX_ENTRY
    ensures t1 == PutIn(t, leaf, k, v) && Reaches(Planted(0), t1) && Rooting(t1, n)
  {
    PutInOrder(t, leaf, k, v);
    t1 := PutIn(t, leaf, k, v);
    ReachesMore(Planted(0), t, Put(k, v), t1);
  }

  // The first entry that is inserted then: it goes to the first leaf, which has no room for it; the
  // separator goes to the front of the root, which has none either; the right half is full.
  lemma FirstEntry(m: nat, n: nat) returns (t: Tree, k: Key, v: Value, other: Key)
    requires m == 23 && n == 24
    ensures Reaches(Planted(0), t) && Rooting(t, n) && 0 in t.par && t.par[0] == ROOT && other == Wide(50)
    ensures LeafFor(t, 0, k) && (k, v) == Large(46) && EntrySize((k, v)) <= MAX_ENTRY && !InPlace(t, 0, k, v)
    ensures t.g[0].hi == Rank(other) && other in t.m && Rank([49 as byte]) < Rank(other)
    ensures MiddleOf(t, 0, k, v) == [23 as byte] && LeafSize(RightHalf(t, 0, k, v)) == 167 * (m + 1)
    ensures forall i :: 0 <= i < |RightHalf(t, 0, k, v)| ==> RightHalf(t, 0, k, v)[i].0 != [47 as byte]
  {
    var es;
    t, es, other := FirstTree(m, n);
    k, v := Large(46).0, Large(46).1;
    RankOrder(k, other);
    RankOrder([49 as byte], other);
    AssocNone(es, k);
    LastEntry(es, m, k, v);
  }

  lemma LastEntry(es: seq<(Key, Value)>, m: nat, k: Key, v: Value)
    requires m == 23 && |es| == 2 * m && Sorted(es) && (forall j :: 0 <= j < 2 * m ==> es[j].0 == [j as byte])
    requires LeafSize(es[m..]) == 167 * m && (k, v) == Large(46)
    ensures PutEntry(es, k, v) == es + [(k, v)] && PutEntry(es, k, v)[|PutEntry(es, k, v)| / 2].0 == [23 as byte]
    ensures var right := PutEntry(es, k, v)[|PutEntry(es, k, v)| / 2..];
            LeafSize(right) == 167 * (m + 1) && forall i :: 0 <= i < |right| ==> right[i].0 != [47 as byte]
  {
    forall j | 0 <= j < 2 * m ensures Rank(es[j].0) < Rank(k) { RankOrder(es[j].0, k); }
    var all := es + [(k, v)];
    PutLast(all, |es|);
    assert all[..|es|] == es && all[..|es| + 1] == all;
    assert all[m..] == es[m..] + [(k, v)];
    LeafSizeConcat(es[m..], [(k, v)]);
    assert LeafSize([(k, v)]) == 167;
  }

  /** A run from an empty tree whose last insertion takes a key that it does not name out of the tree,
      although a walk along the leaves still meets it; two steps before everything was in order. */
  ghost predicate Lossy(ts: seq<Tree>, ops: seq<Op>, lost: Key) {
    && RunOf(ts, ops) && FitOps(ops) && ts[0] == Planted(0)
    && var n := |ops|;
       && n >= 2 && InOrder(ts[n - 2], 0) && ops[n - 2].Put? && ops[n - 1].Put?
       && lost in ts[n - 2].m && lost in ts[n - 1].m && lost !in ts[n].m
       && lost != ops[n - 2].key && lost != ops[n - 1].key
       && StillMet(ts[n], lost)
  }

  ghost predicate StillMet(t: Tree, k: Key) {
    exists m :: Trails(t, m) && k in m
  }

  lemma AsRun(t: Tree, w: Tree, w': Tree, a: Op, c: Op, lost: Key) returns (ts: seq<Tree>, ops: seq<Op>)
    requires Reaches(Planted(0), t) && InOrder(t, 0) && a.Put? && c.Put? && Took(t, a, w) && Took(w, c, w')
    requires EntrySize((a.key, a.value)) <= MAX_ENTRY && EntrySize((c.key, c.value)) <= MAX_ENTRY
    requires lost in t.m && lost in w.m && lost !in w'.m && lost != a.key && lost != c.key
    requires StillMet(w', lost)
    ensures Lossy(ts, ops, lost)
  {
    var us, os :| RunFrom(Planted(0), us, os, t);
    RunFromMore(Planted(0), us, os, t, a, w);
    RunFromMore(Planted(0), us + [w], os + [a], w, c, w');
    ts, ops := us + [w] + [w'], os + [a] + [c];
    assert ts[|os|] == t && ts[|os| + 1] == w;
  }

  lemma LossRun() returns (ts: seq<Tree>, ops: seq<Op>, lost: Key)
    ensures Lossy(ts, ops, lost)
  {
    var t, k, v, other := FirstEntry(23, 24);
    var w, k', v', w' := TwoPuts(t, k, v, 24, other);
    lost := other;
    ts, ops := AsRun(t, w, w', Put(k, v), Put(k', v'), other);
  }

  lemma TwoPuts(t: Tree, k: Key, v: Value, n: PageId, other: Key) returns (w: Tree, k': Key, v': Value, w': Tree)
    requires n == 24 && Rooting(t, n) && 0 in t.par && t.par[0] == ROOT && other == Wide(50)
    requires LeafFor(t, 0, k) && (k, v) == Large(46) && EntrySize((k, v)) <= MAX_ENTRY && !InPlace(t, 0, k, v)
    requires t.g[0].hi == Rank(other) && other in t.m && Rank([49 as byte]) < Rank(other)
    requires MiddleOf(t, 0, k, v) == [23 as byte] && LeafSize(RightHalf(t, 0, k, v)) == 167 * n
    requires forall i :: 0 <= i < |RightHalf(t, 0, k, v)| ==> RightHalf(t, 0, k, v)[i].0 != [47 as byte]
    ensures Took(t, Put(k, v), w) && other in w.m && other != k
    ensures EntrySize((k', v')) <= MAX_ENTRY && Took(w, Put(k', v'), w') && other !in w'.m && other != k'
    ensures StillMet(w', other)
  {
    w := FirstPut(t, k, v, n, other);
    k', v' := Large(47).0, Large(47).1;
    w' := SecondPut(w, n + 2, RightHalf(t, 0, k, v), k', v', other);
  }

  lemma SecondPut(w: Tree, leaf: PageId, es: seq<(Key, Value)>, k: Key, v: Value, other: Key) returns (w': Tree)
    requires Sound(w, Settled) && Chained(w.b, w.g) && CutOff(w, leaf) && leaf == 26 && PagesBelow(w.b, leaf + 3)
    requires leaf in w.g && leaf in w.b && w.b[leaf].Leaf? && w.b[leaf].entries == es && LeafSize(es) == 167 * 24
    requires w.g[leaf].lo == Rank([23 as byte]) && w.g[leaf].hi == Rank(other) && Rank([49 as byte]) < Rank(other)
    requires (k, v) == Large(47) && (forall i :: 0 <= i < |es| ==> es[i].0 != k) && other in w.m && other != k
    ensures Took(w, Put(k, v), w') && other !in w'.m
    ensures StillMet(w', other)
  {
    RankOrder([23 as byte], k);
    RankOrder(k, [49 as byte]);
    AssocNone(es, k);
    w' := LossPut(w, leaf, k, v, leaf + 3);
    RankOrder([23 as byte], [49 as byte]);
    WalkMeets(w, leaf, k, v, w', other);
  }

  lemma WalkMeets(w: Tree, leaf: PageId, k: Key, v: Value, w': Tree, other: Key)
    requires Sound(w, Settled) && Chained(w.b, w.g) && LeafFor(w, leaf, k) && Inserted(w, leaf, k, v, w')
    requires InsertFate(w, leaf, k, v).lost == Some(leaf) && other in w.m && w.g[leaf].lo <= Rank(other)
    ensures StillMet(w', other)
  {
    var tr := Trail(LeavesOf(w.g), w.m);
    WholeTrail(w.b, w.g, w.root, w.m);
    assert PageOk(w.b, w.g, w.root, Settled, leaf);
    assert TrailKeeps(w, leaf, k, v, Some(leaf), w', tr);
    var m := AtOrAbove(w.m[k := v], w.g[leaf].lo);
    assert Trails(w', m) && other in m;
  }

  lemma FirstPut(t: Tree, k: Key, v: Value, n: PageId, other: Key) returns (w: Tree)
    requires n == 24 && Rooting(t, n) && 0 in t.par && t.par[0] == ROOT && other == Wide(50)
    requires LeafFor(t, 0, k) && (k, v) == Large(46) && EntrySize((k, v)) <= MAX_ENTRY && !InPlace(t, 0, k, v)
    requires Rank([49 as byte]) < Rank(other) && MiddleOf(t, 0, k, v) == [23 as byte] && other in t.m
    ensures Took(t, Put(k, v), w) && PagesBelow(w.b, n + 5) && CutOff(w, n + 2) && w.m == t.m[k := v]
    ensures Sound(w, Settled)
    ensures n + 2 in w.g && n + 2 in w.b && w.b[n + 2] == Leaf(RightHalf(t, 0, k, v), t.b[0].next)
    ensures w.g[n + 2].lo == Rank([23 as byte]) && w.g[n + 2].hi == t.g[0].hi
    ensures Chained(w.b, w.g)
  {
    var seps, sep := t.b[ROOT].seps, MiddleOf(t, 0, k, v);
    assert PageOk(t.b, t.g, t.root, Settled, ROOT);
    RankOrder(sep, [49 as byte]);
    WideSize(seps);
    LowerBoundMeaning(seps, sep);
    assert !InnerHasRoom(seps, sep) && LowerBound(seps, sep) == 0;
    w := OrphanPut(t, 0, k, v, n + 2);
    ExactNeverLoses(t, 0, k, v, w);
    ExactFate(t, 0, sep);
  }
}
