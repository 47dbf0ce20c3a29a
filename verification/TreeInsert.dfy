// One insertion as a whole: what it does to the contents, when parent pointers
// stay exact, and when a page that lost its parent costs the tree its contents.
module TreeInsert {
  import opened Bytes
  import opened KeyOrder
  import opened NodeBody
  import opened Layout
  import opened SplitFit
  import opened TreeShape
  import opened TreeSteps
  import opened TreeCascade
  import opened TreeScan

  /** The leaf of `t` that answers for the key. */
  ghost predicate LeafFor(t: Tree, leaf: PageId, k: Key) {
    leaf in t.g && leaf in t.b && t.b[leaf].Leaf? && Covers(t.g[leaf], k)
  }

  /** An existing key is overwritten in place, a new one goes in if there is room. */
  ghost predicate InPlace(t: Tree, leaf: PageId, k: Key, v: Value)
    requires LeafFor(t, leaf, k)
  {
    Assoc(t.b[leaf].entries, k).Some? || LeafHasRoom(t.b[leaf].entries, k, v)
  }

  /** An update in place does not overflow the leaf. */
  ghost predicate UpdateFits(t: Tree, k: Key, v: Value) {
    forall p :: LeafFor(t, p, k) && Assoc(t.b[p].entries, k).Some? ==>
      LeafSize(PutEntry(t.b[p].entries, k, v)) <= LEAF_ROOM
  }

  // One leaf decides.
  lemma OneLeaf(t: Tree, leaf: PageId, k: Key, v: Value)
    requires Sound(t, Settled) && LeafFor(t, leaf, k)
    ensures UpdateFits(t, k, v) <==>
            Assoc(t.b[leaf].entries, k) == None || LeafSize(PutEntry(t.b[leaf].entries, k, v)) <= LEAF_ROOM
  {
    forall p | LeafFor(t, p, k) ensures p == leaf { SameLeafFor(t, p, leaf, k); }
  }

  ghost function MiddleOf(t: Tree, leaf: PageId, k: Key, v: Value): Key
    requires LeafFor(t, leaf, k)
  {
    var es := PutEntry(t.b[leaf].entries, k, v);
    if es == [] then k else es[|es| / 2].0
  }

  /** Decided by the tree before the insertion. */
  ghost function InsertFate(t: Tree, leaf: PageId, k: Key, v: Value): Fate
    requires LeafFor(t, leaf, k) && t.root in t.g
  {
    if InPlace(t, leaf, k, v) then Fate(None, false) else FateIn(t, leaf, MiddleOf(t, leaf, k, v))
  }

  /** The last leaf answers for the key. */
  ghost predicate Tip(g: Shape, k: Key) {
    exists p :: TipAt(g, p, k)
  }

  ghost predicate TipAt(g: Shape, p: PageId, k: Key) {
    p in g && g[p].height == 0 && Covers(g[p], k) && g[p].hi == 1.0
  }

  /** Walking the leaves of the tree follows this trail. */
  ghost predicate OnTrail(t: Tree, tr: Trail) {
    Followed(t.b, tr) && Enters(t.g, tr)
  }

  /** Walking the leaves of the tree meets exactly these entries, in key order. */
  ghost predicate Trails(t: Tree, m: map<Key, Value>) {
    exists tr :: OnTrail(t, tr) && tr.m == m
  }

  ghost predicate Trailed(t: Tree) {
    exists tr :: OnTrail(t, tr)
  }

  /** A trail is kept, with the entry, if and only if what it holds behind the leaf is larger than the key. */
  ghost predicate TrailKeeps(t: Tree, leaf: PageId, k: Key, v: Value, from: Option<PageId>, w: Tree, tr: Trail)
    requires from.Some? ==> from.value in t.g
  {
    OnTrail(t, tr) && leaf in tr.at ==>
      if Clear(tr, leaf, k)
      then Trails(w, if from == None then tr.m[k := v] else AtOrAbove(tr.m[k := v], t.g[from.value].lo))
      else !Trailed(w)
  }

  /** What a deletion does to a trail. */
  ghost predicate TrailLoses(t: Tree, k: Key, w: Tree, tr: Trail, leaf: PageId) {
    OnTrail(t, tr) && LeafFor(t, leaf, k) && leaf in tr.at ==>
      Trails(w, if Covers(tr.at[leaf], k) then tr.m - {k} else tr.m)
  }

  ghost predicate Dropped(t: Tree, k: Key, w: Tree) {
    forall tr, leaf {:trigger TrailLoses(t, k, w, tr, leaf)} :: TrailLoses(t, k, w, tr, leaf)
  }

  /** A leaf stays a leaf and its interval still starts where it did. */
  ghost predicate LowKept(g: Shape, g': Shape, p: PageId) {
    p in g && g[p].height == 0 ==> p in g' && g'[p].height == 0 && g'[p].lo == g[p].lo
  }

  /** What an insertion promises about the tree `w` it leaves. */
  ghost predicate Inserted(t: Tree, leaf: PageId, k: Key, v: Value, w: Tree)
    requires LeafFor(t, leaf, k) && t.root in t.g
  {
    var fate := InsertFate(t, leaf, k, v);
    && Sound(w, Settled) && (Ends(t.b) ==> Ends(w.b))
    && (fate.lost == None ==>
          && w.m == t.m[k := v]
          && (Chained(t.b, t.g) ==> Chained(w.b, w.g))
          && (Exact(t.par, t.g, t.root) ==> (Exact(w.par, w.g, w.root) <==> !fate.orphans))
          && (forall p {:trigger LowKept(t.g, w.g, p)} :: LowKept(t.g, w.g, p))
          && (t.g[leaf].hi == 1.0 ==> Tip(w.g, if InPlace(t, leaf, k, v) then k else MiddleOf(t, leaf, k, v))))
    && (fate.lost.Some? ==>
          && fate.lost.value in t.g && CutOff(t, fate.lost.value) && Covers(t.g[fate.lost.value], k)
          && w.m == Within(t.m[k := v], t.g[fate.lost.value]))
    && (forall tr {:trigger TrailKeeps(t, leaf, k, v, fate.lost, w, tr)} :: TrailKeeps(t, leaf, k, v, fate.lost, w, tr))
  }

  ghost function PutIn(t: Tree, leaf: PageId, k: Key, v: Value): Tree
    requires LeafFor(t, leaf, k)
  {
    t.(b := t.b[leaf := Leaf(PutEntry(t.b[leaf].entries, k, v), t.b[leaf].next)], m := t.m[k := v])
  }

  lemma InsertedInPlace(t: Tree, leaf: PageId, k: Key, v: Value)
    requires Sound(t, Settled) && LeafFor(t, leaf, k) && EntrySize((k, v)) <= MAX_ENTRY && InPlace(t, leaf, k, v)
    ensures Inserted(t, leaf, k, v, PutIn(t, leaf, k, v))
  {
    PutOk(t.b, t.par, t.g, t.root, t.m, leaf, k, v);
    assert PageOk(t.b, t.g, t.root, Settled, leaf);
    if t.g[leaf].hi == 1.0 { assert TipAt(t.g, leaf, k); }
    if Ends(t.b) { EndsRewritten(t.b, leaf, PutEntry(t.b[leaf].entries, k, v)); }
    forall tr ensures TrailKeeps(t, leaf, k, v, None, PutIn(t, leaf, k, v), tr) {
      if OnTrail(t, tr) && leaf in tr.at { TrailInPlace(t, leaf, k, v, tr); }
    }
  }

  // ----- trails -----

  lemma ClearTrail(t: Tree, leaf: PageId, k: Key, tr: Trail) returns (tr': Trail)
    requires Sound(t, Settled) && LeafFor(t, leaf, k) && OnTrail(t, tr) && leaf in tr.at && Clear(tr, leaf, k)
    ensures OnTrail(t, tr') && tr'.m == tr.m && leaf in tr'.at && Covers(tr'.at[leaf], k)
  {
    assert PageOk(t.b, t.g, t.root, Settled, leaf);
    forall q | q in t.g ensures t.g[q].lo < t.g[q].hi <= 1.0 { assert PageOk(t.b, t.g, t.root, Settled, q); }
    forall q | q in t.g && t.g[q].height == 0 && q != leaf
      ensures t.g[q].hi <= t.g[leaf].lo || t.g[leaf].hi <= t.g[q].lo
    {
      LeavesApart(t.b, t.g, t.root, q, leaf);
    }
    tr' := TrailStretched(t.b, t.g, tr, leaf, k);
  }

  lemma TrailInPlace(t: Tree, leaf: PageId, k: Key, v: Value, tr: Trail)
    requires Sound(t, Settled) && LeafFor(t, leaf, k) && OnTrail(t, tr) && leaf in tr.at
    ensures TrailKeeps(t, leaf, k, v, None, PutIn(t, leaf, k, v), tr)
  {
    var w := PutIn(t, leaf, k, v);
    if Clear(tr, leaf, k) {
      var tr' := ClearTrail(t, leaf, k, tr);
      TrailPut(t.b, tr', leaf, k, v);
      var tr2 := Trail(tr'.at, tr'.m[k := v]);
      forall p ensures EntersAt(w.g, tr2, p) { assert EntersAt(t.g, tr', p); }
      assert OnTrail(w, tr2);
    } else {
      assert PageOk(t.b, t.g, t.root, Settled, leaf);
      PutEntryMeaning(t.b[leaf].entries, k, v, k);
      forall tr' ensures !OnTrail(w, tr') {
        if OnTrail(w, tr') { NoTrail(t, leaf, k, v, tr, w, leaf, tr'); }
      }
    }
  }

  /** `r` holds the key or comes right behind the leaf that does, and leads on to where the leaf led. */
  ghost predicate LeadsOn(t: Tree, leaf: PageId, k: Key, w: Tree, r: PageId)
    requires leaf in t.b && t.b[leaf].Leaf?
  {
    && r in w.g && w.g[r].height == 0 && r in w.b && w.b[r].Leaf? && w.b[r].next == t.b[leaf].next
    && (Assoc(w.b[r].entries, k).Some? ||
        (leaf in w.g && w.g[leaf].height == 0 && leaf in w.b && w.b[leaf].Leaf? && w.b[leaf].next == r
         && Assoc(w.b[leaf].entries, k).Some?))
  }

  lemma NoTrail(t: Tree, leaf: PageId, k: Key, v: Value, tr: Trail, w: Tree, r: PageId, tr': Trail)
    requires LeafFor(t, leaf, k) && OnTrail(t, tr) && leaf in tr.at && !Clear(tr, leaf, k) && OnTrail(w, tr')
    requires LeadsOn(t, leaf, k, w, r)
    requires forall p :: p in t.b && t.b[p].Leaf? && p != leaf ==> p in w.b && w.b[p] == t.b[p]
    ensures false
  {
    var j :| j in tr.m && tr.at[leaf].hi <= Rank(j) <= Rank(k);
    assert TrailAt(t.b, tr, leaf);
    var q := t.b[leaf].next;
    assert TrailAt(t.b, tr, q);
    PastKey(w, k, leaf, r, tr');
    assert TrailAt(w.b, tr', r);
    forall p | p in tr.at && tr.at[p].lo >= tr.at[q].lo && p in t.b ensures p in w.b && w.b[p] == t.b[p] {
      assert TrailAt(t.b, tr, p);
    }
    OutOfOrder(t.b, tr, w.b, tr', q, j);
  }

  lemma PastKey(w: Tree, k: Key, leaf: PageId, r: PageId, tr': Trail)
    requires OnTrail(w, tr') && r in w.g && w.g[r].height == 0 && r in w.b && w.b[r].Leaf?
    requires Assoc(w.b[r].entries, k).Some? ||
             (leaf in w.g && w.g[leaf].height == 0 && leaf in w.b && w.b[leaf].Leaf? && w.b[leaf].next == r
              && Assoc(w.b[leaf].entries, k).Some?)
    ensures r in tr'.at && Rank(k) < tr'.at[r].hi
  {
    assert EntersAt(w.g, tr', r) && TrailAt(w.b, tr', r);
    AssocNone(w.b[r].entries, k);
    if Assoc(w.b[r].entries, k) == None {
      assert EntersAt(w.g, tr', leaf) && TrailAt(w.b, tr', leaf);
      AssocNone(w.b[leaf].entries, k);
    }
  }

  /** The leaf cut in two around the new entry. */
  ghost function LeafHalved(t: Tree, leaf: PageId, right: PageId): Tree
    requires leaf in t.b && leaf in t.g && t.b[leaf].Leaf? && |t.b[leaf].entries| >= 2
  {
    var s := |t.b[leaf].entries| / 2;
    Tree(SplitLeafBodies(t.b, leaf, right, s), t.par[right := INVALID_PAGE_ID],
         SplitShape(t.g, leaf, right, Rank(t.b[leaf].entries[s].0)), t.root, t.m)
  }

  lemma LeafHalvedOk(t: Tree, leaf: PageId, right: PageId)
    requires Sound(t, Settled) && leaf in t.g && t.b[leaf].Leaf? && |t.b[leaf].entries| >= 2
    requires right !in t.b && right != INVALID_PAGE_ID
    ensures var u := LeafHalved(t, leaf, right); var sep := t.b[leaf].entries[|t.b[leaf].entries| / 2].0;
            && Sound(u, Split(leaf, right)) && (Chained(t.b, t.g) ==> Chained(u.b, u.g))
            && Rank(sep) == u.g[right].lo && 0 < |sep| <= MAX_ENTRY - LEAF_SLOT_SIZE
            && leaf in t.par && u.par[leaf] == t.par[leaf]
            && u.g[u.root].height == t.g[t.root].height && u.g[leaf].height == 0 <= t.g[t.root].height
            && (Exact(t.par, t.g, t.root) ==> ExactBut(u.par, u.g, u.root, right))
  {
    var es := t.b[leaf].entries;
    SplitLeafOk(t.b, t.par, t.g, t.root, t.m, leaf, right, |es| / 2);
    assert PageOk(t.b, t.g, t.root, Settled, leaf) && BodyBounded(t.b, leaf);
    assert Rank(es[0].0) < Rank(es[|es| / 2].0);
    assert t.par[leaf] == t.par[leaf];
  }

  /** The tree with the leaf split, before the separator is handed upwards. */
  ghost function LeafSplit(t: Tree, leaf: PageId, k: Key, v: Value, right: PageId): Tree
    requires LeafFor(t, leaf, k) && leaf in t.par
  {
    var c := Cut(PutIn(t, leaf, k, v), leaf);
    if leaf in c.g && |c.b[leaf].entries| >= 2 then LeafHalved(c, leaf, right) else t
  }

  lemma SplitHasTwo(t: Tree, leaf: PageId, k: Key, v: Value)
    requires Sound(t, Settled) && LeafFor(t, leaf, k) && EntrySize((k, v)) <= MAX_ENTRY && !InPlace(t, leaf, k, v)
    ensures var es := PutEntry(t.b[leaf].entries, k, v);
            |es| == |t.b[leaf].entries| + 1 >= 2 && Sorted(es) && EntriesWithin(es, MAX_ENTRY)
            && LowerBound(t.b[leaf].entries, k) < |es|
            && Remove(es, LowerBound(t.b[leaf].entries, k)) == t.b[leaf].entries
  {
    var es := t.b[leaf].entries;
    assert PageOk(t.b, t.g, t.root, Settled, leaf) && BodyBounded(t.b, leaf);
    LowerBoundMeaning(es, k);
    PutEntryMeaning(es, k, v, k);
    PutOk(t.b, t.par, t.g, t.root, t.m, leaf, k, v);
    var i := LowerBound(es, k);
    assert PutEntry(es, k, v) == Insert(es, i, (k, v));
    assert es != [];
    assert BodyBounded(PutIn(t, leaf, k, v).b, leaf);
  }

  lemma LeafSplitOk(t: Tree, leaf: PageId, k: Key, v: Value, right: PageId)
    requires Sound(t, Settled) && LeafFor(t, leaf, k) && EntrySize((k, v)) <= MAX_ENTRY && !InPlace(t, leaf, k, v)
    requires right !in t.b && right != INVALID_PAGE_ID
    ensures leaf in t.par
    ensures var u := LeafSplit(t, leaf, k, v, right); var sep := MiddleOf(t, leaf, k, v);
            && Sound(u, Split(leaf, right)) && u.par[leaf] == t.par[leaf] && u.par[right] == INVALID_PAGE_ID
            && (u.par[leaf] == INVALID_PAGE_ID <==> leaf == u.root) && (leaf != u.root ==> u.root == t.root)
            && Rank(sep) == u.g[right].lo && 0 < |sep| <= MAX_ENTRY - LEAF_SLOT_SIZE
            && u.g[leaf].height == 0 && 0 <= u.g[u.root].height <= t.g[t.root].height
  {
    var a := PutIn(t, leaf, k, v);
    PutOk(t.b, t.par, t.g, t.root, t.m, leaf, k, v);
    SplitHasTwo(t, leaf, k, v);
    CutOk(a, leaf);
    assert PageOk(t.b, t.g, t.root, Settled, leaf);
    LeafHalvedOk(Cut(a, leaf), leaf, right);
  }

  lemma LeafSplitAbove(t: Tree, leaf: PageId, k: Key, v: Value, right: PageId)
    requires Sound(t, Settled) && LeafFor(t, leaf, k) && EntrySize((k, v)) <= MAX_ENTRY && !InPlace(t, leaf, k, v)
    requires right !in t.b && right != INVALID_PAGE_ID && leaf in t.par && !CutOff(t, leaf)
    ensures var u := LeafSplit(t, leaf, k, v, right);
            u.root == t.root && leaf in u.g && t.g[leaf].height == u.g[leaf].height == 0
            && t.root in u.g && u.g[t.root].height == t.g[t.root].height
            && right in u.g && u.g[right].hi == t.g[leaf].hi
            && Above(t.b, t.par, t.g, u.b, u.par, u.g, 0) && right !in t.g && u.g.Keys == t.g.Keys + {right}
            && forall p :: p in t.g ==> u.g[p].height == t.g[p].height && u.g[p].lo == t.g[p].lo
  {
    var at, l, r := LeafSplitForm(t, leaf, k, v, right);
    var u := Tree(t.b[leaf := l][right := r], t.par[right := INVALID_PAGE_ID], SplitShape(t.g, leaf, right, at),
                  t.root, t.m[k := v]);
    AboveLeaves(t, u, leaf, right);
  }

  lemma LeafSplitForm(t: Tree, leaf: PageId, k: Key, v: Value, right: PageId) returns (at: real, l: Body, r: Body)
    requires Sound(t, Settled) && LeafFor(t, leaf, k) && EntrySize((k, v)) <= MAX_ENTRY && !InPlace(t, leaf, k, v)
    requires leaf in t.par && !CutOff(t, leaf)
    ensures LeafSplit(t, leaf, k, v, right) ==
            Tree(t.b[leaf := l][right := r], t.par[right := INVALID_PAGE_ID], SplitShape(t.g, leaf, right, at),
                 t.root, t.m[k := v])
    ensures t.g[leaf].height == 0 && t.root in t.g && t.g.Keys <= t.b.Keys
  {
    SplitHasTwo(t, leaf, k, v);
    assert PageOk(t.b, t.g, t.root, Settled, leaf);
    LeafSplitStore(t, leaf, k, v, right);
    var u := LeafSplit(t, leaf, k, v, right);
    var es := PutEntry(t.b[leaf].entries, k, v);
    assert u == LeafHalved(PutIn(t, leaf, k, v), leaf, right);
    at, l, r := Rank(es[|es| / 2].0), Leaf(es[..|es| / 2], right), Leaf(es[|es| / 2..], t.b[leaf].next);
  }

  lemma AboveLeaves(t: Tree, u: Tree, leaf: PageId, right: PageId)
    requires leaf in t.g && right !in t.g && leaf in u.g && right in u.g
    requires t.g[leaf].height == u.g[leaf].height == u.g[right].height == 0
    requires u.g == t.g[leaf := u.g[leaf]][right := u.g[right]] && right in u.par
    requires u.par == t.par[right := u.par[right]]
    requires leaf in u.b && right in u.b && u.b == t.b[leaf := u.b[leaf]][right := u.b[right]]
    ensures Above(t.b, t.par, t.g, u.b, u.par, u.g, 0)
  {
    forall x ensures AboveAt(t.b, t.par, t.g, u.b, u.par, u.g, 0, x) {}
  }

  lemma LeafSplitFate(t: Tree, leaf: PageId, k: Key, v: Value, right: PageId)
    requires Sound(t, Settled) && LeafFor(t, leaf, k) && EntrySize((k, v)) <= MAX_ENTRY && !InPlace(t, leaf, k, v)
    requires right !in t.b && right != INVALID_PAGE_ID
    ensures leaf in t.par && Sound(LeafSplit(t, leaf, k, v, right), Split(leaf, right))
    ensures var rest := FateIn(LeafSplit(t, leaf, k, v, right), leaf, MiddleOf(t, leaf, k, v));
            InsertFate(t, leaf, k, v) == if CutOff(t, leaf) then Fate(Some(leaf), rest.orphans) else rest
  {
    LeafSplitOk(t, leaf, k, v, right);
    var u := LeafSplit(t, leaf, k, v, right);
    if !CutOff(t, leaf) {
      LeafSplitAbove(t, leaf, k, v, right);
      FateSame(t.b, t.par, t.g, u.b, u.par, u.g, t.root, leaf, MiddleOf(t, leaf, k, v));
    }
  }

  lemma InsertedBySplit(t: Tree, leaf: PageId, k: Key, v: Value, right: PageId, w: Tree)
    requires Sound(t, Settled) && LeafFor(t, leaf, k) && EntrySize((k, v)) <= MAX_ENTRY && !InPlace(t, leaf, k, v)
    requires right !in t.b && right != INVALID_PAGE_ID && leaf in t.par
    requires var u := LeafSplit(t, leaf, k, v, right);
             Sound(u, Split(leaf, right)) && Led(u, leaf, right, FateIn(u, leaf, MiddleOf(t, leaf, k, v)), w)
    ensures Inserted(t, leaf, k, v, w)
  {
    LeafSplitFate(t, leaf, k, v, right);
    if InsertFate(t, leaf, k, v).lost.Some? {
      LostBySplit(t, leaf, k, v, right, w);
    } else {
      KeptBySplit(t, leaf, k, v, right, w);
      SplitKeepsLow(t, leaf, k, v, right, w);
    }
    if Ends(t.b) { EndsBySplit(t, leaf, k, v, right, w); }
    forall tr ensures TrailKeeps(t, leaf, k, v, InsertFate(t, leaf, k, v).lost, w, tr) {
      if OnTrail(t, tr) && leaf in tr.at { TrailBySplit(t, leaf, k, v, right, w, tr); }
    }
  }

  lemma EndsBySplit(t: Tree, leaf: PageId, k: Key, v: Value, right: PageId, w: Tree)
    requires Sound(t, Settled) && LeafFor(t, leaf, k) && EntrySize((k, v)) <= MAX_ENTRY && !InPlace(t, leaf, k, v)
    requires right !in t.b && right != INVALID_PAGE_ID && leaf in t.par
    requires LeavesSame(LeafSplit(t, leaf, k, v, right).b, w.b) && Ends(t.b)
    ensures Ends(w.b)
  {
    SplitHasTwo(t, leaf, k, v);
    LeafSplitStore(t, leaf, k, v, right);
    var es := PutEntry(t.b[leaf].entries, k, v);
    EndsHalved(t.b, leaf, right, es[..|es| / 2], es[|es| / 2..]);
    EndsSame(LeafSplit(t, leaf, k, v, right).b, w.b);
  }

  lemma EndsSame(b: Bodies, b': Bodies)
    requires Ends(b) && LeavesSame(b, b')
    ensures Ends(b')
  {
    var far :| Nearer(b, far);
    forall p ensures NearerAt(b', far, p) {
      assert NearerAt(b, far, p) && LeafStays(b, b', p);
      if p in b && b[p].Leaf? { assert LeafStays(b, b', b[p].next); }
    }
    assert Nearer(b', far);
  }

  lemma LostBySplit(t: Tree, leaf: PageId, k: Key, v: Value, right: PageId, w: Tree)
    requires Sound(t, Settled) && LeafFor(t, leaf, k) && EntrySize((k, v)) <= MAX_ENTRY && !InPlace(t, leaf, k, v)
    requires right !in t.b && right != INVALID_PAGE_ID && leaf in t.par
    requires var u := LeafSplit(t, leaf, k, v, right);
             Sound(u, Split(leaf, right)) && Led(u, leaf, right, FateIn(u, leaf, MiddleOf(t, leaf, k, v)), w)
    requires InsertFate(t, leaf, k, v).lost.Some?
    ensures var o := InsertFate(t, leaf, k, v).lost.value;
            o in t.g && CutOff(t, o) && Covers(t.g[o], k) && w.m == Within(t.m[k := v], t.g[o])
  {
    LeafSplitFate(t, leaf, k, v, right);
    if CutOff(t, leaf) {
      PutOk(t.b, t.par, t.g, t.root, t.m, leaf, k, v);
      SplitHasTwo(t, leaf, k, v);
    } else {
      var at, l, r := LeafSplitForm(t, leaf, k, v, right);
    }
  }

  lemma KeptBySplit(t: Tree, leaf: PageId, k: Key, v: Value, right: PageId, w: Tree)
    requires Sound(t, Settled) && LeafFor(t, leaf, k) && EntrySize((k, v)) <= MAX_ENTRY && !InPlace(t, leaf, k, v)
    requires right !in t.b && right != INVALID_PAGE_ID && leaf in t.par
    requires var u := LeafSplit(t, leaf, k, v, right);
             Sound(u, Split(leaf, right)) && Led(u, leaf, right, FateIn(u, leaf, MiddleOf(t, leaf, k, v)), w)
    requires InsertFate(t, leaf, k, v).lost == None
    ensures w.m == t.m[k := v] && (Chained(t.b, t.g) ==> Chained(w.b, w.g)) && !CutOff(t, leaf)
    ensures Exact(t.par, t.g, t.root) ==> (Exact(w.par, w.g, w.root) <==> !InsertFate(t, leaf, k, v).orphans)
    ensures KeptBelow(LeafSplit(t, leaf, k, v, right), w, LeafSplit(t, leaf, k, v, right).g[leaf].height)
  {
    PutOk(t.b, t.par, t.g, t.root, t.m, leaf, k, v);
    SplitHasTwo(t, leaf, k, v);
    LeafSplitFate(t, leaf, k, v, right);
    LeafHalvedOk(PutIn(t, leaf, k, v), leaf, right);
  }

  // Halving the leaf halves its place on the trail.
  lemma HalvedTrail(t: Tree, leaf: PageId, k: Key, v: Value, right: PageId, tr: Trail) returns (tr': Trail)
    requires Sound(t, Settled) && LeafFor(t, leaf, k) && EntrySize((k, v)) <= MAX_ENTRY && !InPlace(t, leaf, k, v)
    requires right !in t.b && right != INVALID_PAGE_ID && leaf in t.par
    requires OnTrail(t, tr) && leaf in tr.at && Covers(tr.at[leaf], k)
    ensures tr'.m == tr.m[k := v] && Followed(LeafSplit(t, leaf, k, v, right).b, tr')
    ensures Enters(SplitShape(t.g, leaf, right, Rank(MiddleOf(t, leaf, k, v))), tr')
  {
    SplitHasTwo(t, leaf, k, v);
    SplitShapes(t, leaf, k, v, right);
    var a, x := PutIn(t, leaf, k, v), Rank(MiddleOf(t, leaf, k, v));
    TrailPut(t.b, tr, leaf, k, v);
    TrailHalved(a.b, Trail(tr.at, tr.m[k := v]), leaf, right, |a.b[leaf].entries| / 2);
    tr' := Trail(SplitShape(tr.at, leaf, right, x), tr.m[k := v]);
    assert PageOk(t.b, t.g, t.root, Settled, leaf) && TrailAt(t.b, tr, right);
    assert right !in t.g;
    HalvedEnters(t.g, tr, leaf, right, x, tr.m[k := v]);
  }

  lemma HalvedEnters(g: Shape, tr: Trail, leaf: PageId, right: PageId, x: real, m: map<Key, Value>)
    requires Enters(g, tr) && leaf in g && g[leaf].height == 0 && leaf in tr.at && right !in g && right !in tr.at
    ensures Enters(SplitShape(g, leaf, right, x), Trail(SplitShape(tr.at, leaf, right, x), m))
  {
    assert EntersAt(g, tr, leaf);
    forall p ensures EntersAt(SplitShape(g, leaf, right, x), Trail(SplitShape(tr.at, leaf, right, x), m), p) {
      assert EntersAt(g, tr, p);
    }
  }

  lemma LeavesFollow(u: Tree, w: Tree, tr: Trail)
    requires Followed(u.b, tr) && LeavesSame(u.b, w.b)
    ensures Followed(w.b, tr)
  {
    forall p | p in tr.at && p in u.b ensures p in w.b && w.b[p] == u.b[p] {
      assert TrailAt(u.b, tr, p) && LeafStays(u.b, w.b, p);
    }
    TrailKept(u.b, w.b, tr);
  }

  lemma TrailBySplit(t: Tree, leaf: PageId, k: Key, v: Value, right: PageId, w: Tree, tr: Trail)
    requires Sound(t, Settled) && LeafFor(t, leaf, k) && EntrySize((k, v)) <= MAX_ENTRY && !InPlace(t, leaf, k, v)
    requires right !in t.b && right != INVALID_PAGE_ID && leaf in t.par && OnTrail(t, tr) && leaf in tr.at
    requires var u := LeafSplit(t, leaf, k, v, right);
             Sound(u, Split(leaf, right)) && Led(u, leaf, right, FateIn(u, leaf, MiddleOf(t, leaf, k, v)), w)
    requires var lost := InsertFate(t, leaf, k, v).lost; lost.Some? ==> lost.value in t.g
    ensures TrailKeeps(t, leaf, k, v, InsertFate(t, leaf, k, v).lost, w, tr)
  {
    if Clear(tr, leaf, k) {
      var tr1 := ClearTrail(t, leaf, k, tr);
      var tr2 := HalvedTrail(t, leaf, k, v, right, tr1);
      LeavesFollow(LeafSplit(t, leaf, k, v, right), w, tr2);
      TrailAfterSplit(t, leaf, k, v, right, w, tr2);
    } else {
      SplitLeadsOn(t, leaf, k, v, right, w);
      forall tr' ensures !OnTrail(w, tr') {
        if OnTrail(w, tr') { NoTrail(t, leaf, k, v, tr, w, right, tr'); }
      }
    }
  }

  lemma TrailAfterSplit(t: Tree, leaf: PageId, k: Key, v: Value, right: PageId, w: Tree, tr: Trail)
    requires Sound(t, Settled) && LeafFor(t, leaf, k) && EntrySize((k, v)) <= MAX_ENTRY && !InPlace(t, leaf, k, v)
    requires right !in t.b && right != INVALID_PAGE_ID && leaf in t.par
    requires var u := LeafSplit(t, leaf, k, v, right);
             Sound(u, Split(leaf, right)) && Led(u, leaf, right, FateIn(u, leaf, MiddleOf(t, leaf, k, v)), w)
    requires Followed(w.b, tr) && Enters(SplitShape(t.g, leaf, right, Rank(MiddleOf(t, leaf, k, v))), tr)
    requires var lost := InsertFate(t, leaf, k, v).lost; lost.Some? ==> lost.value in t.g
    ensures var lost := InsertFate(t, leaf, k, v).lost;
            Trails(w, if lost == None then tr.m else AtOrAbove(tr.m, t.g[lost.value].lo))
  {
    LeafSplitFate(t, leaf, k, v, right);
    SplitHasTwo(t, leaf, k, v);
    SplitShapes(t, leaf, k, v, right);
    var u, lost := LeafSplit(t, leaf, k, v, right), InsertFate(t, leaf, k, v).lost;
    if lost == None {
      KeptEnters(u, w, u.g[leaf].height, tr);
      assert OnTrail(w, tr);
    } else {
      assert PageOk(t.b, t.g, t.root, Settled, lost.value);
      TrailOnward(w.b, tr, t.g[lost.value].lo);
      LostEnters(t, leaf, k, v, right, w, lost.value, tr);
      assert OnTrail(w, Onward(tr, t.g[lost.value].lo));
    }
  }

  lemma KeptEnters(u: Tree, w: Tree, h: nat, tr: Trail)
    requires Enters(u.g, tr) && KeptBelow(u, w, h)
    ensures Enters(w.g, tr)
  {
    forall p ensures EntersAt(w.g, tr, p) { assert EntersAt(u.g, tr, p) && KeptAt(u, w, h, p); }
  }

  lemma LostEnters(t: Tree, leaf: PageId, k: Key, v: Value, right: PageId, w: Tree, o: PageId, tr: Trail)
    requires Sound(t, Settled) && LeafFor(t, leaf, k) && EntrySize((k, v)) <= MAX_ENTRY && !InPlace(t, leaf, k, v)
    requires right !in t.b && right != INVALID_PAGE_ID && leaf in t.par && o in t.g
    requires var u := LeafSplit(t, leaf, k, v, right); var rest := FateIn(u, leaf, MiddleOf(t, leaf, k, v));
             && Sound(u, Split(leaf, right)) && Led(u, leaf, right, rest, w)
             && (if CutOff(t, leaf) then o == leaf && rest.lost == None else rest.lost == Some(o))
    requires |PutIn(t, leaf, k, v).b[leaf].entries| >= 2
    requires Enters(SplitShape(t.g, leaf, right, Rank(MiddleOf(t, leaf, k, v))), tr)
    ensures Enters(w.g, Onward(tr, t.g[o].lo))
  {
    var u, at := LeafSplit(t, leaf, k, v, right), Rank(MiddleOf(t, leaf, k, v));
    var g, g' := SplitShape(t.g, leaf, right, at), w.g;
    assert PageOk(t.b, t.g, t.root, Settled, leaf) && PageOk(t.b, t.g, t.root, Settled, o);
    MiddleAbove(t, leaf, k, v);
    SplitShapes(t, leaf, k, v, right);
    if CutOff(t, leaf) {
      forall p ensures EntersAt(g', Onward(tr, t.g[o].lo), p) {
        assert EntersAt(g, tr, p) && KeptAt(u, w, u.g[leaf].height, p);
        CutEnters(t.g, leaf, right, at, g', tr, p);
      }
    } else {
      forall p ensures EntersAt(g', Onward(tr, t.g[o].lo), p) {
        assert EntersAt(g, tr, p) && PrunedLeaf(u.g, o, g', p);
        PrunedEnters(g, o, g', tr, p);
      }
    }
  }

  // Where the walk goes on behind the key.
  lemma SplitLeadsOn(t: Tree, leaf: PageId, k: Key, v: Value, right: PageId, w: Tree)
    requires Sound(t, Settled) && LeafFor(t, leaf, k) && EntrySize((k, v)) <= MAX_ENTRY && !InPlace(t, leaf, k, v)
    requires right !in t.b && right != INVALID_PAGE_ID && leaf in t.par
    requires var u := LeafSplit(t, leaf, k, v, right);
             Sound(u, Split(leaf, right)) && Led(u, leaf, right, FateIn(u, leaf, MiddleOf(t, leaf, k, v)), w)
    ensures LeadsOn(t, leaf, k, w, right)
    ensures forall p :: p in t.b && t.b[p].Leaf? && p != leaf ==> p in w.b && w.b[p] == t.b[p]
  {
    var u := LeafSplit(t, leaf, k, v, right);
    SplitHasTwo(t, leaf, k, v);
    LeafSplitStore(t, leaf, k, v, right);
    LeafSplitOk(t, leaf, k, v, right);
    BothStay(u, leaf, right, FateIn(u, leaf, MiddleOf(t, leaf, k, v)), w);
    KeyInHalf(t, leaf, k, v);
    var es := PutEntry(t.b[leaf].entries, k, v);
    HalvesLeadOn(t, leaf, k, right, es[..|es| / 2], es[|es| / 2..], u, w);
  }

  lemma KeyInHalf(t: Tree, leaf: PageId, k: Key, v: Value)
    requires Sound(t, Settled) && LeafFor(t, leaf, k) && PutEntry(t.b[leaf].entries, k, v) != []
    ensures var es := PutEntry(t.b[leaf].entries, k, v);
            Assoc(es[..|es| / 2], k).Some? || Assoc(es[|es| / 2..], k).Some?
  {
    assert PageOk(t.b, t.g, t.root, Settled, leaf);
    var es := PutEntry(t.b[leaf].entries, k, v);
    PutEntryMeaning(t.b[leaf].entries, k, v, k);
    AssocCut(es, |es| / 2, k);
  }

  lemma HalvesLeadOn(t: Tree, leaf: PageId, k: Key, right: PageId, lower: seq<(Key, Value)>, upper: seq<(Key, Value)>,
                     u: Tree, w: Tree)
    requires leaf in t.b && t.b[leaf].Leaf? && right !in t.b && LeavesSame(u.b, w.b)
    requires u.b == t.b[leaf := Leaf(lower, right)][right := Leaf(upper, t.b[leaf].next)]
    requires leaf in w.g && w.g[leaf].height == 0 && right in w.g && w.g[right].height == 0
    requires Assoc(lower, k).Some? || Assoc(upper, k).Some?
    ensures LeadsOn(t, leaf, k, w, right)
    ensures forall p :: p in t.b && t.b[p].Leaf? && p != leaf ==> p in w.b && w.b[p] == t.b[p]
  {
    assert LeafStays(u.b, w.b, leaf) && LeafStays(u.b, w.b, right);
    forall p | p in t.b && t.b[p].Leaf? && p != leaf ensures p in w.b && w.b[p] == t.b[p] {
      assert LeafStays(u.b, w.b, p);
    }
  }

  // Whatever the cascade does, the two halves stay in the tree.
  lemma BothStay(u: Tree, leaf: PageId, right: PageId, fate: Fate, w: Tree)
    requires Sound(u, Split(leaf, right)) && u.g[leaf].height == 0 && Led(u, leaf, right, fate, w)
    ensures leaf in w.g && w.g[leaf].height == 0 && right in w.g && w.g[right].height == 0
  {
    var pend := Split(leaf, right);
    assert PageOk(u.b, u.g, u.root, pend, leaf) && PageOk(u.b, u.g, u.root, pend, right);
    if fate.lost == None {
      assert KeptAt(u, w, u.g[leaf].height, leaf) && KeptAt(u, w, u.g[leaf].height, right);
    } else {
      assert InsideStays(u.g, fate.lost.value, w.g, leaf) && InsideStays(u.g, fate.lost.value, w.g, right);
    }
  }

  // The shape of the split leaf, cut off or not.
  lemma SplitShapes(t: Tree, leaf: PageId, k: Key, v: Value, right: PageId)
    requires LeafFor(t, leaf, k) && leaf in t.par && |PutIn(t, leaf, k, v).b[leaf].entries| >= 2
    ensures var at := Rank(MiddleOf(t, leaf, k, v));
            && LeafHalved(PutIn(t, leaf, k, v), leaf, right).g == SplitShape(t.g, leaf, right, at)
            && LeafHalved(PutIn(t, leaf, k, v), leaf, right).b == LeafSplit(t, leaf, k, v, right).b
            && leaf in Pruned(t.g, leaf)
            && LeafSplit(t, leaf, k, v, right).g ==
                 SplitShape(if CutOff(t, leaf) then Pruned(t.g, leaf) else t.g, leaf, right, at)
  {
    assert leaf in Pruned(t.g, leaf);
  }

  lemma CutEnters(g: Shape, leaf: PageId, right: PageId, at: real, g': Shape, tr: Trail, p: PageId)
    requires leaf in g && g[leaf].height == 0 && right !in g && leaf in Pruned(g, leaf) && 0.0 <= g[leaf].lo < at
    requires var u := SplitShape(Pruned(g, leaf), leaf, right, at);
             p in g' && g'[p].height == 0 ==>
               p in u && u[p].height == 0 && u[p].lo == g'[p].lo && u[p].hi == g'[p].hi
    requires EntersAt(SplitShape(g, leaf, right, at), tr, p)
    ensures EntersAt(g', Onward(tr, g[leaf].lo), p)
  {
  }

  lemma PrunedEnters(g: Shape, o: PageId, g': Shape, tr: Trail, p: PageId)
    requires o in g && 0.0 <= g[o].lo && g[o].hi <= 1.0 && PrunedLeaf(g, o, g', p) && EntersAt(g, tr, p)
    ensures EntersAt(g', Onward(tr, g[o].lo), p)
  {
  }

  lemma SplitKeepsLow(t: Tree, leaf: PageId, k: Key, v: Value, right: PageId, w: Tree)
    requires Sound(t, Settled) && LeafFor(t, leaf, k) && EntrySize((k, v)) <= MAX_ENTRY && !InPlace(t, leaf, k, v)
    requires right !in t.b && right != INVALID_PAGE_ID && leaf in t.par && !CutOff(t, leaf)
    requires var u := LeafSplit(t, leaf, k, v, right);
             Sound(u, Split(leaf, right)) && KeptBelow(u, w, u.g[leaf].height)
    ensures forall p {:trigger LowKept(t.g, w.g, p)} :: LowKept(t.g, w.g, p)
    ensures t.g[leaf].hi == 1.0 ==> Tip(w.g, MiddleOf(t, leaf, k, v))
  {
    var u := LeafSplit(t, leaf, k, v, right);
    LeafSplitAbove(t, leaf, k, v, right);
    LeafSplitOk(t, leaf, k, v, right);
    forall p ensures LowKept(t.g, w.g, p) { assert KeptAt(u, w, u.g[leaf].height, p); }
    assert KeptAt(u, w, u.g[leaf].height, right);
    if t.g[leaf].hi == 1.0 { assert TipAt(w.g, right, MiddleOf(t, leaf, k, v)); }
  }

  ghost function DropIn(t: Tree, leaf: PageId, k: Key): Tree
    requires LeafFor(t, leaf, k)
  {
    t.(b := t.b[leaf := Leaf(DropEntry(t.b[leaf].entries, k), t.b[leaf].next)], m := t.m - {k})
  }

  lemma DropInDrops(t: Tree, leaf: PageId, k: Key)
    requires Sound(t, Settled) && LeafFor(t, leaf, k)
    ensures Took(t, Del(k), DropIn(t, leaf, k))
  {
    var w := DropIn(t, leaf, k);
    DropOk(t.b, t.par, t.g, t.root, t.m, leaf, k);
    if Ends(t.b) { EndsRewritten(t.b, leaf, DropEntry(t.b[leaf].entries, k)); }
    forall tr, p ensures TrailLoses(t, k, w, tr, p) {
      if OnTrail(t, tr) && LeafFor(t, p, k) && p in tr.at {
        SameLeafFor(t, leaf, p, k);
        TrailDrop(t.b, tr, p, k);
        var tr' := Trail(tr.at, if Covers(tr.at[p], k) then tr.m - {k} else tr.m);
        forall q ensures EntersAt(w.g, tr', q) { assert EntersAt(t.g, tr, q); }
        assert OnTrail(w, tr');
      }
    }
  }

  lemma SameLeafFor(t: Tree, p: PageId, q: PageId, k: Key)
    requires Sound(t, Settled) && LeafFor(t, p, k) && LeafFor(t, q, k)
    ensures p == q
  {
    assert PageOk(t.b, t.g, t.root, Settled, p) && PageOk(t.b, t.g, t.root, Settled, q);
    if p != q { LeavesApart(t.b, t.g, t.root, p, q); }
  }

  // ----- what that means -----

  // With exact parent pointers nothing is lost.
  lemma {:induction false} ExactFate(t: Tree, p: PageId, sep: Key)
    requires Sound(t, Settled) && Exact(t.par, t.g, t.root) && p in t.g
    ensures FateIn(t, p, sep).lost == None
    decreases t.g[t.root].height - t.g[p].height
  {
    assert PageOk(t.b, t.g, t.root, Settled, p);
    assert t.par[p] == t.par[p];
    if p != t.root {
      var q := t.g[p].up;
      assert PageOk(t.b, t.g, t.root, Settled, q);
      if t.g[p].height < t.g[q].height <= t.g[t.root].height {
        ExactFate(t, q, WithSep(t.b[q].seps, sep, p)[|WithSep(t.b[q].seps, sep, p)| / 2].0);
      }
    }
  }

  lemma ExactNeverLoses(t: Tree, leaf: PageId, k: Key, v: Value, w: Tree)
    requires Sound(t, Settled) && Exact(t.par, t.g, t.root) && LeafFor(t, leaf, k) && Inserted(t, leaf, k, v, w)
    ensures w.m == t.m[k := v]
  {
    ExactFate(t, leaf, MiddleOf(t, leaf, k, v));
  }

  // The insertion is a map update if and only if no page split without knowing its
  // parent, or that page's interval happens to hold every key.
  lemma InsertedIff(t: Tree, leaf: PageId, k: Key, v: Value, w: Tree)
    requires Sound(t, Settled) && LeafFor(t, leaf, k) && Inserted(t, leaf, k, v, w)
    ensures var lost := InsertFate(t, leaf, k, v).lost;
            w.m == t.m[k := v] <==> lost == None || forall x :: x in t.m[k := v] ==> Covers(t.g[lost.value], x)
  {
    var lost := InsertFate(t, leaf, k, v).lost;
    if lost.Some? && w.m == t.m[k := v] {
      forall x | x in t.m[k := v] ensures Covers(t.g[lost.value], x) { assert x in w.m; }
    }
  }

  // On the right edge of the tree every separator goes to the end of its node.
  lemma LastChild(t: Tree, p: PageId, sep: Key)
    requires Sound(t, Settled) && p in t.g && p != t.root && t.g[p].hi == 1.0 && t.g[p].lo < Rank(sep)
    ensures var q := t.g[p].up;
            && q in t.g && q in t.b && t.b[q].Inner? && t.g[q].hi == 1.0
            && t.g[q].height == t.g[p].height + 1 <= t.g[t.root].height
            && LowerBound(t.b[q].seps, sep) == |t.b[q].seps|
            && forall i :: 0 <= i <= |t.b[q].seps| ==> t.g[q].lo < Rank(WithSep(t.b[q].seps, sep, p)[i].0)
  {
    assert PageOk(t.b, t.g, t.root, Settled, p);
    var q := t.g[p].up;
    assert PageOk(t.b, t.g, t.root, Settled, q);
    var n := t.b[q];
    var i :| 0 <= i <= |n.seps| && Child(n, i) == p;
    assert ChildOk(t.g, Settled, q, n, i);
    LowerBoundMeaning(n.seps, sep);
  }

  lemma {:induction false} RightmostFate(t: Tree, p: PageId, sep: Key)
    requires Sound(t, Settled) && p in t.g && t.g[p].hi == 1.0 && t.g[p].lo < Rank(sep)
    ensures !FateIn(t, p, sep).orphans
    decreases t.g[t.root].height - t.g[p].height
  {
    if p != t.root && p in t.par && t.par[p] != INVALID_PAGE_ID {
      LastChild(t, p, sep);
      var q := t.g[p].up;
      RightmostFate(t, q, WithSep(t.b[q].seps, sep, p)[|WithSep(t.b[q].seps, sep, p)| / 2].0);
    }
  }

  // An insertion at the right edge leaves no page without its parent.
  lemma RightmostNeverOrphans(t: Tree, leaf: PageId, k: Key, v: Value)
    requires Sound(t, Settled) && LeafFor(t, leaf, k) && t.g[leaf].hi == 1.0 && EntrySize((k, v)) <= MAX_ENTRY
    ensures !InsertFate(t, leaf, k, v).orphans
  {
    if !InPlace(t, leaf, k, v) {
      MiddleAbove(t, leaf, k, v);
      RightmostFate(t, leaf, MiddleOf(t, leaf, k, v));
    }
  }

  lemma MiddleAbove(t: Tree, leaf: PageId, k: Key, v: Value)
    requires Sound(t, Settled) && LeafFor(t, leaf, k) && EntrySize((k, v)) <= MAX_ENTRY && !InPlace(t, leaf, k, v)
    ensures t.g[leaf].lo < Rank(MiddleOf(t, leaf, k, v))
  {
    var es := PutEntry(t.b[leaf].entries, k, v);
    SplitHasTwo(t, leaf, k, v);
    PutOk(t.b, t.par, t.g, t.root, t.m, leaf, k, v);
    assert PageOk(PutIn(t, leaf, k, v).b, t.g, t.root, Settled, leaf);
    assert Rank(es[0].0) < Rank(es[|es| / 2].0);
  }

  /** Pointers are exact, `k` is above all keys and the last leaf answers for it. */
  ghost predicate Ready(t: Tree, k: Key) {
    && Sound(t, Settled) && Chained(t.b, t.g) && Exact(t.par, t.g, t.root) && Tip(t.g, k)
    && forall x :: x in t.m ==> Rank(x) < Rank(k)
  }

  lemma ReadyAtFirst(t: Tree, k: Key)
    requires Sound(t, Settled) && Chained(t.b, t.g) && Exact(t.par, t.g, t.root) && t.m == map[]
    requires t.g[t.root].height == 0
    ensures Ready(t, k)
  {
    assert TipAt(t.g, t.root, k);
  }

  lemma InsertsAtTheTip(t: Tree, leaf: PageId, k: Key)
    requires Ready(t, k) && LeafFor(t, leaf, k)
    ensures t.g[leaf].hi == 1.0
  {
    var p :| TipAt(t.g, p, k);
    assert PageOk(t.b, t.g, t.root, Settled, leaf);
    DisjointAtHeight(t.b, t.g, t.root, p, leaf, Rank(k));
  }

  // Ascending keys keep everything exact.
  lemma AscendingStep(t: Tree, leaf: PageId, k: Key, v: Value, w: Tree, k': Key)
    requires Ready(t, k) && LeafFor(t, leaf, k) && EntrySize((k, v)) <= MAX_ENTRY && Inserted(t, leaf, k, v, w)
    ensures Chained(w.b, w.g) && Exact(w.par, w.g, w.root) && w.m == t.m[k := v]
    ensures Rank(k) < Rank(k') ==> Ready(w, k')
  {
    InsertsAtTheTip(t, leaf, k);
    ExactNeverLoses(t, leaf, k, v, w);
    ExactFate(t, leaf, MiddleOf(t, leaf, k, v));
    RightmostNeverOrphans(t, leaf, k, v);
    if !InPlace(t, leaf, k, v) { MiddleBelow(t, leaf, k, v); }
    var tip := if InPlace(t, leaf, k, v) then k else MiddleOf(t, leaf, k, v);
    var p :| TipAt(w.g, p, tip);
    if Rank(k) < Rank(k') { assert TipAt(w.g, p, k'); }
  }

  lemma MiddleBelow(t: Tree, leaf: PageId, k: Key, v: Value)
    requires Sound(t, Settled) && LeafFor(t, leaf, k) && EntrySize((k, v)) <= MAX_ENTRY && !InPlace(t, leaf, k, v)
    requires forall x :: x in t.m ==> Rank(x) < Rank(k)
    ensures Rank(MiddleOf(t, leaf, k, v)) <= Rank(k)
  {
    var es := PutEntry(t.b[leaf].entries, k, v);
    SplitHasTwo(t, leaf, k, v);
    PutOk(t.b, t.par, t.g, t.root, t.m, leaf, k, v);
    var x := es[|es| / 2].0;
    assert PageOk(PutIn(t, leaf, k, v).b, t.g, t.root, Settled, leaf);
    AssocAt(es, |es| / 2);
    assert Covers(t.g[leaf], x);
    assert x in t.m[k := v];
  }

  // ----- whole runs -----

  datatype Op = Put(key: Key, value: Value) | Del(key: Key)

  function Apply(m: map<Key, Value>, op: Op): map<Key, Value> {
    match op case Put(k, v) => m[k := v] case Del(k) => m - {k}
  }

  function ApplyAll(m: map<Key, Value>, ops: seq<Op>): map<Key, Value> {
    if ops == [] then m else Apply(ApplyAll(m, ops[..|ops| - 1]), ops[|ops| - 1])
  }

  /** What one insertion or deletion promises. */
  ghost predicate Took(t: Tree, op: Op, w: Tree) {
    match op
    case Put(k, v) => t.root in t.g && exists leaf :: LeafFor(t, leaf, k) && Inserted(t, leaf, k, v, w)
    case Del(k) =>
      Sound(w, Settled) && w.m == t.m - {k} && w.g == t.g && w.par == t.par && w.root == t.root
      && (Chained(t.b, t.g) ==> Chained(w.b, w.g)) && (Ends(t.b) ==> Ends(w.b)) && Dropped(t, k, w)
  }

  /** The operation's internal splits, if any, put the new child into the right half. */
  ghost predicate SplitsRight(t: Tree, op: Op) {
    op.Put? && t.root in t.g ==>
      forall leaf :: LeafFor(t, leaf, op.key) ==> !InsertFate(t, leaf, op.key, op.value).orphans
  }

  ghost predicate InOrder(t: Tree, first: PageId) {
    && Sound(t, Settled) && Chained(t.b, t.g) && Exact(t.par, t.g, t.root)
    && first in t.g && t.g[first].height == 0 && t.g[first].lo == 0.0
  }

  lemma OneOp(t: Tree, op: Op, w: Tree, first: PageId)
    requires InOrder(t, first) && Took(t, op, w) && SplitsRight(t, op)
    ensures InOrder(w, first) && w.m == Apply(t.m, op)
  {
    if op.Put? {
      var leaf :| LeafFor(t, leaf, op.key) && Inserted(t, leaf, op.key, op.value, w);
      ExactFate(t, leaf, MiddleOf(t, leaf, op.key, op.value));
      assert LowKept(t.g, w.g, first);
    }
  }

  ghost predicate TookAt(ts: seq<Tree>, ops: seq<Op>, i: nat)
    requires |ts| == |ops| + 1
  {
    i < |ops| ==> Took(ts[i], ops[i], ts[i + 1])
  }

  /** Each operation led from one tree to the next. */
  ghost predicate RunOf(ts: seq<Tree>, ops: seq<Op>) {
    |ts| == |ops| + 1 && forall i {:trigger TookAt(ts, ops, i)} :: 0 <= i ==> TookAt(ts, ops, i)
  }

  lemma RunMore(ts: seq<Tree>, ops: seq<Op>, op: Op, t: Tree)
    requires RunOf(ts, ops) && Took(ts[|ops|], op, t)
    ensures RunOf(ts + [t], ops + [op])
  {
    forall i | 0 <= i ensures TookAt(ts + [t], ops + [op], i) { assert TookAt(ts, ops, i); }
  }

  lemma {:induction false} RunUpto(ts: seq<Tree>, ops: seq<Op>, first: PageId, n: nat)
    requires RunOf(ts, ops) && n <= |ops| && InOrder(ts[0], first)
    requires forall i :: 0 <= i < |ops| ==> SplitsRight(ts[i], ops[i])
    ensures InOrder(ts[n], first) && ts[n].m == ApplyAll(ts[0].m, ops[..n])
  {
    if n > 0 {
      RunUpto(ts, ops, first, n - 1);
      assert TookAt(ts, ops, n - 1);
      OneOp(ts[n - 1], ops[n - 1], ts[n], first);
      assert ops[..n][..n - 1] == ops[..n - 1];
    }
  }

  // Every such run is a run of map updates; the tree stays exact, chained, and keeps its first leaf.
  lemma RunIsMap(ts: seq<Tree>, ops: seq<Op>, first: PageId)
    requires RunOf(ts, ops) && InOrder(ts[0], first)
    requires forall i :: 0 <= i < |ops| ==> SplitsRight(ts[i], ops[i])
    ensures InOrder(ts[|ops|], first) && ts[|ops|].m == ApplyAll(ts[0].m, ops)
  {
    RunUpto(ts, ops, first, |ops|);
    assert ops[..|ops|] == ops;
  }

  /** The tree that creation makes: one empty leaf. */
  ghost function Planted(root: PageId): Tree {
    Tree(map[root := Leaf([], INVALID_PAGE_ID)], map[root := INVALID_PAGE_ID],
         map[root := Info(0, 0.0, 1.0, INVALID_PAGE_ID)], root, map[])
  }

  // ----- what the code writes, in these terms -----

  lemma LeafHalvesStored(t: Tree, leaf: PageId, k: Key, v: Value)
    requires Sound(t, Settled) && LeafFor(t, leaf, k) && EntrySize((k, v)) <= MAX_ENTRY && !InPlace(t, leaf, k, v)
    requires LeafSize(t.b[leaf].entries) <= LEAF_ROOM
    ensures var es := PutEntry(t.b[leaf].entries, k, v);
            Sorted(es) && |es| == |t.b[leaf].entries| + 1 >= 2 && HalvesFit(es)
  {
    SplitHasTwo(t, leaf, k, v);
    LeafHalvesFit(PutEntry(t.b[leaf].entries, k, v), LowerBound(t.b[leaf].entries, k));
  }

  lemma LeafSplitStore(t: Tree, leaf: PageId, k: Key, v: Value, right: PageId)
    requires LeafFor(t, leaf, k) && leaf in t.par && |PutEntry(t.b[leaf].entries, k, v)| >= 2
    ensures var es, u := PutEntry(t.b[leaf].entries, k, v), LeafSplit(t, leaf, k, v, right);
            && u.b == t.b[leaf := Leaf(es[..|es| / 2], right)][right := Leaf(es[|es| / 2..], t.b[leaf].next)]
            && u.par == t.par[right := INVALID_PAGE_ID]
  {
    var a := PutIn(t, leaf, k, v);
    var c, es := Cut(a, leaf), a.b[leaf].entries;
    assert c.b == a.b && c.par == t.par && leaf in c.g;
    Overwrite(t.b, leaf, a.b[leaf], Leaf(es[..|es| / 2], right), right, Leaf(es[|es| / 2..], t.b[leaf].next));
  }

  lemma Overwrite<A, B>(f: map<A, B>, k: A, x: B, y: B, r: A, z: B)
    ensures f[k := x][k := y][r := z] == f[k := y][r := z]
  {
  }
}
