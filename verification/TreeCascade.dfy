// Splits that travel upwards: what one internal split does, and what the whole
// cascade does to contents, sibling chain and parent pointers.
module TreeCascade {
  import opened Bytes
  import opened KeyOrder
  import opened NodeBody
  import opened Layout
  import opened SplitFit
  import opened TreeShape
  import opened TreeSteps

  /** A stored tree with its ghost description. */
  datatype Tree = Tree(b: Bodies, par: Parents, g: Shape, root: PageId, m: map<Key, Value>)

  ghost predicate Sound(t: Tree, pend: Pending) {
    TreeOk(t.b, t.par, t.g, t.root, pend, t.m)
  }

  ghost function FateIn(t: Tree, p: PageId, sep: Key): Fate
    requires p in t.g && t.root in t.g
  {
    FateOf(t.b, t.par, t.g, t.root, p, sep)
  }

  // ----- one internal split -----

  /** A split of `left` is pending and its parent `q`, which is no root of its own, is known. */
  ghost predicate SplitBelow(t: Tree, left: PageId, child: PageId, q: PageId, key: Key) {
    && Sound(t, Split(left, child)) && left != t.root && t.par[left] == q != INVALID_PAGE_ID
    && t.par[child] == INVALID_PAGE_ID
    && Rank(key) == t.g[child].lo && 0 < |key| <= MAX_ENTRY - LEAF_SLOT_SIZE
  }

  // The separator is new to the parent and goes right after the half that was split.
  lemma SepIsNew(t: Tree, left: PageId, child: PageId, q: PageId, key: Key)
    requires SplitBelow(t, left, child, q, key)
    ensures q == t.g[left].up && q in t.g && t.b[q].Inner? && t.g[q].height == t.g[left].height + 1
    ensures Slot(t.b[q].seps, LowerBound(t.b[q].seps, key), key)
    ensures AttachPoint(t.b[q], LowerBound(t.b[q].seps, key), key)
  {
    var pend := Split(left, child);
    assert PageOk(t.b, t.g, t.root, pend, left) && PageOk(t.b, t.g, t.root, pend, child);
    assert PageOk(t.b, t.g, t.root, pend, q);
    var n := t.b[q];
    var j :| 0 <= j <= |n.seps| && Child(n, j) == left;
    assert ChildOk(t.g, pend, q, n, j);
    LowerBoundMeaning(n.seps, key);
    var i := LowerBound(n.seps, key);
    if i < |n.seps| && n.seps[i].0 == key { NotASeparator(n, t.g[q], j, key, i); }
  }

  lemma NotASeparator(n: Body, x: Info, j: nat, key: Key, i: nat)
    requires n.Inner? && Sorted(n.seps) && j <= |n.seps| && i < |n.seps|
    requires ChildLo(n, x, j) < Rank(key) < ChildHi(n, x, j)
    ensures n.seps[i].0 != key
  {
  }

  /** The parent with the separator added, as if it fitted. */
  ghost function Attached(t: Tree, q: PageId, key: Key, child: PageId): Tree
    requires q in t.b && t.b[q].Inner?
  {
    t.(b := AttachBodies(t.b, q, LowerBound(t.b[q].seps, key), key, child))
  }

  lemma AttachedOk(t: Tree, left: PageId, child: PageId, q: PageId, key: Key)
    requires SplitBelow(t, left, child, q, key)
    ensures q in t.g && t.b[q].Inner?
    ensures Sound(Attached(t, q, key, child), Settled)
    ensures Attached(t, q, key, child).b[q] == Inner(t.b[q].first, WithSep(t.b[q].seps, key, child))
    ensures Chained(t.b, t.g) ==> Chained(Attached(t, q, key, child).b, t.g)
  {
    SepIsNew(t, left, child, q, key);
    AttachOk(t.b, t.par, t.g, t.root, t.m, left, child, LowerBound(t.b[q].seps, key), key);
  }

  /** If `q` does not know its parent, splitting it leaves only its own subtree. */
  ghost function Cut(t: Tree, q: PageId): Tree
    requires q in t.g && q in t.par
  {
    if q != t.root && t.par[q] == INVALID_PAGE_ID
    then Tree(t.b, t.par, Pruned(t.g, q), q, Within(t.m, t.g[q]))
    else t
  }

  lemma CutOk(t: Tree, q: PageId)
    requires Sound(t, Settled) && q in t.g
    ensures q in t.par && Sound(Cut(t, q), Settled) && q in Cut(t, q).g
    ensures Cut(t, q).g[q].height == t.g[q].height && Cut(t, q).g[Cut(t, q).root].height <= t.g[t.root].height
    ensures Cut(t, q).par[q] == INVALID_PAGE_ID <==> q == Cut(t, q).root
  {
    assert t.par[q] == t.par[q];
    assert PageOk(t.b, t.g, t.root, Settled, q);
    if q != t.root && t.par[q] == INVALID_PAGE_ID {
      PruneOk(t.b, t.par, t.g, t.root, t.m, q);
    } else {
      if q != t.root { assert PageOk(t.b, t.g, t.root, Settled, t.g[q].up); }
    }
  }

  /** The node `q` cut in two after separator `s`, its right part on page `right`. */
  ghost function Halved(t: Tree, q: PageId, right: PageId, s: nat): Tree
    requires q in t.g && q in t.b && t.b[q].Inner? && s < |t.b[q].seps|
  {
    Tree(SplitInnerBodies(t.b, q, right, s), MovedParents(t.par, t.b[q], s, right),
         SplitInnerShape(t.b, t.g, q, right, s), t.root, t.m)
  }

  lemma HalvedOk(t: Tree, q: PageId, right: PageId, s: nat)
    requires Sound(t, Settled) && q in t.g && t.b[q].Inner? && 0 < s < |t.b[q].seps| - 1
    requires right !in t.g && right != INVALID_PAGE_ID
    ensures var u := Halved(t, q, right, s);
            && Sound(u, Split(q, right)) && (Chained(t.b, t.g) ==> Chained(u.b, u.g))
            && u.g[right].lo == Rank(t.b[q].seps[s].0) && u.g[q].height == t.g[q].height
            && u.g[u.root].height == t.g[t.root].height
            && q in u.par && q in t.par && u.par[q] == t.par[q]
            && 0 < |t.b[q].seps[s].0| <= MAX_ENTRY - LEAF_SLOT_SIZE
  {
    SplitInnerOk(t.b, t.par, t.g, t.root, t.m, q, right, s);
    OwnChildStays(t.b, t.g, t.root, q, s);
    assert BodyBounded(t.b, q);
    assert t.par[q] == t.par[q];
  }

  /** Everything a split of the parent does before it is handed upwards. */
  ghost function Stepped(t: Tree, q: PageId, key: Key, child: PageId, right: PageId): Tree
    requires q in t.b && t.b[q].Inner? && q in t.g && q in t.par
  {
    var u := Cut(Attached(t, q, key, child), q);
    if q in u.g then Halved(u, q, right, |u.b[q].seps| / 2) else t
  }

  lemma MovedOneDown(t: Tree, q: PageId, s: nat, c: PageId)
    requires Sound(t, Settled) && q in t.g && t.b[q].Inner?
    ensures Moves(t.b[q], s, c) ==> c in t.g && t.g[c].height + 1 == t.g[q].height && t.g[c].up == q
  {
    assert PageOk(t.b, t.g, t.root, Settled, q);
    if Moves(t.b[q], s, c) {
      var j :| s < j <= |t.b[q].seps| && Child(t.b[q], j) == c;
      assert ChildOk(t.g, Settled, q, t.b[q], j);
    }
  }

  function Middle(seps: seq<(Key, PageId)>, key: Key, child: PageId): Key {
    WithSep(seps, key, child)[(|seps| + 1) / 2].0
  }

  // A node that has no room for a separator has at least two.
  lemma FullIsWide(t: Tree, left: PageId, child: PageId, q: PageId, key: Key)
    requires SplitBelow(t, left, child, q, key) && q in t.g && q in t.b && t.b[q].Inner?
    requires !InnerHasRoom(t.b[q].seps, key)
    ensures |t.b[q].seps| >= 2
  {
    assert BodyBounded(t.b, q);
    InnerSizeBetween(t.b[q].seps);
  }

  lemma SteppedOk(t: Tree, left: PageId, child: PageId, q: PageId, key: Key, right: PageId)
    requires SplitBelow(t, left, child, q, key) && right !in t.b && right != INVALID_PAGE_ID
    requires q in t.b && t.b[q].Inner? && !InnerHasRoom(t.b[q].seps, key)
    ensures q in t.g && t.b[q].Inner? && q in t.par
    ensures var u := Stepped(t, q, key, child, right);
            && Sound(u, Split(q, right)) && q in u.par && u.par[q] == t.par[q]
            && (u.par[q] == INVALID_PAGE_ID <==> q == u.root) && (q != u.root ==> u.root == t.root)
            && u.g[u.root].height - u.g[q].height < t.g[t.root].height - t.g[left].height
            && u.g[u.root].height <= t.g[t.root].height
            && Rank(Middle(t.b[q].seps, key, child)) == u.g[right].lo
            && 0 < |Middle(t.b[q].seps, key, child)| <= MAX_ENTRY - LEAF_SLOT_SIZE
  {
    AttachedOk(t, left, child, q, key);
    SepIsNew(t, left, child, q, key);
    var a := Attached(t, q, key, child);
    CutOk(a, q);
    var c := Cut(a, q);
    FullIsWide(t, left, child, q, key);
    assert |c.b[q].seps| == |t.b[q].seps| + 1 && c.b[q].seps[|c.b[q].seps| / 2].0 == Middle(t.b[q].seps, key, child);
    HalvedOk(c, q, right, |c.b[q].seps| / 2);
  }

  /** The page splits without knowing its parent. */
  ghost predicate CutOff(t: Tree, q: PageId) {
    q in t.par && q != t.root && t.par[q] == INVALID_PAGE_ID
  }

  lemma FateUnfold(t: Tree, left: PageId, child: PageId, q: PageId, key: Key)
    requires left in t.g && t.root in t.g && left != t.root && left in t.par && t.par[left] == q != INVALID_PAGE_ID
    requires q in t.g && q in t.b && t.b[q].Inner? && t.g[left].height < t.g[q].height <= t.g[t.root].height
    requires !InnerHasRoom(t.b[q].seps, key)
    ensures var rest := FateIn(t, q, Middle(t.b[q].seps, key, child));
            FateIn(t, left, key) ==
              Fate(rest.lost, LowerBound(t.b[q].seps, key) < (|t.b[q].seps| + 1) / 2 || rest.orphans)
  {
    MiddleKey(t.b[q].seps, key, left, child);
  }

  lemma MiddleKey(seps: seq<(Key, PageId)>, key: Key, c: PageId, d: PageId)
    ensures WithSep(seps, key, c)[|WithSep(seps, key, c)| / 2].0 == Middle(seps, key, d)
  {
  }

  // What was decided before the split of the parent is what the rest of the cascade decides.
  lemma FateStep(t: Tree, left: PageId, child: PageId, q: PageId, key: Key, right: PageId)
    requires SplitBelow(t, left, child, q, key) && right !in t.b && right != INVALID_PAGE_ID
    requires q in t.b && t.b[q].Inner? && !InnerHasRoom(t.b[q].seps, key)
    ensures q in t.g && q in t.par && Sound(Stepped(t, q, key, child, right), Split(q, right))
    ensures var rest := FateIn(Stepped(t, q, key, child, right), q, Middle(t.b[q].seps, key, child));
            FateIn(t, left, key) ==
              Fate(if CutOff(t, q) then Some(q) else rest.lost,
                   LowerBound(t.b[q].seps, key) < (|t.b[q].seps| + 1) / 2 || rest.orphans)
  {
    SteppedOk(t, left, child, q, key, right);
    assert q in t.g && t.g[q].height == t.g[left].height + 1 && t.g[q].height <= t.g[t.root].height by {
      SepIsNew(t, left, child, q, key);
      assert PageOk(t.b, t.g, t.root, Split(left, child), q);
    }
    FateUnfold(t, left, child, q, key);
    FateAtParent(t, left, child, q, key, right);
  }

  lemma FateAtParent(t: Tree, left: PageId, child: PageId, q: PageId, key: Key, right: PageId)
    requires SplitBelow(t, left, child, q, key) && right !in t.b && right != INVALID_PAGE_ID
    requires q in t.g && q in t.b && t.b[q].Inner? && q in t.par && !InnerHasRoom(t.b[q].seps, key)
    requires Sound(Stepped(t, q, key, child, right), Split(q, right))
    ensures var up := Middle(t.b[q].seps, key, child);
            var rest := FateIn(Stepped(t, q, key, child, right), q, up);
            FateIn(t, q, up) == if CutOff(t, q) then Fate(Some(q), rest.orphans) else rest
  {
    var u, up := Stepped(t, q, key, child, right), Middle(t.b[q].seps, key, child);
    if CutOff(t, q) {
      assert u.root == q;
    } else {
      SteppedAbove(t, left, child, q, key, right);
      SteppedOk(t, left, child, q, key, right);
      FateSame(t.b, t.par, t.g, u.b, u.par, u.g, t.root, q, up);
    }
  }

  lemma SteppedAbove(t: Tree, left: PageId, child: PageId, q: PageId, key: Key, right: PageId)
    requires SplitBelow(t, left, child, q, key) && right !in t.b && right != INVALID_PAGE_ID
    requires q in t.g && q in t.b && t.b[q].Inner? && q in t.par && !CutOff(t, q) && !InnerHasRoom(t.b[q].seps, key)
    ensures var u := Stepped(t, q, key, child, right); Above(t.b, t.par, t.g, u.b, u.par, u.g, t.g[q].height)
    ensures var u := Stepped(t, q, key, child, right);
            u.root == t.root && q in u.g && t.root in u.g && u.g[t.root].height == t.g[t.root].height
  {
    var u := Stepped(t, q, key, child, right);
    AttachedOk(t, left, child, q, key);
    var a := Attached(t, q, key, child);
    var s := |a.b[q].seps| / 2;
    FullIsWide(t, left, child, q, key);
    HalvedOk(a, q, right, s);
    forall x ensures AboveAt(t.b, t.par, t.g, u.b, u.par, u.g, t.g[q].height, x) {
      MovedOneDown(a, q, s, x);
    }
  }

  // ----- the whole cascade -----

  ghost predicate KeptAt(t: Tree, v: Tree, h: nat, c: PageId) {
    && (c in t.g && t.g[c].height <= h ==>
          c in v.g && v.g[c].height == t.g[c].height && v.g[c].lo == t.g[c].lo && v.g[c].hi == t.g[c].hi)
    && (c in v.g && v.g[c].height <= h ==> c in t.g && t.g[c].height <= h)
    && (c in t.g && t.g[c].height < h ==> v.g[c] == t.g[c] && c in t.par && c in v.par && v.par[c] == t.par[c])
  }

  /** The pages up to height `h` stay the same and keep their interval, those below it also their parent
      and the pointer to it. */
  ghost predicate KeptBelow(t: Tree, v: Tree, h: nat) {
    forall c {:trigger KeptAt(t, v, h, c)} :: KeptAt(t, v, h, c)
  }

  ghost predicate LeafStays(b: Bodies, b': Bodies, p: PageId) {
    && (p in b && b[p].Leaf? ==> p in b' && b'[p] == b[p])
    && (p in b' && b'[p].Leaf? ==> p in b && b[p].Leaf?)
  }

  /** No leaf, whether in the tree or cut off from it, is rewritten, and none is added. */
  ghost predicate LeavesSame(b: Bodies, b': Bodies) {
    forall p {:trigger LeafStays(b, b', p)} :: LeafStays(b, b', p)
  }

  /** A leaf that is left lies inside the page that became the root; only the outermost ones answer for more. */
  ghost predicate PrunedLeaf(g: Shape, o: PageId, g': Shape, c: PageId)
    requires o in g
  {
    c in g' && g'[c].height == 0 ==>
      && c in g && g[c].height == 0 && Inside(g, o, c)
      && g'[c].lo == (if g[c].lo == g[o].lo then 0.0 else g[c].lo)
      && g'[c].hi == (if g[c].hi == g[o].hi then 1.0 else g[c].hi)
  }

  /** And every leaf inside that page is left. */
  ghost predicate InsideStays(g: Shape, o: PageId, g': Shape, c: PageId)
    requires o in g
  {
    c in g && g[c].height == 0 && Inside(g, o, c) ==> c in g' && g'[c].height == 0
  }

  /** From `t`, where the split of `left` into `left` and `right` is pending, the cascade led to `v`. */
  ghost predicate Led(t: Tree, left: PageId, right: PageId, fate: Fate, v: Tree)
    requires left in t.g
  {
    && Sound(v, Settled) && LeavesSame(t.b, v.b)
    && (fate.lost == None ==>
          && v.m == t.m && (v.root == t.root || v.root !in t.g)
          && (Chained(t.b, t.g) ==> Chained(v.b, v.g))
          && KeptBelow(t, v, t.g[left].height)
          && (ExactBut(t.par, t.g, t.root, right) ==> (Exact(v.par, v.g, v.root) <==> !fate.orphans)))
    && (fate.lost.Some? ==>
          var o := fate.lost.value;
          && o in t.g && CutOff(t, o) && t.g[o].height > t.g[left].height && v.m == Within(t.m, t.g[o])
          && right in t.g && t.g[o].lo <= t.g[left].lo && t.g[right].hi <= t.g[o].hi
          && (forall c {:trigger PrunedLeaf(t.g, o, v.g, c)} :: PrunedLeaf(t.g, o, v.g, c))
          && (forall c {:trigger InsideStays(t.g, o, v.g, c)} :: InsideStays(t.g, o, v.g, c)))
  }

  // The old root has split: a new one goes on top.
  lemma LedByNewRoot(t: Tree, right: PageId, top: PageId, key: Key)
    requires Sound(t, Split(t.root, right)) && Rank(key) == t.g[right].lo && top !in t.b && top != INVALID_PAGE_ID
    requires 0 < |key| <= MAX_ENTRY - LEAF_SLOT_SIZE
    ensures var v := Tree(t.b[top := Inner(t.root, [(key, right)])],
                          t.par[top := INVALID_PAGE_ID][t.root := top][right := top],
                          NewRootShape(t.g, t.root, right, top), top, t.m);
            Led(t, t.root, right, FateIn(t, t.root, key), v)
  {
    NewRootOk(t.b, t.par, t.g, t.root, t.m, right, top, key);
    var v := Tree(t.b[top := Inner(t.root, [(key, right)])], t.par[top := INVALID_PAGE_ID][t.root := top][right := top],
                  NewRootShape(t.g, t.root, right, top), top, t.m);
    forall c ensures KeptAt(t, v, t.g[t.root].height, c) {
      if c in t.g { assert t.par[c] == t.par[c]; }
    }
    forall p ensures LeafStays(t.b, v.b, p) {}
  }

  // The parent had room.
  lemma LedByAttaching(t: Tree, left: PageId, right: PageId, q: PageId, key: Key)
    requires SplitBelow(t, left, right, q, key) && q in t.b && t.b[q].Inner? && InnerHasRoom(t.b[q].seps, key)
    ensures q in t.g
    ensures Led(t, left, right, FateIn(t, left, key), Attached(t, q, key, right).(par := t.par[right := q]))
  {
    SepIsNew(t, left, right, q, key);
    AttachOk(t.b, t.par, t.g, t.root, t.m, left, right, LowerBound(t.b[q].seps, key), key);
    var v := Attached(t, q, key, right).(par := t.par[right := q]);
    assert PageOk(t.b, t.g, t.root, Split(left, right), left);
    forall c ensures KeptAt(t, v, t.g[left].height, c) {
      if c in t.g { assert t.par[c] == t.par[c]; }
    }
    forall p ensures LeafStays(t.b, v.b, p) {}
  }

  // The parent had to split as well; the rest of the cascade led from there to `v`.
  lemma LedBySplitting(t: Tree, left: PageId, child: PageId, q: PageId, key: Key, right: PageId, v: Tree)
    requires SplitBelow(t, left, child, q, key) && right !in t.b && right != INVALID_PAGE_ID
    requires q in t.g && q in t.b && t.b[q].Inner? && q in t.par && !InnerHasRoom(t.b[q].seps, key)
    requires var u := Stepped(t, q, key, child, right);
             Sound(u, Split(q, right)) && Led(u, q, right, FateIn(u, q, Middle(t.b[q].seps, key, child)), v)
    ensures Led(t, left, child, FateIn(t, left, key), v)
  {
    FateStep(t, left, child, q, key, right);
    SepIsNew(t, left, child, q, key);
    var u := Stepped(t, q, key, child, right);
    LeavesSteppedOver(t, left, child, q, key, right, v);
    if CutOff(t, q) {
      CutLeaves(t, left, child, q, key, right, v);
      HalvesInside(t, left, child, q, key);
    } else {
      var rest := FateIn(u, q, Middle(t.b[q].seps, key, child));
      SteppedAbove(t, left, child, q, key, right);
      SteppedSame(t, left, child, q, key, right);
      if rest.lost == None {
        assert KeptBelow(t, v, t.g[left].height) by { KeptTrans(t, u, v, t.g[left].height, u.g[q].height); }
        if ExactBut(t.par, t.g, t.root, child) { ExactAfter(t, left, child, q, key, right, v); }
      } else {
        LostAbove(t, left, child, q, key, right, v, rest.lost.value);
      }
    }
  }

  // Both halves lie inside their parent.
  lemma HalvesInside(t: Tree, left: PageId, child: PageId, q: PageId, key: Key)
    requires SplitBelow(t, left, child, q, key)
    ensures q in t.g && child in t.g && t.g[q].lo <= t.g[left].lo && t.g[child].hi <= t.g[q].hi
  {
    SepIsNew(t, left, child, q, key);
    var pend := Split(left, child);
    assert PageOk(t.b, t.g, t.root, pend, left) && PageOk(t.b, t.g, t.root, pend, q);
    var n := t.b[q];
    var j :| 0 <= j <= |n.seps| && Child(n, j) == left;
    assert ChildOk(t.g, pend, q, n, j) && InnerOk(t.b, t.g, pend, q);
  }

  // A page further up that splits without knowing its parent.
  lemma LostAbove(t: Tree, left: PageId, child: PageId, q: PageId, key: Key, right: PageId, v: Tree, o: PageId)
    requires SplitBelow(t, left, child, q, key) && right !in t.b && right != INVALID_PAGE_ID
    requires q in t.g && q in t.b && t.b[q].Inner? && q in t.par && !CutOff(t, q) && !InnerHasRoom(t.b[q].seps, key)
    requires var u := Stepped(t, q, key, child, right);
             && Sound(u, Split(q, right)) && o in u.g && CutOff(u, o) && u.g[o].height > u.g[q].height
             && u.root == t.root && v.m == Within(u.m, u.g[o])
             && right in u.g && u.g[o].lo <= u.g[q].lo && u.g[right].hi <= u.g[o].hi
             && (forall c {:trigger PrunedLeaf(u.g, o, v.g, c)} :: PrunedLeaf(u.g, o, v.g, c))
             && (forall c {:trigger InsideStays(u.g, o, v.g, c)} :: InsideStays(u.g, o, v.g, c))
    ensures o in t.g && CutOff(t, o) && t.g[o].height > t.g[left].height && v.m == Within(t.m, t.g[o])
    ensures child in t.g && t.g[o].lo <= t.g[left].lo && t.g[child].hi <= t.g[o].hi
    ensures forall c {:trigger PrunedLeaf(t.g, o, v.g, c)} :: PrunedLeaf(t.g, o, v.g, c)
    ensures forall c {:trigger InsideStays(t.g, o, v.g, c)} :: InsideStays(t.g, o, v.g, c)
  {
    var u := Stepped(t, q, key, child, right);
    SepIsNew(t, left, child, q, key);
    HalvesInside(t, left, child, q, key);
    SteppedAbove(t, left, child, q, key, right);
    SteppedSame(t, left, child, q, key, right);
    SteppedEnds(t, left, child, q, key, right);
    assert AboveAt(t.b, t.par, t.g, u.b, u.par, u.g, t.g[q].height, o);
    LostLeaves(t, u, v, t.g[left].height, o);
  }

  lemma SteppedEnds(t: Tree, left: PageId, child: PageId, q: PageId, key: Key, right: PageId)
    requires SplitBelow(t, left, child, q, key) && right !in t.b && right != INVALID_PAGE_ID
    requires q in t.g && q in t.b && t.b[q].Inner? && q in t.par && !CutOff(t, q) && !InnerHasRoom(t.b[q].seps, key)
    ensures var u := Stepped(t, q, key, child, right);
            && q in u.g && right in u.g && u.g[q].lo == t.g[q].lo && u.g[right].hi == t.g[q].hi
            && u.g[q].height == t.g[q].height
  {
    var a, s := UncutStep(t, left, child, q, key, right);
  }

  lemma LeavesSteppedOver(t: Tree, left: PageId, child: PageId, q: PageId, key: Key, right: PageId, v: Tree)
    requires SplitBelow(t, left, child, q, key) && right !in t.b && right != INVALID_PAGE_ID
    requires q in t.g && q in t.b && t.b[q].Inner? && q in t.par
    requires LeavesSame(Stepped(t, q, key, child, right).b, v.b)
    ensures LeavesSame(t.b, v.b)
  {
    SteppedStore(t, left, child, q, key, right);
    var u := Stepped(t, q, key, child, right);
    forall p ensures LeafStays(t.b, v.b, p) { assert LeafStays(u.b, v.b, p); }
  }

  // The leaves that are left when the parent splits without knowing its own.
  lemma CutLeaves(t: Tree, left: PageId, child: PageId, q: PageId, key: Key, right: PageId, v: Tree)
    requires SplitBelow(t, left, child, q, key) && right !in t.b && right != INVALID_PAGE_ID
    requires q in t.g && q in t.b && t.b[q].Inner? && q in t.par && CutOff(t, q)
    requires var u := Stepped(t, q, key, child, right); q in u.g && u.g[q].height > 0 && KeptBelow(u, v, u.g[q].height)
    ensures forall c {:trigger PrunedLeaf(t.g, q, v.g, c)} :: PrunedLeaf(t.g, q, v.g, c)
    ensures forall c {:trigger InsideStays(t.g, q, v.g, c)} :: InsideStays(t.g, q, v.g, c)
  {
    var u := Stepped(t, q, key, child, right);
    forall c ensures PrunedLeaf(t.g, q, v.g, c) { assert KeptAt(u, v, u.g[q].height, c); }
    forall c ensures InsideStays(t.g, q, v.g, c) { assert KeptAt(u, v, u.g[q].height, c); }
  }

  lemma LostLeaves(t: Tree, u: Tree, v: Tree, h: nat, o: PageId)
    requires KeptBelow(t, u, h) && o in t.g && o in u.g && u.g[o] == t.g[o]
    requires forall c {:trigger PrunedLeaf(u.g, o, v.g, c)} :: PrunedLeaf(u.g, o, v.g, c)
    requires forall c {:trigger InsideStays(u.g, o, v.g, c)} :: InsideStays(u.g, o, v.g, c)
    ensures forall c {:trigger PrunedLeaf(t.g, o, v.g, c)} :: PrunedLeaf(t.g, o, v.g, c)
    ensures forall c {:trigger InsideStays(t.g, o, v.g, c)} :: InsideStays(t.g, o, v.g, c)
  {
    forall c ensures PrunedLeaf(t.g, o, v.g, c) { assert PrunedLeaf(u.g, o, v.g, c) && KeptAt(t, u, h, c); }
    forall c ensures InsideStays(t.g, o, v.g, c) { assert InsideStays(u.g, o, v.g, c) && KeptAt(t, u, h, c); }
  }

  // The split touches the parent, its new sibling and the children that move; nothing else.
  lemma SteppedSame(t: Tree, left: PageId, child: PageId, q: PageId, key: Key, right: PageId)
    requires SplitBelow(t, left, child, q, key) && right !in t.b && right != INVALID_PAGE_ID
    requires q in t.g && q in t.b && t.b[q].Inner? && q in t.par && !CutOff(t, q) && !InnerHasRoom(t.b[q].seps, key)
    ensures var u := Stepped(t, q, key, child, right);
            && u.m == t.m && u.g.Keys == t.g.Keys + {right} && (Chained(t.b, t.g) ==> Chained(u.b, u.g))
            && (forall c :: c in t.g && t.g[c].height > t.g[q].height ==> u.g[c] == t.g[c])
            && KeptBelow(t, u, t.g[left].height)
  {
    var a, s := UncutStep(t, left, child, q, key, right);
    HalvedOk(a, q, right, s);
    HalvedKeeps(a, q, right, s);
    KeptFrom(t, a, Halved(a, q, right, s), t.g[left].height);
  }

  lemma UncutStep(t: Tree, left: PageId, child: PageId, q: PageId, key: Key, right: PageId) returns (a: Tree, s: nat)
    requires SplitBelow(t, left, child, q, key) && right !in t.b && right != INVALID_PAGE_ID
    requires q in t.g && q in t.b && t.b[q].Inner? && q in t.par && !CutOff(t, q) && !InnerHasRoom(t.b[q].seps, key)
    ensures Sound(a, Settled) && (Chained(t.b, t.g) ==> Chained(a.b, a.g))
    ensures a.g == t.g && a.par == t.par && a.m == t.m && t.g[q].height == t.g[left].height + 1 && right !in t.g
    ensures a.b[q].Inner? && 0 < s < |a.b[q].seps| - 1 && Stepped(t, q, key, child, right) == Halved(a, q, right, s)
  {
    AttachedOk(t, left, child, q, key);
    SepIsNew(t, left, child, q, key);
    FullIsWide(t, left, child, q, key);
    a := Attached(t, q, key, child);
    s := |a.b[q].seps| / 2;
  }

  lemma KeptFrom(t: Tree, a: Tree, u: Tree, h: nat)
    requires a.g == t.g && a.par == t.par && KeptBelow(a, u, h)
    ensures KeptBelow(t, u, h)
  {
    forall c ensures KeptAt(t, u, h, c) { assert KeptAt(a, u, h, c); }
  }

  lemma HalvedKeeps(a: Tree, q: PageId, right: PageId, s: nat)
    requires Sound(a, Settled) && q in a.g && a.b[q].Inner? && s < |a.b[q].seps| && right !in a.g
    ensures var u := Halved(a, q, right, s);
            && u.g.Keys == a.g.Keys + {right}
            && (forall c :: c in a.g && a.g[c].height > a.g[q].height ==> u.g[c] == a.g[c])
            && (a.g[q].height > 0 ==> KeptBelow(a, u, a.g[q].height - 1))
  {
    var u := Halved(a, q, right, s);
    forall c | c in a.g && a.g[c].height + 1 != a.g[q].height ensures !Moves(a.b[q], s, c) {
      MovedOneDown(a, q, s, c);
    }
    if a.g[q].height > 0 {
      var h := a.g[q].height - 1;
      forall c ensures KeptAt(a, u, h, c) {
        if c in a.g { assert a.par[c] == a.par[c]; }
      }
    }
  }

  lemma KeptTrans(t: Tree, u: Tree, v: Tree, h: nat, k: nat)
    requires KeptBelow(t, u, h) && KeptBelow(u, v, k) && h <= k
    ensures KeptBelow(t, v, h)
  {
    forall c ensures KeptAt(t, v, h, c) {
      assert KeptAt(t, u, h, c) && KeptAt(u, v, k, c);
    }
  }

  // The new child's pointer is set if and only if it moves to the new right node.
  lemma NewChildMoves(t: Tree, left: PageId, child: PageId, q: PageId, key: Key, right: PageId)
    requires SplitBelow(t, left, child, q, key) && right !in t.b && right != INVALID_PAGE_ID
    requires q in t.g && q in t.b && t.b[q].Inner? && q in t.par && !CutOff(t, q)
    ensures var a := Attached(t, q, key, child);
            Moves(a.b[q], |a.b[q].seps| / 2, child) <==> LowerBound(t.b[q].seps, key) >= (|t.b[q].seps| + 1) / 2
  {
    AttachedOk(t, left, child, q, key);
    var a := Attached(t, q, key, child);
    var n, i, s := a.b[q], LowerBound(t.b[q].seps, key), |a.b[q].seps| / 2;
    assert Child(n, i + 1) == child;
    if Moves(n, s, child) {
      var j :| s < j <= |n.seps| && Child(n, j) == child;
      ChildrenDistinct(a.b, a.g, a.root, Settled, q, i + 1, j);
    }
  }

  lemma ExactAfter(t: Tree, left: PageId, child: PageId, q: PageId, key: Key, right: PageId, v: Tree)
    requires SplitBelow(t, left, child, q, key) && right !in t.b && right != INVALID_PAGE_ID
    requires q in t.g && q in t.b && t.b[q].Inner? && q in t.par && !CutOff(t, q)
    requires ExactBut(t.par, t.g, t.root, child)
    requires var u := Stepped(t, q, key, child, right);
             var rest := FateIn(u, q, Middle(t.b[q].seps, key, child));
             Sound(u, Split(q, right)) && Led(u, q, right, rest, v) && rest.lost == None
    ensures var u := Stepped(t, q, key, child, right);
            Exact(v.par, v.g, v.root) <==>
              !(LowerBound(t.b[q].seps, key) < (|t.b[q].seps| + 1) / 2
                || FateIn(u, q, Middle(t.b[q].seps, key, child)).orphans)
  {
    var u := Stepped(t, q, key, child, right);
    NewChildMoves(t, left, child, q, key, right);
    SepIsNew(t, left, child, q, key);
    SteppedExact(t, left, child, q, key, right);
    if LowerBound(t.b[q].seps, key) < (|t.b[q].seps| + 1) / 2 {
      assert KeptAt(u, v, u.g[q].height, child);
      assert v.par[child] != v.g[child].up;
    }
  }

  lemma SteppedExact(t: Tree, left: PageId, child: PageId, q: PageId, key: Key, right: PageId)
    requires SplitBelow(t, left, child, q, key) && right !in t.b && right != INVALID_PAGE_ID
    requires q in t.g && q in t.b && t.b[q].Inner? && q in t.par && !CutOff(t, q)
    requires ExactBut(t.par, t.g, t.root, child)
    ensures var a, u := Attached(t, q, key, child), Stepped(t, q, key, child, right);
            && child in u.g && child in u.par && u.root == t.root
            && (Moves(a.b[q], |a.b[q].seps| / 2, child) ==> ExactBut(u.par, u.g, u.root, right))
            && (!Moves(a.b[q], |a.b[q].seps| / 2, child) ==> u.par[child] == INVALID_PAGE_ID && u.g[child].up == q)
            && u.g[child].height + 1 == u.g[q].height && child != u.root
  {
    AttachedOk(t, left, child, q, key);
    var a, u := Attached(t, q, key, child), Stepped(t, q, key, child, right);
    SepIsNew(t, left, child, q, key);
    assert PageOk(t.b, t.g, t.root, Split(left, child), left);
    OwnChildStays(a.b, a.g, a.root, q, |a.b[q].seps| / 2);
    assert t.par[child] == INVALID_PAGE_ID;
    forall p | p in u.g && p in u.par && p != u.root && p != right
               && (p != child || Moves(a.b[q], |a.b[q].seps| / 2, child))
      ensures u.par[p] == u.g[p].up
    {
      assert t.par[p] == t.par[p];
    }
  }

  // ----- what the code writes, in these terms -----

  /** The pointers after the first `i` children of `n` were pointed at `r`. */
  ghost function Adopt(par: Parents, n: Body, i: nat, r: PageId): Parents
    requires n.Inner?
  {
    map c | c in par :: if ChildBefore(n, i, c) then r else par[c]
  }

  ghost predicate ChildBefore(n: Body, i: nat, c: PageId)
    requires n.Inner?
  {
    exists j :: 0 <= j < i && j <= |n.seps| && Child(n, j) == c
  }

  lemma AdoptNone(par: Parents, n: Body, r: PageId)
    requires n.Inner?
    ensures Adopt(par, n, 0, r) == par
  {
  }

  lemma AdoptOne(par: Parents, n: Body, i: nat, r: PageId)
    requires n.Inner? && i <= |n.seps| && Child(n, i) in par
    ensures Adopt(par, n, i + 1, r) == Adopt(par, n, i, r)[Child(n, i) := r]
  {
    forall c | c in par ensures ChildBefore(n, i + 1, c) <==> ChildBefore(n, i, c) || c == Child(n, i) {
      if ChildBefore(n, i, c) {
        var j :| 0 <= j < i && j <= |n.seps| && Child(n, j) == c;
        assert j < i + 1;
      }
    }
  }

  /** The right part of an internal node cut after separator `s`. */
  function RightPart(n: Body, s: nat): Body
    requires n.Inner? && s < |n.seps|
  {
    Inner(n.seps[s].1, n.seps[s + 1..])
  }

  lemma RightChildren(n: Body, s: nat, c: PageId)
    requires n.Inner? && s < |n.seps|
    ensures ChildBefore(RightPart(n, s), |n.seps| - s, c) <==> Moves(n, s, c)
  {
    var r := RightPart(n, s);
    if Moves(n, s, c) {
      var j :| s < j <= |n.seps| && Child(n, j) == c;
      assert Child(r, j - s - 1) == c;
    }
    if ChildBefore(r, |n.seps| - s, c) {
      var j :| 0 <= j < |n.seps| - s && j <= |r.seps| && Child(r, j) == c;
      assert Child(n, j + s + 1) == c;
    }
  }

  lemma AdoptMoved(par: Parents, n: Body, s: nat, r: PageId)
    requires n.Inner? && s < |n.seps| && !Moves(n, s, r)
    ensures Adopt(par[r := INVALID_PAGE_ID], RightPart(n, s), |n.seps| - s, r) == MovedParents(par, n, s, r)
  {
    forall c ensures ChildBefore(RightPart(n, s), |n.seps| - s, c) <==> Moves(n, s, c) { RightChildren(n, s, c); }
  }

  lemma SteppedStore(t: Tree, left: PageId, child: PageId, q: PageId, key: Key, right: PageId)
    requires SplitBelow(t, left, child, q, key) && right !in t.b && right != INVALID_PAGE_ID
    requires q in t.g && q in t.b && t.b[q].Inner? && q in t.par
    ensures var es := WithSep(t.b[q].seps, key, child);
            var s, n, u := |es| / 2, Inner(t.b[q].first, es), Stepped(t, q, key, child, right);
            && u.b == t.b[q := Inner(t.b[q].first, es[..s])][right := RightPart(n, s)]
            && u.par == Adopt(t.par[right := INVALID_PAGE_ID], RightPart(n, s), |es| - s, right)
  {
    AttachedOk(t, left, child, q, key);
    var a := Attached(t, q, key, child);
    var s := |a.b[q].seps| / 2;
    CutOk(a, q);
    MovedOneDown(a, q, s, right);
    HalvedStore(t.b, t.par, q, Inner(t.b[q].first, WithSep(t.b[q].seps, key, child)), s, right);
  }

  lemma HalvedStore(b: Bodies, par: Parents, q: PageId, n: Body, s: nat, right: PageId)
    requires q in b && n.Inner? && s < |n.seps| && !Moves(n, s, right)
    ensures SplitInnerBodies(b[q := n], q, right, s) == b[q := Inner(n.first, n.seps[..s])][right := RightPart(n, s)]
    ensures MovedParents(par, n, s, right) == Adopt(par[right := INVALID_PAGE_ID], RightPart(n, s), |n.seps| - s, right)
  {
    AdoptMoved(par, n, s, right);
  }

  /** All children of the node are stored. */
  ghost predicate ChildrenIn(b: Bodies, n: Body) {
    n.Inner? && forall j :: 0 <= j <= |n.seps| ==> Child(n, j) in b
  }

  lemma ChildrenStay(b: Bodies, b': Bodies, n: Body)
    requires ChildrenIn(b, n) && b.Keys <= b'.Keys
    ensures ChildrenIn(b', n)
  {
  }

  // The pages as they are written, recognised as the step.
  lemma SteppedIs(t: Tree, left: PageId, child: PageId, q: PageId, key: Key, right: PageId,
                  es: seq<(Key, PageId)>, b': Bodies, par': Parents, up: Key)
    requires SplitBelow(t, left, child, q, key) && right !in t.b && right != INVALID_PAGE_ID
    requires q in t.g && q in t.b && t.b[q].Inner? && q in t.par
    requires es == WithSep(t.b[q].seps, key, child) && up == es[|es| / 2].0
    requires var n := RightPart(Inner(t.b[q].first, es), |es| / 2);
             && b' == t.b[q := Inner(t.b[q].first, es[..|es| / 2])][right := n]
             && par' == Adopt(t.par[right := INVALID_PAGE_ID], n, |es| - |es| / 2, right)
    ensures var u := Stepped(t, q, key, child, right); b' == u.b && par' == u.par
    ensures up == Middle(t.b[q].seps, key, child)
  {
    SteppedStore(t, left, child, q, key, right);
  }

  lemma RightStored(t: Tree, left: PageId, child: PageId, q: PageId, key: Key)
    requires SplitBelow(t, left, child, q, key)
    requires q in t.g && q in t.b && t.b[q].Inner?
    ensures var es := WithSep(t.b[q].seps, key, child);
            var s, n := |es| / 2, Inner(t.b[q].first, es);
            && ChildrenIn(t.b, RightPart(n, s))
            && SepsWithin(es) && Sorted(es)
  {
    AttachedOk(t, left, child, q, key);
    var a := Attached(t, q, key, child);
    var n, s := a.b[q], |a.b[q].seps| / 2;
    assert PageOk(a.b, a.g, a.root, Settled, q) && BodyBounded(a.b, q);
    forall j | 0 <= j <= |RightPart(n, s).seps| ensures Child(RightPart(n, s), j) in t.b {
      assert ChildOk(a.g, Settled, q, n, j + s + 1);
    }
  }
}
