// What insertion and deletion do to the stored tree, one local step at a time.
// `TreeOk` bundles everything a tree keeps; each lemma says that one step of
// the code keeps it and what it does to the contents.
module TreeSteps {
  import opened Bytes
  import opened KeyOrder
  import opened NodeBody
  import opened Layout
  import opened SplitFit
  import opened TreeShape

  /** Entry sizes within the bound for which splits are safe, and no internal node without a separator. */
  ghost predicate Bounded(b: Bodies, g: Shape) {
    forall p {:trigger BodyBounded(b, p)} :: p in g && p in b ==> BodyBounded(b, p)
  }

  ghost predicate BodyBounded(b: Bodies, p: PageId)
    requires p in b
  {
    match b[p]
    case Leaf(es, _) => EntriesWithin(es, MAX_ENTRY)
    case Inner(_, seps) => seps != [] && SepsWithin(seps)
  }

  ghost predicate TreeOk(b: Bodies, par: Parents, g: Shape, root: PageId, pend: Pending, m: map<Key, Value>) {
    Shaped(b, g, root, pend) && Models(b, g, m) && ParentsOk(par, g, root) && Bounded(b, g)
  }

  ghost predicate Exact(par: Parents, g: Shape, root: PageId) {
    forall p {:trigger par[p]} :: p in g && p in par && p != root ==> par[p] == g[p].up
  }

  lemma PutOk(b: Bodies, par: Parents, g: Shape, root: PageId, m: map<Key, Value>, p: PageId, k: Key, v: Value)
    requires TreeOk(b, par, g, root, Settled, m) && p in g && b[p].Leaf? && Covers(g[p], k)
    requires EntrySize((k, v)) <= MAX_ENTRY
    ensures var b' := b[p := Leaf(PutEntry(b[p].entries, k, v), b[p].next)];
            TreeOk(b', par, g, root, Settled, m[k := v]) && (Chained(b, g) ==> Chained(b', g))
  {
    var es := b[p].entries;
    assert PageOk(b, g, root, Settled, p) && BodyBounded(b, p);
    PutInLeaf(es, b[p].next, g[p], k, v);
    PutLeaf(b, g, root, p, PutEntry(es, k, v));
    forall k'
      ensures if Covers(g[p], k') then Get(m[k := v], k') == Assoc(PutEntry(es, k, v), k')
              else Get(m[k := v], k') == Get(m, k')
    {
      if Covers(g[p], k') { PutEntryMeaning(es, k, v, k'); }
    }
    PutLeafModels(b, g, root, p, PutEntry(es, k, v), m, m[k := v]);
    PutBounded(b, g, p, PutEntry(es, k, v));
  }

  lemma PutInLeaf(es: seq<(Key, Value)>, next: PageId, x: Info, k: Key, v: Value)
    requires LeafOk(Leaf(es, next), x) && Covers(x, k)
    ensures LeafOk(Leaf(PutEntry(es, k, v), next), x)
    ensures EntriesWithin(es, MAX_ENTRY) && EntrySize((k, v)) <= MAX_ENTRY ==>
              EntriesWithin(PutEntry(es, k, v), MAX_ENTRY)
  {
    PutEntrySorted(es, k, v);
    forall i | 0 <= i < |PutEntry(es, k, v)| ensures PutEntry(es, k, v)[i] in es + [(k, v)] {
      PutAmong(es, LowerBound(es, k), (k, v), i);
    }
  }

  lemma PutAmong<T>(s: seq<T>, at: nat, x: T, i: nat)
    requires at <= |s|
    ensures i <= |s| ==> Insert(s, at, x)[i] in s + [x]
    ensures at < |s| && i < |s| ==> s[at := x][i] in s + [x]
  {
    assert (s + [x])[|s|] == x;
    if i < |s| { assert (s + [x])[i] == s[i]; }
    if at < i <= |s| { assert (s + [x])[i - 1] == s[i - 1]; }
  }

  lemma PutBounded(b: Bodies, g: Shape, p: PageId, es: seq<(Key, Value)>)
    requires Bounded(b, g) && p in b && b[p].Leaf? && EntriesWithin(es, MAX_ENTRY)
    ensures Bounded(b[p := Leaf(es, b[p].next)], g)
  {
    var b' := b[p := Leaf(es, b[p].next)];
    forall q | q in g && q in b' ensures BodyBounded(b', q) {
      if q != p { assert BodyBounded(b, q); }
    }
  }

  lemma DropOk(b: Bodies, par: Parents, g: Shape, root: PageId, m: map<Key, Value>, p: PageId, k: Key)
    requires TreeOk(b, par, g, root, Settled, m) && p in g && b[p].Leaf? && Covers(g[p], k)
    ensures var b' := b[p := Leaf(DropEntry(b[p].entries, k), b[p].next)];
            TreeOk(b', par, g, root, Settled, m - {k}) && (Chained(b, g) ==> Chained(b', g))
  {
    var es := b[p].entries;
    var es' := DropEntry(es, k);
    assert PageOk(b, g, root, Settled, p) && BodyBounded(b, p);
    DropEntryMeaning(es, k, k);
    PutLeaf(b, g, root, p, es');
    forall k' ensures if Covers(g[p], k') then Get(m - {k}, k') == Assoc(es', k') else Get(m - {k}, k') == Get(m, k') {
      DropEntryMeaning(es, k, k');
      assert Covers(g[p], k') ==> Get(m, k') == Assoc(es, k');
    }
    PutLeafModels(b, g, root, p, es', m, m - {k});
    PutBounded(b, g, p, es');
  }

  lemma SplitLeafOk(b: Bodies, par: Parents, g: Shape, root: PageId, m: map<Key, Value>, p: PageId, r: PageId, s: nat)
    requires TreeOk(b, par, g, root, Settled, m) && p in g && b[p].Leaf?
    requires r !in g && r != INVALID_PAGE_ID && 0 < s < |b[p].entries|
    ensures var b', g' := SplitLeafBodies(b, p, r, s), SplitShape(g, p, r, Rank(b[p].entries[s].0));
            TreeOk(b', par[r := INVALID_PAGE_ID], g', root, Split(p, r), m) && (Chained(b, g) ==> Chained(b', g'))
  {
    var b', g' := SplitLeafBodies(b, p, r, s), SplitShape(g, p, r, Rank(b[p].entries[s].0));
    SplitLeaf(b, g, root, p, r, s);
    SplitLeafModels(b, g, root, p, r, s, m);
    assert BodyBounded(b, p);
    forall q | q in g' && q in b' ensures BodyBounded(b', q) {
      if q != p && q != r { assert BodyBounded(b, q); }
    }
  }

  /** The leaves, their contents and their intervals are the same in both trees. */
  ghost predicate SameLeaves(b: Bodies, g: Shape, b': Bodies, g': Shape) {
    && (forall p :: p in g && p in b && b[p].Leaf? ==> p in g' && g'[p].height == g[p].height && g'[p].lo == g[p].lo)
    && (forall p :: p in g' && p in b' && b'[p].Leaf? ==>
          p in g && p in b && b'[p] == b[p] && g'[p].lo == g[p].lo && g'[p].hi == g[p].hi)
  }

  lemma SameLeavesKeep(b: Bodies, g: Shape, root: PageId, pend: Pending, b': Bodies, g': Shape, m: map<Key, Value>)
    requires Shaped(b, g, root, pend) && SameLeaves(b, g, b', g')
    ensures Models(b, g, m) ==> Models(b', g', m)
    ensures Chained(b, g) ==> Chained(b', g')
  {
    if Models(b, g, m) {
      forall p, k | p in g' && p in b' && b'[p].Leaf? && Covers(g'[p], k)
        ensures Get(m, k) == Assoc(b'[p].entries, k)
      {
        assert Covers(g[p], k);
      }
    }
    if Chained(b, g) {
      forall p | p in g' && p in b' && b'[p].Leaf? && g'[p].hi != 1.0
        ensures b'[p].next in g' && g'[b'[p].next].height == 0 && g'[b'[p].next].lo == g'[p].hi
      {
        assert PageOk(b, g, root, pend, b[p].next);
      }
    }
  }

  lemma AttachOk(b: Bodies, par: Parents, g: Shape, root: PageId, m: map<Key, Value>,
                 p: PageId, r: PageId, i: nat, sep: Key)
    requires TreeOk(b, par, g, root, Split(p, r), m) && p != root && Rank(sep) == g[r].lo
    requires g[p].up in g && b[g[p].up].Inner? && AttachPoint(b[g[p].up], i, sep)
    requires 0 < |sep| <= MAX_ENTRY - LEAF_SLOT_SIZE
    ensures var b' := AttachBodies(b, g[p].up, i, sep, r);
            && TreeOk(b', par, g, root, Settled, m) && TreeOk(b', par[r := g[p].up], g, root, Settled, m)
            && (Chained(b, g) ==> Chained(b', g))
  {
    var q := g[p].up;
    var b' := AttachBodies(b, q, i, sep, r);
    Attach(b, g, root, p, r, i, sep);
    SameLeavesKeep(b, g, root, Split(p, r), b', g, m);
    AttachBounded(b, g, q, i, sep, r);
    ParentsMore(par, g, root, r, q);
  }

  lemma AttachBounded(b: Bodies, g: Shape, q: PageId, i: nat, sep: Key, r: PageId)
    requires Bounded(b, g) && q in g && q in b && b[q].Inner? && i <= |b[q].seps|
    requires 0 < |sep| <= MAX_ENTRY - LEAF_SLOT_SIZE
    ensures Bounded(AttachBodies(b, q, i, sep, r), g)
  {
    var b' := AttachBodies(b, q, i, sep, r);
    assert BodyBounded(b, q);
    forall c | c in g && c in b' ensures BodyBounded(b', c) {
      if c != q { assert BodyBounded(b, c); }
    }
  }

  lemma ParentsMore(par: Parents, g: Shape, root: PageId, r: PageId, q: PageId)
    requires ParentsOk(par, g, root) && r in g && r != root && g[r].up == q
    ensures ParentsOk(par[r := q], g, root)
  {
  }

  /** `update_children_parent` for the new right node, which itself has no parent yet. */
  ghost function MovedParents(par: Parents, n: Body, s: nat, r: PageId): Parents
    requires n.Inner?
  {
    (map c | c in par :: if Moves(n, s, c) then r else par[c])[r := INVALID_PAGE_ID]
  }

  lemma SplitInnerOk(b: Bodies, par: Parents, g: Shape, root: PageId, m: map<Key, Value>, q: PageId, r: PageId, s: nat)
    requires TreeOk(b, par, g, root, Settled, m) && q in g && b[q].Inner? && 0 < s < |b[q].seps| - 1
    requires r !in g && r != INVALID_PAGE_ID
    ensures var b', g' := SplitInnerBodies(b, q, r, s), SplitInnerShape(b, g, q, r, s);
            && TreeOk(b', MovedParents(par, b[q], s, r), g', root, Split(q, r), m)
            && (Chained(b, g) ==> Chained(b', g'))
  {
    var b', g' := SplitInnerBodies(b, q, r, s), SplitInnerShape(b, g, q, r, s);
    SplitInner(b, g, root, q, r, s);
    SameLeavesKeep(b, g, root, Settled, b', g', m);
    assert BodyBounded(b, q);
    forall c | c in g' && c in b' ensures BodyBounded(b', c) {
      if c != q && c != r { assert BodyBounded(b, c); }
    }
    OwnChildStays(b, g, root, q, s);
  }

  lemma NewRootOk(b: Bodies, par: Parents, g: Shape, root: PageId, m: map<Key, Value>, r: PageId, top: PageId, sep: Key)
    requires TreeOk(b, par, g, root, Split(root, r), m) && Rank(sep) == g[r].lo
    requires top !in g && top != INVALID_PAGE_ID && 0 < |sep| <= MAX_ENTRY - LEAF_SLOT_SIZE
    ensures var b', g' := b[top := Inner(root, [(sep, r)])], NewRootShape(g, root, r, top);
            && TreeOk(b', par[top := INVALID_PAGE_ID][root := top][r := top], g', top, Settled, m)
            && (Chained(b, g) ==> Chained(b', g'))
  {
    var b', g' := b[top := Inner(root, [(sep, r)])], NewRootShape(g, root, r, top);
    NewRoot(b, g, root, r, top, sep);
    SameLeavesKeep(b, g, root, Split(root, r), b', g', m);
    forall c | c in g' && c in b' ensures BodyBounded(b', c) {
      if c != top { assert BodyBounded(b, c); }
    }
  }

  // A page without a parent pointer becomes the root of what is left.
  lemma PruneOk(b: Bodies, par: Parents, g: Shape, root: PageId, m: map<Key, Value>, o: PageId)
    requires TreeOk(b, par, g, root, Settled, m) && o in g && par[o] == INVALID_PAGE_ID
    ensures TreeOk(b, par, Pruned(g, o), o, Settled, Within(m, g[o]))
  {
    Prune(b, g, root, o);
    PruneModels(b, g, root, o, m);
    var g' := Pruned(g, o);
    forall c | c in g' && c in b ensures BodyBounded(b, c) { assert c in g; }
  }

  // ----- how far a split travels -----

  /** `leaf_can_fit` and `internal_can_fit`: room for the entry and one spare slot. */
  predicate LeafHasRoom(es: seq<(Key, Value)>, k: Key, v: Value) {
    LeafSize(es) + EntrySize((k, v)) + LEAF_SLOT_SIZE <= LEAF_ROOM
  }

  predicate InnerHasRoom(seps: seq<(Key, PageId)>, k: Key) {
    InnerSize(seps) + SepSize((k, 0)) + INNER_SLOT_SIZE <= INNER_ROOM
  }

  /** The separators of an internal node with one more in its place. */
  function WithSep(seps: seq<(Key, PageId)>, k: Key, c: PageId): (es: seq<(Key, PageId)>)
    ensures |es| == |seps| + 1
  {
    Insert(seps, LowerBound(seps, k), (k, c))
  }

  /** What becomes of a split of `p` with separator `sep`, decided by the pages above `p`:
      `lost` is a page that splits without knowing its parent, `orphans` says whether some
      internal split leaves its new child without one. */
  datatype Fate = Fate(lost: Option<PageId>, orphans: bool)

  ghost function FateOf(b: Bodies, par: Parents, g: Shape, root: PageId, p: PageId, sep: Key): Fate
    requires p in g && root in g
    decreases g[root].height - g[p].height
  {
    if p == root || p !in par then Fate(None, false)
    else if par[p] == INVALID_PAGE_ID then Fate(Some(p), false)
    else
      var q := par[p];
      if q in g && q in b && b[q].Inner? && g[p].height < g[q].height <= g[root].height
         && !InnerHasRoom(b[q].seps, sep)
      then
        var es := WithSep(b[q].seps, sep, p);
        var rest := FateOf(b, par, g, root, q, es[|es| / 2].0);
        Fate(rest.lost, LowerBound(b[q].seps, sep) < |es| / 2 || rest.orphans)
      else Fate(None, false)
  }

  // Only the pages above `p`, and `p`'s own pointer, decide.
  lemma {:induction false} FateSame(b: Bodies, par: Parents, g: Shape, b': Bodies, par': Parents, g': Shape,
                                   root: PageId, p: PageId, sep: Key)
    requires p in g && p in g' && root in g && root in g' && g'[p].height == g[p].height
    requires (p in par <==> p in par') && (p in par ==> par'[p] == par[p])
    requires Above(b, par, g, b', par', g', g[p].height) && g'[root].height == g[root].height
    ensures FateOf(b', par', g', root, p, sep) == FateOf(b, par, g, root, p, sep)
    decreases g[root].height - g[p].height
  {
    if p != root && p in par && par[p] != INVALID_PAGE_ID {
      var q := par[p];
      assert AboveAt(b, par, g, b', par', g', g[p].height, q);
      if q in g && q in b && b[q].Inner? && g[p].height < g[q].height <= g[root].height
         && !InnerHasRoom(b[q].seps, sep)
      {
        var es := WithSep(b[q].seps, sep, p);
        forall x ensures AboveAt(b, par, g, b', par', g', g[q].height, x) {
          assert AboveAt(b, par, g, b', par', g', g[p].height, x);
        }
        FateSame(b, par, g, b', par', g', root, q, es[|es| / 2].0);
      }
    }
  }

  ghost predicate AboveAt(b: Bodies, par: Parents, g: Shape, b': Bodies, par': Parents, g': Shape, h: nat, x: PageId) {
    && ((x in g && g[x].height > h) <==> (x in g' && g'[x].height > h))
    && (x in g && g[x].height > h ==>
          && g'[x].height == g[x].height
          && (x in b <==> x in b') && (x in b ==> b'[x] == b[x])
          && (x in par <==> x in par') && (x in par ==> par'[x] == par[x]))
  }

  /** The two trees agree on all pages higher than `h`. */
  ghost predicate Above(b: Bodies, par: Parents, g: Shape, b': Bodies, par': Parents, g': Shape, h: nat) {
    forall x {:trigger AboveAt(b, par, g, b', par', g', h, x)} :: AboveAt(b, par, g, b', par', g', h, x)
  }

  /** Parent pointers exact everywhere but at `r`. */
  ghost predicate ExactBut(par: Parents, g: Shape, root: PageId, r: PageId) {
    forall p {:trigger par[p]} :: p in g && p in par && p != root && p != r ==> par[p] == g[p].up
  }
}
