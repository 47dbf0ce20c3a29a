// The shape of a stored B+ tree, as local conditions on its pages.
//
// A page's body is what searching reads: a leaf's entries and right sibling, or
// an internal node's children and separators.  Stored parent pointers are kept
// apart (`Parents`), because only splits read them.
//
// `Shape` is the ghost description of the tree: for each of its pages the
// height, the interval [lo, hi) of key ranks it is responsible for, and the
// page above it.  Every condition relates a page to its neighbours only, so a
// split re-establishes it page by page.
module TreeShape {
  import opened Bytes
  import opened KeyOrder
  import opened NodeBody

  datatype Info = Info(height: nat, lo: real, hi: real, up: PageId)

  type Bodies = map<PageId, Body>
  type Shape = map<PageId, Info>
  type Parents = map<PageId, PageId>

  /** A split whose right half no internal node refers to yet. */
  datatype Pending = Settled | Split(left: PageId, right: PageId)

  ghost predicate Covers(x: Info, k: Key) {
    x.lo <= Rank(k) < x.hi
  }

  ghost function ChildLo(n: Body, x: Info, i: nat): real
    requires n.Inner? && i <= |n.seps|
  {
    if i == 0 then x.lo else Rank(n.seps[i - 1].0)
  }

  ghost function ChildHi(n: Body, x: Info, i: nat): real
    requires n.Inner? && i <= |n.seps|
  {
    if i == |n.seps| then x.hi else Rank(n.seps[i].0)
  }

  /** Upper end of a page's interval as its parent still sees it. */
  ghost function SeenHi(g: Shape, pend: Pending, p: PageId): real
    requires p in g && (pend.Split? ==> pend.right in g)
  {
    if pend.Split? && p == pend.left then g[pend.right].hi else g[p].hi
  }

  ghost predicate LeafOk(n: Body, x: Info)
    requires n.Leaf?
  {
    && Sorted(n.entries)
    && forall i :: 0 <= i < |n.entries| ==> Covers(x, n.entries[i].0)
  }

  ghost predicate SepsOk(n: Body, x: Info)
    requires n.Inner?
  {
    && Sorted(n.seps)
    && forall i :: 0 <= i < |n.seps| ==> x.lo < Rank(n.seps[i].0) < x.hi
  }

  /** Child `i` of `p` is one level down and responsible for its share of `p`'s interval. */
  ghost predicate ChildOk(g: Shape, pend: Pending, p: PageId, n: Body, i: nat)
    requires n.Inner? && i <= |n.seps| && p in g && (pend.Split? ==> pend.right in g)
  {
    var c := Child(n, i);
    && c in g
    && g[c].up == p
    && g[c].height + 1 == g[p].height
    && g[c].lo == ChildLo(n, g[p], i)
    && SeenHi(g, pend, c) == ChildHi(n, g[p], i)
    && !(pend.Split? && c == pend.right)
  }

  ghost predicate InnerOk(b: Bodies, g: Shape, pend: Pending, p: PageId)
    requires p in b && p in g && b[p].Inner? && (pend.Split? ==> pend.right in g)
  {
    && SepsOk(b[p], g[p])
    && forall i {:trigger ChildOk(g, pend, p, b[p], i)} {:trigger Child(b[p], i)} ::
         0 <= i <= |b[p].seps| ==> ChildOk(g, pend, p, b[p], i)
  }

  ghost predicate HasParent(b: Bodies, g: Shape, p: PageId)
    requires p in g
  {
    var q := g[p].up;
    q in g && q in b && b[q].Inner? && exists i :: 0 <= i <= |b[q].seps| && Child(b[q], i) == p
  }

  ghost predicate PageOk(b: Bodies, g: Shape, root: PageId, pend: Pending, p: PageId)
    requires p in g && root in g && (pend.Split? ==> pend.right in g)
  {
    && p in b && p != INVALID_PAGE_ID
    && 0.0 <= g[p].lo < g[p].hi <= 1.0
    && (b[p].Leaf? <==> g[p].height == 0)
    && (p != root && !(pend.Split? && p == pend.right) ==> HasParent(b, g, p) && g[p].height < g[root].height)
    && (b[p].Leaf? ==> LeafOk(b[p], g[p]))
    && (b[p].Inner? ==> InnerOk(b, g, pend, p))
  }

  ghost predicate PendingOk(g: Shape, root: PageId, pend: Pending) {
    pend.Split? ==>
      && pend.left in g && pend.right in g && pend.left != pend.right && pend.right != root
      && g[pend.right].height == g[pend.left].height
      && g[pend.right].lo == g[pend.left].hi
      && g[pend.right].up == g[pend.left].up
  }

  /** The pages of `g` form one search tree under `root`, up to one pending split. */
  ghost predicate Shaped(b: Bodies, g: Shape, root: PageId, pend: Pending) {
    && root in g && g.Keys <= b.Keys && PendingOk(g, root, pend)
    && g[root].lo == 0.0 && SeenHi(g, pend, root) == 1.0
    && forall p {:trigger PageOk(b, g, root, pend, p)} :: p in g ==> PageOk(b, g, root, pend, p)
  }

  /** The sibling pointers link the leaves in key order and end at the last one. */
  ghost predicate Chained(b: Bodies, g: Shape) {
    forall p {:trigger b[p].next} :: p in g && p in b && b[p].Leaf? ==>
      if g[p].hi == 1.0 then b[p].next == INVALID_PAGE_ID
      else b[p].next in g && g[b[p].next].height == 0 && g[b[p].next].lo == g[p].hi
  }

  /** Each leaf holds exactly the part of `m` that falls into its interval. */
  ghost predicate Models(b: Bodies, g: Shape, m: map<Key, Value>) {
    forall p, k {:trigger Covers(g[p], k)} :: p in g && p in b && b[p].Leaf? && Covers(g[p], k) ==>
      Get(m, k) == Assoc(b[p].entries, k)
  }

  /** Stored parent pointers are exact, except for orphans, whose pointer is invalid. */
  ghost predicate ParentsOk(par: Parents, g: Shape, root: PageId) {
    && g.Keys <= par.Keys
    && forall p {:trigger par[p]} :: p in g ==>
      && (p == root ==> par[p] == INVALID_PAGE_ID)
      && (p != root ==> par[p] == g[p].up || par[p] == INVALID_PAGE_ID)
  }

  // ----- consequences -----

  lemma OneChildPerRank(n: Body, x: Info, i: nat, j: nat, v: real)
    requires n.Inner? && i <= |n.seps| && j <= |n.seps| && Sorted(n.seps)
    requires ChildLo(n, x, i) <= v < ChildHi(n, x, i) && ChildLo(n, x, j) <= v < ChildHi(n, x, j)
    ensures i == j
  {
  }

  // Following the child the separators select stays with the key and goes one level down.
  lemma Descend(b: Bodies, g: Shape, root: PageId, q: PageId, i: nat, k: Key)
    requires Shaped(b, g, root, Settled) && q in g && b[q].Inner? && Covers(g[q], k) && i <= |b[q].seps|
    requires forall j :: 0 <= j < i ==> Rank(b[q].seps[j].0) <= Rank(k)
    requires forall j :: i <= j < |b[q].seps| ==> Rank(k) < Rank(b[q].seps[j].0)
    ensures var c := Child(b[q], i); c in g && Covers(g[c], k) && g[c].height < g[q].height
  {
    assert PageOk(b, g, root, Settled, q);
    assert ChildOk(g, Settled, q, b[q], i);
  }

  // Pages of equal height have disjoint intervals.
  lemma {:induction false} DisjointAtHeight(b: Bodies, g: Shape, root: PageId, p: PageId, q: PageId, x: real)
    requires Shaped(b, g, root, Settled)
    requires p in g && q in g && g[p].height == g[q].height
    requires g[p].lo <= x < g[p].hi && g[q].lo <= x < g[q].hi
    ensures p == q
    decreases g[root].height - g[p].height
  {
    assert PageOk(b, g, root, Settled, p) && PageOk(b, g, root, Settled, q);
    if p != root && q != root {
      var pp, qq := g[p].up, g[q].up;
      assert PageOk(b, g, root, Settled, pp) && PageOk(b, g, root, Settled, qq);
      var i :| 0 <= i <= |b[pp].seps| && Child(b[pp], i) == p;
      var j :| 0 <= j <= |b[qq].seps| && Child(b[qq], j) == q;
      DisjointAtHeight(b, g, root, pp, qq, x);
      OneChildPerRank(b[pp], g[pp], i, j, x);
    }
  }

  // ----- local steps -----

  // Changing the entries of one leaf within its interval.
  lemma PutLeaf(b: Bodies, g: Shape, root: PageId, p: PageId, es: seq<(Key, Value)>)
    requires Shaped(b, g, root, Settled) && p in g && b[p].Leaf?
    requires LeafOk(Leaf(es, b[p].next), g[p])
    ensures Shaped(b[p := Leaf(es, b[p].next)], g, root, Settled)
    ensures Chained(b, g) ==> Chained(b[p := Leaf(es, b[p].next)], g)
  {
    var b' := b[p := Leaf(es, b[p].next)];
    forall q | q in g ensures PageOk(b', g, root, Settled, q) {
      assert PageOk(b, g, root, Settled, q);
      if q != root {
        var i :| 0 <= i <= |b[g[q].up].seps| && Child(b[g[q].up], i) == q;
        assert Child(b'[g[q].up], i) == q;
      }
      if b[q].Inner? { assert InnerOk(b, g, Settled, q); }
    }
  }

  // The effect of such a change on the contents: only keys of the leaf's interval move.
  lemma PutLeafModels(b: Bodies, g: Shape, root: PageId, p: PageId, es: seq<(Key, Value)>,
                      m: map<Key, Value>, m': map<Key, Value>)
    requires Shaped(b, g, root, Settled) && p in g && b[p].Leaf? && Models(b, g, m)
    requires forall k :: if Covers(g[p], k) then Get(m', k) == Assoc(es, k) else Get(m', k) == Get(m, k)
    ensures Models(b[p := Leaf(es, b[p].next)], g, m')
  {
    var b' := b[p := Leaf(es, b[p].next)];
    forall q, k | q in g && q in b' && b'[q].Leaf? && Covers(g[q], k)
      ensures Get(m', k) == Assoc(b'[q].entries, k)
    {
      assert PageOk(b, g, root, Settled, q) && PageOk(b, g, root, Settled, p);
      if q != p {
        if Covers(g[p], k) { DisjointAtHeight(b, g, root, p, q, Rank(k)); }
        assert Get(m, k) == Assoc(b[q].entries, k);
      }
    }
  }

  ghost function SplitLeafBodies(b: Bodies, p: PageId, r: PageId, s: nat): Bodies
    requires p in b && b[p].Leaf? && s <= |b[p].entries|
  {
    b[p := Leaf(b[p].entries[..s], r)][r := Leaf(b[p].entries[s..], b[p].next)]
  }

  ghost function SplitShape(g: Shape, p: PageId, r: PageId, at: real): Shape
    requires p in g
  {
    g[p := g[p].(hi := at)][r := g[p].(lo := at)]
  }

  lemma SplitLeaf(b: Bodies, g: Shape, root: PageId, p: PageId, r: PageId, s: nat)
    requires Shaped(b, g, root, Settled) && p in g && b[p].Leaf?
    requires r !in g && r != INVALID_PAGE_ID
    requires 0 < s < |b[p].entries|
    ensures Shaped(SplitLeafBodies(b, p, r, s), SplitShape(g, p, r, Rank(b[p].entries[s].0)), root, Split(p, r))
  {
    var es := b[p].entries;
    var b', g' := SplitLeafBodies(b, p, r, s), SplitShape(g, p, r, Rank(es[s].0));
    var pend := Split(p, r);
    forall q | q in g' ensures PageOk(b', g', root, pend, q) {
      if q == p || q == r {
        assert PageOk(b, g, root, Settled, p);
        assert Rank(es[0].0) < Rank(es[s].0);
        if q == p && p != root { KeepParent(b, g, b', g', p); }
      } else {
        SplitLeafOther(b, g, root, p, r, s, q);
      }
    }
  }

  lemma KeepParent(b: Bodies, g: Shape, b': Bodies, g': Shape, q: PageId)
    requires q in g && q in g' && HasParent(b, g, q)
    requires g'[q].up == g[q].up && g[q].up in g' && g[q].up in b' && b'[g[q].up] == b[g[q].up]
    ensures HasParent(b', g', q)
  {
    var i :| 0 <= i <= |b[g[q].up].seps| && Child(b[g[q].up], i) == q;
    assert Child(b'[g'[q].up], i) == q;
  }

  lemma SplitLeafOther(b: Bodies, g: Shape, root: PageId, p: PageId, r: PageId, s: nat, q: PageId)
    requires Shaped(b, g, root, Settled) && p in g && b[p].Leaf?
    requires r !in g && 0 < s < |b[p].entries| && q in g && q != p
    ensures PageOk(SplitLeafBodies(b, p, r, s), SplitShape(g, p, r, Rank(b[p].entries[s].0)), root, Split(p, r), q)
  {
    var b', g' := SplitLeafBodies(b, p, r, s), SplitShape(g, p, r, Rank(b[p].entries[s].0));
    assert PageOk(b, g, root, Settled, q);
    if q != root { KeepParent(b, g, b', g', q); }
    if b[q].Inner? { SplitLeafInner(b, g, p, r, s, q); }
  }

  lemma SplitLeafInner(b: Bodies, g: Shape, p: PageId, r: PageId, s: nat, q: PageId)
    requires p in g && p in b && b[p].Leaf? && r !in g && 0 < s < |b[p].entries|
    requires q in g && q in b && b[q].Inner? && InnerOk(b, g, Settled, q)
    ensures InnerOk(SplitLeafBodies(b, p, r, s), SplitShape(g, p, r, Rank(b[p].entries[s].0)), Split(p, r), q)
  {
    var b', g' := SplitLeafBodies(b, p, r, s), SplitShape(g, p, r, Rank(b[p].entries[s].0));
    assert b'[q] == b[q] && g'[q] == g[q];
    forall i | 0 <= i <= |b[q].seps| ensures ChildOk(g', Split(p, r), q, b'[q], i) {
      assert ChildOk(g, Settled, q, b[q], i);
    }
  }

  lemma SplitLeafModels(b: Bodies, g: Shape, root: PageId, p: PageId, r: PageId, s: nat, m: map<Key, Value>)
    requires Shaped(b, g, root, Settled) && p in g && b[p].Leaf?
    requires r !in g && 0 < s < |b[p].entries|
    ensures Models(b, g, m) ==>
              Models(SplitLeafBodies(b, p, r, s), SplitShape(g, p, r, Rank(b[p].entries[s].0)), m)
    ensures Chained(b, g) ==>
              Chained(SplitLeafBodies(b, p, r, s), SplitShape(g, p, r, Rank(b[p].entries[s].0)))
  {
    var es := b[p].entries;
    var b', g' := SplitLeafBodies(b, p, r, s), SplitShape(g, p, r, Rank(es[s].0));
    assert PageOk(b, g, root, Settled, p);
    assert Rank(es[0].0) < Rank(es[s].0);
    if Models(b, g, m) {
      forall q, k | q in g' && q in b' && b'[q].Leaf? && Covers(g'[q], k)
        ensures Get(m, k) == Assoc(b'[q].entries, k)
      {
        if q == p || q == r {
          assert Covers(g[p], k);
          AssocCut(es, s, k);
        } else {
          assert Covers(g[q], k);
        }
      }
    }
  }

  // ----- internal nodes -----

  // A child's position among its siblings is determined by where its interval starts.
  lemma ChildrenDistinct(b: Bodies, g: Shape, root: PageId, pend: Pending, q: PageId, i: nat, j: nat)
    requires Shaped(b, g, root, pend) && q in g && b[q].Inner?
    requires i <= |b[q].seps| && j <= |b[q].seps| && Child(b[q], i) == Child(b[q], j)
    ensures i == j
  {
    assert PageOk(b, g, root, pend, q);
    assert g[Child(b[q], i)].lo == ChildLo(b[q], g[q], i) == ChildLo(b[q], g[q], j);
  }

  ghost function AttachBodies(b: Bodies, q: PageId, i: nat, sep: Key, r: PageId): Bodies
    requires q in b && b[q].Inner? && i <= |b[q].seps|
  {
    b[q := Inner(b[q].first, Insert(b[q].seps, i, (sep, r)))]
  }

  ghost predicate AttachPoint(n: Body, i: nat, sep: Key)
    requires n.Inner?
  {
    && i <= |n.seps|
    && (forall j :: 0 <= j < i ==> Rank(n.seps[j].0) <= Rank(sep))
    && (forall j :: i <= j < |n.seps| ==> Rank(sep) < Rank(n.seps[j].0))
  }

  // The separator belongs right after the half that was split.
  lemma AttachIndex(b: Bodies, g: Shape, root: PageId, p: PageId, r: PageId, i: nat, sep: Key)
    requires Shaped(b, g, root, Split(p, r)) && p != root && Rank(sep) == g[r].lo
    requires g[p].up in g && b[g[p].up].Inner? && AttachPoint(b[g[p].up], i, sep)
    ensures Child(b[g[p].up], i) == p
    ensures forall j :: 0 <= j < i ==> Rank(b[g[p].up].seps[j].0) < Rank(sep)
  {
    var q := g[p].up;
    assert PageOk(b, g, root, Split(p, r), p) && PageOk(b, g, root, Split(p, r), r);
    assert PageOk(b, g, root, Split(p, r), q);
    var j :| 0 <= j <= |b[q].seps| && Child(b[q], j) == p;
    assert g[p].lo == ChildLo(b[q], g[q], j) && g[r].hi == ChildHi(b[q], g[q], j);
    assert j < |b[q].seps| ==> Rank(sep) < Rank(b[q].seps[j].0);
    assert j > 0 ==> Rank(b[q].seps[j - 1].0) < Rank(sep);
    assert i == j;
  }

  lemma Attach(b: Bodies, g: Shape, root: PageId, p: PageId, r: PageId, i: nat, sep: Key)
    requires Shaped(b, g, root, Split(p, r)) && p != root && Rank(sep) == g[r].lo
    requires g[p].up in g && b[g[p].up].Inner? && AttachPoint(b[g[p].up], i, sep)
    ensures Shaped(AttachBodies(b, g[p].up, i, sep, r), g, root, Settled)
  {
    var q := g[p].up;
    var b' := AttachBodies(b, q, i, sep, r);
    var pend := Split(p, r);
    AttachIndex(b, g, root, p, r, i, sep);
    forall c | c in g ensures PageOk(b', g, root, Settled, c) {
      assert PageOk(b, g, root, pend, c);
      if c == q {
        AttachInner(b, g, root, p, r, i, sep);
      } else if b[c].Inner? {
        assert InnerOk(b, g, pend, c);
        assert InnerOk(b', g, Settled, c);
      }
      if c != root { AttachHasParent(b, g, root, p, r, i, sep, c); }
    }
  }

  lemma AttachInner(b: Bodies, g: Shape, root: PageId, p: PageId, r: PageId, i: nat, sep: Key)
    requires Shaped(b, g, root, Split(p, r)) && p != root && Rank(sep) == g[r].lo
    requires g[p].up in g && b[g[p].up].Inner? && AttachPoint(b[g[p].up], i, sep)
    requires Child(b[g[p].up], i) == p
    requires forall j :: 0 <= j < i ==> Rank(b[g[p].up].seps[j].0) < Rank(sep)
    ensures InnerOk(AttachBodies(b, g[p].up, i, sep, r), g, Settled, g[p].up)
  {
    var q := g[p].up;
    var n, n' := b[q], AttachBodies(b, q, i, sep, r)[q];
    var pend := Split(p, r);
    assert PageOk(b, g, root, pend, q) && PageOk(b, g, root, pend, p) && PageOk(b, g, root, pend, r);
    AttachSeps(b, g, root, p, r, i, sep);
    forall j | 0 <= j <= |n'.seps| ensures ChildOk(g, Settled, q, n', j) {
      AttachChild(b, g, root, p, r, i, sep, j);
    }
  }

  lemma AttachSeps(b: Bodies, g: Shape, root: PageId, p: PageId, r: PageId, i: nat, sep: Key)
    requires Shaped(b, g, root, Split(p, r)) && p != root && Rank(sep) == g[r].lo
    requires g[p].up in g && b[g[p].up].Inner? && AttachPoint(b[g[p].up], i, sep)
    requires Child(b[g[p].up], i) == p
    requires forall j :: 0 <= j < i ==> Rank(b[g[p].up].seps[j].0) < Rank(sep)
    ensures SepsOk(AttachBodies(b, g[p].up, i, sep, r)[g[p].up], g[g[p].up])
  {
    var q := g[p].up;
    var pend := Split(p, r);
    assert PageOk(b, g, root, pend, q) && PageOk(b, g, root, pend, p) && PageOk(b, g, root, pend, r);
    assert ChildOk(g, pend, q, b[q], i);
    InsertSorted(b[q].seps, i, sep, r);
  }

  lemma AttachChild(b: Bodies, g: Shape, root: PageId, p: PageId, r: PageId, i: nat, sep: Key, j: nat)
    requires Shaped(b, g, root, Split(p, r)) && p != root && Rank(sep) == g[r].lo
    requires g[p].up in g && b[g[p].up].Inner? && AttachPoint(b[g[p].up], i, sep)
    requires Child(b[g[p].up], i) == p && j <= |b[g[p].up].seps| + 1
    ensures ChildOk(g, Settled, g[p].up, AttachBodies(b, g[p].up, i, sep, r)[g[p].up], j)
  {
    var q := g[p].up;
    assert PageOk(b, g, root, Split(p, r), q);
    if j == i + 1 {
      AttachNewChild(b, g, root, p, r, i, sep, q);
    } else {
      AttachOldChild(b, g, root, p, r, i, sep, q, if j <= i then j else j - 1, j);
    }
  }

  lemma AttachNewChild(b: Bodies, g: Shape, root: PageId, p: PageId, r: PageId, i: nat, sep: Key, q: PageId)
    requires Shaped(b, g, root, Split(p, r)) && p != root && Rank(sep) == g[r].lo
    requires q == g[p].up && q in g && b[q].Inner? && AttachPoint(b[q], i, sep) && Child(b[q], i) == p
    ensures ChildOk(g, Settled, q, AttachBodies(b, q, i, sep, r)[q], i + 1)
  {
    var pend := Split(p, r);
    assert PageOk(b, g, root, pend, q) && PageOk(b, g, root, pend, p);
    assert g[r].hi == ChildHi(b[q], g[q], i);
  }

  lemma AttachOldChild(b: Bodies, g: Shape, root: PageId, p: PageId, r: PageId, i: nat, sep: Key, q: PageId,
                       j0: nat, j: nat)
    requires Shaped(b, g, root, Split(p, r)) && p != root && Rank(sep) == g[r].lo
    requires q == g[p].up && q in g && b[q].Inner? && AttachPoint(b[q], i, sep) && Child(b[q], i) == p
    requires j0 <= |b[q].seps| && j == if j0 <= i then j0 else j0 + 1
    ensures ChildOk(g, Settled, q, AttachBodies(b, q, i, sep, r)[q], j)
  {
    var n, n' := b[q], AttachBodies(b, q, i, sep, r)[q];
    var pend := Split(p, r);
    assert PageOk(b, g, root, pend, q) && PageOk(b, g, root, pend, p);
    assert ChildOk(g, pend, q, n, j0);
    WidenedNode(n, n', g[q], i, sep, r, j0, j);
    if Child(n, j0) == p { ChildrenDistinct(b, g, root, pend, q, i, j0); }
  }

  // An old child keeps its interval, but for the one that was split.
  lemma WidenedNode(n: Body, n': Body, x: Info, i: nat, sep: Key, r: PageId, j0: nat, j: nat)
    requires n.Inner? && i <= |n.seps| && n' == Inner(n.first, Insert(n.seps, i, (sep, r)))
    requires j0 <= |n.seps| && j == if j0 <= i then j0 else j0 + 1
    ensures Child(n', j) == Child(n, j0) && ChildLo(n', x, j) == ChildLo(n, x, j0)
    ensures ChildHi(n', x, j) == if j0 == i then Rank(sep) else ChildHi(n, x, j0)
  {
  }

  lemma AttachHasParent(b: Bodies, g: Shape, root: PageId, p: PageId, r: PageId, i: nat, sep: Key, c: PageId)
    requires Shaped(b, g, root, Split(p, r)) && p != root
    requires g[p].up in g && b[g[p].up].Inner? && i <= |b[g[p].up].seps|
    requires c in g && c != root
    ensures HasParent(AttachBodies(b, g[p].up, i, sep, r), g, c)
    ensures g[c].height < g[root].height
  {
    var q := g[p].up;
    var b' := AttachBodies(b, q, i, sep, r);
    assert PageOk(b, g, root, Split(p, r), c) && PageOk(b, g, root, Split(p, r), p);
    if c == r {
      assert Child(b'[q], i + 1) == r;
    } else if g[c].up == q {
      var j :| 0 <= j <= |b[q].seps| && Child(b[q], j) == c;
      assert Child(b'[q], if j <= i then j else j + 1) == c;
    } else {
      KeepParent(b, g, b', g, c);
    }
  }

  ghost function SplitInnerBodies(b: Bodies, q: PageId, r: PageId, s: nat): Bodies
    requires q in b && b[q].Inner? && s < |b[q].seps|
  {
    var n := b[q];
    b[q := Inner(n.first, n.seps[..s])][r := Inner(n.seps[s].1, n.seps[s + 1..])]
  }

  /** Children after separator `s` go to the new right node. */
  ghost predicate Moves(n: Body, s: nat, c: PageId)
    requires n.Inner?
  {
    exists j :: s < j <= |n.seps| && Child(n, j) == c
  }

  ghost function SplitInnerShape(b: Bodies, g: Shape, q: PageId, r: PageId, s: nat): Shape
    requires q in g && q in b && b[q].Inner? && s < |b[q].seps|
  {
    var at := Rank(b[q].seps[s].0);
    map c | c in g.Keys + {r} ::
      if c == r then g[q].(lo := at)
      else if c == q then g[q].(hi := at)
      else if Moves(b[q], s, c) then g[c].(up := r)
      else g[c]
  }

  lemma SplitInner(b: Bodies, g: Shape, root: PageId, q: PageId, r: PageId, s: nat)
    requires Shaped(b, g, root, Settled) && q in g && b[q].Inner? && s < |b[q].seps|
    requires r !in g && r != INVALID_PAGE_ID
    ensures Shaped(SplitInnerBodies(b, q, r, s), SplitInnerShape(b, g, q, r, s), root, Split(q, r))
  {
    var b', g' := SplitInnerBodies(b, q, r, s), SplitInnerShape(b, g, q, r, s);
    var pend := Split(q, r);
    assert PageOk(b, g, root, Settled, q);
    OwnChildStays(b, g, root, q, s);
    forall c | c in g' ensures PageOk(b', g', root, pend, c) {
      if c == r || c == q {
        SplitInnerHalves(b, g, root, q, r, s);
      } else {
        assert PageOk(b, g, root, Settled, c);
        if b[c].Inner? { SplitInnerOther(b, g, root, q, r, s, c); }
      }
      if c != root && c != r { SplitInnerParent(b, g, root, q, r, s, c); }
    }
  }

  // No page is its own child.
  lemma OwnChildStays(b: Bodies, g: Shape, root: PageId, q: PageId, s: nat)
    requires Shaped(b, g, root, Settled) && q in g && b[q].Inner?
    ensures !Moves(b[q], s, q) && !Moves(b[q], s, root)
  {
    assert PageOk(b, g, root, Settled, q);
    forall j | s < j <= |b[q].seps| ensures Child(b[q], j) != q && Child(b[q], j) != root {
      assert ChildOk(g, Settled, q, b[q], j);
    }
  }

  lemma SplitInnerHalves(b: Bodies, g: Shape, root: PageId, q: PageId, r: PageId, s: nat)
    requires Shaped(b, g, root, Settled) && q in g && b[q].Inner? && s < |b[q].seps| && r !in g
    ensures InnerOk(SplitInnerBodies(b, q, r, s), SplitInnerShape(b, g, q, r, s), Split(q, r), q)
    ensures InnerOk(SplitInnerBodies(b, q, r, s), SplitInnerShape(b, g, q, r, s), Split(q, r), r)
  {
    var b', g' := SplitInnerBodies(b, q, r, s), SplitInnerShape(b, g, q, r, s);
    assert PageOk(b, g, root, Settled, q);
    assert SepsOk(b'[q], g'[q]) && SepsOk(b'[r], g'[r]);
    forall j | 0 <= j <= |b'[q].seps| ensures ChildOk(g', Split(q, r), q, b'[q], j) {
      SplitInnerChild(b, g, root, q, r, s, j);
    }
    forall j | 0 <= j <= |b'[r].seps| ensures ChildOk(g', Split(q, r), r, b'[r], j) {
      SplitInnerChild(b, g, root, q, r, s, s + 1 + j);
    }
  }

  lemma SplitInnerChild(b: Bodies, g: Shape, root: PageId, q: PageId, r: PageId, s: nat, j: nat)
    requires Shaped(b, g, root, Settled) && q in g && b[q].Inner? && s < |b[q].seps| && r !in g
    requires j <= |b[q].seps|
    ensures var b', g' := SplitInnerBodies(b, q, r, s), SplitInnerShape(b, g, q, r, s);
            if j <= s then ChildOk(g', Split(q, r), q, b'[q], j)
            else ChildOk(g', Split(q, r), r, b'[r], j - s - 1)
  {
    var b', g' := SplitInnerBodies(b, q, r, s), SplitInnerShape(b, g, q, r, s);
    var c := Child(b[q], j);
    assert PageOk(b, g, root, Settled, q);
    assert ChildOk(g, Settled, q, b[q], j);
    if j <= s {
      assert Child(b'[q], j) == c;
      if Moves(b[q], s, c) {
        var j' :| s < j' <= |b[q].seps| && Child(b[q], j') == c;
        ChildrenDistinct(b, g, root, Settled, q, j, j');
      }
    } else {
      assert Child(b'[r], j - s - 1) == c;
      assert Moves(b[q], s, c);
    }
  }

  lemma SplitInnerOther(b: Bodies, g: Shape, root: PageId, q: PageId, r: PageId, s: nat, x: PageId)
    requires Shaped(b, g, root, Settled) && q in g && b[q].Inner? && s < |b[q].seps| && r !in g
    requires x in g && x != q && b[x].Inner?
    ensures InnerOk(SplitInnerBodies(b, q, r, s), SplitInnerShape(b, g, q, r, s), Split(q, r), x)
  {
    var b', g' := SplitInnerBodies(b, q, r, s), SplitInnerShape(b, g, q, r, s);
    assert PageOk(b, g, root, Settled, q) && PageOk(b, g, root, Settled, x);
    forall j | 0 <= j <= |b'[x].seps| ensures ChildOk(g', Split(q, r), x, b'[x], j) {
      var c := Child(b[x], j);
      assert ChildOk(g, Settled, x, b[x], j);
    }
  }

  lemma SplitInnerParent(b: Bodies, g: Shape, root: PageId, q: PageId, r: PageId, s: nat, c: PageId)
    requires Shaped(b, g, root, Settled) && q in g && b[q].Inner? && s < |b[q].seps| && r !in g
    requires c in g && c != root
    ensures HasParent(SplitInnerBodies(b, q, r, s), SplitInnerShape(b, g, q, r, s), c)
  {
    var b', g' := SplitInnerBodies(b, q, r, s), SplitInnerShape(b, g, q, r, s);
    assert PageOk(b, g, root, Settled, c) && PageOk(b, g, root, Settled, q);
    if c != q && Moves(b[q], s, c) {
      var j :| s < j <= |b[q].seps| && Child(b[q], j) == c;
      assert Child(b'[r], j - s - 1) == c;
    } else if g[c].up == q {
      var j :| 0 <= j <= |b[q].seps| && Child(b[q], j) == c;
      assert c != q by { assert ChildOk(g, Settled, q, b[q], j); }
      assert Child(b'[q], j) == c;
    } else {
      assert b'[g[c].up] == b[g[c].up];
      KeepParent(b, g, b', g', c);
    }
  }

  // ----- growing a new root -----

  ghost function NewRootShape(g: Shape, root: PageId, r: PageId, top: PageId): Shape
    requires root in g && r in g
  {
    g[root := g[root].(up := top)][r := g[r].(up := top)]
     [top := Info(g[root].height + 1, 0.0, 1.0, INVALID_PAGE_ID)]
  }

  lemma NewRoot(b: Bodies, g: Shape, root: PageId, r: PageId, top: PageId, sep: Key)
    requires Shaped(b, g, root, Split(root, r)) && Rank(sep) == g[r].lo
    requires top !in g && top != INVALID_PAGE_ID
    ensures Shaped(b[top := Inner(root, [(sep, r)])], NewRootShape(g, root, r, top), top, Settled)
  {
    var b', g' := b[top := Inner(root, [(sep, r)])], NewRootShape(g, root, r, top);
    var pend := Split(root, r);
    assert PageOk(b, g, root, pend, root) && PageOk(b, g, root, pend, r);
    forall c | c in g' ensures PageOk(b', g', top, Settled, c) {
      if c == top {
        assert ChildOk(g', Settled, top, b'[top], 0) && ChildOk(g', Settled, top, b'[top], 1);
      } else {
        assert PageOk(b, g, root, pend, c);
        if c == root || c == r {
          assert Child(b'[top], 0) == root && Child(b'[top], 1) == r;
        } else {
          KeepParent(b, g, b', g', c);
        }
        if b[c].Inner? { NewRootOther(b, g, root, r, top, sep, c); }
      }
    }
  }

  lemma NewRootOther(b: Bodies, g: Shape, root: PageId, r: PageId, top: PageId, sep: Key, x: PageId)
    requires Shaped(b, g, root, Split(root, r)) && top !in g
    requires x in g && b[x].Inner?
    ensures InnerOk(b[top := Inner(root, [(sep, r)])], NewRootShape(g, root, r, top), Settled, x)
  {
    var b', g' := b[top := Inner(root, [(sep, r)])], NewRootShape(g, root, r, top);
    var pend := Split(root, r);
    assert PageOk(b, g, root, pend, x);
    forall j | 0 <= j <= |b'[x].seps| ensures ChildOk(g', Settled, x, b'[x], j) {
      assert ChildOk(g, pend, x, b[x], j);
      if x != root && x != r { assert g[x].height < g[root].height; }
    }
  }

  // ----- splitting a page that does not know its parent -----

  ghost predicate Inside(g: Shape, o: PageId, p: PageId)
    requires o in g && p in g
  {
    g[p].height <= g[o].height && g[o].lo <= g[p].lo && g[p].hi <= g[o].hi
  }

  /** The subtree of `o` on its own: its outermost pages now answer for all keys. */
  ghost function Pruned(g: Shape, o: PageId): Shape
    requires o in g
  {
    map p | p in g && Inside(g, o, p) ::
      g[p].(lo := if g[p].lo == g[o].lo then 0.0 else g[p].lo,
            hi := if g[p].hi == g[o].hi then 1.0 else g[p].hi)
  }

  ghost function Within(m: map<Key, Value>, x: Info): map<Key, Value> {
    map k | k in m && Covers(x, k) :: m[k]
  }

  lemma {:induction false} Nested(b: Bodies, g: Shape, root: PageId, o: PageId, p: PageId, x: real)
    requires Shaped(b, g, root, Settled) && o in g && p in g && g[p].height <= g[o].height
    requires g[p].lo <= x < g[p].hi && g[o].lo <= x < g[o].hi
    ensures Inside(g, o, p)
    decreases g[o].height - g[p].height
  {
    if g[p].height == g[o].height {
      DisjointAtHeight(b, g, root, o, p, x);
    } else {
      UpContains(b, g, root, o, p);
      Nested(b, g, root, o, g[p].up, x);
    }
  }

  lemma UpContains(b: Bodies, g: Shape, root: PageId, o: PageId, p: PageId)
    requires Shaped(b, g, root, Settled) && o in g && p in g && g[p].height < g[o].height
    ensures p != root && HasParent(b, g, p) && g[g[p].up].height == g[p].height + 1
    ensures g[g[p].up].lo <= g[p].lo && g[p].hi <= g[g[p].up].hi
  {
    assert PageOk(b, g, root, Settled, p) && PageOk(b, g, root, Settled, o);
    var q := g[p].up;
    assert PageOk(b, g, root, Settled, q);
    var i :| 0 <= i <= |b[q].seps| && Child(b[q], i) == p;
    assert ChildOk(g, Settled, q, b[q], i);
  }

  lemma Prune(b: Bodies, g: Shape, root: PageId, o: PageId)
    requires Shaped(b, g, root, Settled) && o in g
    ensures Shaped(b, Pruned(g, o), o, Settled)
  {
    var g' := Pruned(g, o);
    assert PageOk(b, g, root, Settled, o);
    forall p | p in g' ensures PageOk(b, g', o, Settled, p) {
      assert PageOk(b, g, root, Settled, p);
      if p != o {
        if g[p].height == g[o].height { DisjointAtHeight(b, g, root, o, p, g[p].lo); }
        UpContains(b, g, root, o, p);
        Nested(b, g, root, o, g[p].up, g[p].lo);
        KeepParent(b, g, b, g', p);
      }
      if b[p].Inner? { PruneInner(b, g, root, o, p); }
    }
  }

  lemma PruneInner(b: Bodies, g: Shape, root: PageId, o: PageId, p: PageId)
    requires Shaped(b, g, root, Settled) && o in g && p in g && b[p].Inner? && Inside(g, o, p)
    ensures InnerOk(b, Pruned(g, o), Settled, p)
  {
    var g' := Pruned(g, o);
    assert PageOk(b, g, root, Settled, p);
    assert SepsOk(b[p], g'[p]);
    forall i | 0 <= i <= |b[p].seps| ensures ChildOk(g', Settled, p, b[p], i) {
      assert ChildOk(g, Settled, p, b[p], i);
      assert Inside(g, o, Child(b[p], i));
    }
  }

  lemma PruneModels(b: Bodies, g: Shape, root: PageId, o: PageId, m: map<Key, Value>)
    requires Shaped(b, g, root, Settled) && o in g && Models(b, g, m)
    ensures Models(b, Pruned(g, o), Within(m, g[o]))
  {
    var g' := Pruned(g, o);
    forall p, k | p in g' && p in b && b[p].Leaf? && Covers(g'[p], k)
      ensures Get(Within(m, g[o]), k) == Assoc(b[p].entries, k)
    {
      assert PageOk(b, g, root, Settled, p);
      assert Inside(g, o, p) && Covers(g[o], k) == Covers(g[p], k);
      if Covers(g[p], k) {
        assert Get(m, k) == Assoc(b[p].entries, k);
      } else {
        AssocNone(b[p].entries, k);
      }
    }
  }
}
