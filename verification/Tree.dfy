// The B+ tree over the buffer pool.
//
// The tree's own state is the root page id; everything else is bytes in pages.
// `g` describes the shape those pages have and `m` the map they stand for; both
// are ghost and tied to the bytes by `Valid`.
module BTree {
  import opened Bytes
  import opened KeyOrder
  import opened NodeBody
  import opened Layout
  import opened NodeCode
  import opened BufferPool
  import opened SplitFit
  import opened TreeShape
  import opened TreeSteps
  import opened TreeCascade
  import opened TreeInsert
  import opened TreeHeight
  import opened TreeScan

  // ----- pages as nodes -----

  /** Page `p` holds the node `b[p]` and the parent pointer `par[p]`. */
  ghost predicate HoldsAt(view: seq<Image>, b: Bodies, par: Parents, p: PageId)
    requires p in b && p in par
  {
    p < |view| && NodePage(view[p]) && BodyOf(view[p]) == b[p] && ParentOf(view[p]) == par[p]
  }

  ghost predicate Holds(view: seq<Image>, b: Bodies, par: Parents) {
    && b.Keys == par.Keys
    && forall p {:trigger HoldsAt(view, b, par, p)} :: p in b ==> HoldsAt(view, b, par, p)
  }

  lemma StoreNode(view: seq<Image>, b: Bodies, par: Parents, p: PageId, d: Image)
    requires Holds(view, b, par) && p < |view| && NodePage(d)
    ensures Holds(view[p := d], b[p := BodyOf(d)], par[p := ParentOf(d)])
  {
    var view', b', par' := view[p := d], b[p := BodyOf(d)], par[p := ParentOf(d)];
    forall q | q in b' ensures HoldsAt(view', b', par', q) {
      if q != p { assert HoldsAt(view, b, par, q); }
    }
  }

  lemma StoreGrows(view: seq<Image>, b: Bodies, par: Parents, d: Image)
    requires Holds(view, b, par)
    ensures Holds(view + [d], b, par) && (|view| < 0x1_0000_0000 ==> |view| !in b)
  {
    forall q | q in b ensures HoldsAt(view + [d], b, par, q) && q != |view| {
      assert HoldsAt(view, b, par, q);
    }
  }

  lemma EmptyTree(b: Bodies, par: Parents, g: Shape, root: PageId)
    requires root in b && b[root] == Leaf([], INVALID_PAGE_ID) && root in par && par[root] == INVALID_PAGE_ID
    requires g == map[root := Info(0, 0.0, 1.0, INVALID_PAGE_ID)] && root != INVALID_PAGE_ID
    ensures TreeOk(b, par, g, root, Settled, map[]) && Chained(b, g)
  {
  }

  // A leaf answers for the keys of its interval.
  lemma LookupOk(b: Bodies, g: Shape, m: map<Key, Value>, p: PageId, k: Key)
    requires Models(b, g, m) && p in g && p in b && b[p].Leaf? && Covers(g[p], k)
    ensures Assoc(b[p].entries, k) == Get(m, k)
  {
  }

  lemma UpdateSame<A, B>(f: map<A, B>, k: A)
    requires k in f
    ensures f[k := f[k]] == f
  {
  }

  class BPlusTree {
    const pool: Pool
    var root: PageId
    ghost var b: Bodies
    ghost var par: Parents
    ghost var g: Shape
    ghost var m: map<Key, Value>

    /** The pool is at rest and its pages hold the nodes `b` and parent pointers `par`. */
    ghost predicate Linked()
      reads this, pool
    {
      pool.Idle() && Holds(pool.View(), b, par)
    }

    ghost predicate Valid()
      reads this, pool
    {
      Linked() && TreeOk(b, par, g, root, Settled, m) && Ends(b)
    }

    ghost function NumPages(): nat
      reads pool
    {
      |pool.disk|
    }

    /** A new tree: one empty leaf on a new page. */
    constructor Create(pool: Pool)
      requires pool.Idle() && |pool.disk| < INVALID_PAGE_ID
      modifies pool
      ensures this.pool == pool && Valid() && m == map[] && Chained(b, g) && Exact(par, g, root)
      ensures NumPages() == |old(pool.disk)| + 1 && root == |old(pool.disk)| && From(root) == Planted(root)
    {
      this.pool := pool;
      root, b, par, g, m := 0, map[], map[], map[], map[];
      new;
      root := AllocatePage();
      WriteLeaf(root, [], INVALID_PAGE_ID, INVALID_PAGE_ID);
      g := map[root := Info(0, 0.0, 1.0, INVALID_PAGE_ID)];
      EmptyTree(b, par, g, root);
      assert Nearer(b, map[root := 0]);
    }

    /** Copy a node out of the pool; the page is pinned only meanwhile. */
    method ReadNode(p: PageId) returns (n: Node)
      requires Linked() && p in b
      modifies pool
      ensures Linked() && pool.View() == old(pool.View()) && NumPages() == old(NumPages())
      ensures fresh(n) && fresh(n.data) && n.Valid() && n.id == p && p < NumPages()
      ensures n.Body() == b[p] && n.Parent() == par[p]
    {
      assert HoldsAt(pool.View(), b, par, p);
      var d := pool.ReadCopy(p);
      n := new Node.FromPage(p, d);
    }

    /** Write a node back through the pool, with a fresh checksum. */
    method WriteNode(n: Node)
      requires Linked() && n.Valid() && n.id < NumPages()
      modifies this`b, this`par, pool, n.data
      ensures Linked() && NumPages() == old(NumPages())
      ensures b == old(b)[n.id := old(n.Body())] && par == old(par)[n.id := old(n.Parent())]
      ensures n.Valid() && n.Body() == old(n.Body()) && n.Parent() == old(n.Parent())
      ensures Checksummed(pool.View()[n.id])
    {
      n.UpdateChecksum();
      StoreNode(pool.View(), b, par, n.id, n.data[..]);
      pool.Overwrite(n.id, n.data[..]);
      b, par := b[n.id := n.Body()], par[n.id := n.Parent()];
    }

    method AllocatePage() returns (id: PageId)
      requires Linked() && NumPages() < INVALID_PAGE_ID
      modifies pool
      ensures Linked() && id == old(NumPages()) && NumPages() == id + 1 && id !in b
    {
      ghost var view := pool.View();
      id := pool.Allocate();
      StoreGrows(view, b, par, FreshPage(id));
    }

    // ----- lookups -----

    /** Walk down from the root to the leaf responsible for the key. */
    method FindLeaf(key: Key) returns (leaf: PageId)
      requires Valid()
      modifies pool
      ensures Valid() && pool.View() == old(pool.View()) && NumPages() == old(NumPages())
      ensures leaf in g && leaf in b && b[leaf].Leaf? && Covers(g[leaf], key)
    {
      leaf := root;
      while true
        invariant Linked() && pool.View() == old(pool.View()) && NumPages() == old(NumPages())
        invariant leaf in g && Covers(g[leaf], key)
        decreases g[leaf].height
      {
        assert PageOk(b, g, root, Settled, leaf);
        var node := ReadNode(leaf);
        if node.IsLeaf() {
          return;
        }
        var i := node.InternalFindChild(key);
        Descend(b, g, root, leaf, i, key);
        leaf := node.InternalChild(i);
      }
    }

    method Search(key: Key) returns (r: Option<Value>)
      requires Valid()
      modifies pool
      ensures Valid() && pool.View() == old(pool.View())
      ensures r == Get(m, key)
    {
      var leaf := FindLeaf(key);
      var node := ReadNode(leaf);
      var i, found := node.LeafFindSlot(key);
      LowerBoundMeaning(node.Body().entries, key);
      LookupOk(b, g, m, leaf, key);
      r := if found then Some(node.LeafValue(i)) else None;
    }

    // ----- scans -----

    method FindFirstLeaf() returns (leaf: PageId)
      requires Valid()
      modifies pool
      ensures Valid() && pool.View() == old(pool.View())
      ensures leaf in g && b[leaf].Leaf? && g[leaf].height == 0 && g[leaf].lo == 0.0
    {
      leaf := root;
      while true
        invariant Linked() && pool.View() == old(pool.View())
        invariant leaf in g && g[leaf].lo == 0.0
        decreases g[leaf].height
      {
        assert PageOk(b, g, root, Settled, leaf);
        var node := ReadNode(leaf);
        if node.IsLeaf() {
          return;
        }
        assert ChildOk(g, Settled, leaf, b[leaf], 0);
        leaf := node.InternalChild(0);
      }
    }

    method ReadLeaf(leaf: PageId) returns (es: seq<(Key, Value)>, next: PageId, parent: PageId)
      requires Linked() && leaf in b && b[leaf].Leaf?
      modifies pool
      ensures Linked() && pool.View() == old(pool.View()) && NumPages() == old(NumPages()) && leaf < NumPages()
      ensures b[leaf] == Leaf(es, next) && par[leaf] == parent
    {
      var node := ReadNode(leaf);
      es := node.LeafEntriesVec();
      next, parent := node.RightSibling(), node.ParentPointer();
    }

    method ReadInner(p: PageId) returns (leftmost: PageId, es: seq<(Key, PageId)>, parent: PageId)
      requires Linked() && p in b && b[p].Inner?
      modifies pool
      ensures Linked() && pool.View() == old(pool.View()) && NumPages() == old(NumPages()) && p < NumPages()
      ensures b[p] == Inner(leftmost, es) && par[p] == parent
    {
      var node := ReadNode(p);
      leftmost, es := node.InternalEntries();
      parent := node.ParentPointer();
    }

    /** Everything the sibling pointers lead to from the first leaf; on a trail, its entries in key order. */
    method ScanAll() returns (es: seq<(Key, Value)>, ghost ps: seq<PageId>)
      requires Valid()
      modifies pool
      ensures Valid() && pool.View() == old(pool.View())
      ensures Path(b, ps) && Stop(b, ps) == INVALID_PAGE_ID && es == Gathered(b, ps)
      ensures ps[0] in g && g[ps[0]].height == 0 && g[ps[0]].lo == 0.0
      ensures forall tr {:trigger Followed(b, tr)} :: Followed(b, tr) && Enters(g, tr) ==> Lists(es, tr.m)
    {
      var leaf := FindFirstLeaf();
      es, ps := WalkAll(leaf);
      forall tr | Followed(b, tr) && Enters(g, tr) ensures Lists(es, tr.m) {
        assert EntersAt(g, tr, leaf);
        WalkLists(b, tr, ps);
      }
    }

    method WalkAll(first: PageId) returns (es: seq<(Key, Value)>, ghost ps: seq<PageId>)
      requires Linked() && Ends(b) && first in b && b[first].Leaf?
      modifies pool
      ensures Linked() && pool.View() == old(pool.View())
      ensures Path(b, ps) && ps[0] == first && Stop(b, ps) == INVALID_PAGE_ID && es == Gathered(b, ps)
    {
      ghost var far :| Nearer(b, far);
      var leaf := first;
      ps := [leaf];
      var next, parent;
      es, next, parent := ReadLeaf(leaf);
      while next != INVALID_PAGE_ID
        invariant Linked() && pool.View() == old(pool.View())
        invariant leaf in b && b[leaf].Leaf? && NearerAt(b, far, leaf)
        invariant Path(b, ps) && ps[0] == first && Stop(b, ps) == next == b[leaf].next && es == Gathered(b, ps)
        decreases far[leaf]
      {
        PathMore(b, ps, next);
        assert NearerAt(b, far, next);
        leaf, ps := next, ps + [next];
        var part;
        part, next, parent := ReadLeaf(leaf);
        es := es + part;
      }
    }

    /** The entries of one leaf that lie in the range; `stop` when a key beyond it was seen. */
    method RangeOfLeaf(leaf: PageId, lo: Key, hi: Key) returns (part: seq<(Key, Value)>, stop: bool, next: PageId)
      requires Linked() && leaf in b && b[leaf].Leaf?
      modifies pool
      ensures Linked() && pool.View() == old(pool.View()) && next == b[leaf].next
      ensures part == Between(b[leaf].entries, lo, hi)
      ensures stop <==> exists i :: 0 <= i < |b[leaf].entries| && Less(hi, b[leaf].entries[i].0)
    {
      var node := ReadNode(leaf);
      next := node.RightSibling();
      part, stop := RangeOfNode(node, lo, hi);
    }

    static method RangeOfNode(node: Node, lo: Key, hi: Key) returns (part: seq<(Key, Value)>, stop: bool)
      requires node.IsLeafNode()
      ensures part == Between(node.Body().entries, lo, hi)
      ensures stop <==> exists i :: 0 <= i < |node.Body().entries| && Less(hi, node.Body().entries[i].0)
    {
      ghost var es := node.Body().entries;
      assert Sorted(es);
      part := [];
      for i := 0 to node.NumKeys()
        invariant part == Between(es[..i], lo, hi)
        invariant forall j :: 0 <= j < i ==> !Less(hi, es[j].0)
      {
        var key := node.LeafKey(i);
        RangeTurn(es, i, lo, hi);
        if Less(hi, key) {
          return part, true;
        }
        if !Less(key, lo) {
          part := part + [(key, node.LeafValue(i))];
        }
      }
      assert es[..|es|] == es;
      return part, false;
    }

    /** All entries with `lo <= key <= hi` that the sibling pointers lead to, up to a leaf with a larger key. */
    method RangeScan(lo: Key, hi: Key) returns (es: seq<(Key, Value)>, ghost ps: seq<PageId>)
      requires Valid()
      modifies pool
      ensures Valid() && pool.View() == old(pool.View())
      ensures Ranged(b, ps, hi) && es == Between(Gathered(b, ps), lo, hi)
      ensures ps[0] in g && g[ps[0]].height == 0 && Covers(g[ps[0]], lo)
      ensures forall tr {:trigger Followed(b, tr)} :: Followed(b, tr) && Enters(g, tr) ==> ListsRange(es, tr.m, lo, hi)
    {
      var leaf := FindLeaf(lo);
      LeafHeight(leaf);
      es, ps := WalkRange(leaf, lo, hi);
      forall tr | Followed(b, tr) && Enters(g, tr) ensures ListsRange(es, tr.m, lo, hi) {
        assert EntersAt(g, tr, leaf);
        WalkListsRange(b, tr, ps, lo, hi);
      }
    }

    method WalkRange(first: PageId, lo: Key, hi: Key) returns (es: seq<(Key, Value)>, ghost ps: seq<PageId>)
      requires Linked() && Ends(b) && first in b && b[first].Leaf?
      modifies pool
      ensures Linked() && pool.View() == old(pool.View())
      ensures Ranged(b, ps, hi) && ps[0] == first && es == Between(Gathered(b, ps), lo, hi)
    {
      ghost var far :| Nearer(b, far);
      var leaf := first;
      ps := [leaf];
      var stop, next;
      es, stop, next := RangeOfLeaf(leaf, lo, hi);
      while !stop && next != INVALID_PAGE_ID
        invariant Linked() && pool.View() == old(pool.View())
        invariant leaf in b && b[leaf].Leaf? && NearerAt(b, far, leaf)
        invariant Path(b, ps) && ps[0] == first && ps[|ps| - 1] == leaf && Stop(b, ps) == next == b[leaf].next
        invariant es == Between(Gathered(b, ps), lo, hi) && (stop <==> Beyond(b, leaf, hi))
        invariant forall i :: 0 <= i < |ps| - 1 ==> !Beyond(b, ps[i], hi)
        decreases far[leaf]
      {
        PathMore(b, ps, next);
        BetweenConcat(Gathered(b, ps), b[next].entries, lo, hi);
        assert NearerAt(b, far, next);
        leaf, ps := next, ps + [next];
        var part;
        part, stop, next := RangeOfLeaf(leaf, lo, hi);
        es := es + part;
      }
    }

    lemma LeafHeight(p: PageId)
      requires Valid() && p in g && b[p].Leaf?
      ensures g[p].height == 0
    {
      assert PageOk(b, g, root, Settled, p);
    }

    /** Remove a key from its leaf; the tree is never rebalanced. */
    method Delete(key: Key) returns (r: Option<Value>)
      requires Valid()
      modifies this`b, this`par, this`m, pool
      ensures Valid() && r == Get(old(m), key) && Took(old(From(root)), Del(key), From(root))
      ensures NumPages() == old(NumPages())
    {
      var leaf := FindLeaf(key);
      r := DeleteAt(leaf, key);
    }

    method DeleteAt(leaf: PageId, key: Key) returns (r: Option<Value>)
      requires Valid() && leaf in g && b[leaf].Leaf? && Covers(g[leaf], key)
      modifies this`b, this`par, this`m, pool
      ensures Valid() && r == Get(old(m), key) && Took(old(From(root)), Del(key), From(root))
      ensures NumPages() == old(NumPages())
    {
      DropInDrops(From(root), leaf, key);
      LookupOk(b, g, m, leaf, key);
      r := DeleteFromLeaf(leaf, key);
      m := m - {key};
    }

    method DeleteFromLeaf(leaf: PageId, key: Key) returns (r: Option<Value>)
      requires Linked() && leaf in b && b[leaf].Leaf?
      modifies this`b, this`par, pool
      ensures Linked() && par == old(par) && NumPages() == old(NumPages())
      ensures r == Assoc(old(b)[leaf].entries, key)
      ensures b == old(b)[leaf := Leaf(DropEntry(old(b)[leaf].entries, key), old(b)[leaf].next)]
    {
      var node := ReadNode(leaf);
      LowerBoundMeaning(b[leaf].entries, key);
      UpdateSame(b, leaf);
      UpdateSame(par, leaf);
      r := node.LeafDelete(key);
      if r.Some? {
        WriteNode(node);
      }
    }

    // ----- insertion, page by page -----

    /** Overwrite or add an entry if the leaf can take it. */
    method InsertIntoLeaf(leaf: PageId, key: Key, value: Value) returns (done: bool, isNew: bool)
      requires Linked() && leaf in b && b[leaf].Leaf?
      requires Assoc(b[leaf].entries, key).Some? ==> LeafSize(PutEntry(b[leaf].entries, key, value)) <= LEAF_ROOM
      modifies this`b, this`par, pool
      ensures Linked() && par == old(par) && NumPages() == old(NumPages())
      ensures isNew <==> Assoc(old(b)[leaf].entries, key) == None
      ensures done <==> !isNew || LeafHasRoom(old(b)[leaf].entries, key, value)
      ensures b == if done then old(b)[leaf := Leaf(PutEntry(old(b)[leaf].entries, key, value), old(b)[leaf].next)]
                   else old(b)
    {
      var node := ReadNode(leaf);
      ghost var es := b[leaf].entries;
      LowerBoundMeaning(es, key);
      UpdateSame(par, leaf);
      var i, found := node.LeafFindSlot(key);
      if found {
        isNew := node.LeafInsert(key, value);
        WriteNode(node);
        return true, false;
      }
      var fits := node.LeafCanFit(key, value);
      if fits {
        LeafSizeInsert(es, LowerBound(es, key), (key, value));
        isNew := node.LeafInsert(key, value);
        WriteNode(node);
        return true, true;
      }
      return false, true;
    }

    /** Spread the leaf's entries and the new one over the leaf and a new right sibling. */
    method SplitLeafPages(leaf: PageId, key: Key, value: Value, ghost es: seq<(Key, Value)>)
      returns (right: PageId, sep: Key, parent: PageId)
      requires Linked() && leaf in b && b[leaf].Leaf? && es == PutEntry(b[leaf].entries, key, value)
      requires Sorted(es) && |es| == |b[leaf].entries| + 1 >= 2 && HalvesFit(es)
      requires NumPages() < INVALID_PAGE_ID
      modifies this`b, this`par, pool
      ensures Linked() && NumPages() == old(NumPages()) + 1 && right == old(NumPages()) && right !in old(b)
      ensures sep == es[|es| / 2].0 && parent == old(par)[leaf] && par == old(par)[right := INVALID_PAGE_ID]
      ensures b == old(b)[leaf := Leaf(es[..|es| / 2], right)][right := Leaf(es[|es| / 2..], old(b)[leaf].next)]
    {
      var entries, next;
      entries, next, parent := ReadLeaf(leaf);
      var pos := LowerBound(entries, key);
      entries := Bytes.Insert(entries, pos, (key, value));
      var split := |entries| / 2;
      SortedParts(es, split, split);
      UpdateSame(par, leaf);
      right := AllocatePage();
      WriteLeaf(leaf, entries[..split], right, parent);
      WriteLeaf(right, entries[split..], next, INVALID_PAGE_ID);
      sep := entries[split].0;
    }

    /** Build a leaf from scratch and write it. */
    method WriteLeaf(p: PageId, entries: seq<(Key, Value)>, next: PageId, parent: PageId)
      requires Linked() && p < NumPages() && Sorted(entries) && LeafSize(entries) <= LEAF_ROOM
      modifies this`b, this`par, pool
      ensures Linked() && NumPages() == old(NumPages())
      ensures b == old(b)[p := Leaf(entries, next)] && par == old(par)[p := parent]
    {
      var node := new Node.NewLeaf(p);
      node.SetParent(parent);
      node.SetRightSibling(next);
      node.InsertAll(entries);
      WriteNode(node);
    }

    /** Build an internal node from scratch and write it. */
    method WriteInner(p: PageId, leftmost: PageId, entries: seq<(Key, PageId)>, parent: PageId)
      requires Linked() && p < NumPages() && Sorted(entries) && InnerSize(entries) <= INNER_ROOM
      modifies this`b, this`par, pool
      ensures Linked() && NumPages() == old(NumPages())
      ensures b == old(b)[p := Inner(leftmost, entries)] && par == old(par)[p := parent]
    {
      var node := new Node.NewInternal(p);
      node.SetParent(parent);
      node.InternalRebuild(leftmost, entries);
      WriteNode(node);
    }

    method SetParentOf(p: PageId, parent: PageId)
      requires Linked() && p in b
      modifies this`b, this`par, pool
      ensures Linked() && NumPages() == old(NumPages()) && b == old(b) && par == old(par)[p := parent]
    {
      UpdateSame(b, p);
      var node := ReadNode(p);
      node.SetParent(parent);
      WriteNode(node);
    }

    /** A new root above the two halves of the old one. */
    method NewRootPage(left: PageId, key: Key, right: PageId) returns (top: PageId)
      requires Linked() && left in b && right in b && NumPages() < INVALID_PAGE_ID
      requires SepSize((key, right)) <= INNER_ROOM
      modifies this`b, this`par, pool
      ensures Linked() && NumPages() == old(NumPages()) + 1 && top == old(NumPages()) && top !in old(b)
      ensures b == old(b)[top := Inner(left, [(key, right)])]
      ensures par == old(par)[top := INVALID_PAGE_ID][left := top][right := top]
    {
      top := AllocatePage();
      WriteInner(top, left, [(key, right)], INVALID_PAGE_ID);
      SetParentOf(left, top);
      SetParentOf(right, top);
    }

    /** Add the separator to the parent if it has room, and tell the new child. */
    method TryAttach(q: PageId, key: Key, right: PageId, ghost i: nat) returns (done: bool)
      requires Linked() && q in b && b[q].Inner? && right in b && right != q && Slot(b[q].seps, i, key)
      modifies this`b, this`par, pool
      ensures Linked() && NumPages() == old(NumPages())
      ensures done <==> InnerHasRoom(old(b)[q].seps, key)
      ensures done ==> b == AttachBodies(old(b), q, i, key, right) && par == old(par)[right := q]
      ensures !done ==> b == old(b) && par == old(par)
    {
      UpdateSame(par, q);
      var node := ReadNode(q);
      done := node.InternalCanFit(key);
      if done {
        node.InternalInsert(key, right, i);
        WriteNode(node);
        SetParentOf(right, q);
      }
    }

    /** Spread the separators, one more among them, over the node and a new right one. */
    method SplitInnerPages(q: PageId, key: Key, child: PageId, ghost es: seq<(Key, PageId)>)
      returns (right: PageId, up: Key, parent: PageId)
      requires Linked() && q in b && b[q].Inner? && es == WithSep(b[q].seps, key, child) && Sorted(es)
      requires InnerSize(es[..|es| / 2]) <= INNER_ROOM && InnerSize(es[|es| / 2 + 1..]) <= INNER_ROOM
      requires NumPages() < INVALID_PAGE_ID
      modifies this`b, this`par, pool
      ensures Linked() && NumPages() == old(NumPages()) + 1 && right == old(NumPages()) && right !in old(b)
      ensures up == es[|es| / 2].0 && parent == old(par)[q] && par == old(par)[right := INVALID_PAGE_ID]
      ensures b == old(b)[q := Inner(old(b)[q].first, es[..|es| / 2])]
                         [right := RightPart(Inner(old(b)[q].first, es), |es| / 2)]
    {
      var leftmost, entries;
      leftmost, entries, parent := ReadWithSep(q, key, child);
      var split := |entries| / 2;
      up := entries[split].0;
      right := WriteHalves(q, leftmost, entries, split, parent);
    }

    method ReadWithSep(q: PageId, key: Key, child: PageId)
      returns (leftmost: PageId, es: seq<(Key, PageId)>, parent: PageId)
      requires Linked() && q in b && b[q].Inner?
      modifies pool
      ensures Linked() && NumPages() == old(NumPages())
      ensures es == WithSep(b[q].seps, key, child) && leftmost == b[q].first && parent == par[q]
    {
      leftmost, es, parent := ReadInner(q);
      var pos := LowerBound(es, key);
      es := Bytes.Insert(es, pos, (key, child));
    }

    method WriteHalves(q: PageId, leftmost: PageId, es: seq<(Key, PageId)>, split: nat, parent: PageId)
      returns (right: PageId)
      requires Linked() && q in b && split < |es| && Sorted(es) && NumPages() < INVALID_PAGE_ID
      requires InnerSize(es[..split]) <= INNER_ROOM && InnerSize(es[split + 1..]) <= INNER_ROOM && par[q] == parent
      modifies this`b, this`par, pool
      ensures Linked() && NumPages() == old(NumPages()) + 1 && right == old(NumPages()) && right !in old(b)
      ensures b == old(b)[q := Inner(leftmost, es[..split])][right := Inner(es[split].1, es[split + 1..])]
      ensures par == old(par)[right := INVALID_PAGE_ID]
    {
      UpdateSame(par, q);
      SortedParts(es, split, split + 1);
      assert HoldsAt(pool.View(), b, par, q);
      right := AllocatePage();
      WriteInner(q, leftmost, es[..split], parent);
      WriteInner(right, es[split].1, es[split + 1..], INVALID_PAGE_ID);
    }

    /** Point the children of an internal node at it. */
    method UpdateChildrenParent(p: PageId)
      requires Linked() && p in b && ChildrenIn(b, b[p])
      modifies this`b, this`par, pool
      ensures Linked() && NumPages() == old(NumPages()) && b == old(b)
      ensures par == Adopt(old(par), b[p], |b[p].seps| + 1, p)
    {
      var leftmost, entries, _ := ReadInner(p);
      var n := Inner(leftmost, entries);
      AdoptNone(par, n, p);
      for i := 0 to |entries| + 1
        invariant Linked() && NumPages() == old(NumPages()) && b == old(b)
        invariant par == Adopt(old(par), n, i, p)
      {
        AdoptOne(old(par), n, i, p);
        SetParentOf(Child(n, i), p);
      }
    }

    // ----- insertion -----

    /** The tree as a value, seen from page `top`. */
    ghost function From(top: PageId): Tree
      reads this
    {
      Tree(b, par, g, top, m)
    }

    /** Give the split of `left` a place in its parent, splitting upwards as needed. */
    method InsertIntoParent(left: PageId, key: Key, right: PageId, parent: PageId, ghost top: PageId)
      requires Linked() && Sound(From(top), Split(left, right))
      requires par[left] == parent && par[right] == INVALID_PAGE_ID
      requires parent == INVALID_PAGE_ID <==> left == top
      requires left != top ==> top == root
      requires Rank(key) == g[right].lo && 0 < |key| <= MAX_ENTRY - LEAF_SLOT_SIZE
      requires NumPages() + g[top].height - g[left].height < INVALID_PAGE_ID
      modifies this, pool
      ensures Linked() && Led(old(From(top)), left, right, old(FateIn(From(top), left, key)), From(root))
      ensures NumPages() <= old(NumPages() + g[top].height - g[left].height) + 1
      ensures g[root].height <= old(g[top].height) + 1
      decreases g[top].height - g[left].height, 1
    {
      ghost var t := From(top);
      assert PageOk(b, g, top, Split(left, right), left);
      if parent == INVALID_PAGE_ID {
        root := NewRootPage(left, key, right);
        LedByNewRoot(t, right, root, key);
        g := NewRootShape(g, left, right, root);
        return;
      }
      SepIsNew(t, left, right, parent, key);
      var done := TryAttach(parent, key, right, LowerBound(b[parent].seps, key));
      if done {
        LedByAttaching(t, left, right, parent, key);
        return;
      }
      SplitInternal(parent, key, right, left);
    }

    /** Split the internal node `q` around a new separator and hand its middle one upwards. */
    method SplitInternal(q: PageId, key: Key, child: PageId, ghost left: PageId)
      requires Linked() && SplitBelow(From(root), left, child, q, key)
      requires q in g && q in b && b[q].Inner? && !InnerHasRoom(b[q].seps, key)
      requires g[left].height < g[root].height && NumPages() + g[root].height - g[left].height < INVALID_PAGE_ID
      modifies this, pool
      ensures Linked() && Led(old(From(root)), left, child, old(FateIn(From(root), left, key)), From(root))
      ensures NumPages() <= old(NumPages() + g[root].height - g[left].height) + 1
      ensures g[root].height <= old(g[root].height) + 1
      decreases g[root].height - g[left].height, 0
    {
      ghost var t := From(root);
      var right, up, parent, u := HalveInternal(q, key, child, left);
      g, m := u.g, u.m;
      InsertIntoParent(q, up, right, parent, u.root);
      assert Led(u, q, right, FateIn(u, q, up), From(root));
    }

    /** The pages of the split; whatever the cascade then makes of `u` completes the split of `left`. */
    method HalveInternal(q: PageId, key: Key, child: PageId, ghost left: PageId)
      returns (right: PageId, up: Key, parent: PageId, ghost u: Tree)
      requires Linked() && SplitBelow(From(root), left, child, q, key)
      requires q in g && q in b && b[q].Inner? && !InnerHasRoom(b[q].seps, key)
      requires NumPages() < INVALID_PAGE_ID
      modifies this`b, this`par, pool
      ensures Linked() && NumPages() == old(NumPages()) + 1 && b == u.b && par == u.par
      ensures Sound(u, Split(q, right)) && u.par[q] == parent && u.par[right] == INVALID_PAGE_ID
      ensures (parent == INVALID_PAGE_ID <==> q == u.root) && (q != u.root ==> u.root == root)
      ensures Rank(up) == u.g[right].lo && 0 < |up| <= MAX_ENTRY - LEAF_SLOT_SIZE
      ensures u.g[u.root].height - u.g[q].height < g[root].height - g[left].height
      ensures u.g[u.root].height <= g[root].height
      ensures forall v {:trigger Led(u, q, right, FateIn(u, q, up), v)} :: Led(u, q, right, FateIn(u, q, up), v) ==>
                Led(old(From(root)), left, child, old(FateIn(From(root), left, key)), v)
    {
      ghost var t := From(root);
      right, up, parent := HalvePages(q, key, child, left);
      u := Stepped(t, q, key, child, right);
      SteppedOk(t, left, child, q, key, right);
      forall v | Led(u, q, right, FateIn(u, q, up), v) ensures Led(t, left, child, FateIn(t, left, key), v) {
        LedBySplitting(t, left, child, q, key, right, v);
      }
    }

    method HalvePages(q: PageId, key: Key, child: PageId, ghost left: PageId)
      returns (right: PageId, up: Key, parent: PageId)
      requires Linked() && SplitBelow(From(root), left, child, q, key)
      requires q in g && q in b && b[q].Inner? && NumPages() < INVALID_PAGE_ID
      modifies this`b, this`par, pool
      ensures Linked() && NumPages() == old(NumPages()) + 1 && right == old(NumPages()) && right !in old(b)
      ensures up == Middle(old(b)[q].seps, key, child) && parent == old(par)[q]
      ensures var u := Stepped(old(From(root)), q, key, child, right); b == u.b && par == u.par
    {
      ghost var t := From(root);
      ghost var es := WithSep(b[q].seps, key, child);
      InnerStored(q);
      HalvesStored(t, left, child, q, key);
      right, up, parent := SplitAndAdopt(q, key, child, es);
      SteppedIs(t, left, child, q, key, right, es, b, par, up);
    }

    method SplitAndAdopt(q: PageId, key: Key, child: PageId, ghost es: seq<(Key, PageId)>)
      returns (right: PageId, up: Key, parent: PageId)
      requires Linked() && q in b && b[q].Inner? && es == WithSep(b[q].seps, key, child) && Sorted(es)
      requires InnerSize(es[..|es| / 2]) <= INNER_ROOM && InnerSize(es[|es| / 2 + 1..]) <= INNER_ROOM
      requires ChildrenIn(b, RightPart(Inner(b[q].first, es), |es| / 2))
      requires NumPages() < INVALID_PAGE_ID
      modifies this`b, this`par, pool
      ensures Linked() && NumPages() == old(NumPages()) + 1 && right == old(NumPages()) && right !in old(b)
      ensures up == es[|es| / 2].0 && parent == old(par)[q]
      ensures var n := RightPart(Inner(old(b)[q].first, es), |es| / 2);
              && b == old(b)[q := Inner(old(b)[q].first, es[..|es| / 2])][right := n]
              && par == Adopt(old(par)[right := INVALID_PAGE_ID], n, |es| - |es| / 2, right)
    {
      ghost var n := RightPart(Inner(b[q].first, es), |es| / 2);
      right, up, parent := SplitInnerPages(q, key, child, es);
      ChildrenStay(old(b), b, n);
      UpdateChildrenParent(right);
    }

    /** Split a full leaf around the new entry. */
    method SplitAndInsertLeaf(leaf: PageId, key: Key, value: Value)
      requires Valid() && LeafFor(From(root), leaf, key) && EntrySize((key, value)) <= MAX_ENTRY
      requires !InPlace(From(root), leaf, key, value) && NumPages() + g[root].height + 1 < INVALID_PAGE_ID
      modifies this, pool
      ensures Valid() && Inserted(old(From(root)), leaf, key, value, From(root))
      ensures NumPages() <= old(NumPages() + g[root].height) + 2 && g[root].height <= old(g[root].height) + 1
    {
      ghost var t := From(root);
      var right, sep, parent, u := HalveLeaf(leaf, key, value);
      g, m := u.g, u.m;
      InsertIntoParent(leaf, sep, right, parent, u.root);
      assert Led(u, leaf, right, FateIn(u, leaf, sep), From(root));
    }

    /** The pages of the split; whatever the cascade then makes of `u` completes the insertion. */
    method HalveLeaf(leaf: PageId, key: Key, value: Value)
      returns (right: PageId, sep: Key, parent: PageId, ghost u: Tree)
      requires Valid() && LeafFor(From(root), leaf, key) && EntrySize((key, value)) <= MAX_ENTRY
      requires !InPlace(From(root), leaf, key, value) && NumPages() < INVALID_PAGE_ID
      modifies this`b, this`par, pool
      ensures Linked() && NumPages() == old(NumPages()) + 1 && b == u.b && par == u.par
      ensures Sound(u, Split(leaf, right)) && u.par[leaf] == parent && u.par[right] == INVALID_PAGE_ID
      ensures (parent == INVALID_PAGE_ID <==> leaf == u.root) && (leaf != u.root ==> u.root == root)
      ensures Rank(sep) == u.g[right].lo && 0 < |sep| <= MAX_ENTRY - LEAF_SLOT_SIZE
      ensures u.g[leaf].height == 0 <= u.g[u.root].height <= g[root].height
      ensures forall w {:trigger Led(u, leaf, right, FateIn(u, leaf, sep), w)} ::
                Led(u, leaf, right, FateIn(u, leaf, sep), w) ==> Inserted(old(From(root)), leaf, key, value, w)
    {
      ghost var t := From(root);
      right, sep, parent := HalveLeafPages(leaf, key, value);
      u := LeafSplit(t, leaf, key, value, right);
      LeafSplitOk(t, leaf, key, value, right);
      forall w | Led(u, leaf, right, FateIn(u, leaf, sep), w) ensures Inserted(t, leaf, key, value, w) {
        InsertedBySplit(t, leaf, key, value, right, w);
      }
    }

    method HalveLeafPages(leaf: PageId, key: Key, value: Value) returns (right: PageId, sep: Key, parent: PageId)
      requires Valid() && LeafFor(From(root), leaf, key) && EntrySize((key, value)) <= MAX_ENTRY
      requires !InPlace(From(root), leaf, key, value) && NumPages() < INVALID_PAGE_ID
      modifies this`b, this`par, pool
      ensures Linked() && NumPages() == old(NumPages()) + 1 && right == old(NumPages()) && right !in old(b)
      ensures sep == MiddleOf(old(From(root)), leaf, key, value) && leaf in old(par) && parent == old(par)[leaf]
      ensures var u := LeafSplit(old(From(root)), leaf, key, value, right); b == u.b && par == u.par
    {
      ghost var t := From(root);
      LeafStored(leaf);
      LeafHalvesStored(t, leaf, key, value);
      right, sep, parent := SplitLeafPages(leaf, key, value, PutEntry(b[leaf].entries, key, value));
      LeafSplitStore(t, leaf, key, value, right);
    }

    /** Insert or overwrite; true when the key is new. */
    method Insert(key: Key, value: Value) returns (isNew: bool, ghost leaf: PageId)
      requires Valid() && EntrySize((key, value)) <= MAX_ENTRY
      requires UpdateFits(From(root), key, value)
      requires NumPages() + g[root].height + 1 < INVALID_PAGE_ID
      modifies this, pool
      ensures Valid() && LeafFor(old(From(root)), leaf, key) && Inserted(old(From(root)), leaf, key, value, From(root))
      ensures isNew <==> key !in old(m)
      ensures NumPages() <= old(NumPages() + g[root].height) + 2 && g[root].height <= old(g[root].height) + 1
    {
      ghost var t := From(root);
      var leafId := FindLeaf(key);
      leaf := leafId;
      LookupOk(b, g, m, leaf, key);
      var done;
      done, isNew := InsertIntoLeaf(leafId, key, value);
      if done {
        InsertedInPlace(t, leaf, key, value);
        m := m[key := value];
      } else {
        SplitAndInsertLeaf(leafId, key, value);
      }
    }

    // No stored tree is as high as 32, so an insertion needs at most 33 new pages.
    lemma Low()
      requires Valid() && NumPages() <= INVALID_PAGE_ID
      ensures g[root].height < 32
    {
      forall p | p in g ensures p < NumPages() { assert HoldsAt(pool.View(), b, par, p); }
      HeightBelow32(b, g, root, NumPages());
    }

    /** Insert entries in ascending key order into a new tree. */
    method Load(es: seq<(Key, Value)>)
      requires Valid() && m == map[] && Chained(b, g) && Exact(par, g, root) && g[root].height == 0
      requires Sorted(es) && EntriesWithin(es, MAX_ENTRY) && NumPages() + 33 * |es| < INVALID_PAGE_ID
      modifies this, pool
      ensures Valid() && Chained(b, g) && Exact(par, g, root)
      ensures forall k :: Get(m, k) == Assoc(es, k)
    {
      ghost var pages := NumPages();
      if es != [] { ReadyAtFirst(From(root), es[0].0); }
      for i := 0 to |es|
        invariant Valid() && Chained(b, g) && Exact(par, g, root)
        invariant NumPages() <= pages + 33 * i
        invariant i < |es| ==> Ready(From(root), es[i].0)
        invariant forall k :: Get(m, k) == Assoc(es[..i], k)
      {
        ghost var t := From(root);
        Low();
        var _, leaf := Insert(es[i].0, es[i].1);
        AscendingStep(t, leaf, es[i].0, es[i].1, From(root), es[if i + 1 < |es| then i + 1 else i].0);
        LoadedOne(t.m, es, i, m, i + 1);
      }
      assert es[..|es|] == es;
    }

    /** Whether inserting the key would not overflow its leaf by an update in place. */
    method CanUpdate(key: Key, value: Value) returns (ok: bool)
      requires Valid()
      modifies pool
      ensures Valid() && pool.View() == old(pool.View()) && NumPages() == old(NumPages())
      ensures ok <==> UpdateFits(From(root), key, value)
    {
      var leaf := FindLeaf(key);
      var entries, _, _ := ReadLeaf(leaf);
      ok := Assoc(entries, key) == None || LeafSize(PutEntry(entries, key, value)) <= LEAF_ROOM;
      OneLeaf(From(root), leaf, key, value);
    }

    /** Carry out operations until one would overflow a leaf or the page numbers run out: a run of map updates
        as long as internal splits put the new child into the right half. */
    method Run(ops: seq<Op>) returns (done: nat, ghost ts: seq<Tree>)
      requires Valid() && NumPages() <= INVALID_PAGE_ID
      requires forall i :: 0 <= i < |ops| && ops[i].Put? ==> EntrySize((ops[i].key, ops[i].value)) <= MAX_ENTRY
      modifies this, pool
      ensures Valid() && done <= |ops| && RunOf(ts, ops[..done]) && ts[0] == old(From(root)) && ts[done] == From(root)
      ensures forall first {:trigger InOrder(old(From(root)), first)} ::
                InOrder(old(From(root)), first) && (forall i :: 0 <= i < done ==> SplitsRight(ts[i], ops[i])) ==>
                  InOrder(From(root), first) && m == ApplyAll(old(m), ops[..done])
      ensures done < |ops| ==>
                NumPages() + 33 >= INVALID_PAGE_ID
                || (ops[done].Put? && !UpdateFits(From(root), ops[done].key, ops[done].value))
    {
      done, ts := RunSteps(ops);
      forall first | InOrder(ts[0], first) && forall i :: 0 <= i < done ==> SplitsRight(ts[i], ops[i])
        ensures InOrder(ts[done], first) && ts[done].m == ApplyAll(ts[0].m, ops[..done])
      {
        RunIsMap(ts, ops[..done], first);
      }
    }

    method RunSteps(ops: seq<Op>) returns (done: nat, ghost ts: seq<Tree>)
      requires Valid() && NumPages() <= INVALID_PAGE_ID
      requires forall i :: 0 <= i < |ops| && ops[i].Put? ==> EntrySize((ops[i].key, ops[i].value)) <= MAX_ENTRY
      modifies this, pool
      ensures Valid() && done <= |ops| && RunOf(ts, ops[..done]) && ts[0] == old(From(root)) && ts[done] == From(root)
      ensures done < |ops| ==>
                NumPages() + 33 >= INVALID_PAGE_ID
                || (ops[done].Put? && !UpdateFits(From(root), ops[done].key, ops[done].value))
    {
      done, ts := 0, [From(root)];
      while done < |ops|
        invariant done <= |ops| && Valid() && NumPages() <= INVALID_PAGE_ID
        invariant RunOf(ts, ops[..done]) && ts[0] == old(From(root)) && ts[done] == From(root)
      {
        var ok := RunOne(ops[done]);
        if !ok {
          return;
        }
        RunMore(ts, ops[..done], ops[done], From(root));
        assert ops[..done] + [ops[done]] == ops[..done + 1];
        ts := ts + [From(root)];
        done := done + 1;
      }
    }

    method RunOne(op: Op) returns (ok: bool)
      requires Valid() && NumPages() <= INVALID_PAGE_ID
      requires op.Put? ==> EntrySize((op.key, op.value)) <= MAX_ENTRY
      modifies this, pool
      ensures Valid() && NumPages() <= INVALID_PAGE_ID
      ensures if ok then Took(old(From(root)), op, From(root)) else From(root) == old(From(root))
      ensures !ok ==> NumPages() + 33 >= INVALID_PAGE_ID || (op.Put? && !UpdateFits(From(root), op.key, op.value))
    {
      match op {
        case Put(k, v) =>
          if |pool.disk| + 33 >= INVALID_PAGE_ID {
            return false;
          }
          ok := CanUpdate(k, v);
          if ok {
            Low();
            var _, leaf := Insert(k, v);
          }
        case Del(k) =>
          var _ := Delete(k);
          ok := true;
      }
    }

    lemma LeafStored(p: PageId)
      requires Linked() && p in b && b[p].Leaf?
      ensures LeafSize(b[p].entries) <= LEAF_ROOM
    {
      assert HoldsAt(pool.View(), b, par, p);
      LeafRoom(pool.View()[p]);
    }

    lemma InnerStored(q: PageId)
      requires Linked() && q in b && b[q].Inner?
      ensures InnerSize(b[q].seps) <= INNER_ROOM
    {
      assert HoldsAt(pool.View(), b, par, q);
      InnerRoom(pool.View()[q]);
    }
  }

  // Both halves of the node fit on a page, and the children of the right one are stored.
  lemma HalvesStored(t: Tree, left: PageId, child: PageId, q: PageId, key: Key)
    requires SplitBelow(t, left, child, q, key) && q in t.g && q in t.b && t.b[q].Inner?
    requires InnerSize(t.b[q].seps) <= INNER_ROOM
    ensures var es := WithSep(t.b[q].seps, key, child);
            && Sorted(es) && InnerSize(es[..|es| / 2]) <= INNER_ROOM && InnerSize(es[|es| / 2 + 1..]) <= INNER_ROOM
            && ChildrenIn(t.b, RightPart(Inner(t.b[q].first, es), |es| / 2))
  {
    RightStored(t, left, child, q, key);
    HalvesWithSep(t.b[q].seps, key, child);
  }

  lemma HalvesWithSep(seps: seq<(Key, PageId)>, key: Key, child: PageId)
    requires SepsWithin(WithSep(seps, key, child)) && InnerSize(seps) <= INNER_ROOM
    ensures var es := WithSep(seps, key, child);
            InnerSize(es[..|es| / 2]) <= INNER_ROOM && InnerSize(es[|es| / 2 + 1..]) <= INNER_ROOM
  {
    var es, i := WithSep(seps, key, child), LowerBound(seps, key);
    assert Remove(es, i) == seps;
    InnerHalvesFit(es, i);
  }

  lemma LoadedOne(m: map<Key, Value>, es: seq<(Key, Value)>, i: nat, m': map<Key, Value>, j: nat)
    requires i < |es| && Sorted(es) && forall k :: Get(m, k) == Assoc(es[..i], k)
    requires j == i + 1 && m' == m[es[i].0 := es[i].1]
    ensures forall k :: Get(m', k) == Assoc(es[..j], k)
  {
    forall k ensures Get(m', k) == Assoc(es[..j], k) {
      assert es[..j] == es[..i] + [es[i]];
      AssocConcat(es[..i], [es[i]], k);
      AssocNone(es[..i], k);
      assert Get(m, k) == Assoc(es[..i], k);
    }
  }
}
