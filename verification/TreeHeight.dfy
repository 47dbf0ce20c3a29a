// A tree of height `h` has at least 2 to the `h` pages, so no tree is higher than 31.
module TreeHeight {
  import opened Bytes
  import opened NodeBody
  import opened TreeShape
  import opened TreeSteps
  import opened Bitwise

  /** The pages of the subtree. */
  ghost function Under(g: Shape, p: PageId): set<PageId>
    requires p in g
  {
    set q | q in g && Inside(g, p, q)
  }

  // Every internal node has a separator, hence two children with disjoint subtrees.
  lemma {:induction false} ManyUnder(b: Bodies, g: Shape, root: PageId, p: PageId)
    requires Shaped(b, g, root, Settled) && Bounded(b, g) && p in g
    ensures |Under(g, p)| >= Pow2(g[p].height)
    decreases g[p].height
  {
    assert PageOk(b, g, root, Settled, p) && BodyBounded(b, p);
    if b[p].Leaf? {
      AtLeastOne(Under(g, p), p);
    } else {
      var c, d := Child(b[p], 0), Child(b[p], 1);
      assert ChildOk(g, Settled, p, b[p], 0) && ChildOk(g, Settled, p, b[p], 1);
      ManyUnder(b, g, root, c);
      ManyUnder(b, g, root, d);
      forall q | q in g ensures g[q].lo < g[q].hi { assert PageOk(b, g, root, Settled, q); }
      TwoParts(Under(g, c), Under(g, d), Under(g, p));
    }
  }

  lemma AtLeastOne<T>(s: set<T>, x: T)
    requires x in s
    ensures |s| >= 1
  {
  }

  lemma TwoParts<T>(a: set<T>, c: set<T>, s: set<T>)
    requires a !! c && a <= s && c <= s
    ensures |a| + |c| <= |s|
  {
    assert |a + c| == |a| + |c|;
    assert s == (a + c) + (s - (a + c));
  }

  lemma {:induction false} AtMost(s: set<PageId>, n: nat)
    requires forall p :: p in s ==> p < n
    ensures |s| <= n
    decreases n
  {
    if n == 0 {
      assert s == {};
    } else if n - 1 < 0x1_0000_0000 {
      var rest := s - {n - 1};
      AtMost(rest, n - 1);
      assert |rest| >= |s| - 1;
    } else {
      AtMost(s, n - 1);
    }
  }

  lemma {:induction false} PowBelow(m: nat, n: nat)
    requires Pow2(m) < Pow2(n)
    ensures m < n
  {
    if m > 0 && n > 0 { PowBelow(m - 1, n - 1); }
  }

  lemma Two32()
    ensures Pow2(32) == 0x1_0000_0000
  {
    assert Pow2(8) == 256;
    assert Pow2(16) == 0x1_0000;
    assert Pow2(24) == 0x100_0000;
  }

  // No tree on pages numbered below `n` is as high as 32.
  lemma HeightBelow32(b: Bodies, g: Shape, root: PageId, n: nat)
    requires Shaped(b, g, root, Settled) && Bounded(b, g) && n < 0x1_0000_0000 && forall p :: p in g ==> p < n
    ensures Pow2(g[root].height) <= n && g[root].height < 32
  {
    ManyUnder(b, g, root, root);
    AtMost(Under(g, root), n);
    Two32();
    PowBelow(g[root].height, 32);
  }
}
