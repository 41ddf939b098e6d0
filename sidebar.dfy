/**
 * The dimension tree of the sidebar: the flat dimension list, whose forks
 * point back at their parents, turned into a tree of children rooted at
 * "main", and the anchor id of a fork point.
 */
module Sidebar {
  import opened Dimensions

  datatype DimNode = DimNode(dim: Dimension, children: seq<DimNode>)

  /** The dimensions forked from parent, in input order. */
  function ChildrenOf(dims: seq<Dimension>, parent: string): (r: seq<Dimension>)
    ensures forall d :: d in r <==> d in dims && ForkedFrom(d, parent)
  {
    if dims == [] then []
    else
      var init := dims[..|dims| - 1];
      var last := dims[|dims| - 1];
      assert dims == init + [last];
      ChildrenOf(init, parent) + (if ForkedFrom(last, parent) then [last] else [])
  }

  lemma ChildrenStep(dims: seq<Dimension>, i: int, parent: string)
    requires 0 <= i < |dims|
    ensures ChildrenOf(dims[..i + 1], parent) ==
      ChildrenOf(dims[..i], parent) + (if ForkedFrom(dims[i], parent) then [dims[i]] else [])
  {
    assert dims[..i + 1][..i] == dims[..i];
  }

  /** byParent.get(parent) || [] */
  function Lookup(byParent: map<string, seq<Dimension>>, parent: string): seq<Dimension> {
    if parent in byParent then byParent[parent] else []
  }

  ghost predicate ByParentOf(byParent: map<string, seq<Dimension>>, dims: seq<Dimension>) {
    forall p :: Lookup(byParent, p) == ChildrenOf(dims, p)
  }

  /** The loop of buildDimTree that groups the forks by parent. */
  method GroupByParent(dims: seq<Dimension>) returns (byParent: map<string, seq<Dimension>>)
    ensures ByParentOf(byParent, dims)
    ensures forall p :: p in byParent ==> byParent[p] != []
  {
    byParent := map[];
    for i := 0 to |dims|
      invariant ByParentOf(byParent, dims[..i])
      invariant forall p :: p in byParent ==> byParent[p] != []
    {
      var dim := dims[i];
      if dim.forkedFrom.None? {
        forall p ensures Lookup(byParent, p) == ChildrenOf(dims[..i + 1], p) {
          ChildrenStep(dims, i, p);
        }
        continue;
      }
      var parent := dim.forkedFrom.value.dimension;
      ghost var before := byParent;
      if parent !in byParent {
        byParent := byParent[parent := []];
      }
      byParent := byParent[parent := byParent[parent] + [dim]];
      forall p ensures Lookup(byParent, p) == ChildrenOf(dims[..i + 1], p) {
        ChildrenStep(dims, i, p);
        if p == parent {
          assert Lookup(byParent, p) == Lookup(before, p) + [dim];
        } else {
          assert Lookup(byParent, p) == Lookup(before, p);
        }
      }
    }
    assert dims[..|dims|] == dims;
  }

  // ---------------------------------------------------------------------
  // Acyclic fork relations
  // ---------------------------------------------------------------------

  /** Every fork sits strictly below its parent in the rank. */
  ghost predicate Ranked(dims: seq<Dimension>, rank: map<string, nat>) {
    forall d :: d in dims && d.forkedFrom.Some? ==>
      d.slug in rank && d.forkedFrom.value.dimension in rank &&
      rank[d.slug] < rank[d.forkedFrom.value.dimension]
  }

  ghost predicate Acyclic(dims: seq<Dimension>) {
    exists rank :: Ranked(dims, rank)
  }

  /** 0 for a slug nothing is forked from, else one more than its rank. */
  function Height(rank: map<string, nat>, s: string): nat {
    if s in rank then rank[s] + 1 else 0
  }

  /** The reference tree: below each slug, a node for each dimension forked from it. */
  ghost function Forest(dims: seq<Dimension>, parent: string, rank: map<string, nat>): seq<DimNode>
    requires Ranked(dims, rank)
    decreases Height(rank, parent)
  {
    var cs := ChildrenOf(dims, parent);
    seq(|cs|, i requires 0 <= i < |cs| && cs[i] in dims && ForkedFrom(cs[i], parent) =>
      DimNode(cs[i], Forest(dims, cs[i].slug, rank)))
  }

  /** buildNodes: the nodes below parentSlug, read from the grouped map. */
  function BuildNodes(byParent: map<string, seq<Dimension>>, parentSlug: string,
                      ghost dims: seq<Dimension>, ghost rank: map<string, nat>): (r: seq<DimNode>)
    requires ByParentOf(byParent, dims) && Ranked(dims, rank)
    ensures r == Forest(dims, parentSlug, rank)
    decreases Height(rank, parentSlug)
  {
    var children := Lookup(byParent, parentSlug);
    assert children == ChildrenOf(dims, parentSlug);
    seq(|children|, i requires 0 <= i < |children| && children[i] in dims && ForkedFrom(children[i], parentSlug) =>
      DimNode(children[i], BuildNodes(byParent, children[i].slug, dims, rank)))
  }

  /** buildDimTree: the forks grouped by parent, then the nodes below main. */
  method BuildDimTree(dims: seq<Dimension>) returns (tree: seq<DimNode>)
    requires Acyclic(dims)
    ensures forall rank :: Ranked(dims, rank) ==> tree == Forest(dims, MainSlug, rank)
  {
    var byParent := GroupByParent(dims);
    ghost var rank :| Ranked(dims, rank);
    tree := BuildNodes(byParent, MainSlug, dims, rank);
    forall other | Ranked(dims, other) ensures tree == Forest(dims, MainSlug, other) {
      ForestRankFree(dims, MainSlug, rank, other);
    }
  }

  /** The tree does not depend on which rank witnesses acyclicity. */
  lemma {:induction false} ForestRankFree(dims: seq<Dimension>, parent: string, r1: map<string, nat>, r2: map<string, nat>)
    requires Ranked(dims, r1) && Ranked(dims, r2)
    ensures Forest(dims, parent, r1) == Forest(dims, parent, r2)
    decreases Height(r1, parent)
  {
    var cs := ChildrenOf(dims, parent);
    var f1 := Forest(dims, parent, r1);
    var f2 := Forest(dims, parent, r2);
    forall i | 0 <= i < |cs| ensures f1[i] == f2[i] {
      assert cs[i] in dims;
      ForestRankFree(dims, cs[i].slug, r1, r2);
    }
  }

  // ---------------------------------------------------------------------
  // Shape of the tree
  // ---------------------------------------------------------------------

  function Roots(ns: seq<DimNode>): (r: seq<Dimension>)
    ensures |r| == |ns| && forall i :: 0 <= i < |ns| ==> r[i] == ns[i].dim
  {
    seq(|ns|, i requires 0 <= i < |ns| => ns[i].dim)
  }

  /** Every node is a fork, and its children are exactly the forks of its slug, in input order. */
  ghost predicate Shaped(ns: seq<DimNode>, dims: seq<Dimension>) {
    forall i :: 0 <= i < |ns| ==>
      && ns[i].dim.forkedFrom.Some?
      && Roots(ns[i].children) == ChildrenOf(dims, ns[i].dim.slug)
      && Shaped(ns[i].children, dims)
  }

  /** The top level holds exactly the forks of the parent, in input order. */
  lemma ForestRoots(dims: seq<Dimension>, parent: string, rank: map<string, nat>)
    requires Ranked(dims, rank)
    ensures Roots(Forest(dims, parent, rank)) == ChildrenOf(dims, parent)
  {
  }

  lemma {:induction false} ForestShaped(dims: seq<Dimension>, parent: string, rank: map<string, nat>)
    requires Ranked(dims, rank)
    ensures Shaped(Forest(dims, parent, rank), dims)
    decreases Height(rank, parent)
  {
    var cs := ChildrenOf(dims, parent);
    var f := Forest(dims, parent, rank);
    forall i | 0 <= i < |f|
      ensures f[i].dim.forkedFrom.Some?
      ensures Roots(f[i].children) == ChildrenOf(dims, f[i].dim.slug)
      ensures Shaped(f[i].children, dims)
    {
      assert cs[i] in cs;
      ForestRoots(dims, cs[i].slug, rank);
      ForestShaped(dims, cs[i].slug, rank);
    }
  }

  /**
   * buildDimTree shows no unforked dimension, puts under every node exactly
   * the dimensions forked from it, and starts with the forks of main.
   */
  lemma TreeShape(dims: seq<Dimension>, rank: map<string, nat>)
    requires Ranked(dims, rank)
    ensures var tree := Forest(dims, MainSlug, rank);
      Roots(tree) == ChildrenOf(dims, MainSlug) && Shaped(tree, dims)
  {
    ForestRoots(dims, MainSlug, rank);
    ForestShaped(dims, MainSlug, rank);
  }

  // ---------------------------------------------------------------------
  // Every reachable fork exactly once
  // ---------------------------------------------------------------------

  /** The dimensions of a forest, each node before its children. */
  function Flatten(ns: seq<DimNode>): seq<Dimension>
    decreases ns
  {
    if ns == [] then [] else [ns[0].dim] + Flatten(ns[0].children) + Flatten(ns[1..])
  }

  /** A dimension is in a flattened forest when it is a node or below one. */
  lemma {:induction false} FlattenMember(ns: seq<DimNode>, x: Dimension)
    ensures x in Flatten(ns) <==> exists i :: 0 <= i < |ns| && (x == ns[i].dim || x in Flatten(ns[i].children))
    decreases ns
  {
    if ns != [] {
      FlattenMember(ns[1..], x);
      assert forall i :: 1 <= i < |ns| ==> ns[i] == ns[1..][i - 1];
      if exists i :: 0 <= i < |ns| && (x == ns[i].dim || x in Flatten(ns[i].children)) {
        var i :| 0 <= i < |ns| && (x == ns[i].dim || x in Flatten(ns[i].children));
        if i > 0 {
          assert ns[1..][i - 1] == ns[i];
        }
      }
    }
  }

  /** Chains of fork links compose. */
  lemma {:induction false} DescendsCompose(dims: seq<Dimension>, s: string, m: string, t: string, a: nat, b: nat)
    requires DescendsFrom(dims, s, m, a) && DescendsFrom(dims, m, t, b)
    ensures DescendsFrom(dims, s, t, a + b)
    decreases a
  {
    if a > 0 {
      var i :| 0 <= i < |dims| && dims[i].slug == s && dims[i].forkedFrom.Some? &&
        DescendsFrom(dims, dims[i].forkedFrom.value.dimension, m, a - 1);
      DescendsCompose(dims, dims[i].forkedFrom.value.dimension, m, t, a - 1, b);
    }
  }

  lemma OneStep(dims: seq<Dimension>, d: Dimension)
    requires d in dims && d.forkedFrom.Some?
    ensures DescendsFrom(dims, d.slug, d.forkedFrom.value.dimension, 1)
  {
    var i :| 0 <= i < |dims| && dims[i] == d;
    assert DescendsFrom(dims, d.forkedFrom.value.dimension, d.forkedFrom.value.dimension, 0);
  }

  /** Everything below parent is a fork that descends from it. */
  lemma {:induction false} BelowDescends(dims: seq<Dimension>, parent: string, rank: map<string, nat>, x: Dimension)
    requires Ranked(dims, rank)
    requires x in Flatten(Forest(dims, parent, rank))
    ensures x in dims && x.forkedFrom.Some?
    ensures exists n: nat :: n >= 1 && DescendsFrom(dims, x.slug, parent, n)
    decreases Height(rank, parent)
  {
    var cs := ChildrenOf(dims, parent);
    var f := Forest(dims, parent, rank);
    FlattenMember(f, x);
    var i :| 0 <= i < |f| && (x == f[i].dim || x in Flatten(f[i].children));
    var c := cs[i];
    assert c in cs;
    OneStep(dims, c);
    if x != c {
      BelowDescends(dims, c.slug, rank, x);
      var n: nat :| n >= 1 && DescendsFrom(dims, x.slug, c.slug, n);
      DescendsCompose(dims, x.slug, c.slug, parent, n, 1);
    }
  }

  /** A node's subtree lies inside every forest that contains the node. */
  lemma {:induction false} SubtreeInside(dims: seq<Dimension>, parent: string, rank: map<string, nat>, y: Dimension, x: Dimension)
    requires Ranked(dims, rank)
    requires y in Flatten(Forest(dims, parent, rank))
    requires x in Flatten(Forest(dims, y.slug, rank))
    ensures x in Flatten(Forest(dims, parent, rank))
    decreases Height(rank, parent)
  {
    var cs := ChildrenOf(dims, parent);
    var f := Forest(dims, parent, rank);
    FlattenMember(f, y);
    var i :| 0 <= i < |f| && (y == f[i].dim || y in Flatten(f[i].children));
    assert cs[i] in cs;
    if y != f[i].dim {
      SubtreeInside(dims, cs[i].slug, rank, y, x);
    }
    FlattenMember(f, x);
  }

  /** With unique slugs, every dimension that descends from parent is below it. */
  lemma {:induction false} DescendsBelow(dims: seq<Dimension>, parent: string, rank: map<string, nat>, x: Dimension, n: nat)
    requires Ranked(dims, rank) && UniqueSlugs(dims)
    requires x in dims && n >= 1 && DescendsFrom(dims, x.slug, parent, n)
    ensures x in Flatten(Forest(dims, parent, rank))
    decreases n
  {
    var i :| 0 <= i < |dims| && dims[i].slug == x.slug && dims[i].forkedFrom.Some? &&
      DescendsFrom(dims, dims[i].forkedFrom.value.dimension, parent, n - 1);
    var j :| 0 <= j < |dims| && dims[j] == x;
    assert i == j;
    var q := x.forkedFrom.value.dimension;
    if n == 1 {
      TopIsBelow(dims, parent, rank, x);
    } else {
      var k :| 0 <= k < |dims| && dims[k].slug == q && dims[k].forkedFrom.Some? &&
        DescendsFrom(dims, dims[k].forkedFrom.value.dimension, parent, n - 2);
      var y := dims[k];
      DescendsBelow(dims, parent, rank, y, n - 1);
      TopIsBelow(dims, y.slug, rank, x);
      SubtreeInside(dims, parent, rank, y, x);
    }
  }

  /** A fork of parent is a node of parent's forest. */
  lemma TopIsBelow(dims: seq<Dimension>, parent: string, rank: map<string, nat>, x: Dimension)
    requires Ranked(dims, rank) && x in dims && ForkedFrom(x, parent)
    ensures x in Flatten(Forest(dims, parent, rank))
  {
    var cs := ChildrenOf(dims, parent);
    var f := Forest(dims, parent, rank);
    assert x in cs;
    var i :| 0 <= i < |cs| && cs[i] == x;
    assert f[i].dim == x;
    FlattenMember(f, x);
  }

  /** Following fork links strictly climbs the rank. */
  lemma {:induction false} DescendRank(dims: seq<Dimension>, rank: map<string, nat>, s: string, t: string, n: nat)
    requires Ranked(dims, rank) && n >= 1 && DescendsFrom(dims, s, t, n)
    ensures s in rank && t in rank && rank[s] < rank[t]
    decreases n
  {
    var i :| 0 <= i < |dims| && dims[i].slug == s && dims[i].forkedFrom.Some? &&
      DescendsFrom(dims, dims[i].forkedFrom.value.dimension, t, n - 1);
    assert dims[i] in dims;
    if n > 1 {
      DescendRank(dims, rank, dims[i].forkedFrom.value.dimension, t, n - 1);
    }
  }

  /** With unique slugs, a slug has one ancestor at each distance. */
  lemma {:induction false} OneAncestor(dims: seq<Dimension>, s: string, t1: string, t2: string, n: nat)
    requires UniqueSlugs(dims) && DescendsFrom(dims, s, t1, n) && DescendsFrom(dims, s, t2, n)
    ensures t1 == t2
    decreases n
  {
    if n > 0 {
      var i :| 0 <= i < |dims| && dims[i].slug == s && dims[i].forkedFrom.Some? &&
        DescendsFrom(dims, dims[i].forkedFrom.value.dimension, t1, n - 1);
      var j :| 0 <= j < |dims| && dims[j].slug == s && dims[j].forkedFrom.Some? &&
        DescendsFrom(dims, dims[j].forkedFrom.value.dimension, t2, n - 1);
      assert i == j;
      OneAncestor(dims, dims[i].forkedFrom.value.dimension, t1, t2, n - 1);
    }
  }

  /** A chain of a + b links passes through the ancestor at distance a. */
  lemma {:induction false} DescendsSplit(dims: seq<Dimension>, s: string, t: string, a: nat, b: nat)
    requires DescendsFrom(dims, s, t, a + b)
    ensures exists z :: DescendsFrom(dims, s, z, a) && DescendsFrom(dims, z, t, b)
    decreases a
  {
    if a == 0 {
      assert DescendsFrom(dims, s, s, 0);
    } else {
      var i :| 0 <= i < |dims| && dims[i].slug == s && dims[i].forkedFrom.Some? &&
        DescendsFrom(dims, dims[i].forkedFrom.value.dimension, t, a + b - 1);
      var q := dims[i].forkedFrom.value.dimension;
      DescendsSplit(dims, q, t, a - 1, b);
      var z :| DescendsFrom(dims, q, z, a - 1) && DescendsFrom(dims, z, t, b);
      assert DescendsFrom(dims, s, z, a);
    }
  }

  /**
   * Two forks of the same parent that a slug descends from are the same
   * fork: the chains meet, and a fork cannot descend from its sibling.
   */
  lemma Meet(dims: seq<Dimension>, rank: map<string, nat>, s: string, p: string, cu: Dimension, cv: Dimension, a: nat, b: nat)
    requires Ranked(dims, rank) && UniqueSlugs(dims)
    requires cu in dims && cv in dims && ForkedFrom(cu, p) && ForkedFrom(cv, p)
    requires DescendsFrom(dims, s, cu.slug, a) && DescendsFrom(dims, s, cv.slug, b)
    requires a <= b
    ensures cu.slug == cv.slug
  {
    DescendsSplit(dims, s, cv.slug, a, b - a);
    var z :| DescendsFrom(dims, s, z, a) && DescendsFrom(dims, z, cv.slug, b - a);
    OneAncestor(dims, s, z, cu.slug, a);
    if b > a {
      NotBelowSibling(dims, rank, p, cu, cv, b - a);
    }
  }

  lemma NotBelowSibling(dims: seq<Dimension>, rank: map<string, nat>, p: string, cu: Dimension, cv: Dimension, m: nat)
    requires Ranked(dims, rank) && UniqueSlugs(dims)
    requires cu in dims && cv in dims && ForkedFrom(cu, p) && ForkedFrom(cv, p)
    requires m >= 1
    ensures !DescendsFrom(dims, cu.slug, cv.slug, m)
  {
    if DescendsFrom(dims, cu.slug, cv.slug, m) {
      var i :| 0 <= i < |dims| && dims[i].slug == cu.slug && dims[i].forkedFrom.Some? &&
        DescendsFrom(dims, dims[i].forkedFrom.value.dimension, cv.slug, m - 1);
      var j :| 0 <= j < |dims| && dims[j] == cu;
      assert i == j;
      if m > 1 {
        DescendRank(dims, rank, p, cv.slug, m - 1);
      }
      assert false;
    }
  }

  ghost predicate NoDup<T>(s: seq<T>) {
    forall i, j :: 0 <= i < j < |s| ==> s[i] != s[j]
  }

  lemma NoDupConcat<T>(a: seq<T>, b: seq<T>)
    requires NoDup(a) && NoDup(b) && forall x :: x in a ==> x !in b
    ensures NoDup(a + b)
  {
    var c := a + b;
    forall i, j | 0 <= i < j < |c| ensures c[i] != c[j] {
      if j < |a| {
        assert c[i] == a[i] && c[j] == a[j];
      } else if i >= |a| {
        assert c[i] == b[i - |a|] && c[j] == b[j - |a|];
      } else {
        assert c[i] == a[i] && c[j] == b[j - |a|];
        assert a[i] in a;
      }
    }
  }

  /** A dimension is the node itself or lies below it. */
  predicate InNode(n: DimNode, x: Dimension) {
    x == n.dim || x in Flatten(n.children)
  }

  /** A forest has no repeats when no node repeats inside itself or meets another node. */
  lemma {:induction false} FlattenNoDup(ns: seq<DimNode>)
    requires forall i :: 0 <= i < |ns| ==> NoDup([ns[i].dim] + Flatten(ns[i].children))
    requires forall i, j, x :: 0 <= i < |ns| && 0 <= j < |ns| && i != j && InNode(ns[i], x) ==> !InNode(ns[j], x)
    ensures NoDup(Flatten(ns))
    decreases ns
  {
    if ns != [] {
      var rest := ns[1..];
      assert forall i :: 0 <= i < |rest| ==> rest[i] == ns[i + 1];
      FlattenNoDup(rest);
      forall x | x in [ns[0].dim] + Flatten(ns[0].children) ensures x !in Flatten(rest) {
        assert InNode(ns[0], x);
        FlattenMember(rest, x);
      }
      NoDupConcat([ns[0].dim] + Flatten(ns[0].children), Flatten(rest));
    }
  }

  lemma {:induction false} ChildrenDistinct(dims: seq<Dimension>, parent: string, i: int, j: int)
    requires UniqueSlugs(dims)
    requires 0 <= i < |ChildrenOf(dims, parent)| && 0 <= j < |ChildrenOf(dims, parent)| && i != j
    ensures ChildrenOf(dims, parent)[i].slug != ChildrenOf(dims, parent)[j].slug
    decreases |dims|
  {
    var init := dims[..|dims| - 1];
    var last := dims[|dims| - 1];
    var c0 := ChildrenOf(init, parent);
    var cs := ChildrenOf(dims, parent);
    assert UniqueSlugs(init);
    assert cs == c0 + (if ForkedFrom(last, parent) then [last] else []);
    if i < |c0| && j < |c0| {
      ChildrenDistinct(init, parent, i, j);
    } else {
      var k := if i < |c0| then i else j;
      assert c0[k] in c0;
      var m :| 0 <= m < |init| && init[m] == c0[k];
      assert dims[m] == init[m];
    }
  }

  /** What lies in a node of a forest descends from the node's slug. */
  lemma InNodeDescends(dims: seq<Dimension>, rank: map<string, nat>, c: Dimension, x: Dimension)
    requires Ranked(dims, rank) && c in dims && InNode(DimNode(c, Forest(dims, c.slug, rank)), x)
    ensures x in dims && exists n: nat :: DescendsFrom(dims, x.slug, c.slug, n)
  {
    if x == c {
      assert DescendsFrom(dims, x.slug, c.slug, 0);
    } else {
      BelowDescends(dims, c.slug, rank, x);
    }
  }

  /** The i-th node below parent is the i-th fork of parent with its own forest. */
  lemma ForestAt(dims: seq<Dimension>, parent: string, rank: map<string, nat>, i: int)
    requires Ranked(dims, rank) && 0 <= i < |Forest(dims, parent, rank)|
    ensures var cs := ChildrenOf(dims, parent);
      |Forest(dims, parent, rank)| == |cs| && cs[i] in dims && ForkedFrom(cs[i], parent) &&
      Forest(dims, parent, rank)[i] == DimNode(cs[i], Forest(dims, cs[i].slug, rank))
  {
    var cs := ChildrenOf(dims, parent);
    assert cs[i] in cs;
  }

  lemma NodesDisjoint(dims: seq<Dimension>, parent: string, rank: map<string, nat>, i: int, j: int, x: Dimension)
    requires Ranked(dims, rank) && UniqueSlugs(dims)
    requires var f := Forest(dims, parent, rank); 0 <= i < |f| && 0 <= j < |f| && i != j && InNode(f[i], x)
    ensures !InNode(Forest(dims, parent, rank)[j], x)
  {
    ForestAt(dims, parent, rank, i);
    ForestAt(dims, parent, rank, j);
    ChildrenDistinct(dims, parent, i, j);
    var cs := ChildrenOf(dims, parent);
    SiblingsDisjoint(dims, rank, parent, cs[i], cs[j], x);
  }

  /** Two different forks of one parent share nothing below them. */
  lemma SiblingsDisjoint(dims: seq<Dimension>, rank: map<string, nat>, p: string, ci: Dimension, cj: Dimension, x: Dimension)
    requires Ranked(dims, rank) && UniqueSlugs(dims)
    requires ci in dims && cj in dims && ForkedFrom(ci, p) && ForkedFrom(cj, p)
    requires ci.slug != cj.slug
    requires InNode(DimNode(ci, Forest(dims, ci.slug, rank)), x)
    ensures !InNode(DimNode(cj, Forest(dims, cj.slug, rank)), x)
  {
    if InNode(DimNode(cj, Forest(dims, cj.slug, rank)), x) {
      InNodeDescends(dims, rank, ci, x);
      InNodeDescends(dims, rank, cj, x);
      var a: nat :| DescendsFrom(dims, x.slug, ci.slug, a);
      var b: nat :| DescendsFrom(dims, x.slug, cj.slug, b);
      if a <= b {
        Meet(dims, rank, x.slug, p, ci, cj, a, b);
      } else {
        Meet(dims, rank, x.slug, p, cj, ci, b, a);
      }
      assert false;
    }
  }

  /** With unique slugs, no dimension appears twice below a parent. */
  lemma {:induction false} ForestNoDup(dims: seq<Dimension>, parent: string, rank: map<string, nat>)
    requires Ranked(dims, rank) && UniqueSlugs(dims)
    ensures NoDup(Flatten(Forest(dims, parent, rank)))
    decreases Height(rank, parent)
  {
    var cs := ChildrenOf(dims, parent);
    var f := Forest(dims, parent, rank);
    forall i | 0 <= i < |f| ensures NoDup([f[i].dim] + Flatten(f[i].children)) {
      var c := cs[i];
      assert c in cs;
      ForestNoDup(dims, c.slug, rank);
      forall x | x in Flatten(f[i].children) ensures x !in [c] {
        BelowDescends(dims, c.slug, rank, x);
        var n: nat :| n >= 1 && DescendsFrom(dims, x.slug, c.slug, n);
        DescendRank(dims, rank, x.slug, c.slug, n);
      }
      NoDupConcat([c], Flatten(f[i].children));
    }
    forall i, j, x | 0 <= i < |f| && 0 <= j < |f| && i != j && InNode(f[i], x) ensures !InNode(f[j], x) {
      NodesDisjoint(dims, parent, rank, i, j, x);
    }
    FlattenNoDup(f);
  }

  lemma {:induction false} NoDupCount<T>(s: seq<T>, x: T)
    requires NoDup(s) && x in s
    ensures multiset(s)[x] == 1
  {
    var rest := s[1..];
    assert s == [s[0]] + rest;
    assert NoDup(rest) by {
      forall a, b | 0 <= a < b < |rest| ensures rest[a] != rest[b] {
        assert rest[a] == s[a + 1] && rest[b] == s[b + 1];
      }
    }
    if s[0] == x {
      forall k | 0 <= k < |rest| ensures rest[k] != x {
        assert rest[k] == s[k + 1];
      }
      assert x !in multiset(rest);
    } else {
      NoDupCount(rest, x);
    }
  }

  /**
   * With unique slugs and no fork cycles, the tree lists every dimension
   * that descends from main exactly once, and nothing else.
   */
  lemma TreeListsEachOnce(dims: seq<Dimension>, rank: map<string, nat>, x: Dimension)
    requires Ranked(dims, rank) && UniqueSlugs(dims)
    ensures var flat := Flatten(Forest(dims, MainSlug, rank));
      && NoDup(flat)
      && (x in flat <==> x in dims && exists n: nat :: n >= 1 && DescendsFrom(dims, x.slug, MainSlug, n))
      && (x in flat ==> multiset(flat)[x] == 1)
  {
    var flat := Flatten(Forest(dims, MainSlug, rank));
    ForestNoDup(dims, MainSlug, rank);
    if x in flat {
      BelowDescends(dims, MainSlug, rank, x);
      NoDupCount(flat, x);
    }
    if x in dims && exists n: nat :: n >= 1 && DescendsFrom(dims, x.slug, MainSlug, n) {
      var n: nat :| n >= 1 && DescendsFrom(dims, x.slug, MainSlug, n);
      DescendsBelow(dims, MainSlug, rank, x, n);
    }
  }

  function SlugsOf(ds: seq<Dimension>): set<string> {
    set i | 0 <= i < |ds| :: ds[i].slug
  }

  /**
   * The slugs deleteDimension removes are the target and the slugs the
   * sidebar shows below it.
   */
  lemma ClosureIsSubtree(dims: seq<Dimension>, rank: map<string, nat>, target: string)
    requires Ranked(dims, rank) && UniqueSlugs(dims)
    ensures Descendants(dims, target) == {target} + SlugsOf(Flatten(Forest(dims, target, rank)))
  {
    var flat := Flatten(Forest(dims, target, rank));
    forall s | s in Descendants(dims, target) ensures s in {target} + SlugsOf(flat) {
      DescendantShown(dims, rank, target, s);
    }
    forall s | s in {target} + SlugsOf(flat) ensures s in Descendants(dims, target) {
      ShownDescends(dims, rank, target, s);
    }
  }

  lemma DescendantShown(dims: seq<Dimension>, rank: map<string, nat>, target: string, s: string)
    requires Ranked(dims, rank) && UniqueSlugs(dims) && s in Descendants(dims, target)
    ensures s in {target} + SlugsOf(Flatten(Forest(dims, target, rank)))
  {
    var flat := Flatten(Forest(dims, target, rank));
    var n: nat :| DescendsFrom(dims, s, target, n);
    if n > 0 {
      var i :| 0 <= i < |dims| && dims[i].slug == s && dims[i].forkedFrom.Some? &&
        DescendsFrom(dims, dims[i].forkedFrom.value.dimension, target, n - 1);
      DescendsBelow(dims, target, rank, dims[i], n);
      var k :| 0 <= k < |flat| && flat[k] == dims[i];
    }
  }

  lemma ShownDescends(dims: seq<Dimension>, rank: map<string, nat>, target: string, s: string)
    requires Ranked(dims, rank) && UniqueSlugs(dims) && s in {target} + SlugsOf(Flatten(Forest(dims, target, rank)))
    ensures s in Descendants(dims, target)
  {
    var flat := Flatten(Forest(dims, target, rank));
    if s == target {
      assert DescendsFrom(dims, s, target, 0);
    } else {
      var k :| 0 <= k < |flat| && flat[k].slug == s;
      BelowDescends(dims, target, rank, flat[k]);
      var i :| 0 <= i < |dims| && dims[i] == flat[k];
    }
  }

  // ---------------------------------------------------------------------
  // Fork anchors
  // ---------------------------------------------------------------------

  /** timestamp.replace(/[:.]/g, "-") */
  function Dashed(t: string): (r: string)
    ensures |r| == |t|
    ensures forall i :: 0 <= i < |t| ==> r[i] == if t[i] == ':' || t[i] == '.' then '-' else t[i]
  {
    if t == [] then [] else [if t[0] == ':' || t[0] == '.' then '-' else t[0]] + Dashed(t[1..])
  }

  /** forkId: "fork-" and the timestamp with every ':' and '.' turned into '-'. */
  function ForkId(timestamp: string): (r: string)
    ensures |r| == |timestamp| + 5 && r[..5] == "fork-"
    ensures forall i :: 0 <= i < |timestamp| ==>
      r[i + 5] == if timestamp[i] == ':' || timestamp[i] == '.' then '-' else timestamp[i]
  {
    "fork-" + Dashed(timestamp)
  }

  /** A fork id holds no ':' and no '.', so it is usable as an HTML anchor. */
  lemma ForkIdClean(timestamp: string)
    ensures ':' !in ForkId(timestamp) && '.' !in ForkId(timestamp)
  {
    var r := ForkId(timestamp);
    forall i | 0 <= i < |r| ensures r[i] != ':' && r[i] != '.' {
      if i < 5 {
        assert r[i] == "fork-"[i];
      } else {
        assert r[i] == r[(i - 5) + 5];
      }
    }
  }
}
