/**
 * Dimensions: the timeline forks of a project. Every project has the
 * dimension "main"; every other dimension records the dimension and the
 * instant it was forked from. This module holds the records, the implicit
 * default list, the closure deleteDimension computes, and the invariants
 * that createDimension and deleteDimension keep.
 */
module Dimensions {

  datatype Option<T> = None | Some(value: T)

  datatype ForkPoint = ForkPoint(dimension: string, timestamp: string)

  datatype Dimension = Dimension(slug: string, name: string, forkedFrom: Option<ForkPoint>, createdAt: string)

  /** The contents of meta.json; dimensions is absent in projects that never forked. */
  datatype ProjectMeta = ProjectMeta(
    name: string, slug: string, description: string, repoPath: string,
    createdAt: string, dimensions: Option<seq<Dimension>>)

  const MainSlug: string := "main"

  function MainDimension(createdAt: string): Dimension {
    Dimension(MainSlug, "Main", None, createdAt)
  }

  /** listDimensions for a project whose meta is readable: the recorded list, or the implicit [main]. */
  function DimensionsOf(meta: ProjectMeta): (r: seq<Dimension>)
    ensures r != []
    ensures meta.dimensions.Some? && meta.dimensions.value != [] ==> r == meta.dimensions.value
    ensures meta.dimensions.None? || meta.dimensions.value == [] ==> r == [MainDimension(meta.createdAt)]
  {
    if meta.dimensions.Some? && |meta.dimensions.value| > 0 then meta.dimensions.value
    else [MainDimension(meta.createdAt)]
  }

  /** dimensions.find(d => d.slug === slug) succeeds. */
  predicate HasSlug(dims: seq<Dimension>, slug: string) {
    exists i | 0 <= i < |dims| :: dims[i].slug == slug
  }

  predicate ForkedFrom(d: Dimension, parent: string) {
    d.forkedFrom.Some? && d.forkedFrom.value.dimension == parent
  }

  function Slugs(dims: seq<Dimension>): set<string> {
    set i | 0 <= i < |dims| :: dims[i].slug
  }

  // ---------------------------------------------------------------------
  // Well-formed dimension lists
  // ---------------------------------------------------------------------

  ghost predicate UniqueSlugs(dims: seq<Dimension>) {
    forall i, j :: 0 <= i < j < |dims| ==> dims[i].slug != dims[j].slug
  }

  /** Every fork names a dimension that comes before it in the list. */
  ghost predicate ParentsEarlier(dims: seq<Dimension>) {
    forall i :: 0 <= i < |dims| && dims[i].forkedFrom.Some? ==>
      exists j :: 0 <= j < i && dims[j].slug == dims[i].forkedFrom.value.dimension
  }

  /** The list starts with the unforked main dimension. */
  ghost predicate MainRoot(dims: seq<Dimension>) {
    |dims| > 0 && dims[0].slug == MainSlug && dims[0].forkedFrom.None?
  }

  ghost predicate WellFormedDims(dims: seq<Dimension>) {
    UniqueSlugs(dims) && ParentsEarlier(dims) && MainRoot(dims)
  }

  /** The implicit list of a project that never forked is well formed. */
  lemma DefaultWellFormed(meta: ProjectMeta)
    requires meta.dimensions.None? || meta.dimensions.value == [] || WellFormedDims(meta.dimensions.value)
    ensures WellFormedDims(DimensionsOf(meta))
  {
  }

  /**
   * createDimension appends a fresh slug forked from an existing dimension:
   * the list stays well formed.
   */
  lemma AppendForkWellFormed(dims: seq<Dimension>, d: Dimension)
    requires WellFormedDims(dims)
    requires !HasSlug(dims, d.slug)
    requires d.forkedFrom.Some? && HasSlug(dims, d.forkedFrom.value.dimension)
    ensures WellFormedDims(dims + [d])
  {
    var r := dims + [d];
    forall i | 0 <= i < |r| && r[i].forkedFrom.Some?
      ensures exists j :: 0 <= j < i && r[j].slug == r[i].forkedFrom.value.dimension
    {
      if i == |dims| {
        var j :| 0 <= j < |dims| && dims[j].slug == d.forkedFrom.value.dimension;
        assert r[j] == dims[j];
      } else {
        var j :| 0 <= j < i && dims[j].slug == dims[i].forkedFrom.value.dimension;
        assert r[j] == dims[j];
      }
    }
  }

  // ---------------------------------------------------------------------
  // The descendant closure of deleteDimension
  // ---------------------------------------------------------------------

  /** One step of the fixed-point loop would add d to the set. */
  predicate Adds(d: Dimension, s: set<string>) {
    d.forkedFrom.Some? && d.forkedFrom.value.dimension in s && d.slug !in s
  }

  /** Every dimension forked from a member of s is a member of s. */
  ghost predicate Closed(dims: seq<Dimension>, s: set<string>) {
    forall i :: 0 <= i < |dims| ==> !Adds(dims[i], s)
  }

  /** s is reached from target by following n fork links backwards. */
  ghost predicate DescendsFrom(dims: seq<Dimension>, s: string, target: string, n: nat)
    decreases n
  {
    if n == 0 then s == target
    else exists i :: (0 <= i < |dims| && dims[i].slug == s && dims[i].forkedFrom.Some? &&
      DescendsFrom(dims, dims[i].forkedFrom.value.dimension, target, n - 1))
  }

  ghost predicate IsDescendant(dims: seq<Dimension>, s: string, target: string) {
    exists n: nat :: DescendsFrom(dims, s, target, n)
  }

  /** The target and every slug whose fork links lead back to it. */
  ghost function Descendants(dims: seq<Dimension>, target: string): set<string> {
    set s | s in Slugs(dims) + {target} && IsDescendant(dims, s, target)
  }

  lemma StrictShrink(u: set<string>, a: set<string>, b: set<string>)
    requires a < b && b <= u
    ensures |u - b| < |u - a|
  {
    var x :| x in b && x !in a;
    assert x in b - a;
    assert u - a == (u - b) + (b - a);
    assert (u - b) * (b - a) == {};
  }

  /**
   * The toDelete set of deleteDimension: the target, then, until a pass adds
   * nothing, every dimension forked from a member. The result is the least
   * set that contains the target and is closed under forking.
   */
  method DescendantClosure(dims: seq<Dimension>, target: string) returns (toDelete: set<string>)
    ensures target in toDelete && Closed(dims, toDelete)
    ensures forall s :: target in s && Closed(dims, s) ==> toDelete <= s
    ensures toDelete == Descendants(dims, target)
  {
    ghost var universe := Slugs(dims) + {target};
    toDelete := {target};
    var changed := true;
    while changed
      invariant target in toDelete && toDelete <= universe
      invariant forall s :: target in s && Closed(dims, s) ==> toDelete <= s
      invariant !changed ==> Closed(dims, toDelete)
      decreases |universe - toDelete| + (if changed then 1 else 0)
    {
      changed := false;
      ghost var before := toDelete;
      for k := 0 to |dims|
        invariant target in toDelete && before <= toDelete <= universe
        invariant forall s :: target in s && Closed(dims, s) ==> toDelete <= s
        invariant changed ==> before < toDelete
        invariant !changed ==> toDelete == before && forall j :: 0 <= j < k ==> !Adds(dims[j], toDelete)
      {
        var dim := dims[k];
        if dim.forkedFrom.Some? && dim.forkedFrom.value.dimension in toDelete && dim.slug !in toDelete {
          AddKeepsLeast(dims, target, toDelete, k);
          toDelete := toDelete + {dim.slug};
          changed := true;
        }
      }
      if changed {
        StrictShrink(universe, before, toDelete);
      }
    }
    ClosureEqualsDescendants(dims, target, toDelete);
  }

  /** Adding a slug forked from a member keeps the set below every closed set. */
  lemma AddKeepsLeast(dims: seq<Dimension>, target: string, t: set<string>, k: int)
    requires 0 <= k < |dims| && Adds(dims[k], t)
    requires forall s :: target in s && Closed(dims, s) ==> t <= s
    ensures forall s :: target in s && Closed(dims, s) ==> t + {dims[k].slug} <= s
  {
    forall s | target in s && Closed(dims, s) ensures dims[k].slug in s {
      assert !Adds(dims[k], s);
    }
  }

  lemma ClosureEqualsDescendants(dims: seq<Dimension>, target: string, d: set<string>)
    requires target in d && Closed(dims, d)
    requires forall c :: target in c && Closed(dims, c) ==> d <= c
    ensures d == Descendants(dims, target)
  {
    forall s ensures s in d <==> s in Descendants(dims, target) {
      ClosureIsDescendants(dims, target, d, s);
      if IsDescendant(dims, s, target) {
        var n: nat :| DescendsFrom(dims, s, target, n);
        if n > 0 {
          var i :| 0 <= i < |dims| && dims[i].slug == s && dims[i].forkedFrom.Some? &&
            DescendsFrom(dims, dims[i].forkedFrom.value.dimension, target, n - 1);
        }
      }
    }
  }

  /** The least closed set containing the target is the target and its descendants. */
  lemma ClosureIsDescendants(dims: seq<Dimension>, target: string, d: set<string>, s: string)
    requires target in d && Closed(dims, d)
    requires forall c :: target in c && Closed(dims, c) ==> d <= c
    ensures s in d <==> IsDescendant(dims, s, target)
  {
    if IsDescendant(dims, s, target) {
      var n: nat :| DescendsFrom(dims, s, target, n);
      DescendantsInClosed(dims, target, d, s, n);
    }
    if s in d {
      var r := set x | x in Slugs(dims) + {target} && IsDescendant(dims, x, target);
      assert DescendsFrom(dims, target, target, 0);
      forall i | 0 <= i < |dims| ensures !Adds(dims[i], r) {
        if dims[i].forkedFrom.Some? && dims[i].forkedFrom.value.dimension in r {
          var n: nat :| DescendsFrom(dims, dims[i].forkedFrom.value.dimension, target, n);
          assert DescendsFrom(dims, dims[i].slug, target, n + 1);
        }
      }
      assert d <= r;
    }
  }

  lemma {:induction false} DescendantsInClosed(dims: seq<Dimension>, target: string, d: set<string>, s: string, n: nat)
    requires target in d && Closed(dims, d)
    requires DescendsFrom(dims, s, target, n)
    ensures s in d
    decreases n
  {
    if n > 0 {
      var i :| 0 <= i < |dims| && dims[i].slug == s && dims[i].forkedFrom.Some? &&
        DescendsFrom(dims, dims[i].forkedFrom.value.dimension, target, n - 1);
      DescendantsInClosed(dims, target, d, dims[i].forkedFrom.value.dimension, n - 1);
      assert !Adds(dims[i], d);
    }
  }

  /** Deleting any dimension but main never deletes main from a well-formed list. */
  lemma MainSurvives(dims: seq<Dimension>, target: string, d: set<string>)
    requires WellFormedDims(dims) && target != MainSlug
    requires forall c :: target in c && Closed(dims, c) ==> d <= c
    ensures MainSlug !in d
  {
    var c := (Slugs(dims) + {target}) - {MainSlug};
    forall i | 0 <= i < |dims| ensures !Adds(dims[i], c) {
      if dims[i].forkedFrom.Some? && i > 0 {
        assert dims[0].slug != dims[i].slug;
      }
    }
  }

  // ---------------------------------------------------------------------
  // The remaining list
  // ---------------------------------------------------------------------

  /** dimensions.filter(d => !toDelete.has(d.slug)) */
  function Remaining(dims: seq<Dimension>, d: set<string>): seq<Dimension> {
    if dims == [] then []
    else
      var last := dims[|dims| - 1];
      Remaining(dims[..|dims| - 1], d) + (if last.slug in d then [] else [last])
  }

  /** A dimension remains exactly when it was there and its slug was not deleted. */
  lemma {:induction false} RemainingMembers(dims: seq<Dimension>, d: set<string>, x: Dimension)
    ensures x in Remaining(dims, d) <==> x in dims && x.slug !in d
  {
    if dims != [] {
      var init := dims[..|dims| - 1];
      RemainingMembers(init, d, x);
      assert dims == init + [dims[|dims| - 1]];
    }
  }

  /** Filtering commutes with concatenation, so the original order is kept. */
  lemma {:induction false} RemainingAppend(a: seq<Dimension>, b: seq<Dimension>, d: set<string>)
    ensures Remaining(a + b, d) == Remaining(a, d) + Remaining(b, d)
    decreases |b|
  {
    if b == [] {
      assert a + b == a;
    } else {
      var init := b[..|b| - 1];
      var last := b[|b| - 1];
      assert (a + b)[..|a + b| - 1] == a + init;
      RemainingAppend(a, init, d);
      var tail: seq<Dimension> := if last.slug in d then [] else [last];
      assert Remaining(a + b, d) == Remaining(a, d) + Remaining(init, d) + tail;
    }
  }

  lemma RemainingSlugs(dims: seq<Dimension>, d: set<string>, s: string)
    ensures HasSlug(Remaining(dims, d), s) <==> HasSlug(dims, s) && s !in d
  {
    var r := Remaining(dims, d);
    if HasSlug(r, s) {
      var i :| 0 <= i < |r| && r[i].slug == s;
      RemainingMembers(dims, d, r[i]);
    }
    if HasSlug(dims, s) && s !in d {
      var i :| 0 <= i < |dims| && dims[i].slug == s;
      RemainingMembers(dims, d, dims[i]);
    }
  }

  /**
   * Removing a closed set that does not hold main keeps the list well formed:
   * no remaining fork loses its parent.
   */
  lemma {:induction false} RemainingWellFormed(dims: seq<Dimension>, d: set<string>)
    requires WellFormedDims(dims) && Closed(dims, d) && MainSlug !in d
    ensures WellFormedDims(Remaining(dims, d))
    decreases |dims|
  {
    if |dims| == 1 {
      assert dims[..0] == [];
    } else {
      var init := dims[..|dims| - 1];
      var last := dims[|dims| - 1];
      assert Closed(init, d);
      assert init[0] == dims[0];
      RemainingWellFormed(init, d);
      var r0 := Remaining(init, d);
      if last.slug !in d {
        assert Remaining(dims, d) == r0 + [last];
        KeepLast(dims, d, r0);
      } else {
        assert Remaining(dims, d) == r0;
      }
    }
  }

  /** The step of RemainingWellFormed where the last dimension stays. */
  lemma KeepLast(dims: seq<Dimension>, d: set<string>, r0: seq<Dimension>)
    requires WellFormedDims(dims) && Closed(dims, d) && |dims| > 1
    requires dims[|dims| - 1].slug !in d
    requires r0 == Remaining(dims[..|dims| - 1], d) && WellFormedDims(r0)
    ensures WellFormedDims(r0 + [dims[|dims| - 1]])
  {
    var init := dims[..|dims| - 1];
    var last := dims[|dims| - 1];
    forall i | 0 <= i < |init| ensures init[i].slug != last.slug {
      assert init[i] == dims[i];
    }
    RemainingSlugs(init, d, last.slug);
    AppendUnique(r0, last);
    if last.forkedFrom.Some? {
      assert !Adds(dims[|dims| - 1], d);
      var j :| 0 <= j < |dims| - 1 && dims[j].slug == last.forkedFrom.value.dimension;
      assert init[j] == dims[j];
      RemainingSlugs(init, d, last.forkedFrom.value.dimension);
    }
    AppendParentsEarlier(r0, last);
  }

  lemma AppendParentsEarlier(r: seq<Dimension>, x: Dimension)
    requires ParentsEarlier(r) && |r| > 0
    requires x.forkedFrom.Some? ==> HasSlug(r, x.forkedFrom.value.dimension)
    ensures ParentsEarlier(r + [x])
  {
    var s := r + [x];
    forall i | 0 <= i < |s| && s[i].forkedFrom.Some?
      ensures exists j :: 0 <= j < i && s[j].slug == s[i].forkedFrom.value.dimension
    {
      if i < |r| {
        var j :| 0 <= j < i && r[j].slug == r[i].forkedFrom.value.dimension;
        assert s[j] == r[j];
      } else {
        var j :| 0 <= j < |r| && r[j].slug == x.forkedFrom.value.dimension;
        assert s[j] == r[j];
      }
    }
  }

  lemma AppendUnique(r: seq<Dimension>, x: Dimension)
    requires UniqueSlugs(r) && !HasSlug(r, x.slug)
    ensures UniqueSlugs(r + [x])
  {
    var s := r + [x];
    forall i, j | 0 <= i < j < |s| ensures s[i].slug != s[j].slug {
      if j == |r| {
        assert s[i] == r[i];
      } else {
        assert s[i] == r[i] && s[j] == r[j];
      }
    }
  }
}
