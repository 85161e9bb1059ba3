/** From the upstream groups to the printed hierarchy: what the job stores is what the page shows. */
module UpstreamPage {
  import opened Graphs
  import opened StringSets
  import opened Ecosystems
  import opened Hierarchy
  import opened Upstream

  // ----- the stored map of an acyclic relation

  lemma {:induction false} StoredWalk(bugs: Graph, groups: Graph, target: string, m: Graph, p: seq<string>)
    requires HoldsClosures(bugs, groups) && IsHierarchy(groups, target, m) && |p| >= 2 && IsWalk(m, p)
    ensures Reaches(bugs, p[0], p[|p| - 1])
  {
    var n := |p| - 1;
    assert p[n - 1 + 1] in Succ(m, p[n - 1]);
    HierarchyInRelation(bugs, groups, target, m);
    assert p[n] in Succ(groups, p[n - 1]);
    if n > 1 {
      var q := p[..n];
      forall i | 0 <= i < |q| - 1 ensures q[i + 1] in Succ(m, q[i]) { assert p[i + 1] in Succ(m, p[i]); }
      StoredWalk(bugs, groups, target, m, q);
      ReachesTransitive(bugs, p[0], p[n - 1], p[n]);
    }
  }

  /** Its edges are reachability in the relation, so it has no cycle either. */
  lemma {:induction false} StoredIsAcyclic(bugs: Graph, groups: Graph, target: string, m: Graph)
    requires !Cyclic(bugs) && HoldsClosures(bugs, groups) && IsHierarchy(groups, target, m)
    ensures !Cyclic(m)
  {
    forall n ensures !Reaches(m, n, n) {
      if p :| |p| >= 2 && WalkFromTo(m, p, n, n) {
        StoredWalk(bugs, groups, target, m, p);
        assert false;
      }
    }
  }

  lemma {:induction false} VisitedIsUpstream(bugs: Graph, groups: Graph, target: string, k: string)
    requires HoldsClosures(bugs, groups) && Visited(groups, target, k)
    ensures k == target || Reaches(bugs, target, k)
  {
    ClosureReaches(bugs, groups, target, k);
  }

  /** Above every id with upstreams there is one without. */
  lemma {:induction false} TopAbove(bugs: Graph, groups: Graph, u: string) returns (top: string)
    requires !Cyclic(bugs) && HoldsClosures(bugs, groups) && Succ(groups, u) != {}
    ensures top in Succ(groups, u) && Succ(groups, top) == {}
    decreases Succ(groups, u)
  {
    var v :| v in Succ(groups, u);
    if Succ(groups, v) == {} {
      top := v;
    } else {
      forall x | x in Succ(groups, v) ensures x in Succ(groups, u) { ReachesTransitive(bugs, u, v, x); }
      assert v !in Succ(groups, v);
      top := TopAbove(bugs, groups, v);
    }
  }

  // ----- what is printed from it

  /** A root of the page with a path down to x that does not pass the target. */
  ghost predicate Shown(m: Graph, reversed: Graph, target: string, x: string) {
    x != target && exists r :: r in AllChildren(m) - m.Keys && Avoiding(reversed, target, r, x)
  }

  /** A child on the page is an id whose entry holds its parent. */
  lemma {:induction false} EdgesAreEntries(m: Graph, reversed: Graph, a: string, b: string)
    requires IsReverse(m, reversed)
    ensures b in Succ(reversed, a) <==> b in m && a in m[b]
  {
    assert b in Succ(reversed, a) <==> a in Succ(m, b);
  }

  /** An id is an upstream if it has an entry that is not the target's, or is in an entry. */
  lemma {:induction false} EntryIsUpstream(bugs: Graph, groups: Graph, target: string, m: Graph, x: string)
    requires HoldsClosures(bugs, groups) && IsHierarchy(groups, target, m)
    requires (x in m && x != target) || x in AllChildren(m)
    ensures Reaches(bugs, target, x)
  {
    if x in m && x != target {
      VisitedIsUpstream(bugs, groups, target, x);
    } else {
      var k :| k in m && x in m[k];
      VisitedIsUpstream(bugs, groups, target, k);
      assert x in Succ(groups, k);
      if k != target { ReachesTransitive(bugs, target, k, x); }
    }
  }

  lemma {:induction false} ShownHasEntry(m: Graph, reversed: Graph, target: string, x: string)
    requires IsReverse(m, reversed) && Shown(m, reversed, target, x)
    ensures x in m || x in AllChildren(m)
  {
    var r :| r in AllChildren(m) - m.Keys && Avoiding(reversed, target, r, x);
    var p :| WalkFromTo(reversed, p, r, x) && forall i :: 1 <= i < |p| ==> p[i] != target;
    if |p| > 1 {
      assert p[|p| - 2 + 1] in Succ(reversed, p[|p| - 2]);
      EdgesAreEntries(m, reversed, p[|p| - 2], x);
    }
  }

  lemma {:induction false} RootIsShown(m: Graph, reversed: Graph, target: string, x: string)
    requires x in AllChildren(m) - m.Keys && x != target
    ensures Shown(m, reversed, target, x)
  {
    assert WalkFromTo(reversed, [x], x, x);
    assert Avoiding(reversed, target, x, x);
  }

  lemma {:induction false} BelowRootIsShown(m: Graph, reversed: Graph, target: string, top: string, x: string)
    requires IsReverse(m, reversed) && x in m && top in m[x] && top !in m && x != target
    ensures Shown(m, reversed, target, x)
  {
    EdgesAreEntries(m, reversed, top, x);
    assert WalkFromTo(reversed, [top, x], top, x);
    assert Avoiding(reversed, target, top, x);
    assert top in AllChildren(m) - m.Keys;
  }

  lemma {:induction false} UpstreamIsShown(bugs: Graph, groups: Graph, target: string, m: Graph, reversed: Graph,
        x: string)
    requires !Cyclic(bugs) && HoldsClosures(bugs, groups) && IsHierarchy(groups, target, m) && IsReverse(m, reversed)
    requires Reaches(bugs, target, x)
    ensures Shown(m, reversed, target, x)
  {
    assert x != target;
    ClosureReaches(bugs, groups, target, x);
    if Succ(groups, x) == {} {
      AcyclicHierarchyIsLossless(bugs, groups, target, m);
      var k := LastStep(m, target, x);
      assert k in m && x in m[k];
      RootIsShown(m, reversed, target, x);
    } else {
      var top := TopAbove(bugs, groups, x);
      assert x in m && m[x] == Succ(groups, x);
      BelowRootIsShown(m, reversed, target, top, x);
    }
  }

  /** A linked line for an id that is not known, or the other way round. */
  predicate Mislinked(lines: seq<Line>, x: string, known: set<string>) { Item(x, x !in known) in lines }

  /** The page of a current hierarchy, on an acyclic relation: it shows exactly the transitive
      upstreams of the target, each linked exactly if it is known, in balanced lists; and there is no
      page exactly if there are none. */
  method PrintStored(target: string, m: Graph, known: set<string>, ghost groups: Graph, ghost bugs: Graph)
    returns (lines: Option<seq<Line>>)
    requires !Cyclic(bugs) && HoldsClosures(bugs, groups) && IsHierarchy(groups, target, m)
    ensures ShowsUpstreams(lines, bugs, target, known)
  {
    StoredIsAcyclic(bugs, groups, target, m);
    NothingStored(bugs, groups, target, m);
    lines := ConstructHierarchy(m, target, known);
    if lines.Some? {
      ghost var roots := SortedOf(AllChildren(m) - m.Keys);
      ghost var reversed :|
        IsReverse(m, reversed) && !Cyclic(reversed) && lines.value == Roots(reversed, target, known, roots);
      forall x
        ensures Prints(lines.value, x, known) <==> Reaches(bugs, target, x)
        ensures !Mislinked(lines.value, x, known) && DepthAfter(lines.value, 0) == Some(0)
      {
        RootsPrintReachable(reversed, target, known, roots, x);
        ShownByRoots(m, reversed, target, roots, x);
        if Shown(m, reversed, target, x) {
          ShownHasEntry(m, reversed, target, x);
          EntryIsUpstream(bugs, groups, target, m, x);
        }
        if Reaches(bugs, target, x) { UpstreamIsShown(bugs, groups, target, m, reversed, x); }
      }
    }
  }

  ghost predicate ShowsUpstreams(lines: Option<seq<Line>>, bugs: Graph, target: string, known: set<string>) {
    && (lines.None? <==> forall x :: !Reaches(bugs, target, x))
    && (lines.Some? ==> forall x :: Prints(lines.value, x, known) <==> Reaches(bugs, target, x))
    && (lines.Some? ==> (forall x :: !Mislinked(lines.value, x, known)) && DepthAfter(lines.value, 0) == Some(0))
  }

  lemma {:induction false} ShownByRoots(m: Graph, reversed: Graph, target: string, roots: seq<string>, x: string)
    requires Elements(roots) == AllChildren(m) - m.Keys
    ensures Shown(m, reversed, target, x) <==> x != target && exists r :: r in roots && Avoiding(reversed, target, r, x)
  {
    assert forall r :: r in roots <==> r in Elements(roots);
  }

  lemma {:induction false} NothingStored(bugs: Graph, groups: Graph, target: string, m: Graph)
    requires HoldsClosures(bugs, groups) && IsHierarchy(groups, target, m)
    ensures m == map[] <==> forall x :: !Reaches(bugs, target, x)
  {
    if m != map[] {
      var k :| k in m;
      var x :| x in Succ(groups, k);
      VisitedIsUpstream(bugs, groups, target, k);
      if k != target { ReachesTransitive(bugs, target, k, x); }
    }
    if x :| Reaches(bugs, target, x) {
      assert x in Succ(groups, target) && target in m;
    }
  }
}
