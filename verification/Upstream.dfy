/** Upstream relations: the transitive closure of a vulnerability's upstreams and the
    reduced hierarchy that is stored for display. */
module Upstream {
  import opened Graphs
  import opened StringSets

  // ----- transitive upstreams

  /** One of `sources`, or reachable from one. */
  ghost predicate ReachedFrom(g: Graph, sources: set<string>, x: string) {
    x in sources || exists s :: s in sources && Reaches(g, s, x)
  }

  lemma {:induction false} ReachedStep(g: Graph, sources: set<string>, x: string, y: string)
    requires ReachedFrom(g, sources, x) && y in Succ(g, x)
    ensures ReachedFrom(g, sources, y)
  {
    EdgeReaches(g, x, y);
    if x !in sources {
      var s :| s in sources && Reaches(g, s, x);
      ReachesTransitive(g, s, x, y);
    }
  }

  /** A set that holds the sources and its own successors holds all that is reached. */
  lemma {:induction false} ClosedHoldsReached(g: Graph, closed: set<string>, a: string, x: string)
    requires a in closed && Reaches(g, a, x)
    requires forall v :: v in closed ==> Succ(g, v) <= closed
    ensures x in closed
  {
    var p :| |p| >= 2 && WalkFromTo(g, p, a, x);
    for i := 1 to |p|
      invariant p[i - 1] in closed
    {
      assert p[i - 1 + 1] in Succ(g, p[i - 1]);
    }
  }

  /** compute_upstream: the sorted list of exactly the ids reached in one or more steps. */
  method ComputeUpstream(target: set<string>, bugs: Graph) returns (ids: seq<string>)
    ensures Ascending(ids) && forall x :: x in Elements(ids) <==> ReachedFrom(bugs, target, x)
  {
    if target == {} { return []; }
    var visited: set<string> := {};
    var toVisit := target;
    ghost var universe := AllNodes(bugs) + target;
    while toVisit != {}
      invariant visited + toVisit <= universe && target <= visited + toVisit
      invariant forall x :: x in visited + toVisit ==> ReachedFrom(bugs, target, x)
      invariant forall v :: v in visited ==> Succ(bugs, v) <= visited + toVisit
      decreases universe - visited, toVisit
    {
      var id :| id in toVisit;
      toVisit := toVisit - {id};
      if id in visited { continue; }
      ghost var before := universe - visited;
      visited := visited + {id};
      assert universe - visited == before - {id};
      var upstreams := Succ(bugs, id);
      SuccInAll(bugs, id);
      forall y | y in upstreams ensures ReachedFrom(bugs, target, y) { ReachedStep(bugs, target, id, y); }
      toVisit := toVisit + (upstreams - visited);
    }
    forall x | ReachedFrom(bugs, target, x) ensures x in visited {
      if x !in target {
        var s :| s in target && Reaches(bugs, s, x);
        ClosedHoldsReached(bugs, visited, s, x);
      }
    }
    ids := SortSet(visited);
  }

  // ----- the hierarchy

  /** The ids the breadth-first search visits: the target and what it reaches. */
  ghost predicate Visited(groups: Graph, target: string, k: string) { k == target || Reaches(groups, target, k) }

  /** The map before pruning: the groups of the visited ids that have upstreams. */
  ghost predicate IsCollected(groups: Graph, target: string, m: Graph) {
    && (forall k :: k in m <==> Visited(groups, target, k) && Succ(groups, k) != {})
    && (forall k :: k in m ==> m[k] == Succ(groups, k))
  }

  /** The stored map: the target keeps what no other entry holds. */
  ghost predicate IsHierarchy(groups: Graph, target: string, m: Graph) {
    && (forall k :: k in m <==> Visited(groups, target, k) && Succ(groups, k) != {})
    && (forall k :: k in m && k != target ==> m[k] == Succ(groups, k))
    && (target in m ==> forall u :: u in m[target] <==>
          u in Succ(groups, target) && !exists k :: k in m && k != target && u in Succ(groups, k))
  }

  /** The loop over one id's upstreams. Ids seen before are entered in the map, which the
      assignment after the loop overwrites. */
  method VisitUpstreams(id: string, upstreams: set<string>, visited: set<string>, toVisit: set<string>, m: Graph)
    returns (toVisit': set<string>, m': Graph)
    ensures toVisit' == toVisit + (upstreams - visited)
    ensures m' == m[id := upstreams]
  {
    toVisit', m' := toVisit, m;
    var todo := upstreams;
    while todo != {}
      invariant todo <= upstreams
      invariant toVisit <= toVisit' <= toVisit + (upstreams - visited)
      invariant m' - {id} == m - {id}
      decreases todo
    {
      var u :| u in todo;
      todo := todo - {u};
      if u !in visited && u !in toVisit' {
        toVisit' := toVisit' + {u};
      } else if id !in m' {
        m' := m'[id := {u}];
      } else {
        m' := m'[id := m'[id] + {u}];
      }
    }
    ghost var before := m';
    m' := m'[id := upstreams];
    toVisit' := toVisit' + (upstreams - visited);
    forall k | k in m && k != id ensures k in m' && m'[k] == m[k] {
      assert k in m - {id} && (m - {id})[k] == (before - {id})[k];
    }
    forall k | k in m' && k != id ensures k in m {
      assert k in before - {id};
    }
  }

  /** The breadth-first search of compute_upstream_hierarchy. */
  method CollectGroups(target: string, groups: Graph) returns (m: Graph)
    ensures IsCollected(groups, target, m)
  {
    m := map[];
    var visited: set<string> := {};
    var toVisit := {target};
    ghost var universe := AllNodes(groups) + {target};
    while toVisit != {}
      invariant visited + toVisit <= universe && target in visited + toVisit
      invariant forall x :: x in visited + toVisit ==> Visited(groups, target, x)
      invariant forall v :: v in visited ==> Succ(groups, v) <= visited + toVisit
      invariant forall k :: k in m <==> k in visited && Succ(groups, k) != {}
      invariant forall k :: k in m ==> m[k] == Succ(groups, k)
      decreases universe - visited, toVisit
    {
      var id :| id in toVisit;
      toVisit := toVisit - {id};
      if id in visited { continue; }
      ghost var before := universe - visited;
      visited := visited + {id};
      assert universe - visited == before - {id};
      if id !in groups { continue; }
      var upstreams := groups[id];
      if upstreams == {} { continue; }
      SuccInAll(groups, id);
      forall y | y in upstreams ensures Visited(groups, target, y) {
        EdgeReaches(groups, id, y);
        if id != target { ReachesTransitive(groups, target, id, y); }
      }
      toVisit, m := VisitUpstreams(id, upstreams, visited, toVisit, m);
    }
    forall x | Visited(groups, target, x) ensures x in visited {
      if x != target { ClosedHoldsReached(groups, visited, target, x); }
    }
  }

  /** compute_upstream_hierarchy: collect, then prune the target's own entry. */
  method ComputeHierarchy(target: string, groups: Graph) returns (m: Graph)
    ensures IsHierarchy(groups, target, m)
  {
    m := CollectGroups(target, groups);
    ghost var collected := m;
    var todo := m.Keys;
    while todo != {}
      invariant todo <= m.Keys == collected.Keys
      invariant forall k :: k in m && k != target ==> m[k] == collected[k]
      invariant target in m ==> forall u :: u in m[target] <==>
        u in collected[target] && !exists k :: k in collected.Keys - todo && k != target && u in collected[k]
      decreases todo
    {
      var k :| k in todo;
      todo := todo - {k};
      if k == target { continue; }
      TargetIsCollected(groups, target, collected, k);
      ghost var was := m[target];
      m := m[target := m[target] - m[k]];
      forall u
        ensures u in m[target] <==>
          u in collected[target] && !exists j :: j in collected.Keys - todo && j != target && u in collected[j]
      {
        assert u in m[target] <==> u in was && u !in collected[k];
      }
    }
  }

  /** If anything was collected, the target was: it is where the search starts. */
  lemma {:induction false} TargetIsCollected(groups: Graph, target: string, m: Graph, k: string)
    requires IsCollected(groups, target, m) && k in m
    ensures target in m
  {
    if k != target {
      var b := FirstStep(groups, target, k);
    }
  }

  // ----- the hierarchy is a lossless reduction

  /** The groups hold the transitive upstreams of every id. */
  ghost predicate HoldsClosures(bugs: Graph, groups: Graph) {
    forall a, b :: b in Succ(groups, a) <==> Reaches(bugs, a, b)
  }

  lemma {:induction false} ClosureReaches(bugs: Graph, groups: Graph, a: string, b: string)
    requires HoldsClosures(bugs, groups)
    ensures Reaches(groups, a, b) <==> b in Succ(groups, a)
  {
    if b in Succ(groups, a) { EdgeReaches(groups, a, b); }
    if p :| |p| >= 2 && WalkFromTo(groups, p, a, b) { ClosureWalk(bugs, groups, p); }
  }

  lemma {:induction false} ClosureWalk(bugs: Graph, groups: Graph, p: seq<string>)
    requires HoldsClosures(bugs, groups) && IsWalk(groups, p) && |p| >= 2
    ensures p[|p| - 1] in Succ(groups, p[0])
  {
    assert p[0 + 1] in Succ(groups, p[0]);
    if |p| > 2 {
      var q := p[1..];
      forall i | 0 <= i < |q| - 1 ensures q[i + 1] in Succ(groups,
        q[i]) { assert p[i + 1 + 1] in Succ(groups, p[i + 1]); }
      ClosureWalk(bugs, groups, q);
      ReachesTransitive(bugs, p[0], p[1], p[|p| - 1]);
    }
  }

  /** The direct upstreams the target keeps, in terms of the relation. */
  ghost predicate Kept(groups: Graph, target: string, u: string) {
    u in Succ(groups, target) && !exists k :: k in Succ(groups, target) && k != target && u in Succ(groups, k)
  }

  lemma {:induction false} HierarchyInRelation(bugs: Graph, groups: Graph, target: string, m: Graph)
    requires HoldsClosures(bugs, groups) && IsHierarchy(groups, target, m)
    ensures forall u :: u in Succ(m, target) <==> Kept(groups, target, u)
    ensures forall k, u :: k != target && k in Succ(groups, target) ==> (u in Succ(m, k) <==> u in Succ(groups, k))
  {
    forall k ensures Visited(groups, target, k) <==> k == target || k in Succ(groups, target) {
      ClosureReaches(bugs, groups, target, k);
    }
    forall u ensures u in Succ(m, target) <==> Kept(groups, target, u) {
      if k :| k in Succ(groups, target) && k != target && u in Succ(groups, k) { assert k in m; }
      if target in m {
        if k :| k in m && k != target && u in Succ(groups, k) { assert k in Succ(groups, target); }
      }
    }
  }

  /** No kept upstream is reachable from another kept one. */
  lemma {:induction false} KeptAreIndependent(bugs: Graph, groups: Graph, target: string, m: Graph, a: string,
        b: string)
    requires HoldsClosures(bugs, groups) && IsHierarchy(groups, target, m)
    requires a in Succ(m, target) && b in Succ(m, target) && a != target
    ensures !Reaches(bugs, a, b)
  {
    HierarchyInRelation(bugs, groups, target, m);
    assert Kept(groups, target, a) && Kept(groups, target, b);
  }

  /** The pruned map reaches an upstream exactly if it is kept or lies below a kept one. */
  lemma {:induction false} PrunedReach(bugs: Graph, groups: Graph, target: string, m: Graph, u: string)
    requires HoldsClosures(bugs, groups) && IsHierarchy(groups, target, m)
    ensures Reaches(m, target, u) <==>
            Kept(groups, target, u) || exists k :: Kept(groups, target, k) && k != target && u in Succ(groups, k)
  {
    HierarchyInRelation(bugs, groups, target, m);
    if Kept(groups, target, u) { EdgeReaches(m, target, u); }
    if k :| Kept(groups, target, k) && k != target && u in Succ(groups, k) {
      EdgeReaches(m, target, k);
      EdgeReaches(m, k, u);
      ReachesTransitive(m, target, k, u);
    }
    if p :| |p| >= 2 && WalkFromTo(m, p, target, u) { PrunedWalk(bugs, groups, target, m, p); }
  }

  lemma {:induction false} PrunedWalk(bugs: Graph, groups: Graph, target: string, m: Graph, p: seq<string>)
    requires HoldsClosures(bugs, groups) && IsHierarchy(groups, target, m)
    requires |p| >= 2 && IsWalk(m, p) && p[0] == target
    ensures var u := p[|p| - 1];
            Kept(groups, target, u) || exists k :: Kept(groups, target, k) && k != target && u in Succ(groups, k)
  {
    HierarchyInRelation(bugs, groups, target, m);
    var n := |p| - 1;
    var v, u := p[n - 1], p[n];
    assert p[n - 1 + 1] in Succ(m, p[n - 1]);
    if v != target {
      assert n > 1;
      var q := p[..n];
      forall i | 0 <= i < |q| - 1 ensures q[i + 1] in Succ(m, q[i]) { assert p[i + 1] in Succ(m, p[i]); }
      PrunedWalk(bugs, groups, target, m, q);
      assert v in Succ(groups, target) by {
        if k :| Kept(groups, target, k) && k != target && v in Succ(groups, k) {
          ReachesTransitive(bugs, target, k, v);
        }
      }
      if k :| Kept(groups, target, k) && k != target && v in Succ(groups, k) {
        ReachesTransitive(bugs, k, v, u);
      }
    }
  }

  /** Every upstream on a cycle lies below an upstream that is not on one. */
  ghost predicate CyclesAreCovered(groups: Graph, target: string) {
    forall u :: u in Succ(groups, target) && u != target && u in Succ(groups, u) ==> HasAcyclicAbove(groups, target, u)
  }

  ghost predicate AcyclicAbove(groups: Graph, target: string, u: string, k: string) {
    k in Succ(groups, target) && k != target && k !in Succ(groups, k) && u in Succ(groups, k)
  }

  ghost predicate HasAcyclicAbove(groups: Graph, target: string, u: string) {
    exists k :: AcyclicAbove(groups, target, u, k)
  }

  ghost predicate Lossless(bugs: Graph, target: string, m: Graph) {
    forall u :: Reaches(bugs, target, u) <==> Reaches(m, target, u)
  }

  ghost function AcyclicAncestors(groups: Graph, target: string, u: string): set<string> {
    set k | k in Succ(groups, target) && AcyclicAbove(groups, target, u, k)
  }

  /** Going up through acyclic ancestors ends at a kept one. */
  lemma {:induction false} TopAncestorIsKept(bugs: Graph, groups: Graph, target: string, u: string, k: string)
    returns (top: string)
    requires HoldsClosures(bugs, groups) && CyclesAreCovered(groups, target) && AcyclicAbove(groups, target, u, k)
    ensures Kept(groups, target, top) && top != target && u in Succ(groups, top)
    decreases AcyclicAncestors(groups, target, k)
  {
    if Kept(groups, target, k) {
      top := k;
    } else {
      var j :| j in Succ(groups, target) && j != target && k in Succ(groups, j);
      if j in Succ(groups, j) {
        var i :| AcyclicAbove(groups, target, j, i);
        ReachesTransitive(bugs, i, j, k);
        top := Climb(bugs, groups, target, u, k, i);
      } else {
        top := Climb(bugs, groups, target, u, k, j);
      }
    }
  }

  lemma {:induction false} Climb(bugs: Graph, groups: Graph, target: string, u: string, k: string, j: string)
    returns (top: string)
    requires HoldsClosures(bugs, groups) && CyclesAreCovered(groups, target)
    requires AcyclicAbove(groups, target, u, k) && AcyclicAbove(groups, target, k, j)
    ensures Kept(groups, target, top) && top != target && u in Succ(groups, top)
    decreases AcyclicAncestors(groups, target, k), 0
  {
    ReachesTransitive(bugs, j, k, u);
    assert AcyclicAncestors(groups, target, j) < AcyclicAncestors(groups, target, k) by {
      forall i | i in AcyclicAncestors(groups, target, j) ensures i in AcyclicAncestors(groups, target, k) {
        ReachesTransitive(bugs, i, j, k);
      }
      assert j in AcyclicAncestors(groups, target, k) && j !in AcyclicAncestors(groups, target, j);
    }
    top := TopAncestorIsKept(bugs, groups, target, u, j);
  }

  /** The reduced hierarchy is lossless exactly if every cycle among the upstreams is below
      an upstream that is not on a cycle. */
  lemma {:induction false} LosslessExactly(bugs: Graph, groups: Graph, target: string, m: Graph)
    requires HoldsClosures(bugs, groups) && IsHierarchy(groups, target, m)
    ensures Lossless(bugs, target, m) <==> CyclesAreCovered(groups, target)
  {
    if Lossless(bugs, target, m) {
      forall u | u in Succ(groups, target) && u != target && u in Succ(groups, u)
        ensures HasAcyclicAbove(groups, target, u)
      {
        PrunedReach(bugs, groups, target, m, u);
        assert !Kept(groups, target, u);
        var k :| Kept(groups, target, k) && k != target && u in Succ(groups, k);
        assert AcyclicAbove(groups, target, u, k);
      }
    }
    if CyclesAreCovered(groups, target) {
      forall u ensures Reaches(bugs, target, u) <==> Reaches(m, target, u) {
        PrunedReach(bugs, groups, target, m, u);
        CoveredIsReached(bugs, groups, target, u);
        if k :| Kept(groups, target, k) && k != target && u in Succ(groups, k) {
          ReachesTransitive(bugs, target, k, u);
        }
      }
    }
  }

  lemma {:induction false} CoveredIsReached(bugs: Graph, groups: Graph, target: string, u: string)
    requires HoldsClosures(bugs, groups) && CyclesAreCovered(groups, target)
    ensures u in Succ(groups, target) ==>
            Kept(groups, target, u) || exists k :: Kept(groups, target, k) && k != target && u in Succ(groups, k)
  {
    if u in Succ(groups, target) && !Kept(groups, target, u) {
      var k :| k in Succ(groups, target) && k != target && u in Succ(groups, k);
      if k in Succ(groups, k) {
        var i :| AcyclicAbove(groups, target, k, i);
        ReachesTransitive(bugs, i, k, u);
        var top := TopAncestorIsKept(bugs, groups, target, u, i);
      } else {
        var top := TopAncestorIsKept(bugs, groups, target, u, k);
      }
    }
  }

  /** On an acyclic relation the stored hierarchy still reaches every transitive upstream,
      and keeps no direct upstream that another kept one reaches. */
  lemma {:induction false} AcyclicHierarchyIsLossless(bugs: Graph, groups: Graph, target: string, m: Graph)
    requires !Cyclic(bugs) && HoldsClosures(bugs, groups) && IsHierarchy(groups, target, m)
    ensures Lossless(bugs, target, m)
    ensures forall a, b :: a in Succ(m, target) && b in Succ(m, target) ==> !Reaches(bugs, a, b)
  {
    LosslessExactly(bugs, groups, target, m);
    forall a, b | a in Succ(m, target) && b in Succ(m, target) ensures !Reaches(bugs, a, b) {
      HierarchyInRelation(bugs, groups, target, m);
      assert Kept(groups, target, a);
      KeptAreIndependent(bugs, groups, target, m, a, b);
    }
  }

  /** Two upstreams above each other, and nothing else above the target: the hierarchy loses both. */
  lemma {:induction false} LoopIsLost(bugs: Graph, groups: Graph, target: string, m: Graph, a: string, b: string)
    requires HoldsClosures(bugs, groups) && IsHierarchy(groups, target, m)
    requires bugs == map[target := {a}, a := {b}, b := {a}] && target != a && target != b && a != b
    ensures Reaches(bugs, target, a) && Reaches(bugs, target, b) && forall u :: !Reaches(m, target, u)
  {
    EdgeReaches(bugs, target, a);
    EdgeReaches(bugs, a, b);
    EdgeReaches(bugs, b, a);
    ReachesTransitive(bugs, target, a, b);
    ReachesTransitive(bugs, a, b, a);
    ReachesTransitive(bugs, b, a, b);
    forall u ensures !Kept(groups, target, u) { LoopKeepsNothing(bugs, groups, target, a, b, u); }
    forall u ensures !Reaches(m, target, u) { PrunedReach(bugs, groups, target, m, u); }
  }

  lemma {:induction false} LoopKeepsNothing(bugs: Graph, groups: Graph, target: string, a: string, b: string, u: string)
    requires HoldsClosures(bugs, groups)
    requires bugs == map[target := {a}, a := {b}, b := {a}] && target != a && target != b && a != b
    requires Reaches(bugs, a, a) && Reaches(bugs, b, b) && Reaches(bugs, target, a) && Reaches(bugs, target, b)
    ensures !Kept(groups, target, u)
  {
    if u in Succ(groups, target) && u != a && u != b {
      ClosedHoldsReached(bugs, {target, a, b}, target, u);
      var v := LastStep(bugs, target, u);
    }
  }
}
