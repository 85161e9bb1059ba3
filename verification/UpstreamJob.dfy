/** The run of the upstream job: which stored groups it writes, which hierarchies it recomputes, and
    exactly which ones it leaves behind. */
module UpstreamJob {
  import opened Graphs
  import opened Strings
  import opened StringSets
  import opened Ecosystems
  import opened Hierarchy
  import opened Upstream
  import UpstreamPage

  /** UpstreamGroup: the sorted transitive upstreams, and the hierarchy as a map, empty for none. */
  datatype Group = Group(upstreamIds: seq<string>, hierarchy: Graph)

  type Groups = map<string, Group>

  function Ids(groups: Groups): Graph { map k | k in groups :: Elements(groups[k].upstreamIds) }

  /** Everything above an id in the relation of the bugs. */
  ghost function Upstreams(bugs: Graph, id: string): set<string> { set x | x in AllNodes(bugs) && Reaches(bugs, id, x) }

  lemma {:induction false} UpstreamsAre(bugs: Graph, id: string, x: string)
    ensures x in Upstreams(bugs, id) <==> Reaches(bugs, id, x)
  {
    if Reaches(bugs, id, x) {
      var b := LastStep(bugs, id, x);
      SuccInAll(bugs, b);
    }
  }

  lemma {:induction false} FromRawUpstreams(bugs: Graph, id: string, x: string)
    ensures ReachedFrom(bugs, Succ(bugs, id), x) <==> Reaches(bugs, id, x)
  {
    if x in Succ(bugs, id) { EdgeReaches(bugs, id, x); }
    if s :| s in Succ(bugs, id) && Reaches(bugs, s, x) {
      EdgeReaches(bugs, id, s);
      ReachesTransitive(bugs, id, s, x);
    }
    if Reaches(bugs, id, x) { var b := FirstStep(bugs, id, x); }
  }

  lemma {:induction false} ComputedAre(bugs: Graph, id: string, ids: seq<string>)
    requires Ascending(ids) && forall x :: x in Elements(ids) <==> ReachedFrom(bugs, Succ(bugs, id), x)
    ensures ids == SortedOf(Upstreams(bugs, id))
  {
    forall x ensures x in Elements(ids) <==> x in Upstreams(bugs, id) {
      FromRawUpstreams(bugs, id, x);
      UpstreamsAre(bugs, id, x);
    }
    SortedUnique(ids, SortedOf(Upstreams(bugs, id)));
  }

  // ----- what a run does

  /** The run writes the group of a bug that had none, or whose upstreams are not those stored. */
  ghost predicate Writes(before: Groups, bugs: Graph, k: string) {
    k in bugs && (k !in before || before[k].upstreamIds != SortedOf(Upstreams(bugs, k)))
  }

  /** The groups once those of the bugs in `done` have been compared. */
  ghost predicate Compared(before: Groups, bugs: Graph, done: set<string>, groups: Groups, updated: set<string>) {
    && groups.Keys == before.Keys + done
    && (forall k :: k in updated <==> k in done && Writes(before, bugs, k))
    && (forall k :: k in groups && k !in updated ==> k in before && groups[k] == before[k])
    && (forall k :: k in done ==> groups[k].upstreamIds == SortedOf(Upstreams(bugs, k)))
  }

  ghost predicate IsCurrent(groups: Groups, k: string) {
    k in groups && IsHierarchy(Ids(groups), k, groups[k].hierarchy)
  }

  /** The hierarchies of the groups in `rest` are still to be recomputed. */
  ghost predicate Recomputed(between: Groups, updated: set<string>, rest: set<string>, groups: Groups) {
    && groups.Keys == between.Keys && Ids(groups) == Ids(between)
    && (forall k :: k in groups ==> groups[k].upstreamIds == between[k].upstreamIds)
    && (forall k :: k in groups && (k !in updated || k in rest) ==> groups[k] == between[k])
    && (forall k :: k in updated && k !in rest ==> IsCurrent(groups, k))
  }

  /** The store after a run. */
  ghost predicate AfterRun(before: Groups, bugs: Graph, after: Groups) {
    && after.Keys == before.Keys + bugs.Keys
    && (forall k :: k in bugs ==> after[k].upstreamIds == SortedOf(Upstreams(bugs, k)))
    && (forall k :: k in after && !Writes(before, bugs, k) ==> k in before && after[k] == before[k])
    && (forall k :: Writes(before, bugs, k) ==> IsCurrent(after, k))
  }

  class Job {
    var groups: Groups

    constructor (groups: Groups)
      ensures this.groups == groups
    {
      this.groups := groups;
    }

    /** _update_group: whether it changed the group. */
    method UpdateGroup(id: string, upstreamIds: seq<string>) returns (changed: bool)
      requires id in groups
      modifies this
      ensures changed <==> upstreamIds != [] && upstreamIds != old(groups[id].upstreamIds)
      ensures groups == if upstreamIds == [] then old(groups) - {id}
                        else if changed then old(groups)[id := old(groups[id]).(upstreamIds := upstreamIds)]
                        else old(groups)
    {
      if |upstreamIds| == 0 {
        groups := groups - {id};
        return false;
      }
      if upstreamIds == groups[id].upstreamIds { return false; }
      groups := groups[id := groups[id].(upstreamIds := upstreamIds)];
      return true;
    }

    /** One round of the first loop. */
    method CompareGroup(id: string, bugs: Graph, ghost before: Groups, ghost done: set<string>, updated: set<string>)
      returns (updated': set<string>)
      requires id in bugs && bugs[id] != {} && id !in done && Compared(before, bugs, done, groups, updated)
      modifies this
      ensures Compared(before, bugs, done + {id}, groups, updated')
    {
      var upstreamIds := ComputeUpstream(bugs[id], bugs);
      ComputedAre(bugs, id, upstreamIds);
      NotEmpty(bugs, id, upstreamIds);
      updated' := updated;
      if id in groups {
        if upstreamIds == groups[id].upstreamIds { return; }
        var changed := UpdateGroup(id, upstreamIds);
        if !changed { return; }
      } else {
        groups := groups[id := Group(upstreamIds, map[])];
      }
      updated' := updated + {id};
    }

    /** The first loop: the bugs, in any order. */
    method CompareGroups(bugs: Graph) returns (updated: set<string>)
      requires forall b :: b in bugs ==> bugs[b] != {}
      modifies this
      ensures Compared(old(groups), bugs, bugs.Keys, groups, updated)
    {
      updated := {};
      var rest := bugs.Keys;
      while rest != {}
        invariant rest <= bugs.Keys && Compared(old(groups), bugs, bugs.Keys - rest, groups, updated)
        decreases rest
      {
        var id :| id in rest;
        updated := CompareGroup(id, bugs, old(groups), bugs.Keys - rest, updated);
        assert bugs.Keys - (rest - {id}) == bugs.Keys - rest + {id};
        rest := rest - {id};
      }
    }

    /** compute_upstream_hierarchy of one written group. */
    method RecomputeHierarchy(id: string)
      requires id in groups && groups[id].upstreamIds != []
      modifies this
      ensures groups.Keys == old(groups).Keys && Ids(groups) == Ids(old(groups)) && IsCurrent(groups, id)
      ensures groups - {id} == old(groups) - {id} && groups[id].upstreamIds == old(groups)[id].upstreamIds
    {
      var m := ComputeHierarchy(id, Ids(groups));
      assert groups[id].upstreamIds[0] in Ids(groups)[id];
      assert id in m;
      if m != map[] {
        ghost var was := groups;
        groups := groups[id := groups[id].(hierarchy := m)];
        assert Ids(groups) == Ids(was);
      }
    }

    /** The second loop: the written groups. */
    method RecomputeHierarchies(updated: set<string>)
      requires forall k :: k in updated ==> k in groups && groups[k].upstreamIds != []
      modifies this
      ensures Recomputed(old(groups), updated, {}, groups)
    {
      var rest := updated;
      while rest != {}
        invariant rest <= updated && Recomputed(old(groups), updated, rest, groups)
        decreases rest
      {
        var id :| id in rest;
        rest := rest - {id};
        ghost var was := groups;
        RecomputeHierarchy(id);
        OneMoreCurrent(old(groups), updated, rest, was, groups, id);
      }
    }

    /** run(). */
    method Run(bugs: Graph)
      requires forall b :: b in bugs ==> bugs[b] != {}
      modifies this
      ensures AfterRun(old(groups), bugs, groups)
    {
      var updated := CompareGroups(bugs);
      ghost var between := groups;
      forall k | k in updated ensures groups[k].upstreamIds != [] { NotEmpty(bugs, k, groups[k].upstreamIds); }
      RecomputeHierarchies(updated);
      RunIsComplete(old(groups), bugs, between, updated, groups);
    }
  }

  lemma {:induction false} NotEmpty(bugs: Graph, id: string, ids: seq<string>)
    requires id in bugs && bugs[id] != {} && ids == SortedOf(Upstreams(bugs, id))
    ensures ids != []
  {
    var x :| x in bugs[id];
    EdgeReaches(bugs, id, x);
    UpstreamsAre(bugs, id, x);
    assert x in Elements(ids);
  }

  lemma {:induction false} OneMoreCurrent(between: Groups, updated: set<string>, rest: set<string>, was: Groups,
        groups: Groups, id: string)
    requires id in updated && id !in rest && Recomputed(between, updated, rest + {id}, was)
    requires id in was && groups.Keys == was.Keys && Ids(groups) == Ids(was) && IsCurrent(groups, id)
    requires groups - {id} == was - {id} && groups[id].upstreamIds == was[id].upstreamIds
    ensures Recomputed(between, updated, rest, groups)
  {
    forall k | k in groups && k != id ensures groups[k] == was[k] {
      assert (groups - {id})[k] == (was - {id})[k];
    }
  }

  lemma {:induction false} RunIsComplete(before: Groups, bugs: Graph, between: Groups, updated: set<string>,
        after: Groups)
    requires Compared(before, bugs, bugs.Keys, between, updated) && Recomputed(between, updated, {}, after)
    ensures AfterRun(before, bugs, after)
  {
    forall k | Writes(before, bugs, k) ensures IsCurrent(after, k) { assert k in updated; }
  }

  // ----- which hierarchies a run leaves behind

  ghost predicate SortedLists(groups: Groups) { forall k :: k in groups ==> Ascending(groups[k].upstreamIds) }

  /** The run leaves the upstreams of an id as they were stored exactly if it does not write its group. */
  lemma {:induction false} SameUnlessWritten(before: Groups, bugs: Graph, after: Groups, u: string)
    requires AfterRun(before, bugs, after) && SortedLists(before) && forall b :: b in bugs ==> bugs[b] != {}
    ensures Succ(Ids(before), u) == Succ(Ids(after), u) <==> !Writes(before, bugs, u)
  {
    if Writes(before, bugs, u) {
      NotEmpty(bugs, u, after[u].upstreamIds);
      HeadIsElement(after[u].upstreamIds);
      if u in before && Elements(before[u].upstreamIds) == Elements(after[u].upstreamIds) {
        SortedUnique(before[u].upstreamIds, after[u].upstreamIds);
      }
    }
  }

  /** If one map is the hierarchy of two families of groups, they agree on everything above the target. */
  lemma {:induction false} AgreeAlongWalk(g: Graph, g': Graph, k: string, m: Graph, p: seq<string>)
    requires IsHierarchy(g, k, m) && IsHierarchy(g', k, m) && Succ(g, k) == Succ(g', k)
    requires IsWalk(g, p) && p[0] == k
    ensures Visited(g', k, p[|p| - 1]) && Succ(g, p[|p| - 1]) == Succ(g', p[|p| - 1])
  {
    var n := |p| - 1;
    if n > 0 {
      var q, v, u := p[..n], p[n - 1], p[n];
      assert p[n - 1 + 1] in Succ(g, p[n - 1]);
      forall i | 0 <= i < |q| - 1 ensures q[i + 1] in Succ(g, q[i]) { assert p[i + 1] in Succ(g, p[i]); }
      AgreeAlongWalk(g, g', k, m, q);
      EdgeReaches(g', v, u);
      if v != k { ReachesTransitive(g', k, v, u); }
      assert WalkFromTo(g, p, k, u);
    }
  }

  /** Families of groups that agree on the target and everything above it have one hierarchy. */
  ghost predicate AgreeAbove(g: Graph, g': Graph, k: string) {
    forall u :: Visited(g, k, u) ==> Succ(g, u) == Succ(g', u)
  }

  lemma {:induction false} VisitedAlongWalk(g: Graph, g': Graph, k: string, p: seq<string>, either: Graph)
    requires AgreeAbove(g, g', k) && (either == g || either == g') && IsWalk(either, p) && p[0] == k
    ensures Visited(g, k, p[|p| - 1]) && Visited(g', k, p[|p| - 1])
  {
    var n := |p| - 1;
    if n > 0 {
      var q, v, u := p[..n], p[n - 1], p[n];
      assert p[n - 1 + 1] in Succ(either, p[n - 1]);
      forall i | 0 <= i < |q| - 1 ensures q[i + 1] in Succ(either, q[i]) { assert p[i + 1] in Succ(either, p[i]); }
      VisitedAlongWalk(g, g', k, q, either);
      EdgeReaches(g, v, u);
      EdgeReaches(g', v, u);
      if v != k {
        ReachesTransitive(g, k, v, u);
        ReachesTransitive(g', k, v, u);
      }
    }
  }

  lemma {:induction false} SameVisited(g: Graph, g': Graph, k: string, u: string)
    requires AgreeAbove(g, g', k)
    ensures Visited(g, k, u) <==> Visited(g', k, u)
  {
    if p :| |p| >= 2 && WalkFromTo(g, p, k, u) { VisitedAlongWalk(g, g', k, p, g); }
    if p :| |p| >= 2 && WalkFromTo(g', p, k, u) { VisitedAlongWalk(g, g', k, p, g'); }
  }

  lemma {:induction false} SameHierarchy(g: Graph, g': Graph, k: string, m: Graph)
    requires AgreeAbove(g, g', k) && IsHierarchy(g, k, m)
    ensures IsHierarchy(g', k, m)
  {
    forall u ensures Visited(g, k, u) <==> Visited(g', k, u) { SameVisited(g, g', k, u); }
  }

  lemma {:induction false} OneHierarchy(g: Graph, g': Graph, k: string, m: Graph)
    requires IsHierarchy(g, k, m) && IsHierarchy(g', k, m) && Succ(g, k) == Succ(g', k)
    ensures AgreeAbove(g, g', k)
  {
    forall u | Visited(g, k, u) ensures Succ(g, u) == Succ(g', u) {
      if u != k {
        var p :| |p| >= 2 && WalkFromTo(g, p, k, u);
        AgreeAlongWalk(g, g', k, m, p);
      }
    }
  }

  /** Some id above k, by the groups stored before, has its group written. */
  ghost predicate ChangesAbove(before: Groups, bugs: Graph, k: string) {
    exists u :: u != k && Visited(Ids(before), k, u) && Writes(before, bugs, u)
  }

  /** Which stored hierarchies are out of date after a run: exactly those of the groups the run does not
      write although it writes the group of an id above them. */
  lemma {:induction false} StaleExactly(before: Groups, bugs: Graph, after: Groups, k: string)
    requires AfterRun(before, bugs, after) && SortedLists(before) && (forall b :: b in bugs ==> bugs[b] != {})
    requires IsCurrent(before, k)
    ensures IsCurrent(after, k) <==> Writes(before, bugs, k) || !ChangesAbove(before, bugs, k)
  {
    var g, g' := Ids(before), Ids(after);
    forall u ensures Succ(g, u) == Succ(g', u) <==> !Writes(before, bugs, u) {
      SameUnlessWritten(before, bugs, after, u);
    }
    if !Writes(before, bugs, k) {
      if !ChangesAbove(before, bugs, k) {
        SameHierarchy(g, g', k, before[k].hierarchy);
      } else if IsCurrent(after, k) {
        OneHierarchy(g, g', k, before[k].hierarchy);
        assert false;
      }
    }
  }

  /** The stored groups are the transitive upstreams of the bugs exactly if no group is left of an id
      that has lost its upstreams: the run never visits those. */
  lemma {:induction false} ClosuresExactly(before: Groups, bugs: Graph, after: Groups)
    requires AfterRun(before, bugs, after) && forall k :: k in before ==> before[k].upstreamIds != []
    ensures HoldsClosures(bugs, Ids(after)) <==> before.Keys <= bugs.Keys
  {
    if before.Keys <= bugs.Keys {
      forall a, b ensures b in Succ(Ids(after), a) <==> Reaches(bugs, a, b) {
        UpstreamsAre(bugs, a, b);
        if Reaches(bugs, a, b) { var c := FirstStep(bugs, a, b); }
      }
    } else {
      var k :| k in before && k !in bugs;
      var x := after[k].upstreamIds[0];
      assert x in Succ(Ids(after), k);
      if Reaches(bugs, k, x) { var c := FirstStep(bugs, k, x); }
    }
  }

  /** An edge between two upstreams of t is added. The upstreams of t are as they were, so its group is
      not written, and its stored hierarchy is no longer that of the groups. */
  method AddedEdgeLeavesStale(t: string, a: string, b: string) returns (after: Groups)
    requires Lt(a, b) && t != a && t != b
    ensures t in after && after[t].hierarchy == map[t := {a, b}] && !IsCurrent(after, t)
  {
    LtIrreflexive(a);
    var before: Groups := map[t := Group([a, b], map[t := {a, b}])];
    var bugs: Graph := map[t := {a, b}, a := {b}];
    var job := new Job(before);
    job.Run(bugs);
    after := job.groups;
    OneGroupIsCurrent(before, t, a, b);
    TwoAboveT(bugs, t, a, b);
    assert a !in before && Visited(Ids(before), t, a) && Writes(before, bugs, a);
    assert ChangesAbove(before, bugs, t);
    StaleExactly(before, bugs, after, t);
  }

  lemma {:induction false} OneGroupIsCurrent(before: Groups, t: string, a: string, b: string)
    requires Lt(a, b) && t != a && t != b && before == map[t := Group([a, b], map[t := {a, b}])]
    ensures IsCurrent(before, t) && SortedLists(before) && Visited(Ids(before), t, a)
  {
    var g := Ids(before);
    assert Elements([a, b]) == {a, b} && Succ(g, t) == {a, b};
    EdgeReaches(g, t, a);
  }

  lemma {:induction false} TwoAboveT(bugs: Graph, t: string, a: string, b: string)
    requires Lt(a, b) && a != b && t != a && t != b && bugs == map[t := {a, b}, a := {b}]
    ensures SortedOf(Upstreams(bugs, t)) == [a, b]
  {
    forall x ensures x in Upstreams(bugs, t) <==> x in {a, b} {
      UpstreamsAre(bugs, t, x);
      if Reaches(bugs, t, x) {
        var v := LastStep(bugs, t, x);
      }
      if x in {a, b} { EdgeReaches(bugs, t, x); }
    }
    assert Elements([a, b]) == {a, b};
    SortedUnique(SortedOf(Upstreams(bugs, t)), [a, b]);
  }

  // ----- from the run to the page

  lemma {:induction false} ReadyToPrint(before: Groups, bugs: Graph, after: Groups, target: string)
    requires AfterRun(before, bugs, after) && SortedLists(before) && (forall b :: b in bugs ==> bugs[b] != {})
    requires target in bugs && before.Keys <= bugs.Keys && forall k :: k in before ==> before[k].upstreamIds != []
    requires Writes(before, bugs, target) || (IsCurrent(before, target) && !ChangesAbove(before, bugs, target))
    ensures HoldsClosures(bugs, Ids(after)) && IsCurrent(after, target)
  {
    ClosuresExactly(before, bugs, after);
    if !Writes(before, bugs, target) { StaleExactly(before, bugs, after, target); }
  }

  /** A run and then the page of a bug whose hierarchy it leaves current: on an acyclic relation the
      page shows exactly its transitive upstreams. */
  method RunAndPrint(job: Job, bugs: Graph, target: string, known: set<string>) returns (lines: Option<seq<Line>>)
    requires (forall b :: b in bugs ==> bugs[b] != {}) && !Cyclic(bugs) && target in bugs
    requires SortedLists(job.groups) && job.groups.Keys <= bugs.Keys
    requires forall k :: k in job.groups ==> job.groups[k].upstreamIds != []
    requires Writes(job.groups, bugs, target)
             || (IsCurrent(job.groups, target) && !ChangesAbove(job.groups, bugs, target))
    modifies job
    ensures UpstreamPage.ShowsUpstreams(lines, bugs, target, known)
  {
    ghost var before := job.groups;
    job.Run(bugs);
    ReadyToPrint(before, bugs, job.groups, target);
    lines := UpstreamPage.PrintStored(target, job.groups[target].hierarchy, known, Ids(job.groups), bugs);
  }
}
