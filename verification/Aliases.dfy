/** Alias maintenance: stored alias groups are brought to the connected components of the
    alias graph, one group for each component of 2 to 32 vulnerabilities. */
module Aliases {
  import opened Graphs
  import opened Sorting
  import opened Strings
  import opened StringSets
  import opened Ecosystems

  const ALIAS_GROUP_VULN_LIMIT := 32
  const VULN_ALIASES_LIMIT := 5

  // ----- the alias graph

  datatype Bug = Bug(id: string, aliases: seq<string>, processed: bool)

  predicate Eligible(b: Bug, allow: set<string>, deny: set<string>) {
    && b.id !in deny
    && (|b.aliases| <= VULN_ALIASES_LIMIT || b.id in allow)
    && b.processed
  }

  /** Some eligible bug lists one as an alias of the other. */
  ghost predicate Listed(bugs: seq<Bug>, allow: set<string>, deny: set<string>, x: string, y: string) {
    exists b :: b in bugs && Eligible(b, allow, deny)
      && ((b.id == x && y in b.aliases) || (b.id == y && x in b.aliases))
  }

  /** Every key has an alias, and aliases go both ways. */
  ghost predicate AliasGraph(g: Graph) {
    && (forall x, y :: y in Succ(g, x) ==> x in Succ(g, y))
    && (forall x :: x in g ==> g[x] != {})
  }

  method AddAlias(g: Graph, x: string, y: string) returns (r: Graph)
    requires AliasGraph(g)
    ensures AliasGraph(r)
    ensures forall a, b :: b in Succ(r, a) <==> b in Succ(g, a) || (a == x && b == y) || (a == y && b == x)
  {
    var once := g[x := Succ(g, x) + {y}];
    r := once[y := Succ(once, y) + {x}];
    forall a, b ensures b in Succ(r, a) <==> b in Succ(g, a) || (a == x && b == y) || (a == y && b == x) {
      assert b in Succ(once, a) <==> b in Succ(g, a) || (a == x && b == y);
    }
  }

  /** x and y are the bug's id and one of its first j aliases. */
  ghost predicate Pair(bug: Bug, j: nat, x: string, y: string)
    requires j <= |bug.aliases|
  {
    (bug.id == x && y in bug.aliases[..j]) || (bug.id == y && x in bug.aliases[..j])
  }

  /** The inner loop: the aliases of one bug. */
  method AddBug(g: Graph, bug: Bug) returns (r: Graph)
    requires AliasGraph(g)
    ensures AliasGraph(r)
    ensures forall x, y :: y in Succ(r, x) <==> y in Succ(g, x) || Pair(bug, |bug.aliases|, x, y)
  {
    r := g;
    for j := 0 to |bug.aliases|
      invariant AliasGraph(r)
      invariant forall x, y :: y in Succ(r, x) <==> y in Succ(g, x) || Pair(bug, j, x, y)
    {
      var alias := bug.aliases[j];
      assert bug.aliases[..j + 1] == bug.aliases[..j] + [alias];
      assert forall z :: z in bug.aliases[..j + 1] <==> z in bug.aliases[..j] || z == alias;
      ghost var before := r;
      r := AddAlias(r, bug.id, alias);
      forall x, y ensures y in Succ(r, x) <==> y in Succ(g, x) || Pair(bug, j + 1, x, y) {
        assert y in Succ(r, x) <==> y in Succ(before, x) || (x == bug.id && y == alias) || (x == alias && y == bug.id);
      }
    }
  }

  /** The bug_aliases map. */
  method BuildAliases(bugs: seq<Bug>, allow: set<string>, deny: set<string>) returns (g: Graph)
    ensures AliasGraph(g)
    ensures forall x, y :: y in Succ(g, x) <==> Listed(bugs, allow, deny, x, y)
  {
    g := map[];
    for i := 0 to |bugs|
      invariant AliasGraph(g)
      invariant forall x, y :: y in Succ(g, x) <==> Listed(bugs[..i], allow, deny, x, y)
    {
      var bug := bugs[i];
      assert bugs[..i + 1] == bugs[..i] + [bug];
      assert bug.aliases[..|bug.aliases|] == bug.aliases;
      ghost var before := g;
      if bug.id !in deny && (|bug.aliases| <= VULN_ALIASES_LIMIT || bug.id in allow) && bug.processed {
        g := AddBug(g, bug);
      }
      forall x, y ensures y in Succ(g, x) <==> Listed(bugs[..i + 1], allow, deny, x, y) {
        ListedOneMore(bugs[..i], bug, allow, deny, x, y);
        assert y in Succ(before, x) <==> Listed(bugs[..i], allow, deny, x, y);
      }
    }
    assert bugs[..|bugs|] == bugs;
  }

  lemma {:induction false} ListedOneMore(bugs: seq<Bug>, bug: Bug, allow: set<string>, deny: set<string>, x: string,
        y: string)
    ensures Listed(bugs + [bug], allow, deny, x, y) <==>
            Listed(bugs, allow, deny, x, y)
            || (Eligible(bug, allow, deny) && ((bug.id == x && y in bug.aliases) || (bug.id == y && x in bug.aliases)))
  {
    assert forall b :: b in bugs + [bug] <==> b in bugs || b == bug;
  }

  // ----- components

  ghost predicate Connected(g: Graph, a: string, x: string) { x == a || Reaches(g, a, x) }

  /** The connected component of a: a itself and everything reachable from it. */
  ghost function Component(g: Graph, a: string): set<string> {
    set x | x in AllNodes(g) + {a} && Connected(g, a, x)
  }

  lemma {:induction false} ConnectedTransitive(g: Graph, a: string, b: string, c: string)
    requires Connected(g, a, b) && Connected(g, b, c)
    ensures Connected(g, a, c)
  {
    if a != b && b != c { ReachesTransitive(g, a, b, c); }
  }

  lemma {:induction false} ConnectedSymmetric(g: Graph, a: string, b: string)
    requires AliasGraph(g) && Connected(g, a, b)
    ensures Connected(g, b, a)
  {
    if a != b { ReverseReaches(g, g, a, b); }
  }

  lemma {:induction false} ConnectedInComponent(g: Graph, a: string, x: string)
    ensures x in Component(g, a) <==> Connected(g, a, x)
  {
    if Connected(g, a, x) && x != a {
      var b := LastStep(g, a, x);
      SuccInAll(g, b);
    }
  }

  /** Components that share a member are equal. */
  lemma {:induction false} SameComponent(g: Graph, a: string, b: string)
    requires AliasGraph(g) && b in Component(g, a)
    ensures Component(g, b) == Component(g, a)
  {
    ConnectedSymmetric(g, a, b);
    forall x ensures x in Component(g, b) <==> x in Component(g, a) {
      ConnectedInComponent(g, a, x);
      ConnectedInComponent(g, b, x);
      if Connected(g, a, x) { ConnectedTransitive(g, b, a, x); }
      if Connected(g, b, x) { ConnectedTransitive(g, a, b, x); }
    }
  }

  lemma {:induction false} SubsetSize(s: set<string>, t: set<string>)
    requires s <= t
    ensures |s| <= |t|
  {
    if s != {} {
      var x :| x in s;
      SubsetSize(s - {x}, t - {x});
    }
  }

  lemma {:induction false} AscendingSize(l: seq<string>)
    requires Ascending(l)
    ensures |Elements(l)| == |l|
  {
    if l != [] {
      TailElements(l);
      AscendingSize(l[1..]);
      assert Elements(l) == Elements(l[1..]) + {l[0]};
    }
  }

  lemma {:induction false} ComponentsPartition(g: Graph)
    requires AliasGraph(g)
    ensures IsPartition(Components(g))
  {
    forall a ensures a in Component(g, a) { ConnectedInComponent(g, a, a); }
    forall a, b | b in Component(g, a) ensures Component(g, b) == Component(g, a) { SameComponent(g, a, b); }
  }

  /** A component of two or more has only ids with aliases. */
  lemma {:induction false} LargeComponentIsInGraph(g: Graph, a: string)
    requires |Component(g, a)| >= 2
    ensures a in g
  {
    if a !in g {
      forall x | x in Component(g, a) ensures x == a {
        if x != a { var b := FirstStep(g, a, x); }
      }
      assert Component(g, a) <= {a};
      SubsetSize(Component(g, a), {a});
    }
  }

  lemma {:induction false} GraphVisited(g: Graph, visited: set<string>)
    requires g.Keys <= visited
    ensures AllVisited(Components(g), visited)
  {
    forall a | ValidSize(Components(g)(a)) ensures a in visited { LargeComponentIsInGraph(g, a); }
  }

  lemma {:induction false} SuccInComponent(g: Graph, a: string, v: string)
    requires v in Component(g, a)
    ensures Succ(g, v) <= Component(g, a)
  {
    ConnectedInComponent(g, a, v);
    forall y | y in Succ(g, v) ensures y in Component(g, a) {
      EdgeReaches(g, v, y);
      ConnectedTransitive(g, a, v, y);
      ConnectedInComponent(g, a, y);
    }
  }

  /** A part of a component that holds its start and all its successors is all of it. */
  lemma {:induction false} ClosedIsComponent(g: Graph, found: set<string>, a: string)
    requires a in found && found <= Component(g, a) && forall v :: v in found ==> Succ(g, v) <= found
    ensures found == Component(g, a)
  {
    forall x | x in Component(g, a) ensures x in found {
      ConnectedInComponent(g, a, x);
      if x != a {
        var p :| |p| >= 2 && WalkFromTo(g, p, a, x);
        for i := 1 to |p|
          invariant p[i - 1] in found
        {
          assert p[i - 1 + 1] in Succ(g, p[i - 1]);
        }
      }
    }
  }

  // ----- the stored groups, kept to the classes of any partition

  type Groups = map<nat, seq<string>>

  type Classes = string -> set<string>

  predicate ValidSize(ids: set<string>) { 2 <= |ids| <= ALIAS_GROUP_VULN_LIMIT }

  predicate ValidLength(ids: seq<string>) { 2 <= |ids| <= ALIAS_GROUP_VULN_LIMIT }

  ghost predicate IsPartition(of: Classes) {
    && (forall a :: a in of(a))
    && (forall a, b :: b in of(a) ==> of(b) == of(a))
  }

  ghost function Components(g: Graph): Classes { a => Component(g, a) }

  /** A list that is right as a stored group: the sorted members of a class of valid size. */
  ghost predicate Right(of: Classes, ids: seq<string>) {
    ValidLength(ids) && IsSortedOf(ids, of(ids[0]))
  }

  /** The state the maintenance aims at: exactly the classes of valid size, one group each. */
  ghost predicate Settled(of: Classes, groups: Groups) {
    && (forall k {:trigger Right(of, groups[k])} :: k in groups ==> Right(of, groups[k]))
    && (forall k, l {:trigger Elements(groups[k]), Elements(groups[l])} ::
      k in groups && l in groups && k != l ==> Elements(groups[k]) !! Elements(groups[l]))
    && (forall a {:trigger ValidSize(of(a))} :: ValidSize(of(a)) ==> exists k :: k in groups && a in groups[k])
  }

  /** Every id whose class has a valid size is visited. */
  ghost predicate AllVisited(of: Classes, visited: set<string>) {
    forall a {:trigger ValidSize(of(a))} :: ValidSize(of(a)) ==> a in visited
  }

  ghost predicate Whole(of: Classes, visited: set<string>) {
    forall x :: x in visited ==> of(x) <= visited
  }

  lemma {:induction false} UnvisitedClass(of: Classes, visited: set<string>, a: string)
    requires IsPartition(of) && Whole(of, visited) && a !in visited
    ensures of(a) !! visited && Whole(of, visited + of(a))
  {
    forall x | x in of(a) ensures x !in visited { assert a in of(x); }
  }

  lemma {:induction false} SortedIsRight(of: Classes, a: string, ids: seq<string>)
    requires IsPartition(of) && IsSortedOf(ids, of(a)) && ValidSize(of(a))
    ensures Right(of, ids)
  {
    assert a in Elements(ids);
    HeadIsElement(ids);
    AscendingSize(ids);
  }

  /** What holds between two steps of a run that began with the groups `initial`, has visited
      the ids `visited` and has dealt with and kept the groups `done`. */
  ghost predicate Progress(of: Classes, initial: Groups, groups: Groups, visited: set<string>, done: set<nat>) {
    && Whole(of, visited)
    && done <= groups.Keys
    && (forall k :: k in groups && k !in done ==> k in initial && groups[k] == initial[k])
    && (forall k {:trigger Right(of, groups[k])} :: k in done ==> Right(of, groups[k]))
    && (forall k {:trigger Elements(groups[k])} :: k in done ==> Elements(groups[k]) <= visited)
    && (forall k, l {:trigger Elements(groups[k]), Elements(groups[l])} ::
      k in done && l in done && k != l ==> Elements(groups[k]) !! Elements(groups[l]))
    && (forall a {:trigger ValidSize(of(a))} :: a in visited && ValidSize(of(a)) ==>
          exists k :: k in done && a in groups[k])
  }

  lemma {:induction false} PlacedApart(groups: Groups, now: Groups, visited: set<string>, done: set<nat>, key: nat,
        ids: seq<string>)
    requires done <= groups.Keys && key !in done && now == groups[key := ids] && Elements(ids) !! visited
    requires forall k :: k in done ==> Elements(groups[k]) <= visited
    requires forall k, l :: k in done && l in done && k != l ==> Elements(groups[k]) !! Elements(groups[l])
    ensures forall k, l :: k in done + {key} && l in done + {key} && k != l ==> Elements(now[k]) !! Elements(now[l])
  {
    forall k | k in done ensures Elements(now[k]) == Elements(groups[k]) && Elements(now[k]) !! Elements(ids) {
      assert now[k] == groups[k] && Elements(groups[k]) <= visited;
    }
  }

  lemma {:induction false} PlacedCovers(of: Classes, groups: Groups, now: Groups, visited: set<string>, done: set<nat>,
        a: string, key: nat, ids: seq<string>)
    requires done <= groups.Keys && key !in done && now == groups[key := ids] && Elements(ids) == of(a)
    requires forall b {:trigger ValidSize(of(b))} :: b in visited && ValidSize(of(b)) ==>
               exists k :: k in done && b in groups[k]
    ensures forall b {:trigger ValidSize(of(b))} :: b in visited + of(a) && ValidSize(of(b)) ==>
              exists k :: k in done + {key} && b in now[k]
  {
    forall b | b in visited + of(a) && ValidSize(of(b)) ensures exists k :: k in done + {key} && b in now[k] {
      if b in visited {
        var k :| k in done && b in groups[k];
        assert b in now[k];
      } else {
        assert b in Elements(now[key]);
      }
    }
  }

  lemma {:induction false} PlaceGroup(of: Classes, initial: Groups, groups: Groups, visited: set<string>,
        done: set<nat>, a: string, key: nat, ids: seq<string>)
    requires IsPartition(of) && Progress(of, initial, groups, visited, done)
    requires a !in visited && key !in done && ValidSize(of(a)) && IsSortedOf(ids, of(a))
    ensures Progress(of, initial, groups[key := ids], visited + of(a), done + {key})
  {
    UnvisitedClass(of, visited, a);
    SortedIsRight(of, a, ids);
    var now := groups[key := ids];
    PlacedApart(groups, now, visited, done, key, ids);
    PlacedCovers(of, groups, now, visited, done, a, key, ids);
  }

  lemma {:induction false} RemoveGroup(of: Classes, initial: Groups, groups: Groups, visited: set<string>,
        done: set<nat>, key: nat)
    requires Progress(of, initial, groups, visited, done) && key !in done
    ensures Progress(of, initial, groups - {key}, visited, done)
  {
    var now := groups - {key};
    forall b | b in visited && ValidSize(of(b)) ensures exists k :: k in done && b in now[k] {
      var k :| k in done && b in groups[k];
      assert b in now[k];
    }
  }

  /** Visiting a class too small or too large for a group. */
  lemma {:induction false} VisitSkipped(of: Classes, initial: Groups, groups: Groups, visited: set<string>,
        done: set<nat>, a: string)
    requires IsPartition(of) && Progress(of, initial, groups, visited, done)
    requires a !in visited && !ValidSize(of(a))
    ensures Progress(of, initial, groups, visited + of(a), done)
  {
    UnvisitedClass(of, visited, a);
  }

  // ----- the record of changes

  type Changes = map<string, Option<nat>>

  /** The id is in a kept group that the run wrote. */
  ghost predicate InWritten(initial: Groups, groups: Groups, done: set<nat>, k: nat, v: string) {
    k in done && k in groups && v in groups[k] && (k !in initial || initial[k] != groups[k])
  }

  /** A vulnerability is recorded with a group exactly if it is in it and the run wrote the group. */
  ghost predicate Recorded(initial: Groups, groups: Groups, done: set<nat>, changed: Changes) {
    && done <= groups.Keys
    && (forall v :: v in changed && changed[v].Some? ==> InWritten(initial, groups, done, changed[v].value, v))
    && (forall v, k: nat :: InWritten(initial, groups, done, k, v) ==> v in changed && changed[v] == Some(k))
  }

  function Assign(ids: set<string>, group: Option<nat>): Changes { map v | v in ids :: group }

  lemma {:induction false} RecordPlaced(initial: Groups, groups: Groups, done: set<nat>, changed: Changes, key: nat,
        ids: seq<string>)
    requires Recorded(initial, groups, done, changed) && key !in done
    requires forall k :: k in done ==> Elements(groups[k]) !! Elements(ids)
    requires key !in initial || initial[key] != ids
    ensures Recorded(initial, groups[key := ids], done + {key}, changed + Assign(Elements(ids), Some(key)))
  {
    var now, later := groups[key := ids], changed + Assign(Elements(ids), Some(key));
    forall v | v in later && later[v].Some? ensures InWritten(initial, now, done + {key}, later[v].value, v) {
      if v !in Elements(ids) { assert InWritten(initial, groups, done, changed[v].value, v); }
    }
    forall v, k: nat | InWritten(initial, now, done + {key}, k, v) ensures v in later && later[v] == Some(k) {
      if k != key {
        assert InWritten(initial, groups, done, k, v) && v in Elements(groups[k]);
      }
    }
  }

  lemma {:induction false} RecordUnchanged(initial: Groups, groups: Groups, done: set<nat>, changed: Changes, key: nat)
    requires Recorded(initial, groups, done, changed) && key !in done
    requires key in groups && key in initial && initial[key] == groups[key]
    ensures Recorded(initial, groups, done + {key}, changed)
  {
    forall v | v in changed && changed[v].Some? ensures InWritten(initial, groups, done + {key}, changed[v].value, v) {
      assert InWritten(initial, groups, done, changed[v].value, v);
    }
    forall v, k: nat | InWritten(initial, groups, done + {key}, k, v) ensures v in changed && changed[v] == Some(k) {
      assert InWritten(initial, groups, done, k, v);
    }
  }

  /** Removing a group not kept, and recording None where no kept group is concerned. */
  lemma {:induction false} RecordNone(initial: Groups, groups: Groups, done: set<nat>, changed: Changes, key: nat,
        later: Changes)
    requires Recorded(initial, groups, done, changed) && key !in done
    requires forall v :: v in changed && changed[v].Some? ==> v in later && later[v] == changed[v]
    requires forall v :: v in later && later[v].Some? ==> v in changed && later[v] == changed[v]
    ensures Recorded(initial, groups - {key}, done, later)
  {
    var now := groups - {key};
    forall v | v in later && later[v].Some? ensures InWritten(initial, now, done, later[v].value, v) {
      assert InWritten(initial, groups, done, changed[v].value, v);
    }
    forall v, k: nat | InWritten(initial, now, done, k, v) ensures v in later && later[v] == Some(k) {
      assert InWritten(initial, groups, done, k, v);
    }
  }

  lemma {:induction false} RecordDropped(initial: Groups, groups: Groups, done: set<nat>, changed: Changes, key: nat,
        ids: seq<string>)
    requires Recorded(initial, groups, done, changed) && key !in done
    requires forall k :: k in done ==> Elements(groups[k]) !! Elements(ids)
    ensures Recorded(initial, groups - {key}, done, changed + Assign(Elements(ids), None))
  {
    var later := changed + Assign(Elements(ids), None);
    forall v | v in changed && changed[v].Some? ensures later[v] == changed[v] {
      assert InWritten(initial, groups, done, changed[v].value, v);
      assert v in Elements(groups[changed[v].value]);
    }
    RecordNone(initial, groups, done, changed, key, later);
  }

  // ----- the course of a run, in terms of the groups it began with and the order of the scan

  ghost predicate NonEmpty(initial: Groups, scan: seq<nat>) {
    (forall k :: k in initial ==> initial[k] != []) && (forall k :: k in scan ==> k in initial)
  }

  /** The ids visited by the loop over the stored groups. */
  ghost function Reached(of: Classes, initial: Groups, scan: seq<nat>): set<string>
    requires NonEmpty(initial, scan)
  {
    if scan == [] then {}
    else
      var n := |scan| - 1;
      Reached(of, initial, scan[..n]) + of(initial[scan[n]][0])
  }

  /** What one round over a stored group sets to None in the record of changes. */
  ghost function DroppedNow(of: Classes, ids: seq<string>, visited: set<string>): set<string>
    requires ids != []
  {
    if ids[0] in visited then Elements(ids) else if ValidSize(of(ids[0])) then {} else of(ids[0])
  }

  ghost predicate StaysNow(of: Classes, ids: seq<string>, visited: set<string>)
    requires ids != []
  {
    ids[0] !in visited && ValidSize(of(ids[0]))
  }

  ghost function Dropped(of: Classes, initial: Groups, scan: seq<nat>): set<string>
    requires NonEmpty(initial, scan)
  {
    if scan == [] then {}
    else
      var n := |scan| - 1;
      Dropped(of, initial, scan[..n]) + DroppedNow(of, initial[scan[n]], Reached(of, initial, scan[..n]))
  }

  /** The stored groups that stay: the first one scanned of each class of valid size. */
  ghost function Staying(of: Classes, initial: Groups, scan: seq<nat>): set<nat>
    requires NonEmpty(initial, scan)
  {
    if scan == [] then {}
    else
      var n := |scan| - 1;
      Staying(of, initial, scan[..n]) +
        (if StaysNow(of, initial[scan[n]], Reached(of, initial, scan[..n])) then {scan[n]} else {})
  }

  /** The group at a position of the scan is merged away: an earlier one began in the same class. */
  ghost predicate Merged(of: Classes, initial: Groups, scan: seq<nat>, j: nat)
    requires NonEmpty(initial, scan) && j < |scan|
  {
    exists i :: 0 <= i < j && initial[scan[j]][0] in of(initial[scan[i]][0])
  }

  lemma {:induction false} ReachedIs(of: Classes, initial: Groups, scan: seq<nat>, x: string)
    requires NonEmpty(initial, scan)
    ensures x in Reached(of, initial, scan) <==> exists i :: 0 <= i < |scan| && x in of(initial[scan[i]][0])
  {
    if scan != [] {
      var n := |scan| - 1;
      ReachedIs(of, initial, scan[..n], x);
      if i :| 0 <= i < |scan| && x in of(initial[scan[i]][0]) {
        assert i < n ==> scan[..n][i] == scan[i];
      }
    }
  }

  /** What the scan drops: the members of merged groups, and the classes of the wrong size it began. */
  ghost predicate DroppedAt(of: Classes, initial: Groups, scan: seq<nat>, j: nat, v: string)
    requires NonEmpty(initial, scan) && j < |scan|
  {
    if Merged(of, initial, scan, j) then v in initial[scan[j]]
    else !ValidSize(of(initial[scan[j]][0])) && v in of(initial[scan[j]][0])
  }

  lemma {:induction false} MergedInPrefix(of: Classes, initial: Groups, scan: seq<nat>, n: nat, j: nat)
    requires NonEmpty(initial, scan) && j < n <= |scan|
    ensures Merged(of, initial, scan[..n], j) <==> Merged(of, initial, scan, j)
  {
    assert forall i :: 0 <= i <= j ==> scan[..n][i] == scan[i];
  }

  lemma {:induction false} MergedIsReached(of: Classes, initial: Groups, scan: seq<nat>, j: nat)
    requires NonEmpty(initial, scan) && j < |scan|
    ensures Merged(of, initial, scan, j) <==> initial[scan[j]][0] in Reached(of, initial, scan[..j])
  {
    ReachedIs(of, initial, scan[..j], initial[scan[j]][0]);
    assert forall i :: 0 <= i < j ==> scan[..j][i] == scan[i];
  }

  lemma {:induction false} DroppedLast(of: Classes, initial: Groups, scan: seq<nat>, v: string)
    requires NonEmpty(initial, scan) && scan != []
    ensures v in Dropped(of, initial, scan) <==>
            v in Dropped(of, initial, scan[..|scan| - 1]) || DroppedAt(of, initial, scan, |scan| - 1, v)
  {
    MergedIsReached(of, initial, scan, |scan| - 1);
  }

  lemma {:induction false} DroppedHasPlace(of: Classes, initial: Groups, scan: seq<nat>, v: string) returns (j: nat)
    requires NonEmpty(initial, scan) && v in Dropped(of, initial, scan)
    ensures j < |scan| && DroppedAt(of, initial, scan, j, v)
  {
    j := |scan| - 1;
    DroppedLast(of, initial, scan, v);
    if !DroppedAt(of, initial, scan, j, v) {
      var n := j;
      j := DroppedHasPlace(of, initial, scan[..n], v);
      MergedInPrefix(of, initial, scan, n, j);
    }
  }

  lemma {:induction false} PlaceIsDropped(of: Classes, initial: Groups, scan: seq<nat>, v: string, j: nat)
    requires NonEmpty(initial, scan) && j < |scan| && DroppedAt(of, initial, scan, j, v)
    ensures v in Dropped(of, initial, scan)
  {
    var n := |scan| - 1;
    DroppedLast(of, initial, scan, v);
    if j < n {
      MergedInPrefix(of, initial, scan, n, j);
      PlaceIsDropped(of, initial, scan[..n], v, j);
    }
  }

  /** Nothing but the dropped ids is recorded as deleted, and they are all recorded. */
  ghost predicate Noted(changed: Changes, dropped: set<string>) {
    && (forall v :: v in dropped ==> v in changed)
    && (forall v :: v in changed && changed[v] == None ==> v in dropped)
  }

  /** One round over a stored group, on the groups, the visited and the dropped ids. */
  ghost predicate IsRound(of: Classes, before: Groups, seen: set<string>, had: set<string>, key: nat, after: Groups,
        visited: set<string>, dropped: set<string>)
    requires key in before && before[key] != []
  {
    var ids := before[key];
    && visited == seen + of(ids[0])
    && dropped == had + DroppedNow(of, ids, seen)
    && (forall k :: k != key ==> (k in after <==> k in before) && (k in after ==> after[k] == before[k]))
    && (key in after <==> StaysNow(of, ids, seen))
    && (key in after ==> IsSortedOf(after[key], of(ids[0])))
  }

  lemma {:induction false} MergeIsRound(of: Classes, before: Groups, seen: set<string>, had: set<string>, key: nat)
    requires key in before && before[key] != [] && before[key][0] in seen && Whole(of, seen)
    ensures IsRound(of, before, seen, had, key, before - {key}, seen, had + Elements(before[key]))
  {
  }

  lemma {:induction false} RefreshIsRound(of: Classes, before: Groups, seen: set<string>, had: set<string>, key: nat,
        ids: seq<string>)
    requires key in before && before[key] != [] && before[key][0] !in seen && IsSortedOf(ids, of(before[key][0]))
    ensures IsRound(of, before, seen, had, key, GroupsAfter(before, ids, key), seen + of(before[key][0]),
                    if ValidLength(ids) then had else had + Elements(ids))
  {
    AscendingSize(ids);
  }

  /** How far the loop over the stored groups has come. */
  ghost predicate Course(of: Classes, initial: Groups, scan: seq<nat>, groups: Groups, visited: set<string>,
        done: set<nat>, dropped: set<string>) {
    && NonEmpty(initial, scan)
    && visited == Reached(of, initial, scan) && done == Staying(of, initial, scan)
      && dropped == Dropped(of, initial, scan)
    && OfTheirClasses(of, initial, groups, done)
  }

  lemma {:induction false} CourseUnfolds(of: Classes, initial: Groups, scan: seq<nat>)
    requires scan != [] && NonEmpty(initial, scan)
    ensures var n := |scan| - 1; var ids, seen := initial[scan[n]], Reached(of, initial, scan[..n]);
            && Reached(of, initial, scan) == seen + of(ids[0])
            && Dropped(of, initial, scan) == Dropped(of, initial, scan[..n]) + DroppedNow(of, ids, seen)
            && Staying(of, initial, scan) ==
              Staying(of, initial, scan[..n]) + (if StaysNow(of, ids, seen) then {scan[n]} else {})
  {
  }

  ghost predicate OfTheirClasses(of: Classes, initial: Groups, groups: Groups, done: set<nat>)
    requires forall k :: k in initial ==> initial[k] != []
  {
    done <= initial.Keys && forall k :: k in done ==> k in groups && IsSortedOf(groups[k], of(initial[k][0]))
  }

  lemma {:induction false} RoundKeepsClasses(of: Classes, initial: Groups, key: nat, before: Groups, seen: set<string>,
    done: set<nat>, had: set<string>,
                                             after: Groups, visited: set<string>, dropped: set<string>)
    requires (forall k :: k in initial ==> initial[k] != []) && OfTheirClasses(of, initial, before, done)
    requires key in initial && key in before && before[key] == initial[key] && key !in done
    requires IsRound(of, before, seen, had, key, after, visited, dropped)
    ensures OfTheirClasses(of, initial, after, if key in after then done + {key} else done)
  {
    forall k | k in done ensures k in after && IsSortedOf(after[k], of(initial[k][0])) { assert after[k] == before[k]; }
  }

  lemma {:induction false} NextRound(of: Classes, initial: Groups, scan: seq<nat>, i: nat,
                                     before: Groups, seen: set<string>, done: set<nat>, had: set<string>,
                                     after: Groups, visited: set<string>, dropped: set<string>)
    requires i < |scan| && NonEmpty(initial, scan) && Course(of, initial, scan[..i], before, seen, done, had)
    requires scan[i] in before && before[scan[i]] == initial[scan[i]] && scan[i] !in done
    requires IsRound(of, before, seen, had, scan[i], after, visited, dropped)
    ensures Course(of, initial, scan[..i + 1], after, visited,
                   if scan[i] in after then done + {scan[i]} else done, dropped)
  {
    RoundKeepsClasses(of, initial, scan[i], before, seen, done, had, after, visited, dropped);
    CourseUnfolds(of, initial, scan[..i + 1]);
    assert scan[..i + 1][..i] == scan[..i];
  }

  /** What holds between two rounds of the loop over the ids that have aliases. */
  ghost predicate Adding(of: Classes, initial: Groups, groups: Groups, visited: set<string>, changed: Changes,
        key: nat, dropped: set<string>) {
    && Sound(of, initial, groups, visited, groups.Keys, changed)
    && Below(groups, key) && Below(initial, key)
    && Noted(changed, dropped)
  }

  lemma {:induction false} AddingOne(of: Classes, initial: Groups, groups: Groups, visited: set<string>,
        changed: Changes, key: nat, dropped: set<string>, a: string, ids: seq<string>)
    requires Adding(of, initial, groups, visited, changed, key, dropped) && a !in visited && IsSortedOf(ids, of(a))
    ensures Adding(of, initial, GroupsWith(groups, ids, key), visited + of(a), ChangesWith(changed, ids, key),
            KeyAfter(ids, key), dropped)
    ensures OldSame(initial, groups, GroupsWith(groups, ids, key))
    ensures !ValidSize(of(a)) ==> !ValidLength(ids)
  {
    CreateStep(of, initial, groups, visited, groups.Keys, changed, a, key, ids);
    CreatedKeys(groups, ids, key);
    NotedWith(changed, dropped, ids, key);
    assert KeyAfter(ids, key) >= key;
  }

  lemma {:induction false} NotedWith(changed: Changes, dropped: set<string>, ids: seq<string>, key: nat)
    requires Noted(changed, dropped)
    ensures Noted(ChangesWith(changed, ids, key), dropped)
  {
  }

  /** The groups under the keys the run began with are the same. */
  ghost predicate OldSame(initial: Groups, before: Groups, after: Groups) {
    forall k :: k in initial ==> (k in after <==> k in before) && (k in after ==> after[k] == before[k])
  }

  lemma {:induction false} CourseEnds(of: Classes, initial: Groups, scan: seq<nat>, between: Groups,
        visited: set<string>, dropped: set<string>, after: Groups, changed: Changes)
    requires Course(of, initial, scan, between, visited, between.Keys, dropped) && OldSame(initial, between, after)
    requires Noted(changed, dropped) && Recorded(initial, after, after.Keys, changed)
    ensures LeftExactly(of, initial, scan, after) && ChangedExactly(of, initial, scan, after, changed)
  {
  }

  /** The full record of changes after a run: the members of written groups with their group, the
      dropped ids that are in none with None. */
  ghost predicate ChangedExactly(of: Classes, initial: Groups, scan: seq<nat>, groups: Groups, changed: Changes) {
    && NonEmpty(initial, scan) && Recorded(initial, groups, groups.Keys, changed)
    && Noted(changed, Dropped(of, initial, scan))
  }

  /** The stored groups that are left: those the scan lets stay, with the members of their class. */
  ghost predicate LeftExactly(of: Classes, initial: Groups, scan: seq<nat>, groups: Groups) {
    && NonEmpty(initial, scan)
    && forall k :: k in initial ==>
         && (k in groups <==> k in Staying(of, initial, scan))
         && (k in groups ==> IsSortedOf(groups[k], of(initial[k][0])))
  }

  // ----- one step on the store

  ghost predicate Sound(of: Classes, initial: Groups, groups: Groups, visited: set<string>, done: set<nat>,
        changed: Changes) {
    && IsPartition(of)
    && Progress(of, initial, groups, visited, done)
    && Recorded(initial, groups, done, changed)
  }

  /** An unvisited class shares nothing with the kept groups. */
  lemma {:induction false} ApartFromKept(of: Classes, initial: Groups, groups: Groups, visited: set<string>,
        done: set<nat>, a: string, ids: seq<string>)
    requires IsPartition(of) && Progress(of, initial, groups, visited, done) && a !in visited && Elements(ids) == of(a)
    ensures forall k :: k in done ==> Elements(groups[k]) !! Elements(ids)
  {
    UnvisitedClass(of, visited, a);
  }

  lemma {:induction false} KeepStep(of: Classes, initial: Groups, groups: Groups, visited: set<string>, done: set<nat>,
        changed: Changes, a: string, key: nat, ids: seq<string>)
    requires Sound(of, initial, groups, visited, done, changed)
    requires IsSortedOf(ids, of(a)) && a !in visited && key !in done && ValidSize(of(a)) && key in groups
    requires groups[key] == ids
    ensures Sound(of, initial, groups, visited + of(a), done + {key}, changed)
  {
    PlaceGroup(of, initial, groups, visited, done, a, key, ids);
    assert groups[key := ids] == groups;
    RecordUnchanged(initial, groups, done, changed, key);
  }

  lemma {:induction false} WriteStep(of: Classes, initial: Groups, groups: Groups, visited: set<string>,
        done: set<nat>, changed: Changes, a: string, key: nat, ids: seq<string>)
    requires Sound(of, initial, groups, visited, done, changed)
    requires IsSortedOf(ids, of(a)) && a !in visited && key !in done && ValidSize(of(a))
    requires (key in initial ==> initial[key] != ids)
    ensures Sound(of, initial, groups[key := ids], visited + of(a), done + {key},
            changed + Assign(Elements(ids), Some(key)))
  {
    PlaceGroup(of, initial, groups, visited, done, a, key, ids);
    ApartFromKept(of, initial, groups, visited, done, a, ids);
    RecordPlaced(initial, groups, done, changed, key, ids);
  }

  lemma {:induction false} DropStep(of: Classes, initial: Groups, groups: Groups, visited: set<string>, done: set<nat>,
        changed: Changes, a: string, key: nat, ids: seq<string>)
    requires Sound(of, initial, groups, visited, done, changed)
    requires IsSortedOf(ids, of(a)) && a !in visited && key !in done && !ValidSize(of(a))
    ensures Sound(of, initial, groups - {key}, visited + of(a), done, changed + Assign(Elements(ids), None))
  {
    VisitSkipped(of, initial, groups, visited, done, a);
    RemoveGroup(of, initial, groups, visited + of(a), done, key);
    ApartFromKept(of, initial, groups, visited, done, a, ids);
    RecordDropped(initial, groups, done, changed, key, ids);
  }

  /** The stored groups after a group has been given its recomputed members. */
  function GroupsAfter(groups: Groups, ids: seq<string>, key: nat): Groups {
    if ValidLength(ids) then groups[key := ids] else groups - {key}
  }

  function ChangesAfter(groups: Groups, changed: Changes, ids: seq<string>, key: nat): Changes
    requires key in groups
  {
    if !ValidLength(ids) then changed + Assign(Elements(ids), None)
    else if ids == groups[key] then changed
    else changed + Assign(Elements(ids), Some(key))
  }

  lemma {:induction false} UpdateStep(of: Classes, initial: Groups, groups: Groups, visited: set<string>,
        done: set<nat>, changed: Changes, a: string, key: nat, ids: seq<string>)
    requires Sound(of, initial, groups, visited, done, changed)
    requires IsSortedOf(ids, of(a)) && a !in visited && key !in done && key in groups
    ensures Sound(of, initial, GroupsAfter(groups, ids, key), visited + of(a),
                  if ValidLength(ids) then done + {key} else done, ChangesAfter(groups, changed, ids, key))
  {
    AscendingSize(ids);
    var after, later := GroupsAfter(groups, ids, key), ChangesAfter(groups, changed, ids, key);
    if !ValidLength(ids) {
      assert after == groups - {key} && later == changed + Assign(Elements(ids), None);
      DropStep(of, initial, groups, visited, done, changed, a, key, ids);
    } else if ids == groups[key] {
      assert after == groups[key := ids] == groups && later == changed;
      KeepStep(of, initial, groups, visited, done, changed, a, key, ids);
    } else {
      assert after == groups[key := ids] && later == changed + Assign(Elements(ids), Some(key));
      WriteStep(of, initial, groups, visited, done, changed, a, key, ids);
    }
  }

  lemma {:induction false} OthersAfter(groups: Groups, ids: seq<string>, key: nat)
    ensures GroupsAfter(groups, ids, key) - {key} == groups - {key}
    ensures (key in GroupsAfter(groups, ids, key) <==> ValidLength(ids))
  {
  }

  /** A right group recomputes to itself. */
  lemma {:induction false} RightStays(of: Classes, groups: Groups, changed: Changes, ids: seq<string>, key: nat)
    requires key in groups && Right(of, groups[key]) && IsSortedOf(ids, of(groups[key][0]))
    ensures ids == groups[key] && ValidLength(ids)
    ensures GroupsAfter(groups, ids, key) == groups && ChangesAfter(groups, changed, ids, key) == changed
  {
    SortedUnique(ids, groups[key]);
    assert groups[key := ids] == groups;
  }

  lemma {:induction false} MergeStep(of: Classes, initial: Groups, groups: Groups, visited: set<string>,
        done: set<nat>, changed: Changes, key: nat, ids: set<string>)
    requires Sound(of, initial, groups, visited, done, changed) && key !in done
    ensures Sound(of, initial, groups - {key}, visited, done, Assign(ids, None) + changed)
  {
    RemoveGroup(of, initial, groups, visited, done, key);
    RecordNone(initial, groups, done, changed, key, Assign(ids, None) + changed);
  }

  /** The stored groups after a list of ids has been offered as a new group. */
  function GroupsWith(groups: Groups, ids: seq<string>, key: nat): Groups {
    if ValidLength(ids) then groups[key := ids] else groups
  }

  function ChangesWith(changed: Changes, ids: seq<string>, key: nat): Changes {
    if ValidLength(ids) then changed + Assign(Elements(ids), Some(key)) else changed
  }

  function KeyAfter(ids: seq<string>, n: nat): nat { if ValidLength(ids) then n + 1 else n }

  ghost predicate Below(groups: Groups, key: nat) { forall k :: k in groups ==> k < key }

  lemma {:induction false} CreatedKeys(groups: Groups, ids: seq<string>, key: nat)
    requires Below(groups, key)
    ensures Below(GroupsWith(groups, ids, key), KeyAfter(ids, key))
    ensures GroupsWith(groups, ids, key).Keys == if ValidLength(ids) then groups.Keys + {key} else groups.Keys
  {
  }

  lemma {:induction false} CreateStep(of: Classes, initial: Groups, groups: Groups, visited: set<string>,
        done: set<nat>, changed: Changes, a: string, key: nat, ids: seq<string>)
    requires Sound(of, initial, groups, visited, done, changed)
    requires IsSortedOf(ids, of(a)) && a !in visited && key !in groups && key !in initial
    ensures ValidLength(ids) == ValidSize(of(a))
    ensures Sound(of, initial, GroupsWith(groups, ids, key), visited + of(a),
                  if ValidLength(ids) then done + {key} else done, ChangesWith(changed, ids, key))
  {
    AscendingSize(ids);
    if ValidLength(ids) {
      WriteStep(of, initial, groups, visited, done, changed, a, key, ids);
    } else {
      SkipStep(of, initial, groups, visited, done, changed, a);
    }
  }

  lemma {:induction false} SkipStep(of: Classes, initial: Groups, groups: Groups, visited: set<string>, done: set<nat>,
        changed: Changes, a: string)
    requires Sound(of, initial, groups, visited, done, changed)
    requires a !in visited && !ValidSize(of(a))
    ensures Sound(of, initial, groups, visited + of(a), done, changed)
  {
    VisitSkipped(of, initial, groups, visited, done, a);
  }

  /** When every group is dealt with and every class of valid size visited, the store is right. */
  lemma {:induction false} AllDoneIsSettled(of: Classes, initial: Groups, groups: Groups, visited: set<string>)
    requires Progress(of, initial, groups, visited, groups.Keys) && AllVisited(of, visited)
    ensures Settled(of, groups)
  {
  }

  /** What a settled store says about aliases: two ids share a stored group exactly if one leads to
      the other through the alias graph and their component has 2 to 32 members. */
  lemma {:induction false} SharedGroupIffConnected(g: Graph, groups: Groups, x: string, y: string)
    requires AliasGraph(g) && Settled(Components(g), groups) && x != y
    ensures (exists k :: k in groups && x in groups[k] && y in groups[k]) <==>
            (Reaches(g, x, y) && ValidSize(Component(g, x)))
  {
    ComponentsPartition(g);
    ConnectedInComponent(g, x, y);
    ConnectedInComponent(g, x, x);
    if Reaches(g, x, y) && ValidSize(Components(g)(x)) {
      var k :| k in groups && x in groups[k];
      RightHolds(Components(g), groups[k], x);
      assert y in Elements(groups[k]);
    }
    forall k | k in groups && x in groups[k] && y in groups[k] ensures Reaches(g, x, y) && ValidSize(Component(g, x)) {
      RightHolds(Components(g), groups[k], x);
      assert y in Elements(groups[k]);
    }
  }

  /** A right group is the class of any of its members. */
  lemma {:induction false} RightHolds(of: Classes, ids: seq<string>, x: string)
    requires IsPartition(of) && Right(of, ids) && x in ids
    ensures Elements(ids) == of(x) && IsSortedOf(ids, of(x)) && ValidSize(of(x))
  {
    assert x in Elements(ids);
    AscendingSize(ids);
  }

  /** Settled stores agree: they hold the same groups, whatever order they were reached in. */
  lemma {:induction false} SettledStoresAgree(of: Classes, one: Groups, two: Groups)
    requires IsPartition(of) && Settled(of, one) && Settled(of, two)
    ensures one.Values == two.Values
  {
    forall k | k in one ensures one[k] in two.Values { SettledHolds(of, one, two, k); }
    forall k | k in two ensures two[k] in one.Values { SettledHolds(of, two, one, k); }
  }

  lemma {:induction false} SettledHolds(of: Classes, one: Groups, two: Groups, k: nat)
    requires IsPartition(of) && Settled(of, one) && Settled(of, two) && k in one
    ensures one[k] in two.Values
  {
    assert Right(of, one[k]);
    var x := one[k][0];
    RightHolds(of, one[k], x);
    assert ValidSize(of(x));
    var l :| l in two && x in two[l];
    RightHolds(of, two[l], x);
    SortedUnique(one[k], two[l]);
    assert two[l] in two.Values;
  }

  /** Which members of a group the run left alone are recorded all the same: exactly those that a
      merged group lists too. They are recorded as deleted, although their group still exists. */
  lemma {:induction false} StaleExactly(of: Classes, initial: Groups, scan: seq<nat>, after: Groups, changed: Changes,
        k: nat, v: string)
    requires IsPartition(of) && Settled(of, after) && ChangedExactly(of, initial, scan, after, changed)
    requires k in after && k in initial && after[k] == initial[k] && v in after[k]
    ensures v in changed <==> exists j :: 0 <= j < |scan| && Merged(of, initial, scan, j) && v in initial[scan[j]]
    ensures v in changed ==> changed[v] == None
  {
    forall l | l in after && l != k ensures v !in after[l] {
      assert v in Elements(after[k]) && v !in Elements(after[l]);
    }
    assert v in changed ==> changed[v] == None;
    RightHolds(of, after[k], v);
    if v in Dropped(of, initial, scan) {
      var j := DroppedHasPlace(of, initial, scan, v);
      var first := initial[scan[j]][0];
      assert v in of(first) ==> of(v) == of(first);
    }
    if j :| 0 <= j < |scan| && Merged(of, initial, scan, j) && v in initial[scan[j]] {
      PlaceIsDropped(of, initial, scan, v, j);
    }
  }

  ghost function MembersOf(groups: Groups, keys: set<nat>): set<string> {
    set k, x | k in keys && k in groups && x in groups[k] :: x
  }

  lemma {:induction false} MembersOfMore(groups: Groups, keys: set<nat>, key: nat)
    requires key in groups
    ensures MembersOf(groups, keys + {key}) == MembersOf(groups, keys) + Elements(groups[key])
  {
  }

  /** The groups of a settled store hold every id whose class has a valid size. */
  lemma {:induction false} SettledVisited(of: Classes, groups: Groups, visited: set<string>)
    requires Settled(of, groups) && visited == MembersOf(groups, groups.Keys)
    ensures AllVisited(of, visited)
  {
  }

  /** In a settled store the first id of a group is in no other group. */
  lemma {:induction false} SettledFirst(of: Classes, groups: Groups, keys: set<nat>, key: nat)
    requires Settled(of, groups) && key in groups && key !in keys
    ensures Right(of, groups[key]) && groups[key][0] !in MembersOf(groups, keys)
  {
    assert Right(of, groups[key]) && groups[key][0] in Elements(groups[key]);
    forall k | k in keys && k in groups ensures groups[key][0] !in groups[k] {
      assert groups[key][0] !in Elements(groups[k]);
    }
  }

  /** What is left to scan after one more key, which was kept or deleted. */
  lemma {:induction false} LeftToScan(before: Groups, after: Groups, done: set<nat>, key: nat, rest: set<nat>)
    requires after - {key} == before - {key} && key in before && key !in done && key !in rest
    requires before.Keys - done == rest + {key}
    ensures after.Keys - (if key in after then done + {key} else done) == rest && after.Keys <= before.Keys
  {
    assert forall k :: k != key ==> (k in after <==> k in after - {key});
    assert forall k :: k != key ==> (k in before <==> k in before - {key});
  }

  ghost predicate Scans(scan: seq<nat>, groups: Groups) {
    NoRepeats(scan) && forall k :: k in scan <==> k in groups
  }

  ghost function Keys(scan: seq<nat>): set<nat> { set k | k in scan }

  class Maintenance {
    const graph: Graph
    ghost const of: Classes  // the connected component of an id
    var groups: Groups
    var visited: set<string>
    var changed: Changes  // the group of a changed vulnerability, None if deleted
    var puts: nat
    var deletes: nat
    var nextKey: nat
    ghost var done: set<nat>  // the groups this run has dealt with and kept
    ghost var dropped: set<string>  // the ids this run has recorded as deleted, at some time

    constructor (graph: Graph, groups: Groups, nextKey: nat)
      requires AliasGraph(graph)
      ensures this.graph == graph && this.groups == groups && this.nextKey == nextKey
      ensures visited == {} && changed == map[] && puts == 0 && deletes == 0 && done == {} && dropped == {}
      ensures of == Components(graph) && Valid(groups)
    {
      this.graph, this.groups, this.nextKey, of := graph, groups, nextKey, Components(graph);
      visited, changed, puts, deletes, done, dropped := {}, map[], 0, 0, {}, {};
      ComponentsPartition(graph);
    }

    ghost predicate Valid(initial: Groups)
      reads this
    {
      Sound(of, initial, groups, visited, done, changed)
    }

    /** Nothing has been written. */
    ghost predicate Quiet(initial: Groups)
      reads this
    {
      groups == initial && changed == map[] && puts == 0 && deletes == 0
    }

    /** _compute_aliases: the unvisited component of an id, sorted. */
    method ComputeAliases(id: string) returns (bugIds: seq<string>)
      requires of == Components(graph) && IsPartition(of) && Whole(of, visited) && id !in visited
      modifies `visited
      ensures IsSortedOf(bugIds, of(id))
      ensures visited == old(visited) + of(id)
    {
      var toVisit := {id};
      var found: set<string> := {};
      ghost var start, target := visited, Component(graph, id);
      assert target == of(id);
      UnvisitedClass(of, start, id);
      while toVisit != {}
        invariant visited == start + found && found <= target && target !! start
        invariant toVisit <= target && id in found + toVisit
        invariant forall v :: v in found ==> Succ(graph, v) <= found + toVisit
        modifies `visited
        decreases target - found, toVisit
      {
        var next :| next in toVisit;
        toVisit := toVisit - {next};
        if next in visited { continue; }
        ghost var before := target - found;
        visited := visited + {next};
        found := found + {next};
        assert target - found == before - {next} && next in before;
        var aliases := Succ(graph, next);
        SuccInComponent(graph, id, next);
        toVisit := toVisit + (aliases - visited);
      }
      ClosedIsComponent(graph, found, id);
      bugIds := SortSet(found);
    }

    /** Records that each of the ids now belongs to a group, or to none. */
    method Record(ids: seq<string>, group: Option<nat>)
      modifies `changed
      ensures changed == old(changed) + Assign(Elements(ids), group)
    {
      for i := 0 to |ids|
        invariant changed == old(changed) + Assign(Elements(ids[..i]), group)
        modifies `changed
      {
        assert Elements(ids[..i + 1]) == Elements(ids[..i]) + {ids[i]};
        changed := changed[ids[i] := group];
      }
      assert ids[..|ids|] == ids;
    }

    /** The loop that records a merged group's ids, unless something is recorded already. */
    method RecordMerged(ids: seq<string>)
      modifies `changed
      ensures changed == Assign(Elements(ids), None) + old(changed)
    {
      for i := 0 to |ids|
        invariant changed == Assign(Elements(ids[..i]), None) + old(changed)
        modifies `changed
      {
        assert Elements(ids[..i + 1]) == Elements(ids[..i]) + {ids[i]};
        if ids[i] !in changed { changed := changed[ids[i] := None]; }
      }
      assert ids[..|ids|] == ids;
    }

    method Delete(key: nat)
      modifies `groups, `deletes
      ensures groups == old(groups) - {key} && deletes == old(deletes) + 1
    {
      groups := groups - {key};
      deletes := deletes + 1;
    }

    /** _update_group. */
    method UpdateGroup(bugIds: seq<string>, key: nat)
      requires key in groups
      modifies `groups, `changed, `puts, `deletes
      ensures groups == GroupsAfter(old(groups), bugIds, key)
      ensures changed == ChangesAfter(old(groups), old(changed), bugIds, key)
      ensures deletes == old(deletes) + (if ValidLength(bugIds) then 0 else 1)
      ensures puts == old(puts) + (if ValidLength(bugIds) && bugIds != old(groups[key]) then 1 else 0)
    {
      if |bugIds| <= 1 {
        Record(bugIds, None);
        Delete(key);
        return;
      }
      if |bugIds| > ALIAS_GROUP_VULN_LIMIT {
        Record(bugIds, None);
        Delete(key);
        return;
      }
      if bugIds == groups[key] {
        assert groups[key := bugIds] == groups;
        return;
      }
      groups := groups[key := bugIds];
      puts := puts + 1;
      Record(bugIds, Some(key));
    }

    /** _create_alias_group. */
    method CreateGroup(bugIds: seq<string>)
      modifies `groups, `changed, `puts, `nextKey
      ensures groups == GroupsWith(old(groups), bugIds, old(nextKey))
      ensures changed == ChangesWith(old(changed), bugIds, old(nextKey))
      ensures nextKey == KeyAfter(bugIds, old(nextKey)) && puts == KeyAfter(bugIds, old(puts))
    {
      if |bugIds| <= 1 { return; }
      if |bugIds| > ALIAS_GROUP_VULN_LIMIT { return; }
      var key := nextKey;
      groups := groups[key := bugIds];
      nextKey := nextKey + 1;
      puts := puts + 1;
      Record(bugIds, Some(key));
    }

    /** A stored group whose first id is already visited is deleted. */
    method Merge(key: nat, ghost initial: Groups)
      requires Valid(initial) && key in groups && key !in done && Noted(changed, dropped)
      modifies `groups, `changed, `deletes, `dropped
      ensures Valid(initial) && groups == old(groups) - {key} && Noted(changed, dropped)
      ensures dropped == old(dropped) + Elements(old(groups[key]))
    {
      dropped := dropped + Elements(groups[key]);
      MergeStep(of, initial, groups, visited, done, changed, key, Elements(groups[key]));
      RecordMerged(groups[key]);
      Delete(key);
    }

    /** Gives a stored group the members just computed for its first id. */
    method StoreMembers(bugIds: seq<string>, key: nat, ghost a: string, ghost before: set<string>,
          ghost initial: Groups)
      requires Sound(of, initial, groups, before, done, changed) && visited == before + of(a)
      requires IsSortedOf(bugIds, of(a)) && a !in before && key !in done && key in groups
      requires Noted(changed, dropped)
      modifies `groups, `changed, `puts, `deletes, `done, `dropped
      ensures Valid(initial) && Noted(changed, dropped)
      ensures dropped == if ValidLength(bugIds) then old(dropped) else old(dropped) + Elements(bugIds)
      ensures groups == GroupsAfter(old(groups), bugIds, key)
      ensures changed == ChangesAfter(old(groups), old(changed), bugIds, key)
      ensures done == if ValidLength(bugIds) then old(done) + {key} else old(done)
      ensures ValidLength(bugIds) && bugIds == old(groups[key]) ==> puts == old(puts) && deletes == old(deletes)
    {
      UpdateStep(of, initial, groups, before, done, changed, a, key, bugIds);
      UpdateGroup(bugIds, key);
      if ValidLength(bugIds) { done := done + {key}; } else { dropped := dropped + Elements(bugIds); }
    }

    /** A stored group whose first id is new is recomputed. */
    method Recompute(key: nat, ghost initial: Groups)
      requires of == Components(graph)
      requires Valid(initial) && key in groups && key !in done && groups[key] != [] && groups[key][0] !in visited
      requires Noted(changed, dropped)
      modifies `groups, `visited, `changed, `puts, `deletes, `done, `dropped
      ensures Valid(initial) && Noted(changed, dropped)
      ensures IsRound(of, old(groups), old(visited), old(dropped), key, groups, visited, dropped)
      ensures groups - {key} == old(groups) - {key} && done == if key in groups then old(done) + {key} else old(done)
      ensures visited == old(visited) + of(old(groups[key][0]))
      ensures Right(of, old(groups[key])) ==>
                groups == old(groups) && changed == old(changed) && puts == old(puts) && deletes == old(deletes)
    {
      var bugId := groups[key][0];
      var bugIds := ComputeAliases(bugId);
      OthersAfter(groups, bugIds, key);
      RefreshIsRound(of, groups, old(visited), dropped, key, bugIds);
      if Right(of, groups[key]) { RightStays(of, groups, changed, bugIds, key); }
      StoreMembers(bugIds, key, bugId, old(visited), initial);
    }

    /** One round of the loop over the stored groups. */
    method RefreshGroup(key: nat, ghost initial: Groups, ghost earlier: set<nat>)
      requires of == Components(graph)
      requires Valid(initial) && key in groups && key !in done && key !in earlier && groups[key] != []
      requires Settled(of, initial) ==> Quiet(initial) && visited == MembersOf(initial, earlier)
      requires Noted(changed, dropped)
      modifies `groups, `visited, `changed, `puts, `deletes, `done, `dropped
      ensures Valid(initial) && Noted(changed, dropped)
      ensures IsRound(of, old(groups), old(visited), old(dropped), key, groups, visited, dropped)
      ensures groups - {key} == old(groups) - {key} && done == if key in groups then old(done) + {key} else old(done)
      ensures Settled(of, initial) ==> Quiet(initial) && visited == MembersOf(initial, earlier + {key})
    {
      if Settled(of, initial) {
        SettledFirst(of, initial, earlier, key);
        MembersOfMore(initial, earlier, key);
      }
      if groups[key][0] in visited {
        MergeIsRound(of, groups, visited, dropped, key);
        Merge(key, initial);
      } else {
        Recompute(key, initial);
      }
    }

    /** The loop over the stored groups. */
    method RefreshGroups(scan: seq<nat>)
      requires of == Components(graph) && Valid(groups) && Scans(scan, groups)
      requires visited == {} && changed == map[] && puts == 0 && deletes == 0 && done == {} && dropped == {}
      requires forall k :: k in groups ==> groups[k] != []
      modifies `groups, `visited, `changed, `puts, `deletes, `done, `dropped
      ensures Course(of, old(groups), scan, groups, visited, done, dropped) && Noted(changed, dropped)
      ensures Valid(old(groups)) && done == groups.Keys && groups.Keys <= old(groups.Keys)
      ensures Settled(of, old(groups)) ==> Quiet(old(groups)) && visited == MembersOf(old(groups), old(groups.Keys))
    {
      ghost var initial := groups;
      assert MembersOf(initial, Keys(scan[..0])) == {};
      for i := 0 to |scan|
        invariant Valid(initial) && groups.Keys <= initial.Keys
        invariant done <= Keys(scan[..i]) && groups.Keys - done == Keys(scan[i..])
        invariant Settled(of, initial) ==> Quiet(initial) && visited == MembersOf(initial, Keys(scan[..i]))
        invariant Course(of, initial, scan[..i], groups, visited, done, dropped) && Noted(changed, dropped)
        modifies `groups, `visited, `changed, `puts, `deletes, `done, `dropped
      {
        var key := scan[i];
        ScanStep(scan, i);
        assert key in groups && key !in done;
        ghost var before, kept := groups, done;
        ghost var seen, had := visited, dropped;
        RefreshGroup(key, initial, Keys(scan[..i]));
        NextRound(of, initial, scan, i, before, seen, kept, had, groups, visited, dropped);
        LeftToScan(before, groups, kept, key, Keys(scan[i + 1..]));
      }
      assert scan[..|scan|] == scan && Keys(scan) == initial.Keys;
      assert scan[|scan|..] == [] && groups.Keys - done == {};
    }

    lemma {:induction false} ScanStep(scan: seq<nat>, i: nat)
      requires NoRepeats(scan) && i < |scan|
      ensures Keys(scan[..i + 1]) == Keys(scan[..i]) + {scan[i]} && scan[i] !in Keys(scan[..i])
      ensures Keys(scan[i..]) == Keys(scan[i + 1..]) + {scan[i]} && scan[i] !in Keys(scan[i + 1..])
    {
      assert scan[..i + 1] == scan[..i] + [scan[i]] && scan[i..] == [scan[i]] + scan[i + 1..];
    }

    /** Stores the members just computed for an id no stored group led to. */
    method StoreNew(bugIds: seq<string>, ghost a: string, ghost before: set<string>, ghost initial: Groups)
      requires Adding(of, initial, groups, before, changed, nextKey, dropped) && a !in before
      requires visited == before + of(a)
      requires IsSortedOf(bugIds, of(a)) && done == groups.Keys
      modifies `groups, `changed, `puts, `nextKey, `done
      ensures Adding(of, initial, groups, visited, changed, nextKey, dropped) && done == groups.Keys
      ensures OldSame(initial, old(groups), groups)
      ensures !ValidSize(of(a)) ==> groups == old(groups) && changed == old(changed) && puts == old(puts)
    {
      AddingOne(of, initial, groups, before, changed, nextKey, dropped, a, bugIds);
      CreateGroup(bugIds);
      done := groups.Keys;
    }

    /** One round of the loop over the ids that have aliases. */
    method AddGroup(bugId: string, ghost initial: Groups)
      requires of == Components(graph) && bugId !in visited
      requires Adding(of, initial, groups, visited, changed, nextKey, dropped) && done == groups.Keys
      modifies this
      ensures Adding(of, initial, groups, visited, changed, nextKey, dropped) && done == groups.Keys
      ensures bugId in visited && old(visited) <= visited
      ensures deletes == old(deletes) && dropped == old(dropped) && OldSame(initial, old(groups), groups)
      ensures AllVisited(of, old(visited)) ==> groups == old(groups) && changed == old(changed) && puts == old(puts)
    {
      assert bugId in of(bugId) && (AllVisited(of, visited) ==> !ValidSize(of(bugId)));
      ghost var before := visited;
      var bugIds := ComputeAliases(bugId);
      StoreNew(bugIds, bugId, before, initial);
    }

    /** The loop over the ids that have aliases. */
    method AddGroups(ghost initial: Groups, ghost settled: bool)
      requires of == Components(graph)
      requires Adding(of, initial, groups, visited, changed, nextKey, dropped) && done == groups.Keys
      requires settled ==> Quiet(initial) && AllVisited(of, visited)
      modifies this
      ensures Adding(of, initial, groups, visited, changed, nextKey, dropped) && done == groups.Keys
      ensures graph.Keys <= visited
      ensures dropped == old(dropped) && OldSame(initial, old(groups), groups)
      ensures settled ==> Quiet(initial)
    {
      var rest := graph.Keys;
      while rest != {}
        invariant Adding(of, initial, groups, visited, changed, nextKey, dropped) && done == groups.Keys
        invariant graph.Keys - rest <= visited
        invariant settled ==> Quiet(initial) && AllVisited(of, visited)
        invariant dropped == old(dropped) && OldSame(initial, old(groups), groups)
        decreases rest
      {
        var bugId :| bugId in rest;
        rest := rest - {bugId};
        if bugId !in visited {
          AddGroup(bugId, initial);
        }
      }
    }

    /** run(): for any store of non-empty groups and any graph of aliases, the store is settled
        afterwards, and a store that was settled is not written. Which stored groups are left and what
        is recorded is determined by the groups it began with and the order of the scan. */
    method Run(scan: seq<nat>)
      requires of == Components(graph) && AliasGraph(graph) && Valid(groups) && Scans(scan, groups)
      requires visited == {} && changed == map[] && puts == 0 && deletes == 0 && done == {} && dropped == {}
      requires Below(groups, nextKey) && forall k :: k in groups ==> groups[k] != []
      modifies this
      ensures Settled(of, groups) && LeftExactly(of, old(groups), scan, groups)
      ensures ChangedExactly(of, old(groups), scan, groups, changed)
      ensures Settled(of, old(groups)) ==> Quiet(old(groups))
    {
      ghost var initial := groups;
      RefreshGroups(scan);
      ghost var settled := Settled(of, initial);
      if settled { SettledVisited(of, initial, visited); }
      ghost var between, seen := groups, visited;
      AddGroups(initial, settled);
      GraphVisited(graph, visited);
      AllDoneIsSettled(of, initial, groups, visited);
      CourseEnds(of, initial, scan, between, seen, dropped, groups, changed);
    }
  }

  // ----- a stale entry

  lemma {:induction false} PairIsComponent(g: Graph, a: string, b: string)
    requires a != b && g == map[a := {b}, b := {a}]
    ensures AliasGraph(g) && Component(g, a) == {a, b} && ValidSize(Component(g, a))
  {
    EdgeReaches(g, a, b);
    ConnectedInComponent(g, a, a);
    ConnectedInComponent(g, a, b);
    ClosedIsComponent(g, {a, b}, a);
  }

  /** A group scanned first stays, and the next one of its class is merged. */
  lemma {:induction false} FirstStays(of: Classes, initial: Groups, scan: seq<nat>)
    requires NonEmpty(initial, scan) && |scan| == 2 && ValidSize(of(initial[scan[0]][0]))
    requires initial[scan[1]][0] in of(initial[scan[0]][0])
    ensures scan[0] in Staying(of, initial, scan) && Merged(of, initial, scan, 1)
  {
    CourseUnfolds(of, initial, scan);
    CourseUnfolds(of, initial, scan[..1]);
    assert Reached(of, initial, scan[..1][..0]) == {};
  }

  lemma {:induction false} StaysAndStale(of: Classes, initial: Groups, scan: seq<nat>, after: Groups, changed: Changes,
        a: string, ids: seq<string>)
    requires IsPartition(of) && NonEmpty(initial, scan) && |scan| == 2
    requires initial[scan[0]] == ids && ids[0] == initial[scan[1]][0] == a && IsSortedOf(ids, of(a)) && ValidSize(of(a))
    requires Settled(of, after) && LeftExactly(of, initial, scan, after)
    requires ChangedExactly(of, initial, scan, after, changed)
    ensures ids in after.Values && a in changed && changed[a] == None
  {
    var k := scan[0];
    FirstStays(of, initial, scan);
    SortedUnique(after[k], ids);
    assert Merged(of, initial, scan, 1) && a in initial[scan[1]];
    StaleExactly(of, initial, scan, after, changed, k, a);
  }

  /** One whole run on given groups. */
  method RunOn(graph: Graph, initial: Groups, nextKey: nat, scan: seq<nat>) returns (groups: Groups, changed: Changes)
    requires AliasGraph(graph) && Scans(scan, initial) && Below(initial, nextKey) && forall k ::
             k in initial ==> initial[k] != []
    ensures Settled(Components(graph), groups) && LeftExactly(Components(graph), initial, scan, groups)
    ensures ChangedExactly(Components(graph), initial, scan, groups, changed)
  {
    var run := new Maintenance(graph, initial, nextKey);
    run.Run(scan);
    return run.groups, run.changed;
  }

  lemma {:induction false} TwoGroups(g: Graph, initial: Groups, scan: seq<nat>, a: string, b: string, c: string,
        after: Groups, changed: Changes)
    requires Lt(a, b) && a != b && g == map[a := {b}, b := {a}]
    requires initial == map[0 := [a, b], 1 := [a, c]] && scan == [0, 1]
    requires Settled(Components(g), after) && LeftExactly(Components(g), initial, scan, after)
    requires ChangedExactly(Components(g), initial, scan, after, changed)
    ensures [a, b] in after.Values && a in changed && changed[a] == None
  {
    PairIsComponent(g, a, b);
    ComponentsPartition(g);
    assert Elements([a, b]) == {a, b};
    StaysAndStale(Components(g), initial, scan, after, changed, a, [a, b]);
  }

  /** Two stored groups share an id, and the first of them is right. The run deletes the second and
      records the shared id as deleted: its aliases would be cleared although its group is still there. */
  method StaleEntry(a: string, b: string, c: string) returns (groups: Groups, changed: Changes)
    requires Lt(a, b)
    ensures [a, b] in groups.Values && a in changed && changed[a] == None
  {
    LtIrreflexive(a);
    var g: Graph, initial: Groups, scan: seq<nat> := map[a := {b}, b := {a}], map[0 := [a, b], 1 := [a, c]], [0, 1];
    PairIsComponent(g, a, b);
    groups, changed := RunOn(g, initial, 2, scan);
    TwoGroups(g, initial, scan, a, b, c, groups, changed);
  }
}
