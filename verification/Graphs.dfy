/** Directed graphs as maps from a node to the set of its successors. */
module Graphs {
  import opened Sorting
  import opened StringSets

  type Graph = map<string, set<string>>

  function Succ(g: Graph, n: string): set<string> { if n in g then g[n] else {} }

  function AllNodes(g: Graph): set<string> { g.Keys + set n, m | n in g && m in g[n] :: m }

  lemma {:induction false} SuccInAll(g: Graph, n: string)
    ensures Succ(g, n) <= AllNodes(g)
  {
  }

  /** A walk: consecutive nodes are joined by an edge. */
  ghost predicate IsWalk(g: Graph, p: seq<string>) {
    p != [] && forall i :: 0 <= i < |p| - 1 ==> p[i + 1] in Succ(g, p[i])
  }

  ghost predicate WalkFromTo(g: Graph, p: seq<string>, a: string, b: string) {
    IsWalk(g, p) && p[0] == a && p[|p| - 1] == b
  }

  /** b is reachable from a in one or more steps. */
  ghost predicate Reaches(g: Graph, a: string, b: string) {
    exists p :: |p| >= 2 && WalkFromTo(g, p, a, b)
  }

  ghost predicate Cyclic(g: Graph) { exists n :: Reaches(g, n, n) }

  lemma {:induction false} EdgeReaches(g: Graph, a: string, b: string)
    requires b in Succ(g, a)
    ensures Reaches(g, a, b)
  {
    assert WalkFromTo(g, [a, b], a, b);
  }

  lemma {:induction false} JoinWalks(g: Graph, p: seq<string>, q: seq<string>)
    requires IsWalk(g, p) && IsWalk(g, q) && p[|p| - 1] == q[0]
    ensures WalkFromTo(g, p + q[1..], p[0], q[|q| - 1])
  {
    var r := p + q[1..];
    forall i | 0 <= i < |r| - 1 ensures r[i + 1] in Succ(g, r[i]) {
      if i >= |p| - 1 { assert r[i + 1] == q[i + 2 - |p|] && r[i] == q[i + 1 - |p|]; }
    }
  }

  lemma {:induction false} ReachesTransitive(g: Graph, a: string, b: string, c: string)
    requires Reaches(g, a, b) && Reaches(g, b, c)
    ensures Reaches(g, a, c)
  {
    var p :| |p| >= 2 && WalkFromTo(g, p, a, b);
    var q :| |q| >= 2 && WalkFromTo(g, q, b, c);
    JoinWalks(g, p, q);
  }

  /** The first step of a walk. */
  lemma {:induction false} FirstStep(g: Graph, a: string, c: string) returns (b: string)
    requires Reaches(g, a, c)
    ensures b in Succ(g, a) && (b == c || Reaches(g, b, c))
  {
    var p :| |p| >= 2 && WalkFromTo(g, p, a, c);
    b := p[1];
    if |p| > 2 { assert WalkFromTo(g, p[1..], b, c); }
  }

  lemma {:induction false} LastStep(g: Graph, a: string, c: string) returns (b: string)
    requires Reaches(g, a, c)
    ensures c in Succ(g, b) && (b == a || Reaches(g, a, b))
  {
    var p :| |p| >= 2 && WalkFromTo(g, p, a, c);
    b := p[|p| - 2];
    if |p| > 2 { assert WalkFromTo(g, p[..|p| - 1], a, b); }
  }

  // ----- topological orders

  /** Every successor of a listed node is listed before it. */
  ghost predicate Topological(g: Graph, order: seq<string>) {
    forall i, m :: 0 <= i < |order| && m in Succ(g, order[i]) ==> m in order[..i]
  }

  /** Lists every node that has successors. */
  ghost predicate Complete(g: Graph, order: seq<string>) { forall n :: n in g ==> n in order }

  lemma {:induction false} WalkDescends(g: Graph, order: seq<string>, p: seq<string>, i: nat)
    requires Topological(g, order) && IsWalk(g, p) && |p| >= 2
    requires i < |order| && order[i] == p[0]
    ensures p[|p| - 1] in order[..i]
  {
    assert p[1] in order[..i];
    var k :| 0 <= k < i && order[k] == p[1];
    if |p| > 2 {
      assert IsWalk(g, p[1..]);
      WalkDescends(g, order, p[1..], k);
    }
  }

  lemma {:induction false} NotBeforeItself(order: seq<string>, i: nat)
    requires NoRepeats(order) && i < |order|
    ensures order[i] !in order[..i]
  {
  }

  /** A complete topological order excludes cycles. */
  lemma {:induction false} OrderedIsAcyclic(g: Graph, order: seq<string>)
    requires NoRepeats(order) && Topological(g, order) && Complete(g, order)
    ensures !Cyclic(g)
  {
    forall n ensures !Reaches(g, n, n) {
      if p :| |p| >= 2 && WalkFromTo(g, p, n, n) {
        assert p[0 + 1] in Succ(g, p[0]) && n in g;
        var i :| 0 <= i < |order| && order[i] == n;
        NotBeforeItself(order, i);
        WalkDescends(g, order, p, i);
        assert false;
      }
    }
  }

  lemma {:induction false} ClosesCycle(g: Graph, path: seq<string>, k: nat, y: string)
    requires IsWalk(g, path) && k < |path| && path[k] == y && y in Succ(g, path[|path| - 1])
    ensures Cyclic(g)
  {
    var loop := path[k..] + [y];
    assert WalkFromTo(g, loop, y, y);
    assert Reaches(g, y, y);
  }

  /** Walking on from x through nodes outside `done` ends, as the graph has no cycle. */
  lemma {:induction false} FindReady(g: Graph, done: set<string>, path: seq<string>) returns (x: string)
    requires !Cyclic(g) && IsWalk(g, path)
    requires forall i :: 0 <= i < |path| ==> path[i] !in done && path[i] in AllNodes(g)
    ensures x !in done && x in AllNodes(g) && Succ(g, x) <= done
    decreases AllNodes(g) - Elements(path)
  {
    var last := path[|path| - 1];
    if Succ(g, last) <= done {
      x := last;
    } else {
      var y :| y in Succ(g, last) && y !in done;
      if y in path {
        var k :| 0 <= k < |path| && path[k] == y;
        ClosesCycle(g, path, k, y);
        assert false;
      }
      SuccInAll(g, last);
      assert y in AllNodes(g) - Elements(path) && y !in AllNodes(g) - Elements(path + [y]);
      x := FindReady(g, done, path + [y]);
    }
  }

  lemma {:induction false} ExtendOrder(g: Graph, order: seq<string>) returns (full: seq<string>)
    requires !Cyclic(g) && NoRepeats(order) && Topological(g, order) && Elements(order) <= AllNodes(g)
    ensures NoRepeats(full) && Topological(g, full) && Complete(g, full)
    decreases AllNodes(g) - Elements(order)
  {
    if Complete(g, order) {
      full := order;
    } else {
      var n :| n in g && n !in order;
      var x := FindReady(g, Elements(order), [n]);
      var longer := order + [x];
      forall i, m | 0 <= i < |longer| && m in Succ(g, longer[i]) ensures m in longer[..i] {
        if i < |order| {
          assert longer[..i] == order[..i];
        } else {
          assert longer[..i] == order;
        }
      }
      assert x in AllNodes(g) - Elements(order) && x !in AllNodes(g) - Elements(longer);
      full := ExtendOrder(g, longer);
    }
  }

  /** A graph is acyclic exactly if it has a complete topological order. */
  lemma {:induction false} AcyclicIffOrdered(g: Graph)
    ensures !Cyclic(g) <==> exists order :: NoRepeats(order) && Topological(g, order) && Complete(g, order)
  {
    if !Cyclic(g) {
      var order := ExtendOrder(g, []);
    }
    forall order | NoRepeats(order) && Topological(g, order) && Complete(g, order) ensures !Cyclic(g) {
      OrderedIsAcyclic(g, order);
    }
  }

  // ----- reversal

  ghost predicate IsReverse(g: Graph, r: Graph) { forall a, b :: a in Succ(r, b) <==> b in Succ(g, a) }

  ghost function Reversed(p: seq<string>): (q: seq<string>)
    ensures |q| == |p| && forall i :: 0 <= i < |p| ==> q[i] == p[|p| - 1 - i]
  {
    seq(|p|, i requires 0 <= i < |p| => p[|p| - 1 - i])
  }

  lemma {:induction false} ReverseReaches(g: Graph, r: Graph, a: string, b: string)
    requires IsReverse(g, r) && Reaches(g, a, b)
    ensures Reaches(r, b, a)
  {
    var p :| |p| >= 2 && WalkFromTo(g, p, a, b);
    var q := Reversed(p);
    forall i | 0 <= i < |q| - 1 ensures q[i + 1] in Succ(r, q[i]) {
      var k := |p| - 2 - i;
      assert q[i + 1] == p[k] && q[i] == p[k + 1] && p[k + 1] in Succ(g, p[k]);
    }
    assert WalkFromTo(r, q, b, a);
  }

  /** A graph and its reverse have cycles together. */
  lemma {:induction false} ReverseKeepsCycles(g: Graph, r: Graph)
    requires IsReverse(g, r)
    ensures Cyclic(g) <==> Cyclic(r)
  {
    if Cyclic(g) {
      var n :| Reaches(g, n, n);
      ReverseReaches(g, r, n, n);
    }
    if Cyclic(r) {
      var n :| Reaches(r, n, n);
      assert IsReverse(r, g);
      ReverseReaches(r, g, n, n);
    }
  }
}
