/** The website's upstream hierarchy: cycle detection by depth-first search, reversal,
    and the recursive printer that the cycle check protects. */
module Hierarchy {
  import opened Graphs
  import opened StringSets
  import opened Ecosystems
  import opened Sorting

  // ----- cycle detection

  class CycleFinder {
    var visited: set<string>
    var recursionStack: set<string>
    ghost var path: seq<string>   // the recursion stack, in order
    ghost var order: seq<string>  // the finished nodes, in order

    /** Visited nodes are on the stack or finished; the stack is a walk; finished nodes
        have only finished successors, each finished earlier. */
    ghost predicate Valid(g: Graph)
      reads this
    {
      && recursionStack == Elements(path) && NoRepeats(path) && (path != [] ==> IsWalk(g, path))
      && NoRepeats(order) && Topological(g, order)
      && visited == recursionStack + Elements(order) && recursionStack !! Elements(order)
      && visited <= AllNodes(g)
    }

    constructor (g: Graph)
      ensures Valid(g) && visited == {} && path == [] && order == []
    {
      visited, recursionStack, path, order := {}, {}, [], [];
    }

    method Enter(g: Graph, node: string)
      requires Valid(g) && node !in visited && node in AllNodes(g)
      requires path == [] || node in Succ(g, path[|path| - 1])
      modifies this
      ensures Valid(g) && visited == old(visited) + {node} && path == old(path) + [node] && order == old(order)
    {
      visited := visited + {node};
      recursionStack := recursionStack + {node};
      path := path + [node];
    }

    method Leave(g: Graph, node: string)
      requires Valid(g) && path != [] && path[|path| - 1] == node && Succ(g, node) <= Elements(order)
      modifies this
      ensures Valid(g) && visited == old(visited) && path == old(path[..|path| - 1]) && order == old(order) + [node]
    {
      assert node in Elements(path) && node !in Elements(order);
      recursionStack := recursionStack - {node};
      ghost var was, done := path, order;
      path := path[..|path| - 1];
      order := order + [node];
      assert was == path + [node];
      OneMoreListed(g, done, node);
    }

    static lemma {:induction false} OneMoreListed(g: Graph, done: seq<string>, node: string)
      requires NoRepeats(done) && Topological(g, done) && node !in Elements(done) && Succ(g, node) <= Elements(done)
      ensures NoRepeats(done + [node]) && Topological(g, done + [node])
      ensures Elements(done + [node]) == Elements(done) + {node}
    {
      var order := done + [node];
      forall i, m | 0 <= i < |order| && m in Succ(g, order[i]) ensures m in order[..i] {
        if i < |done| { assert order[..i] == done[..i]; } else { assert order[..i] == done; }
      }
    }

    /** The inner function dfs. On a cycle the fields are left as they are. */
    method Dfs(g: Graph, node: string) returns (found: bool)
      requires Valid(g) && node !in visited && node in AllNodes(g)
      requires path == [] || node in Succ(g, path[|path| - 1])
      modifies this
      ensures found ==> Cyclic(g)
      ensures !found ==> Valid(g) && path == old(path) && old(visited) <= visited
      ensures !found ==> node in Elements(order) && Elements(old(order)) <= Elements(order)
      decreases AllNodes(g) - visited
    {
      Enter(g, node);
      ghost var entered := path;
      assert node in visited;
      var neighbors := Succ(g, node);
      SuccInAll(g, node);
      while neighbors != {}
        invariant Valid(g) && path == entered && old(visited) + {node} <= visited
        invariant neighbors <= Succ(g, node) && Succ(g, node) - neighbors <= Elements(order)
        invariant Elements(old(order)) <= Elements(order)
        decreases neighbors
      {
        var neighbor :| neighbor in neighbors;
        neighbors := neighbors - {neighbor};
        if neighbor in recursionStack {
          ghost var k :| 0 <= k < |path| && path[k] == neighbor;
          ClosesCycle(g, path, k, neighbor);
          return true;
        }
        if neighbor !in visited {
          var inner := Dfs(g, neighbor);
          if inner { return true; }
        }
      }
      Leave(g, node);
      assert order[|order| - 1] == node;
      found := false;
    }
  }

  /** has_cycle: true exactly if the adjacency map has a directed cycle. */
  method HasCycle(g: Graph) returns (found: bool)
    ensures found <==> Cyclic(g)
  {
    var f := new CycleFinder(g);
    var nodes := g.Keys;
    while nodes != {}
      invariant f.Valid(g) && f.path == [] && fresh(f)
      invariant nodes <= g.Keys && g.Keys - nodes <= Elements(f.order)
      decreases nodes
    {
      var node :| node in nodes;
      nodes := nodes - {node};
      if node !in f.visited {
        found := f.Dfs(g, node);
        if found { return; }
      }
    }
    forall n | n in g ensures n in f.order { assert n in Elements(f.order); }
    OrderedIsAcyclic(g, f.order);
    found := false;
  }

  // ----- reversal

  /** The inner loop of reverse_tree, for one node. */
  method AddReversed(r: Graph, node: string, children: set<string>) returns (r': Graph)
    ensures forall a, b :: a in Succ(r', b) <==> a in Succ(r, b) || (a == node && b in children)
    ensures r'.Keys == r.Keys + children
  {
    r' := r;
    var todo := children;
    while todo != {}
      invariant todo <= children && r'.Keys == r.Keys + (children - todo)
      invariant forall a, b :: a in Succ(r', b) <==> a in Succ(r, b) || (a == node && b in children - todo)
      decreases todo
    {
      var child :| child in todo;
      todo := todo - {child};
      ghost var was := r';
      r' := r'[child := Succ(r', child) + {node}];
      forall a, b
        ensures a in Succ(r', b) <==> a in Succ(was, b) || (a == node && b == child)
      {
      }
      assert children - todo == children - (todo + {child}) + {child};
    }
  }

  predicate EdgeFrom(g: Graph, sources: set<string>, a: string, b: string) { a in sources && b in Succ(g, a) }

  /** reverse_tree: the same edges, turned around, and a key for every child. */
  method ReverseTree(g: Graph) returns (r: Graph)
    ensures IsReverse(g, r)
    ensures forall b :: b in r <==> exists a :: a in g && b in g[a]
  {
    r := map[];
    var nodes := g.Keys;
    ghost var done := {};
    while nodes != {}
      invariant nodes + done == g.Keys && nodes !! done
      invariant forall a, b :: a in Succ(r, b) <==> EdgeFrom(g, done, a, b)
      invariant forall b :: b in r <==> exists a :: EdgeFrom(g, done, a, b)
      decreases nodes
    {
      var node :| node in nodes;
      ghost var was, before := r, done;
      nodes := nodes - {node};
      done := done + {node};
      r := AddReversed(r, node, g[node]);
      forall a, b ensures a in Succ(r, b) <==> EdgeFrom(g, done, a, b) {
        assert EdgeFrom(g, done, a, b) <==> EdgeFrom(g, before, a, b) || (a == node && b in g[node]);
      }
      forall b ensures b in r <==> exists a :: EdgeFrom(g, done, a, b) {
        if b in g[node] { assert EdgeFrom(g, done, node, b); }
        if a :| EdgeFrom(g, before, a, b) { assert EdgeFrom(g, done, a, b); }
        if a :| EdgeFrom(g, done, a, b) { assert a != node ==> EdgeFrom(g, before, a, b); }
      }
    }
    forall a, b ensures a in Succ(r, b) <==> b in Succ(g, a) {
      assert a in Succ(r, b) <==> EdgeFrom(g, done, a, b);
    }
    forall b ensures b in r <==> exists a :: a in g && b in g[a] {
      if a :| a in g && b in g[a] { assert EdgeFrom(g, done, a, b); }
    }
  }

  /** has_cycle gives the same answer on a map and on its reversal. */
  method SameAnswerReversed(g: Graph) returns (forward: bool, backward: bool)
    ensures forward == backward
  {
    forward := HasCycle(g);
    var r := ReverseTree(g);
    backward := HasCycle(r);
    ReverseKeepsCycles(g, r);
  }

  // ----- the hierarchy of a vulnerability

  datatype ComputedHierarchy = ComputedHierarchy(rootNodes: set<string>, graph: Graph)

  function AllChildren(g: Graph): set<string> { set n, m | n in g && m in g[n] :: m }

  /** get_upstreams_of_vulnerability on the stored hierarchy: refused if empty or cyclic. */
  method GetUpstreams(stored: Graph) returns (h: Option<ComputedHierarchy>)
    ensures h.Some? <==> stored != map[] && !Cyclic(stored)
    ensures h.Some? ==> IsReverse(stored, h.value.graph) && !Cyclic(h.value.graph)
    ensures h.Some? ==> h.value.rootNodes == AllChildren(stored) - stored.Keys
  {
    if stored == map[] { return None; }
    var reversed := ReverseTree(stored);
    ReverseKeepsCycles(stored, reversed);
    var found := HasCycle(reversed);
    if found { return None; }
    var allChildren := {};
    var nodes := stored.Keys;
    while nodes != {}
      invariant nodes <= stored.Keys
      invariant allChildren == set n, m | n in stored.Keys - nodes && m in stored[n] :: m
      decreases nodes
    {
      var node :| node in nodes;
      nodes := nodes - {node};
      allChildren := allChildren + stored[node];
    }
    h := Some(ComputedHierarchy(allChildren - stored.Keys, reversed));
  }

  // ----- printing

  /** The lines print_subtree appends: list tags around the items. */
  datatype Line = OpenAliases | OpenSubstream | Item(id: string, linked: bool) | Close

  /** Position of v in the order, one above the end if it is not listed. */
  ghost function Rank(order: seq<string>, v: string): (r: nat)
    ensures v in order ==> r < |order| && order[r] == v
    ensures v !in order ==> r == |order|
  {
    if order == [] then 0 else if order[0] == v then 0 else 1 + Rank(order[1..], v)
  }

  /** Successors rank lower; a node that is not listed has none. */
  lemma {:induction false} SuccessorRanksLower(g: Graph, order: seq<string>, v: string, m: string)
    requires NoRepeats(order) && Topological(g, order) && Complete(g, order) && m in Succ(g, v)
    ensures Rank(order, m) < Rank(order, v)
  {
    var i := Rank(order, v);
    assert v in order && m in order[..i];
    var k :| 0 <= k < i && order[k] == m;
    assert order[Rank(order, m)] == m;
  }

  /** A complete topological order of an acyclic graph, chosen once. */
  ghost function OrderOf(g: Graph): (order: seq<string>)
    requires !Cyclic(g)
    ensures NoRepeats(order) && Topological(g, order) && Complete(g, order)
  {
    AcyclicIffOrdered(g);
    var order :| NoRepeats(order) && Topological(g, order) && Complete(g, order);
    order
  }

  function OwnLines(target: string, known: set<string>, v: string): seq<Line> {
    if v == target then [] else [Item(v, v in known)]
  }

  /** What print_subtree prints for v. */
  ghost function Subtree(g: Graph, target: string, known: set<string>, v: string): seq<Line>
    requires !Cyclic(g)
    decreases Rank(OrderOf(g), v), 1, 0
  {
    OwnLines(target, known, v) + Children(g, target, known, v, SortedOf(Succ(g, v)))
  }

  /** What its loop prints for the children in `list`. */
  ghost function Children(g: Graph, target: string, known: set<string>, v: string, list: seq<string>): seq<Line>
    requires !Cyclic(g) && Elements(list) <= Succ(g, v)
    decreases Rank(OrderOf(g), v), 0, |list|
  {
    if list == [] then []
    else
      assert list[0] in Elements(list);
      assert Elements(list[1..]) <= Elements(list);
      SuccessorRanksLower(g, OrderOf(g), v, list[0]);
      ChildLines(g, target, known, list[0]) + Children(g, target, known, v, list[1..])
  }

  /** One round of that loop. */
  ghost function ChildLines(g: Graph, target: string, known: set<string>, child: string): seq<Line>
    requires !Cyclic(g)
    decreases Rank(OrderOf(g), child), 2, 0
  {
    if child == target then [] else [OpenSubstream] + Subtree(g, target, known, child) + [Close]
  }

  ghost function RootLines(g: Graph, target: string, known: set<string>, root: string): seq<Line>
    requires !Cyclic(g)
  {
    [OpenAliases] + Subtree(g, target, known, root) + [Close]
  }

  ghost function Roots(g: Graph, target: string, known: set<string>, roots: seq<string>): seq<Line>
    requires !Cyclic(g)
  {
    if roots == [] then [] else RootLines(g, target, known, roots[0]) + Roots(g, target, known, roots[1..])
  }

  class Printer {
    const graph: Graph
    const target: string
    const known: set<string>
    var outputLines: seq<Line>

    constructor (graph: Graph, target: string, known: set<string>)
      ensures this.graph == graph && this.target == target && this.known == known && outputLines == []
    {
      this.graph, this.target, this.known := graph, target, known;
      outputLines := [];
    }

    method Append(line: Line)
      modifies `outputLines
      ensures outputLines == old(outputLines) + [line]
    {
      outputLines := outputLines + [line];
    }

    /** Terminates on every acyclic graph, which is what the cycle check is for. */
    method PrintSubtree(v: string)
      requires !Cyclic(graph)
      modifies `outputLines
      ensures outputLines == old(outputLines) + Subtree(graph, target, known, v)
      decreases Rank(OrderOf(graph), v), 2
    {
      if v != target { Append(Item(v, v in known)); }
      assert outputLines == old(outputLines) + OwnLines(target, known, v);
      ghost var own := outputLines;
      if v in graph {
        var children := SortSet(graph[v]);
        PrintChildren(v, children);
      }
      Associative(old(outputLines), OwnLines(target, known, v),
        Children(graph, target, known, v, SortedOf(Succ(graph, v))));
    }

    method PrintChildren(v: string, children: seq<string>)
      requires !Cyclic(graph) && Elements(children) <= Succ(graph, v)
      modifies `outputLines
      ensures outputLines == old(outputLines) + Children(graph, target, known, v, children)
      decreases Rank(OrderOf(graph), v), 1
    {
      ghost var todo := children;
      for i := 0 to |children|
        invariant todo == children[i..] && Elements(todo) <= Succ(graph, v)
        invariant outputLines + Children(graph, target, known, v, todo) ==
                  old(outputLines) + Children(graph, target, known, v, children)
      {
        var child := children[i];
        assert child in Elements(todo) && Elements(todo[1..]) <= Elements(todo);
        SuccessorRanksLower(graph, OrderOf(graph), v, child);
        ghost var was, rest := outputLines, Children(graph, target, known, v, todo[1..]);
        PrintChild(child);
        Associative(was, ChildLines(graph, target, known, child), rest);
        todo := todo[1..];
      }
      assert outputLines + [] == outputLines;
    }

    method PrintChild(child: string)
      requires !Cyclic(graph)
      modifies `outputLines
      ensures outputLines == old(outputLines) + ChildLines(graph, target, known, child)
      decreases Rank(OrderOf(graph), child), 3
    {
      if child != target {
        ghost var was, lines := outputLines, Subtree(graph, target, known, child);
        Append(OpenSubstream);
        PrintSubtree(child);
        Append(Close);
        Bracketed(was, OpenSubstream, lines);
      }
    }

    static lemma {:induction false} Bracketed(was: seq<Line>, open: Line, lines: seq<Line>)
      ensures ((was + [open]) + lines) + [Close] == was + ([open] + lines + [Close])
    {
    }

    /** construct_hierarchy_string: one list for each root. */
    method PrintRoots(roots: seq<string>)
      requires !Cyclic(graph)
      modifies `outputLines
      ensures outputLines == old(outputLines) + Roots(graph, target, known, roots)
    {
      ghost var todo := roots;
      for i := 0 to |roots|
        invariant todo == roots[i..]
        invariant outputLines + Roots(graph, target, known, todo) ==
                  old(outputLines) + Roots(graph, target, known, roots)
      {
        ghost var was, rest := outputLines, Roots(graph, target, known, todo[1..]);
        PrintRoot(roots[i]);
        Associative(was, RootLines(graph, target, known, roots[i]), rest);
        todo := todo[1..];
      }
      assert outputLines + [] == outputLines;
    }

    method PrintRoot(root: string)
      requires !Cyclic(graph)
      modifies `outputLines
      ensures outputLines == old(outputLines) + RootLines(graph, target, known, root)
    {
      Append(OpenAliases);
      PrintSubtree(root);
      Append(Close);
    }
  }

  /** From a stored hierarchy to the printed lines; nothing for an empty or cyclic one. */
  method ConstructHierarchy(stored: Graph, target: string, known: set<string>) returns (lines: Option<seq<Line>>)
    ensures lines.Some? <==> stored != map[] && !Cyclic(stored)
    ensures lines.Some? ==>
              exists reversed :: IsReverse(stored, reversed) && !Cyclic(reversed)
                && lines.value == Roots(reversed, target, known, SortedOf(AllChildren(stored) - stored.Keys))
  {
    var h := GetUpstreams(stored);
    if h.None? { return None; }
    var printer := new Printer(h.value.graph, target, known);
    var roots := SortSet(h.value.rootNodes);
    printer.PrintRoots(roots);
    assert [] + Roots(h.value.graph, target, known, roots) == Roots(h.value.graph, target, known, roots);
    lines := Some(printer.outputLines);
  }

  // ----- what is printed

  predicate Prints(lines: seq<Line>, x: string, known: set<string>) { Item(x, x in known) in lines }

  /** A walk from a to b that does not come (back) to the target. */
  ghost predicate Avoiding(g: Graph, target: string, a: string, b: string) {
    exists p :: WalkFromTo(g, p, a, b) && forall i :: 1 <= i < |p| ==> p[i] != target
  }

  lemma {:induction false} AvoidingStep(g: Graph, target: string, a: string, b: string)
    ensures Avoiding(g, target, a, b) <==>
            a == b || exists c :: c in Succ(g, a) && c != target && Avoiding(g, target, c, b)
  {
    if a == b { assert WalkFromTo(g, [a], a, b); }
    if p :| WalkFromTo(g, p, a, b) && forall i :: 1 <= i < |p| ==> p[i] != target {
      if |p| > 1 {
        var q := p[1..];
        assert WalkFromTo(g, q, p[1], b) && forall i :: 1 <= i < |q| ==> q[i] != target;
        assert p[0 + 1] in Succ(g, p[0]);
      }
    }
    if c :| c in Succ(g, a) && c != target && Avoiding(g, target, c, b) {
      var q :| WalkFromTo(g, q, c, b) && forall i :: 1 <= i < |q| ==> q[i] != target;
      var p := [a] + q;
      forall i | 0 <= i < |p| - 1 ensures p[i + 1] in Succ(g, p[i]) {
        if i > 0 { assert q[i - 1 + 1] in Succ(g, q[i - 1]); }
      }
      assert WalkFromTo(g, p, a, b);
    }
  }

  /** A subtree lists exactly the vulnerabilities reachable from its root without passing
      the target again, the target itself excluded, each linked exactly if it is known. */
  lemma {:induction false} SubtreePrintsReachable(g: Graph, target: string, known: set<string>, v: string, x: string)
    requires !Cyclic(g)
    ensures Prints(Subtree(g, target, known, v), x, known) <==> x != target && Avoiding(g, target, v, x)
    ensures Item(x, x !in known) !in Subtree(g, target, known, v)
    decreases Rank(OrderOf(g), v), 1, 0
  {
    AvoidingStep(g, target, v, x);
    var list := SortedOf(Succ(g, v));
    ChildrenPrintReachable(g, target, known, v, list, x);
    assert Elements(list) == Succ(g, v);
    assert forall c :: c in list <==> c in Elements(list);
  }

  lemma {:induction false} ChildrenPrintReachable(g: Graph, target: string, known: set<string>, v: string,
        list: seq<string>, x: string)
    requires !Cyclic(g) && Elements(list) <= Succ(g, v)
    ensures Prints(Children(g, target, known, v, list), x, known) <==>
            x != target && exists c :: c in list && c != target && Avoiding(g, target, c, x)
    ensures Item(x, x !in known) !in Children(g, target, known, v, list)
    decreases Rank(OrderOf(g), v), 0, |list|
  {
    if list != [] {
      var child, rest := list[0], list[1..];
      assert child in Elements(list) && Elements(rest) <= Elements(list);
      SuccessorRanksLower(g, OrderOf(g), v, child);
      ChildPrintsReachable(g, target, known, child, x);
      ChildrenPrintReachable(g, target, known, v, rest, x);
      InEither(ChildLines(g, target, known, child), Children(g, target, known, v, rest), Item(x, x in known));
      InEither(ChildLines(g, target, known, child), Children(g, target, known, v, rest), Item(x, x !in known));
      SomeChild(g, target, list, child, rest, x);
    }
  }

  lemma {:induction false} InEither<T>(a: seq<T>, b: seq<T>, x: T)
    ensures x in a + b <==> x in a || x in b
  {
  }

  lemma {:induction false} SomeChild(g: Graph, target: string, list: seq<string>, child: string, rest: seq<string>,
        x: string)
    requires list != [] && child == list[0] && rest == list[1..]
    ensures (exists c :: c in list && c != target && Avoiding(g, target, c, x)) <==>
            (child != target && Avoiding(g, target, child, x))
            || exists c :: c in rest && c != target && Avoiding(g, target, c, x)
  {
    assert forall c :: c in list <==> c == child || c in rest;
  }

  lemma {:induction false} ChildPrintsReachable(g: Graph, target: string, known: set<string>, child: string, x: string)
    requires !Cyclic(g)
    ensures Prints(ChildLines(g, target, known, child), x, known) <==>
            x != target && child != target && Avoiding(g, target, child, x)
    ensures Item(x, x !in known) !in ChildLines(g, target, known, child)
    decreases Rank(OrderOf(g), child), 2, 0
  {
    if child != target {
      SubtreePrintsReachable(g, target, known, child, x);
      var lines := Subtree(g, target, known, child);
      InEither([OpenSubstream] + lines, [Close], Item(x, x in known));
      InEither([OpenSubstream] + lines, [Close], Item(x, x !in known));
      InEither([OpenSubstream], lines, Item(x, x in known));
      InEither([OpenSubstream], lines, Item(x, x !in known));
    }
  }

  /** Nesting depth after the lines, if no list is closed that was not opened. */
  function DepthAfter(lines: seq<Line>, depth: nat): Option<nat> {
    if lines == [] then Some(depth)
    else
      match lines[0]
      case Item(_, _) => DepthAfter(lines[1..], depth)
      case Close => if depth == 0 then None else DepthAfter(lines[1..], depth - 1)
      case _ => DepthAfter(lines[1..], depth + 1)
  }

  lemma {:induction false} DepthAfterConcat(x: seq<Line>, y: seq<Line>, depth: nat)
    ensures DepthAfter(x + y, depth) == match DepthAfter(x, depth) case None => None case Some(d) => DepthAfter(y, d)
  {
    if x == [] {
      assert x + y == y;
    } else {
      assert (x + y)[1..] == x[1..] + y;
      match x[0] {
        case Item(_, _) => DepthAfterConcat(x[1..], y, depth);
        case Close => if depth > 0 { DepthAfterConcat(x[1..], y, depth - 1); }
        case _ => DepthAfterConcat(x[1..], y, depth + 1);
      }
    }
  }

  lemma {:induction false} WrappedIsBalanced(open: Line, x: seq<Line>, depth: nat)
    requires (open == OpenAliases || open == OpenSubstream) && DepthAfter(x, depth + 1) == Some(depth + 1)
    ensures DepthAfter([open] + x + [Close], depth) == Some(depth)
  {
    assert [open] + x + [Close] == [open] + (x + [Close]);
    DepthAfterConcat(x, [Close], depth + 1);
    assert ([open] + (x + [Close]))[1..] == x + [Close];
    assert [Close][1..] == [];
  }

  /** Every list opened while printing a subtree is closed again. */
  lemma {:induction false} SubtreeIsBalanced(g: Graph, target: string, known: set<string>, v: string, depth: nat)
    requires !Cyclic(g)
    ensures DepthAfter(Subtree(g, target, known, v), depth) == Some(depth)
    decreases Rank(OrderOf(g), v), 1, 0
  {
    var own := OwnLines(target, known, v);
    var list := SortedOf(Succ(g, v));
    ChildrenAreBalanced(g, target, known, v, list, depth);
    DepthAfterConcat(own, Children(g, target, known, v, list), depth);
    assert own != [] ==> own[1..] == [];
  }

  lemma {:induction false} ChildrenAreBalanced(g: Graph, target: string, known: set<string>, v: string,
        list: seq<string>, depth: nat)
    requires !Cyclic(g) && Elements(list) <= Succ(g, v)
    ensures DepthAfter(Children(g, target, known, v, list), depth) == Some(depth)
    decreases Rank(OrderOf(g), v), 0, |list|
  {
    if list != [] {
      var c := list[0];
      assert c in Elements(list) && Elements(list[1..]) <= Elements(list);
      SuccessorRanksLower(g, OrderOf(g), v, c);
      ChildrenAreBalanced(g, target, known, v, list[1..], depth);
      if c != target {
        SubtreeIsBalanced(g, target, known, c, depth + 1);
        WrappedIsBalanced(OpenSubstream, Subtree(g, target, known, c), depth);
      }
      DepthAfterConcat(ChildLines(g, target, known, c), Children(g, target, known, v, list[1..]), depth);
    }
  }

  /** The whole printout: what the roots reach without passing the target, in balanced lists. */
  lemma {:induction false} RootsPrintReachable(g: Graph, target: string, known: set<string>, roots: seq<string>,
        x: string)
    requires !Cyclic(g)
    ensures Prints(Roots(g, target, known, roots), x, known) <==>
            x != target && exists r :: r in roots && Avoiding(g, target, r, x)
    ensures Item(x, x !in known) !in Roots(g, target, known, roots)
    ensures DepthAfter(Roots(g, target, known, roots), 0) == Some(0)
  {
    if roots != [] {
      var r, rest := roots[0], roots[1..];
      SubtreePrintsReachable(g, target, known, r, x);
      SubtreeIsBalanced(g, target, known, r, 1);
      WrappedIsBalanced(OpenAliases, Subtree(g, target, known, r), 0);
      RootsPrintReachable(g, target, known, rest, x);
      DepthAfterConcat(RootLines(g, target, known, r), Roots(g, target, known, rest), 0);
      assert forall c :: c in roots <==> c == r || c in rest;
    }
  }
}
