/** sorted() on a set of strings: the one strictly ascending list of its elements. */
module StringSets {
  import opened Strings

  predicate Ascending(s: seq<string>) { forall i, j :: 0 <= i < j < |s| ==> Lt(s[i], s[j]) }

  function Elements(s: seq<string>): set<string> { set x | x in s }

  predicate IsSortedOf(l: seq<string>, s: set<string>) { Ascending(l) && Elements(l) == s }

  lemma {:induction false} FirstIsLeast(m: seq<string>, x: string)
    requires Ascending(m) && x in Elements(m)
    ensures m != [] && m[0] in Elements(m) && (m[0] == x || Lt(m[0], x))
  {
  }

  lemma {:induction false} HeadIsElement(l: seq<string>)
    ensures l == [] || l[0] in Elements(l)
  {
  }

  lemma {:induction false} SortedUnique(l: seq<string>, m: seq<string>)
    requires Ascending(l) && Ascending(m) && Elements(l) == Elements(m)
    ensures l == m
  {
    if Elements(l) == {} {
      HeadIsElement(l);
      HeadIsElement(m);
    } else {
      var x :| x in Elements(l);
      FirstIsLeast(l, x);
      FirstIsLeast(m, l[0]);
      FirstIsLeast(l, m[0]);
      Trichotomy(l[0], m[0]);
      TailElements(l);
      TailElements(m);
      SortedUnique(l[1..], m[1..]);
      assert l == [l[0]] + l[1..] && m == [m[0]] + m[1..];
    }
  }

  lemma {:induction false} TailElements(l: seq<string>)
    requires l != [] && Ascending(l)
    ensures Elements(l[1..]) == Elements(l) - {l[0]} && Ascending(l[1..])
  {
    LtIrreflexive(l[0]);
    forall x | x in Elements(l) - {l[0]} ensures x in l[1..] {
      var i :| 0 <= i < |l| && l[i] == x;
      assert l[1..][i - 1] == x;
    }
    forall i | 0 <= i < |l[1..]| ensures l[1..][i] != l[0] {
      assert Lt(l[0], l[i + 1]);
    }
  }

  /** Insert x into an ascending list that does not hold it. */
  function InsertInto(x: string, l: seq<string>): seq<string> {
    if l == [] then [x]
    else if Lt(x, l[0]) then [x] + l
    else [l[0]] + InsertInto(x, l[1..])
  }

  lemma {:induction false} InsertIntoSorted(x: string, l: seq<string>)
    requires Ascending(l) && x !in l
    ensures IsSortedOf(InsertInto(x, l), Elements(l) + {x})
  {
    if l != [] {
      if Lt(x, l[0]) {
        forall j | 0 <= j < |l| ensures Lt(x, l[j]) {
          if j > 0 { LtTransitive(x, l[0], l[j]); }
        }
      } else {
        Trichotomy(x, l[0]);
        TailElements(l);
        InsertIntoSorted(x, l[1..]);
        var r := InsertInto(x, l[1..]);
        forall j | 0 <= j < |r| ensures Lt(l[0], r[j]) {
          assert r[j] in Elements(r);
          if r[j] != x { var k :| 0 <= k < |l[1..]| && l[1..][k] == r[j]; assert Lt(l[0], l[k + 1]); }
        }
        assert Elements([l[0]] + r) == {l[0]} + Elements(r);
      }
    }
  }

  /** Python's sorted(s). */
  ghost function SortedOf(s: set<string>): (l: seq<string>)
    ensures IsSortedOf(l, s)
  {
    if s == {} then []
    else
      var x :| x in s;
      var rest := SortedOf(s - {x});
      assert x !in Elements(rest);
      InsertIntoSorted(x, rest);
      InsertInto(x, rest)
  }

  method SortSet(s: set<string>) returns (l: seq<string>)
    ensures l == SortedOf(s)
  {
    l := [];
    var rest := s;
    while rest != {}
      invariant Ascending(l) && Elements(l) + rest == s && Elements(l) !! rest
      decreases rest
    {
      var x :| x in rest;
      assert x !in l by { assert x !in Elements(l); }
      InsertIntoSorted(x, l);
      l := InsertInto(x, l);
      rest := rest - {x};
    }
    SortedUnique(l, SortedOf(s));
  }
}
