/** Python's stable sort, as insertion from the right, and what it guarantees. */
module Sorting {

  lemma {:induction false} Associative<T>(x: seq<T>, y: seq<T>, z: seq<T>)
    ensures (x + y) + z == x + (y + z)
  {
  }

  ghost predicate NoRepeats<T>(s: seq<T>) { forall i, j :: 0 <= i < j < |s| ==> s[i] != s[j] }

  /** Insert x before the first element that is not less than it. */
  function Insert<T>(x: T, s: seq<T>, less: (T, T) -> bool): (r: seq<T>)
    ensures |r| == |s| + 1
    ensures multiset(r) == multiset(s) + multiset{x}
  {
    if s == [] then [x]
    else if less(s[0], x) then
      assert s == [s[0]] + s[1..];
      [s[0]] + Insert(x, s[1..], less)
    else [x] + s
  }

  function Sort<T>(s: seq<T>, less: (T, T) -> bool): (r: seq<T>)
    ensures |r| == |s|
    ensures multiset(r) == multiset(s)
  {
    if s == [] then []
    else
      assert s == [s[0]] + s[1..];
      Insert(s[0], Sort(s[1..], less), less)
  }

  /** A strict weak order on the elements of s. */
  ghost predicate WeakOrderOn<T>(s: seq<T>, less: (T, T) -> bool) {
    && (forall x, y :: x in s && y in s && less(x, y) ==> !less(y, x))
    && (forall x, y, z :: x in s && y in s && z in s && less(x, z) ==> less(x, y) || less(y, z))
  }

  ghost predicate Sorted<T>(s: seq<T>, less: (T, T) -> bool) {
    forall i, j :: 0 <= i < j < |s| ==> !less(s[j], s[i])
  }

  ghost predicate StrictlySorted<T>(s: seq<T>, less: (T, T) -> bool) {
    forall i, j :: 0 <= i < j < |s| ==> less(s[i], s[j])
  }

  lemma {:induction false} SameElements<T>(s: seq<T>, t: seq<T>)
    requires multiset(s) == multiset(t)
    ensures forall x :: x in s ==> x in t
    ensures forall x :: x in t ==> x in s
  {
    forall x | x in s ensures x in t { assert x in multiset(s); }
    forall x | x in t ensures x in s { assert x in multiset(t); }
  }

  lemma {:induction false} ElementsOfCons<T>(s: seq<T>, t: seq<T>)
    requires s != [] && multiset(t) == multiset(s[1..])
    ensures forall y :: y in t ==> y in s
    ensures forall y :: y in [s[0]] + t ==> y in s
  {
    SameElements(t, s[1..]);
    forall y | y in t ensures y in s { assert y in s[1..]; }
    forall y | y in [s[0]] + t ensures y in s { assert y == s[0] || y in t; }
  }

  lemma {:induction false} InsertSorted<T>(x: T, s: seq<T>, less: (T, T) -> bool)
    requires Sorted(s, less) && WeakOrderOn([x] + s, less)
    ensures Sorted(Insert(x, s, less), less)
  {
    var all := [x] + s;
    assert forall y :: y in s ==> y in all;
    assert x in all;
    if s != [] && less(s[0], x) {
      var r := Insert(x, s[1..], less);
      assert forall y :: y in [x] + s[1..] ==> y in all;
      InsertSorted(x, s[1..], less);
      forall y | y in r ensures !less(y, s[0]) {
        assert y in multiset(r);
        assert y == x || y in s[1..];
      }
    } else if s != [] {
      forall j | 0 <= j < |s| ensures !less(s[j], x) {
        if j > 0 { assert !less(s[j], s[0]) && s[j] in all && s[0] in all; }
      }
    }
  }

  lemma {:induction false} SortSorted<T>(s: seq<T>, less: (T, T) -> bool)
    requires WeakOrderOn(s, less)
    ensures Sorted(Sort(s, less), less)
  {
    if s != [] {
      var t := Sort(s[1..], less);
      SortSorted(s[1..], less);
      ElementsOfCons(s, t);
      InsertSorted(s[0], t, less);
    }
  }

  /** Neighbours are in order, whatever the order does further apart. */
  ghost predicate NeighboursSorted<T>(s: seq<T>, less: (T, T) -> bool) {
    forall i :: 0 <= i < |s| - 1 ==> !less(s[i + 1], s[i])
  }

  ghost predicate AsymmetricOn<T>(s: seq<T>, less: (T, T) -> bool) {
    forall x, y :: x in s && y in s && less(x, y) ==> !less(y, x)
  }

  lemma {:induction false} InsertKeepsNeighbours<T>(x: T, s: seq<T>, less: (T, T) -> bool)
    requires NeighboursSorted(s, less) && AsymmetricOn([x] + s, less)
    ensures NeighboursSorted(Insert(x, s, less), less)
    ensures Insert(x, s, less)[0] == x || (s != [] && Insert(x, s, less)[0] == s[0])
  {
    if s != [] && less(s[0], x) {
      var rest := s[1..];
      assert s[0] in [x] + s && x in [x] + s;
      forall y | y in [x] + rest ensures y in [x] + s { assert y == x || y in s; }
      assert forall i :: 0 <= i < |rest| ==> rest[i] == s[i + 1];
      InsertKeepsNeighbours(x, rest, less);
    }
  }

  /** Sorting by an asymmetric order that need not be transitive. */
  lemma {:induction false} SortKeepsNeighbours<T>(s: seq<T>, less: (T, T) -> bool)
    requires AsymmetricOn(s, less)
    ensures NeighboursSorted(Sort(s, less), less)
  {
    if s != [] {
      var t := Sort(s[1..], less);
      ElementsOfCons(s, t);
      assert forall y :: y in s[1..] ==> y in s;
      SortKeepsNeighbours(s[1..], less);
      InsertKeepsNeighbours(s[0], t, less);
    }
  }

  /** Strictly sorted lists with the same elements are the same list. */
  lemma {:induction false} StrictlySortedUnique<T>(s: seq<T>, t: seq<T>, less: (T, T) -> bool)
    requires WeakOrderOn(s, less) && StrictlySorted(s, less) && StrictlySorted(t, less)
    requires multiset(s) == multiset(t)
    ensures s == t
  {
    assert |s| == |multiset(s)| == |multiset(t)| == |t|;
    if s != [] {
      SameFirst(s, t, less);
      TailsMatch(s, t);
      TailOrdered(s, less);
      StrictlySortedUnique(s[1..], t[1..], less);
      assert s == [s[0]] + s[1..] && t == [t[0]] + t[1..];
    }
  }

  lemma {:induction false} TailsMatch<T>(s: seq<T>, t: seq<T>)
    requires s != [] && t != [] && s[0] == t[0] && multiset(s) == multiset(t)
    ensures multiset(s[1..]) == multiset(t[1..])
  {
    assert s == [s[0]] + s[1..] && t == [t[0]] + t[1..];
    assert multiset(s[1..]) == multiset(s) - multiset{s[0]};
    assert multiset(t[1..]) == multiset(t) - multiset{t[0]};
  }

  lemma {:induction false} TailOrdered<T>(s: seq<T>, less: (T, T) -> bool)
    requires s != [] && WeakOrderOn(s, less)
    ensures WeakOrderOn(s[1..], less)
  {
    assert forall y :: y in s[1..] ==> y in s;
  }

  lemma {:induction false} SameFirst<T>(s: seq<T>, t: seq<T>, less: (T, T) -> bool)
    requires WeakOrderOn(s, less) && StrictlySorted(s, less) && StrictlySorted(t, less)
    requires multiset(s) == multiset(t) && s != [] && t != []
    ensures s[0] == t[0]
  {
    SameElements(s, t);
    assert s[0] in t && t[0] in s;
    var i :| 0 <= i < |t| && t[i] == s[0];
    var j :| 0 <= j < |s| && s[j] == t[0];
    assert i > 0 ==> less(t[0], s[0]);
    assert j > 0 ==> less(s[0], t[0]);
  }

  /** Sorting pairwise distinguishable elements is strict. */
  lemma {:induction false} SortStrict<T>(s: seq<T>, less: (T, T) -> bool)
    requires WeakOrderOn(s, less)
    requires forall i, j :: 0 <= i < j < |s| ==> less(s[i], s[j]) || less(s[j], s[i])
    ensures StrictlySorted(Sort(s, less), less)
  {
    if s != [] {
      var t := Sort(s[1..], less);
      SortStrict(s[1..], less);
      ElementsOfCons(s, t);
      SameElements(t, s[1..]);
      forall y | y in t ensures less(s[0], y) || less(y, s[0]) {
        var j :| 0 <= j < |s[1..]| && s[1..][j] == y;
        assert s[j + 1] == y;
      }
      InsertStrict(s[0], t, less);
    }
  }

  lemma {:induction false} InsertStrict<T>(x: T, s: seq<T>, less: (T, T) -> bool)
    requires StrictlySorted(s, less) && WeakOrderOn([x] + s, less)
    requires forall y :: y in s ==> less(x, y) || less(y, x)
    ensures StrictlySorted(Insert(x, s, less), less)
  {
    var all := [x] + s;
    assert forall y :: y in s ==> y in all;
    assert x in all;
    if s != [] && less(s[0], x) {
      var r := Insert(x, s[1..], less);
      assert forall y :: y in [x] + s[1..] ==> y in all;
      InsertStrict(x, s[1..], less);
      forall y | y in r ensures less(s[0], y) {
        assert y in multiset(r);
        assert y == x || y in s[1..];
      }
    } else if s != [] {
      forall j | 0 <= j < |s| ensures less(x, s[j]) {
        assert s[j] in s && s[0] in s;
      }
    }
  }

  lemma {:induction false} PrependLeast<T>(x: T, s: seq<T>, less: (T, T) -> bool)
    requires StrictlySorted(s, less) && forall y :: y in s ==> less(x, y)
    ensures StrictlySorted([x] + s, less)
  {
  }
}
