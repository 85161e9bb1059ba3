/** CRAN and Hackage: versions are lists of integers. Python's int() on one part is
    a parameter, so the results hold for whatever spellings it accepts. */
module IntListEcosystems {
  import opened Strings
  import opened CoarseVersion
  import opened Ecosystems

  function ParseAll(parts: seq<string>, toInt: IntParser): Option<seq<int>> {
    if parts == [] then Some([])
    else match (toInt(parts[0]), ParseAll(parts[1..], toInt))
      case (Some(n), Some(ns)) => Some([n] + ns)
      case _ => None
  }

  function DashesToDots(s: string): (t: string)
    ensures Free(s, '-') ==> t == s
  {
    if s == "" then "" else [if s[0] == '-' then '.' else s[0]] + DashesToDots(s[1..])
  }

  function CranKey(version: string, toInt: IntParser): Option<seq<int>> {
    ParseAll(Split(DashesToDots(version), '.'), toInt)
  }

  function HackageKey(version: string, toInt: IntParser): Option<seq<int>> {
    ParseAll(Split(version, '.'), toInt)
  }

  /** coarse_version of both: the sort key, validated, as integers. */
  function IntCoarse(key: Option<seq<int>>): Coarse {
    match key case Some(ints) => Ok(FromInts(ints, 0)) case None => ValueError
  }

  function IntListHelper(key: string -> Option<seq<int>>): Helper<seq<int>> {
    Helper(key, LexLt, (a, b) => a == b, v => IntCoarse(key(v)))
  }

  function Cran(toInt: IntParser): Helper<seq<int>> { IntListHelper(v => CranKey(v, toInt)) }

  function Hackage(toInt: IntParser): Helper<seq<int>> { IntListHelper(v => HackageKey(v, toInt)) }

  lemma {:induction false} ListsAreOrdered(h: Helper<seq<int>>)
    requires h.less == LexLt && forall a, b :: h.same(a, b) <==> a == b
    ensures OrderedKeys(h)
  {
    forall a: seq<int>, b: seq<int>
      ensures h.less(a, b) ==> !h.less(b, a)
      ensures h.same(a, b) <==> !h.less(a, b) && !h.less(b, a)
    {
      LexTrichotomy(a, b);
    }
    forall a: seq<int>, b: seq<int>, c: seq<int> | h.less(a, c)
      ensures h.less(a, b) || h.less(b, c)
    {
      LexTrichotomy(a, b);
      if h.less(b, a) { LexTransitive(b, a, c); }
    }
  }

  lemma {:induction false} CoarseOfListsMonotone(h: Helper<seq<int>>)
    requires h.less == LexLt && h.parse("0") == Some([0])
    requires forall v :: h.coarse(v) == IntCoarse(h.parse(v))
    ensures MonotoneOn(h, Every)
  {
    forall v: string, w: string | h.coarse(v).Ok? && h.coarse(w).Ok? && !h.VersionLt(w, v)
      ensures Le(h.coarse(v).text, h.coarse(w).text)
    {
      var p, q := h.parse(v).value, h.parse(w).value;
      if v == "0" {
        ExtremesBoundEverything(q, 0);
        ExtremesAreFields();
      } else {
        IntCoarseMonotone(0, p, 0, q);
      }
    }
  }

  lemma {:induction false} ParseSingle(version: string, n: int, toInt: IntParser)
    requires Free(version, '.') && Free(version, '-') && toInt(version) == Some(n)
    ensures HackageKey(version, toInt) == Some([n]) && CranKey(version, toInt) == Some([n])
  {
    SplitOfFree(version, '.');
    assert [version][1..] == [] && [n] + [] == [n];
    assert ParseAll([version][1..], toInt) == Some([]);
  }

  /** A helper whose keys are integer lists and whose coarse version is theirs is lawful. */
  lemma {:induction false} IntListsAreLawful(key: string -> Option<seq<int>>)
    requires key("0") == Some([0])
    ensures LawfulOn(IntListHelper(key), Every) && RejectsAlike(IntListHelper(key), Every)
  {
    ListsAreOrdered(IntListHelper(key));
    WrappedKeysOrdered(IntListHelper(key));
    CoarseOfListsMonotone(IntListHelper(key));
    ValidatingHelpersRejectAlike(IntListHelper(key), Every);
    forall v | key(v).Some? ensures CoarseInRange(FromInts(key(v).value, 0)) {
      ExtremesBoundEverything(key(v).value, 0);
    }
  }

  /** CRAN keeps the helper contract. */
  lemma {:induction false} CranIsLawful(toInt: IntParser)
    requires toInt("0") == Some(0)
    ensures LawfulOn(Cran(toInt), Every) && RejectsAlike(Cran(toInt), Every)
  {
    ParseSingle("0", 0, toInt);
    IntListsAreLawful(v => CranKey(v, toInt));
  }

  /** Hackage keeps the helper contract. */
  lemma {:induction false} HackageIsLawful(toInt: IntParser)
    requires toInt("0") == Some(0)
    ensures LawfulOn(Hackage(toInt), Every) && RejectsAlike(Hackage(toInt), Every)
  {
    ParseSingle("0", 0, toInt);
    IntListsAreLawful(v => HackageKey(v, toInt));
  }
}
