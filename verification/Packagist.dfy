/** Packagist: PHP's version_compare on canonical token lists, and the coarse version
    that must follow it. */
module Packagist {
  import opened Strings
  import opened CoarseVersion
  import opened GenericCoarse
  import opened Ecosystems

  // ----- comparison of token lists

  /** SPECIAL_CHARACTER_ORDER.get(part, -1). */
  function Order(part: string): int {
    if part == "dev" then 0
    else if part == "alpha" || part == "a" then 1
    else if part == "beta" || part == "b" then 2
    else if part == "RC" || part == "rc" then 3
    else if part == "#" then 4
    else if part == "pl" || part == "p" then 5
    else -1
  }

  function Sign(n: int): int { if n > 0 then 1 else if n < 0 then -1 else 0 }

  function CompareSpecial(a: string, b: string): int { Sign(Order(a) - Order(b)) }

  function CompareParts(a: string, b: string): int {
    if IsDecimal(a) && IsDecimal(b) then Sign(Value(a) - Value(b))
    else if !IsDecimal(a) && !IsDecimal(b) then CompareSpecial(a, b)
    else if IsDecimal(a) then CompareSpecial("#", b)
    else CompareSpecial(a, "#")
  }

  /** The loop over zip(a_split, b_split): the first non-zero comparison. */
  function CompareZipped(a: seq<string>, b: seq<string>): int {
    if a == [] || b == [] then 0
    else if CompareParts(a[0], b[0]) != 0 then CompareParts(a[0], b[0])
    else CompareZipped(a[1..], b[1..])
  }

  function SlicesCompare(a: seq<string>, b: seq<string>): int
    requires a != [] && b != []
    decreases |a| + |b|
  {
    var c := CompareZipped(a, b);
    if c != 0 then c
    else if |a| > |b| then
      if IsDecimal(a[|b|]) then 1 else SlicesCompare(a[|b|..], ["#"])
    else if |a| < |b| then
      if IsDecimal(b[|a|]) then -1 else SlicesCompare(["#"], b[|a|..])
    else 0
  }

  lemma {:induction false} ZippedAntisymmetric(a: seq<string>, b: seq<string>)
    ensures CompareZipped(a, b) == -CompareZipped(b, a)
    ensures CompareZipped(a, b) in {-1, 0, 1}
  {
    if a != [] && b != [] { ZippedAntisymmetric(a[1..], b[1..]); }
  }

  /** Sign-antisymmetric and total, on every pair of token lists. */
  lemma {:induction false} CompareAntisymmetric(a: seq<string>, b: seq<string>)
    requires a != [] && b != []
    ensures SlicesCompare(a, b) == -SlicesCompare(b, a)
    ensures SlicesCompare(a, b) in {-1, 0, 1}
    decreases |a| + |b|
  {
    ZippedAntisymmetric(a, b);
    if CompareZipped(a, b) == 0 {
      if |a| > |b| {
        CompareAntisymmetric(a[|b|..], ["#"]);
      } else if |a| < |b| {
        CompareAntisymmetric(["#"], b[|a|..]);
      }
    }
  }

  // ----- the same order, told by ranks

  predicate HashFree(a: seq<string>) { forall i :: 0 <= i < |a| ==> a[i] != "#" }

  /** Where a list stands at its head. The end of a list ranks between RC and numbers. */
  function HeadRank(a: seq<string>): int {
    if a == [] then 7 else if IsDecimal(a[0]) then 8 else 2 * Order(a[0])
  }

  function HeadNumber(a: seq<string>): nat {
    if a != [] && IsDecimal(a[0]) then Value(a[0]) else 0
  }

  function RankCompare(a: seq<string>, b: seq<string>): int {
    if HeadRank(a) != HeadRank(b) then Sign(HeadRank(a) - HeadRank(b))
    else if HeadNumber(a) != HeadNumber(b) then Sign(HeadNumber(a) - HeadNumber(b))
    else if a == [] || b == [] then 0
    else RankCompare(a[1..], b[1..])
  }

  lemma {:induction false} ZippedByRank(a: seq<string>, b: seq<string>)
    requires HashFree(a) && HashFree(b)
    ensures CompareZipped(a, b) != 0 ==> RankCompare(a, b) == CompareZipped(a, b)
    ensures CompareZipped(a, b) == 0 && |a| >= |b| ==> RankCompare(a, b) == RankCompare(a[|b|..], [])
    ensures CompareZipped(a, b) == 0 && |a| <= |b| ==> RankCompare(a, b) == RankCompare([], b[|a|..])
  {
    if a == [] || b == [] {
      assert |a| >= |b| ==> a[|b|..] == a;
      assert |a| <= |b| ==> b[|a|..] == b;
    } else {
      ZippedByRank(a[1..], b[1..]);
      assert |a| >= |b| ==> a[1..][|b[1..]|..] == a[|b|..];
      assert |a| <= |b| ==> b[1..][|a[1..]|..] == b[|a|..];
    }
  }

  /** On '#'-free lists the recursive comparison is lexicographic comparison of ranks. */
  lemma {:induction false} CompareByRank(a: seq<string>, b: seq<string>)
    requires a != [] && b != [] && HashFree(a) && HashFree(b)
    ensures SlicesCompare(a, b) == RankCompare(a, b)
  {
    ZippedByRank(a, b);
    if CompareZipped(a, b) == 0 {
      if |a| > |b| && !IsDecimal(a[|b|]) {
        assert CompareZipped(a[|b|..], ["#"]) == Sign(Order(a[|b|]) - 4);
      } else if |a| < |b| && !IsDecimal(b[|a|]) {
        assert CompareZipped(["#"], b[|a|..]) == Sign(4 - Order(b[|a|]));
      } else if |a| == |b| {
        assert a[|b|..] == [];
      }
    }
  }

  lemma {:induction false} RankTransitive(a: seq<string>, b: seq<string>, c: seq<string>)
    requires RankCompare(a, b) <= 0 && RankCompare(b, c) <= 0
    requires HashFree(a) && HashFree(b) && HashFree(c)
    ensures RankCompare(a, c) <= 0
    ensures RankCompare(a, c) == 0 ==> RankCompare(a, b) == 0 && RankCompare(b, c) == 0
  {
    if a != [] && b != [] && c != [] && HeadRank(a) == HeadRank(b) == HeadRank(c)
       && HeadNumber(a) == HeadNumber(b) == HeadNumber(c) {
      RankTransitive(a[1..], b[1..], c[1..]);
    }
  }

  /** Transitive on '#'-free token lists, strictly if either step is strict. */
  lemma {:induction false} CompareTransitive(a: seq<string>, b: seq<string>, c: seq<string>)
    requires a != [] && b != [] && c != [] && HashFree(a) && HashFree(b) && HashFree(c)
    requires SlicesCompare(a, b) <= 0 && SlicesCompare(b, c) <= 0
    ensures SlicesCompare(a, c) <= 0
    ensures SlicesCompare(a, c) == 0 ==> SlicesCompare(a, b) == 0 && SlicesCompare(b, c) == 0
  {
    CompareByRank(a, b);
    CompareByRank(b, c);
    CompareByRank(a, c);
    RankTransitive(a, b, c);
  }

  // ----- what a '#' token does

  /** Going through a never leads upwards, whatever '#'-free lists stand on its two sides. */
  ghost predicate TransitiveThrough(a: seq<string>)
    requires a != []
  {
    forall b, c :: b != [] && c != [] && HashFree(b) && HashFree(c) && SlicesCompare(b, a) <= 0
      && SlicesCompare(a, c) <= 0
      ==> SlicesCompare(b, c) <= 0
  }

  /** The list with its first '#' replaced by one number and the others by 1. */
  function Numbered(a: seq<string>, number: string): (b: seq<string>)
    requires number == "1" || number == "2"
    ensures |b| == |a|
  {
    if a == [] then []
    else if a[0] == "#" then [number] + Numbered(a[1..], "1")
    else [a[0]] + Numbered(a[1..], number)
  }

  /** Both ways of numbering are level with the list itself, and ordered by the first number. */
  lemma {:induction false} NumberedIsLevel(a: seq<string>, number: string)
    requires number == "1" || number == "2"
    ensures HashFree(Numbered(a, number))
    ensures CompareZipped(Numbered(a, number), a) == 0 && CompareZipped(a, Numbered(a, number)) == 0
    ensures !HashFree(a) && number == "2" ==> CompareZipped(Numbered(a, number), Numbered(a, "1")) == 1
  {
    if a != [] {
      if a[0] == "#" {
        NumberedIsLevel(a[1..], "1");
      } else {
        NumberedIsLevel(a[1..], number);
        assert !HashFree(a) ==> !HashFree(a[1..]);
      }
    }
  }

  /** The comparison is transitive through a token list exactly if the list has no '#' token: any
      list with one lies level with two others of which the first is greater than the second. */
  lemma {:induction false} TransitiveThroughExactly(a: seq<string>)
    requires a != []
    ensures TransitiveThrough(a) <==> HashFree(a)
  {
    if HashFree(a) {
      forall b, c | b != [] && c != [] && HashFree(b) && HashFree(c) && SlicesCompare(b, a) <= 0
        && SlicesCompare(a, c) <= 0
        ensures SlicesCompare(b, c) <= 0
      {
        CompareTransitive(b, a, c);
      }
    } else {
      var b, c := Numbered(a, "2"), Numbered(a, "1");
      NumberedIsLevel(a, "2");
      NumberedIsLevel(a, "1");
      assert SlicesCompare(b, a) == 0 && SlicesCompare(a, c) == 0 && SlicesCompare(b, c) == 1;
    }
  }

  // ----- canonical form of a version string

  predicate IsSeparator(c: char) { c == '-' || c == '_' || c == '+' || c == '.' }

  /** re.sub('[-_+.]+', '.', s). */
  function Collapse(s: string): string {
    if s == "" then ""
    else if !IsSeparator(s[0]) then [s[0]] + Collapse(s[1..])
    else if |s| > 1 && IsSeparator(s[1]) then Collapse(s[1..])
    else "." + Collapse(s[1..])
  }

  predicate IsWord(c: char) { !IsDigit(c) && c != '.' }

  /** re.sub(r'([^\d.])(\d)', r'\1.\2', s). */
  function DotBeforeDigits(s: string): string {
    if |s| < 2 then s
    else if IsWord(s[0]) && IsDigit(s[1]) then [s[0], '.', s[1]] + DotBeforeDigits(s[2..])
    else [s[0]] + DotBeforeDigits(s[1..])
  }

  /** re.sub(r'(\d)([^\d.])', r'\1.\2', s). */
  function DotAfterDigits(s: string): string {
    if |s| < 2 then s
    else if IsDigit(s[0]) && IsWord(s[1]) then [s[0], '.', s[1]] + DotAfterDigits(s[2..])
    else [s[0]] + DotAfterDigits(s[1..])
  }

  function Canonicalize(version: string): string {
    DotAfterDigits(DotBeforeDigits(Collapse(StripV(version))))
  }

  function Tokens(version: string): (t: seq<string>)
    ensures t != []
  {
    Split(Canonicalize(version), '.')
  }

  function VersionCompare(a: string, b: string): int {
    SlicesCompare(Tokens(a), Tokens(b))
  }

  // ----- coarse version

  /** The components of the first n parts: 'p' and 'pl' overflow, others must be decimal. */
  function PatchComponents(parts: seq<string>, n: nat): seq<int> {
    if n == 0 || parts == [] then []
    else if parts[0] == "p" || parts[0] == "pl" then [MAX_COARSE_PART + 1] + PatchComponents(parts[1..], n - 1)
    else if !IsDecimal(parts[0]) then []
    else [Value(parts[0])] + PatchComponents(parts[1..], n - 1)
  }

  function CoarseParts(s: string): seq<string> {
    Fill(AllRuns(SplitOn(s, IsSeparator)), Dropped)
  }

  function CoarseString(version: string): string {
    var s := StripV(version);
    if s == "" || IsSeparator(s[0]) then FromInts([0], 0)
    else FromInts(PatchComponents(CoarseParts(s), 3), 0)
  }

  /** The loop of coarse_version over the first three parts. */
  method CollectComponents(parts: seq<string>) returns (components: seq<int>)
    ensures components == PatchComponents(parts, 3)
  {
    components := [];
    ghost var rest := parts;
    var i := 0;
    while i < |parts| && i < 3
      invariant 0 <= i <= |parts| && i <= 3 && rest == parts[i..]
      invariant PatchComponents(parts, 3) == components + PatchComponents(rest, 3 - i)
    {
      var p := parts[i];
      var val;
      if p == "p" || p == "pl" {
        val := MAX_COARSE_PART + 1;
      } else if !IsDecimal(p) {
        break;
      } else {
        val := Value(p);
      }
      ghost var tail := PatchComponents(rest[1..], 2 - i);
      assert components + ([val] + tail) == (components + [val]) + tail;
      components := components + [val];
      i := i + 1;
      rest := rest[1..];
    }
  }

  method PackagistCoarse(version: string) returns (text: string)
    ensures text == CoarseString(version)
  {
    var s := version;
    if s != "" && s[0] == 'v' { s := s[1..]; }
    if s == "" || IsSeparator(s[0]) {
      text := CoarseVersionFromInts([0], 0);
      return;
    }
    var components := CollectComponents(CoarseParts(s));
    text := CoarseVersionFromInts(components, 0);
  }

  // ----- the canonical tokens are the runs of the separator-split string

  predicate Boundary(c: char, d: char) { (IsWord(c) && IsDigit(d)) || (IsDigit(c) && IsWord(d)) }

  /** Both substitutions in one pass. */
  function Dotted(s: string): string {
    if |s| < 2 then s
    else if Boundary(s[0], s[1]) then [s[0], '.'] + Dotted(s[1..])
    else [s[0]] + Dotted(s[1..])
  }

  lemma {:induction false} DotBeforeStep(s: string)
    requires |s| >= 2
    ensures DotBeforeDigits(s) ==
            (if IsWord(s[0]) && IsDigit(s[1]) then [s[0], '.'] else [s[0]]) + DotBeforeDigits(s[1..])
  {
    assert s[1..][1..] == s[2..];
  }

  lemma {:induction false} DotAfterStep(s: string)
    requires |s| >= 2
    ensures DotAfterDigits(s) ==
            (if IsDigit(s[0]) && IsWord(s[1]) then [s[0], '.'] else [s[0]]) + DotAfterDigits(s[1..])
  {
    assert s[1..][1..] == s[2..];
  }

  lemma {:induction false} TwoPassesAreOne(s: string)
    ensures DotAfterDigits(DotBeforeDigits(s)) == Dotted(s)
  {
    if |s| >= 2 {
      TwoPassesAreOne(s[1..]);
      DotBeforeStep(s);
      var rest := DotBeforeDigits(s[1..]);
      assert rest[0] == s[1];
      var t := DotBeforeDigits(s);
      if IsWord(s[0]) && IsDigit(s[1]) {
        assert t[1..] == ['.'] + rest && t[1..][1..] == rest;
        DotAfterStep(t);
        DotAfterStep(t[1..]);
      } else {
        assert t[1..] == rest;
        DotAfterStep(t);
      }
    }
  }

  lemma {:induction false} RunLengthUnique(s: string, n: nat)
    requires 1 <= n <= |s|
    requires forall i :: 0 <= i < n ==> IsDigit(s[i]) == IsDigit(s[0])
    requires n < |s| ==> IsDigit(s[n]) != IsDigit(s[0])
    ensures RunLength(s) == n
  {
    var k := RunLength(s);
    assert k < |s| ==> IsDigit(s[k]) != IsDigit(s[0]);
  }

  lemma {:induction false} RunsOfCons(c: char, h: string)
    ensures FindRuns([c] + h) ==
            if h == "" then [[c]]
            else if IsDigit(c) == IsDigit(h[0]) then [[c] + Runs(h)[0]] + Runs(h)[1..]
            else [[c]] + Runs(h)
  {
    var s := [c] + h;
    if h != "" && IsDigit(c) == IsDigit(h[0]) {
      var m := RunLength(h);
      RunLengthUnique(s, m + 1);
      assert s[..m + 1] == [c] + h[..m] && s[m + 1..] == h[m..];
    } else {
      RunLengthUnique(s, 1);
      assert s[..1] == [c] && s[1..] == h;
      assert Runs(s) == [s[..1]] + Runs(h);
    }
  }

  lemma {:induction false} SplitHead(s: string)
    requires s != ""
    ensures s[0] == '.' ==> Split(s, '.')[0] == ""
    ensures s[0] != '.' ==> Split(s, '.')[0] != "" && Split(s, '.')[0][0] == s[0]
  {
  }

  lemma {:induction false} SingleCharacter(s: string)
    requires |s| == 1
    ensures Split(s, '.') == AllRuns(Split(s, '.'))
  {
    var x := Split(s, '.');
    assert s[1..] == "" && Split(s[1..], '.') == [""];
    if s[0] == '.' {
      assert x == ["", ""] && x[1..] == [""] && x[1..][1..] == [];
      assert AllRuns(x[1..]) == FindRuns("") + AllRuns(x[1..][1..]);
      assert AllRuns(x) == FindRuns("") + AllRuns(x[1..]);
    } else {
      RunsOfCons(s[0], "");
      assert s == [s[0]] + "" == [s[0]];
      assert x == [s] && x[1..] == [];
      assert AllRuns(x) == FindRuns(s) + AllRuns(x[1..]);
    }
  }

  lemma {:induction false} RunsOfPieces(s: string)
    requires |s| >= 2 && s[0] != '.'
    ensures var x := Split(s[1..], '.');
            AllRuns(x) == FindRuns(x[0]) + AllRuns(x[1..])
            && AllRuns(Split(s, '.')) == FindRuns([s[0]] + x[0]) + AllRuns(x[1..])
  {
    var x := Split(s[1..], '.');
    assert Split(s, '.') == [[s[0]] + x[0]] + x[1..] && Split(s, '.')[1..] == x[1..];
  }

  lemma {:induction false} PiecesOfDotted(s: string)
    requires |s| >= 2 && s[0] != '.'
    ensures var d := Split(Dotted(s[1..]), '.');
            Split(Dotted(s), '.') == if Boundary(s[0], s[1]) then [[s[0]]] + d else [[s[0]] + d[0]] + d[1..]
  {
    var t := Dotted(s[1..]);
    if Boundary(s[0], s[1]) {
      var head := [s[0]];
      assert Free(head, '.') && Dotted(s) == head + ['.'] + t;
      SplitConcat(head, t, '.');
    } else {
      assert Dotted(s)[1..] == t;
    }
  }

  lemma {:induction false} GlueRuns(c: char, h: string, r: seq<string>)
    ensures var d := FindRuns(h) + r;
            FindRuns([c] + h) + r ==
            if h != "" && IsDigit(c) != IsDigit(h[0]) then [[c]] + d else [[c] + d[0]] + d[1..]
  {
    RunsOfCons(c, h);
    if h == "" {
      assert ([""] + r)[1..] == r && [c] + "" == [c];
    } else {
      Prepend(c, Runs(h), r);
    }
  }

  lemma {:induction false} Prepend(c: char, x: seq<string>, r: seq<string>)
    requires x != []
    ensures [[c] + x[0]] + x[1..] + r == [[c] + (x + r)[0]] + (x + r)[1..]
    ensures [[c]] + x + r == [[c]] + (x + r)
  {
    assert (x + r)[1..] == x[1..] + r;
  }

  lemma {:induction false} DottedSplitsIntoRuns(s: string)
    ensures Split(Dotted(s), '.') == AllRuns(Split(s, '.'))
  {
    if s == "" {
    } else if |s| == 1 {
      SingleCharacter(s);
    } else {
      DottedSplitsIntoRuns(s[1..]);
      if s[0] == '.' {
        assert Dotted(s)[1..] == Dotted(s[1..]);
        assert Split(s, '.')[1..] == Split(s[1..], '.');
      } else {
        var x := Split(s[1..], '.');
        SplitHead(s[1..]);
        RunsOfPieces(s);
        PiecesOfDotted(s);
        GlueRuns(s[0], x[0], AllRuns(x[1..]));
        assert x[0] != "" && IsDigit(s[0]) != IsDigit(x[0][0]) <==> Boundary(s[0], s[1]);
      }
    }
  }

  /** The canonical tokens of a version. */
  lemma {:induction false} TokensAreRuns(version: string)
    ensures Tokens(version) == AllRuns(Split(Collapse(StripV(version)), '.'))
  {
    TwoPassesAreOne(Collapse(StripV(version)));
    DottedSplitsIntoRuns(Collapse(StripV(version)));
  }

  // ----- coarse parts against canonical tokens

  function NonEmpty(parts: seq<string>): seq<string> {
    if parts == [] then []
    else if parts[0] == "" then NonEmpty(parts[1..])
    else [parts[0]] + NonEmpty(parts[1..])
  }

  lemma {:induction false} FillConcat(x: seq<string>, y: seq<string>)
    ensures Fill(x + y, Dropped) == Fill(x, Dropped) + Fill(y, Dropped)
  {
    if x == [] {
      assert x + y == y;
    } else {
      assert (x + y)[1..] == x[1..] + y;
      FillConcat(x[1..], y);
    }
  }

  lemma {:induction false} FillOfNonEmpty(x: seq<string>)
    requires forall i :: 0 <= i < |x| ==> x[i] != ""
    ensures Fill(x, Dropped) == x
  {
    if x != [] { FillOfNonEmpty(x[1..]); }
  }

  lemma {:induction false} FilledRuns(parts: seq<string>)
    ensures Fill(AllRuns(parts), Dropped) == AllRuns(NonEmpty(parts))
  {
    if parts != [] {
      FilledRuns(parts[1..]);
      FillConcat(FindRuns(parts[0]), AllRuns(parts[1..]));
      if parts[0] == "" {
        assert Fill([""], Dropped) == Fill([""][1..], Dropped) == [];
      } else {
        FillOfNonEmpty(Runs(parts[0]));
        assert NonEmpty(parts)[1..] == NonEmpty(parts[1..]);
      }
    }
  }

  /** Single separators or collapsed ones: the non-empty pieces are the same. */
  lemma {:induction false} SamePieces(s: string)
    ensures NonEmpty(SplitOn(s, IsSeparator)) == NonEmpty(Split(Collapse(s), '.'))
    ensures s == "" || IsSeparator(s[0]) ==> SplitOn(s, IsSeparator)[0] == "" && Split(Collapse(s), '.')[0] == ""
    ensures s != "" && !IsSeparator(s[0]) ==> SplitOn(s, IsSeparator)[0] != "" && Split(Collapse(s), '.')[0] != ""
  {
    if s != "" {
      SamePieces(s[1..]);
      var x, y := SplitOn(s[1..], IsSeparator), Split(Collapse(s[1..]), '.');
      if IsSeparator(s[0]) {
        assert ([""] + x)[1..] == x && ([""] + y)[1..] == y;
        assert ("." + Collapse(s[1..]))[1..] == Collapse(s[1..]);
      } else {
        assert Collapse(s)[1..] == Collapse(s[1..]);
        assert SplitOn(s, IsSeparator) == [[s[0]] + x[0]] + x[1..]
          && Split(Collapse(s), '.') == [[s[0]] + y[0]] + y[1..];
        assert SplitOn(s, IsSeparator)[1..] == x[1..] && Split(Collapse(s), '.')[1..] == y[1..];
        if x[0] != "" {
          assert NonEmpty(x)[0] == x[0] && NonEmpty(x)[1..] == NonEmpty(x[1..]);
          assert NonEmpty(y)[0] == y[0] && NonEmpty(y)[1..] == NonEmpty(y[1..]);
        }
      }
    }
  }

  /** No piece is empty between index `from` and the last one. */
  predicate OnlyLastEmpty(x: seq<string>, from: nat) {
    forall i :: from <= i < |x| - 1 ==> x[i] != ""
  }

  lemma {:induction false} CollapsedPieces(s: string)
    ensures OnlyLastEmpty(Split(Collapse(s), '.'), if s != "" && IsSeparator(s[0]) then 1 else 0)
  {
    if s != "" {
      CollapsedPieces(s[1..]);
      var x, y := Split(Collapse(s), '.'), Split(Collapse(s[1..]), '.');
      if !IsSeparator(s[0]) {
        assert Collapse(s)[1..] == Collapse(s[1..]);
        assert x == [[s[0]] + y[0]] + y[1..];
      } else if |s| > 1 && IsSeparator(s[1]) {
      } else {
        assert ("." + Collapse(s[1..]))[1..] == Collapse(s[1..]);
        assert x == [""] + y;
      }
    }
  }

  lemma {:induction false} ShapeOfConcat(f: seq<string>, r: seq<string>)
    requires forall i :: 0 <= i < |f| ==> f[i] != ""
    requires OnlyLastEmpty(r, 0)
    ensures OnlyLastEmpty(f + r, 0)
  {
    forall i | 0 <= i < |f + r| - 1
      ensures (f + r)[i] != ""
    {
      if i >= |f| { assert (f + r)[i] == r[i - |f|]; }
    }
  }

  lemma {:induction false} RunsKeepShape(x: seq<string>)
    requires OnlyLastEmpty(x, 0)
    ensures OnlyLastEmpty(AllRuns(x), 0)
  {
    if x != [] {
      assert forall i :: 0 <= i < |x[1..]| - 1 ==> x[1..][i] == x[i + 1];
      RunsKeepShape(x[1..]);
      if x[0] != "" {
        ShapeOfConcat(FindRuns(x[0]), AllRuns(x[1..]));
      } else {
        assert x[1..] == [];
      }
    }
  }

  /** Dropping a trailing empty token does not change the components. */
  lemma {:induction false} ComponentsOfFilled(x: seq<string>, n: nat)
    requires OnlyLastEmpty(x, 0)
    ensures PatchComponents(Fill(x, Dropped), n) == PatchComponents(x, n)
    decreases n
  {
    if n > 0 && x != [] {
      if x[0] == "" {
        assert x[1..] == [];
      } else {
        assert forall i :: 0 <= i < |x[1..]| - 1 ==> x[1..][i] == x[i + 1];
        ComponentsOfFilled(x[1..], n - 1);
        assert Fill(x, Dropped)[1..] == Fill(x[1..], Dropped);
      }
    }
  }

  /** The coarse version can be read off the canonical tokens. */
  lemma {:induction false} CoarseFromTokens(version: string)
    ensures CoarseString(version) == FromInts(PatchComponents(Tokens(version), 3), 0)
  {
    var s := StripV(version);
    var x := Split(Collapse(s), '.');
    TokensAreRuns(version);
    SamePieces(s);
    if s == "" || IsSeparator(s[0]) {
      assert AllRuns(x)[0] == "";
      assert PatchComponents(Tokens(version), 3) == [];
      ExtremesAreFields();
      assert FromInts([0], 0) == FromInts([], 0);
    } else {
      FilledRuns(SplitOn(s, IsSeparator));
      FilledRuns(x);
      CollapsedPieces(s);
      RunsKeepShape(x);
      ComponentsOfFilled(AllRuns(x), 3);
    }
  }

  // ----- monotonicity

  /** The comparison of what is left of two lists after equal heads, either of which may be over. */
  function CompareRests(a: seq<string>, b: seq<string>): int {
    if a == [] && b == [] then 0
    else if a == [] then (if IsDecimal(b[0]) then -1 else SlicesCompare(["#"], b))
    else if b == [] then (if IsDecimal(a[0]) then 1 else SlicesCompare(a, ["#"]))
    else SlicesCompare(a, b)
  }

  lemma {:induction false} CompareHeads(a: seq<string>, b: seq<string>)
    requires a != [] && b != []
    ensures SlicesCompare(a, b) ==
            if CompareParts(a[0], b[0]) != 0 then CompareParts(a[0], b[0]) else CompareRests(a[1..], b[1..])
  {
    ZippedAntisymmetric(a, b);
    assert |a| >= |b| ==> a[1..][|b[1..]|..] == a[|b|..];
    assert |a| <= |b| ==> b[1..][|a[1..]|..] == b[|a|..];
  }

  predicate Overflows(part: string)
    { part == "p" || part == "pl" || (IsDecimal(part) && Value(part) > MAX_COARSE_PART) }

  /** No '#' token is among the first n that the coarse version reads: before the first one it is
      full, stopped by a word, or has overflowed. */
  predicate HashHidden(a: seq<string>, n: nat) {
    if n == 0 || a == [] then true
    else if a[0] == "#" then false
    else if !IsDecimal(a[0]) || Overflows(a[0]) then true
    else HashHidden(a[1..], n - 1)
  }

  lemma {:induction false} HashFreeIsHidden(a: seq<string>, n: nat)
    requires HashFree(a)
    ensures HashHidden(a, n)
  {
    if n > 0 && a != [] { HashFreeIsHidden(a[1..], n - 1); }
  }

  lemma {:induction false} OverflowIsHighest(p: seq<int>, n: nat)
    requires p != [] && p[0] > MAX_COARSE_PART
    ensures Fields(p, n) == Fields([MAX_COARSE_PART + 1], n)
  {
  }

  lemma {:induction false} FirstComponent(a: seq<string>, n: nat)
    requires n > 0
    ensures a == [] || (!IsDecimal(a[0]) && !Overflows(a[0])) ==> PatchComponents(a, n) == []
    ensures a != [] && Overflows(a[0]) ==> PatchComponents(a, n) != [] && PatchComponents(a, n)[0] > MAX_COARSE_PART
    ensures a != [] && IsDecimal(a[0]) ==>
              PatchComponents(a, n) == [Value(a[0])] + PatchComponents(a[1..], n - 1)
  {
    assert !IsDecimal("p") && !IsDecimal("pl") by { assert !IsDigit("p"[0]) && !IsDigit("pl"[0]); }
  }

  lemma {:induction false} RestsInOrder(a: seq<string>, b: seq<string>)
    requires CompareRests(a, b) <= 0 && a != []
    requires (IsDecimal(a[0]) && !Overflows(a[0])) || a[0] == "p" || a[0] == "pl"
    requires b == [] || (b[0] != "#" && !Overflows(b[0]))
    ensures b != [] && IsDecimal(a[0]) && IsDecimal(b[0]) && Value(a[0]) <= Value(b[0])
    ensures Value(a[0]) == Value(b[0]) ==> CompareRests(a[1..], b[1..]) <= 0
  {
    assert !IsDecimal("p") && !IsDecimal("pl") by { assert !IsDigit("p"[0]) && !IsDigit("pl"[0]); }
    assert !IsDecimal("#") by { assert !IsDigit("#"[0]); }
    if b == [] { CompareHeads(a, ["#"]); } else { CompareHeads(a, b); }
  }

  lemma {:induction false} FirstFields(v: nat, w: nat, p: seq<int>, q: seq<int>, n: nat)
    requires n > 0 && v <= w <= MAX_COARSE_PART && (v == w ==> LexLe(Fields(p, n - 1), Fields(q, n - 1)))
    ensures LexLe(Fields([v] + p, n), Fields([w] + q, n))
  {
    assert ([v] + p)[1..] == p && ([w] + q)[1..] == q;
  }

  lemma {:induction false} FieldsFollow(a: seq<string>, b: seq<string>, n: nat)
    requires CompareRests(a, b) <= 0 && HashHidden(a, n) && HashHidden(b, n)
    ensures LexLe(Fields(PatchComponents(a, n), n), Fields(PatchComponents(b, n), n))
    decreases n
  {
    if n > 0 {
      var p, q := PatchComponents(a, n), PatchComponents(b, n);
      FieldsBounds(p, n);
      FieldsBounds(q, n);
      FirstComponent(a, n);
      FirstComponent(b, n);
      if b != [] && Overflows(b[0]) {
        OverflowIsHighest(q, n);
      } else if a != [] && (IsDecimal(a[0]) || Overflows(a[0])) {
        LargeIsNotBelow(a, b);
        RestsInOrder(a, b);
        if Value(a[0]) == Value(b[0]) { FieldsFollow(a[1..], b[1..], n - 1); }
        FirstFields(Value(a[0]), Value(b[0]), PatchComponents(a[1..], n - 1), PatchComponents(b[1..], n - 1), n);
      }
    }
  }

  /** A number too large for its field is not below one that fits. */
  lemma {:induction false} LargeIsNotBelow(a: seq<string>, b: seq<string>)
    requires CompareRests(a, b) <= 0 && a != []
    requires b == [] || (b[0] != "#" && !Overflows(b[0]))
    ensures IsDecimal(a[0]) ==> !Overflows(a[0])
  {
    if IsDecimal(a[0]) && Overflows(a[0]) && b != [] { CompareHeads(a, b); }
  }

  /** php_version_compare(a, b) <= 0 implies coarse(a) <= coarse(b), where no '#' token is read. */
  lemma {:induction false} PackagistCoarseMonotone(a: string, b: string)
    requires HashHidden(Tokens(a), 3) && HashHidden(Tokens(b), 3)
    requires VersionCompare(a, b) <= 0
    ensures Le(CoarseString(a), CoarseString(b))
  {
    CoarseFromTokens(a);
    CoarseFromTokens(b);
    FieldsFollow(Tokens(a), Tokens(b), 3);
    FormatOrder(0, Fields(PatchComponents(Tokens(b), 3), 3), 0, Fields(PatchComponents(Tokens(a), 3), 3));
  }

  function ThreeFields(a: seq<string>): seq<int> { Fields(PatchComponents(a, 3), 3) }

  /** The coarse fields of a list follow the comparison with every '#'-free list, both ways. */
  ghost predicate CoarseFollows(a: seq<string>)
    requires a != []
  {
    forall b :: b != [] && HashFree(b) ==>
      (SlicesCompare(b, a) <= 0 ==> LexLe(ThreeFields(b), ThreeFields(a)))
      && (SlicesCompare(a, b) <= 0 ==> LexLe(ThreeFields(a), ThreeFields(b)))
  }

  lemma {:induction false} SameFirstField(v: nat, p: seq<int>, q: seq<int>, n: nat)
    requires n > 0 && v <= MAX_COARSE_PART && LexLt(Fields(p, n - 1), Fields(q, n - 1))
    ensures LexLt(Fields([v] + p, n), Fields([v] + q, n))
  {
    assert ([v] + p)[1..] == p && ([v] + q)[1..] == q;
  }

  lemma {:induction false} OneIsAboveNothing(q: seq<int>, n: nat)
    requires n > 0 && q != [] && q[0] == 1
    ensures LexLt(Fields([], n), Fields(q, n))
  {
    assert Fields(q, n)[0] == 1 && Fields([], n)[0] == 0;
  }

  lemma {:induction false} HashIsNoNumber()
    ensures !IsDecimal("#") && !Overflows("#")
  {
    assert !IsDigit("#"[0]);
  }

  lemma {:induction false} NumberedIsHigher(a: seq<string>, n: nat)
    requires !HashHidden(a, n)
    ensures LexLt(Fields(PatchComponents(a, n), n), Fields(PatchComponents(Numbered(a, "1"), n), n))
  {
    var b := Numbered(a, "1");
    HashIsNoNumber();
    FirstComponent(a, n);
    FirstComponent(b, n);
    if a[0] == "#" {
      assert Value("1") == 1;
      OneIsAboveNothing(PatchComponents(b, n), n);
    } else {
      NumberedIsHigher(a[1..], n - 1);
      assert b[1..] == Numbered(a[1..], "1") && b[0] == a[0];
      SameFirstField(Value(a[0]), PatchComponents(a[1..], n - 1), PatchComponents(b[1..], n - 1), n);
    }
  }

  /** The coarse fields follow the comparison exactly if no '#' token is read: a list with one that is
      read is level with a '#'-free list of higher fields. */
  lemma {:induction false} CoarseFollowsExactly(a: seq<string>)
    requires a != []
    ensures CoarseFollows(a) <==> HashHidden(a, 3)
  {
    if HashHidden(a, 3) {
      forall b | b != [] && HashFree(b)
        ensures SlicesCompare(b, a) <= 0 ==> LexLe(ThreeFields(b), ThreeFields(a))
        ensures SlicesCompare(a, b) <= 0 ==> LexLe(ThreeFields(a), ThreeFields(b))
      {
        HashFreeIsHidden(b, 3);
        if SlicesCompare(b, a) <= 0 { FieldsFollow(b, a, 3); }
        if SlicesCompare(a, b) <= 0 { FieldsFollow(a, b, 3); }
      }
    } else {
      var b := Numbered(a, "1");
      NumberedIsLevel(a, "1");
      NumberedIsHigher(a, 3);
      assert SlicesCompare(b, a) == 0;
      LexTrichotomy(ThreeFields(a), ThreeFields(b));
    }
  }

  // ----- the helper

  function PackagistHelper(): Helper<string> {
    Helper(
      v => Some(v),
      (a, b) => VersionCompare(a, b) < 0,
      (a, b) => VersionCompare(a, b) == 0,
      v => Ok(CoarseString(v)))
  }

  predicate NoHashToken(version: string) { HashFree(Tokens(version)) }

  /** Packagist keeps the helper contract on versions without a '#' token. */
  lemma {:induction false} PackagistIsLawful()
    ensures LawfulOn(PackagistHelper(), NoHashToken) && RejectsAlike(PackagistHelper(), NoHashToken)
  {
    var h := PackagistHelper();
    forall u, v | NoHashToken(u) && NoHashToken(v)
      ensures h.VersionLt(u, v) ==> !h.VersionLt(v, u)
      ensures h.VersionEq(u, v) <==> !h.VersionLt(u, v) && !h.VersionLt(v, u)
    {
      CompareAntisymmetric(Tokens(u), Tokens(v));
    }
    forall u, v, w | NoHashToken(u) && NoHashToken(v) && NoHashToken(w) && h.VersionLt(u, w)
      ensures h.VersionLt(u, v) || h.VersionLt(v, w)
    {
      if u != "0" && v != "0" { NegativelyTransitive(u, v, w); }
    }
    PackagistIsMonotone();
    forall v | NoHashToken(v) ensures NoHashRead(v) { HashFreeIsHidden(Tokens(v), 3); }
    forall v ensures CoarseInRange(CoarseString(v)) { CoarseIsInRange(v); }
  }

  lemma {:induction false} NegativelyTransitive(u: string, v: string, w: string)
    requires NoHashToken(u) && NoHashToken(v) && NoHashToken(w) && VersionCompare(u, w) < 0
    ensures VersionCompare(u, v) < 0 || VersionCompare(v, w) < 0
  {
    CompareAntisymmetric(Tokens(u), Tokens(v));
    CompareAntisymmetric(Tokens(v), Tokens(w));
    CompareAntisymmetric(Tokens(u), Tokens(w));
    if VersionCompare(v, u) <= 0 && VersionCompare(w, v) <= 0 {
      CompareTransitive(Tokens(w), Tokens(v), Tokens(u));
    }
  }

  lemma {:induction false} SortKeyOrder(v: string, w: string)
    ensures PackagistHelper().VersionLt(v, w) <==> w != "0" && (v == "0" || VersionCompare(v, w) < 0)
  {
  }

  predicate NoHashRead(version: string) { HashHidden(Tokens(version), 3) }

  lemma {:induction false} PackagistIsMonotone()
    ensures MonotoneOn(PackagistHelper(), NoHashRead)
  {
    forall v, w | NoHashRead(v) && NoHashRead(w) && !PackagistHelper().VersionLt(w, v)
      ensures Le(CoarseString(v), CoarseString(w))
    {
      SortKeyOrder(w, v);
      if v == "0" {
        ZeroIsLowest(w);
      } else {
        CompareAntisymmetric(Tokens(v), Tokens(w));
        PackagistCoarseMonotone(v, w);
      }
    }
  }

  lemma {:induction false} CoarseIsInRange(v: string)
    ensures CoarseInRange(CoarseString(v))
  {
    CoarseFromTokens(v);
    ExtremesBoundEverything(PatchComponents(Tokens(v), 3), 0);
  }

  /** The coarse filter is safe on the versions whose coarse version reads no '#' token, although the
      order of those need not be transitive. */
  lemma {:induction false} PackagistIsFilterSafe()
    ensures FilterSafeOn(PackagistHelper(), NoHashRead)
  {
    var h := PackagistHelper();
    forall u, v
      ensures h.VersionLt(u, v) ==> !h.VersionLt(v, u)
      ensures h.VersionEq(u, v) ==> h.VersionEq(v, u) && !h.VersionLt(u, v)
    {
      CompareAntisymmetric(Tokens(u), Tokens(v));
    }
    PackagistIsMonotone();
    forall v ensures CoarseInRange(CoarseString(v)) { CoarseIsInRange(v); }
  }

  lemma {:induction false} TokensOfSingle(version: string)
    requires |version| == 1 && !IsSeparator(version[0]) && version[0] != 'v'
    ensures Tokens(version) == [version]
  {
    assert Collapse(version[1..]) == "" && Collapse(version) == version;
    TokensAreRuns(version);
    SplitOfFree(version, '.');
    RunsOfCons(version[0], "");
    assert version == [version[0]] + "" == [version[0]];
    var x := [version];
    assert x[1..] == [] && AllRuns(x) == FindRuns(version) + AllRuns(x[1..]);
  }

  lemma {:induction false} HashIsLowest(hash: seq<string>, number: seq<string>)
    requires hash == ["#"] && |number| == 1 && IsDecimal(number[0]) && Value(number[0]) > 0
    ensures LexLt(ThreeFields(hash), ThreeFields(number))
  {
    HashIsNoNumber();
    FirstComponent(hash, 3);
    FirstComponent(number, 3);
  }

  /** Such a list is reached from a version string: the version "#" is level with every digit,
      and its coarse version is below theirs. */
  lemma {:induction false} HashIsLevelWithDigits(one: string, two: string)
    requires |one| == |two| == 1 && IsDecimal(one) && IsDecimal(two) && Value(one) < Value(two)
    ensures !NoHashToken("#") && VersionCompare(two, "#") == 0 && VersionCompare("#", one) == 0
    ensures VersionCompare(two, one) == 1 && Lt(CoarseString("#"), CoarseString(two))
  {
    var hash := "#";
    TokensOfSingle(one);
    TokensOfSingle(hash);
    TokensOfSingle(two);
    HashIsNoNumber();
    assert [two][1..] == [] && [one][1..] == [] && [hash][1..] == [];
    CompareHeads([two], [hash]);
    CompareHeads([hash], [one]);
    CompareHeads([two], [one]);
    HashIsLowest([hash], [two]);
    CoarseFromTokens(hash);
    CoarseFromTokens(two);
    FormatOrder(0, ThreeFields([hash]), 0, ThreeFields([two]));
  }

  lemma {:induction false} ZeroIsLowest(version: string)
    ensures Le(CoarseString("0"), CoarseString(version))
  {
    CoarseFromTokens("0");
    CoarseFromTokens(version);
    TokensOfSingle("0");
    ZeroComponents(["0"]);
    ExtremesBoundEverything(PatchComponents(Tokens(version), 3), 0);
  }

  lemma {:induction false} ZeroComponents(tokens: seq<string>)
    requires tokens == ["0"]
    ensures FromInts(PatchComponents(tokens, 3), 0) == MinCoarse()
  {
    assert Value("0") == 0 && tokens[1..] == [];
    assert PatchComponents(tokens, 3) == [0];
  }
}
