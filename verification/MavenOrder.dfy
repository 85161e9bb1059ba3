/** Where Maven's order is one: on versions without a qualifier after a '.', and exactly which other
    versions can be added to those. */
module MavenOrder {
  import opened Strings
  import opened CoarseVersion
  import opened Ecosystems
  import opened GenericCoarse
  import opened Maven

  // ----- versions without a qualifier after a '.'

  predicate DotWord(t: Token) { t.prefix == Dot && !IsDecimal(t.value) }

  predicate Plain(a: seq<Token>) { forall i :: 0 <= i < |a| ==> !DotWord(a[i]) }

  /** Every null token is followed by one that has no '-': what trimming leaves after the first token. */
  predicate Closed(a: seq<Token>) {
    forall k :: 0 <= k < |a| && IsNullValue(a[k].value) ==> k + 1 < |a| && a[k + 1].prefix != Hyphen
  }

  predicate Rest(a: seq<Token>) { Tail(a) && Canonical(a) && Closed(a) }

  lemma {:induction false} RestOfRest(a: seq<Token>)
    requires Rest(a) && a != []
    ensures Rest(a[1..]) && (IsNullValue(a[0].value) ==> a[1..] != [] && a[1..][0].prefix == Dot)
  {
    assert forall k :: 0 <= k < |a[1..]| ==> a[1..][k] == a[k + 1];
  }

  lemma {:induction false} PlainRest(a: seq<Token>)
    requires Plain(a) && a != []
    ensures Plain(a[1..]) && !DotWord(a[0])
  {
    assert forall k :: 0 <= k < |a[1..]| ==> a[1..][k] == a[k + 1];
  }

  // ----- ranks

  /** Below the padding that stands for a missing token after a '.'. */
  predicate LowWord(q: string) { KeywordIndex(q) < 7 || Strings.Lt(q, "0") }

  predicate IsDotZero(t: Token) { t.prefix == Dot && t.value == "0" }

  function AfterZeros(a: seq<Token>): seq<Token> {
    if a != [] && IsDotZero(a[0]) then AfterZeros(a[1..]) else a
  }

  /** Zeros after a '.', and then a qualifier after a '.' that is low. */
  predicate Sinks(a: seq<Token>) {
    var r := AfterZeros(a);
    r != [] && DotWord(r[0]) && LowWord(r[0].value)
  }

  /** Where a list stands at its head. The end of a list ranks between the known qualifiers and "sp". */
  function HeadRank(a: seq<Token>): int {
    if a == [] then 3
    else if DotWord(a[0]) then 0
    else if a[0].prefix == Dot then 8
    else if IsDecimal(a[0].value) then 7
    else if a[0].value == "" then (if a[0].prefix == Hyphen && Sinks(a[1..]) then 2 else 4)
    else if KeywordIndex(a[0].value) < 5 then 1
    else if KeywordIndex(a[0].value) == 6 then 5
    else 6
  }

  /** The order of two values of one rank. */
  predicate ValueLt(s: string, t: string) {
    if IsDecimal(s) && IsDecimal(t) then Value(s) < Value(t)
    else if KeywordIndex(s) == 7 && KeywordIndex(t) == 7 then Strings.Lt(s, t)
    else KeywordIndex(s) < KeywordIndex(t)
  }

  /** Lexicographic comparison of ranks and values. */
  predicate RankLt(a: seq<Token>, b: seq<Token>) {
    if HeadRank(a) != HeadRank(b) then HeadRank(a) < HeadRank(b)
    else if a == [] || b == [] then false
    else if ValueLt(a[0].value, b[0].value) then true
    else if ValueLt(b[0].value, a[0].value) then false
    else RankLt(a[1..], b[1..])
  }

  lemma {:induction false} ValueWeakOrder(s: string, t: string, u: string)
    requires IsDecimal(s) == IsDecimal(t) == IsDecimal(u)
    ensures !(ValueLt(s, t) && ValueLt(t, s))
    ensures ValueLt(s, u) ==> ValueLt(s, t) || ValueLt(t, u)
  {
    Trichotomy(s, t);
    Trichotomy(t, u);
    if Strings.Lt(s, u) && Strings.Lt(u, t) { LtTransitive(s, u, t); }
  }

  lemma {:induction false} SameRankSameKind(a: seq<Token>, b: seq<Token>)
    requires a != [] && b != [] && HeadRank(a) == HeadRank(b)
    ensures IsDecimal(a[0].value) == IsDecimal(b[0].value)
  {
  }

  /** Ranks order all token lists totally, but for lists that look alike. */
  lemma {:induction false} RankWeakOrder(a: seq<Token>, b: seq<Token>, c: seq<Token>)
    ensures !(RankLt(a, b) && RankLt(b, a))
    ensures RankLt(a, c) ==> RankLt(a, b) || RankLt(b, c)
  {
    if a != [] && b != [] && c != [] && HeadRank(a) == HeadRank(b) == HeadRank(c) {
      SameRankSameKind(a, b);
      SameRankSameKind(b, c);
      var x, y, z := a[0].value, b[0].value, c[0].value;
      ValueWeakOrder(x, y, z);
      ValueWeakOrder(x, z, y);
      ValueWeakOrder(y, x, z);
      ValueWeakOrder(y, z, x);
      ValueWeakOrder(z, x, y);
      ValueWeakOrder(z, y, x);
      RankWeakOrder(a[1..], b[1..], c[1..]);
    } else if a != [] && b != [] && HeadRank(a) == HeadRank(b) {
      SameRankSameKind(a, b);
      ValueWeakOrder(a[0].value, b[0].value, a[0].value);
      RankWeakOrder(a[1..], b[1..], []);
    }
  }

  lemma {:induction false} SameValue(s: string, t: string)
    requires IsDecimal(s) == IsDecimal(t) && CanonicalValue(s) && CanonicalValue(t)
    requires !ValueLt(s, t) && !ValueLt(t, s)
    ensures s == t
  {
    Trichotomy(s, t);
  }

  /** Level lists are equal. */
  lemma {:induction false} RankTotal(a: seq<Token>, b: seq<Token>)
    requires Comparable(a, b) && Canonical(a) && Canonical(b) && !RankLt(a, b) && !RankLt(b, a)
    ensures a == b
    decreases |a|
  {
    if a != [] && b != [] {
      SameRankSameKind(a, b);
      SameValue(a[0].value, b[0].value);
      assert a[0] == b[0];
      TailIsCanonical(a);
      TailIsCanonical(b);
      RankTotal(a[1..], b[1..]);
      assert a == [a[0]] + a[1..] && b == [b[0]] + b[1..];
    }
  }

  // ----- which versions fit among the plain ones

  /** Zeros after a '.' are followed by no low qualifier after a '.'. */
  predicate StaysAbove(a: seq<Token>) { !Sinks(a) }

  /** What follows the first token, up to the first qualifier after a '.': that one is low after a
      token that is not null, and high after zeros that follow such a token with a '.'. */
  predicate Fits(a: seq<Token>)
    decreases |a|, 1
  {
    if a == [] then true
    else if DotWord(a[0]) then LowWord(a[0].value)
    else if IsDotZero(a[0]) then StaysAbove(a[1..]) && FitsAfterNull(a[1..])
    else if IsNullValue(a[0].value) then FitsAfterNull(a[1..])
    else Fits(a[1..])
  }

  predicate FitsAfterNull(a: seq<Token>)
    decreases |a|, 0
  {
    if a == [] || DotWord(a[0]) then true
    else if IsNullValue(a[0].value) then FitsAfterNull(a[1..])
    else Fits(a[1..])
  }

  lemma {:induction false} PlainFits(a: seq<Token>)
    requires Plain(a)
    ensures Fits(a) && FitsAfterNull(a) && !Sinks(a)
  {
    if a != [] {
      PlainRest(a);
      PlainFits(a[1..]);
    }
  }

  // ----- there, comparing position by position is comparing ranks

  predicate Alike(a: seq<Token>, b: seq<Token>)
    requires Comparable(a, b)
  {
    (ListLt(a, b) <==> RankLt(a, b)) && (ListLt(b, a) <==> RankLt(b, a))
  }

  /** A list that goes on with a '.': above the end exactly if it does not sink. */
  lemma {:induction false} DotAgainstEnd(a: seq<Token>)
    requires Rest(a) && a != [] && a[0].prefix == Dot
    ensures ListLt(a, []) <==> Sinks(a)
    ensures ListLt([], a) <==> !Sinks(a)
  {
    if IsDotZero(a[0]) {
      RestOfRest(a);
      ZeroAgainstEnd(a);
      DotAgainstEnd(a[1..]);
    } else if DotWord(a[0]) {
      Trichotomy(a[0].value, "0");
    } else {
      assert Decimal(0) == "0" && Value(a[0].value) > 0;
    }
  }

  lemma {:induction false} AgainstEnd(a: seq<Token>)
    requires Rest(a) && Fits(a)
    ensures Alike(a, [])
  {
    if a != [] {
      RestOfRest(a);
      if a[0].prefix == Dot {
        DotAgainstEnd(a);
      } else if a[0].value == "" {
        assert TokenEq(Padding(a[0]), a[0]);
        DotAgainstEnd(a[1..]);
      }
    }
  }

  /** After a matched null token a plain list goes on with a number after a '.'. */
  lemma {:induction false} SinkingIsBelow(a: seq<Token>, b: seq<Token>)
    requires Rest(a) && Rest(b) && Plain(b) && a != [] && b != [] && a[0].prefix == b[0].prefix == Dot && Sinks(a)
    ensures ListLt(a, b) && !ListLt(b, a)
  {
    PlainRest(b);
    if IsDotZero(a[0]) {
      if IsDotZero(b[0]) {
        RestOfRest(a);
        RestOfRest(b);
        SinkingIsBelow(a[1..], b[1..]);
      } else {
        assert Value("0") == 0 && Decimal(0) == "0" && Value(b[0].value) > 0;
      }
    }
  }

  lemma {:induction false} DifferentHeads(a: seq<Token>, b: seq<Token>)
    requires Comparable(a, b) && Canonical(a) && Canonical(b) && a != [] && b != [] && !TokenEq(a[0], b[0]) && Plain(b)
    ensures Alike(a, b)
  {
    PlainRest(b);
    if a[0].prefix == b[0].prefix && !IsDecimal(a[0].value) && !IsDecimal(b[0].value) {
      DifferentWords(a[0].value, b[0].value);
    }
  }

  lemma {:induction false} DifferentWords(s: string, t: string)
    requires !IsDecimal(s) && !IsDecimal(t) && s != t
    ensures ValueLt(s, t) || ValueLt(t, s)
    ensures !(ValueLt(s, t) && ValueLt(t, s))
  {
    Trichotomy(s, t);
  }

  lemma {:induction false} SameHeads(a: seq<Token>, b: seq<Token>)
    requires Comparable(a, b) && a != [] && b != [] && TokenEq(a[0], b[0]) && HeadRank(a) == HeadRank(b)
    requires Comparable(a[1..], b[1..]) && Alike(a[1..], b[1..])
    ensures Alike(a, b)
  {
    EqualHeads(a, b);
    ValueWeakOrder(a[0].value, b[0].value, a[0].value);
  }

  lemma {:induction false} FitsIsRanked(a: seq<Token>, b: seq<Token>)
    requires Rest(a) && Rest(b) && Plain(b) && Fits(a)
    ensures Alike(a, b)
    decreases |a|, 1
  {
    if b == [] {
      AgainstEnd(a);
    } else if a == [] {
      PlainFits(b);
      AgainstEnd(b);
    } else if !TokenEq(a[0], b[0]) {
      DifferentHeads(a, b);
    } else {
      RestOfRest(a);
      RestOfRest(b);
      PlainRest(b);
      PlainFits(b[1..]);
      EqualHeads(a, b);
      if IsNullValue(a[0].value) {
        if Sinks(a[1..]) && a[0].value == "" {
          SinkingIsBelow(a[1..], b[1..]);
        } else {
          AfterNullIsRanked(a[1..], b[1..]);
          SameHeads(a, b);
        }
      } else {
        FitsIsRanked(a[1..], b[1..]);
        SameHeads(a, b);
      }
    }
  }

  lemma {:induction false} AfterNullIsRanked(a: seq<Token>, b: seq<Token>)
    requires Rest(a) && Rest(b) && Plain(b) && FitsAfterNull(a)
    requires a != [] && b != [] && a[0].prefix == b[0].prefix == Dot
    ensures Alike(a, b)
    decreases |a|, 0
  {
    if !TokenEq(a[0], b[0]) {
      DifferentHeads(a, b);
    } else {
      RestOfRest(a);
      RestOfRest(b);
      PlainRest(b);
      if IsNullValue(a[0].value) {
        AfterNullIsRanked(a[1..], b[1..]);
      } else {
        FitsIsRanked(a[1..], b[1..]);
      }
      SameHeads(a, b);
    }
  }

  // ----- a version that does not fit stands on a cycle of the order

  /** a < b < c < a. */
  predicate Cycle(a: seq<Token>, b: seq<Token>, c: seq<Token>)
    requires Comparable(a, b) && Comparable(b, c) && Comparable(c, a)
  {
    ListLt(a, b) && ListLt(b, c) && ListLt(c, a)
  }

  predicate PlainRestOf(b: seq<Token>) { Rest(b) && Plain(b) }

  lemma {:induction false} SameHeadCycle(t: Token, a: seq<Token>, b: seq<Token>, c: seq<Token>)
    requires t.prefix != Start && Tail(a) && Tail(b) && Tail(c) && Cycle(a, b, c)
    ensures Tail([t] + a) && Tail([t] + b) && Tail([t] + c) && Cycle([t] + a, [t] + b, [t] + c)
  {
    assert ([t] + a)[1..] == a && ([t] + b)[1..] == b && ([t] + c)[1..] == c;
    EqualHeads([t] + a, [t] + b);
    EqualHeads([t] + b, [t] + c);
    EqualHeads([t] + c, [t] + a);
  }

  lemma {:induction false} PlainCons(t: Token, b: seq<Token>)
    requires PlainRestOf(b) && t.prefix != Start && !DotWord(t) && !t.isNull && CanonicalValue(t.value)
    requires IsNullValue(t.value) ==> b != [] && b[0].prefix == Dot
    ensures PlainRestOf([t] + b)
  {
    var l := [t] + b;
    assert forall k :: 1 <= k < |l| ==> l[k] == b[k - 1];
    assert Tail(l) && Plain(l);
    assert Canonical(l);
    ClosedCons(t, b);
  }

  lemma {:induction false} ClosedCons(t: Token, b: seq<Token>)
    requires Closed(b) && (IsNullValue(t.value) ==> b != [] && b[0].prefix != Hyphen)
    ensures Closed([t] + b)
  {
    var l := [t] + b;
    forall k | 0 <= k < |l| && IsNullValue(l[k].value) ensures k + 1 < |l| && l[k + 1].prefix != Hyphen {
      if k == 0 { assert l[1] == b[0]; } else { assert l[k] == b[k - 1] && l[k + 1] == b[k]; }
    }
  }

  const ALPHA := Token(Hyphen, "alpha", false)
  const SP := Token(Hyphen, "sp", false)

  /** A token "-q" for a qualifier other than the null ones. */
  predicate HyphenWord(t: Token) { t.prefix == Hyphen && !t.isNull && !IsDecimal(t.value) && !IsNullValue(t.value) }

  lemma {:induction false} WordAlone(t: Token)
    requires HyphenWord(t)
    ensures PlainRestOf([t])
  {
  }

  /** A high qualifier after a '.': it is below "-alpha", that is below the end, and the end below it. */
  lemma {:induction false} HighWordCycle(a: seq<Token>, known: Token)
    requires Rest(a) && a != [] && DotWord(a[0]) && !LowWord(a[0].value)
    requires HyphenWord(known) && KeywordIndex(known.value) < 5
    ensures PlainRestOf([known]) && PlainRestOf([]) && Cycle(a, [known], [])
  {
    WordAlone(known);
    DotAgainstEnd(a);
  }

  /** A low qualifier after zeros: it is below the end, that is below "-sp", and "-sp" is below the zero. */
  lemma {:induction false} LowWordCycle(a: seq<Token>)
    requires Rest(a) && a != [] && IsDotZero(a[0]) && Sinks(a[1..])
    ensures PlainRestOf([SP]) && PlainRestOf([]) && Cycle(a, [], [SP])
  {
    assert !IsDigit("sp"[0]);
    WordAlone(SP);
    DotAgainstEnd(a);
  }

  lemma {:induction false} MisfitHasCycle(a: seq<Token>) returns (b: seq<Token>, c: seq<Token>)
    requires Rest(a) && !Fits(a)
    ensures PlainRestOf(b) && PlainRestOf(c) && Cycle(a, b, c)
    decreases |a|, 1
  {
    RestOfRest(a);
    if DotWord(a[0]) {
      assert !IsDigit("alpha"[0]);
      HighWordCycle(a, ALPHA);
      b, c := [ALPHA], [];
    } else if IsDotZero(a[0]) && Sinks(a[1..]) {
      LowWordCycle(a);
      b, c := [], [SP];
    } else {
      var b', c';
      if IsNullValue(a[0].value) {
        b', c' := MisfitAfterNull(a[1..]);
      } else {
        b', c' := MisfitHasCycle(a[1..]);
      }
      b, c := Behind(a, b', c');
    }
  }

  lemma {:induction false} Behind(a: seq<Token>, b': seq<Token>, c': seq<Token>) returns (b: seq<Token>, c: seq<Token>)
    requires Rest(a) && a != [] && !DotWord(a[0]) && Tail(a[1..]) && PlainRestOf(b') && PlainRestOf(c')
    requires Cycle(a[1..], b', c')
    requires IsNullValue(a[0].value) ==> b' != [] && c' != [] && b'[0].prefix == c'[0].prefix == Dot
    ensures PlainRestOf(b) && PlainRestOf(c) && Cycle(a, b, c) && b != [] && c != [] && b[0] == c[0] == a[0]
  {
    b, c := [a[0]] + b', [a[0]] + c';
    PlainCons(a[0], b');
    PlainCons(a[0], c');
    SameHeadCycle(a[0], a[1..], b', c');
    assert a == [a[0]] + a[1..];
  }

  lemma {:induction false} MisfitAfterNull(a: seq<Token>) returns (b: seq<Token>, c: seq<Token>)
    requires Rest(a) && a != [] && a[0].prefix == Dot && !FitsAfterNull(a)
    ensures PlainRestOf(b) && PlainRestOf(c) && Cycle(a, b, c)
    ensures b != [] && c != [] && b[0].prefix == c[0].prefix == Dot
    decreases |a|, 0
  {
    RestOfRest(a);
    var b', c';
    if IsNullValue(a[0].value) {
      b', c' := MisfitAfterNull(a[1..]);
    } else {
      b', c' := MisfitHasCycle(a[1..]);
    }
    b, c := Behind(a, b', c');
  }

  // ----- whole versions

  /** What parsing yields. */
  predicate Parsed(a: seq<Token>) { WellFormed(a) && Trimmed(a) }

  lemma {:induction false} RestOfParsed(a: seq<Token>)
    requires Parsed(a)
    ensures Rest(a[1..]) && (Plain(a) ==> Plain(a[1..]))
  {
    assert forall k :: 0 <= k < |a[1..]| ==> a[1..][k] == a[k + 1];
  }

  lemma {:induction false} ParsedIsRanked(a: seq<Token>, b: seq<Token>)
    requires Parsed(a) && Parsed(b) && Plain(b) && Fits(a[1..])
    ensures Alike(a, b)
  {
    RestOfParsed(a);
    RestOfParsed(b);
    if TokenEq(a[0], b[0]) {
      FitsIsRanked(a[1..], b[1..]);
      SameHeads(a, b);
    } else {
      DifferentHeads(a, b);
    }
  }

  /** No two plain versions close a cycle with this one. */
  ghost predicate Joins(a: seq<Token>)
    requires Parsed(a)
  {
    forall b, c :: Parsed(b) && Parsed(c) && Plain(b) && Plain(c) ==> !Cycle(a, b, c)
  }

  lemma {:induction false} ParsedCons(t: Token, b: seq<Token>)
    requires t.prefix == Start && !t.isNull && CanonicalValue(t.value) && PlainRestOf(b)
    ensures Parsed([t] + b) && Plain([t] + b)
  {
    var l := [t] + b;
    assert l[1..] == b;
    assert forall k :: 1 <= k < |l| ==> l[k] == b[k - 1];
  }

  lemma {:induction false} StartCycle(t: Token, a: seq<Token>, b: seq<Token>, c: seq<Token>)
    requires t.prefix == Start && Tail(a) && Tail(b) && Tail(c) && Cycle(a, b, c)
    ensures Full([t] + a) && Full([t] + b) && Full([t] + c) && Cycle([t] + a, [t] + b, [t] + c)
  {
    assert ([t] + a)[1..] == a && ([t] + b)[1..] == b && ([t] + c)[1..] == c;
    EqualHeads([t] + a, [t] + b);
    EqualHeads([t] + b, [t] + c);
    EqualHeads([t] + c, [t] + a);
  }

  /** A version stands on no cycle with two plain ones exactly if it fits: its first qualifier after a
      '.', if it has one, is low after a token that is not null, and high after zeros that follow
      such a token with a '.'. */
  lemma {:induction false} JoinsExactly(a: seq<Token>)
    requires Parsed(a)
    ensures Joins(a) <==> Fits(a[1..])
  {
    RestOfParsed(a);
    if Fits(a[1..]) {
      forall b, c | Parsed(b) && Parsed(c) && Plain(b) && Plain(c) ensures !Cycle(a, b, c) {
        RestOfParsed(b);
        PlainFits(b[1..]);
        ParsedIsRanked(a, b);
        ParsedIsRanked(b, c);
        ParsedIsRanked(a, c);
        RankWeakOrder(a, c, b);
        RankWeakOrder(c, b, a);
      }
    } else {
      var b, c := MisfitHasCycle(a[1..]);
      ParsedCons(a[0], b);
      ParsedCons(a[0], c);
      StartCycle(a[0], a[1..], b, c);
      assert a == [a[0]] + a[1..];
      assert Cycle(a, [a[0]] + b, [a[0]] + c);
    }
  }

  // ----- the helper

  predicate PlainVersion(v: string) { Plain(Parse(v)) }

  /** The plain versions and one more. */
  function With(v: string): string -> bool { u => u == v || PlainVersion(u) }

  ghost predicate FittingVersion(v: string) { Parsed(Parse(v)) && Fits(Parse(v)[1..]) }

  lemma {:induction false} PlainIsFitting(v: string)
    requires PlainVersion(v)
    ensures FittingVersion(v)
  {
    ParseIsTrimmed(v);
    RestOfParsed(Parse(v));
    PlainFits(Parse(v)[1..]);
  }

  lemma {:induction false} IsRanked(v: string, u: string, w: string)
    requires FittingVersion(v) && With(v)(u) && With(v)(w)
    ensures Parsed(Parse(u)) && Parsed(Parse(w)) && Alike(Parse(u), Parse(w))
  {
    ParseIsTrimmed(u);
    ParseIsTrimmed(w);
    if PlainVersion(w) {
      if PlainVersion(u) { PlainIsFitting(u); }
      ParsedIsRanked(Parse(u), Parse(w));
    } else if PlainVersion(u) {
      ParsedIsRanked(Parse(w), Parse(u));
    } else {
      NotBelowItself(Parse(v));
      RankWeakOrder(Parse(v), Parse(v), Parse(v));
    }
  }

  lemma {:induction false} NotBelowItself(a: seq<Token>)
    requires Comparable(a, a)
    ensures !ListLt(a, a)
  {
    if a != [] {
      EqualHeads(a, a);
      NotBelowItself(a[1..]);
    }
  }

  lemma {:induction false} OrderedWith(v: string)
    requires FittingVersion(v)
    ensures OrderedOn(MavenHelper(), With(v))
  {
    var h, dom := MavenHelper(), With(v);
    forall u, w | dom(u) && dom(w)
      ensures h.VersionLt(u, w) ==> !h.VersionLt(w, u)
      ensures h.VersionEq(u, w) <==> !h.VersionLt(u, w) && !h.VersionLt(w, u)
    {
      SortKeyOrder(u, w);
      SortKeyOrder(w, u);
      IsRanked(v, u, w);
      RankWeakOrder(Parse(u), Parse(w), Parse(u));
      if !RankLt(Parse(u), Parse(w)) && !RankLt(Parse(w), Parse(u)) { RankTotal(Parse(u), Parse(w)); }
      if Parse(u) == Parse(w) { RankWeakOrder(Parse(u), Parse(u), Parse(u)); }
    }
    forall u, x, w | dom(u) && dom(x) && dom(w) && h.VersionLt(u, w) ensures h.VersionLt(u, x) || h.VersionLt(x, w) {
      SortKeyOrder(u, w);
      SortKeyOrder(u, x);
      SortKeyOrder(x, w);
      IsRanked(v, u, w);
      IsRanked(v, u, x);
      IsRanked(v, x, w);
      RankWeakOrder(Parse(u), Parse(x), Parse(w));
    }
  }

  lemma {:induction false} CoarseIsInRange(v: string)
    ensures CoarseInRange(MavenCoarse(v))
  {
    CoarseFromParse(v);
    ExtremesBoundEverything(if v == "0" then [0, 0, 0] else Lead(Parse(v)), 0);
  }

  /** Maven keeps the helper contract on the plain versions and any one version that fits. */
  lemma {:induction false} MavenIsLawful(v: string)
    requires FittingVersion(v)
    ensures LawfulOn(MavenHelper(), With(v)) && RejectsAlike(MavenHelper(), With(v))
  {
    var h, dom := MavenHelper(), With(v);
    OrderedWith(v);
    forall u, w | dom(u) && dom(w) && !h.VersionLt(w, u) ensures Le(MavenCoarse(u), MavenCoarse(w)) {
      assert h.VersionLt(u, w) || h.VersionEq(u, w);
      MavenCoarseMonotone(u, w);
    }
    forall u ensures CoarseInRange(MavenCoarse(u)) { CoarseIsInRange(u); }
  }

  /** In particular on the plain versions alone. */
  lemma {:induction false} PlainIsLawful()
    ensures LawfulOn(MavenHelper(), PlainVersion) && RejectsAlike(MavenHelper(), PlainVersion)
  {
    PlainIsOrdered();
    forall u, w | PlainVersion(u) && PlainVersion(w)
      && !MavenHelper().VersionLt(w, u) ensures Le(MavenCoarse(u), MavenCoarse(w)) {
      assert MavenHelper().VersionLt(u, w) || MavenHelper().VersionEq(u, w);
      MavenCoarseMonotone(u, w);
    }
    forall u ensures CoarseInRange(MavenCoarse(u)) { CoarseIsInRange(u); }
  }

  lemma {:induction false} PlainIsOrdered()
    ensures OrderedOn(MavenHelper(), PlainVersion)
  {
    var h := MavenHelper();
    forall u, w | PlainVersion(u) && PlainVersion(w)
      ensures h.VersionLt(u, w) ==> !h.VersionLt(w, u)
      ensures h.VersionEq(u, w) <==> !h.VersionLt(u, w) && !h.VersionLt(w, u)
    {
      PlainIsFitting(u);
      OrderedWith(u);
      assert With(u)(u) && With(u)(w);
    }
    forall u, x, w | PlainVersion(u) && PlainVersion(x) && PlainVersion(w) && h.VersionLt(u, w)
      ensures h.VersionLt(u, x) || h.VersionLt(x, w)
    {
      PlainIsFitting(u);
      OrderedWith(u);
      assert With(u)(u) && With(u)(x) && With(u)(w);
    }
  }

  // ----- what holds of all versions: enough for the coarse filter

  lemma {:induction false} TokenAsymmetric(l: Token, r: Token)
    requires l.prefix == Start <==> r.prefix == Start
    ensures !(TokenLt(l, r) && TokenLt(r, l))
  {
    Trichotomy(l.value, r.value);
  }

  lemma {:induction false} ListAsymmetric(a: seq<Token>, b: seq<Token>)
    requires Comparable(a, b)
    ensures !(ListLt(a, b) && ListLt(b, a))
    decreases |a| + |b|
  {
    if a != [] || b != [] {
      var l := if a == [] then Padding(b[0]) else a[0];
      var r := if b == [] then Padding(a[0]) else b[0];
      if TokenEq(l, r) {
        ListAsymmetric(if a == [] then [] else a[1..], if b == [] then [] else b[1..]);
      } else {
        TokenAsymmetric(l, r);
      }
    }
  }

  lemma {:induction false} MavenIsPairwise()
    ensures PairwiseOn(MavenHelper(), Every)
  {
    var h := MavenHelper();
    forall u, v
      ensures h.VersionLt(u, v) ==> !h.VersionLt(v, u)
      ensures h.VersionEq(u, v) ==> h.VersionEq(v, u) && !h.VersionLt(u, v)
    {
      SortKeyOrder(u, v);
      SortKeyOrder(v, u);
      ParseIsTrimmed(u);
      ParseIsTrimmed(v);
      ListAsymmetric(Parse(u), Parse(v));
      NotBelowItself(Parse(u));
    }
  }

  /** For all version strings: if w is not below v, then coarse(v) <= coarse(w), although the order
      has cycles and versions need not be comparable through others. */
  lemma {:induction false} NotBelowIsCoarse(v: string, w: string)
    requires !MavenHelper().VersionLt(w, v)
    ensures Le(MavenCoarse(v), MavenCoarse(w))
  {
    SortKeyOrder(w, v);
    if v == "0" {
      ZeroIsLowest(v, w);
    } else {
      CoarseFromParse(v);
      CoarseFromParse(w);
      ParseIsTrimmed(v);
      ParseIsTrimmed(w);
      FormatOrder(0, Fields(Lead(Parse(w)), 3), 0, Fields(Lead(Parse(v)), 3));
      if LexLt(Fields(Lead(Parse(w)), 3), Fields(Lead(Parse(v)), 3)) {
        LargerFieldsAreGreater(Parse(v), Parse(w), 3);
      }
    }
  }

  /** The coarse filter is safe on all Maven versions, cycles included. */
  lemma {:induction false} MavenIsFilterSafe()
    ensures FilterSafeOn(MavenHelper(), Every)
  {
    MavenIsPairwise();
    forall v, w | !MavenHelper().VersionLt(w, v) ensures Le(MavenCoarse(v), MavenCoarse(w)) { NotBelowIsCoarse(v, w); }
    forall v ensures CoarseInRange(MavenCoarse(v)) { CoarseIsInRange(v); }
  }

  // ----- a cycle of version strings

  predicate Solid(s: string) { Free(s, '.') && Free(s, '-') }

  function PrefixOf(sep: char): Prefix { if sep == '.' then Dot else Hyphen }

  lemma {:induction false} OnePiece(s: string, prefix: Prefix)
    requires Solid(s)
    ensures Pieces(s, prefix) == [Piece(prefix, s)]
  {
    if s != "" {
      OnePiece(s[1..], prefix);
      assert [s[0]] + s[1..] == s;
    }
  }

  lemma {:induction false} TwoPieces(d: string, sep: char, w: string, prefix: Prefix)
    requires Solid(d) && Solid(w) && (sep == '.' || sep == '-')
    ensures Pieces(d + ([sep] + w), prefix) == [Piece(prefix, d), Piece(PrefixOf(sep), w)]
  {
    var s := d + ([sep] + w);
    if d == "" {
      assert s == [sep] + w && s[1..] == w;
      OnePiece(w, PrefixOf(sep));
    } else {
      assert s[1..] == d[1..] + ([sep] + w) && s[0] == d[0];
      TwoPieces(d[1..], sep, w, prefix);
      assert [d[0]] + d[1..] == d;
    }
  }

  /** A lower-case qualifier that stands for itself. */
  predicate IsWord(w: string) {
    && w != "" && Solid(w) && Lower(w) == w && (forall i :: 0 <= i < |w| ==> !IsDigit(w[i]))
    && w != "cr" && w != "ga" && w != "final" && w != "release"
  }

  predicate IsNumber(d: string) { IsDecimal(d) && d == Decimal(Value(d)) }

  lemma {:induction false} WordRun(w: string)
    requires w != "" && forall i :: 0 <= i < |w| ==> !IsDigit(w[i])
    ensures FindRuns(w) == [w]
  {
    assert RunLength(w) == |w| && w[..|w|] == w && w[|w|..] == "";
    assert Runs(w) == [w] + Runs("") && Runs("") == [];
  }

  lemma {:induction false} CutOfNumber(prefix: Prefix, d: string)
    requires IsNumber(d)
    ensures CutOf(Piece(prefix, d)) == Cut(prefix, [d])
  {
    SingleRun(d);
    NormalizedDecimal(d, true);
    assert Lower(d) == d;
    assert Values([d], Normalize) == [Normalize(d, true)] + Values([d][1..], Normalize);
  }

  lemma {:induction false} CutOfWord(prefix: Prefix, w: string)
    requires IsWord(w)
    ensures CutOf(Piece(prefix, w)) == Cut(prefix, [w])
  {
    WordRun(w);
    assert !IsDecimal(w) by { assert !IsDigit(w[0]); }
    assert Values([w], Normalize) == [Normalize(w, true)] + Values([w][1..], Normalize);
  }

  lemma {:induction false} ParseNumber(d: string)
    requires IsNumber(d)
    ensures Parse(d) == [Token(Start, d, false)]
  {
    OnePiece(d, Start);
    CutOfNumber(Start, d);
    var p := [Piece(Start, d)];
    assert Cuts(p) == [CutOf(p[0])] + Cuts(p[1..]);
    OneCut(Start, d);
  }

  lemma {:induction false} OneCut(prefix: Prefix, v: string)
    ensures ValueTokens(prefix, [v]) == [Token(prefix, v, false)]
    ensures CutTokens([Cut(prefix, [v])]) == [Token(prefix, v, false)]
  {
    assert [v][1..] == [];
    var c := [Cut(prefix, [v])];
    assert c[1..] == [] && CutTokens(c) == ValueTokens(prefix, [v]) + CutTokens(c[1..]);
  }

  lemma {:induction false} WordIsHyphenWord(w: string)
    requires IsWord(w)
    ensures !IsDecimal(w) && !IsNullValue(w)
  {
    assert !IsDigit(w[0]);
  }

  lemma {:induction false} ParseNumberWord(d: string, sep: char, w: string)
    requires IsNumber(d) && IsWord(w) && (sep == '.' || sep == '-')
    ensures Parse(d + ([sep] + w)) == [Token(Start, d, false), Token(PrefixOf(sep), w, false)]
  {
    TwoPieces(d, sep, w, Start);
    CutOfNumber(Start, d);
    CutOfWord(PrefixOf(sep), w);
    var p := [Piece(Start, d), Piece(PrefixOf(sep), w)];
    assert p[1..] == [p[1]] && p[1..][1..] == [];
    assert Cuts(p[1..]) == [CutOf(p[1])] + Cuts(p[1..][1..]);
    var c := Cuts(p);
    assert c == [CutOf(p[0])] + Cuts(p[1..]) && c[1..] == [Cut(PrefixOf(sep), [w])];
    OneCut(Start, d);
    OneCut(PrefixOf(sep), w);
    assert CutTokens(c) == ValueTokens(c[0].prefix, c[0].values) + CutTokens(c[1..]);
    WordIsHyphenWord(w);
    NothingToTrim([Token(Start, d, false), Token(PrefixOf(sep), w, false)]);
  }

  lemma {:induction false} NothingToTrim(tokens: seq<Token>)
    requires |tokens| == 2 && !IsNullValue(tokens[1].value)
    ensures Trimming(tokens) == tokens
  {
  }

  lemma {:induction false} ShortCycle(d: string, high: string, known: string)
    requires IsNumber(d) && IsWord(high) && !LowWord(high) && IsWord(known) && KeywordIndex(known) < 5
    ensures var t, x, y := Token(Start, d, false), Token(Dot, high, false), Token(Hyphen, known, false);
            Full([t, x]) && Full([t, y]) && Full([t]) && Cycle([t, x], [t, y], [t])
  {
    var t, x, y := Token(Start, d, false), Token(Dot, high, false), Token(Hyphen, known, false);
    WordIsHyphenWord(high);
    WordIsHyphenWord(known);
    HighWordCycle([x], y);
    StartCycle(t, [x], [y], []);
    assert [t] + [x] == [t, x] && [t] + [y] == [t, y] && [t] + [] == [t];
  }

  lemma {:induction false} VersionCycle(u: string, v: string, w: string)
    requires Full(Parse(u)) && Full(Parse(v)) && Full(Parse(w)) && Cycle(Parse(u), Parse(v), Parse(w))
    requires u != "0" && v != "0" && w != "0"
    ensures MavenHelper().VersionLt(u, v) && MavenHelper().VersionLt(v, w) && MavenHelper().VersionLt(w, u)
  {
    SortKeyOrder(u, v);
    SortKeyOrder(v, w);
    SortKeyOrder(w, u);
  }

  /** For any number, any high qualifier and any known one below the end:
      "1.foo" < "1-alpha" < "1" < "1.foo". */
  lemma {:induction false} VersionsOnACycle(d: string, high: string, known: string)
    requires IsNumber(d) && d != "0" && IsWord(high) && !LowWord(high) && IsWord(known) && KeywordIndex(known) < 5
    ensures var h := MavenHelper();
            && h.VersionLt(d + (['.'] + high), d + (['-'] + known))
            && h.VersionLt(d + (['-'] + known), d) && h.VersionLt(d, d + (['.'] + high))
  {
    ParseNumber(d);
    ParseNumberWord(d, '.', high);
    ParseNumberWord(d, '-', known);
    ShortCycle(d, high, known);
    VersionCycle(d + (['.'] + high), d + (['-'] + known), d);
  }

  // ----- versions that fit one at a time

  lemma {:induction false} RestCons(t: Token, b: seq<Token>)
    requires Rest(b) && t.prefix != Start && !t.isNull && CanonicalValue(t.value) && !IsNullValue(t.value)
    ensures Rest([t] + b)
  {
    var l := [t] + b;
    assert forall k :: 1 <= k < |l| ==> l[k] == b[k - 1];
    ClosedCons(t, b);
  }

  lemma {:induction false} StartCons(t: Token, b: seq<Token>)
    requires t.prefix == Start && !t.isNull && CanonicalValue(t.value) && Rest(b)
    ensures Parsed([t] + b) && ([t] + b)[1..] == b
  {
    var l := [t] + b;
    assert l[1..] == b;
    assert forall k :: 1 <= k < |l| ==> l[k] == b[k - 1];
  }

  /** There is no largest set of versions to add: behind a low qualifier after a '.', three versions
      that fit one at a time close a cycle, as in "1.rc.foo" < "1.rc-beta" < "1.rc" < "1.rc.foo". */
  lemma {:induction false} FittingVersionsOnACycle(first: Token, low: Token, high: Token, known: Token)
    requires first.prefix == Start && !first.isNull && CanonicalValue(first.value)
    requires DotWord(low) && !low.isNull && LowWord(low.value) && !IsNullValue(low.value)
    requires DotWord(high) && !high.isNull && !LowWord(high.value) && !IsNullValue(high.value)
    requires HyphenWord(known) && KeywordIndex(known.value) < 5
    ensures var a, b, c := [first] + ([low] + [high]), [first] + ([low] + [known]), [first] + ([low] + []);
            && Parsed(a) && Parsed(b) && Parsed(c) && Fits(a[1..]) && Fits(b[1..]) && Fits(c[1..])
            && Cycle(a, b, c)
  {
    RestCons(high, []);
    assert [high] + [] == [high] && [known] + [] == [known];
    RestCons(known, []);
    HighWordCycle([high], known);
    SameHeadCycle(low, [high], [known], []);
    RestCons(low, [high]);
    RestCons(low, [known]);
    RestCons(low, []);
    StartCons(first, [low] + [high]);
    StartCons(first, [low] + [known]);
    StartCons(first, [low] + []);
    StartCycle(first, [low] + [high], [low] + [known], [low] + []);
  }
}
