/** Maven: tokenising, trimming and comparing versions, and the coarse version that
    must follow a comparison that is not transitive everywhere. */
module Maven {
  import opened Strings
  import opened CoarseVersion
  import opened GenericCoarse
  import opened Ecosystems
  import opened Sorting

  // ----- tokens and their order

  /** What stands before a token: nothing (first token), '.', or '-'. */
  datatype Prefix = Start | Dot | Hyphen

  datatype Token = Token(prefix: Prefix, value: string, isNull: bool)

  /** The tokens __eq__: the null marker is not compared. */
  predicate TokenEq(l: Token, r: Token) { l.prefix == r.prefix && l.value == r.value }

  /** ".qualifier" < "-qualifier" < "-number" < ".number" */
  function QualifierOrder(t: Token): int
    requires t.prefix != Start
  {
    if IsDecimal(t.value) then (if t.prefix == Hyphen then 2 else 3)
    else if t.prefix == Hyphen then 1 else 0
  }

  /** Index in _KEYWORD_ORDER, or its length. */
  function KeywordIndex(v: string): int {
    if v == "alpha" then 0 else if v == "beta" then 1 else if v == "milestone" then 2
    else if v == "rc" then 3 else if v == "snapshot" then 4 else if v == "" then 5
    else if v == "sp" then 6 else 7
  }

  predicate TokenLt(l: Token, r: Token)
    requires l.prefix == Start <==> r.prefix == Start
  {
    if l.prefix == r.prefix then
      if IsDecimal(l.value) && IsDecimal(r.value) then Value(l.value) < Value(r.value)
      else if IsDecimal(l.value) && !l.isNull then false
      else if IsDecimal(r.value) && !r.isNull then true
      else if KeywordIndex(l.value) == 7 && KeywordIndex(r.value) == 7 then Strings.Lt(l.value, r.value)
      else KeywordIndex(l.value) < KeywordIndex(r.value)
    else QualifierOrder(l) < QualifierOrder(r)
  }

  /** No token but a first one lacks a prefix. */
  predicate Tail(a: seq<Token>) { forall i :: 0 <= i < |a| ==> a[i].prefix != Start }

  predicate Full(a: seq<Token>) { a != [] && a[0].prefix == Start && Tail(a[1..]) }

  predicate Comparable(a: seq<Token>, b: seq<Token>) { (Full(a) && Full(b)) || (Tail(a) && Tail(b)) }

  /** The null token that pads a list against token t. */
  function Padding(t: Token): Token
    requires t.prefix != Start
  {
    if t.prefix == Dot then Token(Dot, "0", true) else Token(Hyphen, "", true)
  }

  /** Version.__lt__, position by position. None (all equal) counts as false. */
  predicate ListLt(a: seq<Token>, b: seq<Token>)
    requires Comparable(a, b)
    decreases |a| + |b|
  {
    if a == [] && b == [] then false
    else
      var l := if a == [] then Padding(b[0]) else a[0];
      var r := if b == [] then Padding(a[0]) else b[0];
      if TokenEq(l, r) then ListLt(if a == [] then [] else a[1..], if b == [] then [] else b[1..])
      else TokenLt(l, r)
  }

  // ----- parsing

  datatype Piece = Piece(prefix: Prefix, text: string)

  /** re.split(r'([-.])', s), each piece with the delimiter before it. */
  function Pieces(s: string, prefix: Prefix): (p: seq<Piece>)
    ensures |p| >= 1 && p[0].prefix == prefix
    ensures forall i :: 1 <= i < |p| ==> p[i].prefix != Start
  {
    if s == "" then [Piece(prefix, "")]
    else if s[0] == '.' then [Piece(prefix, "")] + Pieces(s[1..], Dot)
    else if s[0] == '-' then [Piece(prefix, "")] + Pieces(s[1..], Hyphen)
    else
      var rest := Pieces(s[1..], prefix);
      [Piece(prefix, [s[0]] + rest[0].text)] + rest[1..]
  }

  function LowerChar(c: char): char {
    if 'A' <= c <= 'Z' then c + ('a' - 'A') else c
  }

  function Lower(s: string): (t: string)
    ensures |t| == |s| && forall i :: 0 <= i < |s| ==> t[i] == LowerChar(s[i])
  {
    if s == "" then "" else [LowerChar(s[0])] + Lower(s[1..])
  }

  /** Aliases of a lower-cased text; `last` when the piece ends with it. */
  function Rename(lower: string, last: bool): (r: string)
    ensures lower != "" && IsDigit(lower[0]) ==> r == lower
    ensures lower != "" && !IsDigit(lower[0]) ==> r == "" || !IsDigit(r[0])
  {
    var current := if lower == "" then "0" else lower;
    var current := if current == "cr" then "rc" else current;
    var current := if current == "ga" || current == "final" || current == "release" then "" else current;
    if last then current
    else if current == "a" then "alpha"
    else if current == "b" then "beta"
    else if current == "m" then "milestone"
    else current
  }

  /** The value of a token from its text, numbers without leading zeros. */
  function Normalize(text: string, last: bool): string {
    var current := Rename(Lower(text), last);
    if IsDecimal(current) then Decimal(Value(current)) else current
  }

  /** The token values of a piece, one for each run of digits or non-digits. */
  function Values(runs: seq<string>, rule: (string, bool) -> string): (v: seq<string>)
    ensures |v| == |runs|
  {
    if runs == [] then [] else [rule(runs[0], |runs| == 1)] + Values(runs[1..], rule)
  }

  datatype Cut = Cut(prefix: Prefix, values: seq<string>)

  function CutOf(piece: Piece): Cut { Cut(piece.prefix, Values(FindRuns(piece.text), Normalize)) }

  function Cuts(pieces: seq<Piece>): (c: seq<Cut>)
    ensures |c| == |pieces|
  {
    if pieces == [] then [] else [CutOf(pieces[0])] + Cuts(pieces[1..])
  }

  /** Tokens with the given values; every one but the first follows a transition. */
  function ValueTokens(prefix: Prefix, values: seq<string>): (t: seq<Token>)
    ensures |t| == |values|
    decreases values
  {
    if values == [] then [] else [Token(prefix, values[0], false)] + ValueTokens(Hyphen, values[1..])
  }

  function CutTokens(cuts: seq<Cut>): seq<Token> {
    if cuts == [] then [] else ValueTokens(cuts[0].prefix, cuts[0].values) + CutTokens(cuts[1..])
  }

  predicate IsNullValue(v: string) { v == "0" || v == "" || v == "final" || v == "ga" }

  /** Index of the nearest '-' token at or before i, or -1. */
  function HyphenAtOrBefore(tokens: seq<Token>, i: int): (h: int)
    requires -1 <= i < |tokens|
    ensures -1 <= h <= i
    ensures h >= 0 ==> tokens[h].prefix == Hyphen
    ensures forall k :: h < k <= i ==> tokens[k].prefix != Hyphen
  {
    if i < 0 || tokens[i].prefix == Hyphen then i else HyphenAtOrBefore(tokens, i - 1)
  }

  /** The trimming loop, from index i down. */
  function TrimFrom(tokens: seq<Token>, i: int): seq<Token>
    requires i < |tokens|
    decreases if i < 0 then 0 else i
  {
    if i <= 0 then tokens
    else if IsNullValue(tokens[i].value) then TrimFrom(tokens[..i] + tokens[i + 1..], i - 1)
    else TrimFrom(tokens, HyphenAtOrBefore(tokens, i) - 1)
  }

  function Tokenize(s: string): seq<Token> { CutTokens(Cuts(Pieces(s, Start))) }

  function Trimming(tokens: seq<Token>): seq<Token> { TrimFrom(tokens, |tokens| - 1) }

  function Parse(s: string): seq<Token> { Trimming(Tokenize(s)) }

  lemma {:induction false} ValueAt(runs: seq<string>, rule: (string, bool) -> string, j: nat)
    requires j < |runs|
    ensures Values(runs, rule)[j] == rule(runs[j], j == |runs| - 1)
  {
    if j > 0 { ValueAt(runs[1..], rule, j - 1); }
  }

  lemma {:induction false} CutAt(pieces: seq<Piece>, i: nat)
    requires i < |pieces|
    ensures Cuts(pieces)[i] == CutOf(pieces[i])
  {
    CutsDrop(pieces, i);
    FirstCut(pieces[i..]);
    assert Cuts(pieces)[i] == Cuts(pieces)[i..][0];
  }

  lemma {:induction false} FirstCut(pieces: seq<Piece>)
    requires pieces != []
    ensures Cuts(pieces)[0] == CutOf(pieces[0])
  {
  }

  lemma {:induction false} CutsDrop(pieces: seq<Piece>, i: nat)
    requires i <= |pieces|
    ensures Cuts(pieces)[i..] == Cuts(pieces[i..])
  {
    if i == 0 {
      assert pieces[0..] == pieces;
    } else {
      CutsTail(pieces);
      CutsDrop(pieces[1..], i - 1);
      DropTail(pieces, i);
      DropTail(Cuts(pieces), i);
    }
  }

  lemma {:induction false} CutsTail(pieces: seq<Piece>)
    requires pieces != []
    ensures Cuts(pieces)[1..] == Cuts(pieces[1..])
  {
  }

  lemma {:induction false} DropTail<T>(s: seq<T>, i: nat)
    requires 1 <= i <= |s|
    ensures s[1..][i - 1..] == s[i..]
  {
  }

  class Version {
    var tokens: seq<Token>

    /** Version.from_string. */
    constructor FromString(s: string)
      ensures tokens == Parse(s)
    {
      tokens := [];
      new;
      var pieces := Pieces(s, Start);
      AppendPieces(pieces, Cuts(pieces));
      ghost var parsed := tokens;
      assert parsed == Tokenize(s) by { assert [] + CutTokens(Cuts(pieces)) == CutTokens(Cuts(pieces)); }
      Trim();
      assert tokens == Trimming(parsed);
    }

    method AppendPieces(pieces: seq<Piece>, ghost cuts: seq<Cut>)
      requires cuts == Cuts(pieces)
      modifies `tokens
      ensures tokens == old(tokens) + CutTokens(cuts)
    {
      ghost var todo := cuts;
      var i := 0;
      while i < |pieces|
        invariant 0 <= i <= |pieces| && todo == cuts[i..]
        invariant tokens + CutTokens(todo) == old(tokens) + CutTokens(cuts)
        modifies `tokens
      {
        CutAt(pieces, i);
        AppendPiece(pieces[i], todo);
        i := i + 1;
        todo := todo[1..];
      }
      assert tokens + [] == tokens && old(tokens) + CutTokens(cuts) == tokens;
    }

    method AppendPiece(piece: Piece, ghost todo: seq<Cut>)
      requires todo != [] && todo[0] == CutOf(piece)
      modifies `tokens
      ensures tokens + CutTokens(todo[1..]) == old(tokens) + CutTokens(todo)
    {
      ghost var was, cut := tokens, todo[0];
      AppendRuns(piece.prefix, FindRuns(piece.text), cut.values);
      Associative(was, ValueTokens(cut.prefix, cut.values), CutTokens(todo[1..]));
    }

    /** One token for each run; all but the first get a '-'. */
    method AppendRuns(piecePrefix: Prefix, runs: seq<string>, ghost values: seq<string>)
      requires values == Values(runs, Normalize)
      modifies `tokens
      ensures tokens == old(tokens) + ValueTokens(piecePrefix, values)
    {
      var prefix := piecePrefix;
      ghost var todo := values;
      var j := 0;
      while j < |runs|
        invariant 0 <= j <= |runs| && todo == values[j..]
        invariant old(tokens) + ValueTokens(piecePrefix, values) == tokens + ValueTokens(prefix, todo)
        modifies `tokens
      {
        ValueAt(runs, Normalize, j);
        AppendValue(prefix, Normalize(runs[j], j == |runs| - 1), todo);
        prefix := Hyphen;
        j := j + 1;
        todo := todo[1..];
      }
    }

    method AppendValue(prefix: Prefix, value: string, ghost todo: seq<string>)
      requires todo != [] && todo[0] == value
      modifies `tokens
      ensures tokens == old(tokens) + [Token(prefix, value, false)]
      ensures tokens + ValueTokens(Hyphen, todo[1..]) == old(tokens) + ValueTokens(prefix, todo)
    {
      Associative(tokens, [Token(prefix, value, false)], ValueTokens(Hyphen, todo[1..]));
      tokens := tokens + [Token(prefix, value, false)];
    }

    /** Trailing null values are dropped, at the end and before each remaining '-'. */
    method Trim()
      modifies `tokens
      ensures tokens == Trimming(old(tokens))
    {
      var i := |tokens| - 1;
      while i > 0
        invariant i < |tokens|
        invariant TrimFrom(tokens, i) == TrimFrom(old(tokens), |old(tokens)| - 1)
        decreases i
      {
        if IsNullValue(tokens[i].value) {
          tokens := tokens[..i] + tokens[i + 1..];
          i := i - 1;
          continue;
        }
        ghost var from := i;
        while i >= 0 && tokens[i].prefix != Hyphen
          invariant -1 <= i <= from
          invariant HyphenAtOrBefore(tokens, i) == HyphenAtOrBefore(tokens, from)
        {
          i := i - 1;
        }
        i := i - 1;
      }
    }
  }

  // ----- what parsing leaves

  /** Numbers are in canonical form and no token is a padding token. */
  predicate Canonical(a: seq<Token>) {
    forall i :: 0 <= i < |a| ==> !a[i].isNull && CanonicalValue(a[i].value)
  }

  predicate WellFormed(a: seq<Token>) { Full(a) && Canonical(a) }

  /** No null token after index 0 is last or directly before a '-' token. */
  predicate Trimmed(a: seq<Token>) {
    forall k :: 1 <= k < |a| && IsNullValue(a[k].value) ==> k + 1 < |a| && a[k + 1].prefix != Hyphen
  }

  predicate CanonicalValue(v: string) { IsDecimal(v) ==> v == Decimal(Value(v)) }

  lemma {:induction false} NormalizedIsCanonical(text: string, last: bool)
    ensures CanonicalValue(Normalize(text, last))
  {
    var current := Rename(Lower(text), last);
    if IsDecimal(current) { ValueOfDecimal(Value(current)); }
  }

  lemma {:induction false} ValuesAreCanonical(runs: seq<string>)
    ensures forall i :: 0 <= i < |runs| ==> CanonicalValue(Values(runs, Normalize)[i])
  {
    forall i | 0 <= i < |runs|
      ensures CanonicalValue(Values(runs, Normalize)[i])
    {
      ValueAt(runs, Normalize, i);
      NormalizedIsCanonical(runs[i], i == |runs| - 1);
    }
  }

  predicate CanonicalCut(c: Cut) {
    c.values != [] && forall i :: 0 <= i < |c.values| ==> CanonicalValue(c.values[i])
  }

  lemma {:induction false} CutsAreCanonical(pieces: seq<Piece>)
    ensures forall i :: 0 <= i < |pieces| ==>
            CanonicalCut(Cuts(pieces)[i]) && Cuts(pieces)[i].prefix == pieces[i].prefix
  {
    forall i | 0 <= i < |pieces|
      ensures CanonicalCut(Cuts(pieces)[i]) && Cuts(pieces)[i].prefix == pieces[i].prefix
    {
      CutAt(pieces, i);
      ValuesAreCanonical(FindRuns(pieces[i].text));
    }
  }

  lemma {:induction false} ValueTokensShape(prefix: Prefix, values: seq<string>)
    requires CanonicalCut(Cut(prefix, values))
    ensures var t := ValueTokens(prefix, values);
            t[0].prefix == prefix && Tail(t[1..]) && Canonical(t)
    decreases values
  {
    var t := ValueTokens(prefix, values);
    assert t[1..] == ValueTokens(Hyphen, values[1..]);
    if |values| > 1 {
      assert forall i :: 0 <= i < |values[1..]| ==> values[1..][i] == values[i + 1];
      ValueTokensShape(Hyphen, values[1..]);
      assert t[1..] == [t[1]] + t[1..][1..];
    }
  }

  lemma {:induction false} CutTokensShape(cuts: seq<Cut>)
    requires cuts != [] && forall i :: 0 <= i < |cuts| ==> CanonicalCut(cuts[i])
    requires forall i :: 1 <= i < |cuts| ==> cuts[i].prefix != Start
    ensures var t := CutTokens(cuts);
            t != [] && t[0].prefix == cuts[0].prefix && Tail(t[1..]) && Canonical(t)
  {
    var x, y := ValueTokens(cuts[0].prefix, cuts[0].values), CutTokens(cuts[1..]);
    ValueTokensShape(cuts[0].prefix, cuts[0].values);
    assert (x + y)[1..] == x[1..] + y;
    if |cuts| > 1 {
      CutTokensShape(cuts[1..]);
      assert y == [y[0]] + y[1..];
    }
  }

  // The trimming loop keeps well-formedness and reaches the trimmed form.

  lemma {:induction false} PopKeepsWellFormed(tokens: seq<Token>, i: nat)
    requires 1 <= i < |tokens| && WellFormed(tokens)
    ensures WellFormed(tokens[..i] + tokens[i + 1..])
  {
    var popped := tokens[..i] + tokens[i + 1..];
    assert forall k :: 0 <= k < |popped| ==> popped[k] == if k < i then tokens[k] else tokens[k + 1];
    assert forall k :: 0 <= k < |popped[1..]| ==> popped[1..][k] == popped[k + 1];
    assert forall k :: 1 <= k < |tokens| ==> tokens[k] == tokens[1..][k - 1];
  }

  lemma {:induction false} TrimKeepsWellFormed(tokens: seq<Token>, i: int)
    requires i < |tokens| && WellFormed(tokens)
    ensures WellFormed(TrimFrom(tokens, i))
    decreases if i < 0 then 0 else i
  {
    if i > 0 {
      if IsNullValue(tokens[i].value) {
        PopKeepsWellFormed(tokens, i);
        TrimKeepsWellFormed(tokens[..i] + tokens[i + 1..], i - 1);
      } else {
        TrimKeepsWellFormed(tokens, HyphenAtOrBefore(tokens, i) - 1);
      }
    }
  }

  /** Trimmed, as far as the tokens after index i are concerned. */
  predicate TrimmedAfter(a: seq<Token>, i: int) {
    forall k :: 1 <= k < |a| && k > i && IsNullValue(a[k].value) ==> k + 1 < |a| && a[k + 1].prefix != Hyphen
  }

  lemma {:induction false} PopKeepsTrimmedAfter(tokens: seq<Token>, i: int, popped: seq<Token>)
    requires 0 < i < |tokens| && TrimmedAfter(tokens, i) && popped == tokens[..i] + tokens[i + 1..]
    requires i + 1 < |tokens| ==> tokens[i + 1].prefix == Hyphen
    ensures TrimmedAfter(popped, i - 1) && (i < |popped| ==> popped[i].prefix == Hyphen)
  {
    assert forall k :: 0 <= k < |popped| ==> popped[k] == if k < i then tokens[k] else tokens[k + 1];
  }

  lemma {:induction false} TrimFromReachesTrimmed(tokens: seq<Token>, i: int)
    requires i < |tokens| && TrimmedAfter(tokens, i)
    requires i >= 0 && i + 1 < |tokens| ==> tokens[i + 1].prefix == Hyphen
    ensures Trimmed(TrimFrom(tokens, i))
    decreases if i < 0 then 0 else i
  {
    if i > 0 {
      if IsNullValue(tokens[i].value) {
        var popped := tokens[..i] + tokens[i + 1..];
        PopKeepsTrimmedAfter(tokens, i, popped);
        TrimFromReachesTrimmed(popped, i - 1);
      } else {
        TrimFromReachesTrimmed(tokens, HyphenAtOrBefore(tokens, i) - 1);
      }
    }
  }

  lemma {:induction false} TokenizeIsWellFormed(s: string)
    ensures WellFormed(Tokenize(s))
  {
    CutsAreCanonical(Pieces(s, Start));
    CutTokensShape(Cuts(Pieces(s, Start)));
  }

  lemma {:induction false} TrimmingReachesTrimmed(tokens: seq<Token>)
    requires WellFormed(tokens)
    ensures WellFormed(Trimming(tokens)) && Trimmed(Trimming(tokens))
  {
    TrimKeepsWellFormed(tokens, |tokens| - 1);
    TrimFromReachesTrimmed(tokens, |tokens| - 1);
  }

  /** Every string parses to a well-formed, trimmed, non-empty token list. */
  lemma {:induction false} ParseIsTrimmed(s: string)
    ensures WellFormed(Parse(s)) && Trimmed(Parse(s))
  {
    TokenizeIsWellFormed(s);
    TrimmingReachesTrimmed(Tokenize(s));
  }

  // ----- the leading numbers

  /** The numbers at the head of a token list, up to a '-' or a qualifier. */
  function Lead(a: seq<Token>): (r: seq<int>)
    ensures |r| <= |a| && forall i :: 0 <= i < |r| ==> r[i] >= 0
  {
    if a == [] || a[0].prefix == Hyphen || !IsDecimal(a[0].value) then []
    else [Value(a[0].value)] + Lead(a[1..])
  }

  lemma {:induction false} NullNumber(v: string)
    requires IsNullValue(v)
    ensures IsDecimal(v) ==> Value(v) == 0
  {
    assert !IsDigit("final"[0]) && !IsDigit("ga"[0]);
  }

  /** Dropping a null token that is last or before a '-' drops at most a trailing zero. */
  lemma {:induction false} PopFromLead(a: seq<Token>, i: nat)
    requires i < |a| && IsNullValue(a[i].value)
    requires i + 1 < |a| ==> a[i + 1].prefix == Hyphen
    ensures var b := a[..i] + a[i + 1..]; Lead(a) == Lead(b) || Lead(a) == Lead(b) + [0]
    decreases i
  {
    var b := a[..i] + a[i + 1..];
    if i == 0 {
      NullNumber(a[0].value);
      assert b == a[1..] && Lead(b) == [] && Lead(b) + [0] == [0];
    } else {
      assert a[1..][..i - 1] + a[1..][i..] == b[1..];
      PopFromLead(a[1..], i - 1);
    }
  }

  lemma {:induction false} TrimKeepsFields(tokens: seq<Token>, i: int, n: nat)
    requires i < |tokens|
    requires i >= 0 && i + 1 < |tokens| ==> tokens[i + 1].prefix == Hyphen
    ensures Fields(Lead(TrimFrom(tokens, i)), n) == Fields(Lead(tokens), n)
    decreases if i < 0 then 0 else i
  {
    if i > 0 {
      if IsNullValue(tokens[i].value) {
        var popped := tokens[..i] + tokens[i + 1..];
        PopFromLead(tokens, i);
        TrailingZero(Lead(popped), n);
        TrimKeepsFields(popped, i - 1, n);
      } else {
        TrimKeepsFields(tokens, HyphenAtOrBefore(tokens, i) - 1, n);
      }
    }
  }

  // ----- the coarse version reads the same numbers

  predicate IsHyphen(c: char) { c == '-' }

  function MavenCoarse(version: string): string {
    Generic(version, IsHyphen, ReadAs("0"), 0)
  }

  /** Texts of the pieces before the first '-' (the first piece always counts). */
  function MainTexts(pieces: seq<Piece>): seq<string> {
    if pieces == [] then []
    else if |pieces| == 1 || pieces[1].prefix == Hyphen then [pieces[0].text]
    else [pieces[0].text] + MainTexts(pieces[1..])
  }

  lemma {:induction false} MainTextsAreSplit(s: string, prefix: Prefix)
    ensures MainTexts(Pieces(s, prefix)) == Split(Before(s, IsHyphen), '.')
  {
    if s != "" && s[0] != '-' {
      var main := Before(s, IsHyphen);
      assert main[0] == s[0] && main[1..] == Before(s[1..], IsHyphen);
      if s[0] == '.' {
        MainTextsAreSplit(s[1..], Dot);
        assert Pieces(s, prefix)[1..] == Pieces(s[1..], Dot);
      } else {
        MainTextsAreSplit(s[1..], prefix);
        var rest := Pieces(s[1..], prefix);
        assert Pieces(s, prefix)[1..] == rest[1..];
      }
    }
  }

  lemma {:induction false} NormalizedDecimal(text: string, last: bool)
    requires IsDecimal(text)
    ensures IsDecimal(Normalize(text, last)) && Value(Normalize(text, last)) == Value(text)
  {
    assert Lower(text) == text;
    ValueOfDecimal(Value(text));
  }

  lemma {:induction false} NormalizedWord(text: string, last: bool)
    requires text != "" && !IsDigit(text[0])
    ensures !IsDecimal(Normalize(text, last))
  {
    assert !IsDigit(Lower(text)[0]);
  }

  lemma {:induction false} ComponentsOfConcat(x: string, y: seq<string>, m: nat)
    requires m > |y|
    ensures Components([x] + y, m) == if IsDecimal(x) then [Value(x)] + Components(y, m - 1) else []
  {
    assert ([x] + y)[1..] == y;
  }

  lemma {:induction false} EnoughComponents(y: seq<string>, m: nat)
    requires m >= |y|
    ensures Components(y, m) == Components(y, |y|)
    decreases m
  {
    if y != [] && m > 0 && IsDecimal(y[0]) { EnoughComponents(y[1..], m - 1); }
  }

  /** All leading decimal parts. */
  function AllComponents(y: seq<string>): seq<int> { Components(y, |y|) }

  lemma {:induction false} AllComponentsOfCons(x: string, y: seq<string>)
    ensures AllComponents([x] + y) == if IsDecimal(x) then [Value(x)] + AllComponents(y) else []
  {
    ComponentsOfConcat(x, y, |y| + 1);
  }

  lemma {:induction false} LeadOfCons(t: Token, after: seq<Token>)
    ensures Lead([t] + after) == if t.prefix == Hyphen
            || !IsDecimal(t.value) then [] else [Value(t.value)] + Lead(after)
  {
    assert ([t] + after)[1..] == after;
  }

  /** A piece with one number goes on to the next piece; any other piece ends the lead. */
  lemma {:induction false} LeadOfValues(prefix: Prefix, values: seq<string>, after: seq<Token>)
    requires values != [] && prefix != Hyphen
    ensures Lead(ValueTokens(prefix, values) + after) ==
            if !IsDecimal(values[0]) then []
            else [Value(values[0])] + if |values| == 1 then Lead(after) else []
  {
    var t := ValueTokens(prefix, values);
    assert t + after == [t[0]] + (t[1..] + after);
    LeadOfCons(t[0], t[1..] + after);
    assert t[1..] == ValueTokens(Hyphen, values[1..]);
    if |values| == 1 { assert t[1..] + after == after; }
  }

  lemma {:induction false} SingleRun(text: string)
    requires IsDecimal(text)
    ensures FindRuns(text) == [text]
  {
    assert RunLength(text) == |text|;
    assert text[..|text|] == text && text[|text|..] == "";
    assert Runs(text) == [text] + Runs("") && Runs("") == [];
  }

  lemma {:induction false} RunsAlternate(text: string)
    requires text != "" && !IsDecimal(text) && IsDigit(text[0])
    ensures |Runs(text)| >= 2 && IsDecimal(Runs(text)[0])
    ensures Runs(text)[1] != "" && !IsDigit(Runs(text)[1][0])
  {
    var n := RunLength(text);
    assert n == |text| ==> AllDigits(text);
    var rest := text[n..];
    assert Runs(text)[1] == Runs(rest)[0] == rest[..RunLength(rest)];
  }

  /** The first value of a piece, and whether it is the only one. */
  lemma {:induction false} FirstValue(text: string)
    ensures var v := CutOf(Piece(Start, text)).values;
            if text == "" then v == ["0"]
            else if !IsDigit(text[0]) then !IsDecimal(v[0])
            else IsDecimal(v[0]) && Value(v[0]) == Value(FindRuns(text)[0]) && (|v| == 1 <==> IsDecimal(text))
  {
    var runs := FindRuns(text);
    ValueAt(runs, Normalize, 0);
    if text == "" {
      assert Value("0") == 0 && Decimal(0) == "0" && Normalize("", true) == "0";
    } else if !IsDigit(text[0]) {
      NormalizedWord(runs[0], |runs| == 1);
    } else {
      NormalizedDecimal(runs[0], |runs| == 1);
      if IsDecimal(text) { SingleRun(text); } else { RunsAlternate(text); }
    }
  }

  /** The components of the runs of a non-empty piece followed by other parts. */
  lemma {:induction false} ComponentsOfRuns(text: string, after: seq<string>)
    requires text != ""
    ensures AllComponents(Runs(text) + after) ==
            if !IsDigit(text[0]) then []
            else [Value(Runs(text)[0])] + if IsDecimal(text) then AllComponents(after) else []
  {
    if IsDecimal(text) {
      SingleRun(text);
      AllComponentsOfCons(text, after);
    } else if IsDigit(text[0]) {
      RunsAlternate(text);
      TwoRunsThen(Runs(text), after);
    } else {
      FirstRunIsWord(text);
      WordThen(Runs(text), after);
    }
  }

  lemma {:induction false} FirstRunIsWord(text: string)
    requires text != "" && !IsDigit(text[0])
    ensures Runs(text) != [] && !IsDecimal(Runs(text)[0])
  {
    assert Runs(text)[0][0] == text[0];
  }

  lemma {:induction false} WordThen(runs: seq<string>, after: seq<string>)
    requires runs != [] && !IsDecimal(runs[0])
    ensures AllComponents(runs + after) == []
  {
    assert runs + after == [runs[0]] + (runs[1..] + after);
    AllComponentsOfCons(runs[0], runs[1..] + after);
  }

  lemma {:induction false} TwoRunsThen(runs: seq<string>, after: seq<string>)
    requires |runs| >= 2 && IsDecimal(runs[0]) && !IsDecimal(runs[1])
    ensures AllComponents(runs + after) == [Value(runs[0])]
  {
    assert runs + after == [runs[0]] + (runs[1..] + after);
    AllComponentsOfCons(runs[0], runs[1..] + after);
    WordThen(runs[1..], after);
  }

  lemma {:induction false} FillConcatRead(x: seq<string>, y: seq<string>)
    ensures Fill(x + y, ReadAs("0")) == Fill(x, ReadAs("0")) + Fill(y, ReadAs("0"))
  {
    if x == [] {
      assert x + y == y;
    } else {
      assert (x + y)[1..] == x[1..] + y;
      FillConcatRead(x[1..], y);
    }
  }

  lemma {:induction false} FillRead(x: seq<string>)
    requires forall i :: 0 <= i < |x| ==> x[i] != ""
    ensures Fill(x, ReadAs("0")) == x
  {
    if x != [] { FillRead(x[1..]); }
  }

  /** The numbers that lead a piece and the tokens after it. */
  lemma {:induction false} LeadOfPiece(piece: Piece, more: seq<string>, after: seq<Token>)
    requires piece.prefix != Hyphen && Lead(after) == AllComponents(Fill(AllRuns(more), ReadAs("0")))
    ensures Lead(ValueTokens(CutOf(piece).prefix, CutOf(piece).values) + after) ==
            AllComponents(Fill(AllRuns([piece.text] + more), ReadAs("0")))
  {
    var text, cut := piece.text, CutOf(piece);
    FilledMainTexts(text, more);
    LeadOfValues(cut.prefix, cut.values, after);
    FirstValue(text);
    if text != "" { ComponentsOfRuns(text, Fill(AllRuns(more), ReadAs("0"))); }
  }

  lemma {:induction false} LeadOfPieces(pieces: seq<Piece>)
    requires pieces != [] && pieces[0].prefix != Hyphen
    requires forall i :: 1 <= i < |pieces| ==> pieces[i].prefix != Start
    ensures Lead(CutTokens(Cuts(pieces))) == AllComponents(Fill(AllRuns(MainTexts(pieces)), ReadAs("0")))
  {
    var text, rest := pieces[0].text, pieces[1..];
    var more := if rest == [] || rest[0].prefix == Hyphen then [] else MainTexts(rest);
    var filled := Fill(AllRuns(more), ReadAs("0"));
    assert Lead(CutTokens(Cuts(rest))) == AllComponents(filled) by {
      if more != [] {
        LeadOfPieces(rest);
      } else if rest != [] {
        LeadAfterHyphen(rest);
      }
    }
    assert MainTexts(pieces) == [text] + more;
    var cuts := Cuts(pieces);
    assert cuts[0] == CutOf(pieces[0]) && cuts[1..] == Cuts(rest);
    LeadOfPiece(pieces[0], more, CutTokens(Cuts(rest)));
  }

  lemma {:induction false} LeadAfterHyphen(pieces: seq<Piece>)
    requires pieces != [] && pieces[0].prefix == Hyphen
    ensures Lead(CutTokens(Cuts(pieces))) == []
  {
    var cuts := Cuts(pieces);
    assert ValueTokens(cuts[0].prefix, cuts[0].values)[0].prefix == Hyphen;
  }

  lemma {:induction false} FilledMainTexts(text: string, more: seq<string>)
    ensures var filled := Fill(AllRuns(more), ReadAs("0"));
            AllComponents(Fill(AllRuns([text] + more), ReadAs("0"))) ==
            if text == "" then [0] + AllComponents(filled) else AllComponents(Runs(text) + filled)
  {
    var filled := Fill(AllRuns(more), ReadAs("0"));
    assert ([text] + more)[1..] == more;
    FillConcatRead(FindRuns(text), AllRuns(more));
    if text == "" {
      assert [""][1..] == [] && Fill([""], ReadAs("0")) == ["0"] + Fill([""][1..], ReadAs("0")) == ["0"];
      AllComponentsOfCons("0", filled);
      assert Value("0") == 0;
    } else {
      FillRead(Runs(text));
    }
  }

  /** Without '0', the components are the leading numbers of the untrimmed tokens. */
  lemma {:induction false} ComponentsAreLead(version: string)
    ensures Fields(Components(Parts(version, IsHyphen, ReadAs("0")), 3), 3) == Fields(Lead(Tokenize(version)), 3)
  {
    var parts := Parts(version, IsHyphen, ReadAs("0"));
    MainTextsAreSplit(version, Start);
    LeadOfPieces(Pieces(version, Start));
    EnoughComponents(parts, |parts| + 3);
    FieldsOfComponents(parts, 3, |parts| + 3);
  }

  lemma {:induction false} TrimmingKeepsFields(tokens: seq<Token>)
    requires tokens != []
    ensures Fields(Lead(Trimming(tokens)), 3) == Fields(Lead(tokens), 3)
  {
    TrimKeepsFields(tokens, |tokens| - 1, 3);
  }

  /** The coarse version can be read off the trimmed tokens. */
  lemma {:induction false} CoarseFromParse(version: string)
    ensures MavenCoarse(version) == FromInts(if version == "0" then [0, 0, 0] else Lead(Parse(version)), 0)
  {
    TokenizeIsWellFormed(version);
    TrimmingKeepsFields(Tokenize(version));
    ComponentsAreLead(version);
  }

  // ----- monotonicity

  /** A number with a '.' or first in the list beats whatever ends b's numbers. */
  lemma {:induction false} NumberBeatsOthers(a: seq<Token>, b: seq<Token>)
    requires Comparable(a, b) && Canonical(a) && Lead(a) != [] && Lead(b) == []
    requires b == [] ==> a[0].value != "0"
    ensures ListLt(b, a) && !ListLt(a, b)
  {
    if b == [] {
      assert Decimal(0) == "0" && Value("0") == 0;
      assert Value(a[0].value) > 0;
    }
  }

  lemma {:induction false} LargerNumberIsGreater(a: seq<Token>, b: seq<Token>)
    requires Comparable(a, b) && Lead(a) != [] && Lead(b) != [] && Lead(a)[0] > Lead(b)[0]
    ensures ListLt(b, a) && !ListLt(a, b)
  {
  }

  lemma {:induction false} EqualHeads(a: seq<Token>, b: seq<Token>)
    requires Comparable(a, b) && a != [] && b != [] && TokenEq(a[0], b[0])
    ensures Comparable(a[1..], b[1..])
    ensures ListLt(a, b) == ListLt(a[1..], b[1..]) && ListLt(b, a) == ListLt(b[1..], a[1..])
  {
  }

  lemma {:induction false} ZeroAgainstEnd(a: seq<Token>)
    requires Tail(a) && a != [] && a[0].prefix == Dot && a[0].value == "0"
    ensures Tail(a[1..]) && ListLt(a, []) == ListLt(a[1..], []) && ListLt([], a) == ListLt([], a[1..])
  {
  }

  lemma {:induction false} EqualNumbers(a: seq<Token>, b: seq<Token>)
    requires Comparable(a, b) && Canonical(a) && Canonical(b)
    requires Lead(a) != [] && Lead(b) != [] && Lead(a)[0] == Lead(b)[0]
    ensures TokenEq(a[0], b[0])
  {
  }

  lemma {:induction false} TailIsCanonical(a: seq<Token>)
    requires Canonical(a) && a != []
    ensures Canonical(a[1..])
  {
  }

  /** If a's numbers give the larger fields, then b < a, and neither a < b nor a == b. */
  lemma {:induction false} LargerFieldsAreGreater(a: seq<Token>, b: seq<Token>, n: nat)
    requires Comparable(a, b) && Canonical(a) && Canonical(b)
    requires LexLt(Fields(Lead(b), n), Fields(Lead(a), n))
    ensures ListLt(b, a) && !ListLt(a, b)
    decreases |a| + |b|
  {
    var x, y := Lead(a), Lead(b);
    LargerFieldsHead(x, y, n);
    TailIsCanonical(a);
    assert x[1..] == Lead(a[1..]);
    if y == [] && (b != [] || a[0].value != "0") {
      NumberBeatsOthers(a, b);
    } else if y == [] {
      assert Value("0") == 0;
      ZeroAgainstEnd(a);
      LargerFieldsAreGreater(a[1..], b, n - 1);
    } else if x[0] == y[0] {
      EqualNumbers(a, b);
      EqualHeads(a, b);
      TailIsCanonical(b);
      assert y[1..] == Lead(b[1..]);
      LargerFieldsAreGreater(a[1..], b[1..], n - 1);
    } else {
      LargerNumberIsGreater(a, b);
    }
  }

  /** What larger fields say about the heads of two integer lists. */
  lemma {:induction false} LargerFieldsHead(x: seq<int>, y: seq<int>, n: nat)
    requires LexLt(Fields(y, n), Fields(x, n))
    requires forall i :: 0 <= i < |x| ==> x[i] >= 0
    requires forall i :: 0 <= i < |y| ==> y[i] >= 0
    ensures n > 0 && x != [] && (y != [] ==> x[0] >= y[0])
    ensures y != [] && x[0] == y[0] ==> LexLt(Fields(y[1..], n - 1), Fields(x[1..], n - 1))
    ensures y == [] && x[0] == 0 ==> LexLt(Fields([], n - 1), Fields(x[1..], n - 1))
  {
    FieldsBounds(x, n);
    FieldsBounds(y, n);
    LexTrichotomy(Fields(y, n), Fields(x, n));
    if y != [] && x != [] && x[0] < y[0] { FieldsMonotone(x, y, n); }
  }

  type ParsedVersion = a: seq<Token> | WellFormed(a) witness [Token(Start, "", false)]

  function ParseVersion(version: string): Option<ParsedVersion> {
    ParseIsTrimmed(version);
    Some(Parse(version))
  }

  function MavenHelper(): Helper<ParsedVersion> {
    Helper(ParseVersion, (a: ParsedVersion, b: ParsedVersion) => ListLt(a, b),
      (a: ParsedVersion, b: ParsedVersion) => a == b, v => Ok(MavenCoarse(v)))
  }

  /** The order and equality of the wrapped sort keys. */
  lemma {:induction false} SortKeyOrder(a: string, b: string)
    ensures MavenHelper().VersionLt(a, b) <==>
            b != "0" && (a == "0" || (Full(Parse(a)) && Full(Parse(b)) && ListLt(Parse(a), Parse(b))))
    ensures MavenHelper().VersionEq(a, b) <==> (a == "0" && b == "0") || (a != "0" && b != "0" && Parse(a) == Parse(b))
  {
    ParseIsTrimmed(a);
    ParseIsTrimmed(b);
  }

  /** For all version strings, sort_key(a) <= sort_key(b) implies coarse(a) <= coarse(b). */
  lemma {:induction false} MavenCoarseMonotone(a: string, b: string)
    requires MavenHelper().VersionLt(a, b) || MavenHelper().VersionEq(a, b)
    ensures Le(MavenCoarse(a), MavenCoarse(b))
  {
    SortKeyOrder(a, b);
    if a == "0" {
      ZeroIsLowest(a, b);
    } else {
      CoarseFromParse(a);
      CoarseFromParse(b);
      ParseIsTrimmed(a);
      ParseIsTrimmed(b);
      ParsedCoarseMonotone(Parse(a), Parse(b));
    }
  }

  lemma {:induction false} ZeroIsLowest(zero: string, version: string)
    requires zero == "0"
    ensures Le(MavenCoarse(zero), MavenCoarse(version))
  {
    if version == zero {
      LtIrreflexive(MavenCoarse(zero));
    } else {
      CoarseFromParse(version);
      ThreeZerosAreLowest(Lead(Parse(version)));
    }
  }

  /** The same on parsed versions: Version(a) < Version(b) or equal. */
  lemma {:induction false} ParsedCoarseMonotone(a: seq<Token>, b: seq<Token>)
    requires WellFormed(a) && WellFormed(b) && (ListLt(a, b) || a == b)
    ensures Le(FromInts(Lead(a), 0), FromInts(Lead(b), 0))
  {
    FormatOrder(0, Fields(Lead(b), 3), 0, Fields(Lead(a), 3));
    if a == b {
      LexTrichotomy(Fields(Lead(a), 3), Fields(Lead(a), 3));
    } else if LexLt(Fields(Lead(b), 3), Fields(Lead(a), 3)) {
      LargerFieldsAreGreater(a, b, 3);
    }
  }
}
