/** SemVer: coercion and parsing, precedence (section 11 of Semantic Versioning 2.0.0),
    the normalized index string, and the coarse version. */
module Semver {
  import opened Strings
  import opened CoarseVersion
  import opened GenericCoarse
  import opened Ecosystems

  // ----- parsing

  /** A parsed version. The prerelease is its dot-separated identifiers, none if empty. */
  datatype Version = Version(major: nat, minor: nat, patch: nat, prerelease: seq<string>, build: string)

  predicate NotDigit(c: char) { !IsDigit(c) }

  function LeadingDigits(s: string): (d: string)
    ensures |d| <= |s| && d == s[..|d|] && AllDigits(d)
    ensures |d| < |s| ==> !IsDigit(s[|d|])
  {
    Before(s, NotDigit)
  }

  /** The optional group (\.\d+)? at the head of s, without its dot. */
  function DotDigits(s: string): (d: string)
    ensures d != "" ==> IsDecimal(d) && 1 + |d| <= |s| && s[0] == '.' && d == s[1..1 + |d|]
    ensures d != "" && 1 + |d| < |s| ==> !IsDigit(s[1 + |d|])
  {
    if s != "" && s[0] == '.' then LeadingDigits(s[1..]) else ""
  }

  function AfterDotDigits(s: string): string {
    if DotDigits(s) == "" then s else s[1 + |DotDigits(s)|..]
  }

  predicate IsIdentifierChar(c: char) { IsDigit(c) || 'A' <= c <= 'Z' || 'a' <= c <= 'z' || c == '-' }

  /** A valid prerelease identifier: no empty one, no leading zeros in a numeric one. */
  predicate IsIdentifier(x: string) {
    && x != "" && (forall i :: 0 <= i < |x| ==> IsIdentifierChar(x[i]))
    && (IsDecimal(x) ==> x == Decimal(Value(x)))
  }

  /** _coerce_suffix on one prerelease component. */
  function CoerceComponent(x: string): string {
    if x == "" then "-" else if IsDecimal(x) then Decimal(Value(x)) else x
  }

  function CoerceAll(xs: seq<string>): (r: seq<string>)
    ensures |r| == |xs|
    ensures forall i :: 0 <= i < |xs| ==> r[i] == CoerceComponent(xs[i])
  {
    if xs == [] then [] else [CoerceComponent(xs[0])] + CoerceAll(xs[1..])
  }

  predicate IsPlus(c: char) { c == '+' }

  predicate ValidBuild(build: string) {
    forall i :: 0 <= i < |build| ==> IsIdentifierChar(build[i]) || build[i] == '.'
  }

  /** The coerced suffix as the library reads it: '' or '-pre', then '' or '+build'. */
  function ParseSuffix(suffix: string): Option<(seq<string>, string)> {
    var pre := Before(suffix, IsPlus);
    var build := if |pre| < |suffix| then suffix[|pre| + 1..] else "";
    if !ValidBuild(build) then None
    else if pre == "" then Some(([], build))
    else if pre[0] != '-' then None
    else
      var ids := CoerceAll(Split(pre[1..], '.'));
      if forall x :: x in ids ==> IsIdentifier(x) then Some((ids, build)) else None
  }

  /** The groups of ^(\d+)(\.\d+)?(\.\d+)?(.*)$, dots removed, absent ones empty. */
  datatype Core = Core(major: string, minor: string, patch: string, suffix: string)

  function SplitCore(s: string): (c: Core)
    ensures AllDigits(c.major) && AllDigits(c.minor) && AllDigits(c.patch)
  {
    var major := LeadingDigits(s);
    var s1 := s[|major|..];
    var s2 := AfterDotDigits(s1);
    Core(major, DotDigits(s1), DotDigits(s2), AfterDotDigits(s2))
  }

  function Assemble(c: Core): Option<Version>
    requires AllDigits(c.major) && AllDigits(c.minor) && AllDigits(c.patch)
  {
    if c.major == "" then None
    else
      match ParseSuffix(c.suffix)
      case None => None
      case Some(p) => Some(Version(Value(c.major), Value(c.minor), Value(c.patch), p.0, p.1))
  }

  /** semver_index.parse: coerce, then parse; None is a ValueError. */
  function Parse(version: string): Option<Version> { ParseStripped(StripV(version)) }

  function ParseStripped(s: string): Option<Version> { Assemble(SplitCore(s)) }

  // ----- precedence, section 11

  predicate IdLt(x: string, y: string) {
    if IsDecimal(x) && IsDecimal(y) then Value(x) < Value(y)
    else if IsDecimal(x) != IsDecimal(y) then IsDecimal(x)
    else Lt(x, y)
  }

  predicate IdsLt(a: seq<string>, b: seq<string>) {
    if b == [] then false
    else if a == [] then true
    else if IdLt(a[0], b[0]) then true
    else if IdLt(b[0], a[0]) then false
    else IdsLt(a[1..], b[1..])
  }

  predicate Precedes(a: Version, b: Version) {
    if a.major != b.major then a.major < b.major
    else if a.minor != b.minor then a.minor < b.minor
    else if a.patch != b.patch then a.patch < b.patch
    else if b.prerelease == [] then a.prerelease != []
    else a.prerelease != [] && IdsLt(a.prerelease, b.prerelease)
  }

  lemma {:induction false} IdWeakOrder(x: string, y: string, z: string)
    ensures !(IdLt(x, y) && IdLt(y, x))
    ensures IdLt(x, z) ==> IdLt(x, y) || IdLt(y, z)
  {
    Trichotomy(x, y);
    Trichotomy(y, z);
    if Lt(x, z) && Lt(z, y) { LtTransitive(x, z, y); }
  }

  lemma {:induction false} IdsWeakOrder(a: seq<string>, b: seq<string>, c: seq<string>)
    ensures !(IdsLt(a, b) && IdsLt(b, a))
    ensures IdsLt(a, c) ==> IdsLt(a, b) || IdsLt(b, c)
  {
    if a != [] && b != [] {
      IdWeakOrder(a[0], b[0], b[0]);
      IdsWeakOrder(a[1..], b[1..], if c == [] then [] else c[1..]);
      if c != [] {
        IdWeakOrder(a[0], b[0], c[0]);
        IdWeakOrder(c[0], b[0], a[0]);
        IdWeakOrder(a[0], c[0], b[0]);
        IdWeakOrder(b[0], a[0], c[0]);
        IdWeakOrder(c[0], a[0], b[0]);
        IdWeakOrder(b[0], c[0], a[0]);
      }
    }
  }

  lemma {:induction false} PrecedenceWeakOrder(a: Version, b: Version, c: Version)
    ensures !(Precedes(a, b) && Precedes(b, a))
    ensures Precedes(a, c) ==> Precedes(a, b) || Precedes(b, c)
  {
    IdsWeakOrder(a.prerelease, b.prerelease, c.prerelease);
  }

  // ----- the index string

  const PAD_WIDTH := 8
  const FAKE_PRE_WIDTH := 16

  function NormalizeComponent(x: string): string {
    if IsDecimal(x) then RightJustify(x, PAD_WIDTH) else "1" + x
  }

  function NormalizeAll(ids: seq<string>): (r: seq<string>)
    ensures |r| == |ids|
    ensures forall i :: 0 <= i < |ids| ==> r[i] == NormalizeComponent(ids[i])
  {
    if ids == [] then [] else [NormalizeComponent(ids[0])] + NormalizeAll(ids[1..])
  }

  method NormalizePrerelease(prerelease: string) returns (text: string)
    ensures text == Join(NormalizeAll(Split(prerelease, '.')), '.')
  {
    var components := Split(prerelease, '.');
    var pre := NormalizeComponents(components);
    text := Join(pre, '.');
  }

  method NormalizeComponents(components: seq<string>) returns (pre: seq<string>)
    ensures pre == NormalizeAll(components)
  {
    pre := [];
    var i := 0;
    while i < |components|
      invariant 0 <= i <= |components| && |pre| == i
      invariant forall k :: 0 <= k < i ==> pre[k] == NormalizeComponent(components[k])
    {
      if IsDecimal(components[i]) {
        pre := pre + [RightJustify(components[i], PAD_WIDTH)];
      } else {
        pre := pre + ["1" + components[i]];
      }
      i := i + 1;
    }
  }

  /** The text of a prerelease: its identifiers joined by dots; splitting gives them back. */
  lemma {:induction false} PrereleaseText(ids: seq<string>)
    requires ids != [] && forall x :: x in ids ==> IsIdentifier(x)
    ensures Split(Join(ids, '.'), '.') == ids
  {
    forall i | 0 <= i < |ids| ensures Free(ids[i], '.') { assert ids[i] in ids; }
    SplitJoin(ids, '.');
  }

  function PreText(ids: seq<string>): string {
    if ids == [] then Repeat('z', FAKE_PRE_WIDTH) else Join(NormalizeAll(ids), '.')
  }

  function Normalize(v: Version): string {
    Field(v.major, 8) + ("." + (Field(v.minor, 8) + ("." + (Field(v.patch, 8) + ("-" + PreText(v.prerelease))))))
  }

  /** A well-formed prerelease is what parsing yields. */
  predicate ValidVersion(v: Version) { forall x :: x in v.prerelease ==> IsIdentifier(x) }

  lemma {:induction false} ParsedIsValid(version: string)
    ensures Parse(version).Some? ==> ValidVersion(Parse(version).value)
  {
  }

  /** semver_index.normalize: None for its ValueError. */
  function IndexString(version: string): Option<string> {
    match Parse(version) case None => None case Some(v) => Some(Normalize(v))
  }

  /** normalize, from the version string to the index string. */
  method NormalizeVersion(version: string) returns (text: Option<string>)
    ensures text == IndexString(version)
  {
    var parsed := Parse(version);
    if parsed.None? { return None; }
    var v := parsed.value;
    var pre;
    if v.prerelease == [] {
      pre := Repeat('z', FAKE_PRE_WIDTH);
    } else {
      ParsedIsValid(version);
      PrereleaseText(v.prerelease);
      pre := NormalizePrerelease(Join(v.prerelease, '.'));
    }
    var patch := RightJustify(Decimal(v.patch), PAD_WIDTH);
    var minor := RightJustify(Decimal(v.minor), PAD_WIDTH);
    text := Some(RightJustify(Decimal(v.major), PAD_WIDTH) + ("." + (minor + ("." + (patch + ("-" + pre))))));
  }

  /** The range in which the index string keeps the order. */
  predicate Indexable(v: Version) {
    && v.major <= 99999999 && v.minor <= 99999999 && v.patch <= 99999999
    && forall x :: x in v.prerelease ==> (IsDecimal(x) ==> Value(x) < 10000000) && Free(x, '-')
  }

  /** Every character sorts after the separator '.'. */
  predicate AboveDot(x: string) { forall i :: 0 <= i < |x| ==> x[i] > '.' }

  predicate DotTail(t: string) { t == "" || t[0] == '.' }

  lemma {:induction false} LtBeforeDot(x: string, t: string, y: string, u: string)
    requires AboveDot(x) && AboveDot(y) && DotTail(t) && DotTail(u)
    ensures Lt(x + t, y + u) <==> Lt(x, y) || (x == y && Lt(t, u))
  {
    if x == "" || y == "" {
      assert x == "" ==> x + t == t;
      assert y == "" ==> y + u == u;
      if x != "" { assert (x + t)[0] == x[0]; }
      if y != "" { assert (y + u)[0] == y[0]; }
    } else {
      assert (x + t)[1..] == x[1..] + t && (y + u)[1..] == y[1..] + u;
      LtBeforeDot(x[1..], t, y[1..], u);
      if x[0] == y[0] && x[1..] == y[1..] { assert x == [x[0]] + x[1..] == y; }
    }
  }

  lemma {:induction false} CommonPrefix(p: string, x: string, y: string)
    ensures Lt(p + x, p + y) <==> Lt(x, y)
  {
    LtConcat(p, x, p, y);
    LtIrreflexive(p);
  }

  function JoinRest(a: seq<string>): string
    requires a != []
  {
    if |a| == 1 then "" else ['.'] + Join(a[1..], '.')
  }

  lemma {:induction false} JoinSplit(a: seq<string>)
    requires a != []
    ensures Join(a, '.') == a[0] + JoinRest(a) && DotTail(JoinRest(a))
  {
  }

  lemma {:induction false} JoinRestOrder(a: seq<string>, b: seq<string>)
    requires a != [] && b != []
    ensures Lt(JoinRest(a), JoinRest(b)) <==> |b| > 1 && (|a| == 1 || Lt(Join(a[1..], '.'), Join(b[1..], '.')))
  {
    if |a| > 1 && |b| > 1 {
      CommonPrefix(['.'], Join(a[1..], '.'), Join(b[1..], '.'));
    }
  }

  /** Joining with '.' keeps the lexicographic order of the components. */
  lemma {:induction false} JoinKeepsOrder(a: seq<string>, b: seq<string>)
    requires a != [] && b != [] && AboveDot(a[0]) && AboveDot(b[0])
    ensures Lt(Join(a, '.'), Join(b, '.')) <==>
            Lt(a[0], b[0]) || (a[0] == b[0] && |b| > 1 && (|a| == 1 || Lt(Join(a[1..], '.'), Join(b[1..], '.'))))
  {
    JoinSplit(a);
    JoinSplit(b);
    LtBeforeDot(a[0], JoinRest(a), b[0], JoinRest(b));
    JoinRestOrder(a, b);
  }

  predicate IndexableId(x: string) {
    IsIdentifier(x) && (IsDecimal(x) ==> Value(x) < 10000000) && Free(x, '-')
  }

  lemma {:induction false} ComponentForm(x: string)
    requires IndexableId(x)
    ensures AboveDot(NormalizeComponent(x)) && NormalizeComponent(x) != ""
    ensures IsDecimal(x) ==> NormalizeComponent(x) == Digits(Value(x), PAD_WIDTH) && NormalizeComponent(x)[0] == '0'
    ensures !IsDecimal(x) ==> NormalizeComponent(x)[0] == '1' && NormalizeComponent(x)[1..] == x
  {
    if IsDecimal(x) {
      assert Pow10(8) == 100000000;
      PaddedIsDigits(Value(x), PAD_WIDTH);
      LeadingZero(Value(x), PAD_WIDTH);
    }
  }

  lemma {:induction false} LeadingZero(n: nat, w: nat)
    requires w >= 1 && n < Pow10(w - 1)
    ensures Digits(n, w)[0] == '0'
  {
    if w > 1 { LeadingZero(n / 10, w - 1); }
  }

  /** On one identifier: padding and prefixing keep precedence, and nothing is merged. */
  lemma {:induction false} ComponentKeepsOrder(x: string, y: string)
    requires IndexableId(x) && IndexableId(y)
    ensures Lt(NormalizeComponent(x), NormalizeComponent(y)) <==> IdLt(x, y)
    ensures NormalizeComponent(x) == NormalizeComponent(y) <==> !IdLt(x, y) && !IdLt(y, x)
  {
    ComponentForm(x);
    ComponentForm(y);
    if IsDecimal(x) && IsDecimal(y) {
      assert Pow10(8) == 100000000;
      DigitsOrder(Value(x), Value(y), PAD_WIDTH);
    } else if !IsDecimal(x) && !IsDecimal(y) {
      Trichotomy(x, y);
      LtIrreflexive(x);
    }
  }

  lemma {:induction false} IdsKeepOrder(a: seq<string>, b: seq<string>)
    requires a != [] && b != []
    requires forall i :: 0 <= i < |a| ==> IndexableId(a[i])
    requires forall i :: 0 <= i < |b| ==> IndexableId(b[i])
    ensures Lt(Join(NormalizeAll(a), '.'), Join(NormalizeAll(b), '.')) <==> IdsLt(a, b)
  {
    var p, q := NormalizeAll(a), NormalizeAll(b);
    ComponentForm(a[0]);
    ComponentForm(b[0]);
    JoinKeepsOrder(p, q);
    ComponentKeepsOrder(a[0], b[0]);
    ComponentKeepsOrder(b[0], a[0]);
    LtIrreflexive(p[0]);
    assert p[1..] == NormalizeAll(a[1..]) && q[1..] == NormalizeAll(b[1..]);
    if |a| > 1 && |b| > 1 { IdsKeepOrder(a[1..], b[1..]); }
  }

  lemma {:induction false} PreTextKeepsOrder(a: seq<string>, b: seq<string>)
    requires forall x :: x in a ==> IndexableId(x)
    requires forall x :: x in b ==> IndexableId(x)
    ensures Lt(PreText(a), PreText(b)) <==> if b == [] then a != [] else a != [] && IdsLt(a, b)
  {
    if a == [] && b == [] {
      LtIrreflexive(PreText(a));
    } else if a != [] && b != [] {
      forall i | 0 <= i < |a| ensures IndexableId(a[i]) { assert a[i] in a; }
      forall i | 0 <= i < |b| ensures IndexableId(b[i]) { assert b[i] in b; }
      IdsKeepOrder(a, b);
    } else {
      if a != [] { FirstOfPreText(a); }
      if b != [] { FirstOfPreText(b); }
    }
  }

  lemma {:induction false} FirstOfPreText(a: seq<string>)
    requires a != [] && forall x :: x in a ==> IndexableId(x)
    ensures PreText(a) != "" && PreText(a)[0] < 'z'
  {
    assert a[0] in a;
    ComponentForm(a[0]);
    assert Join(NormalizeAll(a), '.')[0] == NormalizeComponent(a[0])[0];
  }

  predicate SameCore(a: Version, b: Version) { a.major == b.major && a.minor == b.minor && a.patch == b.patch }

  predicate CoreLt(a: Version, b: Version) {
    if a.major != b.major then a.major < b.major
    else if a.minor != b.minor then a.minor < b.minor
    else a.patch < b.patch
  }

  /** The three numbers fit their fields. */
  predicate CoreInRange(v: Version) { v.major <= 99999999 && v.minor <= 99999999 && v.patch <= 99999999 }

  /** The index string compares the numbers first and then the prerelease text. */
  lemma {:induction false} NormalizeOrder(a: Version, b: Version)
    requires CoreInRange(a) && CoreInRange(b)
    ensures Lt(Normalize(a), Normalize(b)) <==>
            CoreLt(a, b) || (SameCore(a, b) && Lt(PreText(a.prerelease), PreText(b.prerelease)))
  {
    Powers();
    var p, q := PreText(a.prerelease), PreText(b.prerelease);
    var z, z' := Field(a.patch, 8) + ("-" + p), Field(b.patch, 8) + ("-" + q);
    FieldOrder(a.patch, b.patch, 8, "-", p, q);
    var y, y' := Field(a.minor, 8) + ("." + z), Field(b.minor, 8) + ("." + z');
    FieldOrder(a.minor, b.minor, 8, ".", z, z');
    FieldOrder(a.major, b.major, 8, ".", y, y');
  }

  /** The index string is an order embedding: for valid versions in range,
      string < of the normalized forms is exactly section 11 precedence. */
  lemma {:induction false} IndexIsOrderEmbedding(a: Version, b: Version)
    requires ValidVersion(a) && ValidVersion(b) && Indexable(a) && Indexable(b)
    ensures Lt(Normalize(a), Normalize(b)) <==> Precedes(a, b)
  {
    NormalizeOrder(a, b);
    PreTextKeepsOrder(a.prerelease, b.prerelease);
  }

  /** The same on version strings. */
  lemma {:induction false} IndexStringsEmbed(a: string, b: string)
    requires Parse(a).Some? && Parse(b).Some? && Indexable(Parse(a).value) && Indexable(Parse(b).value)
    ensures IndexString(a).Some? && IndexString(b).Some?
    ensures Lt(IndexString(a).value, IndexString(b).value) <==> Precedes(Parse(a).value, Parse(b).value)
  {
    ParsedIsValid(a);
    ParsedIsValid(b);
    IndexIsOrderEmbedding(Parse(a).value, Parse(b).value);
  }

  // ----- exactly which other versions keep their place among those in range

  /** A numeric identifier of 10000000 or more keeps its place if it is a power of ten. */
  predicate IsPowerOfTen(d: string) { d != "" && d[0] == '1' && forall i :: 1 <= i < |d| ==> d[i] == '0' }

  predicate IsHyphen(c: char) { c == '-' }

  /** An identifier outside the range that keeps its place all the same: a power of ten, or one with
      no letter before its first hyphen. */
  predicate TameId(x: string) { if IsDecimal(x) then IsPowerOfTen(x) else AllDigits(Before(x, IsHyphen)) }

  /** The first identifier outside the range, if there is one, is tame. */
  predicate Tame(ids: seq<string>) {
    if ids == [] then true else if IndexableId(ids[0]) then Tame(ids[1..]) else TameId(ids[0])
  }

  /** A number too long for its field keeps its place if its text begins with eight nines. */
  predicate BeginsWithNines(n: nat) { |Decimal(n)| >= 8 && forall i :: 0 <= i < 8 ==> Decimal(n)[i] == '9' }

  /** The first of the three numbers that does not fit its field. */
  function FirstUnfit(v: Version): (n: nat)
    requires !CoreInRange(v)
    ensures n > 99999999
  {
    if v.major > 99999999 then v.major else if v.minor > 99999999 then v.minor else v.patch
  }

  /** What keeps a version in its place: decided by the first number that does not fit, or else by
      the first identifier outside the range. */
  predicate InPlace(v: Version) { if CoreInRange(v) then Tame(v.prerelease) else BeginsWithNines(FirstUnfit(v)) }

  /** The order of the index strings is precedence against every version in range, both ways. */
  ghost predicate KeepsPlace(v: Version) {
    forall w :: ValidVersion(w) && Indexable(w) ==>
      (Lt(Normalize(v), Normalize(w)) <==> Precedes(v, w)) && (Lt(Normalize(w), Normalize(v)) <==> Precedes(w, v))
  }

  /** The texts differ first at i, where neither has a dot: what follows does not matter. */
  predicate Decided(x: string, y: string, i: nat) {
    i <= |x| && i < |y| && x[..i] == y[..i] && if i < |x| then x[i] < y[i] else y[i] > '.'
  }

  /** What may follow a text that is decided by its end: nothing, or a separator. */
  predicate LowTail(t: string) { t == "" || t[0] <= '.' }

  lemma {:induction false} DecidedAt(x: string, t: string, y: string, u: string, i: nat)
    requires Decided(x, y, i) && LowTail(t)
    ensures Lt(x + t, y + u) && !Lt(y + u, x + t)
    decreases i
  {
    if i == 0 {
      assert x == "" ==> x + t == t;
      assert (y + u)[0] == y[0] && (x != "" ==> (x + t)[0] == x[0]);
    } else {
      assert x[0] == x[..i][0] == y[..i][0] == y[0];
      assert x[1..][..i - 1] == x[..i][1..] && y[1..][..i - 1] == y[..i][1..];
      assert (x + t)[1..] == x[1..] + t && (y + u)[1..] == y[1..] + u;
      DecidedAt(x[1..], t, y[1..], u, i - 1);
    }
  }

  predicate NotZero(c: char) { c != '0' }

  lemma {:induction false} ValueBelow(d: string)
    requires AllDigits(d)
    ensures Value(d) < Pow10(|d|)
  {
    if d != "" { ValueBelow(d[..|d| - 1]); }
  }

  lemma {:induction false} PowersGrow(m: nat, n: nat)
    requires m <= n
    ensures Pow10(m) <= Pow10(n)
  {
    if m < n { PowersGrow(m, n - 1); }
  }

  /** A numeric identifier outside the range fills its width. */
  lemma {:induction false} LongNumber(x: string)
    requires IsDecimal(x) && Value(x) >= 10000000
    ensures NormalizeComponent(x) == x
  {
    ValueBelow(x);
    assert Pow10(7) == 10000000;
    if |x| <= 7 { PowersGrow(|x|, 7); }
  }

  lemma {:induction false} PowerBelowWords(x: string, y: string) returns (i: nat)
    requires IsPowerOfTen(x) && y != "" && !IsDecimal(y) && (forall k :: 0 <= k < |y| ==> IsIdentifierChar(y[k]))
    requires Free(y, '-')
    ensures Decided(x, "1" + y, i)
  {
    var j := |Before(y, NotZero)|;
    assert j < |y| by { assert j == |y| ==> AllDigits(y); }
    i := if j + 1 < |x| then j + 1 else |x|;
    var q := "1" + y;
    forall k | 0 <= k < i ensures x[k] == q[k] {
      if k > 0 { assert q[k] == y[k - 1] == '0'; }
    }
    assert q[i] == y[i - 1];
  }

  /** Where two words part, if not at the end of the second. */
  lemma {:induction false} FirstDifference(h: string, y: string) returns (k: nat)
    ensures k <= |h| && k <= |y| && h[..k] == y[..k] && (k < |h| && k < |y| ==> h[k] != y[k])
    ensures (k == |h| || k == |y| || h[k] != y[k])
  {
    if h == "" || y == "" || h[0] != y[0] {
      k := 0;
    } else {
      var k' := FirstDifference(h[1..], y[1..]);
      k := k' + 1;
      assert h[..k] == [h[0]] + h[1..][..k'] && y[..k] == [y[0]] + y[1..][..k'];
    }
  }

  predicate DecidedEither(x: string, y: string, i: nat) { Decided(x, y, i) || Decided(y, x, i) }

  lemma {:induction false} WordOutlasts(h: string, y: string, k: nat)
    requires AllDigits(h) && y != "" && !IsDecimal(y) && k <= |h| && k <= |y| && h[..k] == y[..k]
    ensures k < |y|
  {
    assert forall i :: 0 <= i < k ==> IsDigit(h[..k][i]);
  }

  lemma {:induction false} HyphenAgainstWord(x: string, y: string) returns (k: nat)
    requires !Free(x, '-') && AllDigits(Before(x, IsHyphen))
    requires IsIdentifier(y) && !IsDecimal(y) && Free(y, '-')
    ensures DecidedEither(x, y, k)
  {
    var h := Before(x, IsHyphen);
    k := FirstDifference(h, y);
    assert |h| < |x|;
    WordOutlasts(h, y, k);
    assert x[..k] == h[..k];
    assert k < |h| ==> x[k] == h[k];
    assert IsIdentifierChar(y[k]) && y[k] != '-';
  }

  lemma {:induction false} DecidedBehind(c: char, x: string, y: string, i: nat)
    requires Decided(x, y, i)
    ensures Decided([c] + x, [c] + y, i + 1)
  {
    assert ([c] + x)[..i + 1] == [c] + x[..i] && ([c] + y)[..i + 1] == [c] + y[..i];
  }

  lemma {:induction false} DecidedWord(x: string, y: string, i: nat)
    requires Decided(x, y, i)
    ensures Lt(x, y) && !Lt(y, x)
  {
    DecidedAt(x, "", y, "", i);
    assert x + "" == x && y + "" == y;
  }

  /** A tame identifier against one in range: text and precedence are decided alike. */
  lemma {:induction false} TameHead(x: string, y: string) returns (i: nat)
    requires IsIdentifier(x) && !IndexableId(x) && TameId(x) && IndexableId(y)
    ensures if IdLt(x, y) then Decided(NormalizeComponent(x), NormalizeComponent(y), i)
            else IdLt(y, x) && Decided(NormalizeComponent(y), NormalizeComponent(x), i)
    ensures !(IdLt(x, y) && IdLt(y, x))
  {
    i := 0;
    ComponentForm(y);
    IdWeakOrder(x, y, x);
    if IsDecimal(x) {
      LongNumber(x);
      if !IsDecimal(y) {
        i := PowerBelowWords(x, y);
        assert NormalizeComponent(y) == "1" + y;
      }
    } else if !IsDecimal(y) {
      var k := HyphenAgainstWord(x, y);
      i := k + 1;
      if Decided(x, y, k) {
        DecidedWord(x, y, k);
        DecidedBehind('1', x, y, k);
      } else {
        DecidedWord(y, x, k);
        DecidedBehind('1', y, x, k);
      }
    }
  }

  lemma {:induction false} TameKeepsOrder(a: seq<string>, b: seq<string>)
    requires a != [] && b != [] && Tame(a)
    requires forall i :: 0 <= i < |a| ==> IsIdentifier(a[i])
    requires forall i :: 0 <= i < |b| ==> IndexableId(b[i])
    ensures Lt(Join(NormalizeAll(a), '.'), Join(NormalizeAll(b), '.')) <==> IdsLt(a, b)
    ensures Lt(Join(NormalizeAll(b), '.'), Join(NormalizeAll(a), '.')) <==> IdsLt(b, a)
  {
    var p, q := NormalizeAll(a), NormalizeAll(b);
    JoinSplit(p);
    JoinSplit(q);
    if IndexableId(a[0]) {
      ComponentForm(a[0]);
      ComponentForm(b[0]);
      JoinKeepsOrder(p, q);
      JoinKeepsOrder(q, p);
      ComponentKeepsOrder(a[0], b[0]);
      ComponentKeepsOrder(b[0], a[0]);
      LtIrreflexive(p[0]);
      assert p[1..] == NormalizeAll(a[1..]) && q[1..] == NormalizeAll(b[1..]);
      if |a| > 1 && |b| > 1 { TameKeepsOrder(a[1..], b[1..]); }
    } else {
      var i := TameHead(a[0], b[0]);
      if IdLt(a[0], b[0]) {
        DecidedAt(p[0], JoinRest(p), q[0], JoinRest(q), i);
      } else {
        DecidedAt(q[0], JoinRest(q), p[0], JoinRest(p), i);
      }
    }
  }

  lemma {:induction false} TamePreText(a: seq<string>, b: seq<string>)
    requires Tame(a) && (forall x :: x in a ==> IsIdentifier(x)) && (forall x :: x in b ==> IndexableId(x))
    ensures Lt(PreText(a), PreText(b)) <==> if b == [] then a != [] else a != [] && IdsLt(a, b)
    ensures Lt(PreText(b), PreText(a)) <==> if a == [] then b != [] else b != [] && IdsLt(b, a)
  {
    if a == [] {
      PreTextKeepsOrder(a, b);
      PreTextKeepsOrder(b, a);
    } else if b == [] {
      TameFirst(a);
      assert PreText(b)[0] == 'z';
    } else {
      forall i | 0 <= i < |a| ensures IsIdentifier(a[i]) { assert a[i] in a; }
      forall i | 0 <= i < |b| ensures IndexableId(b[i]) { assert b[i] in b; }
      TameKeepsOrder(a, b);
    }
  }

  lemma {:induction false} TameFirst(a: seq<string>)
    requires a != [] && forall x :: x in a ==> IsIdentifier(x)
    ensures PreText(a) != "" && PreText(a)[0] < 'z'
  {
    assert a[0] in a && NormalizeAll(a)[0] == NormalizeComponent(a[0]);
    var n := NormalizeComponent(a[0]);
    assert n != "" && (IsDecimal(a[0]) ==> IsDigit(n[0]));
    JoinSplit(NormalizeAll(a));
    assert Join(NormalizeAll(a), '.')[0] == n[0];
  }

  // ----- a version in range that finds an untame one misplaced

  /** The number of leading characters in which a numeral agrees with a power of ten. */
  function PowerPart(d: string): (n: nat)
    requires d != ""
    ensures n <= |d| && (n < |d| ==> if n == 0 then d[0] != '1' else d[n] != '0')
    ensures n > 0 ==> d[0] == '1' && forall k :: 1 <= k < n ==> d[k] == '0'
  {
    if d[0] != '1' then 0 else 1 + |Before(d[1..], NotZero)|
  }

  function Breaker(x: string): (b: seq<string>)
    requires x != ""
    ensures b != []
  {
    if IsDecimal(x) then [Repeat('0', PowerPart(x)) + "a"] else [Before(x, IsHyphen), "0"]
  }

  /** The identifiers up to the first one outside the range, and there the breaker. */
  function Misplacing(ids: seq<string>): seq<string>
    requires !Tame(ids) && forall i :: 0 <= i < |ids| ==> IsIdentifier(ids[i])
  {
    if IndexableId(ids[0]) then [ids[0]] + Misplacing(ids[1..]) else Breaker(ids[0])
  }

  lemma {:induction false} ZeroIsIndexable(zero: string)
    requires zero == "0"
    ensures IndexableId(zero)
  {
    assert Value(zero) == 0 && Decimal(0) == "0";
  }

  lemma {:induction false} BreakerIsIndexable(x: string)
    requires IsIdentifier(x) && !IndexableId(x) && !TameId(x)
    ensures forall i :: 0 <= i < |Breaker(x)| ==> IndexableId(Breaker(x)[i])
  {
    if IsDecimal(x) {
      var n := PowerPart(x);
      var y := Repeat('0', n) + "a";
      assert y[n] == 'a' && !IsDecimal(y);
      assert Breaker(x) == [y];
      assert forall k :: 0 <= k < |y| ==> y[k] == '0' || y[k] == 'a';
    } else {
      var h := Before(x, IsHyphen);
      assert IndexableId(h);
      ZeroIsIndexable("0");
    }
  }

  lemma {:induction false} DecimalHead(n: nat)
    requires n > 0
    ensures Decimal(n) != "" && Decimal(n)[0] != '0'
  {
    if n >= 10 { DecimalHead(n / 10); }
  }

  lemma {:induction false} NumberAboveBreaker(x: string)
    requires IsIdentifier(x) && IsDecimal(x) && Value(x) >= 10000000 && !IsPowerOfTen(x)
    ensures Decided("1" + Breaker(x)[0], x, PowerPart(x))
  {
    var n := PowerPart(x);
    var q := "1" + (Repeat('0', n) + "a");
    DecimalHead(Value(x));
    forall k | 0 <= k < n ensures q[k] == x[k] { }
    assert n < |x|;
    assert n > 0 ==> q[n] == '0';
  }

  lemma {:induction false} NumberIsMisplaced(x: string, y: string, t: string)
    requires IsIdentifier(x) && IsDecimal(x) && Value(x) >= 10000000 && !IsPowerOfTen(x) && [y] == Breaker(x)
    requires DotTail(t)
    ensures !IsDecimal(y) && Lt(NormalizeComponent(y), NormalizeComponent(x) + t)
  {
    var n := PowerPart(x);
    assert y[n] == 'a';
    LongNumber(x);
    NumberAboveBreaker(x);
    DecidedAt("1" + y, "", x, t, n);
    assert "1" + y + "" == "1" + y;
  }

  lemma {:induction false} HyphenIsMisplaced(h: string, r: string, t: string, u: string)
    requires r != "" && r[0] == '-' && u != "" && u[0] == '.'
    ensures Lt(h, h + r) && Lt("1" + (h + r) + t, "1" + h + u)
  {
    CommonPrefix(h, "", r);
    assert h + "" == h;
    CommonPrefix("1" + h, r + t, u);
    assert "1" + (h + r) + t == ("1" + h) + (r + t);
    assert (r + t)[0] == '-';
  }

  /** The breaker is misplaced: one of text order and precedence puts it first, the other does not. */
  lemma {:induction false} BreakerIsMisplaced(ids: seq<string>)
    requires ids != [] && IsIdentifier(ids[0]) && !IndexableId(ids[0]) && !TameId(ids[0])
    ensures var b := Breaker(ids[0]); Lt(Join(NormalizeAll(b), '.'), Join(NormalizeAll(ids), '.')) <==> !IdsLt(b, ids)
  {
    var x, b := ids[0], Breaker(ids[0]);
    var p, q := NormalizeAll(ids), NormalizeAll(b);
    JoinSplit(p);
    JoinSplit(q);
    if IsDecimal(x) {
      NumberIsMisplaced(x, b[0], JoinRest(p));
      assert q[0] + JoinRest(q) == q[0];
      IdWeakOrder(b[0], x, x);
    } else {
      var h, r := Before(x, IsHyphen), x[|Before(x, IsHyphen)|..];
      assert x == h + r && !IsDecimal(h) && b[0] == h;
      HyphenIsMisplaced(h, r, JoinRest(p), JoinRest(q));
      Trichotomy(q[0] + JoinRest(q), p[0] + JoinRest(p));
    }
  }

  lemma {:induction false} MisplacingIsMisplaced(ids: seq<string>)
    requires !Tame(ids) && forall i :: 0 <= i < |ids| ==> IsIdentifier(ids[i])
    ensures var b := Misplacing(ids);
            && b != [] && (forall i :: 0 <= i < |b| ==> IndexableId(b[i]))
            && (Lt(Join(NormalizeAll(b), '.'), Join(NormalizeAll(ids), '.')) <==> !IdsLt(b, ids))
  {
    if IndexableId(ids[0]) {
      var b, rest := Misplacing(ids), ids[1..];
      MisplacingIsMisplaced(rest);
      assert b[1..] == Misplacing(rest) && b[0] == ids[0];
      var p, q := NormalizeAll(ids), NormalizeAll(b);
      assert p[1..] == NormalizeAll(rest) && q[1..] == NormalizeAll(b[1..]);
      ComponentForm(ids[0]);
      JoinKeepsOrder(q, p);
      LtIrreflexive(p[0]);
      IdWeakOrder(ids[0], ids[0], ids[0]);
    } else {
      BreakerIsIndexable(ids[0]);
      BreakerIsMisplaced(ids);
    }
  }

  lemma {:induction false} UntameIsMisplaced(v: Version)
    requires ValidVersion(v) && CoreInRange(v) && !Tame(v.prerelease)
    ensures forall i :: 0 <= i < |v.prerelease| ==> IsIdentifier(v.prerelease[i])
    ensures var w := v.(prerelease := Misplacing(v.prerelease));
            ValidVersion(w) && Indexable(w) && (Lt(Normalize(w), Normalize(v)) <==> !Precedes(w, v))
  {
    forall i | 0 <= i < |v.prerelease| ensures IsIdentifier(v.prerelease[i]) { assert v.prerelease[i] in v.prerelease; }
    var w := v.(prerelease := Misplacing(v.prerelease));
    MisplacingIsMisplaced(v.prerelease);
    forall x | x in w.prerelease ensures IndexableId(x) { }
    NormalizeOrder(w, v);
  }

  // ----- a number that does not fit its field

  predicate NotNine(c: char) { c != '9' }

  lemma {:induction false} LongField(n: nat)
    requires n > 99999999
    ensures Field(n, 8) == Decimal(n) && |Decimal(n)| >= 9 && AllDigits(Decimal(n))
  {
    ValueOfDecimal(n);
    ValueBelow(Decimal(n));
    Powers();
    if |Decimal(n)| <= 8 { PowersGrow(|Decimal(n)|, 8); }
  }

  lemma {:induction false} ShortField(n: nat)
    requires n <= 99999999
    ensures |Field(n, 8)| == 8 && AllDigits(Field(n, 8))
    ensures n == 99999999 ==> forall i :: 0 <= i < 8 ==> Field(n, 8)[i] == '9'
  {
    Powers();
    PaddedIsDigits(n, 8);
    LargestField();
  }

  /** Eight nines and a further digit are above every field and its separator. */
  lemma {:induction false} NinesAreAbove(n: nat, f: nat, t: string, u: string)
    requires n > 99999999 && f <= 99999999 && BeginsWithNines(n) && LowTail(u)
    ensures Lt(Field(f, 8) + u, Field(n, 8) + t) && !Lt(Field(n, 8) + t, Field(f, 8) + u)
  {
    var x, y := Field(n, 8), Field(f, 8);
    LongField(n);
    ShortField(f);
    var i := |Before(y, NotNine)|;
    assert x[..i] == y[..i];
    assert i < 8 ==> IsDigit(y[i]) && y[i] != '9';
    assert i == 8 ==> IsDigit(x[8]);
    DecidedAt(y, u, x, t, i);
  }

  /** Any other long number is below the highest field. */
  lemma {:induction false} OthersAreBelow(n: nat, f: nat, t: string, u: string)
    requires n > 99999999 && f == 99999999 && !BeginsWithNines(n)
    ensures Lt(Field(n, 8) + t, Field(f, 8) + u) && !Lt(Field(f, 8) + u, Field(n, 8) + t)
  {
    var x, y := Field(n, 8), Field(f, 8);
    LongField(n);
    ShortField(f);
    var i := |Before(x, NotNine)|;
    assert i < 8;
    assert x[..i] == y[..i] && IsDigit(x[i]);
    SameAtDecision(x, t, y, u, i);
  }

  /** Texts that differ at an index within both are ordered there, whatever follows. */
  lemma {:induction false} SameAtDecision(x: string, t: string, y: string, u: string, i: nat)
    requires i < |x| && i < |y| && x[..i] == y[..i] && x[i] < y[i]
    ensures Lt(x + t, y + u) && !Lt(y + u, x + t)
    decreases i
  {
    assert (x + t)[1..] == x[1..] + t && (y + u)[1..] == y[1..] + u && (x + t)[0] == x[0] && (y + u)[0] == y[0];
    if i > 0 {
      assert x[0] == x[..i][0] == y[..i][0] == y[0];
      assert x[1..][..i - 1] == x[..i][1..] && y[1..][..i - 1] == y[..i][1..];
      SameAtDecision(x[1..], t, y[1..], u, i - 1);
    }
  }

  /** What follows the major number, and what follows the minor one. */
  function AfterMajor(v: Version): string { "." + (Field(v.minor, 8) + AfterMinor(v)) }
  function AfterMinor(v: Version): string { "." + (Field(v.patch, 8) + AfterPatch(v)) }
  function AfterPatch(v: Version): string { "-" + PreText(v.prerelease) }

  lemma {:induction false} EqualNumber(n: nat, sep: string, t: string, u: string)
    ensures Lt(Field(n, 8) + (sep + t), Field(n, 8) + (sep + u)) <==> Lt(t, u)
  {
    CommonPrefix(Field(n, 8), sep + t, sep + u);
    CommonPrefix(sep, t, u);
  }

  /** The order against a version in range is decided at the first number that does not fit. */
  lemma {:induction false} NinesKeepPlace(v: Version, w: Version)
    requires !CoreInRange(v) && CoreInRange(w) && BeginsWithNines(FirstUnfit(v))
    ensures (Lt(Normalize(w), Normalize(v)) <==> CoreLt(w, v)) && (Lt(Normalize(v), Normalize(w)) <==> CoreLt(v, w))
  {
    Powers();
    assert Normalize(v) == Field(v.major, 8) + AfterMajor(v) && Normalize(w) == Field(w.major, 8) + AfterMajor(w);
    if v.major > 99999999 {
      NinesAreAbove(v.major, w.major, AfterMajor(v), AfterMajor(w));
    } else {
      var y, y' := Field(v.minor, 8) + AfterMinor(v), Field(w.minor, 8) + AfterMinor(w);
      FieldOrder(v.major, w.major, 8, ".", y, y');
      FieldOrder(w.major, v.major, 8, ".", y', y);
      if v.minor > 99999999 {
        NinesAreAbove(v.minor, w.minor, AfterMinor(v), AfterMinor(w));
      } else {
        var z, z' := Field(v.patch, 8) + AfterPatch(v), Field(w.patch, 8) + AfterPatch(w);
        FieldOrder(v.minor, w.minor, 8, ".", z, z');
        FieldOrder(w.minor, v.minor, 8, ".", z', z);
        NinesAreAbove(v.patch, w.patch, AfterPatch(v), AfterPatch(w));
      }
    }
  }

  /** The version in range with the highest number where v has its first that does not fit. */
  function HighestBefore(v: Version): (w: Version)
    requires !CoreInRange(v)
    ensures ValidVersion(w) && Indexable(w) && CoreLt(w, v)
  {
    var n := 99999999;
    if v.major > n then Version(n, n, n, [], "")
    else if v.minor > n then Version(v.major, n, n, [], "")
    else Version(v.major, v.minor, n, [], "")
  }

  lemma {:induction false} UnfitIsMisplaced(v: Version)
    requires !CoreInRange(v) && !BeginsWithNines(FirstUnfit(v))
    ensures Lt(Normalize(v), Normalize(HighestBefore(v))) && !Lt(Normalize(HighestBefore(v)), Normalize(v))
  {
    var w := HighestBefore(v);
    assert Normalize(v) == Field(v.major, 8) + AfterMajor(v) && Normalize(w) == Field(w.major, 8) + AfterMajor(w);
    if v.major > 99999999 {
      OthersAreBelow(v.major, w.major, AfterMajor(v), AfterMajor(w));
    } else {
      var y, y' := Field(v.minor, 8) + AfterMinor(v), Field(w.minor, 8) + AfterMinor(w);
      EqualNumber(v.major, ".", y, y');
      EqualNumber(v.major, ".", y', y);
      if v.minor > 99999999 {
        OthersAreBelow(v.minor, w.minor, AfterMinor(v), AfterMinor(w));
      } else {
        var z, z' := Field(v.patch, 8) + AfterPatch(v), Field(w.patch, 8) + AfterPatch(w);
        EqualNumber(v.minor, ".", z, z');
        EqualNumber(v.minor, ".", z', z);
        OthersAreBelow(v.patch, w.patch, AfterPatch(v), AfterPatch(w));
      }
    }
  }

  // ----- both together

  /** The version in range against which a version out of place is misplaced: the highest below its
      first number that does not fit, or the one with the same numbers and the misplacing prerelease. */
  function Counterpart(v: Version): Version
    requires ValidVersion(v) && !InPlace(v)
  {
    if !CoreInRange(v) then HighestBefore(v)
    else
      assert forall i :: 0 <= i < |v.prerelease| ==> v.prerelease[i] in v.prerelease;
      v.(prerelease := Misplacing(v.prerelease), build := "")
  }

  /** Every version that is not in place is misplaced against its counterpart in range: exactly one of
      text order and precedence puts the counterpart first. */
  lemma {:induction false} OutOfPlaceIsMisplaced(v: Version)
    requires ValidVersion(v) && !InPlace(v)
    ensures var w := Counterpart(v);
            ValidVersion(w) && w.build == "" && Indexable(w) && (Lt(Normalize(w), Normalize(v)) <==> !Precedes(w, v))
  {
    if CoreInRange(v) {
      UntameIsMisplaced(v);
      var w := v.(prerelease := Misplacing(v.prerelease));
      assert Normalize(Counterpart(v)) == Normalize(w);
    } else {
      UnfitIsMisplaced(v);
    }
  }

  /** For every valid version: the index string keeps it in its place among all versions in range
      exactly if it is in place. With numbers that fit, the first of its identifiers outside the range,
      if there is one, must be a power of ten or have no letter before its first hyphen; otherwise the
      first number that does not fit must begin with eight nines. */
  lemma {:induction false} KeepsPlaceExactly(v: Version)
    requires ValidVersion(v)
    ensures KeepsPlace(v) <==> InPlace(v)
  {
    if InPlace(v) {
      forall w | ValidVersion(w) && Indexable(w)
        ensures (Lt(Normalize(v), Normalize(w)) <==> Precedes(v, w))
        ensures (Lt(Normalize(w), Normalize(v)) <==> Precedes(w, v))
      {
        if CoreInRange(v) {
          NormalizeOrder(v, w);
          NormalizeOrder(w, v);
          TamePreText(v.prerelease, w.prerelease);
        } else {
          NinesKeepPlace(v, w);
        }
      }
    } else {
      OutOfPlaceIsMisplaced(v);
    }
  }

  // ----- build metadata

  lemma {:induction false} BeforeExtended(x: string, y: string, stop: char -> bool)
    requires y != "" && stop(y[0])
    ensures Before(x + y, stop) == Before(x, stop)
  {
    if x == "" {
      assert x + y == y;
    } else {
      assert (x + y)[1..] == x[1..] + y;
      BeforeExtended(x[1..], y, stop);
    }
  }

  lemma {:induction false} DotDigitsExtended(x: string, y: string)
    requires y != "" && y[0] == '+'
    ensures DotDigits(x + y) == DotDigits(x)
  {
    if x != "" {
      assert (x + y)[0] == x[0] && (x + y)[1..] == x[1..] + y;
      BeforeExtended(x[1..], y, NotDigit);
    }
  }

  lemma {:induction false} AfterDotDigitsExtended(x: string, y: string)
    requires y != "" && y[0] == '+'
    ensures AfterDotDigits(x + y) == AfterDotDigits(x) + y
  {
    DotDigitsExtended(x, y);
    var n := 1 + |DotDigits(x)|;
    if DotDigits(x) != "" { assert (x + y)[n..] == x[n..] + y; }
  }

  lemma {:induction false} CoreExtended(s: string, y: string)
    requires y != "" && y[0] == '+'
    ensures SplitCore(s + y) == var c := SplitCore(s); c.(suffix := c.suffix + y)
  {
    BeforeExtended(s, y, NotDigit);
    var s1 := s[|LeadingDigits(s)|..];
    assert (s + y)[|LeadingDigits(s)|..] == s1 + y;
    DotDigitsExtended(s1, y);
    AfterDotDigitsExtended(s1, y);
    DotDigitsExtended(AfterDotDigits(s1), y);
    AfterDotDigitsExtended(AfterDotDigits(s1), y);
  }

  lemma {:induction false} SuffixExtended(x: string, build: string)
    requires Free(x, '+') && ValidBuild(build)
    ensures ParseSuffix(x + ("+" + build)) ==
            match ParseSuffix(x) case None => None case Some(p) => Some((p.0, build))
  {
    var y := "+" + build;
    BeforeExtended(x, y, IsPlus);
    BeforeWhole(x, IsPlus);
    assert (x + y)[|x| + 1..] == build;
  }

  lemma {:induction false} BeforeWhole(x: string, stop: char -> bool)
    requires forall i :: 0 <= i < |x| ==> !stop(x[i])
    ensures Before(x, stop) == x
  {
  }

  lemma {:induction false} AssembleExtended(c: Core, build: string)
    requires AllDigits(c.major) && AllDigits(c.minor) && AllDigits(c.patch)
    requires Free(c.suffix, '+') && ValidBuild(build)
    ensures Assemble(c.(suffix := c.suffix + ("+" + build))) ==
            match Assemble(c) case None => None case Some(v) => Some(v.(build := build))
  {
    SuffixExtended(c.suffix, build);
  }

  lemma {:induction false} StripVExtended(x: string, build: string)
    ensures StripV(x + ("+" + build)) == StripV(x) + ("+" + build)
  {
    if x != "" { assert (x + ("+" + build))[1..] == x[1..] + ("+" + build); }
  }

  lemma {:induction false} StrippedExtended(s: string, build: string)
    requires Free(s, '+') && ValidBuild(build)
    ensures ParseStripped(s + ("+" + build)) ==
            match ParseStripped(s) case None => None case Some(v) => Some(v.(build := build))
  {
    var c, d := SplitCore(s), SplitCore(s + ("+" + build));
    assert d == c.(suffix := c.suffix + ("+" + build)) by { CoreExtended(s, "+" + build); }
    SplitCoreFree(s);
    AssembleExtended(c, build);
  }

  lemma {:induction false} ParseExtended(x: string, build: string)
    requires Free(x, '+') && ValidBuild(build)
    ensures Parse(x + ("+" + build)) == match Parse(x) case None => None case Some(v) => Some(v.(build := build))
  {
    var s := StripV(x);
    StripVExtended(x, build);
    StripVFree(x);
    StrippedExtended(s, build);
    ParseVia(x, s);
    ParseVia(x + ("+" + build), s + ("+" + build));
  }

  lemma {:induction false} ParseVia(version: string, s: string)
    requires s == StripV(version)
    ensures Parse(version) == ParseStripped(s)
  {
  }

  lemma {:induction false} StripVFree(x: string)
    requires Free(x, '+')
    ensures Free(StripV(x), '+')
  {
  }

  /** Build metadata never matters: "x" and "x+build" have the same index string. */
  lemma {:induction false} BuildIsIgnored(x: string, build: string)
    requires Free(x, '+') && ValidBuild(build)
    ensures Parse(x).Some? <==> Parse(x + ("+" + build)).Some?
    ensures Parse(x).Some? ==> Normalize(Parse(x + ("+" + build)).value) == Normalize(Parse(x).value)
  {
    ParseExtended(x, build);
    var v, w := Parse(x), Parse(x + ("+" + build));
    if v.Some? { assert w.value == v.value.(build := build); }
  }

  /** The suffix is a tail of the text. */
  lemma {:induction false} SplitCoreFree(s: string)
    requires Free(s, '+')
    ensures Free(SplitCore(s).suffix, '+')
  {
  }

  // ----- every valid version has a text

  function DotText(d: string): string { if d == "" then "" else "." + d }

  /** A version without build metadata, written out. */
  function Text(v: Version): string {
    Decimal(v.major) + (DotText(Decimal(v.minor)) + (DotText(Decimal(v.patch)) + SuffixText(v.prerelease)))
  }

  function SuffixText(ids: seq<string>): string { if ids == [] then "" else "-" + Join(ids, '.') }

  predicate EndsDigits(rest: string) { rest == "" || !IsDigit(rest[0]) }

  lemma {:induction false} DigitsThen(d: string, rest: string)
    requires AllDigits(d) && EndsDigits(rest)
    ensures LeadingDigits(d + rest) == d && (d + rest)[|d|..] == rest
  {
    BeforeWhole(d, NotDigit);
    if rest == "" { assert d + rest == d; } else { BeforeExtended(d, rest, NotDigit); }
  }

  lemma {:induction false} DotThen(d: string, rest: string)
    requires IsDecimal(d) && EndsDigits(rest)
    ensures DotDigits(DotText(d) + rest) == d && AfterDotDigits(DotText(d) + rest) == rest
  {
    var s := DotText(d) + rest;
    assert s[1..] == d + rest && s[0] == '.';
    DigitsThen(d, rest);
    assert s[1 + |d|..] == rest;
  }

  lemma {:induction false} CoreOfText(major: string, minor: string, patch: string, suffix: string)
    requires IsDecimal(major) && IsDecimal(minor) && IsDecimal(patch) && EndsDigits(suffix)
    ensures SplitCore(major + (DotText(minor) + (DotText(patch) + suffix))) == Core(major, minor, patch, suffix)
  {
    var s2 := DotText(patch) + suffix;
    var s1 := DotText(minor) + s2;
    assert s2[0] == '.' && s1[0] == '.';
    DigitsThen(major, s1);
    DotThen(minor, s2);
    DotThen(patch, suffix);
  }

  lemma {:induction false} CoerceIdentifiers(ids: seq<string>)
    requires forall i :: 0 <= i < |ids| ==> IsIdentifier(ids[i])
    ensures CoerceAll(ids) == ids
  {
  }

  lemma {:induction false} JoinFree(ids: seq<string>, c: char)
    requires c != '.' && forall i :: 0 <= i < |ids| ==> Free(ids[i], c)
    ensures Free(Join(ids, '.'), c)
  {
    if |ids| > 1 { JoinFree(ids[1..], c); }
  }

  lemma {:induction false} SuffixOfText(ids: seq<string>)
    requires forall x :: x in ids ==> IsIdentifier(x)
    ensures ParseSuffix(SuffixText(ids)) == Some((ids, ""))
  {
    if ids != [] {
      forall i | 0 <= i < |ids| ensures IsIdentifier(ids[i]) && Free(ids[i], '+') { assert ids[i] in ids; }
      var suffix := SuffixText(ids);
      JoinFree(ids, '+');
      BeforeWhole(suffix, IsPlus);
      PrereleaseText(ids);
      CoerceIdentifiers(ids);
      assert suffix[1..] == Join(ids, '.');
    }
  }

  /** Every valid version without build metadata is what its text parses to. */
  lemma {:induction false} TextParses(v: Version)
    requires ValidVersion(v) && v.build == ""
    ensures Parse(Text(v)) == Some(v)
  {
    ValueOfDecimal(v.major);
    ValueOfDecimal(v.minor);
    ValueOfDecimal(v.patch);
    SuffixOfText(v.prerelease);
    CoreOfText(Decimal(v.major), Decimal(v.minor), Decimal(v.patch), SuffixText(v.prerelease));
    assert IsDigit(Text(v)[0]);
  }

  /** The index strings are ordered as precedence orders the versions. */
  predicate OrderedAlike(a: string, b: string)
    requires Parse(a).Some? && Parse(b).Some?
  {
    Lt(IndexString(a).value, IndexString(b).value) <==> Precedes(Parse(a).value, Parse(b).value)
  }

  /** The version string in range against which one out of place is misplaced. */
  lemma {:induction false} StringIsMisplaced(a: string) returns (b: string)
    requires Parse(a).Some? && ValidVersion(Parse(a).value) && !InPlace(Parse(a).value)
    ensures Parse(b).Some? && Indexable(Parse(b).value) && !OrderedAlike(b, a)
  {
    OutOfPlaceIsMisplaced(Parse(a).value);
    var w := Counterpart(Parse(a).value);
    b := Text(w);
    TextParses(w);
  }

  /** The exact condition on version strings, all that parse. */
  lemma {:induction false} IndexStringsExactly(a: string)
    requires Parse(a).Some?
    ensures InPlace(Parse(a).value) <==>
            forall b :: Parse(b).Some? && Indexable(Parse(b).value) ==> OrderedAlike(a, b) && OrderedAlike(b, a)
  {
    ParsedIsValid(a);
    if InPlace(Parse(a).value) {
      KeepsPlaceExactly(Parse(a).value);
      forall b | Parse(b).Some? && Indexable(Parse(b).value) ensures OrderedAlike(a, b) && OrderedAlike(b, a) {
        ParsedIsValid(b);
      }
    } else {
      var b := StringIsMisplaced(a);
    }
  }

  // ----- coarse version

  predicate IsHyphenOrPlus(c: char) { c == '-' || c == '+' }

  function SemverCoarse(version: string): Coarse {
    if Parse(version).None? then ValueError
    else Ok(Generic(StripV(version), IsHyphenOrPlus, Dropped, 0))
  }

  function PartsOf(text: string): seq<string> { Fill(AllRuns(Split(text, '.')), Dropped) }

  lemma {:induction false} PartsOfPieces(d: string, pieces: seq<string>)
    requires IsDecimal(d)
    ensures Fill(AllRuns([d] + pieces), Dropped) == [d] + Fill(AllRuns(pieces), Dropped)
  {
    assert ([d] + pieces)[1..] == pieces;
    assert FindRuns(d) == [d] by {
      assert d[..|d|] == d && d[|d|..] == "";
      assert Runs(d) == [d] + Runs("");
    }
    assert ([d] + AllRuns(pieces))[1..] == AllRuns(pieces);
  }

  lemma {:induction false} NumberAlone(d: string)
    requires IsDecimal(d)
    ensures PartsOf(d) == [d]
  {
    SplitOfFree(d, '.');
    assert [d] == [d] + [];
    PartsOfPieces(d, []);
  }

  lemma {:induction false} NumberThen(d: string, rest: string)
    requires IsDecimal(d)
    ensures PartsOf(d + ['.'] + rest) == [d] + PartsOf(rest)
  {
    SplitConcat(d, rest, '.');
    PartsOfPieces(d, Split(rest, '.'));
  }

  lemma {:induction false} DotGroup(s: string)
    ensures s == DotText(DotDigits(s)) + AfterDotDigits(s)
    ensures DotDigits(s) == "" ==> DotDigits(AfterDotDigits(s)) == ""
  {
  }

  /** The groups put together again give the text. */
  lemma {:induction false} SplitCoreLossless(s: string)
    ensures var c := SplitCore(s);
            s == c.major + (DotText(c.minor) + DotText(c.patch)) + c.suffix && (c.minor == "" ==> c.patch == "")
  {
    var major := LeadingDigits(s);
    var s1 := s[|major|..];
    var s2 := AfterDotDigits(s1);
    DotGroup(s1);
    DotGroup(s2);
    TakeDrop(s, major);
    Regroup(s, major, s1, DotText(DotDigits(s1)), s2, DotText(DotDigits(s2)), AfterDotDigits(s2));
  }

  lemma {:induction false} TakeDrop(s: string, head: string)
    requires |head| <= |s| && head == s[..|head|]
    ensures s == head + s[|head|..]
  {
  }

  lemma {:induction false} Regroup(s: string, a: string, s1: string, b: string, s2: string, c: string, d: string)
    requires s == a + s1 && s1 == b + s2 && s2 == c + d
    ensures s == a + (b + c) + d
  {
    Reassociate(a, b, c, d);
  }

  lemma {:induction false} Reassociate(a: string, b: string, c: string, d: string)
    ensures a + (b + (c + d)) == a + (b + c) + d
  {
  }

  /** The suffix of a version that parses starts with '-' or '+', if there is one. */
  lemma {:induction false} ParsedSuffix(suffix: string)
    requires ParseSuffix(suffix).Some?
    ensures suffix == "" || IsHyphenOrPlus(suffix[0])
  {
  }

  /** Truncating at '-' or '+' leaves exactly the core. */
  lemma {:induction false} TruncatedCore(core: string, suffix: string)
    requires forall i :: 0 <= i < |core| ==> !IsHyphenOrPlus(core[i])
    requires suffix == "" || IsHyphenOrPlus(suffix[0])
    ensures Before(core + suffix, IsHyphenOrPlus) == core
  {
    BeforeWhole(core, IsHyphenOrPlus);
    if suffix == "" {
      assert core + suffix == core;
    } else {
      BeforeExtended(core, suffix, IsHyphenOrPlus);
    }
  }

  function NonEmptyText(d: string): seq<string> { if d == "" then [] else [d] }

  lemma {:induction false} PartsOfCore(major: string, minor: string, patch: string)
    requires IsDecimal(major) && AllDigits(minor) && AllDigits(patch) && (minor == "" ==> patch == "")
    ensures PartsOf(major + (DotText(minor) + DotText(patch))) == [major] + (NonEmptyText(minor) + NonEmptyText(patch))
  {
    if minor == "" {
      NumberAlone(major);
      assert major + ("" + "") == major && [major] + ([] + []) == [major];
    } else if patch == "" {
      TwoNumbers(major, minor);
      TwoTexts(major, minor);
    } else {
      ThreeNumbers(major, minor, patch);
      ThreeTexts(major, minor, patch);
    }
  }

  lemma {:induction false} TwoTexts(major: string, minor: string)
    ensures major + ("." + minor + "") == major + ['.'] + minor && [major] + ([minor] + []) == [major] + [minor]
  {
  }

  lemma {:induction false} ThreeTexts(major: string, minor: string, patch: string)
    ensures major + ("." + minor + ("." + patch)) == major + ['.'] + (minor + ['.'] + patch)
    ensures [major] + ([minor] + [patch]) == [major] + [minor, patch]
  {
  }

  lemma {:induction false} TwoNumbers(major: string, minor: string)
    requires IsDecimal(major) && IsDecimal(minor)
    ensures PartsOf(major + ['.'] + minor) == [major] + [minor]
  {
    NumberThen(major, minor);
    NumberAlone(minor);
  }

  lemma {:induction false} ThreeNumbers(major: string, minor: string, patch: string)
    requires IsDecimal(major) && IsDecimal(minor) && IsDecimal(patch)
    ensures PartsOf(major + ['.'] + (minor + ['.'] + patch)) == [major] + [minor, patch]
  {
    NumberThen(major, minor + ['.'] + patch);
    NumberThen(minor, patch);
    NumberAlone(patch);
    assert [minor] + [patch] == [minor, patch];
  }

  lemma {:induction false} CoarseOfParsed(version: string)
    requires Parse(version).Some?
    ensures var v := Parse(version).value; SemverCoarse(version) == Ok(FromInts([v.major, v.minor, v.patch], 0))
  {
    var s := StripV(version);
    var c := SplitCore(s);
    ParsedSuffix(c.suffix);
    GenericOfCore(s, c);
    if s == "0" { ZeroCore(s); }
  }

  predicate WholeCore(c: Core) {
    && IsDecimal(c.major) && AllDigits(c.minor) && AllDigits(c.patch) && (c.minor == "" ==> c.patch == "")
    && (c.suffix == "" || IsHyphenOrPlus(c.suffix[0]))
  }

  lemma {:induction false} PartsOfVersion(s: string, c: Core)
    requires WholeCore(c) && s == c.major + (DotText(c.minor) + DotText(c.patch)) + c.suffix
    ensures Parts(s, IsHyphenOrPlus, Dropped) == [c.major] + (NonEmptyText(c.minor) + NonEmptyText(c.patch))
  {
    TruncatedCore(c.major + (DotText(c.minor) + DotText(c.patch)), c.suffix);
    PartsOfCore(c.major, c.minor, c.patch);
  }

  lemma {:induction false} GenericOfCore(s: string, c: Core)
    requires c == SplitCore(s) && c.major != "" && (c.suffix == "" || IsHyphenOrPlus(c.suffix[0]))
    ensures s != "0" ==>
            Generic(s, IsHyphenOrPlus, Dropped, 0) == FromInts([Value(c.major), Value(c.minor), Value(c.patch)], 0)
  {
    SplitCoreLossless(s);
    PartsOfVersion(s, c);
    CoarseOfParts(c.major, c.minor, c.patch);
  }

  /** Missing minor and patch numbers read as 0, as in the parsed version. */
  lemma {:induction false} CoarseOfParts(d1: string, d2: string, d3: string)
    requires IsDecimal(d1) && AllDigits(d2) && AllDigits(d3) && (d2 == "" ==> d3 == "")
    ensures Fields(Components([d1] + (NonEmptyText(d2) + NonEmptyText(d3)), 3), 3) ==
            Fields([Value(d1), Value(d2), Value(d3)], 3)
  {
    var parts := [d1] + (NonEmptyText(d2) + NonEmptyText(d3));
    var p := [Value(d1)] + (if d2 == "" then [] else [Value(d2)] + if d3 == "" then [] else [Value(d3)]);
    NumberComponents(d1, d2, d3, parts, 3);
    assert Value("") == 0;
    if d2 == "" {
      TrailingZero(p, 3);
      TrailingZero(p + [0], 3);
      assert p + [0] + [0] == [Value(d1), Value(d2), Value(d3)];
    } else if d3 == "" {
      TrailingZero(p, 3);
      assert p + [0] == [Value(d1), Value(d2), Value(d3)];
    }
  }

  lemma {:induction false} NumberComponents(d1: string, d2: string, d3: string, parts: seq<string>, n: nat)
    requires IsDecimal(d1) && AllDigits(d2) && AllDigits(d3) && (d2 == "" ==> d3 == "")
    requires parts == [d1] + (NonEmptyText(d2) + NonEmptyText(d3)) && n == 3
    ensures Components(parts, n) ==
            [Value(d1)] + (if d2 == "" then [] else [Value(d2)] + if d3 == "" then [] else [Value(d3)])
  {
    var rest := parts[1..];
    assert rest == NonEmptyText(d2) + NonEmptyText(d3);
    if d2 != "" {
      assert rest[1..] == NonEmptyText(d3);
      if d3 != "" {
        assert rest[1..][1..] == [];
        assert Components(rest[1..], 1) == [Value(d3)];
        assert Components(rest, 2) == [Value(d2)] + [Value(d3)];
      }
    }
  }

  function SemverHelper(): Helper<Version> {
    Helper(Parse, Precedes, (a, b) => !Precedes(a, b) && !Precedes(b, a), SemverCoarse)
  }

  /** SemVer ecosystems keep the helper contract on every version string. */
  lemma {:induction false} SemverIsLawful()
    ensures LawfulOn(SemverHelper(), Every) && RejectsAlike(SemverHelper(), Every)
  {
    forall a, b, c
      ensures Precedes(a, b) ==> !Precedes(b, a)
      ensures Precedes(a, c) ==> Precedes(a, b) || Precedes(b, c)
    {
      PrecedenceWeakOrder(a, b, c);
    }
    WrappedKeysOrdered(SemverHelper());
    forall v, w | SemverCoarse(v).Ok? && SemverCoarse(w).Ok? && !SemverHelper().VersionLt(w, v)
      ensures Le(SemverCoarse(v).text, SemverCoarse(w).text)
    {
      SemverPairMonotone(v, w);
    }
    forall v | SemverCoarse(v).Ok? ensures CoarseInRange(SemverCoarse(v).text) {
      CoarseOfParsed(v);
      var p := Parse(v).value;
      ExtremesBoundEverything([p.major, p.minor, p.patch], 0);
    }
    assert SemverHelper().parse("0").Some? by { ZeroParses("0"); }
    ValidatingHelpersRejectAlike(SemverHelper(), Every);
  }

  lemma {:induction false} ZeroParses(v: string)
    requires v == "0"
    ensures Parse(v).Some?
  {
    ZeroCore(v);
    assert ParseSuffix("") == Some(([], ""));
  }

  lemma {:induction false} ZeroCore(s: string)
    requires s == "0"
    ensures SplitCore(s) == Core("0", "", "", "") && Value("0") == 0 && Value("") == 0
  {
    assert LeadingDigits(s) == "0";
    assert s[|LeadingDigits(s)|..] == "";
  }

  lemma {:induction false} SemverPairMonotone(v: string, w: string)
    requires SemverCoarse(v).Ok? && SemverCoarse(w).Ok? && !SemverHelper().VersionLt(w, v)
    ensures Le(SemverCoarse(v).text, SemverCoarse(w).text)
  {
    CoarseOfParsed(v);
    CoarseOfParsed(w);
    var a, b := Parse(v).value, Parse(w).value;
    if v == "0" {
      ZeroCore(v);
      ThreeZerosAreLowest([b.major, b.minor, b.patch]);
    } else {
      CoreFollowsPrecedence(a, b);
    }
  }

  lemma {:induction false} CoreFollowsPrecedence(a: Version, b: Version)
    requires !Precedes(b, a)
    ensures Le(FromInts([a.major, a.minor, a.patch], 0), FromInts([b.major, b.minor, b.patch], 0))
  {
    var p, q := [a.major, a.minor, a.patch], [b.major, b.minor, b.patch];
    LexOfThree(q, p);
    IntCoarseMonotone(0, p, 0, q);
  }
}
