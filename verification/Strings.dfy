/** Python strings as the ordering helpers use them: code-point order, decimal
    numerals, padding, splitting and joining. Digits are ASCII digits. */
module Strings {

  /** Python's `a < b` on strings. */
  predicate Lt(a: string, b: string) {
    if b == "" then false
    else if a == "" then true
    else a[0] < b[0] || (a[0] == b[0] && Lt(a[1..], b[1..]))
  }

  predicate Le(a: string, b: string) {
    !Lt(b, a)
  }

  lemma {:induction false} LtIrreflexive(a: string)
    ensures !Lt(a, a)
  {
    if a != "" { LtIrreflexive(a[1..]); }
  }

  lemma {:induction false} LtTransitive(a: string, b: string, c: string)
    requires Lt(a, b) && Lt(b, c)
    ensures Lt(a, c)
  {
    if a != "" && a[0] == b[0] && b[0] == c[0] { LtTransitive(a[1..], b[1..], c[1..]); }
  }

  lemma {:induction false} Trichotomy(a: string, b: string)
    ensures Lt(a, b) || a == b || Lt(b, a)
    ensures !(Lt(a, b) && Lt(b, a))
  {
    if a != "" && b != "" && a[0] == b[0] {
      Trichotomy(a[1..], b[1..]);
      assert a == [a[0]] + a[1..] && b == [b[0]] + b[1..];
    }
  }

  lemma {:induction false} LeTransitive(a: string, b: string, c: string)
    requires Le(a, b) && Le(b, c)
    ensures Le(a, c)
  {
    Trichotomy(a, b);
    Trichotomy(b, c);
    if Lt(c, a) {
      if a == b {
      } else {
        LtTransitive(c, a, b);
      }
    }
  }

  lemma {:induction false} LeAntisymmetric(a: string, b: string)
    requires Le(a, b) && Le(b, a)
    ensures a == b
  {
    Trichotomy(a, b);
  }

  /** Two strings that start with equally long parts compare by those parts first. */
  lemma {:induction false} LtConcat(x: string, u: string, y: string, v: string)
    requires |x| == |y|
    ensures Lt(x + u, y + v) <==> Lt(x, y) || (x == y && Lt(u, v))
  {
    if x == "" {
      assert x + u == u && y + v == v;
    } else {
      assert (x + u)[1..] == x[1..] + u && (y + v)[1..] == y[1..] + v;
      LtConcat(x[1..], u, y[1..], v);
      if x[0] == y[0] && x[1..] == y[1..] { assert x == [x[0]] + x[1..] == y; }
    }
  }

  // ----- decimal numerals

  predicate IsDigit(c: char) { '0' <= c <= '9' }

  predicate AllDigits(s: string) { forall i :: 0 <= i < |s| ==> IsDigit(s[i]) }

  /** Python's str.isdecimal: at least one character, all of them digits. */
  predicate IsDecimal(s: string) { s != "" && AllDigits(s) }

  function DigitChar(d: nat): (c: char)
    requires d < 10
    ensures IsDigit(c)
  {
    '0' + d as char
  }

  function DigitValue(c: char): nat
    requires IsDigit(c)
  {
    c as nat - '0' as nat
  }

  /** Python's str(n). */
  function Decimal(n: nat): (s: string)
    ensures IsDecimal(s)
  {
    if n < 10 then [DigitChar(n)] else Decimal(n / 10) + [DigitChar(n % 10)]
  }

  /** Python's int(s) on a run of digits. */
  function Value(s: string): nat
    requires AllDigits(s)
  {
    if s == "" then 0 else 10 * Value(s[..|s| - 1]) + DigitValue(s[|s| - 1])
  }

  lemma {:induction false} ValueOfDecimal(n: nat)
    ensures Value(Decimal(n)) == n
  {
    if n >= 10 {
      ValueOfDecimal(n / 10);
      assert Decimal(n)[..|Decimal(n)| - 1] == Decimal(n / 10);
    }
  }

  function Pow10(w: nat): (p: nat)
    ensures p >= 1
  {
    if w == 0 then 1 else 10 * Pow10(w - 1)
  }

  function Repeat(c: char, n: nat): (s: string)
    ensures |s| == n
    ensures forall i :: 0 <= i < n ==> s[i] == c
  {
    seq(n, _ => c)
  }

  /** Python's s.rjust(w, '0'). */
  function RightJustify(s: string, w: nat): string {
    if |s| >= w then s else Repeat('0', w - |s|) + s
  }

  /** The w low decimal digits of n. */
  function Digits(n: nat, w: nat): (s: string)
    ensures |s| == w && AllDigits(s)
  {
    if w == 0 then "" else Digits(n / 10, w - 1) + [DigitChar(n % 10)]
  }

  lemma {:induction false} ZeroDigits(w: nat)
    ensures Digits(0, w) == Repeat('0', w)
  {
    if w > 0 { ZeroDigits(w - 1); }
  }

  /** A numeral that fits the width is padded to exactly that width. */
  lemma {:induction false} PaddedIsDigits(n: nat, w: nat)
    requires w >= 1 && n < Pow10(w)
    ensures RightJustify(Decimal(n), w) == Digits(n, w)
  {
    if n < 10 {
      ZeroDigits(w - 1);
    } else {
      assert w > 1 by { assert Pow10(1) == 10; }
      PaddedIsDigits(n / 10, w - 1);
    }
  }

  lemma {:induction false} DigitsOrder(m: nat, n: nat, w: nat)
    requires m < Pow10(w) && n < Pow10(w)
    ensures Lt(Digits(m, w), Digits(n, w)) <==> m < n
    ensures Digits(m, w) == Digits(n, w) <==> m == n
  {
    if w > 0 {
      DigitsOrder(m / 10, n / 10, w - 1);
      var x, y := Digits(m / 10, w - 1), Digits(n / 10, w - 1);
      var u, v := [DigitChar(m % 10)], [DigitChar(n % 10)];
      LtConcat(x, u, y, v);
      assert Lt(u, v) <==> m % 10 < n % 10;
      assert x + u == y + v ==> x == y && u == v by {
        assert (x + u)[..w - 1] == x && (y + v)[..w - 1] == y;
        assert (x + u)[w - 1..] == u && (y + v)[w - 1..] == v;
      }
    }
  }

  // ----- splitting and joining

  /** Python's s.split(sep) for a one-character separator. */
  function Split(s: string, sep: char): (parts: seq<string>)
    ensures |parts| >= 1
  {
    if s == "" then [""]
    else
      var rest := Split(s[1..], sep);
      if s[0] == sep then [""] + rest
      else [[s[0]] + rest[0]] + rest[1..]
  }

  /** Python's sep.join(parts). */
  function Join(parts: seq<string>, sep: char): string {
    if parts == [] then ""
    else if |parts| == 1 then parts[0]
    else parts[0] + [sep] + Join(parts[1..], sep)
  }

  predicate Free(s: string, c: char) { forall i :: 0 <= i < |s| ==> s[i] != c }

  lemma {:induction false} SplitOfFree(s: string, sep: char)
    requires Free(s, sep)
    ensures Split(s, sep) == [s]
  {
    if s != "" { SplitOfFree(s[1..], sep); assert s == [s[0]] + s[1..]; }
  }

  lemma {:induction false} SplitConcat(s: string, t: string, sep: char)
    requires Free(s, sep)
    ensures Split(s + [sep] + t, sep) == [s] + Split(t, sep)
  {
    var whole := s + [sep] + t;
    if s == "" {
      assert whole[1..] == t;
    } else {
      assert whole[1..] == s[1..] + [sep] + t;
      SplitConcat(s[1..], t, sep);
      assert s == [s[0]] + s[1..];
    }
  }

  lemma {:induction false} SplitJoin(parts: seq<string>, sep: char)
    requires |parts| >= 1
    requires forall i :: 0 <= i < |parts| ==> Free(parts[i], sep)
    ensures Split(Join(parts, sep), sep) == parts
  {
    if |parts| == 1 {
      SplitOfFree(parts[0], sep);
    } else {
      SplitJoin(parts[1..], sep);
      SplitConcat(parts[0], Join(parts[1..], sep), sep);
    }
  }

  /** Everything before the first occurrence of a character satisfying `stop`. */
  function Before(s: string, stop: char -> bool): (t: string)
    ensures |t| <= |s| && t == s[..|t|]
    ensures forall i :: 0 <= i < |t| ==> !stop(t[i])
    ensures |t| < |s| ==> stop(s[|t|])
  {
    if s == "" || stop(s[0]) then "" else [s[0]] + Before(s[1..], stop)
  }

  /** The text without one leading v. */
  function StripV(version: string): string {
    if version != "" && version[0] == 'v' then version[1..] else version
  }
}
