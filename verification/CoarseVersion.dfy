/** The fixed-width coarse version string "EE:XXXXXXXX.YYYYYYYY.ZZZZZZZZ" that the
    database range query compares instead of the version itself. */
module CoarseVersion {
  import opened Strings

  const MAX_COARSE_EPOCH := 99
  const MAX_COARSE_PART := 99999999

  // ----- Python's order on lists of integers

  predicate LexLt(a: seq<int>, b: seq<int>) {
    if b == [] then false
    else if a == [] then true
    else a[0] < b[0] || (a[0] == b[0] && LexLt(a[1..], b[1..]))
  }

  predicate LexLe(a: seq<int>, b: seq<int>) {
    !LexLt(b, a)
  }

  lemma {:induction false} LexTrichotomy(a: seq<int>, b: seq<int>)
    ensures LexLt(a, b) || a == b || LexLt(b, a)
    ensures !(LexLt(a, b) && LexLt(b, a))
    ensures a == b ==> !LexLt(a, b)
  {
    if a != [] && b != [] && a[0] == b[0] {
      LexTrichotomy(a[1..], b[1..]);
      assert a == [a[0]] + a[1..] && b == [b[0]] + b[1..];
    }
  }

  lemma {:induction false} LexTransitive(a: seq<int>, b: seq<int>, c: seq<int>)
    requires LexLt(a, b) && LexLt(b, c)
    ensures LexLt(a, c)
  {
    if a != [] && a[0] == b[0] && b[0] == c[0] { LexTransitive(a[1..], b[1..], c[1..]); }
  }

  /** Order of (epoch, parts) pairs. */
  predicate PairLe(e: int, p: seq<int>, f: int, q: seq<int>) {
    e < f || (e == f && LexLe(p, q))
  }

  // ----- from integers to the string

  /** The n fields that `parts` gives: a negative part ends the list with zeros, an
      overflowing one with the maximum, a short list is padded with zeros. */
  function Fields(parts: seq<int>, n: nat): (f: seq<int>)
    ensures |f| == n
    ensures forall i :: 0 <= i < n ==> 0 <= f[i] <= MAX_COARSE_PART
    decreases n
  {
    if n == 0 then []
    else if parts == [] || parts[0] < 0 then [0] + Fields([], n - 1)
    else if parts[0] > MAX_COARSE_PART then [MAX_COARSE_PART] + Fields([MAX_COARSE_PART + 1], n - 1)
    else [parts[0]] + Fields(parts[1..], n - 1)
  }

  /** Python's f'{n:0wd}'. */
  function Field(n: nat, w: nat): string {
    RightJustify(Decimal(n), w)
  }

  function Format(epoch: nat, f: seq<int>): string
    requires |f| == 3 && forall i :: 0 <= i < 3 ==> f[i] >= 0
  {
    Field(epoch, 2) + (":" + (Field(f[0], 8) + ("." + (Field(f[1], 8) + ("." + Field(f[2], 8))))))
  }

  /** The two constant strings; ExtremesAreLiteral spells them out. */
  function Lowest(): string { Format(0, [0, 0, 0]) }
  function Highest(): string { Format(MAX_COARSE_EPOCH, [MAX_COARSE_PART, MAX_COARSE_PART, MAX_COARSE_PART]) }

  function FromInts(parts: seq<int>, epoch: int): string {
    if epoch < 0 then Lowest()
    else if epoch > MAX_COARSE_EPOCH then Highest()
    else Format(epoch, Fields(parts, 3))
  }

  /** What the loops still owe after `ints`: the fields of `rest`. */
  ghost predicate Owes(parts: seq<int>, ints: seq<int>, rest: seq<int>) {
    |ints| <= 3 && Fields(parts, 3) == ints + Fields(rest, 3 - |ints|)
  }

  lemma {:induction false} OwesStep(parts: seq<int>, ints: seq<int>, rest: seq<int>, p: int, rest': seq<int>)
    requires Owes(parts, ints, rest) && |ints| < 3
    requires Fields(rest, 3 - |ints|) == [p] + Fields(rest', 2 - |ints|)
    ensures Owes(parts, ints + [p], rest')
  {
    assert ints + ([p] + Fields(rest', 2 - |ints|)) == (ints + [p]) + Fields(rest', 2 - |ints|);
  }

  /** The two loops of coarse_version_from_ints: collect, then pad. */
  method CollectFields(parts: seq<int>) returns (ints: seq<int>)
    ensures ints == Fields(parts, 3)
  {
    ints := [];
    var overflow := false;
    ghost var rest := parts;
    var i := 0;
    while i < |parts| && !overflow && |ints| < 3
      invariant 0 <= i <= |parts|
      invariant rest == if overflow then [MAX_COARSE_PART + 1] else parts[i..]
      invariant Owes(parts, ints, rest)
    {
      var p := parts[i];
      if p < 0 {
        OwesStep(parts, ints, rest, 0, []);
        ints := ints + [0];
        rest := [];
        break;
      }
      if p > MAX_COARSE_PART {
        p := MAX_COARSE_PART;
        overflow := true;
      }
      i := i + 1;
      ghost var rest' := if overflow then [MAX_COARSE_PART + 1] else parts[i..];
      OwesStep(parts, ints, rest, p, rest');
      ints := ints + [p];
      rest := rest';
    }
    var pad := if overflow then MAX_COARSE_PART else 0;
    while |ints| < 3
      invariant |ints| < 3 ==> rest == if overflow then [MAX_COARSE_PART + 1] else []
      invariant Owes(parts, ints, rest)
    {
      OwesStep(parts, ints, rest, pad, rest);
      ints := ints + [pad];
    }
  }

  method CoarseVersionFromInts(parts: seq<int>, epoch: int) returns (s: string)
    ensures s == FromInts(parts, epoch)
  {
    if epoch < 0 { return Lowest(); }
    if epoch > MAX_COARSE_EPOCH { return Highest(); }
    var ints := CollectFields(parts);
    s := Format(epoch, ints);
  }

  // ----- the order of the strings is the order of the fields

  predicate InRange(epoch: int, f: seq<int>) {
    && 0 <= epoch <= MAX_COARSE_EPOCH && |f| == 3
    && forall i :: 0 <= i < 3 ==> 0 <= f[i] <= MAX_COARSE_PART
  }

  /** Order of one numeric field, alone and followed by a separator and a tail. */
  lemma {:induction false} FieldOrder(m: nat, n: nat, w: nat, sep: string, u: string, v: string)
    requires w >= 1 && m < Pow10(w) && n < Pow10(w)
    ensures Lt(Field(m, w), Field(n, w)) <==> m < n
    ensures Lt(Field(m, w) + (sep + u), Field(n, w) + (sep + v)) <==> m < n || (m == n && Lt(u, v))
  {
    PaddedIsDigits(m, w);
    PaddedIsDigits(n, w);
    DigitsOrder(m, n, w);
    LtConcat(Field(m, w), sep + u, Field(n, w), sep + v);
    LtConcat(sep, u, sep, v);
    LtIrreflexive(sep);
  }

  /** On the fixed-width form, string order is (epoch, fields) order, exactly. */
  lemma {:induction false} FormatOrder(e: nat, f: seq<int>, e': nat, f': seq<int>)
    requires InRange(e, f) && InRange(e', f')
    ensures Lt(Format(e, f), Format(e', f')) <==> e < e' || (e == e' && LexLt(f, f'))
  {
    Powers();
    var z, z' := Field(f[2], 8), Field(f'[2], 8);
    FieldOrder(f[2], f'[2], 8, "", "", "");
    var y, y' := Field(f[1], 8) + ("." + z), Field(f'[1], 8) + ("." + z');
    FieldOrder(f[1], f'[1], 8, ".", z, z');
    var x, x' := Field(f[0], 8) + ("." + y), Field(f'[0], 8) + ("." + y');
    FieldOrder(f[0], f'[0], 8, ".", y, y');
    FieldOrder(e, e', 2, ":", x, x');
    LexOfThree(f, f');
  }

  lemma {:induction false} Powers()
    ensures Pow10(2) == 100 && Pow10(8) == 100000000
  {
  }

  lemma {:induction false} LexOfThree(f: seq<int>, g: seq<int>)
    requires |f| == 3 && |g| == 3
    ensures LexLt(f, g) <==>
            f[0] < g[0] || (f[0] == g[0] && (f[1] < g[1] || (f[1] == g[1] && f[2] < g[2])))
  {
    assert LexLt(f[1..], g[1..]) <==> f[1] < g[1] || (f[1] == g[1] && LexLt(f[1..][1..], g[1..][1..]));
    assert LexLt(f[1..][1..], g[1..][1..]) <==>
      f[2] < g[2] || (f[2] == g[2] && LexLt(f[1..][1..][1..], g[1..][1..][1..]));
  }

  /** Every list that does not exceed MAX lies below the overflow list. */
  lemma {:induction false} FieldsBounds(p: seq<int>, n: nat)
    ensures LexLe(Fields([], n), Fields(p, n))
    ensures LexLe(Fields(p, n), Fields([MAX_COARSE_PART + 1], n))
    decreases n
  {
    if n > 0 {
      FieldsBounds([], n - 1);
      FieldsBounds([MAX_COARSE_PART + 1], n - 1);
      if p != [] { FieldsBounds(p[1..], n - 1); }
    }
  }

  lemma {:induction false} FieldsMonotone(p: seq<int>, q: seq<int>, n: nat)
    requires LexLe(p, q)
    ensures LexLe(Fields(p, n), Fields(q, n))
    decreases n
  {
    if n > 0 {
      FieldsBounds(p, n);
      FieldsBounds(q, n);
      if p != [] && q != [] && p[0] == q[0] {
        FieldsMonotone(p[1..], q[1..], n - 1);
        LexTrichotomy(Fields(p, n), Fields(q, n));
      }
    }
  }

  /** Padding with zeros makes a trailing zero invisible. */
  lemma {:induction false} TrailingZero(p: seq<int>, n: nat)
    ensures Fields(p + [0], n) == Fields(p, n)
    decreases n
  {
    if n > 0 {
      if p == [] {
        assert ([0] + Fields([0][1..], n - 1)) == [0] + Fields([], n - 1);
      } else {
        assert (p + [0])[1..] == p[1..] + [0];
        TrailingZero(p[1..], n - 1);
      }
    }
  }

  /** MIN_COARSE_VERSION and MAX_COARSE_VERSION of the indexer. */
  function MinCoarse(): string { FromInts([0], 0) }
  function MaxCoarse(): string { FromInts([MAX_COARSE_PART + 1], MAX_COARSE_EPOCH + 1) }

  lemma {:induction false} ExtremesAreFields()
    ensures MinCoarse() == Lowest() && MaxCoarse() == Highest()
    ensures Fields([], 3) == [0, 0, 0]
    ensures Fields([MAX_COARSE_PART + 1], 3) == [MAX_COARSE_PART, MAX_COARSE_PART, MAX_COARSE_PART]
  {
    assert Fields([], 2) == [0] + Fields([], 1);
    assert Fields([MAX_COARSE_PART + 1], 2) == [MAX_COARSE_PART] + Fields([MAX_COARSE_PART + 1], 1);
  }

  /** Version "0" and the invalid bounds map to the literals of the documentation. */
  lemma {:induction false} ExtremesAreLiteral()
    ensures Lowest() == "00" + ":" + "00000000" + "." + "00000000" + "." + "00000000"
    ensures Highest() == "99" + ":" + "99999999" + "." + "99999999" + "." + "99999999"
  {
    SmallestField();
    LargestField();
    Layout(0, 0, "00", "00000000");
    Layout(MAX_COARSE_EPOCH, MAX_COARSE_PART, "99", "99999999");
  }

  lemma {:induction false} Layout(epoch: nat, part: nat, e: string, p: string)
    requires Field(epoch, 2) == e && Field(part, 8) == p
    ensures Format(epoch, [part, part, part]) == e + ":" + p + "." + p + "." + p
  {
  }

  lemma {:induction false} SmallestField()
    ensures Field(0, 2) == "00" && Field(0, 8) == "00000000"
  {
  }

  lemma {:induction false} LargestField()
    ensures Field(MAX_COARSE_EPOCH, 2) == "99" && Field(MAX_COARSE_PART, 8) == "99999999"
  {
    assert Decimal(99) == "99" && Decimal(999) == "999" && Decimal(9999) == "9999";
    assert Decimal(999999) == Decimal(99999) + ['9'];
    assert Decimal(MAX_COARSE_PART) == Decimal(9999999) + ['9'] == Decimal(999999) + ['9'] + ['9'];
  }

  /** Lexicographic <= of (epoch, integers) implies string <= of the coarse versions,
      for every epoch and every list, negative, overlong and overflowing ones included. */
  lemma {:induction false} IntCoarseMonotone(e: int, p: seq<int>, f: int, q: seq<int>)
    requires PairLe(e, p, f, q)
    ensures Le(FromInts(p, e), FromInts(q, f))
  {
    ClampedFormat(p, e);
    ClampedFormat(q, f);
    FormatOrder(ClampedEpoch(f), Clamped(q, f), ClampedEpoch(e), Clamped(p, e));
    if ClampedEpoch(e) == ClampedEpoch(f) { ClampedMonotone(e, p, f, q); }
  }

  function ClampedEpoch(e: int): int {
    if e < 0 then 0 else if e > MAX_COARSE_EPOCH then MAX_COARSE_EPOCH else e
  }

  /** The fields, with an epoch out of range folded into the list. */
  function Clamped(p: seq<int>, e: int): seq<int> {
    Fields(if e < 0 then [] else if e > MAX_COARSE_EPOCH then [MAX_COARSE_PART + 1] else p, 3)
  }

  lemma {:induction false} ClampedFormat(p: seq<int>, e: int)
    ensures FromInts(p, e) == Format(ClampedEpoch(e), Clamped(p, e))
  {
    ExtremesAreFields();
  }

  lemma {:induction false} ClampedMonotone(e: int, p: seq<int>, f: int, q: seq<int>)
    requires PairLe(e, p, f, q) && ClampedEpoch(e) == ClampedEpoch(f)
    ensures LexLe(Clamped(p, e), Clamped(q, f))
  {
    FieldsBounds(p, 3);
    FieldsBounds(q, 3);
    FieldsBounds([], 3);
    if e == f && 0 <= e <= MAX_COARSE_EPOCH {
      FieldsMonotone(p, q, 3);
    } else {
      LexTrichotomy(Clamped(p, e), Clamped(q, f));
    }
  }

  lemma {:induction false} ExtremesBoundEverything(p: seq<int>, e: int)
    ensures Le(MinCoarse(), FromInts(p, e)) && Le(FromInts(p, e), MaxCoarse())
  {
    LexTrichotomy(p, p);
    LexTrichotomy([], p);
    ExtremesAreFields();
    IntCoarseMonotone(if e < 0 then e else -1, [], e, p);
    IntCoarseMonotone(e, p, if e > MAX_COARSE_EPOCH then e else MAX_COARSE_EPOCH + 1, p);
  }

  lemma {:induction false} ThreeZerosAreLowest(p: seq<int>)
    ensures Le(FromInts([0, 0, 0], 0), FromInts(p, 0))
  {
    ExtremesAreFields();
    assert Fields([0, 0, 0], 3) == [0, 0, 0];
    ExtremesBoundEverything(p, 0);
  }
}
