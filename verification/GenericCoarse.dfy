/** coarse_version_generic: the shared route from a version string to a coarse version. */
module GenericCoarse {
  import opened Strings
  import opened CoarseVersion

  /** What happens to an empty part: dropped, or read as the given text. */
  datatype Empties = Dropped | ReadAs(text: string)

  /** Length of the leading run of digits, or of non-digits. */
  function RunLength(s: string): (n: nat)
    requires s != ""
    ensures 1 <= n <= |s|
    ensures forall i :: 0 <= i < n ==> IsDigit(s[i]) == IsDigit(s[0])
    ensures n < |s| ==> IsDigit(s[n]) != IsDigit(s[0])
  {
    if |s| == 1 || IsDigit(s[1]) != IsDigit(s[0]) then 1
    else
      assert forall i :: 1 <= i < |s| ==> s[i] == s[1..][i - 1];
      1 + RunLength(s[1..])
  }

  /** Maximal runs of digits and of non-digits, in order. */
  function Runs(s: string): (r: seq<string>)
    ensures s != "" ==> |r| >= 1
    ensures forall i :: 0 <= i < |r| ==> r[i] != ""
  {
    if s == "" then [] else [s[..RunLength(s)]] + Runs(s[RunLength(s)..])
  }

  /** re.findall(r'^$|\d+|\D+', part). */
  function FindRuns(part: string): (r: seq<string>)
    ensures |r| >= 1
  {
    if part == "" then [""] else Runs(part)
  }

  function AllRuns(parts: seq<string>): seq<string> {
    if parts == [] then [] else FindRuns(parts[0]) + AllRuns(parts[1..])
  }

  function Fill(parts: seq<string>, empties: Empties): seq<string> {
    if parts == [] then []
    else if parts[0] != "" then [parts[0]] + Fill(parts[1..], empties)
    else if empties.Dropped? then Fill(parts[1..], empties)
    else [empties.text] + Fill(parts[1..], empties)
  }

  /** The leading decimal parts, at most n of them. */
  function Components(parts: seq<string>, n: nat): (r: seq<int>)
    ensures |r| <= n && |r| <= |parts|
    ensures forall i :: 0 <= i < |r| ==> r[i] >= 0
  {
    if n == 0 || parts == [] || !IsDecimal(parts[0]) then []
    else [Value(parts[0])] + Components(parts[1..], n - 1)
  }

  function Parts(version: string, truncate: char -> bool, empties: Empties): seq<string> {
    Fill(AllRuns(Split(Before(version, truncate), '.')), empties)
  }

  function Generic(version: string, truncate: char -> bool, empties: Empties, epoch: int): string {
    if version == "0" then FromInts([0, 0, 0], epoch)
    else FromInts(Components(Parts(version, truncate, empties), 3), epoch)
  }

  // ----- with any separators, and with or without splitting at digits

  /** re.split on a set of single characters. */
  function SplitOn(s: string, isSeparator: char -> bool): (parts: seq<string>)
    ensures |parts| >= 1
  {
    if s == "" then [""]
    else
      var rest := SplitOn(s[1..], isSeparator);
      if isSeparator(s[0]) then [""] + rest else [[s[0]] + rest[0]] + rest[1..]
  }

  /** The keyword arguments; a truncate that no character satisfies stands for None. */
  datatype Options = Options(isSeparator: char -> bool, truncate: char -> bool, implicitSplit: bool, empties: Empties,
    epoch: int)

  function PartsWith(version: string, o: Options): seq<string> {
    var parts := SplitOn(Before(version, o.truncate), o.isSeparator);
    Fill(if o.implicitSplit then AllRuns(parts) else parts, o.empties)
  }

  function GenericWith(version: string, o: Options): string {
    if version == "0" then FromInts([0, 0, 0], o.epoch)
    else FromInts(Components(PartsWith(version, o), 3), o.epoch)
  }

  /** coarse_version_generic. */
  method CoarseVersionGeneric(version: string, o: Options) returns (s: string)
    ensures s == GenericWith(version, o)
  {
    if version == "0" {
      s := CoarseVersionFromInts([0, 0, 0], o.epoch);
      return;
    }
    var parts := SplitOn(Before(version, o.truncate), o.isSeparator);
    if o.implicitSplit { parts := AllRuns(parts); }
    parts := Fill(parts, o.empties);
    var components := CollectComponents(parts);
    s := CoarseVersionFromInts(components, o.epoch);
  }

  /** The loop over the first three parts. */
  method CollectComponents(parts: seq<string>) returns (components: seq<int>)
    ensures components == Components(parts, 3)
  {
    components := [];
    ghost var rest := parts;
    var i := 0;
    while i < |parts| && i < 3
      invariant 0 <= i <= |parts| && i <= 3 && rest == parts[i..]
      invariant Components(parts, 3) == components + Components(rest, 3 - i)
    {
      if !IsDecimal(parts[i]) { break; }
      FirstComponent(components, rest, 3 - i);
      components := components + [Value(parts[i])];
      i := i + 1;
      rest := rest[1..];
    }
  }

  lemma {:induction false} FirstComponent(components: seq<int>, rest: seq<string>, n: nat)
    requires n > 0 && rest != [] && IsDecimal(rest[0])
    ensures components + Components(rest, n) == (components + [Value(rest[0])]) + Components(rest[1..], n - 1)
  {
  }

  predicate IsDot(c: char) { c == '.' }

  lemma {:induction false} SplitOnDots(s: string)
    ensures SplitOn(s, IsDot) == Split(s, '.')
  {
    if s != "" { SplitOnDots(s[1..]); }
  }

  /** The ecosystems that split at dots and at digits. */
  lemma {:induction false} GenericSplitsAtDots(version: string, truncate: char -> bool, empties: Empties, epoch: int)
    ensures GenericWith(version, Options(IsDot, truncate, true, empties, epoch)) ==
            Generic(version, truncate, empties, epoch)
  {
    SplitOnDots(Before(version, truncate));
  }

  /** Only the leading decimal parts matter, and of those only the first three. */
  lemma {:induction false} FieldsOfComponents(parts: seq<string>, n: nat, m: nat)
    requires n <= m
    ensures Fields(Components(parts, n), n) == Fields(Components(parts, m), n)
    decreases n
  {
    if n > 0 && parts != [] && IsDecimal(parts[0]) {
      FieldsOfComponents(parts[1..], n - 1, m - 1);
      assert Components(parts, n)[1..] == Components(parts[1..], n - 1);
      assert Components(parts, m)[1..] == Components(parts[1..], m - 1);
    }
  }
}
