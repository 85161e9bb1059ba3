/** Converting version ranges to commit ranges by looking the versions up as tags of the
    candidate repositories. */
module Conversion {
  import opened Ecosystems
  import opened Indexing
  import opened Sorting

  datatype Metadata = Metadata(cpe: string, source: string)

  /** RangeWithMetadata, as given and as resolved; `extracted` are the events it was made from. */
  datatype Given = Given(range: Range, metadata: Metadata)
  datatype Resolved = Resolved(range: Range, metadata: Metadata, extracted: seq<RangeEvent>)

  /** A listed repository as the lookups find it: invalid or without readable tags, behind a rate
      limit, or its canonical address with the commit of each version ("" for none). */
  datatype Candidate = Unusable | RateLimited | Usable(repo: string, commit: string -> string)

  // ----- one range on one repository

  /** The last non-empty value of one field of the events. */
  function LastValue(events: seq<RangeEvent>, field: RangeEvent -> string): string {
    if events == [] then ""
    else if field(events[|events| - 1]) != "" then field(events[|events| - 1])
    else LastValue(events[..|events| - 1], field)
  }

  function IntroducedOf(events: seq<RangeEvent>): string { LastValue(events, (e: RangeEvent) => e.introduced) }
  function FixedOf(events: seq<RangeEvent>): string { LastValue(events, (e: RangeEvent) => e.fixed) }
  function LastAffectedOf(events: seq<RangeEvent>): string { LastValue(events, (e: RangeEvent) => e.lastAffected) }

  /** VersionToCommit. */
  function CommitOf(commit: string -> string, version: string): string { if version == "" then "" else commit(version) }

  function IntroducedCommit(commit: string -> string, events: seq<RangeEvent>): string {
    var introduced := IntroducedOf(events);
    if introduced == "0" then "0" else CommitOf(commit, introduced)
  }

  const NO_EVENT := RangeEvent("", "", "", "")

  function BuildVersionRange(intro: string, lastAffected: string, fixed: string): Range {
    var first := NO_EVENT.(introduced := if intro == "" then "0" else intro);
    var last :=
      if fixed != "" then [NO_EVENT.(fixed := fixed)]
      else if lastAffected != "" then [NO_EVENT.(lastAffected := lastAffected)]
      else [];
    Range(UNSPECIFIED, "", [first] + last)
  }

  function BuildGitVersionRange(intro: string, lastAffected: string, fixed: string, repo: string): Range {
    BuildVersionRange(intro, lastAffected, fixed).(repo := repo, kind := GIT)
  }

  predicate MayUse(given: Given, repo: string, claimed: set<string>) {
    if given.range.repo != "" then given.range.repo == repo else repo !in claimed
  }

  /** The body of the inner loop. */
  function ResolveOn(given: Given, repo: string, commit: string -> string, claimed: set<string>): Option<Resolved> {
    var events := given.range.events;
    var intro, fixed := IntroducedCommit(commit, events), CommitOf(commit, FixedOf(events));
    var lastAffected := CommitOf(commit, LastAffectedOf(events));
    if !MayUse(given, repo, claimed) then None
    else if fixed != "" then Some(Resolved(BuildGitVersionRange(intro, "", fixed, repo), given.metadata, events))
    else if lastAffected != "" then
      Some(Resolved(BuildGitVersionRange(intro, lastAffected, "", repo), given.metadata, events))
    else None
  }

  function OnCandidate(given: Given, c: Candidate, claimed: set<string>): Option<Resolved> {
    if c.Usable? then ResolveOn(given, c.repo, c.commit, claimed) else None
  }

  // ----- one range, whatever becomes of the others

  /** The first candidate on which the range resolves. */
  function Resolution(given: Given, candidates: seq<Candidate>, claimed: set<string>): Option<Resolved> {
    if candidates == [] then None
    else
      var before := Resolution(given, candidates[..|candidates| - 1], claimed);
      if before.Some? then before else OnCandidate(given, candidates[|candidates| - 1], claimed)
  }

  function Claimed(ranges: seq<Given>): set<string> { set g | g in ranges && g.range.repo != "" :: g.range.repo }

  // ----- partitions of a list by an outcome

  type Outcome = Given -> Option<Resolved>

  function Still(list: seq<Given>, f: Outcome): seq<Given> {
    if list == [] then []
    else if f(list[0]).None? then [list[0]] + Still(list[1..], f)
    else Still(list[1..], f)
  }

  function Solved(list: seq<Given>, f: Outcome): seq<Given> {
    if list == [] then []
    else if f(list[0]).Some? then [list[0]] + Solved(list[1..], f)
    else Solved(list[1..], f)
  }

  function Found(list: seq<Given>, f: Outcome): seq<Resolved> {
    if list == [] then []
    else match f(list[0])
      case Some(r) => [r] + Found(list[1..], f)
      case None => Found(list[1..], f)
  }

  lemma {:induction false} Cons<T>(x: T, s: seq<T>)
    ensures multiset([x] + s) == multiset{x} + multiset(s) && ([x] + s)[0] == x && ([x] + s)[1..] == s
  {
  }

  /** Nothing is lost and nothing is duplicated: every range is either still there or solved, and
      the resolved ranges are the solved ones one for one. */
  lemma {:induction false} Conserved(list: seq<Given>, f: Outcome)
    ensures multiset(list) == multiset(Still(list, f)) + multiset(Solved(list, f))
    ensures |Found(list, f)| == |Solved(list, f)|
    ensures forall i :: 0 <= i < |Found(list, f)| ==> f(Solved(list, f)[i]) == Some(Found(list, f)[i])
  {
    NoneIsLost(list, f);
    FoundAreSolved(list, f);
  }

  lemma {:induction false} FoundAreSolved(list: seq<Given>, f: Outcome)
    ensures |Found(list, f)| == |Solved(list, f)|
    ensures forall i :: 0 <= i < |Found(list, f)| ==> f(Solved(list, f)[i]) == Some(Found(list, f)[i])
  {
    if list != [] { FoundAreSolved(list[1..], f); }
  }

  lemma {:induction false} NoneIsLost(list: seq<Given>, f: Outcome)
    ensures multiset(list) == multiset(Still(list, f)) + multiset(Solved(list, f))
  {
    if list != [] {
      var x, rest := list[0], list[1..];
      NoneIsLost(rest, f);
      Cons(x, rest);
      assert list == [x] + rest;
      if f(x).None? {
        Cons(x, Still(rest, f));
      } else {
        Cons(x, Solved(rest, f));
      }
    }
  }

  ghost predicate Or(f: Outcome, g: Outcome, h: Outcome, list: seq<Given>) {
    forall x :: x in list ==> h(x) == if f(x).Some? then f(x) else g(x)
  }

  /** Two rounds in a row do what one round with both outcomes does. */
  lemma {:induction false} TwoRounds(list: seq<Given>, f: Outcome, g: Outcome, h: Outcome)
    requires Or(f, g, h, list)
    ensures Still(Still(list, f), g) == Still(list, h)
    ensures multiset(Found(list, h)) == multiset(Found(list, f)) + multiset(Found(Still(list, f), g))
  {
    if list != [] {
      var x, rest := list[0], list[1..];
      TwoRounds(rest, f, g, h);
      if f(x).Some? {
        Cons(f(x).value, Found(rest, f));
        Cons(f(x).value, Found(rest, h));
      } else {
        Cons(x, Still(rest, f));
        if g(x).Some? {
          Cons(g(x).value, Found(rest, h));
          Cons(g(x).value, Found(Still(rest, f), g));
        }
      }
    }
  }

  lemma {:induction false} NoneLeft(list: seq<Given>, f: Outcome, h: Outcome)
    requires Still(list, f) == [] && forall x :: x in list && f(x).Some? ==> h(x) == f(x)
    ensures Still(list, h) == [] && Found(list, h) == Found(list, f)
  {
    if list != [] {
      assert f(list[0]).Some?;
      NoneLeft(list[1..], f, h);
    }
  }

  // ----- the loops

  /** The outcome of a range on the first n candidates. */
  function After(candidates: seq<Candidate>, n: nat, claimed: set<string>): Outcome
    requires n <= |candidates|
  {
    given => Resolution(given, candidates[..n], claimed)
  }

  function On(c: Candidate, claimed: set<string>): Outcome { given => OnCandidate(given, c, claimed) }

  /** The resolved ranges in the order of the first n candidates, and for each in the given order. */
  function ByCandidate(ranges: seq<Given>, candidates: seq<Candidate>, n: nat, claimed: set<string>): seq<Resolved>
    requires n <= |candidates|
  {
    if n == 0 then []
    else
      var left := Still(ranges, After(candidates, n - 1, claimed));
      ByCandidate(ranges, candidates, n - 1, claimed) + Found(left, On(candidates[n - 1], claimed))
  }

  lemma {:induction false} SameFound(list: seq<Given>, f: Outcome, g: Outcome)
    requires forall x :: f(x) == g(x)
    ensures Found(list, f) == Found(list, g)
  {
    if list != [] { SameFound(list[1..], f, g); }
  }

  method LastValues(events: seq<RangeEvent>) returns (introduced: string, fixed: string, lastAffected: string)
    ensures introduced == IntroducedOf(events) && fixed == FixedOf(events) && lastAffected == LastAffectedOf(events)
  {
    introduced, fixed, lastAffected := "", "", "";
    for i := 0 to |events|
      invariant introduced == IntroducedOf(events[..i]) && fixed == FixedOf(events[..i])
      invariant lastAffected == LastAffectedOf(events[..i])
    {
      var e := events[i];
      assert events[..i + 1][..i] == events[..i];
      if e.introduced != "" { introduced := e.introduced; }
      if e.fixed != "" { fixed := e.fixed; }
      if e.lastAffected != "" { lastAffected := e.lastAffected; }
    }
    assert events[..|events|] == events;
  }

  method TryResolve(given: Given, repo: string, commit: string -> string, claimed: set<string>)
    returns (r: Option<Resolved>)
    ensures r == ResolveOn(given, repo, commit, claimed)
  {
    if (given.range.repo != "" && given.range.repo != repo)
      || (given.range.repo == "" && repo in claimed) { return None; }
    var introduced, fixed, lastAffected := LastValues(given.range.events);
    var introducedCommit := if introduced == "0" then "0" else CommitOf(commit, introduced);
    var fixedCommit, lastAffectedCommit := CommitOf(commit, fixed), CommitOf(commit, lastAffected);
    if fixedCommit == "" && lastAffectedCommit == "" { return None; }
    var range;
    if fixedCommit != "" {
      range := BuildGitVersionRange(introducedCommit, "", fixedCommit, repo);
    } else {
      range := BuildGitVersionRange(introducedCommit, lastAffectedCommit, "", repo);
    }
    return Some(Resolved(range, given.metadata, given.range.events));
  }

  function ReposOf(found: seq<Resolved>): (repos: seq<string>)
    ensures |repos| == |found| && forall i :: 0 <= i < |found| ==> repos[i] == found[i].range.repo
  {
    seq(|found|, i requires 0 <= i < |found| => found[i].range.repo)
  }

  lemma {:induction false} ReposOfBoth(found: seq<Resolved>, more: seq<Resolved>)
    ensures ReposOf(found + more) == ReposOf(found) + ReposOf(more)
  {
  }

  /** The inner loop: the ranges not yet resolved, on one repository. */
  method ResolveOnRepo(unresolved: seq<Given>, repo: string, commit: string -> string, claimed: set<string>,
        ghost f: Outcome)
    returns (found: seq<Resolved>, still: seq<Given>, successful: seq<string>)
    requires forall x :: f(x) == ResolveOn(x, repo, commit, claimed)
    ensures found == Found(unresolved, f) && still == Still(unresolved, f) && successful == ReposOf(found)
  {
    found, still, successful := [], [], [];
    ghost var rest := unresolved;
    for i := 0 to |unresolved|
      invariant rest == unresolved[i..]
      invariant found + Found(rest, f) == Found(unresolved, f)
      invariant still + Still(rest, f) == Still(unresolved, f)
      invariant successful == ReposOf(found)
    {
      var given := unresolved[i];
      rest := rest[1..];
      var r := TryResolve(given, repo, commit, claimed);
      if r.Some? {
        Associative(found, [r.value], Found(rest, f));
        found := found + [r.value];
        successful := successful + [repo];
      } else {
        Associative(still, [given], Still(rest, f));
        still := still + [given];
      }
    }
    assert found + [] == found && still + [] == still;
  }

  /** The index of a rate-limited candidate that the loop reaches with ranges left. */
  ghost predicate HitsLimit(ranges: seq<Given>, candidates: seq<Candidate>, k: nat) {
    k < |candidates| && candidates[k].RateLimited? && Still(ranges, After(candidates, k, Claimed(ranges))) != []
  }

  ghost predicate NoLimitBefore(ranges: seq<Given>, candidates: seq<Candidate>, k: nat) {
    forall j: nat :: j < k ==> !HitsLimit(ranges, candidates, j)
  }

  lemma {:induction false} NoLimitYet(ranges: seq<Given>, candidates: seq<Candidate>, k: nat)
    requires NoLimitBefore(ranges, candidates, k) && k < |candidates| && !candidates[k].RateLimited?
    ensures NoLimitBefore(ranges, candidates, k + 1)
  {
  }

  /** What the loop holds after the first k candidates. */
  ghost predicate Reached(ranges: seq<Given>, candidates: seq<Candidate>, k: nat, claimed: set<string>,
        found: seq<Resolved>, still: seq<Given>)
    requires k <= |candidates|
  {
    && still == Still(ranges, After(candidates, k, claimed))
    && found == ByCandidate(ranges, candidates, k, claimed)
    && multiset(found) == multiset(Found(ranges, After(candidates, k, claimed)))
  }

  /** The rounds before and the next one, together. */
  lemma {:induction false} OneRoundMore(ranges: seq<Given>, candidates: seq<Candidate>, k: nat, claimed: set<string>,
        g: Outcome)
    requires k < |candidates| && forall x :: g(x) == OnCandidate(x, candidates[k], claimed)
    ensures Or(After(candidates, k, claimed), g, After(candidates, k + 1, claimed), ranges)
  {
    assert candidates[..k + 1][..k] == candidates[..k];
  }

  lemma {:induction false} NextCandidate(ranges: seq<Given>, candidates: seq<Candidate>, k: nat, claimed: set<string>,
        found: seq<Resolved>, still: seq<Given>, g: Outcome)
    requires k < |candidates| && Reached(ranges, candidates, k, claimed, found, still)
    requires forall x :: g(x) == OnCandidate(x, candidates[k], claimed)
    ensures Reached(ranges, candidates, k + 1, claimed, found + Found(still, g), Still(still, g))
  {
    OneRoundMore(ranges, candidates, k, claimed, g);
    TwoRounds(ranges, After(candidates, k, claimed), g, After(candidates, k + 1, claimed));
    SameFound(still, g, On(candidates[k], claimed));
  }

  lemma {:induction false} SkipCandidate(ranges: seq<Given>, candidates: seq<Candidate>, k: nat, claimed: set<string>,
        found: seq<Resolved>, still: seq<Given>)
    requires k < |candidates| && Reached(ranges, candidates, k, claimed, found, still) && candidates[k].Unusable?
    ensures Reached(ranges, candidates, k + 1, claimed, found, still)
  {
    NextCandidate(ranges, candidates, k, claimed, found, still, x => None);
    NothingTried(still, x => None);
    assert found + [] == found;
  }

  /** Stopping early because nothing is left is as good as going on. */
  lemma {:induction false} StopEarly(ranges: seq<Given>, candidates: seq<Candidate>, k: nat, claimed: set<string>,
        found: seq<Resolved>)
    requires k <= |candidates| && Reached(ranges, candidates, k, claimed, found, []) && claimed == Claimed(ranges)
    ensures Reached(ranges, candidates, |candidates|, claimed, found, [])
    ensures NoLimitBefore(ranges, candidates, k) ==> NoLimitBefore(ranges, candidates, |candidates|)
  {
    StaysEmpty(ranges, candidates, k, claimed);
    NothingMoreFound(ranges, candidates, k, |candidates|, claimed);
  }

  ghost predicate AllResolved(ranges: seq<Given>, candidates: seq<Candidate>, k: nat, claimed: set<string>)
    requires k <= |candidates|
  {
    Still(ranges, After(candidates, k, claimed)) == []
  }

  lemma {:induction false} NothingLeftAt(ranges: seq<Given>, candidates: seq<Candidate>, k: nat, m: nat,
        claimed: set<string>)
    requires k <= m <= |candidates| && AllResolved(ranges, candidates, k, claimed)
    ensures AllResolved(ranges, candidates, m, claimed)
  {
    StaysEmpty(ranges, candidates, k, claimed);
  }

  lemma {:induction false} NothingFound(ranges: seq<Given>, candidates: seq<Candidate>, k: nat, m: nat,
        claimed: set<string>)
    requires k < m <= |candidates| && AllResolved(ranges, candidates, k, claimed)
    ensures ByCandidate(ranges, candidates, m, claimed) == ByCandidate(ranges, candidates, m - 1, claimed)
  {
    NothingLeftAt(ranges, candidates, k, m - 1, claimed);
    var found := ByCandidate(ranges, candidates, m - 1, claimed);
    assert found + [] == found;
  }

  lemma {:induction false} NothingMoreFound(ranges: seq<Given>, candidates: seq<Candidate>, k: nat, m: nat,
        claimed: set<string>)
    requires k <= m <= |candidates| && AllResolved(ranges, candidates, k, claimed)
    ensures ByCandidate(ranges, candidates, m, claimed) == ByCandidate(ranges, candidates, k, claimed)
  {
    if k < m {
      NothingMoreFound(ranges, candidates, k, m - 1, claimed);
      NothingFound(ranges, candidates, k, m, claimed);
    }
  }

  /** The round of the outer loop for a usable candidate. */
  method UseCandidate(
    repo: string, commit: string -> string, claimed: set<string>, found: seq<Resolved>, still: seq<Given>,
      successful: seq<string>,
    ghost ranges: seq<Given>, ghost candidates: seq<Candidate>, ghost k: nat)
    returns (found': seq<Resolved>, still': seq<Given>, successful': seq<string>)
    requires k < |candidates| && candidates[k] == Usable(repo, commit)
    requires Reached(ranges, candidates, k, claimed, found, still) && successful == ReposOf(found)
    ensures Reached(ranges, candidates, k + 1, claimed, found', still') && successful' == ReposOf(found')
  {
    ghost var g := given => ResolveOn(given, repo, commit, claimed);
    NextCandidate(ranges, candidates, k, claimed, found, still, g);
    var more, left, repos := ResolveOnRepo(still, repo, commit, claimed, g);
    ReposOfBoth(found, more);
    found', still', successful' := found + more, left, successful + repos;
  }

  /** GitVersionsToCommits. A rate limit gives up everything; otherwise each range has the outcome
      it would have alone, the unresolved ones in their order. */
  method GitVersionsToCommits(ranges: seq<Given>, candidates: seq<Candidate>)
    returns (aborted: bool, found: seq<Resolved>, still: seq<Given>, successful: seq<string>)
    ensures aborted <==> exists k :: HitsLimit(ranges, candidates, k)
    ensures aborted ==> found == [] && still == []
    ensures successful == ReposOf(found)
    ensures !aborted ==> still == Still(ranges, After(candidates, |candidates|, Claimed(ranges)))
    ensures !aborted ==> found == ByCandidate(ranges, candidates, |candidates|, Claimed(ranges))
    ensures !aborted ==> multiset(found) == multiset(Found(ranges, After(candidates, |candidates|, Claimed(ranges))))
  {
    aborted, found, still, successful := false, [], ranges, [];
    var claimed := Claimed(ranges);
    NothingTried(ranges, After(candidates, 0, claimed));
    for k := 0 to |candidates|
      invariant !aborted && NoLimitBefore(ranges, candidates, k)
      invariant Reached(ranges, candidates, k, claimed, found, still) && successful == ReposOf(found)
    {
      if still == [] {
        StopEarly(ranges, candidates, k, claimed, found);
        break;
      }
      match candidates[k] {
        case RateLimited =>
          assert HitsLimit(ranges, candidates, k);
          return true, [], [], [];
        case Unusable =>
          NoLimitYet(ranges, candidates, k);
          SkipCandidate(ranges, candidates, k, claimed, found, still);
        case Usable(repo, commit) =>
          NoLimitYet(ranges, candidates, k);
          found, still, successful :=
            UseCandidate(repo, commit, claimed, found, still, successful, ranges, candidates, k);
      }
    }
  }

  lemma {:induction false} NothingTried(list: seq<Given>, f: Outcome)
    requires forall x :: x in list ==> f(x) == None
    ensures Still(list, f) == list && Found(list, f) == []
  {
    if list != [] { NothingTried(list[1..], f); assert list == [list[0]] + list[1..]; }
  }

  lemma {:induction false} ResolutionStays(given: Given, candidates: seq<Candidate>, n: nat, m: nat,
        claimed: set<string>)
    requires n <= m <= |candidates| && Resolution(given, candidates[..n], claimed).Some?
    ensures Resolution(given, candidates[..m], claimed) == Resolution(given, candidates[..n], claimed)
  {
    if n < m {
      ResolutionStays(given, candidates, n, m - 1, claimed);
      assert candidates[..m][..m - 1] == candidates[..m - 1];
    }
  }

  /** Once nothing is left, the later candidates change nothing. */
  lemma {:induction false} StaysEmpty(ranges: seq<Given>, candidates: seq<Candidate>, k: nat, claimed: set<string>)
    requires k <= |candidates| && Still(ranges, After(candidates, k, claimed)) == []
    ensures forall m: nat :: k <= m <= |candidates| ==>
              Still(ranges, After(candidates, m, claimed)) == []
                && Found(ranges, After(candidates, m, claimed)) == Found(ranges, After(candidates, k, claimed))
  {
    forall m: nat | k <= m <= |candidates|
      ensures Still(ranges, After(candidates, m, claimed)) == []
      ensures Found(ranges, After(candidates, m, claimed)) == Found(ranges, After(candidates, k, claimed))
    {
      forall x | x in ranges && After(candidates, k, claimed)(x).Some?
        ensures After(candidates, m, claimed)(x) == After(candidates, k, claimed)(x)
      {
        ResolutionStays(x, candidates, k, m, claimed);
      }
      NoneLeft(ranges, After(candidates, k, claimed), After(candidates, m, claimed));
    }
  }

  // ----- what a resolved range looks like

  ghost predicate WellFormed(given: Given, r: Resolved, c: Candidate, claimed: set<string>) {
    && c.Usable? && r.range.kind == GIT && r.range.repo == c.repo
    && (given.range.repo != "" ==> c.repo == given.range.repo)
    && (given.range.repo == "" ==> c.repo !in claimed)
    && r.metadata == given.metadata && r.extracted == given.range.events
    && |r.range.events| == 2
    && r.range.events[0] == NO_EVENT.(introduced := r.range.events[0].introduced) && r.range.events[0].introduced != ""
    && var fixed, lastAffected := CommitOf(c.commit, FixedOf(r.extracted)),
      CommitOf(c.commit, LastAffectedOf(r.extracted));
       && (fixed != "" ==> r.range.events[1] == NO_EVENT.(fixed := fixed))
       && (fixed == "" ==> r.range.events[1] == NO_EVENT.(lastAffected := lastAffected) && lastAffected != "")
  }

  /** A resolved range comes from the first candidate that may be used and knows its end; it has
      one introduced event and then one end, and names only a repository it may name. */
  lemma {:induction false} ResolvedIsWellFormed(given: Given, candidates: seq<Candidate>, claimed: set<string>)
    returns (k: nat)
    requires Resolution(given, candidates, claimed).Some?
    ensures k < |candidates| && WellFormed(given, Resolution(given, candidates, claimed).value, candidates[k], claimed)
    ensures forall j :: 0 <= j < k ==> OnCandidate(given, candidates[j], claimed).None?
  {
    var n := |candidates| - 1;
    if Resolution(given, candidates[..n], claimed).Some? {
      k := ResolvedIsWellFormed(given, candidates[..n], claimed);
      assert forall j :: 0 <= j <= k ==> candidates[..n][j] == candidates[j];
    } else {
      k := n;
      NoneBefore(given, candidates[..n], claimed);
      assert forall j :: 0 <= j < k ==> candidates[..n][j] == candidates[j];
    }
  }

  lemma {:induction false} NoneBefore(given: Given, candidates: seq<Candidate>, claimed: set<string>)
    requires Resolution(given, candidates, claimed).None?
    ensures forall j :: 0 <= j < |candidates| ==> OnCandidate(given, candidates[j], claimed).None?
  {
    if candidates != [] {
      var n := |candidates| - 1;
      NoneBefore(given, candidates[..n], claimed);
      assert forall j :: 0 <= j < n ==> candidates[..n][j] == candidates[j];
    }
  }

  // ----- what becomes of the introduced version

  /** The same range with every introduced version cleared. */
  function ClearedEvents(events: seq<RangeEvent>): (cleared: seq<RangeEvent>)
    ensures |cleared| == |events| && forall i :: 0 <= i < |events| ==> cleared[i] == events[i].(introduced := "")
  {
    seq(|events|, i requires 0 <= i < |events| => events[i].(introduced := ""))
  }

  function Cleared(given: Given): Given { given.(range := given.range.(events := ClearedEvents(given.range.events))) }

  lemma {:induction false} ClearingKeepsEnds(events: seq<RangeEvent>)
    ensures FixedOf(ClearedEvents(events)) == FixedOf(events)
    ensures LastAffectedOf(ClearedEvents(events)) == LastAffectedOf(events)
    ensures IntroducedOf(ClearedEvents(events)) == ""
  {
    if events != [] {
      var n := |events| - 1;
      ClearingKeepsEnds(events[..n]);
      assert ClearedEvents(events)[..n] == ClearedEvents(events[..n]);
    }
  }

  /** An introduction that says nothing on this repository: missing, "0", or without a commit of its own. */
  predicate SaysNothing(introduced: string, commit: string -> string) {
    introduced == "" || introduced == "0" || commit(introduced) == "" || commit(introduced) == "0"
  }

  /** The same outcome with and without the introductions, or none. */
  ghost predicate AlikeExactly(given: Given, a: Option<Resolved>, b: Option<Resolved>, commit: string -> string) {
    && (a.Some? <==> b.Some?)
    && (a.Some? ==> (a.value.range == b.value.range <==> SaysNothing(IntroducedOf(given.range.events), commit)))
  }

  lemma {:induction false} ForgottenOnRepo(given: Given, repo: string, commit: string -> string, claimed: set<string>)
    ensures AlikeExactly(given, ResolveOn(given, repo, commit, claimed),
            ResolveOn(Cleared(given), repo, commit, claimed), commit)
  {
    ClearingKeepsEnds(given.range.events);
    var a, b := ResolveOn(given, repo, commit, claimed), ResolveOn(Cleared(given), repo, commit, claimed);
    if a.Some? {
      assert a.value.range.events[1..] == b.value.range.events[1..];
      assert a.value.range.events == [a.value.range.events[0]] + a.value.range.events[1..];
      assert b.value.range.events == [b.value.range.events[0]] + b.value.range.events[1..];
    }
  }

  /** Whether and where a range resolves does not depend on its introduced version, and the result
      forgets that version exactly if it says nothing on the repository found: a converted range whose
      introduced version has no tag is the range that was never said to be introduced anywhere. */
  lemma {:induction false} IntroductionIsForgotten(given: Given, candidates: seq<Candidate>, claimed: set<string>)
    returns (k: nat)
    ensures Resolution(given, candidates, claimed).Some? <==> Resolution(Cleared(given), candidates, claimed).Some?
    ensures Resolution(given, candidates, claimed).Some? ==>
              && k < |candidates| && candidates[k].Usable?
              && Resolution(given, candidates, claimed) == OnCandidate(given, candidates[k], claimed)
              && AlikeExactly(given, Resolution(given, candidates, claimed),
                Resolution(Cleared(given), candidates, claimed), candidates[k].commit)
  {
    k := 0;
    if candidates != [] {
      var n := |candidates| - 1;
      k := IntroductionIsForgotten(given, candidates[..n], claimed);
      if candidates[n].Usable? { ForgottenOnRepo(given, candidates[n].repo, candidates[n].commit, claimed); }
      if Resolution(given, candidates[..n], claimed).None? { k := n; }
    }
  }
}
