/** Grouping version ranges that share a type, a repository and an introduced version. */
module Grouping {
  import opened Strings
  import opened Indexing
  import opened Sorting
  import opened Conversion

  // ----- cleaning the events of a group

  /** The text events are compared by. */
  function EventKey(e: RangeEvent): string { Join([e.introduced, e.fixed, e.limit, e.lastAffected], '|') }

  predicate IsIntroduced(e: RangeEvent) { e.introduced != "" }

  function Dedup(events: seq<RangeEvent>, seen: set<string>): seq<RangeEvent> {
    if events == [] then []
    else if EventKey(events[0]) in seen then Dedup(events[1..], seen)
    else [events[0]] + Dedup(events[1..], seen + {EventKey(events[0])})
  }

  predicate IntroducedFirst(a: RangeEvent, b: RangeEvent) { IsIntroduced(a) && !IsIntroduced(b) }

  /** The last loop of cleanEvents: introduced events after the first are dropped. */
  function DropLater(events: seq<RangeEvent>, introduced: string): seq<RangeEvent> {
    if events == [] then []
    else if !IsIntroduced(events[0]) then [events[0]] + DropLater(events[1..], introduced)
    else if introduced == "" then [events[0]] + DropLater(events[1..], events[0].introduced)
    else DropLater(events[1..], introduced)
  }

  function Clean(events: seq<RangeEvent>): seq<RangeEvent> { DropLater(Sort(Dedup(events, {}), IntroducedFirst), "") }

  method DedupEvents(events: seq<RangeEvent>) returns (unique: seq<RangeEvent>)
    ensures unique == Dedup(events, {})
  {
    unique := [];
    var seen: set<string> := {};
    ghost var rest := events;
    for i := 0 to |events|
      invariant rest == events[i..] && unique + Dedup(rest, seen) == Dedup(events, {})
    {
      var e := events[i];
      var key := EventKey(e);
      rest := rest[1..];
      if key in seen { continue; }
      Associative(unique, [e], Dedup(rest, seen + {key}));
      seen := seen + {key};
      unique := unique + [e];
    }
    assert unique + [] == unique;
  }

  /** cleanEvents. */
  method CleanEvents(events: seq<RangeEvent>) returns (final: seq<RangeEvent>)
    ensures final == Clean(events)
  {
    var unique := DedupEvents(events);
    var sorted := Sort(unique, IntroducedFirst);
    final := [];
    var introduced := "";
    ghost var rest := sorted;
    for i := 0 to |sorted|
      invariant rest == sorted[i..] && final + DropLater(rest, introduced) == DropLater(sorted, "")
    {
      var e := sorted[i];
      rest := rest[1..];
      if !IsIntroduced(e) {
        Associative(final, [e], DropLater(rest, introduced));
        final := final + [e];
      } else if introduced == "" {
        Associative(final, [e], DropLater(rest, e.introduced));
        final := final + [e];
        introduced := e.introduced;
      }
    }
    assert final + [] == final;
  }

  // ----- what cleaning does

  function Introductions(events: seq<RangeEvent>): (r: seq<RangeEvent>)
    ensures forall i :: 0 <= i < |r| ==> IsIntroduced(r[i])
  {
    if events == [] then []
    else if IsIntroduced(events[0]) then [events[0]] + Introductions(events[1..])
    else Introductions(events[1..])
  }

  function Others(events: seq<RangeEvent>): (r: seq<RangeEvent>)
    ensures forall i :: 0 <= i < |r| ==> !IsIntroduced(r[i])
  {
    if events == [] then []
    else if IsIntroduced(events[0]) then Others(events[1..])
    else [events[0]] + Others(events[1..])
  }

  function FirstOnly(events: seq<RangeEvent>): seq<RangeEvent> { if events == [] then [] else [events[0]] }

  lemma {:induction false} InsertIntroduced(x: RangeEvent, s: seq<RangeEvent>)
    requires IsIntroduced(x)
    ensures Insert(x, s, IntroducedFirst) == [x] + s
  {
  }

  lemma {:induction false} InsertOther(x: RangeEvent, a: seq<RangeEvent>, b: seq<RangeEvent>)
    requires !IsIntroduced(x)
    requires forall i :: 0 <= i < |a| ==> IsIntroduced(a[i])
    requires forall i :: 0 <= i < |b| ==> !IsIntroduced(b[i])
    ensures Insert(x, a + b, IntroducedFirst) == a + ([x] + b)
  {
    var s := a + b;
    if a == [] {
      assert s == b && a + ([x] + b) == [x] + b;
      assert s != [] ==> !IntroducedFirst(s[0], x);
    } else {
      assert s[0] == a[0] && s[1..] == a[1..] + b && IntroducedFirst(s[0], x);
      InsertOther(x, a[1..], b);
      assert [a[0]] + (a[1..] + ([x] + b)) == a + ([x] + b);
    }
  }

  /** The stable sort puts the introductions before the rest and keeps both in order. */
  lemma {:induction false} SortSplits(events: seq<RangeEvent>)
    ensures Sort(events, IntroducedFirst) == Introductions(events) + Others(events)
  {
    if events == [] {
    } else {
      var x, rest := events[0], events[1..];
      var a, b := Introductions(rest), Others(rest);
      SortSplits(rest);
      SortStep(x, rest, a + b, events);
      if IsIntroduced(x) {
        InsertIntroduced(x, a + b);
        Associative([x], a, b);
      } else {
        InsertOther(x, a, b);
      }
    }
  }

  lemma {:induction false} SortStep(x: RangeEvent, rest: seq<RangeEvent>, sorted: seq<RangeEvent>,
        events: seq<RangeEvent>)
    requires events != [] && events[0] == x && events[1..] == rest && Sort(rest, IntroducedFirst) == sorted
    ensures Sort(events, IntroducedFirst) == Insert(x, sorted, IntroducedFirst)
  {
  }

  lemma {:induction false} DropLaterSplits(a: seq<RangeEvent>, b: seq<RangeEvent>, introduced: string)
    requires forall i :: 0 <= i < |a| ==> IsIntroduced(a[i])
    requires forall i :: 0 <= i < |b| ==> !IsIntroduced(b[i])
    ensures DropLater(a + b, introduced) == (if introduced == "" then FirstOnly(a) else []) + b
  {
    if a != [] {
      assert (a + b)[1..] == a[1..] + b;
      DropLaterSplits(a[1..], b, if introduced == "" then a[0].introduced else introduced);
    } else if b != [] {
      assert a + b == b && [] + b[1..] == b[1..];
      DropLaterSplits([], b[1..], introduced);
    }
  }

  /** Cleaning keeps the first introduction, at the front, and then the other distinct events. */
  lemma {:induction false} CleanIs(events: seq<RangeEvent>)
    ensures var unique := Dedup(events, {}); Clean(events) == FirstOnly(Introductions(unique)) + Others(unique)
  {
    var unique := Dedup(events, {});
    SortSplits(unique);
    DropLaterSplits(Introductions(unique), Others(unique), "");
  }

  ghost predicate KeysApart(events: seq<RangeEvent>) {
    forall i, j :: 0 <= i < j < |events| ==> EventKey(events[i]) != EventKey(events[j])
  }

  lemma {:induction false} DedupApart(events: seq<RangeEvent>, seen: set<string>)
    ensures KeysApart(Dedup(events, seen))
    ensures forall i :: 0 <= i < |Dedup(events, seen)| ==> EventKey(Dedup(events, seen)[i]) !in seen
  {
    if events != [] {
      var key := EventKey(events[0]);
      if key in seen { DedupApart(events[1..], seen); } else { DedupApart(events[1..], seen + {key}); }
    }
  }

  lemma {:induction false} DedupKeepsApart(events: seq<RangeEvent>, seen: set<string>)
    requires KeysApart(events) && forall i :: 0 <= i < |events| ==> EventKey(events[i]) !in seen
    ensures Dedup(events, seen) == events
  {
    if events != [] {
      forall i | 0 <= i < |events[1..]| ensures EventKey(events[1..][i]) !in seen + {EventKey(events[0])} {
        assert events[1..][i] == events[i + 1];
      }
      DedupKeepsApart(events[1..], seen + {EventKey(events[0])});
    }
  }

  ghost predicate Within(part: seq<RangeEvent>, whole: seq<RangeEvent>) { forall e :: e in part ==> e in whole }

  lemma {:induction false} PartsWithin(events: seq<RangeEvent>)
    ensures Within(Introductions(events), events) && Within(Others(events), events)
    ensures forall e :: e in events ==> e in (if IsIntroduced(e) then Introductions(events) else Others(events))
  {
    if events != [] {
      PartsWithin(events[1..]);
      assert events == [events[0]] + events[1..];
    }
  }

  lemma {:induction false} ConsApart(x: RangeEvent, s: seq<RangeEvent>)
    requires KeysApart(s) && forall e :: e in s ==> EventKey(e) != EventKey(x)
    ensures KeysApart([x] + s)
  {
  }

  lemma {:induction false} PartsApart(events: seq<RangeEvent>)
    requires KeysApart(events)
    ensures KeysApart(Introductions(events)) && KeysApart(Others(events))
  {
    if events != [] {
      var x, rest := events[0], events[1..];
      PartsApart(rest);
      PartsWithin(rest);
      forall e | e in rest ensures EventKey(e) != EventKey(x) { }
      ConsApart(x, if IsIntroduced(x) then Introductions(rest) else Others(rest));
    }
  }

  lemma {:induction false} SplitOfSplit(a: seq<RangeEvent>, b: seq<RangeEvent>)
    requires forall i :: 0 <= i < |a| ==> IsIntroduced(a[i])
    requires forall i :: 0 <= i < |b| ==> !IsIntroduced(b[i])
    ensures Introductions(a + b) == a && Others(a + b) == b
  {
    if a != [] {
      assert (a + b)[1..] == a[1..] + b;
      SplitOfSplit(a[1..], b);
    } else if b != [] {
      assert a + b == b && [] + b[1..] == b[1..];
      SplitOfSplit([], b[1..]);
    }
  }

  lemma {:induction false} CleanApart(events: seq<RangeEvent>)
    ensures KeysApart(Clean(events))
  {
    var unique := Dedup(events, {});
    CleanIs(events);
    DedupApart(events, {});
    PartsApart(unique);
    PartsWithin(unique);
    var a, b := FirstOnly(Introductions(unique)), Others(unique);
    forall i | 0 <= i < |b| && a != [] ensures EventKey(a[0]) != EventKey(b[i]) {
      assert Introductions(unique)[0] in unique && b[i] in unique;
      SameKeySameEvent(unique, a[0], b[i]);
    }
  }

  lemma {:induction false} SameKeySameEvent(events: seq<RangeEvent>, x: RangeEvent, y: RangeEvent)
    requires KeysApart(events) && x in events && y in events && x != y
    ensures EventKey(x) != EventKey(y)
  {
    var i :| 0 <= i < |events| && events[i] == x;
    var j :| 0 <= j < |events| && events[j] == y;
  }

  /** Clean events stay as they are. */
  lemma {:induction false} CleanTwice(events: seq<RangeEvent>)
    ensures Clean(Clean(events)) == Clean(events)
  {
    var unique := Dedup(events, {});
    var a, b := FirstOnly(Introductions(unique)), Others(unique);
    CleanIs(events);
    CleanApart(events);
    DedupKeepsApart(a + b, {});
    SplitOfSplit(a, b);
    CleanIs(a + b);
  }

  // ----- which events cleaning keeps

  /** Events with the same text are the same event. */
  ghost predicate Faithful(events: seq<RangeEvent>) {
    forall a, b :: a in events && b in events && EventKey(a) == EventKey(b) ==> a == b
  }

  lemma {:induction false} DedupWithin(events: seq<RangeEvent>, seen: set<string>)
    ensures Within(Dedup(events, seen), events)
  {
    if events != [] {
      var key := EventKey(events[0]);
      DedupWithin(events[1..], if key in seen then seen else seen + {key});
      assert events == [events[0]] + events[1..];
    }
  }

  lemma {:induction false} DedupKeeps(events: seq<RangeEvent>, seen: set<string>, e: RangeEvent)
    requires e in events && EventKey(e) !in seen
    requires forall a :: a in events && EventKey(a) == EventKey(e) ==> a == e
    ensures e in Dedup(events, seen)
  {
    var x, rest := events[0], events[1..];
    assert events == [x] + rest;
    if x != e {
      DedupKeeps(rest, if EventKey(x) in seen then seen else seen + {EventKey(x)}, e);
    }
  }

  /** Deduplication by text loses no event exactly if no two different events have the same text. */
  lemma {:induction false} DedupKeepsAllExactly(events: seq<RangeEvent>)
    ensures (forall e :: e in events ==> e in Dedup(events, {})) <==> Faithful(events)
  {
    if Faithful(events) {
      forall e | e in events ensures e in Dedup(events, {}) { DedupKeeps(events, {}, e); }
    }
    if forall e :: e in events ==> e in Dedup(events, {}) {
      DedupApart(events, {});
      forall a, b | a in events && b in events && EventKey(a) == EventKey(b) ensures a == b {
        if a != b { SameKeySameEvent(Dedup(events, {}), a, b); }
      }
    }
  }

  predicate BarFree(e: RangeEvent) {
    Free(e.introduced, '|') && Free(e.fixed, '|') && Free(e.limit, '|') && Free(e.lastAffected, '|')
  }

  /** Versions without '|' keep their events apart. */
  lemma {:induction false} BarFreeIsFaithful(events: seq<RangeEvent>)
    requires forall e :: e in events ==> BarFree(e)
    ensures Faithful(events)
  {
    forall a, b | a in events && b in events && EventKey(a) == EventKey(b) ensures a == b {
      var x, y := [a.introduced, a.fixed, a.limit, a.lastAffected], [b.introduced, b.fixed, b.limit, b.lastAffected];
      SplitJoin(x, '|');
      SplitJoin(y, '|');
      assert x[0] == y[0] && x[1] == y[1] && x[2] == y[2] && x[3] == y[3];
    }
  }

  /** A '|' in a version can make two different events look alike: one of them is lost. */
  lemma {:induction false} BarHidesAnEvent(version: string, end: string)
    requires version != "" && end != ""
    ensures var a, b := NO_EVENT.(introduced := version + "|" + end),
            NO_EVENT.(introduced := version, fixed := end + "|");
            a != b && EventKey(a) == EventKey(b) && b !in Dedup([a, b], {})
  {
    var a, b := NO_EVENT.(introduced := version + "|" + end), NO_EVENT.(introduced := version, fixed := end + "|");
    KeyOfFields(version + "|" + end, "");
    KeyOfFields(version, end + "|");
    assert version + "|" + end + "|" + "" + "||" == version + "|" + (end + "|") + "||";
    DedupPair(a, b);
  }

  lemma {:induction false} DedupPair(a: RangeEvent, b: RangeEvent)
    requires EventKey(a) == EventKey(b)
    ensures Dedup([a, b], {}) == [a]
  {
    assert [a, b][1..] == [b] && [b][1..] == [];
    assert Dedup([b], {} + {EventKey(a)}) == [];
  }

  lemma {:induction false} KeyOfFields(introduced: string, fixed: string)
    ensures EventKey(NO_EVENT.(introduced := introduced, fixed := fixed)) == introduced + "|" + fixed + "||"
  {
    assert Join(["", ""], '|') == "|";
    assert Join([fixed, "", ""], '|') == fixed + "|" + "|" by { assert [fixed, "", ""][1..] == ["", ""]; }
    assert [introduced, fixed, "", ""][1..] == [fixed, "", ""];
  }

  /** All introduced events are one and the same. */
  ghost predicate OneIntroduction(events: seq<RangeEvent>) {
    forall a, b :: a in events && b in events && IsIntroduced(a) && IsIntroduced(b) ==> a == b
  }

  lemma {:induction false} FirstTwoDiffer(events: seq<RangeEvent>)
    requires KeysApart(events) && |events| >= 2
    ensures events[0] != events[1]
  {
    assert EventKey(events[0]) != EventKey(events[1]);
  }

  lemma {:induction false} AtMostOne(events: seq<RangeEvent>)
    requires KeysApart(events) && forall i, j :: 0 <= i < |events| && 0 <= j < |events| ==> events[i] == events[j]
    ensures FirstOnly(events) == events
  {
    if |events| >= 2 {
      FirstTwoDiffer(events);
      assert false;
    }
  }

  /** Cleaning keeps every event exactly if no two different events have the same text and all
      introduced events are one and the same. */
  lemma {:induction false} CleanKeepsAllExactly(events: seq<RangeEvent>)
    ensures (forall e :: e in events ==> e in Clean(events)) <==> Faithful(events) && OneIntroduction(events)
  {
    var unique := Dedup(events, {});
    var a, b := Introductions(unique), Others(unique);
    CleanIs(events);
    DedupKeepsAllExactly(events);
    DedupWithin(events, {});
    PartsWithin(unique);
    if Faithful(events) && OneIntroduction(events) {
      DedupApart(events, {});
      PartsApart(unique);
      forall i, j | 0 <= i < |a| && 0 <= j < |a| ensures a[i] == a[j] { assert a[i] in events && a[j] in events; }
      AtMostOne(a);
      forall e | e in events ensures e in Clean(events) { assert e in a || e in b; }
    }
    if forall e :: e in events ==> e in Clean(events) {
      forall e | e in events ensures e in unique { assert e in FirstOnly(a) || e in b; }
      forall x | x in events && IsIntroduced(x) ensures x in FirstOnly(a) { assert x in FirstOnly(a) + b; }
    }
  }

  /** No event twice, and no introduction but the first. */
  ghost predicate OnceEach(events: seq<RangeEvent>) {
    forall i, j :: 0 <= i < j < |events| ==> events[i] != events[j] && !IsIntroduced(events[j])
  }

  lemma {:induction false} ApartIsOnceEach(a: seq<RangeEvent>, b: seq<RangeEvent>)
    requires |a| <= 1 && KeysApart(a + b) && forall i :: 0 <= i < |b| ==> !IsIntroduced(b[i])
    ensures OnceEach(a + b)
  {
    var s := a + b;
    forall i, j | 0 <= i < j < |s| ensures s[i] != s[j] && !IsIntroduced(s[j]) {
      assert EventKey(s[i]) != EventKey(s[j]);
      assert s[j] == b[j - |a|];
    }
  }

  /** Whatever the events, cleaning invents none, keeps none twice, and leaves at most one introduction, in front. */
  lemma {:induction false} CleanIsOnceEach(events: seq<RangeEvent>)
    ensures Within(Clean(events), events) && OnceEach(Clean(events))
  {
    var unique := Dedup(events, {});
    CleanIs(events);
    CleanApart(events);
    ApartIsOnceEach(FirstOnly(Introductions(unique)), Others(unique));
    DedupWithin(events, {});
    PartsWithin(unique);
  }

  // ----- the introduced version a cleaned group is left with

  function FirstIntroducedOf(events: seq<RangeEvent>): string {
    if events == [] then ""
    else if IsIntroduced(events[0]) then events[0].introduced
    else FirstIntroducedOf(events[1..])
  }

  lemma {:induction false} FirstOfIntroductions(events: seq<RangeEvent>)
    ensures FirstIntroducedOf(events) == if Introductions(events) == [] then "" else Introductions(events)[0].introduced
  {
    if events != [] { FirstOfIntroductions(events[1..]); }
  }

  lemma {:induction false} LastAfterFirst(a: seq<RangeEvent>, b: seq<RangeEvent>)
    requires |a| <= 1 && forall i :: 0 <= i < |b| ==> !IsIntroduced(b[i])
    ensures IntroducedOf(a + b) == if a == [] then "" else a[0].introduced
  {
    if b == [] {
      assert a + b == a;
      if a != [] { assert a[..|a| - 1] == [] && IntroducedOf(a[..|a| - 1]) == ""; }
    } else {
      var n := |b| - 1;
      assert (a + b)[..|a + b| - 1] == a + b[..n] && (a + b)[|a + b| - 1] == b[n];
      LastAfterFirst(a, b[..n]);
    }
  }

  /** A cleaned group introduces the first version introduced after deduplication. */
  lemma {:induction false} CleanIntroduces(events: seq<RangeEvent>)
    ensures IntroducedOf(Clean(events)) == FirstIntroducedOf(Dedup(events, {}))
  {
    var unique := Dedup(events, {});
    CleanIs(events);
    FirstOfIntroductions(unique);
    LastAfterFirst(FirstOnly(Introductions(unique)), Others(unique));
  }

  /** No introduced version begins with the bar that separates the texts of an event. */
  predicate NoLeadingBar(events: seq<RangeEvent>) {
    forall i :: 0 <= i < |events| && IsIntroduced(events[i]) ==> events[i].introduced[0] != '|'
  }

  lemma {:induction false} KeyStart(e: RangeEvent)
    ensures EventKey(e) != "" && EventKey(e)[0] == if IsIntroduced(e) then e.introduced[0] else '|'
  {
  }

  /** Then deduplication does not hide the first introduced event. */
  lemma {:induction false} DedupKeepsFirst(events: seq<RangeEvent>, seen: set<string>)
    requires NoLeadingBar(events) && forall k :: k in seen ==> k != "" && k[0] == '|'
    ensures FirstIntroducedOf(Dedup(events, seen)) == FirstIntroducedOf(events)
  {
    if events != [] {
      KeyStart(events[0]);
      if !IsIntroduced(events[0]) {
        var key := EventKey(events[0]);
        DedupKeepsFirst(events[1..], if key in seen then seen else seen + {key});
      }
    }
  }

  // ----- grouping

  datatype GroupKey = GroupKey(kind: RangeType, repo: string, introduced: string)

  function KeyOfRange(g: Given): GroupKey { GroupKey(g.range.kind, g.range.repo, IntroducedOf(g.range.events)) }

  /** The keys in the order of their first appearance. */
  function KeyOrder(ranges: seq<Given>): seq<GroupKey> {
    if ranges == [] then []
    else
      var before, key := KeyOrder(ranges[..|ranges| - 1]), KeyOfRange(ranges[|ranges| - 1]);
      if key in before then before else before + [key]
  }

  function GroupEvents(ranges: seq<Given>, key: GroupKey): seq<RangeEvent> {
    if ranges == [] then []
    else
      var last := ranges[|ranges| - 1];
      GroupEvents(ranges[..|ranges| - 1], key) + (if KeyOfRange(last) == key then last.range.events else [])
  }

  function FirstMetadata(ranges: seq<Given>, key: GroupKey): Metadata
    requires key in KeyOrder(ranges)
  {
    var before := ranges[..|ranges| - 1];
    if key in KeyOrder(before) then FirstMetadata(before, key) else ranges[|ranges| - 1].metadata
  }

  function GroupOf(ranges: seq<Given>, key: GroupKey): Given
    requires key in KeyOrder(ranges)
  {
    Given(Range(key.kind, key.repo, Clean(GroupEvents(ranges, key))), FirstMetadata(ranges, key))
  }

  function Grouped(ranges: seq<Given>): (r: seq<Given>)
    ensures |r| == |KeyOrder(ranges)| && forall i :: 0 <= i < |r| ==> r[i] == GroupOf(ranges, KeyOrder(ranges)[i])
  {
    var order := KeyOrder(ranges);
    seq(|order|, i requires 0 <= i < |order| => GroupOf(ranges, order[i]))
  }

  /** What the map of groups holds after the first n ranges. */
  ghost predicate Collected(ranges: seq<Given>, groups: map<GroupKey, Given>) {
    && (forall k :: k in groups <==> k in KeyOrder(ranges))
    && (forall k :: k in groups ==>
      groups[k] == Given(Range(k.kind, k.repo, GroupEvents(ranges, k)), FirstMetadata(ranges, k)))
  }

  lemma {:induction false} NotYetGrouped(ranges: seq<Given>, key: GroupKey)
    requires key !in KeyOrder(ranges)
    ensures GroupEvents(ranges, key) == []
  {
    if ranges != [] { NotYetGrouped(ranges[..|ranges| - 1], key); }
  }

  /** The first loop of GroupRanges. */
  method Collect(ranges: seq<Given>) returns (groups: map<GroupKey, Given>, order: seq<GroupKey>)
    ensures order == KeyOrder(ranges) && Collected(ranges, groups)
  {
    groups, order := map[], [];
    for i := 0 to |ranges|
      invariant order == KeyOrder(ranges[..i]) && Collected(ranges[..i], groups)
    {
      var given := ranges[i];
      ghost var before := ranges[..i];
      assert ranges[..i + 1] == before + [given] && ranges[..i + 1][..i] == before;
      var introduced, fixed, lastAffected := LastValues(given.range.events);
      var key := GroupKey(given.range.kind, given.range.repo, introduced);
      if key !in groups {
        NotYetGrouped(before, key);
        groups := groups[key := Given(Range(given.range.kind, given.range.repo, []), given.metadata)];
        order := order + [key];
      }
      var group := groups[key];
      groups := groups[key := group.(range := group.range.(events := group.range.events + given.range.events))];
      CollectOne(before, given, ranges[..i + 1], key, groups);
    }
    assert ranges[..|ranges|] == ranges;
  }

  /** The second loop, for one key. */
  method CleanGroup(group: Given, ghost ranges: seq<Given>, ghost key: GroupKey) returns (r: Given)
    requires key in KeyOrder(ranges)
    requires group == Given(Range(key.kind, key.repo, GroupEvents(ranges, key)), FirstMetadata(ranges, key))
    ensures r == GroupOf(ranges, key)
  {
    var events := CleanEvents(group.range.events);
    r := group.(range := group.range.(events := events));
  }

  lemma {:induction false} TakeOneMore<T>(s: seq<T>, i: nat)
    requires i < |s|
    ensures s[..i + 1] == s[..i] + [s[i]]
  {
  }

  /** GroupRanges. */
  method GroupRanges(ranges: seq<Given>) returns (newRanges: seq<Given>)
    ensures newRanges == Grouped(ranges)
  {
    var groups, order := Collect(ranges);
    newRanges := [];
    ghost var all := Grouped(ranges);
    for i := 0 to |order|
      invariant newRanges == all[..i]
    {
      assert order[i] in groups;
      var group := CleanGroup(groups[order[i]], ranges, order[i]);
      assert group == all[i];
      TakeOneMore(all, i);
      newRanges := newRanges + [group];
    }
  }

  lemma {:induction false} CollectOne(before: seq<Given>, given: Given, after: seq<Given>, key: GroupKey,
        groups: map<GroupKey, Given>)
    requires after == before + [given] && key == KeyOfRange(given)
    requires forall k :: k in groups <==> k in KeyOrder(before) || k == key
    requires forall k :: k in KeyOrder(before) && k != key ==>
               groups[k] == Given(Range(k.kind, k.repo, GroupEvents(before, k)), FirstMetadata(before, k))
    requires groups[key] == Given(Range(key.kind, key.repo, GroupEvents(before, key) + given.range.events),
                                  if key in KeyOrder(before) then FirstMetadata(before, key) else given.metadata)
    ensures Collected(after, groups)
  {
    assert after[..|after| - 1] == before && after[|after| - 1] == given;
    forall k | k in groups ensures k in KeyOrder(after)
      && groups[k] == Given(Range(k.kind, k.repo, GroupEvents(after, k)), FirstMetadata(after, k)) {
      if k != key { assert GroupEvents(before, k) + [] == GroupEvents(before, k); }
    }
  }

  // ----- what grouping promises

  function KeysOf(ranges: seq<Given>): (keys: seq<GroupKey>)
    ensures |keys| == |ranges| && forall i :: 0 <= i < |ranges| ==> keys[i] == KeyOfRange(ranges[i])
  {
    seq(|ranges|, i requires 0 <= i < |ranges| => KeyOfRange(ranges[i]))
  }

  /** Every range's key is listed, once. */
  lemma {:induction false} KeysAreListedOnce(ranges: seq<Given>)
    ensures NoRepeats(KeyOrder(ranges)) && |KeyOrder(ranges)| <= |ranges|
    ensures forall k :: k in KeyOrder(ranges) <==> k in KeysOf(ranges)
  {
    if ranges != [] {
      var before, last := ranges[..|ranges| - 1], ranges[|ranges| - 1];
      KeysAreListedOnce(before);
      assert KeysOf(ranges) == KeysOf(before) + [KeyOfRange(last)];
    }
  }

  lemma {:induction false} LastApart(ranges: seq<Given>, before: seq<Given>, last: Given)
    requires ranges == before + [last] && NoRepeats(KeysOf(ranges))
    ensures NoRepeats(KeysOf(before)) && KeyOfRange(last) !in KeysOf(before)
    ensures KeysOf(ranges) == KeysOf(before) + [KeyOfRange(last)]
  {
    var keys, n := KeysOf(ranges), |before|;
    assert forall i :: 0 <= i < n ==> keys[i] == KeysOf(before)[i];
    assert keys[n] == KeyOfRange(last);
  }

  lemma {:induction false} ApartOrder(ranges: seq<Given>)
    requires NoRepeats(KeysOf(ranges))
    ensures KeyOrder(ranges) == KeysOf(ranges)
  {
    if ranges != [] {
      var n := |ranges| - 1;
      TakeOneMore(ranges, n);
      assert ranges[..n + 1] == ranges;
      LastApart(ranges, ranges[..n], ranges[n]);
      ApartOrder(ranges[..n]);
    }
  }

  /** A range whose key no other has is a group of its own. */
  lemma {:induction false} ApartIsAlone(ranges: seq<Given>, i: nat)
    requires NoRepeats(KeysOf(ranges)) && i < |ranges|
    ensures KeyOfRange(ranges[i]) in KeyOrder(ranges)
    ensures GroupEvents(ranges, KeyOfRange(ranges[i])) == ranges[i].range.events
    ensures FirstMetadata(ranges, KeyOfRange(ranges[i])) == ranges[i].metadata
  {
    var n := |ranges| - 1;
    var before, last := ranges[..n], ranges[n];
    TakeOneMore(ranges, n);
    assert ranges[..n + 1] == ranges;
    LastApart(ranges, before, last);
    KeysAreListedOnce(before);
    if i < n {
      ApartIsAlone(before, i);
      assert before[i] == ranges[i] && KeysOf(before)[i] != KeyOfRange(last);
      assert ranges[i].range.events + [] == ranges[i].range.events;
    } else {
      NotYetGrouped(before, KeyOfRange(last));
      assert [] + last.range.events == last.range.events;
    }
  }

  function Cleaned(g: Given): Given { g.(range := g.range.(events := Clean(g.range.events))) }

  /** Ranges with different keys are each a group of their own. */
  lemma {:induction false} ApartAreAlone(ranges: seq<Given>)
    requires NoRepeats(KeysOf(ranges))
    ensures KeyOrder(ranges) == KeysOf(ranges)
    ensures forall i :: 0 <= i < |ranges| ==> GroupOf(ranges, KeysOf(ranges)[i]) == Cleaned(ranges[i])
  {
    ApartOrder(ranges);
    forall i | 0 <= i < |ranges| ensures GroupOf(ranges, KeysOf(ranges)[i]) == Cleaned(ranges[i]) {
      ApartIsAlone(ranges, i);
    }
  }

  lemma {:induction false} RepeatsShrink(ranges: seq<Given>)
    requires !NoRepeats(KeysOf(ranges))
    ensures |KeyOrder(ranges)| < |ranges|
  {
    var n := |ranges| - 1;
    var before, last := ranges[..n], ranges[n];
    assert KeysOf(ranges) == KeysOf(before) + [KeyOfRange(last)];
    KeysAreListedOnce(before);
    if !NoRepeats(KeysOf(before)) { RepeatsShrink(before); }
  }

  /** The key of a group's range after cleaning. */
  function KeyAfter(ranges: seq<Given>, key: GroupKey): GroupKey {
    GroupKey(key.kind, key.repo, FirstIntroducedOf(Dedup(GroupEvents(ranges, key), {})))
  }

  ghost predicate Apart(ranges: seq<Given>, order: seq<GroupKey>) {
    forall k, l :: k in order && l in order && k != l ==> KeyAfter(ranges, k) != KeyAfter(ranges, l)
  }

  /** Groups of one type and repository begin, after deduplication, with different introduced versions. */
  ghost predicate BeginApart(ranges: seq<Given>) { Apart(ranges, KeyOrder(ranges)) }

  lemma {:induction false} GroupedKeys(ranges: seq<Given>)
    ensures forall i :: 0 <= i < |KeyOrder(ranges)| ==>
            KeysOf(Grouped(ranges))[i] == KeyAfter(ranges, KeyOrder(ranges)[i])
  {
    forall i | 0 <= i < |KeyOrder(ranges)| ensures KeysOf(Grouped(ranges))[i] == KeyAfter(ranges, KeyOrder(ranges)[i]) {
      CleanIntroduces(GroupEvents(ranges, KeyOrder(ranges)[i]));
    }
  }

  lemma {:induction false} ApartKeys(ranges: seq<Given>, order: seq<GroupKey>, keys: seq<GroupKey>)
    requires NoRepeats(order) && |keys| == |order|
    requires forall i :: 0 <= i < |order| ==> keys[i] == KeyAfter(ranges, order[i])
    ensures NoRepeats(keys) <==> Apart(ranges, order)
  {
    if NoRepeats(keys) {
      forall k, l | k in order && l in order && k != l ensures KeyAfter(ranges, k) != KeyAfter(ranges, l) {
        var i :| 0 <= i < |order| && order[i] == k;
        var j :| 0 <= j < |order| && order[j] == l;
        assert keys[i] != keys[j];
      }
    }
  }

  lemma {:induction false} RepeatsAreLevel(ranges: seq<Given>)
    ensures NoRepeats(KeysOf(Grouped(ranges))) <==> BeginApart(ranges)
  {
    GroupedKeys(ranges);
    KeysAreListedOnce(ranges);
    ApartKeys(ranges, KeyOrder(ranges), KeysOf(Grouped(ranges)));
  }

  /** Grouping a second time changes nothing exactly if no two groups of one type and repository
      begin, after deduplication, with the same introduced version. */
  lemma {:induction false} SecondGroupingExactly(ranges: seq<Given>)
    ensures Grouped(Grouped(ranges)) == Grouped(ranges) <==> BeginApart(ranges)
  {
    var out := Grouped(ranges);
    RepeatsAreLevel(ranges);
    if NoRepeats(KeysOf(out)) {
      ApartAreAlone(out);
      forall i | 0 <= i < |out| ensures Grouped(out)[i] == out[i] {
        CleanTwice(GroupEvents(ranges, KeyOrder(ranges)[i]));
        assert Grouped(out)[i] == GroupOf(out, KeysOf(out)[i]);
      }
    } else {
      RepeatsShrink(out);
    }
  }

  /** Each range introduces at most one version, none of them beginning with a bar. */
  ghost predicate Usual(ranges: seq<Given>) {
    forall g :: g in ranges ==> OneVersion(g.range.events, IntroducedOf(g.range.events)) && NoLeadingBar(g.range.events)
  }

  ghost predicate OneVersion(events: seq<RangeEvent>, introduced: string) {
    forall e :: e in events && IsIntroduced(e) ==> e.introduced == introduced
  }

  lemma {:induction false} GroupEventsFrom(ranges: seq<Given>, key: GroupKey, e: RangeEvent)
    ensures e in GroupEvents(ranges, key) <==> exists g :: g in ranges && KeyOfRange(g) == key && e in g.range.events
  {
    if ranges != [] {
      var before, last := ranges[..|ranges| - 1], ranges[|ranges| - 1];
      GroupEventsFrom(before, key, e);
      assert ranges == before + [last];
      assert forall g :: g in ranges <==> g in before || g == last;
    }
  }

  lemma {:induction false} UsualGroup(ranges: seq<Given>, key: GroupKey)
    requires Usual(ranges)
    ensures OneVersion(GroupEvents(ranges, key), key.introduced) && NoLeadingBar(GroupEvents(ranges, key))
  {
    var events := GroupEvents(ranges, key);
    forall e | e in events && IsIntroduced(e) ensures e.introduced == key.introduced && e.introduced[0] != '|' {
      GroupEventsFrom(ranges, key, e);
      var g :| g in ranges && KeyOfRange(g) == key && e in g.range.events;
    }
  }

  /** The last introduced value of a list that introduces one version. */
  lemma {:induction false} IntroducedIs(events: seq<RangeEvent>, introduced: string)
    requires OneVersion(events, introduced)
    ensures IntroducedOf(events) == "" <==> forall e :: e in events ==> !IsIntroduced(e)
  {
    if events != [] {
      var n := |events| - 1;
      assert events == events[..n] + [events[n]];
      if !IsIntroduced(events[n]) { IntroducedIs(events[..n], introduced); }
    }
  }

  lemma {:induction false} FirstIs(events: seq<RangeEvent>, introduced: string)
    requires OneVersion(events, introduced)
    ensures FirstIntroducedOf(events) == if exists e :: e in events && IsIntroduced(e) then introduced else ""
  {
    if events != [] {
      assert events == [events[0]] + events[1..];
      FirstIs(events[1..], introduced);
    }
  }

  /** For usual ranges a group's key is the key of the range it becomes. */
  lemma {:induction false} UsualGroupKeepsKey(ranges: seq<Given>, key: GroupKey)
    requires Usual(ranges) && key in KeyOrder(ranges)
    ensures KeyAfter(ranges, key) == key
  {
    var events := GroupEvents(ranges, key);
    UsualGroup(ranges, key);
    DedupKeepsFirst(events, {});
    FirstIs(events, key.introduced);
    if key.introduced != "" { var e := GroupIntroduces(ranges, key); }
  }

  /** A group with an introduced version has an event that introduces it. */
  lemma {:induction false} GroupIntroduces(ranges: seq<Given>, key: GroupKey) returns (e: RangeEvent)
    requires Usual(ranges) && key in KeyOrder(ranges) && key.introduced != ""
    ensures e in GroupEvents(ranges, key) && IsIntroduced(e)
  {
    KeysAreListedOnce(ranges);
    assert key in KeysOf(ranges);
    var i :| 0 <= i < |ranges| && KeysOf(ranges)[i] == key;
    var own := ranges[i].range.events;
    IntroducedIs(own, key.introduced);
    e :| e in own && IsIntroduced(e);
    GroupEventsFrom(ranges, key, e);
  }

  /** Grouping is canonical: one range for each (type, repository, introduced version), in order of
      first appearance, holding events of its group once each with the introduction first, and all of
      them exactly if cleaning loses none; and grouping again changes nothing. */
  lemma {:induction false} GroupingIsCanonical(ranges: seq<Given>)
    requires Usual(ranges)
    ensures KeysOf(Grouped(ranges)) == KeyOrder(ranges) && NoRepeats(KeyOrder(ranges))
    ensures Grouped(Grouped(ranges)) == Grouped(ranges)
    ensures forall i :: 0 <= i < |Grouped(ranges)| ==> HoldsGroup(ranges, Grouped(ranges)[i])
  {
    var out, order := Grouped(ranges), KeyOrder(ranges);
    KeysAreListedOnce(ranges);
    GroupedKeys(ranges);
    forall i | 0 <= i < |out| ensures KeyOfRange(out[i]) == order[i] && HoldsGroup(ranges, out[i]) {
      UsualGroupKeepsKey(ranges, order[i]);
      assert KeysOf(out)[i] == order[i];
      CleanIsOnceEach(GroupEvents(ranges, order[i]));
      CleanKeepsAllExactly(GroupEvents(ranges, order[i]));
    }
    assert KeysOf(out) == order;
    RepeatsAreLevel(ranges);
    SecondGroupingExactly(ranges);
  }

  /** The range holds events given under its key, once each, and all of those exactly if different
      ones differ in text and the introduction is always the same event. */
  ghost predicate HoldsGroup(ranges: seq<Given>, g: Given) {
    var events, given := g.range.events, GroupEvents(ranges, KeyOfRange(g));
    && Within(events, given) && OnceEach(events)
    && ((forall e :: e in given ==> e in events) <==> Faithful(given) && OneIntroduction(given))
  }

  /** A range with two introduced versions can make the outcome fall short of canonical: two output
      ranges share a key, and a second grouping merges them. */
  lemma {:induction false} TwoIntroductionsAreNotCanonical(a: string, b: string, m: Metadata)
    requires a != "" && b != "" && a != b && Free(a, '|') && Free(b, '|')
    ensures var x, y := NO_EVENT.(introduced := a), NO_EVENT.(introduced := b);
            var ranges := [Given(Range(ECOSYSTEM, "", [x, y]), m), Given(Range(ECOSYSTEM, "", [x]), m)];
            Grouped(Grouped(ranges)) != Grouped(ranges)
  {
    var x, y := NO_EVENT.(introduced := a), NO_EVENT.(introduced := b);
    var first, second := Given(Range(ECOSYSTEM, "", [x, y]), m), Given(Range(ECOSYSTEM, "", [x]), m);
    var ranges := [first, second];
    LastOfTwo(x, y);
    LastOfOne(x);
    assert KeysOf(ranges) == [KeyOfRange(first), KeyOfRange(second)];
    ApartAreAlone(ranges);
    var out := Grouped(ranges);
    CleanTwoIntroductions(x, y);
    CleanOne(x);
    assert out[0].range.events == [x] && out[1].range.events == [x];
    assert KeysOf(out)[0] == KeysOf(out)[1];
    RepeatsAreLevel(ranges);
    SecondGroupingExactly(ranges);
  }

  lemma {:induction false} LastOfOne(x: RangeEvent)
    requires IsIntroduced(x)
    ensures IntroducedOf([x]) == x.introduced
  {
    assert [x][|[x]| - 1] == x;
  }

  lemma {:induction false} LastOfTwo(x: RangeEvent, y: RangeEvent)
    requires IsIntroduced(y)
    ensures IntroducedOf([x, y]) == y.introduced
  {
    assert [x, y][|[x, y]| - 1] == y;
  }

  lemma {:induction false} CleanOne(x: RangeEvent)
    requires IsIntroduced(x)
    ensures Clean([x]) == [x]
  {
    DedupKeepsApart([x], {});
    SplitOfSplit([x], []);
    assert [x] + [] == [x];
    CleanIs([x]);
  }

  lemma {:induction false} CleanTwoIntroductions(x: RangeEvent, y: RangeEvent)
    requires IsIntroduced(x) && IsIntroduced(y) && BarFree(x) && BarFree(y) && x != y
    ensures Clean([x, y]) == [x]
  {
    BarFreeIsFaithful([x, y]);
    assert EventKey([x, y][0]) != EventKey([x, y][1]) by { assert x in [x, y] && y in [x, y]; }
    DedupKeepsApart([x, y], {});
    SplitOfSplit([x, y], []);
    assert [x, y] + [] == [x, y] && [x] + [] == [x];
    CleanIs([x, y]);
  }
}
