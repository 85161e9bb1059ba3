/** Version enumeration: the sweep over the events of a range with bisected slices of the
    known versions, and its agreement with the query server's nearest-event match. */
module Enumeration {
  import opened Ecosystems
  import opened Sorting
  import opened Indexing
  import opened Matching
  import opened Prefilter
  import StringSets

  // ----- the slice of one interval

  /** bisect.bisect_left on versions, by their sort keys, within [lo, hi). */
  function BisectLeft<K>(h: Helper<K>, versions: seq<string>, x: string, lo: nat, hi: nat): (k: nat)
    requires lo <= hi <= |versions|
    ensures lo <= k <= hi
    decreases hi - lo
  {
    if lo == hi then lo
    else
      var mid := (lo + hi) / 2;
      if h.VersionLt(versions[mid], x) then BisectLeft(h, versions, x, mid + 1, hi)
      else BisectLeft(h, versions, x, lo, mid)
  }

  /** bisect.bisect_right. */
  function BisectRight<K>(h: Helper<K>, versions: seq<string>, x: string, lo: nat, hi: nat): (k: nat)
    requires lo <= hi <= |versions|
    ensures lo <= k <= hi
    decreases hi - lo
  {
    if lo == hi then lo
    else
      var mid := (lo + hi) / 2;
      if h.VersionLt(x, versions[mid]) then BisectRight(h, versions, x, lo, mid)
      else BisectRight(h, versions, x, mid + 1, hi)
  }

  predicate BeforeLimits<K>(h: Helper<K>, version: string, limits: seq<string>) {
    limits == [] || "*" in limits || exists l :: l in limits && h.VersionLt(version, l)
  }

  function FilterLimits<K>(h: Helper<K>, versions: seq<string>, limits: seq<string>): seq<string> {
    if versions == [] then []
    else (if BeforeLimits(h, versions[0], limits) then [versions[0]] else []) + FilterLimits(h, versions[1..], limits)
  }

  function SliceStart<K>(h: Helper<K>, versions: seq<string>, introduced: string): (k: nat)
    ensures k <= |versions|
  {
    if introduced == "0" || introduced == "" then 0 else BisectLeft(h, versions, introduced, 0, |versions|)
  }

  function SliceEnd<K>(h: Helper<K>, versions: seq<string>, fixed: string, lastAffected: string): (k: nat)
    ensures k <= |versions|
  {
    if fixed != "" then BisectLeft(h, versions, fixed, 0, |versions|)
    else if lastAffected != "" then BisectRight(h, versions, lastAffected, 0, |versions|)
    else |versions|
  }

  /** Python's versions[start:end]. */
  function Slice(versions: seq<string>, start: nat, end: nat): seq<string>
    requires start <= |versions| && end <= |versions|
  {
    if start <= end then versions[start..end] else []
  }

  /** _get_affected_versions; an empty string is an argument that is not given. */
  function AffectedSlice<K>(h: Helper<K>, versions: seq<string>, introduced: string, fixed: string,
        lastAffected: string, limits: seq<string>): seq<string> {
    FilterLimits(h, Slice(versions, SliceStart(h, versions, introduced), SliceEnd(h, versions, fixed, lastAffected)),
      limits)
  }

  /** sort_versions. */
  function SortVersions<K>(h: Helper<K>, versions: seq<string>): seq<string> {
    Sort(versions, (a, b) => h.VersionLt(a, b))
  }

  /** enumerate_versions of a helper that slices the versions it knows. */
  function Enumerate<K>(h: Helper<K>, known: seq<string>, introduced: string, fixed: string, lastAffected: string,
        limits: seq<string>): seq<string> {
    AffectedSlice(h, SortVersions(h, known), introduced, fixed, lastAffected, limits)
  }

  // ----- what the slice contains

  ghost predicate AscendingVersions<K>(h: Helper<K>, versions: seq<string>) {
    forall i, j :: 0 <= i < j < |versions| ==> !h.VersionLt(versions[j], versions[i])
  }

  ghost predicate AllIn(versions: seq<string>, dom: string -> bool) { forall v :: v in versions ==> dom(v) }

  /** Bisecting a list whose versions below x form a prefix finds the end of that prefix. */
  lemma {:induction false} BisectLeftOnPrefix<K>(h: Helper<K>, versions: seq<string>, x: string, lo: nat, hi: nat)
    requires forall i, j :: 0 <= i <= j < |versions| && h.VersionLt(versions[j], x) ==> h.VersionLt(versions[i], x)
    requires lo <= hi <= |versions|
    requires forall i :: 0 <= i < lo ==> h.VersionLt(versions[i], x)
    requires forall i :: hi <= i < |versions| ==> !h.VersionLt(versions[i], x)
    ensures var k := BisectLeft(h, versions, x, lo, hi);
            (forall i :: 0 <= i < k ==> h.VersionLt(versions[i], x))
            && (forall i :: k <= i < |versions| ==> !h.VersionLt(versions[i], x))
    decreases hi - lo
  {
    if lo < hi {
      var mid := (lo + hi) / 2;
      if h.VersionLt(versions[mid], x) {
        BisectLeftOnPrefix(h, versions, x, mid + 1, hi);
      } else {
        BisectLeftOnPrefix(h, versions, x, lo, mid);
      }
    }
  }

  lemma {:induction false} BisectLeftSplits<K>(h: Helper<K>, versions: seq<string>, x: string, lo: nat, hi: nat,
        dom: string -> bool)
    requires OrderedOn(h, dom) && AllIn(versions, dom) && dom(x) && AscendingVersions(h, versions)
    requires lo <= hi <= |versions|
    requires forall i :: 0 <= i < lo ==> h.VersionLt(versions[i], x)
    requires forall i :: hi <= i < |versions| ==> !h.VersionLt(versions[i], x)
    ensures var k := BisectLeft(h, versions, x, lo, hi);
            (forall i :: 0 <= i < k ==> h.VersionLt(versions[i], x))
            && (forall i :: k <= i < |versions| ==> !h.VersionLt(versions[i], x))
  {
    forall i, j | 0 <= i <= j < |versions| && h.VersionLt(versions[j], x) ensures h.VersionLt(versions[i], x) {
      assert versions[i] in versions && versions[j] in versions;
    }
    BisectLeftOnPrefix(h, versions, x, lo, hi);
  }

  lemma {:induction false} BisectRightOnPrefix<K>(h: Helper<K>, versions: seq<string>, x: string, lo: nat, hi: nat)
    requires forall i, j :: 0 <= i <= j < |versions| && !h.VersionLt(x, versions[j]) ==> !h.VersionLt(x, versions[i])
    requires lo <= hi <= |versions|
    requires forall i :: 0 <= i < lo ==> !h.VersionLt(x, versions[i])
    requires forall i :: hi <= i < |versions| ==> h.VersionLt(x, versions[i])
    ensures var k := BisectRight(h, versions, x, lo, hi);
            (forall i :: 0 <= i < k ==> !h.VersionLt(x, versions[i]))
            && (forall i :: k <= i < |versions| ==> h.VersionLt(x, versions[i]))
    decreases hi - lo
  {
    if lo < hi {
      var mid := (lo + hi) / 2;
      if h.VersionLt(x, versions[mid]) {
        BisectRightOnPrefix(h, versions, x, lo, mid);
      } else {
        BisectRightOnPrefix(h, versions, x, mid + 1, hi);
      }
    }
  }

  lemma {:induction false} BisectRightSplits<K>(h: Helper<K>, versions: seq<string>, x: string, lo: nat, hi: nat,
        dom: string -> bool)
    requires OrderedOn(h, dom) && AllIn(versions, dom) && dom(x) && AscendingVersions(h, versions)
    requires lo <= hi <= |versions|
    requires forall i :: 0 <= i < lo ==> !h.VersionLt(x, versions[i])
    requires forall i :: hi <= i < |versions| ==> h.VersionLt(x, versions[i])
    ensures var k := BisectRight(h, versions, x, lo, hi);
            (forall i :: 0 <= i < k ==> !h.VersionLt(x, versions[i]))
            && (forall i :: k <= i < |versions| ==> h.VersionLt(x, versions[i]))
  {
    forall i, j | 0 <= i <= j < |versions| && !h.VersionLt(x, versions[j]) ensures !h.VersionLt(x, versions[i]) {
      assert versions[i] in versions && versions[j] in versions;
    }
    BisectRightOnPrefix(h, versions, x, lo, hi);
  }

  /** In the interval from introduced to fixed (exclusive) or last_affected (inclusive). */
  predicate InInterval<K>(h: Helper<K>, v: string, introduced: string, fixed: string, lastAffected: string) {
    && (introduced != "" ==> !h.VersionLt(v, introduced))
    && (if fixed != "" then h.VersionLt(v, fixed) else lastAffected != "" ==> !h.VersionLt(lastAffected, v))
  }

  lemma {:induction false} StartSplits<K>(h: Helper<K>, versions: seq<string>, introduced: string, dom: string -> bool)
    requires OrderedOn(h, dom) && AllIn(versions, dom) && (introduced != "" ==> dom(introduced))
    requires AscendingVersions(h, versions)
    ensures forall i :: 0 <= i < |versions| ==>
              (SliceStart(h, versions, introduced) <= i <==> introduced == "" || !h.VersionLt(versions[i], introduced))
  {
    if introduced != "" {
      BisectLeftSplits(h, versions, introduced, 0, |versions|, dom);
      forall i | 0 <= i < |versions|
        ensures SliceStart(h, versions, introduced) <= i <==> !h.VersionLt(versions[i], introduced)
      {
      }
    } else {
      assert SliceStart(h, versions, introduced) == 0;
    }
  }

  lemma {:induction false} EndSplits<K>(h: Helper<K>, versions: seq<string>, fixed: string, lastAffected: string,
        dom: string -> bool)
    requires OrderedOn(h, dom) && AllIn(versions, dom) && AscendingVersions(h, versions)
    requires (fixed != "" ==> dom(fixed)) && (lastAffected != "" ==> dom(lastAffected))
    ensures forall i :: 0 <= i < |versions| ==>
              (i < SliceEnd(h, versions, fixed, lastAffected) <==>
               if fixed != "" then h.VersionLt(versions[i], fixed)
               else lastAffected == "" || !h.VersionLt(lastAffected, versions[i]))
  {
    if fixed != "" {
      BisectLeftSplits(h, versions, fixed, 0, |versions|, dom);
      forall i | 0 <= i < |versions|
        ensures i < SliceEnd(h, versions, fixed, lastAffected) <==> h.VersionLt(versions[i], fixed)
      {
      }
    } else if lastAffected != "" {
      BisectRightSplits(h, versions, lastAffected, 0, |versions|, dom);
      forall i | 0 <= i < |versions|
        ensures i < SliceEnd(h, versions, fixed, lastAffected) <==> !h.VersionLt(lastAffected, versions[i])
      {
      }
    } else {
      assert SliceEnd(h, versions, fixed, lastAffected) == |versions|;
    }
  }

  lemma {:induction false} InSlice(versions: seq<string>, start: nat, end: nat, v: string)
    requires start <= |versions| && end <= |versions|
    ensures v in Slice(versions, start, end) <==>
            exists i :: 0 <= i < |versions| && start <= i < end && versions[i] == v
  {
    var slice := Slice(versions, start, end);
    if v in slice {
      var k :| 0 <= k < |slice| && slice[k] == v;
      assert versions[start + k] == v;
    }
    if i :| 0 <= i < |versions| && start <= i < end && versions[i] == v {
      assert slice[i - start] == v;
    }
  }

  lemma {:induction false} InFiltered<K>(h: Helper<K>, versions: seq<string>, limits: seq<string>, v: string)
    ensures v in FilterLimits(h, versions, limits) <==> v in versions && BeforeLimits(h, v, limits)
  {
    if versions != [] {
      assert versions == [versions[0]] + versions[1..];
      InFiltered(h, versions[1..], limits, v);
    }
  }

  /** The bisected slice is the filter introduced <= v < fixed (or <= last_affected), before some limit. */
  lemma {:induction false} SliceIsInterval<K>(h: Helper<K>, versions: seq<string>, introduced: string, fixed: string,
        lastAffected: string, limits: seq<string>, dom: string -> bool, v: string)
    requires OrderedOn(h, dom) && AllIn(versions, dom) && AscendingVersions(h, versions)
    requires (introduced != "" ==> dom(introduced)) && (fixed != "" ==> dom(fixed))
    requires (lastAffected != "" ==> dom(lastAffected))
    ensures v in AffectedSlice(h, versions, introduced, fixed, lastAffected, limits) <==>
            v in versions && InInterval(h, v, introduced, fixed, lastAffected) && BeforeLimits(h, v, limits)
  {
    var start, end := SliceStart(h, versions, introduced), SliceEnd(h, versions, fixed, lastAffected);
    StartSplits(h, versions, introduced, dom);
    EndSplits(h, versions, fixed, lastAffected, dom);
    InFiltered(h, Slice(versions, start, end), limits, v);
    InSlice(versions, start, end, v);
  }

  lemma {:induction false} EnumerateIsInterval<K>(h: Helper<K>, known: seq<string>, introduced: string, fixed: string,
        lastAffected: string, dom: string -> bool, v: string)
    requires OrderedOn(h, dom) && AllIn(known, dom)
    requires (introduced != "" ==> dom(introduced)) && (fixed != "" ==> dom(fixed))
    requires (lastAffected != "" ==> dom(lastAffected))
    ensures v in Enumerate(h, known, introduced, fixed, lastAffected, []) <==>
            v in known && InInterval(h, v, introduced, fixed, lastAffected)
  {
    var less := (a: string, b: string) => h.VersionLt(a, b);
    var sorted := SortVersions(h, known);
    assert WeakOrderOn(known, less);
    SortSorted(known, less);
    SameElements(sorted, known);
    forall i, j | 0 <= i < j < |sorted| ensures !h.VersionLt(sorted[j], sorted[i]) {
      assert !less(sorted[j], sorted[i]);
    }
    SliceIsInterval(h, sorted, introduced, fixed, lastAffected, [], dom, v);
  }

  // ----- the sweep

  /** The value the sweep sorts an event by. */
  function EventValue(e: RangeEvent): string {
    if e.introduced != "" then e.introduced else if e.fixed != "" then e.fixed else e.lastAffected
  }

  /** The events of the sweep, without zero events and limits. */
  function OrdinaryEvents(events: seq<RangeEvent>): seq<RangeEvent> {
    if events == [] then []
    else
      var e := events[0];
      (if e.introduced != "0" && (e.introduced != "" || e.fixed != "" || e.lastAffected != "") then [e] else [])
      + OrdinaryEvents(events[1..])
  }

  /** The last event that introduces '0'. */
  function ZeroEvent(events: seq<RangeEvent>): Option<RangeEvent> {
    if events == [] then None
    else
      var rest := ZeroEvent(events[1..]);
      if rest.Some? then rest else if events[0].introduced == "0" then Some(events[0]) else None
  }

  function LimitsOf(events: seq<RangeEvent>): seq<string> {
    if events == [] then []
    else
      var e := events[0];
      (if e.introduced == "" && e.fixed == "" && e.lastAffected == "" && e.limit != "" then [e.limit] else [])
      + LimitsOf(events[1..])
  }

  function SweepOrder<K>(h: Helper<K>, events: seq<RangeEvent>): seq<RangeEvent> {
    var sorted := Sort(OrdinaryEvents(events), (a, b) => h.VersionLt(EventValue(a), EventValue(b)));
    match ZeroEvent(events) case Some(z) => [z] + sorted case None => sorted
  }

  /** The versions the sweep collects from `events`, with `open` the pending introduced. */
  function Sweep<K>(h: Helper<K>, known: seq<string>, events: seq<RangeEvent>, open: string, limits: seq<string>)
    : set<string>
    decreases |events|
  {
    if events == [] then
      if open != "" then StringSets.Elements(Enumerate(h, known, open, "", "", limits)) else {}
    else
      var e := events[0];
      var open1 := if e.introduced != "" && open == "" then e.introduced else open;
      var closes := open1 != "" && e.fixed != "";
      var open2 := if closes then "" else open1;
      var ends := open2 != "" && e.lastAffected != "";
      (if closes then StringSets.Elements(Enumerate(h, known, open1, e.fixed, "", limits)) else {})
      + (if ends then StringSets.Elements(Enumerate(h, known, open2, "", e.lastAffected, limits)) else {})
      + Sweep(h, known, events[1..], if ends then "" else open2, limits)
  }

  function Enumerated<K>(h: Helper<K>, known: seq<string>, events: seq<RangeEvent>): set<string> {
    Sweep(h, known, SweepOrder(h, events), "", LimitsOf(events))
  }

  /** The first loop of enumerate_versions: zero event, ordinary events, limits. */
  method SplitEvents(events: seq<RangeEvent>)
    returns (zero: Option<RangeEvent>, ordinary: seq<RangeEvent>, limits: seq<string>)
    ensures zero == ZeroEvent(events) && ordinary == OrdinaryEvents(events) && limits == LimitsOf(events)
  {
    zero, ordinary, limits := None, [], [];
    ghost var todo := events;
    for i := 0 to |events|
      invariant todo == events[i..]
      invariant ZeroEvent(events) == if ZeroEvent(todo).Some? then ZeroEvent(todo) else zero
      invariant ordinary + OrdinaryEvents(todo) == OrdinaryEvents(events)
      invariant limits + LimitsOf(todo) == LimitsOf(events)
    {
      var e := events[i];
      todo := todo[1..];
      if e.introduced == "0" {
        zero := Some(e);
      } else if e.introduced != "" || e.fixed != "" || e.lastAffected != "" {
        Associative(ordinary, [e], OrdinaryEvents(todo));
        ordinary := ordinary + [e];
      } else if e.limit != "" {
        Associative(limits, [e.limit], LimitsOf(todo));
        limits := limits + [e.limit];
      }
    }
  }

  /** The second loop: the sweep itself. */
  method RunSweep<K>(h: Helper<K>, known: seq<string>, events: seq<RangeEvent>, limits: seq<string>)
    returns (versions: set<string>)
    ensures versions == Sweep(h, known, events, "", limits)
  {
    versions := {};
    var lastIntroduced := "";
    ghost var todo := events;
    for i := 0 to |events|
      invariant todo == events[i..]
      invariant versions + Sweep(h, known, todo, lastIntroduced, limits) == Sweep(h, known, events, "", limits)
    {
      var e := events[i];
      todo := todo[1..];
      if e.introduced != "" && lastIntroduced == "" {
        lastIntroduced := e.introduced;
      }
      if lastIntroduced != "" && e.fixed != "" {
        versions := versions + StringSets.Elements(Enumerate(h, known, lastIntroduced, e.fixed, "", limits));
        lastIntroduced := "";
      }
      if lastIntroduced != "" && e.lastAffected != "" {
        versions := versions + StringSets.Elements(Enumerate(h, known, lastIntroduced, "", e.lastAffected, limits));
        lastIntroduced := "";
      }
    }
    if lastIntroduced != "" {
      versions := versions + StringSets.Elements(Enumerate(h, known, lastIntroduced, "", "", limits));
    }
  }

  /** impact.enumerate_versions: the swept set, each version once. */
  method EnumerateVersions<K>(h: Helper<K>, known: seq<string>, events: seq<RangeEvent>) returns (versions: seq<string>)
    ensures StringSets.Elements(versions) == Enumerated(h, known, events)
    ensures |versions| == |Enumerated(h, known, events)|
    ensures exists list :: versions == SortVersions(h, list)
  {
    var zero, ordinary, limits := SplitEvents(events);
    var sorted := Sort(ordinary, (a, b) => h.VersionLt(EventValue(a), EventValue(b)));
    if zero.Some? { sorted := [zero.value] + sorted; }
    var found := RunSweep(h, known, sorted, limits);
    var list := ListOf(found);
    versions := SortVersions(h, list);
    SameElements(versions, list);
  }

  method ListOf(s: set<string>) returns (list: seq<string>)
    ensures StringSets.Elements(list) == s && |list| == |s|
  {
    list := [];
    var rest := s;
    while rest != {}
      invariant StringSets.Elements(list) + rest == s && StringSets.Elements(list) !! rest && |list| + |rest| == |s|
      decreases rest
    {
      var v :| v in rest;
      list := list + [v];
      rest := rest - {v};
    }
  }

  // ----- agreement with the nearest-event match

  /** One field is set, and it is not limit. */
  predicate SingleField(e: RangeEvent) {
    && e.limit == ""
    && ((e.introduced != "" && e.fixed == "" && e.lastAffected == "")
        || (e.introduced == "" && e.fixed != "" && e.lastAffected == "")
        || (e.introduced == "" && e.fixed == "" && e.lastAffected != ""))
  }

  function AsAffected(e: RangeEvent): AffectedEvent
    requires SingleField(e)
  {
    if e.introduced != "" then AffectedEvent(Introduced, e.introduced)
    else if e.fixed != "" then AffectedEvent(Fixed, e.fixed)
    else AffectedEvent(LastAffected, e.lastAffected)
  }

  predicate SingleFields(events: seq<RangeEvent>) { forall i :: 0 <= i < |events| ==> SingleField(events[i]) }

  ghost predicate DistinctKeys<K>(h: Helper<K>, events: seq<RangeEvent>) {
    forall i, j :: 0 <= i < j < |events| ==> !h.VersionEq(EventValue(events[i]), EventValue(events[j]))
  }

  ghost predicate StrictlyAscending<K>(h: Helper<K>, events: seq<AffectedEvent>) {
    forall i, j :: 0 <= i < j < |events| ==> h.VersionLt(events[i].value, events[j].value)
  }

  /** How many leading events are at or below v. */
  function CountBelow<K>(h: Helper<K>, events: seq<AffectedEvent>, v: string): (c: nat)
    ensures c <= |events|
    ensures forall i :: 0 <= i < c ==> !h.VersionLt(v, events[i].value)
    ensures c < |events| ==> h.VersionLt(v, events[c].value)
  {
    if events == [] || h.VersionLt(v, events[0].value) then 0
    else
      assert forall i :: 1 <= i < |events| ==> events[i] == events[1..][i - 1];
      1 + CountBelow(h, events[1..], v)
  }

  lemma {:induction false} AboveCount<K>(h: Helper<K>, events: seq<AffectedEvent>, v: string, dom: string -> bool)
    requires OrderedOn(h, dom) && ValuesIn(events, dom) && dom(v) && StrictlyAscending(h, events)
    ensures forall i :: CountBelow(h, events, v) <= i < |events| ==> h.VersionLt(v, events[i].value)
  {
    var c := CountBelow(h, events, v);
    forall i | c <= i < |events| ensures h.VersionLt(v, events[i].value) {
      assert events[c] in events && events[i] in events;
      if i > c { assert h.VersionLt(events[c].value, events[i].value); }
    }
  }

  /** The reverse scan is decided by the last event at or below v. */
  lemma {:induction false} NearestByCount<K>(h: Helper<K>, events: seq<AffectedEvent>, v: string, c: nat,
        dom: string -> bool)
    requires OrderedOn(h, dom) && ValuesIn(events, dom) && dom(v) && c <= |events|
    requires forall i :: 0 <= i < c ==> !h.VersionLt(v, events[i].value)
    requires forall i :: c <= i < |events| ==> h.VersionLt(v, events[i].value)
    ensures NearestEventAccepts(h, v, events) <==>
            c > 0 && (events[c - 1].kind == Introduced
              || (events[c - 1].kind == LastAffected && h.VersionEq(events[c - 1].value, v)))
  {
    if events != [] {
      var n := |events| - 1;
      assert events[n] in events;
      if c <= n {
        assert forall e :: e in events[..n] ==> e in events;
        NearestByCount(h, events[..n], v, c, dom);
      }
    }
  }

  /** Whether the sweep puts v in some interval, from `open` on. */
  predicate SweepHits<K>(h: Helper<K>, events: seq<AffectedEvent>, open: string, v: string) {
    if events == [] then open != "" && !h.VersionLt(v, open)
    else
      var e := events[0];
      match e.kind
      case Introduced => SweepHits(h, events[1..], if open == "" then e.value else open, v)
      case Fixed => (open != "" && InInterval(h, v, open, e.value, "")) || SweepHits(h, events[1..], "", v)
      case LastAffected => (open != "" && InInterval(h, v, open, "", e.value)) || SweepHits(h, events[1..], "", v)
      case Limit => SweepHits(h, events[1..], open, v)
  }

  lemma {:induction false} ConvertSingle(events: seq<RangeEvent>)
    requires SingleFields(events)
    ensures |ConvertEvents(events)| == |events|
    ensures forall i :: 0 <= i < |events| ==> ConvertEvents(events)[i] == AsAffected(events[i])
  {
    if events != [] { ConvertSingle(events[1..]); }
  }

  /** What the sweep collects at an event that closes the pending introduced. */
  function Closed<K>(h: Helper<K>, known: seq<string>, open: string, e: RangeEvent): set<string> {
    if open == "" then {} else StringSets.Elements(Enumerate(h, known, open, e.fixed, e.lastAffected, []))
  }

  /** One step of the sweep on an event with a single field. */
  lemma {:induction false} SweepStep<K>(h: Helper<K>, known: seq<string>, events: seq<RangeEvent>, open: string)
    requires events != [] && SingleField(events[0])
    ensures var e, rest := events[0], events[1..];
            Sweep(h, known, events, open, []) ==
            if e.introduced != "" then Sweep(h, known, rest, if open == "" then e.introduced else open, [])
            else Closed(h, known, open, e) + Sweep(h, known, rest, "", [])
  {
  }

  lemma {:induction false} HitsStep<K>(h: Helper<K>, events: seq<RangeEvent>, open: string, v: string)
    requires events != [] && SingleField(events[0])
    ensures var e, rest := events[0], ConvertEvents(events[1..]);
            SweepHits(h, ConvertEvents(events), open, v) <==>
            if e.introduced != "" then SweepHits(h, rest, if open == "" then e.introduced else open, v)
            else (open != "" && InInterval(h, v, open, e.fixed, e.lastAffected)) || SweepHits(h, rest, "", v)
  {
    assert ConvertEvents(events) == [AsAffected(events[0])] + ConvertEvents(events[1..]);
    assert ConvertEvents(events)[1..] == ConvertEvents(events[1..]);
  }

  /** The set the sweep collects, element by element. */
  lemma {:induction false} SweepByElement<K>(h: Helper<K>, known: seq<string>, events: seq<RangeEvent>, open: string,
        dom: string -> bool, v: string)
    requires OrderedOn(h, dom) && AllIn(known, dom) && (open != "" ==> dom(open))
    requires SingleFields(events) && forall i :: 0 <= i < |events| ==> dom(EventValue(events[i]))
    ensures v in Sweep(h, known, events, open, []) <==> v in known && SweepHits(h, ConvertEvents(events), open, v)
    decreases |events|
  {
    if events == [] {
      if open != "" { EnumerateIsInterval(h, known, open, "", "", dom, v); }
    } else {
      var e := events[0];
      assert dom(EventValue(e));
      var next := if e.introduced != "" then (if open == "" then e.introduced else open) else "";
      SweepStep(h, known, events, open);
      HitsStep(h, events, open, v);
      SweepByElement(h, known, events[1..], next, dom, v);
      if e.introduced == "" && open != "" {
        EnumerateIsInterval(h, known, open, e.fixed, e.lastAffected, dom, v);
      }
    }
  }

  ghost predicate ClosingValues(events: seq<AffectedEvent>) {
    forall i :: 0 <= i < |events| ==> events[i].kind != Limit && events[i].value != ""
  }

  /** After the last event at or below v, only a pending introduced can affect v. */
  lemma {:induction false} SweepAbove<K>(h: Helper<K>, events: seq<AffectedEvent>, open: string, v: string,
        dom: string -> bool)
    requires OrderedOn(h, dom) && ValuesIn(events, dom) && dom(v) && (open != "" ==> dom(open))
    requires ClosingValues(events) && (open != "" ==> !h.VersionLt(v, open))
    requires forall i :: 0 <= i < |events| ==> h.VersionLt(v, events[i].value)
    ensures SweepHits(h, events, open, v) <==> open != ""
    decreases |events|
  {
    if events != [] {
      assert events[0] in events;
      assert forall e :: e in events[1..] ==> e in events;
      if events[0].kind == Introduced && open == "" {
        NeverReached(h, events[1..], events[0].value, v, dom);
      } else {
        SweepAbove(h, events[1..], if events[0].kind == Introduced then open else "", v, dom);
      }
    }
  }

  function NextOpen(e: AffectedEvent, open: string): string {
    if e.kind != Introduced then "" else if open == "" then e.value else open
  }

  /** An interval that opens above v does not contain it. */
  lemma {:induction false} NeverReached<K>(h: Helper<K>, events: seq<AffectedEvent>, open: string, v: string,
        dom: string -> bool)
    requires OrderedOn(h, dom) && ValuesIn(events, dom) && dom(v) && (open != "" ==> dom(open))
    requires ClosingValues(events) && (open != "" ==> h.VersionLt(v, open))
    requires forall i :: 0 <= i < |events| ==> h.VersionLt(v, events[i].value)
    ensures !SweepHits(h, events, open, v)
    decreases |events|
  {
    if events != [] {
      assert events[0] in events;
      assert forall e :: e in events[1..] ==> e in events;
      NeverReached(h, events[1..], NextOpen(events[0], open), v, dom);
    }
  }

  /** One step on an event at or below v: only an equal last_affected can add v. */
  lemma {:induction false} StepBelow<K>(h: Helper<K>, events: seq<AffectedEvent>, open: string, v: string)
    requires events != [] && events[0].kind != Limit && events[0].value != ""
    requires !h.VersionLt(v, events[0].value) && (open != "" ==> !h.VersionLt(v, open))
    ensures SweepHits(h, events, open, v) <==>
            || (events[0].kind == LastAffected && open != "" && !h.VersionLt(events[0].value, v))
            || SweepHits(h, events[1..], NextOpen(events[0], open), v)
  {
  }

  /** The decision, as a function of the events at or below v. */
  ghost predicate Decision<K>(h: Helper<K>, events: seq<AffectedEvent>, open: string, v: string, c: nat)
    requires c <= |events|
  {
    if c == 0 then open != ""
    else
      var e := events[c - 1];
      || e.kind == Introduced
      || (e.kind == LastAffected && h.VersionEq(e.value, v)
        && if c == 1 then open != "" else events[c - 2].kind == Introduced)
  }

  lemma {:induction false} DecisionStep<K>(h: Helper<K>, events: seq<AffectedEvent>, rest: seq<AffectedEvent>,
        open: string, v: string, c: nat)
    requires 1 <= c <= |events| && rest == events[1..] && events[0].kind != Limit && events[0].value != ""
    requires h.VersionEq(events[0].value, v) <==> !h.VersionLt(events[0].value, v)
    requires c > 1 ==> h.VersionLt(events[0].value, v)
    ensures Decision(h, events, open, v, c) <==>
            || (events[0].kind == LastAffected && open != "" && !h.VersionLt(events[0].value, v))
            || Decision(h, rest, NextOpen(events[0], open), v, c - 1)
  {
    if c > 1 { assert rest[c - 2] == events[c - 1]; }
    if c > 2 { assert rest[c - 3] == events[c - 2]; }
  }

  /** The sweep is decided by the last event at or below v and what precedes it. */
  lemma {:induction false} SweepByCount<K>(h: Helper<K>, events: seq<AffectedEvent>, open: string, v: string, c: nat,
        dom: string -> bool)
    requires OrderedOn(h, dom) && ValuesIn(events, dom) && dom(v) && (open != "" ==> dom(open)) && c <= |events|
    requires ClosingValues(events) && StrictlyAscending(h, events) && (open != "" ==> !h.VersionLt(v, open))
    requires forall i :: 0 <= i < c ==> !h.VersionLt(v, events[i].value)
    requires forall i :: c <= i < |events| ==> h.VersionLt(v, events[i].value)
    ensures SweepHits(h, events, open, v) <==> Decision(h, events, open, v, c)
    decreases |events|
  {
    if c == 0 {
      SweepAbove(h, events, open, v, dom);
    } else {
      var e, rest := events[0], events[1..];
      assert e in events && dom(e.value);
      assert forall x :: x in rest ==> x in events;
      assert forall i :: 0 <= i < |rest| ==> rest[i] == events[i + 1];
      StepBelow(h, events, open, v);
      SweepByCount(h, rest, NextOpen(e, open), v, c - 1, dom);
      if c > 1 { EarlierIsBelow(h, events, v, dom); }
      DecisionStep(h, events, rest, open, v, c);
    }
  }

  lemma {:induction false} EarlierIsBelow<K>(h: Helper<K>, events: seq<AffectedEvent>, v: string, dom: string -> bool)
    requires OrderedOn(h, dom) && ValuesIn(events, dom) && dom(v) && StrictlyAscending(h, events)
    requires |events| > 1 && !h.VersionLt(v, events[1].value)
    ensures h.VersionLt(events[0].value, v) && !h.VersionEq(events[0].value, v)
  {
    assert events[0] in events && events[1] in events;
    assert h.VersionLt(events[0].value, events[1].value);
  }

  /** v is the version of a last_affected event that no introduced event directly precedes. */
  predicate OrphanHit<K>(h: Helper<K>, events: seq<AffectedEvent>, v: string) {
    exists i :: 0 <= i < |events| && events[i].kind == LastAffected && h.VersionEq(events[i].value, v)
      && (i == 0 || events[i - 1].kind != Introduced)
  }

  lemma {:induction false} SweepAgainstNearest<K>(h: Helper<K>, events: seq<AffectedEvent>, v: string,
        dom: string -> bool)
    requires OrderedOn(h, dom) && ValuesIn(events, dom) && dom(v)
    requires ClosingValues(events) && StrictlyAscending(h, events)
    ensures SweepHits(h, events, "", v) <==> NearestEventAccepts(h, v, events) && !OrphanHit(h, events, v)
  {
    var c := CountBelow(h, events, v);
    AboveCount(h, events, v, dom);
    NearestByCount(h, events, v, c, dom);
    SweepByCount(h, events, "", v, c, dom);
    forall i | 0 <= i < |events| && h.VersionEq(events[i].value, v) ensures i == c - 1 {
      assert events[i] in events && !h.VersionLt(v, events[i].value);
      OnlyLastIsEqual(h, events, v, c, i, dom);
    }
  }

  lemma {:induction false} OnlyLastIsEqual<K>(h: Helper<K>, events: seq<AffectedEvent>, v: string, c: nat, i: nat,
        dom: string -> bool)
    requires OrderedOn(h, dom) && ValuesIn(events, dom) && dom(v) && StrictlyAscending(h, events)
    requires i < c <= |events| && !h.VersionLt(v, events[c - 1].value)
    ensures i < c - 1 ==> !h.VersionEq(events[i].value, v)
  {
    assert events[i] in events && events[c - 1] in events;
  }

  // ----- both evaluators see the same order of events

  lemma {:induction false} MapInsert<K>(h: Helper<K>, x: RangeEvent, s: seq<RangeEvent>,
        byValue: (RangeEvent, RangeEvent) -> bool, byEvent: (AffectedEvent, AffectedEvent) -> bool)
    requires SingleField(x) && SingleFields(s)
    requires forall y :: y in s && SingleField(y) ==> byEvent(AsAffected(y), AsAffected(x)) == byValue(y, x)
    ensures SingleFields(Insert(x, s, byValue))
    ensures ConvertEvents(Insert(x, s, byValue)) == Insert(AsAffected(x), ConvertEvents(s), byEvent)
  {
    if s == [] {
      ConvertCons(x, []);
      assert [x] + [] == [x] && [AsAffected(x)] + [] == [AsAffected(x)];
    } else {
      var y, rest := s[0], s[1..];
      assert y in s && [y] + rest == s;
      ConvertCons(y, rest);
      if byValue(y, x) {
        MapInsert(h, x, rest, byValue, byEvent);
        ConvertCons(y, Insert(x, rest, byValue));
      } else {
        ConvertCons(x, s);
      }
    }
  }

  lemma {:induction false} ConvertCons(x: RangeEvent, s: seq<RangeEvent>)
    requires SingleField(x)
    ensures ConvertEvents([x] + s) == [AsAffected(x)] + ConvertEvents(s)
    ensures SingleFields(s) ==> SingleFields([x] + s)
  {
    assert ([x] + s)[1..] == s;
  }

  lemma {:induction false} SortCons<T>(x: T, s: seq<T>, less: (T, T) -> bool)
    ensures Sort([x] + s, less) == Insert(x, Sort(s, less), less)
  {
    assert ([x] + s)[1..] == s;
  }

  lemma {:induction false} MapSort<K>(h: Helper<K>, s: seq<RangeEvent>, byValue: (RangeEvent, RangeEvent) -> bool,
        byEvent: (AffectedEvent, AffectedEvent) -> bool)
    requires SingleFields(s)
    requires forall i, j :: 0 <= i < j < |s| ==> byEvent(AsAffected(s[j]), AsAffected(s[i])) == byValue(s[j], s[i])
    ensures SingleFields(Sort(s, byValue))
    ensures ConvertEvents(Sort(s, byValue)) == Sort(ConvertEvents(s), byEvent)
  {
    if s != [] {
      var x, rest := s[0], s[1..];
      assert [x] + rest == s;
      MapSort(h, rest, byValue, byEvent);
      OrdersAgreeOnTail(s, byValue, byEvent);
      MapInsert(h, x, Sort(rest, byValue), byValue, byEvent);
      SortCons(x, rest, byValue);
      ConvertCons(x, rest);
      SortCons(AsAffected(x), ConvertEvents(rest), byEvent);
    }
  }

  lemma {:induction false} OrdersAgreeOnTail(s: seq<RangeEvent>, byValue: (RangeEvent, RangeEvent) -> bool,
        byEvent: (AffectedEvent, AffectedEvent) -> bool)
    requires s != [] && SingleFields(s)
    requires forall i, j :: 0 <= i < j < |s| ==> byEvent(AsAffected(s[j]), AsAffected(s[i])) == byValue(s[j], s[i])
    ensures forall y :: y in Sort(s[1..], byValue) && SingleField(y) ==>
            byEvent(AsAffected(y), AsAffected(s[0])) == byValue(y, s[0])
  {
    var t := Sort(s[1..], byValue);
    SameElements(t, s[1..]);
    forall y | y in t && SingleField(y) ensures byEvent(AsAffected(y), AsAffected(s[0])) == byValue(y, s[0]) {
      var j :| 0 <= j < |s[1..]| && s[1..][j] == y;
      assert s[j + 1] == y;
    }
  }

  ghost predicate KeysIn(events: seq<RangeEvent>, dom: string -> bool) {
    forall i :: 0 <= i < |events| ==> dom(EventValue(events[i]))
  }

  /** A well-formed range: one field per event, no limits, no two equal versions. */
  ghost predicate WellFormedRange<K>(h: Helper<K>, events: seq<RangeEvent>, dom: string -> bool) {
    SingleFields(events) && DistinctKeys(h, events) && KeysIn(events, dom)
  }

  lemma {:induction false} WellFormedTail<K>(h: Helper<K>, events: seq<RangeEvent>, dom: string -> bool)
    requires events != [] && WellFormedRange(h, events, dom)
    ensures WellFormedRange(h, events[1..], dom)
    ensures forall y :: y in events[1..] ==> !h.VersionEq(EventValue(events[0]), EventValue(y))
  {
    assert forall i :: 0 <= i < |events[1..]| ==> events[1..][i] == events[i + 1];
  }

  lemma {:induction false} NoLimits(events: seq<RangeEvent>)
    requires SingleFields(events)
    ensures LimitsOf(events) == []
  {
    if events != [] { NoLimits(events[1..]); }
  }

  lemma {:induction false} OrdinaryAreEvents<K>(h: Helper<K>, events: seq<RangeEvent>, dom: string -> bool)
    requires WellFormedRange(h, events, dom)
    ensures WellFormedRange(h, OrdinaryEvents(events), dom)
    ensures forall y :: y in OrdinaryEvents(events) ==> y in events && y.introduced != "0"
  {
    if events != [] {
      var e, rest := events[0], events[1..];
      WellFormedTail(h, events, dom);
      OrdinaryAreEvents(h, rest, dom);
      if e.introduced != "0" { PrependWellFormed(h, e, OrdinaryEvents(rest), dom); }
    }
  }

  lemma {:induction false} PrependWellFormed<K>(h: Helper<K>, e: RangeEvent, rest: seq<RangeEvent>, dom: string -> bool)
    requires SingleField(e) && dom(EventValue(e)) && WellFormedRange(h, rest, dom)
    requires forall y :: y in rest ==> !h.VersionEq(EventValue(e), EventValue(y))
    ensures WellFormedRange(h, [e] + rest, dom)
  {
    var all := [e] + rest;
    forall i, j | 0 <= i < j < |all| ensures !h.VersionEq(EventValue(all[i]), EventValue(all[j])) {
      assert all[j] in rest;
    }
  }

  lemma {:induction false} ZeroIsEvent(events: seq<RangeEvent>)
    ensures ZeroEvent(events).Some? ==> ZeroEvent(events).value in events && ZeroEvent(events).value.introduced == "0"
  {
    if events != [] { ZeroIsEvent(events[1..]); }
  }

  function ZeroPart(events: seq<RangeEvent>): seq<AffectedEvent> {
    if ZeroEvent(events).Some? then [AffectedEvent(Introduced, "0")] else []
  }

  /** At most one zero event; the others are ordinary. */
  lemma {:induction false} ConvertedParts<K>(h: Helper<K>, events: seq<RangeEvent>, dom: string -> bool)
    requires WellFormedRange(h, events, dom)
    ensures multiset(ConvertEvents(events)) == multiset(ZeroPart(events) + ConvertEvents(OrdinaryEvents(events)))
  {
    if events != [] {
      var e, rest := events[0], events[1..];
      WellFormedTail(h, events, dom);
      ConvertedParts(h, rest, dom);
      ZeroIsEvent(rest);
      var c, o := ConvertEvents(rest), ConvertEvents(OrdinaryEvents(rest));
      assert SingleField(e) && ConvertEvents(events) == [AsAffected(e)] + c;
      if e.introduced == "0" {
        if ZeroEvent(rest).Some? {
          assert h.VersionEq(EventValue(e), EventValue(ZeroEvent(rest).value));
        }
        assert ZeroPart(rest) + o == o;
        assert OrdinaryEvents(events) == OrdinaryEvents(rest);
      } else {
        assert OrdinaryEvents(events) == [e] + OrdinaryEvents(rest);
        assert ([e] + OrdinaryEvents(rest))[1..] == OrdinaryEvents(rest);
        assert ConvertEvents(OrdinaryEvents(events)) == [AsAffected(e)] + o;
      }
    }
  }

  function EventOrdering<K>(h: Helper<K>): (AffectedEvent, AffectedEvent) -> bool {
    (a, b) => EventLess(h, a, b)
  }

  lemma {:induction false} SortedConverted<K>(h: Helper<K>, events: seq<RangeEvent>, dom: string -> bool)
    requires OrderedOn(h, dom) && WellFormedRange(h, events, dom)
    ensures ValuesIn(ConvertEvents(events), dom)
    ensures StrictlySorted(Sort(ConvertEvents(events), EventOrdering(h)), EventOrdering(h))
    ensures WeakOrderOn(ConvertEvents(events), EventOrdering(h))
  {
    var a := ConvertEvents(events);
    ConvertSingle(events);
    assert forall i :: 0 <= i < |a| ==> a[i].value == EventValue(events[i]);
    assert ValuesIn(a, dom);
    OrderingIsWeak(h, a, dom);
    forall i, j | 0 <= i < j < |a| ensures EventLess(h, a[i], a[j]) || EventLess(h, a[j], a[i]) {
      assert !h.VersionEq(EventValue(events[i]), EventValue(events[j]));
    }
    SortStrict(a, EventOrdering(h));
  }

  lemma {:induction false} OrderingIsWeak<K>(h: Helper<K>, events: seq<AffectedEvent>, dom: string -> bool)
    requires OrderedOn(h, dom) && ValuesIn(events, dom)
    ensures WeakOrderOn(events, EventOrdering(h))
  {
    forall x, y | x in events && y in events && EventLess(h, x, y) ensures !EventLess(h, y, x) {
      assert dom(x.value) && dom(y.value);
    }
    forall x, y, z | x in events && y in events && z in events && EventLess(h, x, z)
      ensures EventLess(h, x, y) || EventLess(h, y, z)
    {
      EventNegativelyTransitive(h, x, y, z, dom);
    }
  }

  /** Events of different versions are ordered by their versions alone. */
  lemma {:induction false} LessByValue<K>(h: Helper<K>, a: RangeEvent, b: RangeEvent, dom: string -> bool)
    requires OrderedOn(h, dom) && dom(EventValue(a)) && dom(EventValue(b)) && SingleField(a) && SingleField(b)
    requires !h.VersionEq(EventValue(b), EventValue(a))
    ensures EventLess(h, AsAffected(a), AsAffected(b)) <==> h.VersionLt(EventValue(a), EventValue(b))
  {
  }

  lemma {:induction false} SweepOrderConverted<K>(h: Helper<K>, events: seq<RangeEvent>, dom: string -> bool)
    requires OrderedOn(h, dom) && WellFormedRange(h, events, dom)
    ensures SingleFields(SweepOrder(h, events))
    ensures ConvertEvents(SweepOrder(h, events)) ==
            ZeroPart(events) + Sort(ConvertEvents(OrdinaryEvents(events)), EventOrdering(h))
  {
    var ordinary := OrdinaryEvents(events);
    var byValue := (a: RangeEvent, b: RangeEvent) => h.VersionLt(EventValue(a), EventValue(b));
    OrdinaryAreEvents(h, events, dom);
    ConvertSingle(ordinary);
    forall i, j | 0 <= i < j < |ordinary|
      ensures EventLess(h, AsAffected(ordinary[j]), AsAffected(ordinary[i])) == byValue(ordinary[j], ordinary[i])
    {
      LessByValue(h, ordinary[j], ordinary[i], dom);
    }
    MapSort(h, ordinary, byValue, EventOrdering(h));
    var sorted := Sort(ordinary, byValue);
    assert SweepOrder(h, events) == match ZeroEvent(events) case Some(z) => [z] + sorted case None => sorted;
    ZeroIsEvent(events);
    if ZeroEvent(events).Some? {
      var z := ZeroEvent(events).value;
      assert SingleField(z);
      assert ([z] + sorted)[1..] == sorted;
    }
  }

  /** The sweep and the index see the events in the same, strictly ascending order. */
  lemma {:induction false} OrdersAgree<K>(h: Helper<K>, events: seq<RangeEvent>, dom: string -> bool)
    requires OrderedOn(h, dom) && WellFormedRange(h, events, dom)
    ensures SingleFields(SweepOrder(h, events))
    ensures ConvertEvents(SweepOrder(h, events)) == Sort(ConvertEvents(events), EventOrdering(h))
  {
    var ordinary := ConvertEvents(OrdinaryEvents(events));
    var t := ZeroPart(events) + Sort(ordinary, EventOrdering(h));
    OrdinaryAreEvents(h, events, dom);
    SweepOrderConverted(h, events, dom);
    SortedConverted(h, events, dom);
    SortedConverted(h, OrdinaryEvents(events), dom);
    ConvertedParts(h, events, dom);
    ZeroFirst(h, events, dom);
    var e := Sort(ConvertEvents(events), EventOrdering(h));
    assert multiset(t) == multiset(e);
    SameElements(e, ConvertEvents(events));
    StrictlySortedUnique(e, t, EventOrdering(h));
  }

  lemma {:induction false} ZeroBelowOrdinary<K>(h: Helper<K>, events: seq<RangeEvent>, dom: string -> bool,
        y: AffectedEvent)
    requires WellFormedRange(h, events, dom) && ZeroEvent(events).Some?
    requires y in ConvertEvents(OrdinaryEvents(events))
    ensures EventLess(h, AffectedEvent(Introduced, "0"), y)
  {
    OrdinaryAreEvents(h, events, dom);
    var ordinary := OrdinaryEvents(events);
    ConvertSingle(ordinary);
    var converted := ConvertEvents(ordinary);
    var i :| 0 <= i < |converted| && converted[i] == y;
    var x := ordinary[i];
    assert x in ordinary && y == AsAffected(x);
    OrdinaryIsNotZero(h, events, x, dom);
    ZeroIsLess(h, y);
  }

  lemma {:induction false} ZeroIsLess<K>(h: Helper<K>, y: AffectedEvent)
    requires y.value != "0"
    ensures EventLess(h, AffectedEvent(Introduced, "0"), y)
  {
  }

  lemma {:induction false} ZeroFirst<K>(h: Helper<K>, events: seq<RangeEvent>, dom: string -> bool)
    requires OrderedOn(h, dom) && WellFormedRange(h, events, dom)
    requires StrictlySorted(Sort(ConvertEvents(OrdinaryEvents(events)), EventOrdering(h)), EventOrdering(h))
    ensures StrictlySorted(ZeroPart(events) + Sort(ConvertEvents(OrdinaryEvents(events)), EventOrdering(h)),
            EventOrdering(h))
  {
    var ordinary := ConvertEvents(OrdinaryEvents(events));
    var sorted := Sort(ordinary, EventOrdering(h));
    if ZeroEvent(events).Some? {
      SameElements(sorted, ordinary);
      forall y | y in sorted ensures EventOrdering(h)(AffectedEvent(Introduced, "0"), y) {
        ZeroBelowOrdinary(h, events, dom, y);
      }
      PrependLeast(AffectedEvent(Introduced, "0"), sorted, EventOrdering(h));
    } else {
      assert ZeroPart(events) + sorted == sorted;
    }
  }

  lemma {:induction false} OrdinaryIsNotZero<K>(h: Helper<K>, events: seq<RangeEvent>, y: RangeEvent,
        dom: string -> bool)
    requires WellFormedRange(h, events, dom) && ZeroEvent(events).Some?
    requires y in events && y.introduced != "0"
    ensures EventValue(y) != "0"
  {
    ZeroIsEvent(events);
    var z := ZeroEvent(events).value;
    var i :| 0 <= i < |events| && events[i] == y;
    var j :| 0 <= j < |events| && events[j] == z;
    assert SingleField(events[j]) && EventValue(z) == "0";
    assert !h.VersionEq(EventValue(events[if i < j then i else j]), EventValue(events[if i < j then j else i]));
  }

  /** On a well-formed range the two evaluators of "affected" differ exactly on the known
      versions equal to a last_affected that no introduced directly precedes. */
  lemma {:induction false} EvaluatorsAgreeExactly<K>(h: Helper<K>, known: seq<string>, events: seq<RangeEvent>,
        dom: string -> bool, v: string)
    requires OrderedOn(h, dom) && WellFormedRange(h, events, dom) && AllIn(known, dom) && v in known
    ensures var indexed := SortEvents(h, ConvertEvents(events));
            v in Enumerated(h, known, events) <==> NearestEventAccepts(h, v, indexed) && !OrphanHit(h, indexed, v)
  {
    var indexed := Sort(ConvertEvents(events), EventOrdering(h));
    assert SortEvents(h, ConvertEvents(events)) == indexed;
    var swept := SweepOrder(h, events);
    OrdersAgree(h, events, dom);
    SortedConverted(h, events, dom);
    NoLimits(events);
    IndexedShape(h, events, dom);
    ConvertSingle(swept);
    forall i | 0 <= i < |swept| ensures dom(EventValue(swept[i])) {
      assert indexed[i] in indexed && indexed[i].value == EventValue(swept[i]);
    }
    SweepByElement(h, known, swept, "", dom, v);
    SweepAgainstNearest(h, indexed, v, dom);
  }

  /** Two events of a well-formed range that compare differ in version, not only in type. */
  lemma {:induction false} LessIsVersionLess<K>(h: Helper<K>, events: seq<RangeEvent>, dom: string -> bool,
        x: AffectedEvent, y: AffectedEvent)
    requires WellFormedRange(h, events, dom) && OrderedOn(h, dom)
    requires x in ConvertEvents(events) && y in ConvertEvents(events) && EventLess(h, x, y)
    ensures h.VersionLt(x.value, y.value)
  {
    var a := ConvertEvents(events);
    ConvertSingle(events);
    var p :| 0 <= p < |a| && a[p] == x;
    var q :| 0 <= q < |a| && a[q] == y;
    assert dom(EventValue(events[p])) && dom(EventValue(events[q]));
    if p < q {
      assert !h.VersionEq(EventValue(events[p]), EventValue(events[q]));
    } else if q < p {
      assert !h.VersionEq(EventValue(events[q]), EventValue(events[p]));
    }
  }

  lemma {:induction false} IndexedShape<K>(h: Helper<K>, events: seq<RangeEvent>, dom: string -> bool)
    requires OrderedOn(h, dom) && WellFormedRange(h, events, dom)
    ensures var indexed := Sort(ConvertEvents(events), EventOrdering(h));
            ValuesIn(indexed, dom) && ClosingValues(indexed) && StrictlyAscending(h, indexed)
  {
    var a := ConvertEvents(events);
    var indexed := Sort(a, EventOrdering(h));
    SortedConverted(h, events, dom);
    SameElements(indexed, a);
    forall i | 0 <= i < |indexed| ensures indexed[i].kind != Limit && indexed[i].value != "" {
      ConvertSingle(events);
      assert indexed[i] in a;
    }
    forall i, j | 0 <= i < j < |indexed| ensures h.VersionLt(indexed[i].value, indexed[j].value) {
      assert indexed[i] in a && indexed[j] in a && EventOrdering(h)(indexed[i], indexed[j]);
      LessIsVersionLess(h, events, dom, indexed[i], indexed[j]);
    }
  }

  /** Every last_affected directly follows an introduced, in sorted order. */
  predicate LastAffectedFollowsIntroduced(indexed: seq<AffectedEvent>) {
    forall i :: 0 <= i < |indexed| && indexed[i].kind == LastAffected ==> i > 0 && indexed[i - 1].kind == Introduced
  }

  ghost predicate Agree<K>(h: Helper<K>, known: seq<string>, events: seq<RangeEvent>) {
    forall v :: v in known ==>
      (v in Enumerated(h, known, events) <==> NearestEventAccepts(h, v, SortEvents(h, ConvertEvents(events))))
  }

  /** The evaluators agree on all known versions if every last_affected directly follows an
      introduced. */
  lemma {:induction false} EvaluatorsAgree<K>(h: Helper<K>, known: seq<string>, events: seq<RangeEvent>,
        dom: string -> bool)
    requires OrderedOn(h, dom) && WellFormedRange(h, events, dom) && AllIn(known, dom)
    requires LastAffectedFollowsIntroduced(SortEvents(h, ConvertEvents(events)))
    ensures Agree(h, known, events)
  {
    forall v | v in known
      ensures v in Enumerated(h, known, events) <==> NearestEventAccepts(h, v, SortEvents(h, ConvertEvents(events)))
    {
      EvaluatorsAgreeExactly(h, known, events, dom, v);
    }
  }

  /** And only then, when the last_affected versions are themselves known. */
  lemma {:induction false} AgreementNeedsIntroduced<K>(h: Helper<K>, known: seq<string>, events: seq<RangeEvent>,
        dom: string -> bool)
    requires OrderedOn(h, dom) && WellFormedRange(h, events, dom) && AllIn(known, dom)
    requires forall e :: e in SortEvents(h, ConvertEvents(events)) && e.kind == LastAffected ==> e.value in known
    requires Agree(h, known, events)
    ensures LastAffectedFollowsIntroduced(SortEvents(h, ConvertEvents(events)))
  {
    var indexed := SortEvents(h, ConvertEvents(events));
    assert indexed == Sort(ConvertEvents(events), EventOrdering(h));
    IndexedShape(h, events, dom);
    forall i | 0 <= i < |indexed| && indexed[i].kind == LastAffected
      ensures i > 0 && indexed[i - 1].kind == Introduced
    {
      var v := indexed[i].value;
      assert indexed[i] in indexed;
      OwnVersionAccepted(h, indexed, i, dom);
      EvaluatorsAgreeExactly(h, known, events, dom, v);
    }
  }

  lemma {:induction false} OwnVersionAccepted<K>(h: Helper<K>, events: seq<AffectedEvent>, i: nat, dom: string -> bool)
    requires OrderedOn(h, dom) && ValuesIn(events, dom) && StrictlyAscending(h, events)
    requires i < |events| && events[i].kind == LastAffected
    ensures NearestEventAccepts(h, events[i].value, events)
    ensures i == 0 || events[i - 1].kind != Introduced ==> OrphanHit(h, events, events[i].value)
  {
    assert events[i] in events && dom(events[i].value) && h.VersionEq(events[i].value, events[i].value);
    forall k | i < k < |events| ensures !h.VersionEq(events[k].value, events[i].value) {
      assert events[k] in events && h.VersionLt(events[i].value, events[k].value);
    }
    forall j, k | 0 <= j < k < |events| ensures !h.VersionLt(events[k].value, events[j].value) {
      assert events[j] in events && events[k] in events && h.VersionLt(events[j].value, events[k].value);
    }
    DecidesItself(h, events, i, dom);
  }

  /** A lone last_affected: the server accepts its version, the worker does not enumerate it. */
  lemma {:induction false} LoneLastAffectedDiffers<K>(h: Helper<K>, dom: string -> bool, version: string)
    requires OrderedOn(h, dom) && dom(version) && version != ""
    ensures var events := [RangeEvent("", "", "", version)];
            version !in Enumerated(h, [version], events)
              && NearestEventAccepts(h, version, SortEvents(h, ConvertEvents(events)))
  {
    var e := RangeEvent("", "", "", version);
    var events := [e];
    assert events[1..] == [] && ConvertEvents(events) == [AffectedEvent(LastAffected, version)];
    var indexed := SortEvents(h, ConvertEvents(events));
    LoneIsSorted(ConvertEvents(events), EventOrdering(h));
    OwnVersionAccepted(h, indexed, 0, dom);
    EvaluatorsAgreeExactly(h, [version], events, dom, version);
  }

  lemma {:induction false} LoneIsSorted<T>(s: seq<T>, less: (T, T) -> bool)
    requires |s| == 1
    ensures Sort(s, less) == s
  {
    assert s[1..] == [] && s == [s[0]];
  }
}
