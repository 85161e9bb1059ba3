/** Indexing: from the affected packages of a record to the AffectedVersions entities
    that queries run on, with their coarse bounds. */
module Indexing {
  import opened Strings
  import opened CoarseVersion
  import opened Ecosystems
  import opened Sorting

  // ----- the record

  /** An event of a range; unset fields are empty. */
  datatype RangeEvent = RangeEvent(introduced: string, fixed: string, limit: string, lastAffected: string)

  datatype RangeType = GIT | SEMVER | ECOSYSTEM | UNSPECIFIED

  datatype Range = Range(kind: RangeType, repo: string, events: seq<RangeEvent>)

  datatype Affected = Affected(ranges: seq<Range>, versions: seq<string>)

  // ----- the entities

  datatype EventType = Introduced | LastAffected | Fixed | Limit

  function EventOrder(kind: EventType): int {
    match kind case Introduced => 0 case LastAffected => 1 case Fixed => 2 case Limit => 3
  }

  datatype AffectedEvent = AffectedEvent(kind: EventType, value: string)

  datatype Bounds = Bounds(low: string, high: string)

  datatype AffectedVersions = AffectedVersions(
    vulnId: string, ecosystem: string, name: string,
    versions: seq<string>, events: seq<AffectedEvent>, bounds: Option<Bounds>)

  /** What one call of the indexer knows: the record id, the normalized package name, the
      helper of the package's ecosystem, and the ecosystems to file the entities under. */
  datatype Context<!K> = Context(vulnId: string, name: string, helper: Option<Helper<K>>, ecosystems: seq<string>)

  function ConvertEvent(e: RangeEvent): seq<AffectedEvent> {
    if e.introduced != "" then [AffectedEvent(Introduced, e.introduced)]
    else if e.fixed != "" then [AffectedEvent(Fixed, e.fixed)]
    else if e.limit != "" then [AffectedEvent(Limit, e.limit)]
    else if e.lastAffected != "" then [AffectedEvent(LastAffected, e.lastAffected)]
    else []
  }

  function ConvertEvents(events: seq<RangeEvent>): seq<AffectedEvent> {
    if events == [] then [] else ConvertEvent(events[0]) + ConvertEvents(events[1..])
  }

  /** Comparison of the sort tuples (sort_key(value), _EVENT_ORDER[type]). */
  predicate EventLess<K>(h: Helper<K>, a: AffectedEvent, b: AffectedEvent) {
    if h.VersionEq(a.value, b.value) then EventOrder(a.kind) < EventOrder(b.kind)
    else h.VersionLt(a.value, b.value)
  }

  function SortEvents<K>(h: Helper<K>, events: seq<AffectedEvent>): seq<AffectedEvent> {
    Sort(events, (a, b) => EventLess(h, a, b))
  }

  const WIDEST := Bounds(MinCoarse(), MaxCoarse())

  function FirstIntroduced(events: seq<AffectedEvent>): Option<string> {
    if events == [] then None
    else if events[0].kind == Introduced then Some(events[0].value)
    else FirstIntroduced(events[1..])
  }

  /** _get_coarse_min_max on sorted events. */
  function CoarseMinMax<K>(h: Helper<K>, events: seq<AffectedEvent>): Bounds {
    match FirstIntroduced(events)
    case None => WIDEST
    case Some(first) =>
      match h.coarse(first)
      case NotImplemented => WIDEST
      case ValueError => WIDEST
      case Ok(low) =>
        var last := if events == [] then AffectedEvent(Introduced, first) else events[|events| - 1];
        if last.kind == Introduced then Bounds(low, MaxCoarse())
        else
          match h.coarse(last.value)
          case NotImplemented => Bounds(low, MaxCoarse())
          case ValueError => WIDEST
          case Ok(high) => Bounds(low, high)
  }

  function RangeEvents<K>(helper: Option<Helper<K>>, r: Range): seq<AffectedEvent> {
    match helper
    case Some(h) => SortEvents(h, ConvertEvents(r.events))
    case None => ConvertEvents(r.events)
  }

  function RangeBounds<K>(helper: Option<Helper<K>>, r: Range): Bounds {
    match helper
    case Some(h) => CoarseMinMax(h, RangeEvents(helper, r))
    case None => WIDEST
  }

  function MinString(s: string, t: string): string { if Lt(t, s) then t else s }
  function MaxString(s: string, t: string): string { if Lt(s, t) then t else s }

  /** min and max of the coarse versions of a non-empty list; the widest bounds on an error. */
  function VersionBounds<K>(helper: Option<Helper<K>>, versions: seq<string>): Bounds
    requires versions != []
  {
    match helper
    case None => WIDEST
    case Some(h) =>
      if exists v :: v in versions && !h.coarse(v).Ok? then WIDEST else ExactBounds(h, versions)
  }

  function ExactBounds<K>(h: Helper<K>, versions: seq<string>): Bounds
    requires versions != [] && forall v :: v in versions ==> h.coarse(v).Ok?
  {
    var c := h.coarse(versions[0]).text;
    if |versions| == 1 then Bounds(c, c)
    else
      var b := ExactBounds(h, versions[1..]);
      Bounds(MinString(b.low, c), MaxString(b.high, c))
  }

  // ----- the entities of one affected package

  function ForEcosystems(ecosystems: seq<string>, entity: AffectedVersions): (r: seq<AffectedVersions>)
    ensures |r| == |ecosystems|
    ensures forall i :: 0 <= i < |r| ==> r[i] == entity.(ecosystem := ecosystems[i])
  {
    if ecosystems == [] then [] else [entity.(ecosystem := ecosystems[0])] + ForEcosystems(ecosystems[1..], entity)
  }

  predicate IsVersionRange(r: Range) { (r.kind == SEMVER || r.kind == ECOSYSTEM) && r.events != [] }

  function RangeEntity<K>(c: Context<K>, r: Range): AffectedVersions {
    AffectedVersions(c.vulnId, "", c.name, [], RangeEvents(c.helper, r), Some(RangeBounds(c.helper, r)))
  }

  function EntitiesOfRange<K>(c: Context<K>, r: Range): seq<AffectedVersions> {
    if IsVersionRange(r) then ForEcosystems(c.ecosystems, RangeEntity(c, r)) else []
  }

  function RangeEntities<K>(c: Context<K>, ranges: seq<Range>): seq<AffectedVersions> {
    if ranges == [] then [] else EntitiesOfRange(c, ranges[0]) + RangeEntities(c, ranges[1..])
  }

  function VersionEntities<K>(c: Context<K>, versions: seq<string>): seq<AffectedVersions> {
    if c.name == "" || versions == [] then []
    else ForEcosystems(c.ecosystems,
      AffectedVersions(c.vulnId, "", c.name, versions, [], Some(VersionBounds(c.helper, versions))))
  }

  function BareEntities<K>(c: Context<K>, a: Affected): seq<AffectedVersions> {
    if c.name == "" || a.versions != [] || (exists r :: r in a.ranges && IsVersionRange(r)) then []
    else ForEcosystems(c.ecosystems, AffectedVersions(c.vulnId, "", c.name, [], [], None))
  }

  /** The repo of the first GIT range that names one. */
  function RepoUrl(ranges: seq<Range>): string {
    if ranges == [] then ""
    else if ranges[0].kind == GIT && ranges[0].repo != "" then ranges[0].repo
    else RepoUrl(ranges[1..])
  }

  function RepoEntities<K>(c: Context<K>, a: Affected, normalizeRepo: string -> string): seq<AffectedVersions> {
    if RepoUrl(a.ranges) == "" then []
    else [AffectedVersions(c.vulnId, "GIT", normalizeRepo(RepoUrl(a.ranges)), a.versions, [], None)]
  }

  function Entities<K>(c: Context<K>, a: Affected, normalizeRepo: string -> string): seq<AffectedVersions> {
    RangeEntities(c, a.ranges) + VersionEntities(c, a.versions) + BareEntities(c, a) + RepoEntities(c, a, normalizeRepo)
  }

  method AppendForEcosystems(list: seq<AffectedVersions>, ecosystems: seq<string>, entity: AffectedVersions)
    returns (r: seq<AffectedVersions>)
    ensures r == list + ForEcosystems(ecosystems, entity)
  {
    r := list;
    for i := 0 to |ecosystems|
      invariant |r| == |list| + i && r[..|list|] == list
      invariant forall k :: 0 <= k < i ==> r[|list| + k] == entity.(ecosystem := ecosystems[k])
    {
      r := r + [entity.(ecosystem := ecosystems[i])];
    }
  }

  method ConvertAll(events: seq<RangeEvent>) returns (r: seq<AffectedEvent>)
    ensures r == ConvertEvents(events)
  {
    r := [];
    ghost var todo := events;
    for i := 0 to |events|
      invariant todo == events[i..]
      invariant r + ConvertEvents(todo) == ConvertEvents(events)
    {
      var e := events[i];
      var one: seq<AffectedEvent> := [];
      if e.introduced != "" {
        one := [AffectedEvent(Introduced, e.introduced)];
      } else if e.fixed != "" {
        one := [AffectedEvent(Fixed, e.fixed)];
      } else if e.limit != "" {
        one := [AffectedEvent(Limit, e.limit)];
      } else if e.lastAffected != "" {
        one := [AffectedEvent(LastAffected, e.lastAffected)];
      }
      todo := todo[1..];
      Associative(r, one, ConvertEvents(todo));
      r := r + one;
    }
  }

  /** The body of the loop over ranges, for a range that is indexed. */
  method AppendRange<K>(list: seq<AffectedVersions>, c: Context<K>, r: Range) returns (l: seq<AffectedVersions>)
    requires IsVersionRange(r)
    ensures l == list + EntitiesOfRange(c, r)
  {
    var events := ConvertAll(r.events);
    var bounds := WIDEST;
    match c.helper {
      case Some(h) =>
        events := SortEvents(h, events);
        bounds := CoarseMinMax(h, events);
      case None =>
    }
    l := AppendForEcosystems(list, c.ecosystems, AffectedVersions(c.vulnId, "", c.name, [], events, Some(bounds)));
  }

  ghost predicate HasVersionRange(ranges: seq<Range>) { exists r :: r in ranges && IsVersionRange(r) }

  lemma {:induction false} FirstOrRest(ranges: seq<Range>)
    requires ranges != []
    ensures HasVersionRange(ranges) <==> IsVersionRange(ranges[0]) || HasVersionRange(ranges[1..])
  {
    assert ranges == [ranges[0]] + ranges[1..];
  }

  lemma {:induction false} NextRange<K>(c: Context<K>, list: seq<AffectedVersions>, todo: seq<Range>)
    requires todo != []
    ensures list + RangeEntities(c, todo) == (list + EntitiesOfRange(c, todo[0])) + RangeEntities(c, todo[1..])
    ensures !IsVersionRange(todo[0]) ==> list + EntitiesOfRange(c, todo[0]) == list
  {
    Associative(list, EntitiesOfRange(c, todo[0]), RangeEntities(c, todo[1..]));
  }

  /** The body of the loop over ranges. */
  method CollectRange<K>(c: Context<K>, r: Range, list: seq<AffectedVersions>, repoUrl: string, hasAffected: bool)
    returns (list': seq<AffectedVersions>, repoUrl': string, hasAffected': bool)
    ensures list' == list + EntitiesOfRange(c, r)
    ensures repoUrl' == if repoUrl == "" && r.kind == GIT then r.repo else repoUrl
    ensures hasAffected' == (hasAffected || IsVersionRange(r))
  {
    list', repoUrl', hasAffected' := list, repoUrl, hasAffected;
    if r.kind == GIT {
      if repoUrl == "" { repoUrl' := r.repo; }
    } else if (r.kind == SEMVER || r.kind == ECOSYSTEM) && r.events != [] {
      hasAffected' := true;
      list' := AppendRange(list, c, r);
    }
  }

  /** The loop over ranges: their entities, the first repo, and whether any was indexed. */
  method CollectRanges<K>(c: Context<K>, ranges: seq<Range>)
    returns (list: seq<AffectedVersions>, repoUrl: string, hasAffected: bool)
    ensures list == RangeEntities(c, ranges) && repoUrl == RepoUrl(ranges)
    ensures hasAffected <==> HasVersionRange(ranges)
  {
    list, repoUrl, hasAffected := [], "", false;
    ghost var todo, all := ranges, RangeEntities(c, ranges);
    assert list + all == all;
    for i := 0 to |ranges|
      invariant todo == ranges[i..]
      invariant list + RangeEntities(c, todo) == all
      invariant RepoUrl(ranges) == if repoUrl == "" then RepoUrl(todo) else repoUrl
      invariant HasVersionRange(ranges) <==> hasAffected || HasVersionRange(todo)
    {
      NextRange(c, list, todo);
      FirstOrRest(todo);
      list, repoUrl, hasAffected := CollectRange(c, ranges[i], list, repoUrl, hasAffected);
      todo := todo[1..];
    }
    assert list + [] == list;
  }

  /** _affected_versions_from_affected_proto. */
  method FromAffected<K>(c: Context<K>, a: Affected, normalizeRepo: string -> string)
    returns (list: seq<AffectedVersions>)
    ensures list == Entities(c, a, normalizeRepo)
  {
    var ranges, repoUrl, hasAffected := CollectRanges(c, a.ranges);
    var listed, bare, repos := [], [], [];
    if c.name != "" && a.versions != [] {
      hasAffected := true;
      var bounds := VersionBounds(c.helper, a.versions);
      listed := AppendForEcosystems([], c.ecosystems,
        AffectedVersions(c.vulnId, "", c.name, a.versions, [], Some(bounds)));
    }
    if c.name != "" && !hasAffected {
      bare := AppendForEcosystems([], c.ecosystems, AffectedVersions(c.vulnId, "", c.name, [], [], None));
    }
    if repoUrl != "" {
      repos := [AffectedVersions(c.vulnId, "GIT", normalizeRepo(repoUrl), a.versions, [], None)];
    }
    assert listed == VersionEntities(c, a.versions);
    assert bare == BareEntities(c, a);
    list := ranges + listed + bare + repos;
  }
}
