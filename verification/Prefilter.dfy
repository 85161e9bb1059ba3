/** The coarse prefilter must never hide an entity that the exact match would accept. */
module Prefilter {
  import opened Strings
  import opened CoarseVersion
  import opened Ecosystems
  import opened Sorting
  import opened Indexing
  import opened Matching

  ghost predicate ValuesIn(events: seq<AffectedEvent>, dom: string -> bool) {
    forall e :: e in events ==> dom(e.value)
  }

  /** Sorted by version; ties are in _EVENT_ORDER, which the results below do not need. */
  ghost predicate Ascending<K>(h: Helper<K>, events: seq<AffectedEvent>) {
    forall i, j :: 0 <= i < j < |events| ==> !h.VersionLt(events[j].value, events[i].value)
  }

  lemma {:induction false} EventNegativelyTransitive<K>(h: Helper<K>, x: AffectedEvent, y: AffectedEvent,
        z: AffectedEvent, dom: string -> bool)
    requires OrderedOn(h, dom) && dom(x.value) && dom(y.value) && dom(z.value) && EventLess(h, x, z)
    ensures EventLess(h, x, y) || EventLess(h, y, z)
  {
    if h.VersionEq(x.value, y.value) && h.VersionEq(y.value, z.value) {
      assert h.VersionEq(x.value, z.value);
    }
  }

  /** The event that decides NearestEventAccepts. */
  lemma {:induction false} DecidingEvent<K>(h: Helper<K>, version: string, events: seq<AffectedEvent>) returns (i: nat)
    requires NearestEventAccepts(h, version, events)
    ensures i < |events|
    ensures if h.VersionEq(events[i].value, version) then events[i].kind == Introduced || events[i].kind == LastAffected
            else h.VersionLt(events[i].value, version) && events[i].kind == Introduced
    ensures forall k :: i < k < |events| ==>
              !h.VersionEq(events[k].value, version) && !h.VersionLt(events[k].value, version)
  {
    var n := |events| - 1;
    if h.VersionEq(events[n].value, version) || h.VersionLt(events[n].value, version) {
      i := n;
    } else {
      i := DecidingEvent(h, version, events[..n]);
    }
  }

  lemma {:induction false} FirstIntroducedAt(events: seq<AffectedEvent>) returns (j: nat)
    requires FirstIntroduced(events).Some?
    ensures j < |events| && events[j].kind == Introduced && events[j].value == FirstIntroduced(events).value
    ensures forall k :: 0 <= k < j ==> events[k].kind != Introduced
  {
    if events[0].kind == Introduced {
      j := 0;
    } else {
      var j' := FirstIntroducedAt(events[1..]);
      j := j' + 1;
      assert forall k :: 1 <= k < j ==> events[k] == events[1..][k - 1];
    }
  }

  predicate InBounds(b: Bounds, coarse: string) { Le(b.low, coarse) && Le(coarse, b.high) }

  /** A coarse version between those of the first introduced event and of an ending one is within bounds. */
  lemma {:induction false} WithinBounds<K>(h: Helper<K>, events: seq<AffectedEvent>, first: string, coarse: string)
    requires events != [] && FirstIntroduced(events) == Some(first) && CoarseInRange(coarse)
    requires h.coarse(first).Ok? ==> Le(h.coarse(first).text, coarse)
    requires var last := events[|events| - 1];
             last.kind != Introduced && h.coarse(last.value).Ok? ==> Le(coarse, h.coarse(last.value).text)
    ensures InBounds(CoarseMinMax(h, events), coarse)
  {
  }

  /** A match decided at event i, at or after the first introduced event, lies between that and the last. */
  lemma {:induction false} DecidedBetween<K>(h: Helper<K>, events: seq<AffectedEvent>, dom: string -> bool,
        version: string, i: nat, j: nat)
    requires OrderedOn(h, dom) && dom(version) && Ascending(h, events) && ValuesIn(events, dom)
    requires j <= i < |events|
    requires h.VersionEq(events[i].value, version) || h.VersionLt(events[i].value, version)
    requires forall k :: i < k < |events| ==> !h.VersionLt(events[k].value, version)
    requires i == |events| - 1 ==> events[i].kind == Introduced || h.VersionEq(events[i].value, version)
    ensures !h.VersionLt(version, events[j].value)
    ensures var last := events[|events| - 1];
            last.kind != Introduced ==> !h.VersionLt(last.value, version)
  {
    var first, own := events[j], events[i];
    assert own in events && first in events;
    assert dom(first.value) && dom(own.value);
    if i != j { assert !h.VersionLt(own.value, first.value); }
  }

  lemma {:induction false} DecidedWithinBounds<K>(h: Helper<K>, events: seq<AffectedEvent>, dom: string -> bool,
        version: string, i: nat, j: nat)
    requires LawfulOn(h, dom) && dom(version) && h.coarse(version).Ok?
    requires Ascending(h, events) && ValuesIn(events, dom)
    requires j <= i < |events| && events[j].kind == Introduced && FirstIntroduced(events) == Some(events[j].value)
    requires h.VersionEq(events[i].value, version) || h.VersionLt(events[i].value, version)
    requires forall k :: i < k < |events| ==> !h.VersionLt(events[k].value, version)
    requires i == |events| - 1 ==> events[i].kind == Introduced || h.VersionEq(events[i].value, version)
    ensures InBounds(CoarseMinMax(h, events), h.coarse(version).text)
  {
    var first, last := events[j].value, events[|events| - 1];
    assert events[j] in events && last in events;
    assert dom(first) && dom(last.value);
    DecidedBetween(h, events, dom, version, i, j);
    WithinBounds(h, events, first, h.coarse(version).text);
  }

  /** A last_affected event that decides its own version: no equal version comes after it. */
  ghost predicate DecidesOwn<K>(h: Helper<K>, events: seq<AffectedEvent>, i: nat) {
    && i < |events| && events[i].kind == LastAffected && h.coarse(events[i].value).Ok?
    && forall k :: i < k < |events| ==> !h.VersionEq(events[k].value, events[i].value)
  }

  /** The last event ends the range with a version that coarse_version rejects. */
  predicate LastIsRejected<K>(h: Helper<K>, events: seq<AffectedEvent>) {
    events != [] && events[|events| - 1].kind != Introduced && h.coarse(events[|events| - 1].value).ValueError?
  }

  /** No last_affected event that decides its own version stands, in coarse terms, below the first
      introduced event, unless a rejected version makes the bounds the widest. This is what the
      bounds silently rely on. */
  ghost predicate NoEarlyLastAffected<K>(h: Helper<K>, events: seq<AffectedEvent>) {
    match FirstIntroduced(events)
    case None => true
    case Some(first) => h.coarse(first).Ok? && !LastIsRejected(h, events) ==>
      forall i: nat :: DecidesOwn(h, events, i) ==> Le(h.coarse(first).text, h.coarse(events[i].value).text)
  }

  lemma {:induction false} LowestBound<K>(h: Helper<K>, events: seq<AffectedEvent>)
    ensures CoarseMinMax(h, events).low ==
            if FirstIntroduced(events).Some? && h.coarse(FirstIntroduced(events).value).Ok?
              && !LastIsRejected(h, events)
            then h.coarse(FirstIntroduced(events).value).text else MinCoarse()
  {
  }

  /** The same, said of the stored lower bound. */
  lemma {:induction false} NoneBelowBound<K>(h: Helper<K>, events: seq<AffectedEvent>)
    requires BoundedCoarse(h)
    ensures NoEarlyLastAffected(h, events) <==>
            forall i: nat :: DecidesOwn(h, events, i) ==>
              Le(CoarseMinMax(h, events).low, h.coarse(events[i].value).text)
  {
    LowestBound(h, events);
    forall i: nat | DecidesOwn(h, events, i) ensures Le(MinCoarse(), h.coarse(events[i].value).text) {
      assert CoarseInRange(h.coarse(events[i].value).text);
    }
  }

  /** Sound on the whole domain: every accepted version is within the stored bounds. */
  ghost predicate BoundsKeepMatches<K>(h: Helper<K>, events: seq<AffectedEvent>, dom: string -> bool) {
    forall v :: dom(v) && NearestEventAccepts(h, v, events) && h.coarse(v).Ok?
      ==> InBounds(CoarseMinMax(h, events), h.coarse(v).text)
  }

  /** The deciding event of an event's own version, when nothing equal follows it. */
  lemma {:induction false} DecidesItself<K>(h: Helper<K>, events: seq<AffectedEvent>, i: nat, dom: string -> bool)
    requires OrderedOn(h, dom) && ValuesIn(events, dom) && Ascending(h, events)
    requires i < |events| && events[i].kind == LastAffected
    requires forall k :: i < k < |events| ==> !h.VersionEq(events[k].value, events[i].value)
    ensures NearestEventAccepts(h, events[i].value, events)
  {
    var n := |events| - 1;
    var v := events[i].value;
    assert events[i] in events && dom(v);
    if i == n {
      assert h.VersionEq(v, v);
    } else {
      assert events[n] in events && dom(events[n].value);
      var shorter := events[..n];
      assert forall e :: e in shorter ==> e in events;
      DecidesItself(h, shorter, i, dom);
    }
  }

  lemma {:induction false} AcceptedWithinBounds<K>(h: Helper<K>, events: seq<AffectedEvent>, dom: string -> bool,
        version: string)
    requires LawfulOn(h, dom) && RejectsAlike(h, dom)
    requires Ascending(h, events) && ValuesIn(events, dom) && NoEarlyLastAffected(h, events)
    requires dom(version) && h.coarse(version).Ok? && NearestEventAccepts(h, version, events)
    ensures InBounds(CoarseMinMax(h, events), h.coarse(version).text)
  {
    assert CoarseInRange(h.coarse(version).text);
    var i := DecidingEvent(h, version, events);
    if FirstIntroduced(events).Some? {
      var j := FirstIntroducedAt(events);
      if j <= i {
        DecidedWithinBounds(h, events, dom, version, i, j);
      } else {
        EarlyMatchWithinBounds(h, events, dom, version, i, j);
      }
    }
  }

  /** A match decided before the first introduced event: a last_affected equal to the version. */
  lemma {:induction false} EarlyMatchWithinBounds<K>(h: Helper<K>, events: seq<AffectedEvent>, dom: string -> bool,
        version: string, i: nat, j: nat)
    requires LawfulOn(h, dom) && RejectsAlike(h, dom)
    requires Ascending(h, events) && ValuesIn(events, dom) && NoEarlyLastAffected(h, events)
    requires dom(version) && h.coarse(version).Ok?
    requires i < j < |events| && FirstIntroduced(events) == Some(events[j].value)
    requires events[i].kind == LastAffected && h.VersionEq(events[i].value, version)
    requires forall k :: i < k < |events| ==>
             !h.VersionEq(events[k].value, version) && !h.VersionLt(events[k].value, version)
    ensures InBounds(CoarseMinMax(h, events), h.coarse(version).text)
  {
    var own, last := events[i].value, events[|events| - 1];
    assert events[i] in events && last in events && dom(own) && dom(last.value);
    forall k | i < k < |events| ensures !h.VersionEq(events[k].value, own) {
      assert events[k] in events && dom(events[k].value);
    }
    assert DecidesOwn(h, events, i);
    NoneBelowBound(h, events);
    assert Le(h.coarse(own).text, h.coarse(version).text) && Le(h.coarse(version).text, h.coarse(own).text);
    LeAntisymmetric(h.coarse(own).text, h.coarse(version).text);
    assert CoarseInRange(h.coarse(version).text);
    assert !h.VersionLt(last.value, version);
  }

  /** The prefilter is sound for a range exactly if no deciding last_affected event lies,
      in coarse terms, below the first introduced one. */
  lemma {:induction false} BoundsKeepMatchesExactly<K>(h: Helper<K>, events: seq<AffectedEvent>, dom: string -> bool)
    requires LawfulOn(h, dom) && RejectsAlike(h, dom)
    requires Ascending(h, events) && ValuesIn(events, dom)
    ensures BoundsKeepMatches(h, events, dom) <==> NoEarlyLastAffected(h, events)
  {
    if NoEarlyLastAffected(h, events) {
      forall v | dom(v) && NearestEventAccepts(h, v, events) && h.coarse(v).Ok?
        ensures InBounds(CoarseMinMax(h, events), h.coarse(v).text)
      {
        AcceptedWithinBounds(h, events, dom, v);
      }
    }
    if BoundsKeepMatches(h, events, dom) {
      forall i: nat | DecidesOwn(h, events, i) ensures Le(CoarseMinMax(h, events).low, h.coarse(events[i].value).text) {
        assert events[i] in events;
        DecidesItself(h, events, i, dom);
      }
      NoneBelowBound(h, events);
    }
  }

  /** The usual shape of a range: it starts with introduced, or has no introduced at all. */
  predicate StartsIntroduced(events: seq<AffectedEvent>) {
    FirstIntroduced(events).None? || events[0].kind == Introduced
  }

  /** Each event is in order with the next, whatever the order does further apart. */
  ghost predicate NeighboursInOrder<K>(h: Helper<K>, events: seq<AffectedEvent>) {
    forall i :: 0 <= i < |events| - 1 ==> !h.VersionLt(events[i + 1].value, events[i].value)
  }

  /** The indexer's sort puts neighbours in order under any order that is asymmetric. */
  lemma {:induction false} SortedNeighbours<K>(h: Helper<K>, events: seq<AffectedEvent>, dom: string -> bool)
    requires PairwiseOn(h, dom) && ValuesIn(events, dom)
    ensures NeighboursInOrder(h, SortEvents(h, events)) && ValuesIn(SortEvents(h, events), dom)
  {
    var less := (a, b) => EventLess(h, a, b);
    var sorted := SortEvents(h, events);
    forall x, y | x in events && y in events && less(x, y) ensures !less(y, x) { assert dom(x.value) && dom(y.value); }
    SortKeepsNeighbours(events, less);
    SameElements(sorted, events);
    forall i | 0 <= i < |sorted| - 1 ensures !h.VersionLt(sorted[i + 1].value, sorted[i].value) {
      assert sorted[i] in sorted && sorted[i + 1] in sorted && !less(sorted[i + 1], sorted[i]);
      assert dom(sorted[i].value) && dom(sorted[i + 1].value);
    }
  }

  /** Where the order is total, neighbours in order make the whole list ascend. */
  lemma {:induction false} NeighboursAscend<K>(h: Helper<K>, events: seq<AffectedEvent>, dom: string -> bool)
    requires OrderedOn(h, dom) && ValuesIn(events, dom) && NeighboursInOrder(h, events)
    ensures Ascending(h, events)
  {
    forall i, j | 0 <= i < j < |events| ensures !h.VersionLt(events[j].value, events[i].value) {
      NeighbourChain(h, events, dom, i, j);
    }
  }

  lemma {:induction false} NeighbourChain<K>(h: Helper<K>, events: seq<AffectedEvent>, dom: string -> bool, i: nat,
        j: nat)
    requires OrderedOn(h, dom) && ValuesIn(events, dom) && NeighboursInOrder(h, events) && i < j < |events|
    ensures !h.VersionLt(events[j].value, events[i].value)
    decreases j
  {
    assert events[i] in events && events[j - 1] in events && events[j] in events;
    assert !h.VersionLt(events[j - 1 + 1].value, events[j - 1].value);
    if i < j - 1 { NeighbourChain(h, events, dom, i, j - 1); }
  }

  /** Where nothing is rejected, the coarse versions ascend along neighbours in order. */
  lemma {:induction false} CoarseChain<K>(h: Helper<K>, events: seq<AffectedEvent>, dom: string -> bool, i: nat)
    requires MonotoneOn(h, dom) && NeverRejects(h, dom) && ValuesIn(events, dom) && NeighboursInOrder(h, events)
    requires i < |events|
    ensures h.coarse(events[0].value).Ok? && h.coarse(events[i].value).Ok?
    ensures Le(h.coarse(events[0].value).text, h.coarse(events[i].value).text)
  {
    assert events[0] in events && events[i] in events;
    if i == 0 {
      LtIrreflexive(h.coarse(events[0].value).text);
    } else {
      CoarseChain(h, events, dom, i - 1);
      assert events[i - 1] in events && !h.VersionLt(events[i - 1 + 1].value, events[i - 1].value);
      LeTransitive(h.coarse(events[0].value).text, h.coarse(events[i - 1].value).text, h.coarse(events[i].value).text);
    }
  }

  /** A match decided at event i, with the first event an introduction. */
  lemma {:induction false} ChainWithinBounds<K>(h: Helper<K>, events: seq<AffectedEvent>, dom: string -> bool,
        version: string, i: nat)
    requires PairwiseOn(h, dom) && MonotoneOn(h, dom) && BoundedCoarse(h) && NeverRejects(h, dom) && dom(version)
    requires NeighboursInOrder(h, events) && ValuesIn(events, dom)
    requires i < |events| && events[0].kind == Introduced
    requires h.VersionEq(events[i].value, version) || h.VersionLt(events[i].value, version)
    requires forall k :: i < k < |events| ==> !h.VersionLt(events[k].value, version)
    requires i == |events| - 1 ==> events[i].kind == Introduced || h.VersionEq(events[i].value, version)
    ensures InBounds(CoarseMinMax(h, events), h.coarse(version).text)
  {
    var own, last := events[i].value, events[|events| - 1];
    assert events[i] in events && last in events && dom(own) && dom(last.value);
    CoarseChain(h, events, dom, i);
    assert !h.VersionLt(version, own);
    LeTransitive(h.coarse(events[0].value).text, h.coarse(own).text, h.coarse(version).text);
    assert last.kind != Introduced ==> !h.VersionLt(last.value, version);
    WithinBounds(h, events, events[0].value, h.coarse(version).text);
  }

  /** In the usual shape nothing is lost, whatever coarse_version rejects, and whether or not the
      order is transitive. */
  lemma {:induction false} UsualShapeKeepsMatches<K>(h: Helper<K>, events: seq<AffectedEvent>, dom: string -> bool,
        version: string)
    requires FilterSafeOn(h, dom)
    requires NeighboursInOrder(h, events) && ValuesIn(events, dom) && StartsIntroduced(events)
    requires dom(version) && h.coarse(version).Ok? && NearestEventAccepts(h, version, events)
    ensures InBounds(CoarseMinMax(h, events), h.coarse(version).text)
  {
    assert CoarseInRange(h.coarse(version).text);
    var i := DecidingEvent(h, version, events);
    if FirstIntroduced(events).Some? {
      if OrderedOn(h, dom) {
        NeighboursAscend(h, events, dom);
        DecidedWithinBounds(h, events, dom, version, i, 0);
      } else {
        ChainWithinBounds(h, events, dom, version, i);
      }
    }
  }

  /** The failing family: a last_affected below the first introduced, in coarse terms,
      is accepted for its own version and excluded by the bounds. */
  lemma {:induction false} EarlyLastAffectedIsHidden<K>(h: Helper<K>, u: string, w: string)
    requires OrderedOn(h, Every) && h.VersionLt(u, w)
    requires h.coarse(u).Ok? && h.coarse(w).Ok? && Lt(h.coarse(u).text, h.coarse(w).text)
    ensures var events := [AffectedEvent(LastAffected, u), AffectedEvent(Introduced, w)];
            Ascending(h, events) && NearestEventAccepts(h, u, events)
            && !InBounds(CoarseMinMax(h, events), h.coarse(u).text)
  {
    var events := [AffectedEvent(LastAffected, u), AffectedEvent(Introduced, w)];
    assert Every(u) && Every(w);
    assert events[1..] == [events[1]] && events[..1] == [events[0]];
    assert FirstIntroduced(events) == FirstIntroduced(events[1..]) == Some(w);
  }

  // ----- entities that list versions

  lemma {:induction false} BoundsCoverVersions<K>(h: Helper<K>, versions: seq<string>, v: string)
    requires v in versions && forall w :: w in versions ==> h.coarse(w).Ok?
    ensures InBounds(ExactBounds(h, versions), h.coarse(v).text)
  {
    var c := h.coarse(versions[0]).text;
    LtIrreflexive(c);
    if |versions| > 1 {
      var b := ExactBounds(h, versions[1..]);
      Trichotomy(b.low, c);
      Trichotomy(b.high, c);
      LtIrreflexive(b.low);
      LtIrreflexive(b.high);
      if v in versions[1..] {
        BoundsCoverVersions(h, versions[1..], v);
        LeTransitive(MinString(b.low, c), b.low, h.coarse(v).text);
        LeTransitive(h.coarse(v).text, b.high, MaxString(b.high, c));
      } else {
        assert v == versions[0];
      }
    }
  }

  lemma {:induction false} ListedKeepsMatches<K>(h: Helper<K>, versions: seq<string>, dom: string -> bool,
        version: string, v: string)
    requires FilterSafeOn(h, dom) && versions != []
    requires dom(version) && dom(v) && v in versions && h.VersionEq(v, version) && h.coarse(version).Ok?
    ensures InBounds(VersionBounds(Some(h), versions), h.coarse(version).text)
  {
    assert CoarseInRange(h.coarse(version).text);
    if forall w :: w in versions ==> h.coarse(w).Ok? {
      BoundsCoverVersions(h, versions, v);
      LeAntisymmetric(h.coarse(v).text, h.coarse(version).text);
    }
  }

  // ----- the whole query

  lemma {:induction false} InForEcosystems(ecosystems: seq<string>, entity: AffectedVersions, e: AffectedVersions)
    requires e in ForEcosystems(ecosystems, entity)
    ensures e.ecosystem in ecosystems && e == entity.(ecosystem := e.ecosystem)
  {
  }

  lemma {:induction false} InRangeEntities<K>(c: Context<K>, ranges: seq<Range>, e: AffectedVersions) returns (r: Range)
    requires e in RangeEntities(c, ranges)
    ensures r in ranges && IsVersionRange(r)
    ensures e.ecosystem in c.ecosystems && e == RangeEntity(c, r).(ecosystem := e.ecosystem)
  {
    if e in EntitiesOfRange(c, ranges[0]) {
      r := ranges[0];
      InForEcosystems(c.ecosystems, RangeEntity(c, r), e);
    } else {
      r := InRangeEntities(c, ranges[1..], e);
    }
  }

  /** Whatever the indexer stores for a package, the database query fetches every entity
      that the exact match accepts: the coarse filters hide no true match. */
  lemma {:induction false} PrefilterLosesNothing<K>(
    s: Server<K>, c: Context<K>, a: Affected, normalizeRepo: string -> string,
    dom: string -> bool, q: Query, e: AffectedVersions)
    requires e in Entities(c, a, normalizeRepo)
    // one helper for the entry and the query
    requires (forall x :: x in c.ecosystems ==> s.get(x) == c.helper) && s.get("GIT") == None
    requires c.helper.Some? ==> FilterSafeOn(c.helper.value, dom)
    requires (q.ecosystem != "" ==> dom(q.version)) && (forall v :: v in a.versions ==> dom(v))
    requires forall r :: r in a.ranges && IsVersionRange(r) ==>
      ValuesIn(ConvertEvents(r.events), dom) && StartsIntroduced(RangeEvents(c.helper, r))
    requires NameFilter(q, e) && q.version != "" && Accepted(s, q, e)
    ensures Fetched(s, q, e)
  {
    if q.ecosystem != "" && s.get(e.ecosystem).Some? && s.get(e.ecosystem).value.coarse(q.version).Ok? {
      var h := s.get(e.ecosystem).value;
      if e in RangeEntities(c, a.ranges) {
        var r := InRangeEntities(c, a.ranges, e);
        SortedNeighbours(h, ConvertEvents(r.events), dom);
        UsualShapeKeepsMatches(h, e.events, dom, q.version);
      } else if e in VersionEntities(c, a.versions) {
        InForEcosystems(c.ecosystems,
          AffectedVersions(c.vulnId, "", c.name, a.versions, [], Some(VersionBounds(c.helper, a.versions))), e);
        var v :| v in e.versions && h.VersionEq(v, q.version);
        ListedKeepsMatches(h, a.versions, dom, q.version, v);
      } else {
        if e in BareEntities(c, a) {
          InForEcosystems(c.ecosystems, AffectedVersions(c.vulnId, "", c.name, [], [], None), e);
        }
        assert false;
      }
    }
  }
}
