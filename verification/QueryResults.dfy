/** A package query from the stored entities to the list of ids a caller receives. */
module QueryResults {
  import opened Strings
  import opened StringSets
  import opened Ecosystems
  import opened Indexing
  import opened Matching
  import Prefilter
  import Paging
  import Store

  /** What an entity was indexed from. */
  datatype Source<!K> = Source(context: Context<K>, affected: Affected, normalizeRepo: string -> string)

  /** The server uses one helper for the ecosystems a source was filed under. */
  ghost predicate OneHelper<K>(s: Server<K>, from: Source<K>) {
    forall x :: x in from.context.ecosystems ==> s.get(x) == from.context.helper
  }

  /** The versions an ecosystem's helper is asked about. */
  type Domains = string -> string -> bool

  /** A source filed under an ecosystem with this domain: a helper safe for the filter, versions of
      the domain, and ranges whose sorted events begin with an introduction. */
  ghost predicate SoundIn<K(!new)>(dom: string -> bool, from: Source<K>) {
    var c, a := from.context, from.affected;
    && (c.helper.Some? ==> FilterSafeOn(c.helper.value, dom))
    && (forall v :: v in a.versions ==> dom(v))
    && (forall r :: r in a.ranges && IsVersionRange(r) ==>
          Prefilter.ValuesIn(ConvertEvents(r.events), dom) && Prefilter.StartsIntroduced(RangeEvents(c.helper, r)))
  }

  /** Indexing used the helper the server uses for each ecosystem, and the source is sound in each. */
  ghost predicate SoundSource<K(!new)>(s: Server<K>, doms: Domains, from: Source<K>) {
    OneHelper(s, from) && forall x :: x in from.context.ecosystems ==> SoundIn(doms(x), from)
  }

  function EntitiesOf<K>(from: Source<K>): seq<AffectedVersions> {
    Entities(from.context, from.affected, from.normalizeRepo)
  }

  ghost predicate IsEntityOf<K>(from: Source<K>, e: AffectedVersions) { e in EntitiesOf(from) }

  ghost predicate IndexedFrom<K(!new)>(s: Server<K>, doms: Domains, from: Source<K>, e: AffectedVersions) {
    IsEntityOf(from, e) && SoundSource(s, doms, from)
  }

  ghost predicate SoundStore<K(!new)>(s: Server<K>, doms: Domains, stored: seq<AffectedVersions>) {
    && s.get("GIT") == None
    && (forall e :: e in stored ==> exists from :: IndexedFrom(s, doms, from, e))
    && (forall i, j :: 0 <= i < j < |stored| ==> Le(stored[i].vulnId, stored[j].vulnId))
  }

  /** The rows the database returns for a query, in the order of the store. */
  function Rows<K>(s: Server<K>, q: Query, stored: seq<AffectedVersions>): seq<Paging.Row> {
    if stored == [] then []
    else
      var e, rest := stored[0], Rows(s, q, stored[1..]);
      if Fetched(s, q, e) then [Paging.Row(e.vulnId, Accepted(s, q, e))] + rest else rest
  }

  /** The vulnerabilities of the package that the exact match accepts. */
  ghost function TrueMatches<K>(s: Server<K>, q: Query, stored: seq<AffectedVersions>): set<string> {
    set e | e in stored && NameFilter(q, e) && Accepted(s, q, e) :: e.vulnId
  }

  lemma {:induction false} RowsFollowTheStore<K>(s: Server<K>, q: Query, stored: seq<AffectedVersions>, low: string)
    requires forall i, j :: 0 <= i < j < |stored| ==> Le(stored[i].vulnId, stored[j].vulnId)
    requires forall i :: 0 <= i < |stored| ==> Le(low, stored[i].vulnId)
    ensures Paging.SortedById(Rows(s, q, stored)) && Paging.AtLeast(Rows(s, q, stored), low)
  {
    if stored != [] {
      RowsFollowTheStore(s, q, stored[1..], low);
      RowsFollowTheStore(s, q, stored[1..], stored[0].vulnId);
    }
  }

  lemma {:induction false} RowsHoldTheMatches<K>(s: Server<K>, q: Query, stored: seq<AffectedVersions>)
    requires forall e :: e in stored && NameFilter(q, e) && Accepted(s, q, e) ==> Fetched(s, q, e)
    ensures Paging.MatchingIds(Rows(s, q, stored)) == TrueMatches(s, q, stored)
  {
    if stored != [] {
      var e, rest := stored[0], stored[1..];
      assert stored == [e] + rest;
      assert forall x :: x in stored <==> x == e || x in rest;
      RowsHoldTheMatches(s, q, rest);
      if Fetched(s, q, e) { Paging.MatchingSplits(Paging.Row(e.vulnId, Accepted(s, q, e)), Rows(s, q, rest)); }
      assert TrueMatches(s, q, stored) ==
        TrueMatches(s, q, rest) + (if NameFilter(q, e) && Accepted(s, q, e) then {e.vulnId} else {});
    }
  }

  /** The queried version is one the queried ecosystem's helper may be asked about. */
  ghost predicate InDomain(doms: Domains, q: Query) { q.ecosystem != "" ==> doms(q.ecosystem)(q.version) }

  lemma {:induction false} MatchIsFetched<K(!new)>(
      s: Server<K>, q: Query, doms: Domains, from: Source<K>, e: AffectedVersions)
    requires IndexedFrom(s, doms, from, e) && s.get("GIT") == None && InDomain(doms, q)
    requires NameFilter(q, e) && Accepted(s, q, e)
    ensures Fetched(s, q, e)
  {
    if q.ecosystem != "" && q.version != "" && e.ecosystem != "GIT" {
      EntityBelongs(from, e);
      assert SoundIn(doms(e.ecosystem), from);
      var dom := doms(e.ecosystem);
      Prefilter.PrefilterLosesNothing(s, from.context, from.affected, from.normalizeRepo, dom, q, e);
    }
  }

  /** Prefilter, exact match and paging together: the scan that the pages spell out is the sorted
      list of all the package's vulnerabilities the exact match accepts, each once. */
  lemma {:induction false} QueryReturnsExactlyTheMatches<K(!new)>(
      s: Server<K>, q: Query, doms: Domains, stored: seq<AffectedVersions>)
    requires SoundStore(s, doms, stored) && InDomain(doms, q)
    ensures Paging.Scan(Rows(s, q, stored), "") == SortedOf(TrueMatches(s, q, stored) - {""})
  {
    forall e | e in stored && NameFilter(q, e) && Accepted(s, q, e) ensures Fetched(s, q, e) {
      var from :| IndexedFrom(s, doms, from, e);
      MatchIsFetched(s, q, doms, from, e);
    }
    RowsFollowTheStore(s, q, stored, "");
    RowsHoldTheMatches(s, q, stored);
    Paging.WholeScan(Rows(s, q, stored));
  }

  // ----- from records to answers

  ghost predicate RangeAffects<K>(h: Helper<K>, ranges: seq<Range>, version: string) {
    exists r :: r in ranges && IsVersionRange(r)
      && NearestEventAccepts(h, version, SortEvents(h, ConvertEvents(r.events)))
  }

  /** A listed version is the version: by the ecosystem's helper, or as text without one. */
  ghost predicate ListAffects<K>(s: Server<K>, x: string, name: string, versions: seq<string>, version: string) {
    match s.get(x)
    case Some(h) => exists v :: v in versions && h.VersionEq(v, version)
    case None => versions != [] && s.fuzzy(version, x, name, versions)
  }

  /** What the affected part of a record says about a version of an ecosystem: the listed versions
      count everywhere, the ranges wherever there is a helper but in Alpine and Ubuntu. */
  ghost predicate RecordAffects<K>(s: Server<K>, name: string, a: Affected, x: string, version: string) {
    || ListAffects(s, x, name, a.versions, version)
    || (x != "Alpine" && x != "Ubuntu" && s.get(x).Some? && RangeAffects(s.get(x).value, a.ranges, version))
  }

  lemma {:induction false} RangeIsIndexed<K>(c: Context<K>, ranges: seq<Range>, r: Range, x: string)
    requires r in ranges && IsVersionRange(r) && x in c.ecosystems
    ensures RangeEntity(c, r).(ecosystem := x) in RangeEntities(c, ranges)
  {
    if ranges[0] == r {
      IsForEcosystem(c.ecosystems, RangeEntity(c, r), x);
    } else {
      RangeIsIndexed(c, ranges[1..], r, x);
    }
  }

  lemma {:induction false} IsForEcosystem(ecosystems: seq<string>, entity: AffectedVersions, x: string)
    requires x in ecosystems
    ensures entity.(ecosystem := x) in ForEcosystems(ecosystems, entity)
  {
    var i :| 0 <= i < |ecosystems| && ecosystems[i] == x;
    assert ForEcosystems(ecosystems, entity)[i] == entity.(ecosystem := x);
  }

  /** The entity of a part's listed versions, but for its ecosystem. */
  function Listing<K>(c: Context<K>, versions: seq<string>): AffectedVersions
    requires versions != []
  {
    AffectedVersions(c.vulnId, "", c.name, versions, [], Some(VersionBounds(c.helper, versions)))
  }

  function Bare<K>(c: Context<K>): AffectedVersions { AffectedVersions(c.vulnId, "", c.name, [], [], None) }

  ghost predicate IsRepoEntity<K>(from: Source<K>, e: AffectedVersions) {
    var c, a := from.context, from.affected;
    RepoUrl(a.ranges) != ""
    && e == AffectedVersions(c.vulnId, "GIT", from.normalizeRepo(RepoUrl(a.ranges)), a.versions, [], None)
  }

  ghost predicate IsOfRange<K>(from: Source<K>, e: AffectedVersions) {
    var c, a := from.context, from.affected;
    e.versions == [] && exists r :: r in a.ranges && IsVersionRange(r) && e.events == RangeEvents(c.helper, r)
  }

  predicate IsOfList<K>(from: Source<K>, e: AffectedVersions) { e.versions == from.affected.versions != [] }

  /** Every entity is one of the repository or of the package, and then of a range, of the list, or bare. */
  lemma {:induction false} KindsOfEntity<K>(from: Source<K>, e: AffectedVersions)
    requires IsEntityOf(from, e)
    ensures e.vulnId == from.context.vulnId
    ensures IsRepoEntity(from, e) || (e.name == from.context.name && e.ecosystem in from.context.ecosystems)
    ensures IsRepoEntity(from, e) || IsOfRange(from, e) || IsOfList(from, e) || (e.versions == [] && e.events == [])
  {
    var c, a := from.context, from.affected;
    if e in RangeEntities(c, a.ranges) {
      var r := Prefilter.InRangeEntities(c, a.ranges, e);
    } else if e in VersionEntities(c, a.versions) {
      Prefilter.InForEcosystems(c.ecosystems, Listing(c, a.versions), e);
    } else if e in BareEntities(c, a) {
      Prefilter.InForEcosystems(c.ecosystems, Bare(c), e);
    }
  }

  lemma {:induction false} EntityBelongs<K>(from: Source<K>, e: AffectedVersions)
    requires IsEntityOf(from, e) && e.ecosystem != "GIT"
    ensures e.name == from.context.name && e.ecosystem in from.context.ecosystems && e.vulnId == from.context.vulnId
  {
    KindsOfEntity(from, e);
  }

  /** What an entity that accepts a version says about the part it was indexed from. */
  lemma {:induction false} EntityMeansRecord<K>(s: Server<K>, from: Source<K>, e: AffectedVersions, version: string)
    requires IsEntityOf(from, e) && OneHelper(s, from) && s.get("GIT") == None && AffectedAffects(s, version, e)
    ensures IsRepoEntity(from, e) ==> ListAffects(s, "GIT", e.name, from.affected.versions, version)
    ensures !IsRepoEntity(from, e) ==> RecordAffects(s, from.context.name, from.affected, e.ecosystem, version)
  {
    KindsOfEntity(from, e);
    if !IsRepoEntity(from, e) && e.versions == [] {
      var r :| r in from.affected.ranges && IsVersionRange(r) && e.events == RangeEvents(from.context.helper, r);
      assert s.get(e.ecosystem) == from.context.helper;
    }
  }

  /** A named part has an entity in every ecosystem it is filed under, and one that accepts the version
      if the part affects it there. */
  lemma {:induction false} RecordMeansEntity<K>(s: Server<K>, from: Source<K>, x: string, version: string)
    returns (e: AffectedVersions)
    requires OneHelper(s, from) && x in from.context.ecosystems && from.context.name != ""
    ensures IsEntityOf(from, e) && e.name == from.context.name && e.ecosystem == x && e.vulnId == from.context.vulnId
    ensures RecordAffects(s, from.context.name, from.affected, x, version) ==> AffectedAffects(s, version, e)
  {
    var c, a := from.context, from.affected;
    if ListAffects(s, x, c.name, a.versions, version) {
      e := ListedEntity(from, x);
    } else if s.get(x).Some? && RangeAffects(s.get(x).value, a.ranges, version) {
      var r :| r in a.ranges && IsVersionRange(r)
        && NearestEventAccepts(s.get(x).value, version, SortEvents(s.get(x).value, ConvertEvents(r.events)));
      e := RangeEntity(c, r).(ecosystem := x);
      RangeIsIndexed(c, a.ranges, r, x);
    } else {
      e := SomeEntity(from, x);
      assert s.get(x) == c.helper;
    }
  }

  lemma {:induction false} ListedEntity<K>(from: Source<K>, x: string) returns (e: AffectedVersions)
    requires x in from.context.ecosystems && from.context.name != "" && from.affected.versions != []
    ensures IsEntityOf(from, e) && e == Listing(from.context, from.affected.versions).(ecosystem := x)
  {
    var c, a := from.context, from.affected;
    e := Listing(c, a.versions).(ecosystem := x);
    IsForEcosystem(c.ecosystems, Listing(c, a.versions), x);
    assert e in VersionEntities(c, a.versions);
  }

  lemma {:induction false} SomeEntity<K>(from: Source<K>, x: string) returns (e: AffectedVersions)
    requires x in from.context.ecosystems && from.context.name != ""
    ensures IsEntityOf(from, e) && e.name == from.context.name && e.ecosystem == x && e.vulnId == from.context.vulnId
  {
    var c, a := from.context, from.affected;
    if a.versions != [] {
      e := ListedEntity(from, x);
    } else if r :| r in a.ranges && IsVersionRange(r) {
      e := RangeEntity(c, r).(ecosystem := x);
      RangeIsIndexed(c, a.ranges, r, x);
    } else {
      e := Bare(c).(ecosystem := x);
      IsForEcosystem(c.ecosystems, Bare(c), x);
      assert e in BareEntities(c, a);
    }
  }

  /** Some entity of the part accepts the version in the ecosystem. */
  ghost predicate IndexAffects<K>(s: Server<K>, from: Source<K>, x: string, version: string) {
    exists e :: IsEntityOf(from, e) && e.ecosystem == x && AffectedAffects(s, version, e)
  }

  /** Indexing keeps the meaning of a record: the entities of a named package accept a version in
      an ecosystem exactly if the record affects it. */
  lemma {:induction false} IndexKeepsMeaning<K>(s: Server<K>, from: Source<K>, x: string, version: string)
    requires OneHelper(s, from) && s.get("GIT") == None
    requires x in from.context.ecosystems && x != "GIT" && from.context.name != ""
    ensures IndexAffects(s, from, x, version) <==>
            RecordAffects(s, from.context.name, from.affected, x, version)
  {
    if IndexAffects(s, from, x, version) {
      var e :| IsEntityOf(from, e) && e.ecosystem == x && AffectedAffects(s, version, e);
      EntityMeansRecord(s, from, e, version);
    }
    if RecordAffects(s, from.context.name, from.affected, x, version) {
      var e := RecordMeansEntity(s, from, x, version);
    }
  }

  // ----- the whole way: from a set of records to the pages of a query

  ghost predicate HasKey(list: seq<AffectedVersions>, k: Store.SortKey) { exists e :: e in list && Store.KeyOf(e) == k }

  /** No sort key is stored but those of entities of the sources. */
  ghost predicate OnlyThese<K>(sources: seq<Source<K>>, stored: seq<AffectedVersions>) {
    forall e :: e in stored ==> exists i :: 0 <= i < |sources| && HasKey(EntitiesOf(sources[i]), Store.KeyOf(e))
  }

  /** For each entity of a source one with its sort key is stored. */
  ghost predicate StoresAll<K>(from: Source<K>, stored: seq<AffectedVersions>) {
    forall e :: IsEntityOf(from, e) ==> exists k :: k in stored && Store.KeyOf(k) == Store.KeyOf(e)
  }

  /** The sort keys stored are those of the sources. The bounds may be those of earlier sources. */
  ghost predicate Holds<K>(sources: seq<Source<K>>, stored: seq<AffectedVersions>) {
    OnlyThese(sources, stored) && forall i :: 0 <= i < |sources| ==> StoresAll(sources[i], stored)
  }

  /** The query is about this ecosystem: it names it, or none. */
  predicate Asks(q: Query, x: string) { q.ecosystem == "" || q.ecosystem == x }

  ghost predicate AffectsIn<K>(s: Server<K>, from: Source<K>, q: Query, x: string) {
    Asks(q, x) && (q.version == "" || RecordAffects(s, q.name, from.affected, x, q.version))
  }

  /** The part is about the queried package in an ecosystem asked about, and affects the version
      there, if one is asked about. */
  ghost predicate PackageConcerns<K>(s: Server<K>, from: Source<K>, q: Query) {
    && from.context.name == q.name
    && exists x :: x in from.context.ecosystems && AffectsIn(s, from, q, x)
  }

  /** The part names the queried repository, and lists the version, if one is asked about. */
  ghost predicate RepoConcerns<K>(s: Server<K>, from: Source<K>, q: Query) {
    var url := RepoUrl(from.affected.ranges);
    && url != "" && from.normalizeRepo(url) == q.name && Asks(q, "GIT")
    && (q.version == "" || ListAffects(s, "GIT", q.name, from.affected.versions, q.version))
  }

  ghost predicate Concerns<K>(s: Server<K>, from: Source<K>, q: Query) {
    PackageConcerns(s, from, q) || RepoConcerns(s, from, q)
  }

  /** The ids of the records the query is about. */
  ghost function AffectedRecords<K>(s: Server<K>, q: Query, sources: seq<Source<K>>): set<string> {
    set i | 0 <= i < |sources| && Concerns(s, sources[i], q) :: sources[i].context.vulnId
  }

  lemma {:induction false} MatchIsRecord<K(!new)>(s: Server<K>, q: Query, from: Source<K>, e: AffectedVersions)
    requires OneHelper(s, from) && s.get("GIT") == None
    requires IsEntityOf(from, e) && NameFilter(q, e) && Accepted(s, q, e)
    ensures Concerns(s, from, q) && e.vulnId == from.context.vulnId
  {
    KindsOfEntity(from, e);
    if q.version != "" { EntityMeansRecord(s, from, e, q.version); }
    if !IsRepoEntity(from, e) { assert e.ecosystem in from.context.ecosystems && AffectsIn(s, from, q, e.ecosystem); }
  }

  lemma {:induction false} RecordIsMatch<K(!new)>(s: Server<K>, q: Query, from: Source<K>) returns (e: AffectedVersions)
    requires OneHelper(s, from) && s.get("GIT") == None && q.name != "" && Concerns(s, from, q)
    ensures IsEntityOf(from, e) && NameFilter(q, e) && Accepted(s, q, e) && e.vulnId == from.context.vulnId
  {
    if PackageConcerns(s, from, q) {
      var x :| x in from.context.ecosystems && AffectsIn(s, from, q, x);
      e := RecordMeansEntity(s, from, x, q.version);
    } else {
      e := RepoEntity(from);
    }
  }

  lemma {:induction false} RepoEntity<K>(from: Source<K>) returns (e: AffectedVersions)
    requires RepoUrl(from.affected.ranges) != ""
    ensures IsEntityOf(from, e) && IsRepoEntity(from, e)
  {
    var c, a := from.context, from.affected;
    e := AffectedVersions(c.vulnId, "GIT", from.normalizeRepo(RepoUrl(a.ranges)), a.versions, [], None);
    assert e in RepoEntities(c, a, from.normalizeRepo);
  }

  /** The decision on an entity depends on its sort key only. */
  lemma {:induction false} SameKeySameDecision<K>(s: Server<K>, q: Query, e: AffectedVersions, k: AffectedVersions)
    requires Store.KeyOf(e) == Store.KeyOf(k)
    requires NameFilter(q, e) && Accepted(s, q, e)
    ensures NameFilter(q, k) && Accepted(s, q, k)
  {
  }

  lemma {:induction false} MatchesAreAffected<K(!new)>(
      s: Server<K>, q: Query, sources: seq<Source<K>>, stored: seq<AffectedVersions>)
    requires OnlyThese(sources, stored) && forall i :: 0 <= i < |sources| ==> OneHelper(s, sources[i])
    requires s.get("GIT") == None
    ensures TrueMatches(s, q, stored) <= AffectedRecords(s, q, sources)
  {
    forall e | e in stored && NameFilter(q, e) && Accepted(s, q, e) ensures e.vulnId in AffectedRecords(s, q, sources) {
      var i :| 0 <= i < |sources| && HasKey(EntitiesOf(sources[i]), Store.KeyOf(e));
      var k :| k in EntitiesOf(sources[i]) && Store.KeyOf(k) == Store.KeyOf(e);
      SameKeySameDecision(s, q, e, k);
      MatchIsRecord(s, q, sources[i], k);
    }
  }

  lemma {:induction false} AffectedIsMatch<K(!new)>(
      s: Server<K>, q: Query, from: Source<K>, stored: seq<AffectedVersions>)
    requires OneHelper(s, from) && s.get("GIT") == None && Concerns(s, from, q) && StoresAll(from, stored)
    requires q.name != ""
    ensures from.context.vulnId in TrueMatches(s, q, stored)
  {
    var e := RecordIsMatch(s, q, from);
    var k :| k in stored && Store.KeyOf(k) == Store.KeyOf(e);
    SameKeySameDecision(s, q, e, k);
  }

  lemma {:induction false} AffectedAreMatches<K(!new)>(
      s: Server<K>, q: Query, sources: seq<Source<K>>, stored: seq<AffectedVersions>)
    requires forall i :: 0 <= i < |sources| ==> OneHelper(s, sources[i]) && StoresAll(sources[i], stored)
    requires q.name != "" && s.get("GIT") == None
    ensures AffectedRecords(s, q, sources) <= TrueMatches(s, q, stored)
  {
    forall i | 0 <= i < |sources| && Concerns(s, sources[i], q)
      ensures sources[i].context.vulnId in TrueMatches(s, q, stored)
    {
      AffectedIsMatch(s, q, sources[i], stored);
    }
  }

  /** Indexing, deduplication, coarse prefilter, exact match and scan together: a query for a package
      or a repository, in one ecosystem or in all, for one version or for all, is answered with the
      sorted ids of exactly the records it is about. */
  lemma {:induction false} QueryAnswersRecords<K(!new)>(
      s: Server<K>, q: Query, doms: Domains, sources: seq<Source<K>>, stored: seq<AffectedVersions>)
    requires SoundStore(s, doms, stored) && Holds(sources, stored)
    requires forall i :: 0 <= i < |sources| ==> OneHelper(s, sources[i])
    requires q.name != "" && InDomain(doms, q)
    ensures Paging.Scan(Rows(s, q, stored), "") == SortedOf(AffectedRecords(s, q, sources) - {""})
  {
    MatchesAreAffected(s, q, sources, stored);
    AffectedAreMatches(s, q, sources, stored);
    QueryReturnsExactlyTheMatches(s, q, doms, stored);
    SameAnswer(Paging.Scan(Rows(s, q, stored), ""), TrueMatches(s, q, stored), AffectedRecords(s, q, sources));
  }

  lemma {:induction false} SameAnswer(answer: seq<string>, a: set<string>, b: set<string>)
    requires a <= b && b <= a && answer == SortedOf(a - {""})
    ensures answer == SortedOf(b - {""})
  {
    assert a == b;
  }
}
