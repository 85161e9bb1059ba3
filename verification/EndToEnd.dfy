/** The whole way: records are written one after the other, a query is asked, and the caller follows
    its pages. The answer is exactly the latest records that affect the queried version. */
module EndToEnd {
  import opened Strings
  import opened StringSets
  import opened Sorting
  import opened Ecosystems
  import opened Indexing
  import opened Matching
  import opened Store
  import opened QueryResults
  import Base64
  import Cursor
  import Paging

  // ----- what a run of writes leaves in the store

  ghost predicate IsLatest<K>(r: Record<K>, records: seq<Record<K>>) {
    r in records && LastFor(records, r.id) == Some(r) && !r.withdrawn
  }

  /** The parts of the records that are the latest of their ids and not withdrawn. */
  ghost function LiveParts<K>(records: seq<Record<K>>, all: seq<Record<K>>): seq<Part<K>> {
    if records == [] then []
    else (if IsLatest(records[0], all) then records[0].parts else []) + LiveParts(records[1..], all)
  }

  lemma {:induction false} InLiveParts<K>(records: seq<Record<K>>, all: seq<Record<K>>, p: Part<K>)
    ensures p in LiveParts(records, all) <==> exists r :: r in records && IsLatest(r, all) && p in r.parts
  {
    if records != [] {
      InLiveParts(records[1..], all, p);
      assert records == [records[0]] + records[1..];
    }
  }

  function SourceOf<K>(p: Part<K>, normalizeRepo: string -> string)
    : Source<K>
  {
    Source(p.context, p.affected, normalizeRepo)
  }

  function SourcesOf<K>(parts: seq<Part<K>>, normalizeRepo: string -> string): (sources: seq<Source<K>>)
    ensures |sources| == |parts| && forall i :: 0 <= i < |parts| ==> sources[i] == SourceOf(parts[i], normalizeRepo)
  {
    seq(|parts|, i requires 0 <= i < |parts| => SourceOf(parts[i], normalizeRepo))
  }

  lemma {:induction false} EntityOfPart<K>(p: Part<K>, normalizeRepo: string -> string, e: AffectedVersions,
        own: seq<AffectedVersions>)
    requires own == Entities(p.context, p.affected, normalizeRepo)
    ensures IsEntityOf(SourceOf(p, normalizeRepo), e) <==> e in own
  {
  }

  lemma {:induction false} InAppend(a: seq<AffectedVersions>, b: seq<AffectedVersions>, e: AffectedVersions)
    ensures e in a + b <==> e in a || e in b
  {
  }

  lemma {:induction false} InAllEntities<K>(parts: seq<Part<K>>, normalizeRepo: string -> string, e: AffectedVersions)
    ensures e in AllEntities(parts, normalizeRepo) <==>
            exists p :: p in parts && IsEntityOf(SourceOf(p, normalizeRepo), e)
  {
    if parts != [] {
      var first, rest := parts[0], parts[1..];
      var own, others := Entities(first.context, first.affected, normalizeRepo), AllEntities(rest, normalizeRepo);
      InAllEntities(rest, normalizeRepo, e);
      EntityOfPart(first, normalizeRepo, e, own);
      InAppend(own, others, e);
      SomePart(first, rest, parts, normalizeRepo, e);
    }
  }

  lemma {:induction false} SomePart<K>(first: Part<K>, rest: seq<Part<K>>, parts: seq<Part<K>>,
        normalizeRepo: string -> string, e: AffectedVersions)
    requires parts != [] && first == parts[0] && rest == parts[1..]
    ensures (exists p :: p in parts && IsEntityOf(SourceOf(p, normalizeRepo), e)) <==>
            IsEntityOf(SourceOf(first, normalizeRepo), e)
            || exists p :: p in rest && IsEntityOf(SourceOf(p, normalizeRepo), e)
  {
    assert parts == [first] + rest;
  }

  lemma {:induction false} LastIsListed<K>(records: seq<Record<K>>, id: string)
    ensures LastFor(records, id).Some? ==> LastFor(records, id).value in records && LastFor(records, id).value.id == id
  {
    if records != [] { LastIsListed(records[..|records| - 1], id); }
  }

  /** Every stored entity was wanted by one of the records. */
  lemma {:induction false} EntityHasRecord<K>(records: seq<Record<K>>, normalizeRepo: string -> string, k: SortKey)
    returns (r: Record<K>)
    requires EntityAfter(map[], records, normalizeRepo, k).Some?
    ensures r in records && EntityAfter(map[], records, normalizeRepo, k).value in AllEntities(r.parts, normalizeRepo)
  {
    var n := |records| - 1;
    var before := EntityAfter(map[], records[..n], normalizeRepo, k);
    if before == EntityAfter(map[], records, normalizeRepo, k) {
      r := EntityHasRecord(records[..n], normalizeRepo, k);
    } else {
      r := records[n];
    }
  }

  /** The store as a list in the order of the ids. */
  ghost predicate Lists(stored: seq<AffectedVersions>, affected: Stored) {
    && (forall e :: e in stored <==> exists i :: i in affected && affected[i] == e)
    && (forall i, j :: 0 <= i < j < |stored| ==> Le(stored[i].vulnId, stored[j].vulnId))
  }

  /** The contents of a store filled by the records from nothing. */
  ghost predicate FilledBy<K>(affected: Stored, records: seq<Record<K>>, normalizeRepo: string -> string) {
    Unique(affected) && forall k :: At(affected, k) == EntityAfter(map[], records, normalizeRepo, k)
  }

  ghost predicate SoundRecords<K(!new)>(
      s: Server<K>, doms: Domains, records: seq<Record<K>>, normalizeRepo: string -> string) {
    forall r, p :: r in records && p in r.parts ==> SoundSource(s, doms, SourceOf(p, normalizeRepo))
  }

  lemma {:induction false} StoreIsSound<K(!new)>(
      s: Server<K>, doms: Domains, records: seq<Record<K>>, normalizeRepo: string -> string, affected: Stored,
        stored: seq<AffectedVersions>)
    requires FilledBy(affected, records, normalizeRepo) && Lists(stored, affected)
    requires SoundRecords(s, doms, records, normalizeRepo) && s.get("GIT") == None
    ensures SoundStore(s, doms, stored)
  {
    forall e | e in stored ensures exists from :: IndexedFrom(s, doms, from, e) {
      var i :| i in affected && affected[i] == e;
      AtIs(affected, i);
      var r := EntityHasRecord(records, normalizeRepo, KeyOf(e));
      InAllEntities(r.parts, normalizeRepo, e);
      var p :| p in r.parts && IsEntityOf(SourceOf(p, normalizeRepo), e);
      assert IndexedFrom(s, doms, SourceOf(p, normalizeRepo), e);
    }
  }

  lemma {:induction false} StoredKeyIsLive<K>(records: seq<Record<K>>, normalizeRepo: string -> string,
        affected: Stored, i: nat) returns (p: Part<K>)
    requires FilledBy(affected, records, normalizeRepo) && i in affected
    ensures p in LiveParts(records, records) && HasKey(EntitiesOf(SourceOf(p, normalizeRepo)), KeyOf(affected[i]))
  {
    var k := KeyOf(affected[i]);
    AtIs(affected, i);
    LatestKeys(map[], records, normalizeRepo, k);
    LastIsListed(records, k.vulnId);
    var r := LastFor(records, k.vulnId).value;
    var e := Wanted(r, normalizeRepo)[k];
    InAllEntities(r.parts, normalizeRepo, e);
    p :| p in r.parts && IsEntityOf(SourceOf(p, normalizeRepo), e);
    InLiveParts(records, records, p);
  }

  lemma {:induction false} LiveKeyIsStored<K>(records: seq<Record<K>>, normalizeRepo: string -> string,
        affected: Stored, p: Part<K>, e: AffectedVersions) returns (i: nat)
    requires FilledBy(affected, records, normalizeRepo) && (forall r :: r in records ==> OwnParts(r))
    requires p in LiveParts(records, records) && IsEntityOf(SourceOf(p, normalizeRepo), e)
    ensures i in affected && KeyOf(affected[i]) == KeyOf(e)
  {
    InLiveParts(records, records, p);
    var r :| r in records && IsLatest(r, records) && p in r.parts;
    InAllEntities(r.parts, normalizeRepo, e);
    AllKeepId(r.parts, normalizeRepo, r.id, e);
    LatestKeys(map[], records, normalizeRepo, KeyOf(e));
    assert At(affected, KeyOf(e)).Some?;
    i :| i in affected && KeyOf(affected[i]) == KeyOf(e);
  }

  lemma {:induction false} StoreHolds<K>(records: seq<Record<K>>, normalizeRepo: string -> string, affected: Stored,
        stored: seq<AffectedVersions>)
    requires FilledBy(affected, records, normalizeRepo) && Lists(stored, affected)
    requires (forall r :: r in records ==> OwnParts(r))
    ensures Holds(SourcesOf(LiveParts(records, records), normalizeRepo), stored)
  {
    var parts := LiveParts(records, records);
    var sources := SourcesOf(parts, normalizeRepo);
    forall e | e in stored ensures exists j :: 0 <= j < |sources| && HasKey(EntitiesOf(sources[j]), KeyOf(e)) {
      var i :| i in affected && affected[i] == e;
      var p := StoredKeyIsLive(records, normalizeRepo, affected, i);
      var j :| 0 <= j < |parts| && parts[j] == p;
      assert HasKey(EntitiesOf(sources[j]), KeyOf(e));
    }
    forall j | 0 <= j < |sources| ensures StoresAll(sources[j], stored) {
      forall e | IsEntityOf(sources[j], e) ensures exists k :: k in stored && KeyOf(k) == KeyOf(e) {
        var i := LiveKeyIsStored(records, normalizeRepo, affected, parts[j], e);
        assert affected[i] in stored;
      }
    }
  }

  /** The ids of the latest records the query is about. */
  ghost function Answer<K>(s: Server<K>, q: Query, records: seq<Record<K>>, normalizeRepo: string -> string)
    : set<string>
  {
    AffectedRecords(s, q, SourcesOf(LiveParts(records, records), normalizeRepo))
  }

  /** The answer in terms of the records: an id is in it exactly if the latest record with that id is
      not withdrawn and the query is about one of its parts. */
  lemma {:induction false} AnswerMeans<K>(s: Server<K>, q: Query, records: seq<Record<K>>,
        normalizeRepo: string -> string, id: string)
    requires forall r :: r in records ==> OwnParts(r)
    ensures id in Answer(s, q, records, normalizeRepo) <==>
            match LastFor(records, id)
            case None => false
            case Some(r) => !r.withdrawn && exists p :: p in r.parts && Concerns(s, SourceOf(p, normalizeRepo), q)
  {
    var parts := LiveParts(records, records);
    LastIsListed(records, id);
    if id in Answer(s, q, records, normalizeRepo) {
      var i :| 0 <= i < |parts| && Concerns(s, SourceOf(parts[i], normalizeRepo), q) && parts[i].context.vulnId == id;
      InLiveParts(records, records, parts[i]);
    }
    if LastFor(records, id).Some? && !LastFor(records, id).value.withdrawn {
      forall p | p in LastFor(records, id).value.parts && Concerns(s, SourceOf(p, normalizeRepo), q)
        ensures id in Answer(s, q, records, normalizeRepo)
      {
        InLiveParts(records, records, p);
        var i :| 0 <= i < |parts| && parts[i] == p;
      }
    }
  }

  /** The scan over a store filled by the records is the answer. */
  lemma {:induction false} StoreAnswers<K(!new)>(
      s: Server<K>, q: Query, doms: Domains, records: seq<Record<K>>,
        normalizeRepo: string -> string, affected: Stored, stored: seq<AffectedVersions>)
    requires FilledBy(affected, records, normalizeRepo) && Lists(stored, affected)
    requires (forall r :: r in records ==> OwnParts(r)) && SoundRecords(s, doms, records, normalizeRepo)
    requires s.get("GIT") == None
    requires q.name != "" && InDomain(doms, q)
    ensures Paging.Scan(Rows(s, q, stored), "") == SortedOf(Answer(s, q, records, normalizeRepo) - {""})
  {
    var sources := SourcesOf(LiveParts(records, records), normalizeRepo);
    StoreIsSound(s, doms, records, normalizeRepo, affected, stored);
    StoreHolds(records, normalizeRepo, affected, stored);
    forall i | 0 <= i < |sources| ensures OneHelper(s, sources[i]) {
      InLiveParts(records, records, LiveParts(records, records)[i]);
    }
    QueryAnswersRecords(s, q, doms, sources, stored);
  }

  // ----- the run itself

  /** A listing of the store in the order of the ids. */
  method ListStore(affected: Stored) returns (stored: seq<AffectedVersions>)
    ensures Lists(stored, affected)
  {
    var list: seq<AffectedVersions> := [];
    var rest := affected.Keys;
    while rest != {}
      invariant rest <= affected.Keys
      invariant forall e :: e in list <==> exists i :: i in affected && i !in rest && affected[i] == e
      decreases rest
    {
      var i :| i in rest;
      ghost var was, left := list, rest;
      list := list + [affected[i]];
      rest := rest - {i};
      forall e ensures e in list <==> exists j :: j in affected && j !in rest && affected[j] == e {
        assert e in list <==> e in was || e == affected[i];
      }
    }
    stored := SortById(list);
  }

  predicate IdBefore(a: AffectedVersions, b: AffectedVersions) { Lt(a.vulnId, b.vulnId) }

  method SortById(list: seq<AffectedVersions>) returns (sorted: seq<AffectedVersions>)
    ensures forall e :: e in sorted <==> e in list
    ensures forall i, j :: 0 <= i < j < |sorted| ==> Le(sorted[i].vulnId, sorted[j].vulnId)
  {
    sorted := Sort(list, IdBefore);
    SameElements(sorted, list);
    SameElements(list, sorted);
    IdsAreOrdered(list);
    SortSorted(list, IdBefore);
  }

  lemma {:induction false} IdsAreOrdered(list: seq<AffectedVersions>)
    ensures WeakOrderOn(list, IdBefore)
  {
    forall x: AffectedVersions,
      y: AffectedVersions | IdBefore(x, y) ensures !IdBefore(y, x) { Trichotomy(x.vulnId, y.vulnId); }
    forall x: AffectedVersions, y: AffectedVersions, z: AffectedVersions | IdBefore(x, z) ensures IdBefore(x, y)
      || IdBefore(y, z) {
      Trichotomy(x.vulnId, y.vulnId);
      if Lt(y.vulnId, x.vulnId) { LtTransitive(y.vulnId, x.vulnId, z.vulnId); }
    }
  }

  /** The database's cursors: every position has bytes of its own that find it again. */
  ghost predicate Cursors(mark: nat -> Base64.bytes, find: Base64.bytes -> nat) {
    forall i: nat :: find(mark(i)) == i && mark(i) != [] && mark(i) != Cursor.FIRST_PAGE
  }

  /** The records are written into an empty store. */
  method FillStore<K>(records: seq<Record<K>>, normalizeRepo: string -> string) returns (affected: Stored)
    requires forall r :: r in records ==> OwnParts(r)
    ensures FilledBy(affected, records, normalizeRepo)
  {
    var store := new Datastore();
    store.PutAll(records, normalizeRepo);
    affected := store.affected;
  }

  /** A query on rows is asked page by page. */
  method AskRows(
    rows: seq<Paging.Row>, mark: nat -> Base64.bytes, find: Base64.bytes -> nat,
    limits: nat -> nat, turns: nat -> nat -> Paging.Turn, toInt: IntParser)
    returns (ids: seq<string>)
    requires Cursors(mark, find) && Cursor.ReadsNumbers(toInt) && forall page :: !turns(page)(0).late
    ensures ids == Paging.Scan(rows, "")
  {
    var query := Paging.Query(rows, mark, b => if find(b) <= |rows| then find(b) else 0);
    ids := Paging.FollowTokens(query, limits, turns, toInt);
  }

  /** From nothing: records are written, a package query is asked, the tokens are followed.
      The caller receives the sorted ids of exactly the latest records the query is about. */
  method WriteAndAsk<K(!new)>(
    records: seq<Record<K>>, normalizeRepo: string -> string,
    s: Server<K>, q: Query, ghost doms: Domains,
    mark: nat -> Base64.bytes, find: Base64.bytes -> nat,
    limits: nat -> nat, turns: nat -> nat -> Paging.Turn, toInt: IntParser)
    returns (ids: seq<string>)
    requires (forall r :: r in records ==> OwnParts(r)) && SoundRecords(s, doms, records, normalizeRepo)
    requires s.get("GIT") == None
    requires q.name != "" && InDomain(doms, q)
    requires Cursors(mark, find) && Cursor.ReadsNumbers(toInt) && forall page :: !turns(page)(0).late
    ensures ids == SortedOf(Answer(s, q, records, normalizeRepo) - {""})
  {
    var affected := FillStore(records, normalizeRepo);
    var stored := ListStore(affected);
    StoreAnswers(s, q, doms, records, normalizeRepo, affected, stored);
    ids := AskRows(Rows(s, q, stored), mark, find, limits, turns, toInt);
  }

  // ----- bounds are not refreshed

  /** A record with one listed version of one package. */
  function OneVersion<K>(id: string, name: string, ecosystem: string, helper: Helper<K>, version: string): Record<K> {
    Record(id, false, [Part(Context(id, name, Some(helper), [ecosystem]), Affected([], [version]))])
  }

  function OneEntity(id: string, name: string, ecosystem: string, version: string, coarse: string): AffectedVersions {
    AffectedVersions(id, ecosystem, name, [version], [], Some(Bounds(coarse, coarse)))
  }

  lemma {:induction false} OneVersionWants<K>(id: string, name: string, ecosystem: string, h: Helper<K>,
        version: string, normalizeRepo: string -> string)
    requires name != "" && h.coarse(version).Ok?
    ensures var e := OneEntity(id, name, ecosystem, version, h.coarse(version).text);
            Wanted(OneVersion(id, name, ecosystem, h, version), normalizeRepo) == map[KeyOf(e) := e]
  {
    var c, a := Context(id, name, Some(h), [ecosystem]), Affected([], [version]);
    var e := OneEntity(id, name, ecosystem, version, h.coarse(version).text);
    assert VersionBounds(Some(h), [version]) == Bounds(h.coarse(version).text, h.coarse(version).text);
    assert ForEcosystems([ecosystem], e) == [e];
    assert Entities(c, a, normalizeRepo) == [e];
    var parts := [Part(c, a)];
    assert parts[1..] == [] && AllEntities(parts, normalizeRepo) == [e] + [] == [e];
    assert [e][..0] == [] && Dict([e]) == map[KeyOf(e) := e];
  }

  /** An entity with the bounds of another coarse version is accepted for its version and not fetched. */
  lemma {:induction false} OtherBoundsHide<K>(s: Server<K>, h: Helper<K>, version: string, e: AffectedVersions,
        coarse: string)
    requires e == OneEntity(e.vulnId, e.name, e.ecosystem, version, coarse)
    requires e.name != "" && e.ecosystem != "" && version != "" && s.get(e.ecosystem) == Some(h)
    requires h.VersionEq(version, version) && h.coarse(version).Ok? && h.coarse(version).text != coarse
    ensures var q := Query(e.name, e.ecosystem, version); NameFilter(q, e) && Accepted(s, q, e) && !Fetched(s, q, e)
  {
    assert version in e.versions;
    Trichotomy(coarse, h.coarse(version).text);
  }

  lemma {:induction false} OneMoreRecord<K>(s: Stored, before: seq<Record<K>>, r: Record<K>,
        normalizeRepo: string -> string, k: SortKey, had: Option<AffectedVersions>, want: ByKey)
    requires had == EntityAfter(s, before, normalizeRepo, k) && want == Wanted(r, normalizeRepo) && k.vulnId == r.id
    ensures EntityAfter(s, before + [r], normalizeRepo, k) ==
            if k !in want then None else if had.Some? then had else Some(want[k])
  {
    var records := before + [r];
    assert records[..|records| - 1] == before && records[|records| - 1] == r;
  }

  lemma {:induction false} FirstStays<K>(first: Record<K>, second: Record<K>, normalizeRepo: string -> string,
        k: SortKey, one: ByKey, two: ByKey)
    requires one == Wanted(first, normalizeRepo) && two == Wanted(second, normalizeRepo)
    requires first.id == second.id == k.vulnId
    ensures EntityAfter(map[], [first, second], normalizeRepo, k) ==
            if k !in two then None else if k in one then Some(one[k]) else Some(two[k])
  {
    assert EntityAfter<K>(map[], [], normalizeRepo, k) == None;
    OneMoreRecord(map[], [], first, normalizeRepo, k, None, one);
    assert [] + [first] == [first] && [first] + [second] == [first, second];
    OneMoreRecord(map[], [first], second, normalizeRepo, k, if k in one then Some(one[k]) else None, two);
  }

  /** Two writes that want the same key: the entity of the first stays. */
  method WriteTwice<K>(first: Record<K>, second: Record<K>, normalizeRepo: string -> string,
        ghost was: AffectedVersions, ghost now: AffectedVersions)
    returns (affected: Stored)
    requires OwnParts(first) && OwnParts(second) && first.id == second.id == was.vulnId && KeyOf(was) == KeyOf(now)
    requires Wanted(first, normalizeRepo) == map[KeyOf(was) := was]
    requires Wanted(second, normalizeRepo) == map[KeyOf(now) := now]
    ensures exists i :: i in affected && affected[i].vulnId == first.id
    ensures forall i :: i in affected && affected[i].vulnId == first.id ==> affected[i] == was
  {
    var records := [first, second];
    affected := FillStore(records, normalizeRepo);
    forall k: SortKey | k.vulnId == first.id ensures At(affected, k) == if k == KeyOf(was) then Some(was) else None {
      FirstStays(first, second, normalizeRepo, k, map[KeyOf(was) := was], map[KeyOf(now) := now]);
    }
    forall i | i in affected && affected[i].vulnId == first.id ensures affected[i] == was { AtIs(affected, i); }
    assert At(affected, KeyOf(was)) == Some(was);
  }

  /** The same record is written with one helper and again with another whose coarse version of the
      listed version differs. The stored entity keeps its bounds: a query for that very version is
      matched by it and does not fetch it. */
  method ReindexingHidesMatch<K(!new)>(
    id: string, name: string, ecosystem: string, before: Helper<K>, after: Helper<K>, version: string,
      normalizeRepo: string -> string)
    returns (e: AffectedVersions)
    requires name != "" && ecosystem != "" && version != "" && after.VersionEq(version, version)
    requires before.coarse(version).Ok? && after.coarse(version).Ok? && before.coarse(version) != after.coarse(version)
    ensures e.vulnId == id
    ensures forall s: Server<K> :: s.get(ecosystem) == Some(after) ==>
              var q := Query(name, ecosystem, version); NameFilter(q, e) && Accepted(s, q, e) && !Fetched(s, q, e)
  {
    ghost var was := OneEntity(id, name, ecosystem, version, before.coarse(version).text);
    ghost var now := OneEntity(id, name, ecosystem, version, after.coarse(version).text);
    OneVersionWants(id, name, ecosystem, before, version, normalizeRepo);
    OneVersionWants(id, name, ecosystem, after, version, normalizeRepo);
    var first, second := OneVersion(id, name, ecosystem, before, version),
      OneVersion(id, name, ecosystem, after, version);
    var affected := WriteTwice(first, second, normalizeRepo, was, now);
    var i :| i in affected && affected[i].vulnId == id;
    e := affected[i];
    forall s: Server<K> | s.get(ecosystem) == Some(after)
      ensures var q := Query(name, ecosystem, version); NameFilter(q, e) && Accepted(s, q, e) && !Fetched(s, q, e)
    {
      OtherBoundsHide(s, after, version, e, before.coarse(version).text);
    }
  }
}
