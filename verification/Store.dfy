/** Writing the AffectedVersions entities of a record: deduplication, the difference from what
    is stored, and the store after any run of writes. */
module Store {
  import opened Ecosystems
  import opened Indexing
  import opened Sorting

  /** AffectedVersions.sort_key: everything but the coarse bounds. */
  datatype SortKey = SortKey(vulnId: string, ecosystem: string, name: string, versions: seq<string>,
    events: seq<AffectedEvent>)

  function KeyOf(e: AffectedVersions): SortKey { SortKey(e.vulnId, e.ecosystem, e.name, e.versions, e.events) }

  // ----- affected_from_proto

  datatype Part<!K> = Part(context: Context<K>, affected: Affected)

  function AllEntities<K>(parts: seq<Part<K>>, normalizeRepo: string -> string): seq<AffectedVersions> {
    if parts == [] then []
    else Entities(parts[0].context, parts[0].affected, normalizeRepo) + AllEntities(parts[1..], normalizeRepo)
  }

  type ByKey = map<SortKey, AffectedVersions>

  /** {av.sort_key(): av for av in list}: the last entity of each key. */
  function Dict(list: seq<AffectedVersions>): (m: ByKey)
    ensures forall k :: k in m ==> m[k] in list && KeyOf(m[k]) == k
    ensures forall e :: e in list ==> KeyOf(e) in m
  {
    if list == [] then map[]
    else
      var last := list[|list| - 1];
      assert list == list[..|list| - 1] + [last];
      Dict(list[..|list| - 1])[KeyOf(last) := last]
  }

  method AffectedFromProto<K>(parts: seq<Part<K>>, normalizeRepo: string -> string) returns (unique: ByKey)
    ensures unique == Dict(AllEntities(parts, normalizeRepo))
  {
    var list: seq<AffectedVersions> := [];
    ghost var all := AllEntities(parts, normalizeRepo);
    assert list + all == all;
    for i := 0 to |parts|
      invariant list + AllEntities(parts[i..], normalizeRepo) == all
    {
      var own := FromAffected(parts[i].context, parts[i].affected, normalizeRepo);
      ghost var rest := AllEntities(parts[i + 1..], normalizeRepo);
      assert parts[i..][1..] == parts[i + 1..];
      Associative(list, own, rest);
      list := list + own;
    }
    assert list + [] == list;
    unique := Deduplicate(list);
  }

  method Deduplicate(list: seq<AffectedVersions>) returns (m: ByKey)
    ensures m == Dict(list)
  {
    m := map[];
    for i := 0 to |list|
      invariant m == Dict(list[..i])
    {
      assert list[..i + 1][..i] == list[..i];
      m := m[KeyOf(list[i]) := list[i]];
    }
    assert list[..|list|] == list;
  }

  lemma {:induction false} ForEcosystemsKeepId(ecosystems: seq<string>, entity: AffectedVersions, e: AffectedVersions)
    requires e in ForEcosystems(ecosystems, entity)
    ensures e.vulnId == entity.vulnId
  {
  }

  lemma {:induction false} RangesKeepId<K>(c: Context<K>, ranges: seq<Range>, e: AffectedVersions)
    requires e in RangeEntities(c, ranges)
    ensures e.vulnId == c.vulnId
  {
    if e in EntitiesOfRange(c, ranges[0]) {
      ForEcosystemsKeepId(c.ecosystems, RangeEntity(c, ranges[0]), e);
    } else {
      RangesKeepId(c, ranges[1..], e);
    }
  }

  lemma {:induction false} EntitiesKeepId<K>(c: Context<K>, a: Affected, normalizeRepo: string -> string,
        e: AffectedVersions)
    requires e in Entities(c, a, normalizeRepo)
    ensures e.vulnId == c.vulnId
  {
    if e in RangeEntities(c, a.ranges) { RangesKeepId(c, a.ranges, e); }
  }

  lemma {:induction false} AllKeepId<K>(parts: seq<Part<K>>, normalizeRepo: string -> string, id: string,
        e: AffectedVersions)
    requires forall p :: p in parts ==> p.context.vulnId == id
    requires e in AllEntities(parts, normalizeRepo)
    ensures e.vulnId == id
  {
    if e in Entities(parts[0].context, parts[0].affected, normalizeRepo) {
      EntitiesKeepId(parts[0].context, parts[0].affected, normalizeRepo, e);
      assert parts[0] in parts;
    } else {
      AllKeepId(parts[1..], normalizeRepo, id, e);
    }
  }

  // ----- the stored entities

  type Stored = map<nat, AffectedVersions>

  ghost function Keys(s: Stored): set<SortKey> { set i | i in s :: KeyOf(s[i]) }

  /** AffectedVersions.query(vuln_id == id). */
  function Of(s: Stored, id: string): Stored { map i | i in s && s[i].vulnId == id :: s[i] }

  ghost predicate Twice(s: Stored, k: SortKey) {
    exists i, j :: i in s && j in s && i != j && KeyOf(s[i]) == k && KeyOf(s[j]) == k
  }

  /** No two stored entities share a key. */
  ghost predicate Unique(s: Stored) { forall i, j :: i in s && j in s && KeyOf(s[i]) == KeyOf(s[j]) ==> i == j }

  /** The wanted entities whose keys are not stored. */
  ghost function Missing(had: Stored, want: ByKey): ByKey { map k | k in want && k !in Keys(had) :: want[k] }

  /** Exactly one stored entity of each key no longer wanted. */
  ghost predicate OneOfEach(had: Stored, want: ByKey, removed: set<nat>) {
    && (forall i :: i in removed ==> i in had && KeyOf(had[i]) !in want)
    && (forall i, j :: i in removed && j in removed && KeyOf(had[i]) == KeyOf(had[j]) ==> i == j)
    && (forall k :: k in Keys(had) && k !in want ==> exists i :: i in removed && KeyOf(had[i]) == k)
  }

  /** diff_affected_versions: what to put and what to delete. */
  method Diff(had: Stored, want: ByKey) returns (added: ByKey, removed: set<nat>)
    ensures added == Missing(had, want)
    ensures OneOfEach(had, want, removed)
  {
    var all: map<SortKey, nat> := map[];
    var rest := had.Keys;
    while rest != {}
      invariant rest <= had.Keys
      invariant forall k :: k in all ==> all[k] in had && KeyOf(had[all[k]]) == k
      invariant forall i :: i in had && i !in rest ==> KeyOf(had[i]) in all
    {
      var i :| i in rest;
      rest := rest - {i};
      all := all[KeyOf(had[i]) := i];
    }
    added := map k | k in want && k !in all :: want[k];
    removed := set k | k in all && k !in want :: all[k];
    forall k | k in Keys(had) && k !in want ensures exists i :: i in removed && KeyOf(had[i]) == k {
      assert all[k] in removed;
    }
  }

  // ----- the store of one kind of entity after a write, as a value

  /** The store before a write, without the removed entities and with the added ones. */
  ghost predicate Written(before: Stored, after: Stored, added: ByKey, removed: set<nat>) {
    && (forall i :: i in before && i !in removed ==> i in after && after[i] == before[i])
    && (forall i :: i in after && i in before ==> i !in removed && after[i] == before[i])
    && (forall i :: i in after && i !in before ==> KeyOf(after[i]) in added && after[i] == added[KeyOf(after[i])])
    && NewApart(before, after)
    && (forall k :: k in added ==> exists i :: i in after && i !in before && after[i] == added[k])
  }

  ghost predicate NewApart(before: Stored, after: Stored) {
    forall i, j :: i in after && j in after && i !in before && j !in before && KeyOf(after[i]) == KeyOf(after[j]) ==>
      i == j
  }

  lemma {:induction false} LeftKeys(before: Stored, after: Stored, id: string, want: ByKey, added: ByKey,
        removed: set<nat>, k: SortKey)
    requires forall k :: k in want ==> want[k].vulnId == id && KeyOf(want[k]) == k
    requires added == Missing(Of(before, id), want)
    requires OneOfEach(Of(before, id), want, removed) && Written(before, after, added, removed)
    requires k in Keys(Of(after, id))
    ensures k in want || (k in Keys(Of(before, id)) && Twice(Of(before, id), k))
  {
    var had := Of(before, id);
    var i :| i in after && after[i].vulnId == id && KeyOf(after[i]) == k;
    if i in before && k !in want {
      assert i in had && k in Keys(had);
      var j :| j in removed && KeyOf(had[j]) == k;
      assert i != j;
    }
  }

  lemma {:induction false} WantedKeys(before: Stored, after: Stored, id: string, want: ByKey, added: ByKey,
        removed: set<nat>, k: SortKey)
    requires forall k :: k in want ==> want[k].vulnId == id && KeyOf(want[k]) == k
    requires added == Missing(Of(before, id), want)
    requires OneOfEach(Of(before, id), want, removed) && Written(before, after, added, removed)
    requires k in want
    ensures k in Keys(Of(after, id))
  {
    var had := Of(before, id);
    if k in Keys(had) {
      var i :| i in had && KeyOf(had[i]) == k;
      assert i in Of(after, id);
    } else {
      assert k in added;
      var i :| i in after && i !in before && after[i] == added[k];
      assert i in Of(after, id);
    }
  }

  lemma {:induction false} DoubledKeys(before: Stored, after: Stored, id: string, want: ByKey, added: ByKey,
        removed: set<nat>, k: SortKey)
    requires forall k :: k in want ==> want[k].vulnId == id && KeyOf(want[k]) == k
    requires added == Missing(Of(before, id), want)
    requires OneOfEach(Of(before, id), want, removed) && Written(before, after, added, removed)
    requires Twice(Of(before, id), k) && k !in want
    ensures k in Keys(Of(after, id))
  {
    var had := Of(before, id);
    var i, j :| i in had && j in had && i != j && KeyOf(had[i]) == k && KeyOf(had[j]) == k;
    var l := if i in removed then j else i;
    assert l !in removed && l in Of(after, id);
  }

  /** The keys stored for the record are the wanted ones and those that were stored twice. */
  lemma {:induction false} KeysAfter(before: Stored, after: Stored, id: string, want: ByKey, added: ByKey,
        removed: set<nat>)
    requires forall k :: k in want ==> want[k].vulnId == id && KeyOf(want[k]) == k
    requires added == Missing(Of(before, id), want)
    requires OneOfEach(Of(before, id), want, removed) && Written(before, after, added, removed)
    ensures forall k :: k in Keys(Of(after, id)) <==>
            k in want || (k in Keys(Of(before, id)) && Twice(Of(before, id), k))
  {
    forall k
      ensures k in Keys(Of(after, id)) <==> k in want || (k in Keys(Of(before, id)) && Twice(Of(before, id), k))
    {
      if k in Keys(Of(after, id)) {
        LeftKeys(before, after, id, want, added, removed, k);
      } else if k in want {
        WantedKeys(before, after, id, want, added, removed, k);
      } else if Twice(Of(before, id), k) {
        DoubledKeys(before, after, id, want, added, removed, k);
      }
    }
  }

  lemma {:induction false} UniqueAfter(before: Stored, after: Stored, id: string, want: ByKey, added: ByKey,
        removed: set<nat>)
    requires forall k :: k in want ==> want[k].vulnId == id && KeyOf(want[k]) == k
    requires added == Missing(Of(before, id), want)
    requires Written(before, after, added, removed) && Unique(before)
    ensures Unique(after)
  {
    forall i, j | i in after && j in after && KeyOf(after[i]) == KeyOf(after[j]) ensures i == j {
      if i in before && j !in before { NotStoredYet(before, id, want, added, i, KeyOf(after[j])); }
      if j in before && i !in before { NotStoredYet(before, id, want, added, j, KeyOf(after[i])); }
    }
  }

  lemma {:induction false} NotStoredYet(before: Stored, id: string, want: ByKey, added: ByKey, i: nat, k: SortKey)
    requires forall k :: k in want ==> want[k].vulnId == id && KeyOf(want[k]) == k
    requires added == Missing(Of(before, id), want)
    requires i in before && k in added
    ensures KeyOf(before[i]) != k
  {
    assert k.vulnId == id by { assert KeyOf(want[k]) == k; }
    assert before[i].vulnId == id ==> i in Of(before, id);
  }

  /** The entities of other records are untouched. */
  ghost predicate SameElsewhere(before: Stored, after: Stored, id: string) {
    && (forall i :: i in before && before[i].vulnId != id ==> i in after && after[i] == before[i])
    && (forall i :: i in after && after[i].vulnId != id ==> i in before && after[i] == before[i])
  }

  lemma {:induction false} ElsewhereAfter(before: Stored, after: Stored, id: string, want: ByKey, added: ByKey,
        removed: set<nat>)
    requires forall k :: k in want ==> want[k].vulnId == id && KeyOf(want[k]) == k
    requires added == Missing(Of(before, id), want)
    requires OneOfEach(Of(before, id), want, removed) && Written(before, after, added, removed)
    ensures SameElsewhere(before, after, id)
  {
  }

  /** What the records written so far ask to be stored under an id: nothing once withdrawn. */
  datatype Record<!K> = Record(id: string, withdrawn: bool, parts: seq<Part<K>>)

  function Wanted<K>(r: Record<K>, normalizeRepo: string -> string): ByKey {
    if r.withdrawn then map[] else Dict(AllEntities(r.parts, normalizeRepo))
  }

  ghost predicate OwnParts<K>(r: Record<K>) { forall p :: p in r.parts ==> p.context.vulnId == r.id }

  ghost predicate KeyedBy(want: ByKey, id: string)
  {
    forall k :: k in want ==> want[k].vulnId == id && KeyOf(want[k]) == k
  }

  lemma {:induction false} WantedKeepsId<K>(r: Record<K>, normalizeRepo: string -> string, want: ByKey)
    requires OwnParts(r) && want == Wanted(r, normalizeRepo)
    ensures KeyedBy(want, r.id)
  {
    forall k | k in want ensures want[k].vulnId == r.id {
      AllKeepId(r.parts, normalizeRepo, r.id, want[k]);
    }
  }

  // ----- what one write does to the entities

  /** The keys a write leaves under the id: the wanted ones, and the unwanted ones stored twice. */
  ghost predicate LeavesKeys(before: Stored, after: Stored, id: string, want: ByKey) {
    forall k :: k in Keys(Of(after, id)) <==> k in want || (k in Keys(Of(before, id)) && Twice(Of(before, id), k))
  }

  /** Entities with a wanted key stay as they are; only wanted entities of missing keys are new. */
  ghost predicate KeepsAndAdds(before: Stored, after: Stored, id: string, want: ByKey) {
    && (forall i :: i in before && KeyOf(before[i]) in want ==> i in after)
    && (forall i :: i in after && i in before ==> after[i] == before[i])
    && (forall i :: i in after && i !in before ==>
          KeyOf(after[i]) in want && KeyOf(after[i]) !in Keys(Of(before, id)) && after[i] == want[KeyOf(after[i])])
  }

  /** One write of a record with the given id and wanted entities, seen on the store. */
  ghost predicate IsPut(before: Stored, after: Stored, id: string, withdrawn: bool, want: ByKey) {
    && SameElsewhere(before, after, id) && KeepsAndAdds(before, after, id, want)
    && (if withdrawn then want == map[] && Of(after, id) == map[] else LeavesKeys(before, after, id, want))
    && (Unique(before) ==> Unique(after))
  }

  /** The record's stored keys are the wanted ones exactly if no key to be removed was stored twice. */
  lemma {:induction false} KeysAreWantedExactly(before: Stored, after: Stored, id: string, want: ByKey)
    requires IsPut(before, after, id, false, want)
    ensures Keys(Of(after, id)) == want.Keys <==>
            forall k :: k in Keys(Of(before, id)) && k !in want ==> !Twice(Of(before, id), k)
  {
    var had, now := Of(before, id), Keys(Of(after, id));
    if forall k :: k in Keys(had) && k !in want ==> !Twice(had, k) {
      forall k | k in now ensures k in want { }
    } else {
      var k :| k in Keys(had) && k !in want && Twice(had, k);
      assert k in now;
    }
  }

  /** Every stored entity with the key is the given one, bounds included. */
  ghost predicate AllAre(s: Stored, k: SortKey, e: AffectedVersions)
  {
    forall i :: i in s && KeyOf(s[i]) == k ==> s[i] == e
  }

  /** What is stored for a wanted key has the wanted bounds exactly if the key was not stored before
      or was stored with those bounds: a write never refreshes bounds. */
  lemma {:induction false} BoundsAreWantedExactly(before: Stored, after: Stored, id: string, want: ByKey, k: SortKey)
    requires IsPut(before, after, id, false, want) && KeyedBy(want, id) && k in want
    ensures AllAre(after, k, want[k]) <==> AllAre(before, k, want[k])
  {
    if AllAre(before, k, want[k]) {
      forall i | i in after && KeyOf(after[i]) == k ensures after[i] == want[k] { }
    } else {
      var i :| i in before && KeyOf(before[i]) == k && before[i] != want[k];
      assert i in after && after[i] == before[i];
    }
  }

  // ----- the stored entity of a key

  /** The stored entity with a key, if there is one. */
  ghost function At(s: Stored, k: SortKey): Option<AffectedVersions> {
    if i :| i in s && KeyOf(s[i]) == k then Some(s[i]) else None
  }

  lemma {:induction false} AtIs(s: Stored, i: nat)
    requires Unique(s) && i in s
    ensures At(s, KeyOf(s[i])) == Some(s[i])
  {
  }

  /** The entity of a key after one more record: removed when no longer wanted, else kept as it is. */
  function NextEntity<K>(before: Option<AffectedVersions>, r: Record<K>, normalizeRepo: string -> string, k: SortKey)
    : Option<AffectedVersions>
  {
    var want := Wanted(r, normalizeRepo);
    if k.vulnId != r.id then before
    else if k !in want then None
    else if before.Some? then before
    else Some(want[k])
  }

  /** The entity of a key after a run of records. */
  ghost function EntityAfter<K>(s: Stored, records: seq<Record<K>>, normalizeRepo: string -> string, k: SortKey)
    : Option<AffectedVersions>
  {
    if records == [] then At(s, k)
    else NextEntity(EntityAfter(s, records[..|records| - 1], normalizeRepo, k), records[|records| - 1], normalizeRepo,
      k)
  }

  lemma {:induction false} UniqueHasNoTwice(s: Stored, id: string)
    requires Unique(s)
    ensures forall k :: !Twice(Of(s, id), k)
  {
  }

  lemma {:induction false} AtElsewhere(before: Stored, after: Stored, id: string, k: SortKey)
    requires Unique(before) && Unique(after) && SameElsewhere(before, after, id) && k.vulnId != id
    ensures At(after, k) == At(before, k)
  {
    if i :| i in before && KeyOf(before[i]) == k {
      assert i in after;
      AtIs(before, i);
      AtIs(after, i);
    }
  }

  lemma {:induction false} KeyIsStored(s: Stored, id: string, k: SortKey)
    requires Unique(s) && k.vulnId == id
    ensures k in Keys(Of(s, id)) <==> At(s, k).Some?
  {
    if i :| i in s && KeyOf(s[i]) == k {
      assert i in Of(s, id);
    }
  }

  /** One write, on the entity of each key. */
  lemma {:induction false} PutOnKey<K>(before: Stored, after: Stored, r: Record<K>, normalizeRepo: string -> string,
        k: SortKey)
    requires Unique(before) && IsPut(before, after, r.id, r.withdrawn, Wanted(r, normalizeRepo))
    requires KeyedBy(Wanted(r, normalizeRepo), r.id)
    ensures At(after, k) == NextEntity(At(before, k), r, normalizeRepo, k)
  {
    var id, want := r.id, Wanted(r, normalizeRepo);
    if k.vulnId != id {
      AtElsewhere(before, after, id, k);
    } else {
      KeyIsStored(before, id, k);
      KeyIsStored(after, id, k);
      UniqueHasNoTwice(before, id);
      if k in want { WantedIsStored(before, after, id, r.withdrawn, want, k); }
    }
  }

  lemma {:induction false} WantedIsStored(before: Stored, after: Stored, id: string, withdrawn: bool, want: ByKey,
        k: SortKey)
    requires Unique(before) && IsPut(before, after, id, withdrawn, want) && KeyedBy(want, id) && k in want
    ensures At(after, k) == if At(before, k).Some? then At(before, k) else Some(want[k])
  {
    KeyIsStored(before, id, k);
    KeyIsStored(after, id, k);
    var i :| i in after && KeyOf(after[i]) == k;
    AtIs(after, i);
    if j :| j in before && KeyOf(before[j]) == k {
      AtIs(before, j);
      AtIs(after, j);
    }
  }

  /** The last of the records with an id. */
  function LastFor<K>(records: seq<Record<K>>, id: string): Option<Record<K>> {
    if records == [] then None
    else if records[|records| - 1].id == id then Some(records[|records| - 1])
    else LastFor(records[..|records| - 1], id)
  }

  /** The store while entities are being added, those with keys in `rest` still to come. */
  ghost predicate Partly(before: Stored, now: Stored, added: ByKey, rest: set<SortKey>) {
    && rest <= added.Keys
    && (forall i :: i in before ==> i in now && now[i] == before[i])
    && (forall i :: i in now && i !in before ==> KeyOf(now[i]) in added.Keys - rest && now[i] == added[KeyOf(now[i])])
    && NewApart(before, now)
    && (forall k :: k in added && k !in rest ==> exists i :: i in now && i !in before && now[i] == added[k])
  }

  lemma {:induction false} PartlyMore(before: Stored, now: Stored, added: ByKey, rest: set<SortKey>, k: SortKey,
        id: nat)
    requires Partly(before, now, added, rest) && k in rest && id !in now && KeyOf(added[k]) == k
    ensures Partly(before, now[id := added[k]], added, rest - {k})
  {
    var later := now[id := added[k]];
    assert later[id] == added[k] && id !in before;
    forall l | l in added && l !in rest - {k} ensures exists i :: i in later && i !in before && later[i] == added[l] {
      if l != k {
        var i :| i in now && i !in before && now[i] == added[l];
        assert later[i] == added[l];
      }
    }
  }

  lemma {:induction false} RemovedAfterwards(before: Stored, now: Stored, added: ByKey, removed: set<nat>)
    requires Partly(before, now, added, {}) && removed <= before.Keys
    ensures Written(before, now - removed, added, removed)
  {
    forall k | k in added ensures exists i :: i in now - removed && i !in before && (now - removed)[i] == added[k] {
      var i :| i in now && i !in before && now[i] == added[k];
      assert i in now - removed;
    }
  }

  lemma {:induction false} WrittenIsPut(before: Stored, after: Stored, id: string, want: ByKey, added: ByKey,
        removed: set<nat>)
    requires KeyedBy(want, id) && added == Missing(Of(before, id), want)
    requires OneOfEach(Of(before, id), want, removed) && Written(before, after, added, removed)
    ensures IsPut(before, after, id, false, want)
  {
    KeysAfter(before, after, id, want, added, removed);
    ElsewhereAfter(before, after, id, want, added, removed);
    if Unique(before) { UniqueAfter(before, after, id, want, added, removed); }
    assert KeepsAndAdds(before, after, id, want);
  }

  class Datastore {
    var affected: Stored
    var vulnerabilities: set<string>
    var listed: set<string>
    var nextId: nat

    ghost predicate Valid()
      reads this
    {
      forall i :: i in affected ==> i < nextId
    }

    constructor ()
      ensures Valid() && affected == map[] && vulnerabilities == {} && listed == {}
    {
      affected, vulnerabilities, listed, nextId := map[], {}, {}, 0;
    }

    /** put_multi and delete_multi of AffectedVersions entities. */
    method Write(added: ByKey, removed: set<nat>)
      requires Valid() && removed <= affected.Keys && forall k :: k in added ==> KeyOf(added[k]) == k
      modifies `affected, `nextId
      ensures Valid() && Written(old(affected), affected, added, removed)
    {
      ghost var before := affected;
      var rest := added.Keys;
      while rest != {}
        invariant Valid() && Partly(before, affected, added, rest)
        modifies `affected, `nextId
        decreases rest
      {
        var k :| k in rest;
        PartlyMore(before, affected, added, rest, k, nextId);
        affected := affected[nextId := added[k]];
        rest := rest - {k};
        nextId := nextId + 1;
      }
      RemovedAfterwards(before, affected, added, removed);
      affected := affected - removed;
    }

    /** The keys stored under an id. */
    ghost function KeysOf(id: string): set<SortKey>
      reads this
    {
      Keys(Of(affected, id))
    }

    /** put_entities. */
    method PutEntities<K>(r: Record<K>, normalizeRepo: string -> string)
      requires Valid() && OwnParts(r)
      modifies this
      ensures Valid() && IsPut(old(affected), affected, r.id, r.withdrawn, Wanted(r, normalizeRepo))
      ensures !r.withdrawn ==> (KeysOf(r.id) == Wanted(r, normalizeRepo).Keys <==>
                forall k :: k in old(KeysOf(r.id)) && k !in Wanted(r, normalizeRepo) ==>
                  !Twice(Of(old(affected), r.id), k))
      ensures vulnerabilities == old(vulnerabilities) + {r.id}
      ensures listed == if r.withdrawn then old(listed) - {r.id} else old(listed) + {r.id}
    {
      vulnerabilities := vulnerabilities + {r.id};
      if r.withdrawn {
        var had := Of(affected, r.id);
        Write(map[], had.Keys);
        listed := listed - {r.id};
      } else {
        listed := listed + {r.id};
        PutAffected(r, normalizeRepo);
        KeysAreWantedExactly(old(affected), affected, r.id, Wanted(r, normalizeRepo));
      }
    }

    /** The entities of a record that is not withdrawn. */
    method PutAffected<K>(r: Record<K>, normalizeRepo: string -> string)
      requires Valid() && OwnParts(r) && !r.withdrawn
      modifies `affected, `nextId
      ensures Valid() && IsPut(old(affected), affected, r.id, false, Wanted(r, normalizeRepo))
    {
      var unique := AffectedFromProto(r.parts, normalizeRepo);
      WantedKeepsId(r, normalizeRepo, unique);
      PutDifference(r.id, unique);
    }

    method PutDifference(id: string, unique: ByKey)
      requires Valid() && KeyedBy(unique, id)
      modifies `affected, `nextId
      ensures Valid() && IsPut(old(affected), affected, id, false, unique)
    {
      ghost var before := affected;
      var added, removed := Diff(Of(affected, id), unique);
      assert removed <= affected.Keys;
      Write(added, removed);
      WrittenIsPut(before, affected, id, unique, added, removed);
    }

    /** With no key stored twice, one write moves every key on as the record asks. */
    method PutNext<K>(r: Record<K>, normalizeRepo: string -> string)
      requires Valid() && Unique(affected) && OwnParts(r)
      modifies this
      ensures Valid() && Unique(affected)
      ensures forall k :: At(affected, k) == NextEntity(At(old(affected), k), r, normalizeRepo, k)
    {
      PutEntities(r, normalizeRepo);
      WantedKeepsId(r, normalizeRepo, Wanted(r, normalizeRepo));
      forall k ensures At(affected, k) == NextEntity(At(old(affected), k), r, normalizeRepo, k) {
        PutOnKey(old(affected), affected, r, normalizeRepo, k);
      }
    }

    /** A run of writes: the whole contents of the store, bounds included. */
    method PutAll<K>(records: seq<Record<K>>, normalizeRepo: string -> string)
      requires Valid() && Unique(affected) && forall r :: r in records ==> OwnParts(r)
      modifies this
      ensures Valid() && Unique(affected)
      ensures forall k :: At(affected, k) == EntityAfter(old(affected), records, normalizeRepo, k)
    {
      for i := 0 to |records|
        invariant Valid() && Unique(affected)
        invariant forall k :: At(affected, k) == EntityAfter(old(affected), records[..i], normalizeRepo, k)
      {
        assert records[..i + 1][..i] == records[..i];
        PutNext(records[i], normalizeRepo);
      }
      assert records[..|records|] == records;
    }
  }

  /** Exactly the keys of the latest record are stored under its id. */
  lemma {:induction false} LatestKeys<K>(s: Stored, records: seq<Record<K>>, normalizeRepo: string -> string,
        k: SortKey)
    ensures EntityAfter(s, records, normalizeRepo, k).Some? <==>
            match LastFor(records, k.vulnId)
            case Some(r) => k in Wanted(r, normalizeRepo)
            case None => At(s, k).Some?
  {
    if records != [] { LatestKeys(s, records[..|records| - 1], normalizeRepo, k); }
  }

  /** A key stored twice survives the write that should remove it: here the record wants nothing. */
  method DoubledKeySurvives(e: AffectedVersions, normalizeRepo: string -> string) returns (left: Stored)
    ensures exists i :: i in left && left[i] == e
  {
    var store := new Datastore();
    store.affected, store.nextId := map[0 := e, 1 := e], 2;
    ghost var before := store.affected;
    var empty: Record<int> := Record(e.vulnId, false, []);
    store.PutEntities(empty, normalizeRepo);
    left := store.affected;
    TwiceStays(before, left, e, Wanted(empty, normalizeRepo));
  }

  lemma {:induction false} TwiceStays(before: Stored, left: Stored, e: AffectedVersions, want: ByKey)
    requires before == map[0 := e, 1 := e] && want == map[] && IsPut(before, left, e.vulnId, false, want)
    ensures exists i :: i in left && left[i] == e
  {
    var had := Of(before, e.vulnId);
    assert 0 in had && 1 in had && had[0] == had[1] == e;
    assert KeyOf(e) in Keys(had) && Twice(had, KeyOf(e));
    var i :| i in Of(left, e.vulnId) && KeyOf(left[i]) == KeyOf(e);
    assert i in before && left[i] == before[i] == e;
  }
}
