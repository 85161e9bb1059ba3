/** The query server's version matching: which stored entities a query fetches, and
    which of those it accepts. */
module Matching {
  import opened Strings
  import opened Ecosystems
  import opened Indexing

  /** ecosystems.get: the helper of an ecosystem, if it has one. */
  type Registry<!K> = string -> Option<Helper<K>>

  /** What the server supplies: helpers, and string matching for ecosystems without one, of a version
      against the versions listed under an ecosystem and a name. */
  datatype Server<!K> = Server(get: Registry<K>, fuzzy: (string, string, string, seq<string>) -> bool)

  predicate MatchVersions<K>(s: Server<K>, version: string, e: AffectedVersions) {
    match s.get(e.ecosystem)
    case Some(h) => exists v :: v in e.versions && h.VersionEq(v, version)
    case None => s.fuzzy(version, e.ecosystem, e.name, e.versions)
  }

  /** The loop over reversed(events): the nearest event at or below the version decides. */
  predicate NearestEventAccepts<K>(h: Helper<K>, version: string, events: seq<AffectedEvent>) {
    if events == [] then false
    else
      var e := events[|events| - 1];
      if h.VersionEq(e.value, version) then e.kind == Introduced || e.kind == LastAffected
      else if h.VersionLt(e.value, version) then e.kind == Introduced
      else NearestEventAccepts(h, version, events[..|events| - 1])
  }

  predicate MatchEvents<K>(s: Server<K>, version: string, e: AffectedVersions) {
    && e.ecosystem != "Alpine" && e.ecosystem != "Ubuntu"
    && match s.get(e.ecosystem)
       case None => false
       case Some(h) => NearestEventAccepts(h, version, e.events)
  }

  predicate AffectedAffects<K>(s: Server<K>, version: string, e: AffectedVersions) {
    if e.versions != [] then MatchVersions(s, version, e)
    else e.events != [] && MatchEvents(s, version, e)
  }

  datatype Query = Query(name: string, ecosystem: string, version: string)

  predicate WithinBounds(e: AffectedVersions, coarse: string) {
    e.bounds.Some? && Le(e.bounds.value.low, coarse) && Le(coarse, e.bounds.value.high)
  }

  /** The two coarse filters of the database query, when they apply. */
  predicate CoarseFilter<K>(s: Server<K>, q: Query, e: AffectedVersions) {
    if q.ecosystem == "" || q.version == "" then true
    else
      match s.get(q.ecosystem)
      case None => true
      case Some(h) => h.coarse(q.version).Ok? ==> WithinBounds(e, h.coarse(q.version).text)
  }

  predicate NameFilter(q: Query, e: AffectedVersions) {
    e.name == q.name && (q.ecosystem != "" ==> e.ecosystem == q.ecosystem)
  }

  /** What the database query returns. */
  predicate Fetched<K>(s: Server<K>, q: Query, e: AffectedVersions) {
    NameFilter(q, e) && CoarseFilter(s, q, e)
  }

  /** What the loop over the fetched entities accepts. */
  predicate Accepted<K>(s: Server<K>, q: Query, e: AffectedVersions) {
    q.version == "" || AffectedAffects(s, q.version, e)
  }
}
