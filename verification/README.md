# OSV version matching, verified

A Dafny model of the parts of OSV that decide which vulnerabilities a version query returns, and of
the maintenance code around them:

- **The coarse index.** A version is stored as a fixed-width string; a query filters on string bounds
  before the exact match runs. `CoarseVersion`, `GenericCoarse` and the ecosystem modules
  (`IntListEcosystems`, `Packagist`, `Semver`, `Maven`, `MavenOrder`) prove each order and each coarse
  version, `Indexing` and `Matching` model the indexer and the query, and `Prefilter` proves that the
  filter hides no true match. `Ecosystems` states the contract of a helper once, and the part of it
  the filter relies on (`Ecosystems.LawfulIsFilterSafe`), which Maven's helper keeps on every version
  although Maven's order is not transitive.
- **Two evaluators of a range.** `Enumeration` compares the bisecting sweep of the worker with the
  reverse scan of the server, version by version.
- **Paging and batching.** `Paging` models the page loop with its counters and cursors, `Cursor` and
  `Base64` the page token, `Batch` any interleaving of the queries of one batch. `QueryResults` puts
  indexing, prefilter, match and scan together, and `EndToEnd` runs the whole way: records are written
  into an empty store, a query is asked, and the tokens are followed.
- **Graphs.** `Graphs` holds walks, cycles and topological orders; `Hierarchy` the cycle check and the
  recursive printer, `Upstream` the upstream closure and its reduced hierarchy, `UpstreamPage` the two
  together, `UpstreamJob` the run that stores them, `Aliases` the alias groups.
- **Stores and converters.** `Store` (AffectedVersions entities), `CommitPages` (pages of affected
  commits), `Conversion` (version ranges to commit ranges) and `Grouping` (ranges with one introduced
  version).

`Strings`, `StringSets` and `Sorting` are the vocabulary: Python's string order, decimal numerals,
split and join, `sorted` on sets, and the stable sort.

Code that updates fields or loops over local state is a class or a method whose `ensures` equates the
result with a function or a predicate over values; the lemmas are about those. Whatever is outside the
modelled code is a parameter: helpers for ecosystems without a modelled order, `int()`, repository
name normalization, the tags of a repository, the clock, and what other queries of a batch do.

Where a promised property does not hold of the code, the model keeps the code, proves the exact
condition, and shows the failing family:

- Coarse bounds keep every match exactly if no deciding `last_affected` event lies, in coarse terms,
  below the first `introduced` one, or the last event makes the bounds the widest
  (`Prefilter.BoundsKeepMatchesExactly`, `Prefilter.EarlyLastAffectedIsHidden`).
- The two evaluators differ exactly on versions equal to a `last_affected` that no `introduced`
  directly precedes (`Enumeration.EvaluatorsAgreeExactly`, `Enumeration.LoneLastAffectedDiffers`).
- A page cut off before its first entity sends the caller back to the first row. This repeats ids
  exactly if more than one id had been returned (`Paging.RestartIsHarmlessExactly`,
  `Paging.RestartRepeats`); it never loses one (`Paging.FollowPages`).
- A page token restores its cursor exactly if the cursor bytes are neither empty nor the name of the
  first page (`Cursor.TokenRoundTrip`).
- The upstream hierarchy is lossless exactly if every upstream on a cycle lies below one that is not
  (`Upstream.LosslessExactly`, `Upstream.LoopIsLost`).
- After a run of the upstream job a stored hierarchy is out of date exactly if the run does not write its
  group although it writes the group of an id above it (`UpstreamJob.StaleExactly`): an edge added between
  two upstreams of a bug changes its hierarchy but not its upstreams (`UpstreamJob.AddedEdgeLeavesStale`).
  The stored groups are the transitive upstreams exactly if no group is left of an id without upstreams,
  since the run never visits those (`UpstreamJob.ClosuresExactly`; gcp/website/emulator_upstream.py:221-244).
- Writing a record leaves an unwanted key exactly if that key was stored twice
  (`Store.Datastore.PutEntities`, `Store.DoubledKeySurvives`).
- Writing a record leaves other coarse bounds than the wanted ones exactly if the key was stored with
  other bounds (`Store.BoundsAreWantedExactly`): the key (osv/models/entities.py:209-212) leaves the
  bounds out, so they are never refreshed. After a helper changes its coarse version, an entity can
  match a query that no longer fetches it (`EndToEnd.ReindexingHidesMatch`).
- An alias run records a member of a group it left alone, wrongly as deleted, exactly if a group it
  merged away lists that member too (`Aliases.StaleExactly`, `Aliases.StaleEntry`;
  gcp/website/emulator_aliases.py:182-193).
- Event deduplication by text loses an event exactly if two different events have the same text,
  which a `|` in a version can cause (`Grouping.DedupKeepsAllExactly`, `Grouping.BarHidesAnEvent`).
- Grouping twice changes something exactly if two groups of one type and repository begin, after
  deduplication, with the same introduced version, which a range with two introduced versions can cause
  (`Grouping.SecondGroupingExactly`, `Grouping.TwoIntroductionsAreNotCanonical`).
- Packagist's comparison is transitive through a token list exactly if the list has no literal `#`
  token (`Packagist.TransitiveThroughExactly`, `Packagist.HashIsLevelWithDigits`). The coarse version
  follows the comparison upwards to a token list exactly if it does not read a `#` there
  (`Packagist.CoarseFollowsExactly`).
- Maven's order has cycles (`MavenOrder.VersionsOnACycle`). It is total on the versions without a
  qualifier after a `.` (`MavenOrder.PlainIsLawful`). Any other version stands on no cycle with those
  exactly if its first qualifier after a `.` is low (known, or before `0` as text) where it follows a
  token that is not null, and high where it follows zeros that follow such a token with a `.`
  (`MavenOrder.JoinsExactly`). The condition is about one added version: three that fit one at a time
  can close a cycle (`MavenOrder.FittingVersionsOnACycle`). The coarse filter does not need transitivity
  and loses nothing for any Maven versions (`MavenOrder.MavenIsFilterSafe`, `Prefilter.PrefilterLosesNothing`).
- The SemVer index string keeps a version in its place among the versions in range exactly if its first
  number above 99999999 begins with eight nines or, where all three numbers fit, its first identifier
  outside the range is a power of ten or has no letter before its first hyphen
  (`Semver.KeepsPlaceExactly`, `Semver.IndexStringsExactly`, `Semver.OutOfPlaceIsMisplaced`).
- A converted range forgets its introduced version exactly if that version is `0` or has no commit on
  the repository found (`Conversion.IntroductionIsForgotten`).

Where the code and its documentation disagree, the code is modelled: the error text of
gcp/api/server.py:450-451 asks for a positive amount, but zero is accepted; and
osv/ecosystems/ecosystems_base.py:152 writes the lowest coarse version with seven digits, where the
code pads to eight.

## Model

| member | source | states |
|---|---|---|
| CoarseVersion.CoarseVersionFromInts | osv/ecosystems/ecosystems_base.py:332-371 | the two loops compute the format that the lemmas on order and bounds are about |
| CoarseVersion.FormatOrder | osv/ecosystems/ecosystems_base.py:332-371 | on fixed-width forms, string order is the order of (epoch, fields), in both directions |
| CoarseVersion.IntCoarseMonotone | osv/ecosystems/ecosystems_base.py:332-371 | lexicographic <= of (epoch, list) implies string <= for all integers and lengths: negative, overlong and overflowing ones too |
| CoarseVersion.ExtremesBoundEverything | osv/models/indexing.py:51-53 | MIN and MAX enclose every output |
| CoarseVersion.ExtremesAreLiteral | osv/ecosystems/ecosystems_base.py:332-371 | the lowest and highest outputs, written out |
| GenericCoarse.CoarseVersionGeneric | osv/ecosystems/ecosystems_base.py:276-329 | for any separators, truncation, treatment of empty parts and with or without implicit splitting, the method computes what GenericWith specifies |
| GenericCoarse.GenericSplitsAtDots | osv/ecosystems/maven.py:251-264 | with dots as separators and implicit splitting that is the form the Maven and SemVer results are about |
| GenericCoarse.FieldsOfComponents | osv/ecosystems/ecosystems_base.py:318-329 | only the leading decimal parts matter, and of those the first three |
| Ecosystems.WrappedKeysOrdered | osv/ecosystems/ecosystems_base.py:28-96 | '0' below and invalid versions above everything keep a total preorder |
| Ecosystems.ValidatingHelpersRejectAlike | osv/ecosystems/ecosystems_base.py:117-156 | a coarse version that raises exactly on unparsable versions rejects equal versions alike |
| IntListEcosystems.CranIsLawful | osv/ecosystems/cran.py:35-52 | CRAN keeps the helper contract: total preorder, monotone and bounded coarse version |
| IntListEcosystems.HackageIsLawful | osv/ecosystems/haskell.py:39-56 | Hackage keeps the helper contract |
| Packagist.CompareAntisymmetric | osv/ecosystems/packagist.py:94-126 | the comparison is sign-antisymmetric and total on every pair of token lists |
| Packagist.CompareByRank | osv/ecosystems/packagist.py:94-199 | without '#' it is the lexicographic comparison of ranks, end of list between RC and numbers |
| Packagist.CompareTransitive | osv/ecosystems/packagist.py:94-126 | transitive on '#'-free lists, strictly if a step is strict |
| Packagist.TransitiveThroughExactly | osv/ecosystems/packagist.py:94-199 | for every token list, going through it never leads upwards between '#'-free lists if and only if it has no '#' itself |
| Packagist.HashIsLevelWithDigits | osv/ecosystems/packagist.py:128-153 | the version "#" reaches such a list: it is level with every single digit, although digits differ |
| Packagist.TokensAreRuns | osv/ecosystems/packagist.py:142-153 | canonicalization yields the runs of digits and non-digits between separators |
| Packagist.PackagistCoarse | osv/ecosystems/packagist.py:210-241 | the loop over the parts computes the components, p and pl overflowing |
| Packagist.CoarseFromTokens | osv/ecosystems/packagist.py:210-241 | the coarse version depends on the canonical tokens only |
| Packagist.PackagistCoarseMonotone | osv/ecosystems/packagist.py:128-241 | version_compare(a, b) <= 0 implies coarse(a) <= coarse(b) wherever the coarse version reads no '#' token |
| Packagist.CoarseFollowsExactly | osv/ecosystems/packagist.py:94-241 | for every token list, the coarse version follows the comparison up to it from all '#'-free lists if and only if no '#' is among the tokens the coarse version reads |
| Packagist.PackagistIsFilterSafe | osv/ecosystems/packagist.py:202-241 | the coarse filter can rely on Packagist for those versions |
| Packagist.PackagistIsLawful | osv/ecosystems/packagist.py:202-241 | Packagist keeps the whole helper contract, with transitivity, on '#'-free versions |
| Maven.Version.FromString | osv/ecosystems/maven.py:148-237 | the constructor's loops produce the specified trimmed tokens |
| Maven.Version.Trim | osv/ecosystems/maven.py:213-237 | the trim loop, with its index and pops, is Trimming |
| Maven.ParseIsTrimmed | osv/ecosystems/maven.py:148-237 | for every string the loop ends with a non-empty token list and no null token after the first that is last or before '-' |
| Maven.CoarseFromParse | osv/ecosystems/maven.py:251-264 | the coarse version, computed from the text, is that of the numbers leading the trimmed tokens |
| Maven.ParsedCoarseMonotone | osv/ecosystems/maven.py:62-146 | on token lists, less or equal implies coarse less or equal |
| Maven.MavenCoarseMonotone | osv/ecosystems/maven.py:251-264 | for all version strings, a < b or equal implies coarse(a) <= coarse(b) |
| MavenOrder.NotBelowIsCoarse | osv/ecosystems/maven.py:251-264 | for all version strings, w not below v implies coarse(v) <= coarse(w) |
| MavenOrder.MavenIsFilterSafe | osv/ecosystems/maven.py:62-264 | on all version strings: the order is asymmetric, equality symmetric and apart from it, the coarse version monotone, bounded and never rejected; that is what the coarse filter relies on |
| MavenOrder.ParsedIsRanked | osv/ecosystems/maven.py:62-146 | between a plain version and one that fits, the position-by-position comparison with its padding is lexicographic comparison of ranks |
| MavenOrder.RankTotal | osv/ecosystems/maven.py:62-146 | ranks order well-formed token lists totally: level lists are equal |
| MavenOrder.JoinsExactly | osv/ecosystems/maven.py:62-146 | a parsed version stands on no cycle with two plain ones if and only if its first qualifier after a '.', if any, is low after a token that is not null and high after zeros that follow such a token with a '.' |
| MavenOrder.MavenIsLawful | osv/ecosystems/maven.py:240-264 | Maven keeps the helper contract on the plain versions and any one version that fits |
| MavenOrder.PlainIsLawful | osv/ecosystems/maven.py:240-264 | Maven keeps the helper contract on versions without a qualifier after a '.' |
| MavenOrder.VersionsOnACycle | osv/ecosystems/maven.py:62-237 | for any number, high qualifier and known qualifier: 1.foo < 1-alpha < 1 < 1.foo, on version strings |
| MavenOrder.FittingVersionsOnACycle | osv/ecosystems/maven.py:62-146 | three versions that each fit alone close a cycle, as 1.rc.foo < 1.rc-beta < 1.rc < 1.rc.foo, so there is no largest set to add |
| Semver.NormalizePrerelease | osv/semver_index.py:144-171 | the loop over the components builds the padded and prefixed text |
| Semver.NormalizeVersion | osv/semver_index.py:107-141 | from the version string to the index string, or the parse error |
| Semver.IndexIsOrderEmbedding | osv/semver_index.py:107-171 | string < of index strings is exactly precedence of section 11, within the indexable range |
| Semver.IndexStringsEmbed | osv/semver_index.py:83-171 | the same on version strings: parsed, normalized and compared as strings |
| Semver.KeepsPlaceExactly | osv/semver_index.py:107-171 | for every valid version: its index string is ordered right against every version in range, both ways, if and only if its first number above 99999999 begins with eight nines or, where all numbers fit, its first identifier outside the range is a power of ten or has no letter before its first hyphen |
| Semver.OutOfPlaceIsMisplaced | osv/semver_index.py:107-171 | for every other version, a version in range against which it is misplaced |
| Semver.TextParses | osv/semver_index.py:83-104 | every valid version is what its text parses to, so the exact condition holds of version strings |
| Semver.IndexStringsExactly | osv/semver_index.py:83-171 | the exact condition on every version string that parses |
| Semver.BuildIsIgnored | osv/semver_index.py:83-141 | build metadata changes neither validity nor the index string |
| Semver.CoarseOfParsed | osv/ecosystems/semver_ecosystem_helper.py:29-48 | the coarse version is that of the parsed major, minor and patch |
| Semver.CoreFollowsPrecedence | osv/ecosystems/semver_ecosystem_helper.py:25-48 | precedence never decreases the coarse version |
| Semver.SemverIsLawful | osv/ecosystems/semver_ecosystem_helper.py:21-48 | SemVer ecosystems keep the helper contract on every string |
| Indexing.ConvertAll | osv/models/indexing.py:296-306 | the event loop keeps one typed event per set field, in order of precedence |
| Indexing.CollectRanges | osv/models/indexing.py:284-325 | the loop over ranges gives their entities, the first repository, and whether any was indexed |
| Indexing.FromAffected | osv/models/indexing.py:268-367 | all entities of one affected package: ranges, versions, bare and repository ones |
| Prefilter.BoundsKeepMatchesExactly | osv/models/indexing.py:245-265 | bounds keep every accepted version if and only if no deciding last_affected lies, in coarse terms, below the first introduced event, or a rejected last version makes the bounds the widest |
| Prefilter.UsualShapeKeepsMatches | gcp/api/server.py:1065-1102 | events with neighbours in order that start with introduced, or have none, lose nothing, for a transitive order whatever coarse_version rejects, and for an order with cycles if it rejects nothing |
| Prefilter.EarlyLastAffectedIsHidden | osv/models/indexing.py:245-265 | the failing family: a last_affected before the first introduced is accepted for its version and filtered out |
| Prefilter.ListedKeepsMatches | osv/models/indexing.py:326-349 | a version equal to a listed one is within the bounds of the list |
| Prefilter.PrefilterLosesNothing | gcp/api/server.py:969-983 | every entity the indexer stores and the exact match accepts is fetched by the query, for every helper the filter can rely on: Maven's on all versions, and those that keep the whole contract |
| Enumeration.SliceIsInterval | osv/ecosystems/ecosystems_base.py:182-218 | the bisected slice is the filter introduced <= v < fixed (or <= last_affected), and below some limit where limits are given |
| Enumeration.SplitEvents | osv/impact.py:570-586 | the first loop separates the zero event, the ordinary events and the limits |
| Enumeration.RunSweep | osv/impact.py:603-629 | the second loop collects exactly the swept versions |
| Enumeration.EnumerateVersions | osv/impact.py:568-633 | the swept set, each version once, sorted |
| Enumeration.NearestByCount | gcp/api/server.py:1086-1102 | the reverse scan is decided by the last event at or below the version |
| Enumeration.SweepByCount | osv/impact.py:603-629 | the sweep is decided by that event and the one before it |
| Enumeration.OrdersAgree | osv/impact.py:588-601 | the sweep and the index see the events of a well-formed range in one strictly ascending order |
| Enumeration.EvaluatorsAgreeExactly | osv/impact.py:568-633 | a known version is enumerated if and only if the server accepts it and it is no orphan last_affected |
| Enumeration.LoneLastAffectedDiffers | osv/impact.py:603-629 | a lone last_affected: accepted by the server, not enumerated |
| Enumeration.EvaluatorsAgree | gcp/api/server.py:1065-1102 | the evaluators agree when each last_affected directly follows an introduced |
| Enumeration.AgreementNeedsIntroduced | gcp/api/server.py:1086-1102 | and only then, when the last_affected versions are known |
| Paging.ScanSplits | gcp/api/server.py:986-1011 | scanning in two parts, handing on the last id, is scanning once |
| Paging.WholeScan | gcp/api/server.py:986-1011 | a whole scan of sorted rows is the sorted list of the matching ids, each once, the empty id left out |
| Paging.ResponsesCount.Add | gcp/api/server.py:446-451 | adds the amount, or raises on a negative one |
| Paging.ResponsesCount.PageLimit | gcp/api/server.py:456-465 | 5 above the threshold of 3000 responses, 1000 up to it |
| Paging.QueryContext.SaveCursorAtPageBreak | gcp/api/server.py:533-544 | the output cursor is the iterator's position, or the first page if nothing was consumed |
| Paging.RunPage | gcp/api/server.py:991-1011 | a page returns the scan of what it consumed, leaves the cursor at its end, holds at most 1000 ids or, under an override, the override or 5, whichever is more, and consumes nothing only when late |
| Paging.QueryPackage | gcp/api/server.py:931-1011 | the same from a request's cursors, with the same bound, skipping a query of another number |
| Paging.DoQuery | gcp/api/server.py:757-872 | from token to reply: an error exactly for an unreadable token or one of a later query; otherwise a page of the scan within that bound, with the token of its end |
| Paging.FollowTokens | gcp/api/server.py:494-544 | following the tokens ends and returns exactly one whole scan, for any page breaks where no page is cut off before its first entity |
| Paging.EmptyPageRestarts | gcp/api/cursor.py:118-140 | a page that consumed nothing leads back to the first row with the last id kept |
| Paging.RestartIsHarmlessExactly | gcp/api/cursor.py:118-140 | that gives what resuming would give if and only if at most one id had been returned |
| Paging.RestartRepeats | gcp/api/cursor.py:118-140 | two ids and then an empty page: both are returned again |
| Paging.FollowPages | gcp/api/server.py:494-544 | following the tokens for any number of pages, with any cut-offs and restarts, returns only matching ids, and every one of them once the tokens end |
| Base64.DecodeUndoesEncode | gcp/api/cursor.py:27-29 | base64url of section 5 of RFC 4648 decodes to the bytes it encodes |
| Base64.RoundTripUtf8 | gcp/api/cursor.py:104-106 | decoding with ignored errors gives back every encoded string |
| Cursor.PartitionItem | gcp/api/cursor.py:104-107 | an id with '=' or ':' in it is read back whole |
| Cursor.TokenReadsBack | gcp/api/cursor.py:80-116 | a token restores state, query number, database cursor and last id; two kinds of cursor bytes read as the first page |
| Cursor.TokenRoundTrip | gcp/api/cursor.py:157-179 | the round trip holds if and only if the bytes are not empty and do not spell the first page |
| Cursor.TokensDiffer | gcp/api/cursor.py:157-179 | different restorable cursors have different tokens |
| Cursor.QueryCursor.UpdateFromIterator | gcp/api/cursor.py:118-140 | in progress after an element, started otherwise |
| Cursor.QueryCursor.UrlSafeEncode | gcp/api/cursor.py:157-179 | the object's token is that of its value, none when ended |
| Cursor.QueryCursor.FromPageToken | gcp/api/cursor.py:80-116 | reading a token builds the parsed cursor, or fails exactly where parsing does |
| Batch.StepKeeps | gcp/api/server.py:494-509 | every step of every task keeps the counting invariant |
| Batch.BatchBudget | gcp/api/server.py:436-465 | in every state of every interleaving: count equals the sum of pages, each page at most 1000 or under an override the override or 5, total at most 3001 + 5N, commit queries included |
| QueryResults.QueryReturnsExactlyTheMatches | gcp/api/server.py:931-1011 | for queries with or without an ecosystem and with or without a version: prefilter, match and scan together return the sorted ids of exactly the accepted entities |
| QueryResults.IndexKeepsMeaning | osv/models/indexing.py:268-367 | for a named package, some entity accepts a version in an ecosystem if and only if the record affects it: by a listed version, or by a range outside Alpine and Ubuntu |
| QueryResults.QueryAnswersRecords | gcp/api/server.py:931-1102 | for a store that holds exactly the keys of the sources, with bounds some indexing gave them, and any query by name: the sorted ids of exactly the records it is about, by package or by repository, in one ecosystem or in any, for one version or for all |
| EndToEnd.StoreHolds | osv/models/indexing.py:404-426 | a store filled from nothing by a run of writes holds exactly the keys of the latest records |
| EndToEnd.AnswerMeans | gcp/api/server.py:1023-1102 | the answer in terms of records: the latest record with the id is not withdrawn and the query is about a part of it |
| EndToEnd.WriteAndAsk | gcp/api/server.py:494-544 | records are written into an empty store one after the other, any query by name is asked, the tokens are followed: the caller receives the sorted ids of exactly the latest records it is about |
| EndToEnd.ReindexingHidesMatch | osv/models/entities.py:209-212 | a record written again with another coarse version of its listed version: the stored entity is accepted for that version and not fetched |
| Graphs.AcyclicIffOrdered | gcp/website/frontend_handlers.py:1207-1251 | a graph has no directed cycle if and only if it has a complete topological order |
| Hierarchy.CycleFinder.Dfs | gcp/website/frontend_handlers.py:1223-1244 | found means a cycle; otherwise the node and its successors are ordered and the stack is as before |
| Hierarchy.HasCycle | gcp/website/frontend_handlers.py:1207-1251 | True exactly when the map has a directed cycle |
| Hierarchy.ReverseTree | gcp/website/frontend_handlers.py:1156-1168 | the result has exactly the reversed edges |
| Hierarchy.SameAnswerReversed | gcp/website/frontend_handlers.py:1156-1251 | the cycle check answers alike on a map and its reverse |
| Hierarchy.GetUpstreams | gcp/website/frontend_handlers.py:1171-1204 | a hierarchy exactly for a non-empty acyclic map, reversed and acyclic, its roots the childless upstreams |
| Hierarchy.Printer.PrintSubtree | gcp/website/frontend_handlers.py:1123-1148 | the recursion ends on every acyclic graph and appends the specified lines |
| Hierarchy.SubtreePrintsReachable | gcp/website/frontend_handlers.py:1123-1145 | a subtree prints exactly what is reachable without passing the target, linked exactly if known |
| Hierarchy.SubtreeIsBalanced | gcp/website/frontend_handlers.py:1123-1148 | every opened list is closed |
| Hierarchy.RootsPrintReachable | gcp/website/frontend_handlers.py:1147-1153 | the same over all roots |
| Hierarchy.ConstructHierarchy | gcp/website/frontend_handlers.py:1104-1204 | from a stored map to lines, for every map |
| Upstream.ComputeUpstream | gcp/website/emulator_upstream.py:29-53 | the sorted list of exactly the ids reachable in one or more steps |
| Upstream.ComputeHierarchy | gcp/website/emulator_upstream.py:133-195 | the worklist collects the groups above the target and prunes its entry |
| Upstream.KeptAreIndependent | gcp/website/emulator_upstream.py:169-187 | no kept upstream is reachable from another kept one |
| Upstream.LosslessExactly | gcp/website/emulator_upstream.py:154-187 | the pruned map reaches every upstream if and only if every upstream on a cycle lies below one that is not |
| Upstream.LoopIsLost | gcp/website/emulator_upstream.py:154-187 | two upstreams above each other and nothing else: the pruned map reaches neither |
| Upstream.AcyclicHierarchyIsLossless | gcp/website/emulator_upstream.py:154-187 | on an acyclic relation nothing is lost and what is kept is independent |
| UpstreamPage.PrintStored | gcp/website/frontend_handlers.py:1104-1204 | from a current hierarchy on an acyclic relation: the page shows exactly the transitive upstreams of the target, each linked exactly if known, in balanced lists |
| UpstreamJob.Job.Run | gcp/website/emulator_upstream.py:198-244 | after the two loops: the group of every bug holds its sorted transitive upstreams; the groups written are those that were missing or held others, and their hierarchies are those of the new groups; every other group is as it was |
| UpstreamJob.StaleExactly | gcp/website/emulator_upstream.py:198-244 | a hierarchy that was current before the run is current after it if and only if the run writes its group or writes no group above it |
| UpstreamJob.ClosuresExactly | gcp/website/emulator_upstream.py:221-240 | the stored groups are the transitive upstreams of the relation if and only if none is left of an id that has no upstreams |
| UpstreamJob.AddedEdgeLeavesStale | gcp/website/emulator_upstream.py:221-244 | an edge added between two upstreams of a bug: the run leaves the stored hierarchy of the bug out of date |
| UpstreamJob.RunAndPrint | gcp/website/emulator_upstream.py:198-244 | a run on an acyclic relation and then the page of a bug whose hierarchy it leaves current: exactly its transitive upstreams, as above |
| Aliases.BuildAliases | gcp/website/emulator_aliases.py:156-172 | the map holds exactly the pairs some eligible bug lists, both ways |
| Aliases.Maintenance.ComputeAliases | gcp/website/emulator_aliases.py:73-93 | the worklist returns the sorted connected component and marks exactly it visited |
| Aliases.Maintenance.UpdateGroup | gcp/website/emulator_aliases.py:28-51 | delete, leave or overwrite a group, and the change it records |
| Aliases.Maintenance.CreateGroup | gcp/website/emulator_aliases.py:54-70 | a new group exactly for 2 to 32 ids |
| Aliases.UpdateStep | gcp/website/emulator_aliases.py:182-193 | every round over a stored group keeps the invariant of the run |
| Aliases.CreateStep | gcp/website/emulator_aliases.py:195-199 | so does every round over an id with aliases |
| Aliases.Maintenance.Run | gcp/website/emulator_aliases.py:140-199 | from any store of non-empty groups the run settles the store; on a settled store it writes nothing; which stored groups are left, with which members, and the whole record of changes are determined by the groups it began with and the order of the scan |
| Aliases.SharedGroupIffConnected | gcp/website/emulator_aliases.py:140-199 | in a settled store two ids share a group if and only if they are connected in a component of 2 to 32 ids |
| Aliases.SettledStoresAgree | gcp/website/emulator_aliases.py:90-93 | all settled stores hold the same groups, whatever order they were reached in |
| Aliases.StaleExactly | gcp/website/emulator_aliases.py:182-193 | a member of a group left alone is recorded, and then as deleted, if and only if a group merged away lists it; merged are the groups whose first id lies in the class of an earlier group |
| Aliases.StaleEntry | gcp/website/emulator_aliases.py:182-193 | two stored groups that share their first id: the right one stays and the id is recorded as deleted |
| Store.AffectedFromProto | osv/models/indexing.py:370-379 | the last entity of each sort key over all affected packages |
| Store.Diff | osv/models/indexing.py:382-397 | added are the wanted entities not stored, removed one stored entity of each unwanted key |
| Store.KeysAfter | osv/models/indexing.py:404-426 | after a write the record's keys are the wanted ones and the unwanted ones stored twice |
| Store.Datastore.PutEntities | osv/models/indexing.py:404-426 | one write on the store: the record's keys are the wanted ones if and only if no unwanted key was stored twice; kept entities unchanged, new ones as wanted, other records untouched, uniqueness kept |
| Store.BoundsAreWantedExactly | osv/models/indexing.py:382-397 | after a write every stored entity of a wanted key is the wanted one, bounds included, if and only if no other was stored under that key before |
| Store.DoubledKeySurvives | osv/models/indexing.py:382-397 | an entity stored twice survives the write that should remove it |
| Store.Datastore.PutNext | osv/models/indexing.py:404-426 | with no key stored twice, the entity of every key after one write: removed if unwanted, kept as it is if stored, added otherwise |
| Store.Datastore.PutAll | osv/models/indexing.py:404-426 | after any run of writes the stored entity of every key, bounds included: the one of the first write of the last unbroken stretch that wants the key |
| Store.LatestKeys | osv/models/indexing.py:404-426 | so each id has exactly the keys its latest record asks for, none if withdrawn |
| CommitPages.BatchesAreTheList | osv/impact.py:506-509 | the batches are the list in pieces, all but the last full |
| CommitPages.PageIdReadsBack | gcp/api/server.py:909-912 | the bug id read from a page id is the one it was made from, and no two pages share an id |
| CommitPages.CommitStore.UpdateAffectedCommits | osv/impact.py:528-557 | the bug has exactly its new pages, later pages deleted, other bugs untouched |
| CommitPages.UpdatedIsFound | gcp/api/server.py:874-928 | afterwards the commit query finds the bug if and only if its vulnerability exists and is not withdrawn, it is public, and the commit is one of the new ones; and every other bug as before |
| Conversion.TryResolve | vulnfeeds/conversion/common.go:186-254 | one range on one repository: last values of the fields, which lookups count, and when it stays unresolved |
| Conversion.GitVersionsToCommits | vulnfeeds/conversion/common.go:143-261 | gives up exactly when a rate limit is reached with ranges left; otherwise each range has the outcome it would have alone, resolved ranges are in the order of their candidates and unresolved ones in the given order |
| Conversion.Conserved | vulnfeeds/conversion/common.go:143-261 | every range ends exactly once, resolved or unresolved |
| Conversion.ResolvedIsWellFormed | vulnfeeds/conversion/common.go:186-294 | a resolved range uses the first possible candidate, has one introduced and one end, and names only a repository it may |
| Conversion.IntroductionIsForgotten | vulnfeeds/conversion/common.go:186-228 | whether and where a range resolves does not depend on its introduced version; the result is that of the range without one if and only if it is missing, 0, or has no commit (or the commit 0) there |
| Grouping.GroupRanges | vulnfeeds/conversion/grouping.go:38-104 | the map and the order slice compute the groups in order of first appearance |
| Grouping.CleanEvents | vulnfeeds/conversion/grouping.go:220-265 | the three phases of cleaning compute Clean |
| Grouping.CleanIs | vulnfeeds/conversion/grouping.go:220-265 | cleaning keeps the first introduction at the front and the other distinct events in order |
| Grouping.CleanKeepsAllExactly | vulnfeeds/conversion/grouping.go:220-265 | cleaning keeps every event if and only if different events differ in text and all introduced events are the same |
| Grouping.CleanIsOnceEach | vulnfeeds/conversion/grouping.go:220-265 | for all events, cleaning invents none, keeps none twice, and leaves at most one introduction, in front |
| Grouping.DedupKeepsAllExactly | vulnfeeds/conversion/grouping.go:221-232 | deduplication by text loses nothing if and only if different events differ in text |
| Grouping.BarHidesAnEvent | vulnfeeds/conversion/grouping.go:226-231 | a vertical bar in a version can hide an event |
| Grouping.SecondGroupingExactly | vulnfeeds/conversion/grouping.go:38-104 | grouping again changes nothing if and only if no two groups of one type and repository begin, after deduplication, with the same introduced version |
| Grouping.GroupingIsCanonical | vulnfeeds/conversion/grouping.go:38-104 | for ranges with one introduced version each, none beginning with a bar: distinct keys in order, each range with events of its group once each, all of them exactly if cleaning loses none, and idempotence |
| Grouping.TwoIntroductionsAreNotCanonical | vulnfeeds/conversion/grouping.go:45-61 | a range with two introduced versions can break idempotence |

## Left out

- Aliases.StaleExactly: ids that left a shrunken group without joining another are not recorded at all, and keep the aliases they had; the code does not record them.
- MavenOrder.MavenIsLawful: transitivity, on the plain versions and one more; there is no largest set of further versions, and which sets go together is not characterized. The rest of the contract holds on all strings (`MavenOrder.MavenIsFilterSafe`).
- Packagist.PackagistIsLawful: versions with a '#' token, on which the order is not transitive (`Packagist.TransitiveThroughExactly`); what holds of them is in `Packagist.CoarseFollowsExactly`.
- Packagist.PackagistCoarseMonotone: versions whose coarse version reads a '#' token, where it fails (`Packagist.CoarseFollowsExactly`).
- Prefilter.PrefilterLosesNothing: `sorted` of the events is the insertion sort of `Sorting`; where the order has cycles another sort may give another list, which `Prefilter.UsualShapeKeepsMatches` covers if its neighbours are in order.
- Store.AffectedFromProto: the final sort of the unique entities is not modelled; the store does not depend on the order.
- Paging.FollowTokens: a page cut off before its first entity is excluded here and treated by `Paging.EmptyPageRestarts` and `Paging.RestartIsHarmlessExactly`.
- Enumeration.EvaluatorsAgreeExactly: ranges with `limit` events; the two evaluators treat them differently.
- EndToEnd.WriteAndAsk: pages cut off before their first entity are excluded, as in `Paging.FollowTokens`; what the store held before the records is empty, since stale bounds would not be refreshed; ranges whose sorted events do not begin with an introduction, which the bounds can hide (`Prefilter.BoundsKeepMatchesExactly`).
- QueryResults.QueryAnswersRecords: every ecosystem a package is filed under must use the helper the server queries it with; an entry of a suffixed ecosystem filed under a base ecosystem with another helper is not covered.
- Limits of the alphabet: digits are ASCII digits, `lower()` changes ASCII letters only, version strings have no line breaks where a regular expression treats them specially, and strings have no lone surrogates.
- `int()` and its accepted spellings are a parameter that reads back what `str()` writes.
- Orders of Debian, RPM, Alpine, RubyGems and PyPI versions, and the helpers that delegate (NuGet, Pub, Bioconductor, Hex, opam and others): the theorems about an arbitrary helper apply to those that keep its contract.
- Fuzzy matching of versions in ecosystems without a helper: a parameter of the match.
- Futures of vulnerability records that fail to load, and the filtering of missing ones from a reply.
- The hour of the cut-off and the sleeps between writes: a late turn is a boolean supplied from outside.
- Grouping.GroupRanges: the merging of database-specific fields; metadata is that of the first range of a group.
- The note-taking of the converters, and the pass over lists of one range before grouping.
- Paging.DoQuery: package URLs, the checks of ecosystem, name and version before the query, the normalization of names, and the commit branch, whose page is `CommitPages.UpdatedIsFound`; the rows and the override are given.
- Canonical links, tag normalization and fuzzy tag lookup: what they find is part of a candidate repository.
- UpstreamJob.Job.Run: the hierarchy is stored as a map, where the code stores its JSON text; a group read twice under one id is one group.
- Updates of Vulnerability and ListedVulnerability records after an alias or upstream run.
- Determine-version scoring: its logarithms and rounding.
- Datastore queries, transactions, indexes and storage failures: stores are maps and sequences.
