/** The pages of affected commits kept for a bug: written in batches under ids made of the bug id
    and the page number, and read back by bug id. */
module CommitPages {
  import opened Strings
  import opened StringSets

  const MAX_COMMITS_PER_ENTITY := 10000
  const DATASTORE_LARGE_BATCH_SIZE := 8

  // ----- _batcher

  function Batches<T>(entries: seq<T>, size: nat): (r: seq<seq<T>>)
    requires size > 0
    ensures forall i :: 0 <= i < |r| ==> 0 < |r[i]| <= size
  {
    if entries == [] then []
    else if |entries| <= size then [entries]
    else [entries[..size]] + Batches(entries[size..], size)
  }

  function Flatten<T>(parts: seq<seq<T>>): seq<T> { if parts == [] then [] else parts[0] + Flatten(parts[1..]) }

  /** The batches are the list in pieces, and every batch but the last is full. */
  lemma {:induction false} BatchesAreTheList<T>(entries: seq<T>, size: nat)
    requires size > 0
    ensures Flatten(Batches(entries, size)) == entries
    ensures forall i :: 0 <= i < |Batches(entries, size)| - 1 ==> |Batches(entries, size)[i]| == size
  {
    if |entries| > size {
      BatchesAreTheList(entries[size..], size);
      assert entries == entries[..size] + entries[size..];
    } else if entries != [] {
      assert [entries][1..] == [] && entries + [] == entries;
    }
  }

  lemma {:induction false} InFlatten<T>(parts: seq<seq<T>>, x: T)
    ensures x in Flatten(parts) <==> exists n :: 0 <= n < |parts| && x in parts[n]
  {
    if parts != [] {
      InFlatten(parts[1..], x);
      assert forall n :: 1 <= n < |parts| ==> parts[n] == parts[1..][n - 1];
      if x in Flatten(parts[1..]) {
        var n :| 0 <= n < |parts[1..]| && x in parts[1..][n];
        assert x in parts[n + 1];
      }
    }
  }

  // ----- page ids

  function PageId(bugId: string, page: nat): string { bugId + "-" + Decimal(page) }

  /** id.rsplit('-', 1)[0]: the text before the last '-'. */
  function BugIdOf(id: string): string {
    if Free(id, '-') then id
    else if id[|id| - 1] == '-' then id[..|id| - 1]
    else BugIdOf(id[..|id| - 1])
  }

  lemma {:induction false} BugIdBefore(bugId: string, tail: string)
    requires Free(tail, '-')
    ensures BugIdOf(bugId + "-" + tail) == bugId
  {
    var id := bugId + "-" + tail;
    assert id[|bugId|] == '-';
    if tail == "" {
      assert id[..|id| - 1] == bugId;
    } else {
      assert id[..|id| - 1] == bugId + "-" + tail[..|tail| - 1];
      BugIdBefore(bugId, tail[..|tail| - 1]);
    }
  }

  /** A page id gives back the bug id, whatever dashes the bug id holds, and the page number. */
  lemma {:induction false} PageIdReadsBack(bugId: string, page: nat, other: string, otherPage: nat)
    ensures BugIdOf(PageId(bugId, page)) == bugId
    ensures PageId(bugId, page) == PageId(other, otherPage) ==> bugId == other && page == otherPage
  {
    DecimalHasNoDash(page);
    DecimalHasNoDash(otherPage);
    BugIdBefore(bugId, Decimal(page));
    BugIdBefore(other, Decimal(otherPage));
    if PageId(bugId, page) == PageId(other, otherPage) {
      assert PageId(bugId, page)[|bugId| + 1..] == Decimal(page)
        && PageId(other, otherPage)[|other| + 1..] == Decimal(otherPage);
      ValueOfDecimal(page);
      ValueOfDecimal(otherPage);
    }
  }

  lemma {:induction false} DecimalHasNoDash(n: nat)
    ensures Free(Decimal(n), '-')
  {
    assert AllDigits(Decimal(n));
  }

  // ----- the stored pages

  datatype Page = Page(bugId: string, page: nat, commits: seq<string>, isPublic: bool)

  type Pages = map<string, Page>

  function IdOf(p: Page): string { PageId(p.bugId, p.page) }

  /** Every page is stored under its own id. */
  ghost predicate WellKeyed(pages: Pages) { forall id :: id in pages ==> id == IdOf(pages[id]) }

  function PutAll(pages: Pages, list: seq<Page>): Pages
    decreases list
  {
    if list == [] then pages else PutAll(pages[IdOf(list[0]) := list[0]], list[1..])
  }

  lemma {:induction false} PutAllConcat(pages: Pages, list: seq<Page>, more: seq<Page>)
    ensures PutAll(pages, list + more) == PutAll(PutAll(pages, list), more)
    decreases list
  {
    if list == [] {
      assert list + more == more;
    } else {
      assert (list + more)[1..] == list[1..] + more;
      PutAllConcat(pages[IdOf(list[0]) := list[0]], list[1..], more);
    }
  }

  /** The pages of one bug, numbered from `first`. */
  function PagesOf(bugId: string, isPublic: bool, batches: seq<seq<string>>, first: nat): (r: seq<Page>)
    ensures |r| == |batches|
    ensures forall n :: 0 <= n < |r| ==> r[n] == Page(bugId, first + n, batches[n], isPublic)
  {
    if batches == [] then []
    else [Page(bugId, first, batches[0], isPublic)] + PagesOf(bugId, isPublic, batches[1..], first + 1)
  }

  ghost predicate IdsApart(list: seq<Page>) { forall i, j :: 0 <= i < j < |list| ==> IdOf(list[i]) != IdOf(list[j]) }

  function Ids(list: seq<Page>): set<string> { set p | p in list :: IdOf(p) }

  /** Putting pages with different ids stores each of them and leaves the rest. */
  lemma {:induction false} PutAllStores(pages: Pages, list: seq<Page>)
    requires IdsApart(list)
    ensures forall p :: p in list ==> IdOf(p) in PutAll(pages, list) && PutAll(pages, list)[IdOf(p)] == p
    ensures forall id :: id !in Ids(list) ==> (id in PutAll(pages, list) <==> id in pages)
    ensures forall id :: id in pages && id !in Ids(list) ==> PutAll(pages, list)[id] == pages[id]
    decreases list
  {
    if list != [] {
      var p, rest := list[0], list[1..];
      assert list == [p] + rest;
      assert Ids(list) == Ids(rest) + {IdOf(p)};
      assert IdOf(p) !in Ids(rest) by { forall q | q in rest ensures IdOf(q) != IdOf(p) { } }
      PutAllStores(pages[IdOf(p) := p], rest);
    }
  }

  /** The ids of a bug's numbered pages are those of the bug with numbers in range. */
  lemma {:induction false} PageIds(bugId: string, isPublic: bool, batches: seq<seq<string>>, list: seq<Page>)
    requires list == PagesOf(bugId, isPublic, batches, 0)
    ensures IdsApart(list)
    ensures forall b, n: nat :: PageId(b, n) in Ids(list) <==> b == bugId && n < |batches|
  {
    forall i, j | 0 <= i < j < |list| ensures IdOf(list[i]) != IdOf(list[j]) { PageIdReadsBack(bugId, i, bugId, j); }
    forall b, n: nat ensures PageId(b, n) in Ids(list) <==> b == bugId && n < |batches| {
      if PageId(b, n) in Ids(list) {
        var i :| 0 <= i < |list| && IdOf(list[i]) == PageId(b, n);
        PageIdReadsBack(bugId, i, b, n);
      }
      if b == bugId && n < |batches| { assert IdOf(list[n]) == PageId(b, n) && list[n] in list; }
    }
  }

  /** Putting a bug's new pages and deleting its pages beyond them. */
  lemma {:induction false} PutThenDelete(before: Pages, after: Pages, bugId: string, isPublic: bool,
        batches: seq<seq<string>>, list: seq<Page>, stale: set<string>)
    requires WellKeyed(before) && list == PagesOf(bugId, isPublic, batches, 0)
    requires stale == set id | id in before && before[id].bugId == bugId && before[id].page >= |batches|
    requires after == PutAll(before, list) - stale
    ensures IsUpdated(before, after, bugId, isPublic, batches)
  {
    var put := PutAll(before, list);
    PageIds(bugId, isPublic, batches, list);
    PutAllStores(before, list);
    forall n | 0 <= n < |batches| ensures PageId(bugId, n) in after
      && after[PageId(bugId, n)] == Page(bugId, n, batches[n], isPublic) {
      assert list[n] in list && IdOf(list[n]) == PageId(bugId, n);
      NotStale(before, bugId, |batches|, stale, n);
    }
    forall id | id in after ensures OldOrNew(before, after, bugId, |batches|, id) {
      if id in Ids(list) {
        var p :| p in list && IdOf(p) == id;
      }
    }
    forall id | id in before && before[id].bugId != bugId ensures id in after && after[id] == before[id] {
      assert id == PageId(before[id].bugId, before[id].page);
    }
  }

  lemma {:induction false} NotStale(before: Pages, bugId: string, count: nat, stale: set<string>, n: nat)
    requires WellKeyed(before) && n < count
    requires stale == set id | id in before && before[id].bugId == bugId && before[id].page >= count
    ensures PageId(bugId, n) !in stale
  {
    var id := PageId(bugId, n);
    if id in before { PageIdReadsBack(bugId, n, before[id].bugId, before[id].page); }
  }

  /** A page after the update is one of the bug's new pages or an old page of another bug. */
  ghost predicate OldOrNew(before: Pages, after: Pages, bugId: string, count: nat, id: string)
    requires id in after
  {
    && id == IdOf(after[id])
    && if after[id].bugId == bugId then after[id].page < count else id in before && after[id] == before[id]
  }

  class CommitStore {
    var pages: Pages

    constructor ()
      ensures pages == map[]
    {
      pages := map[];
    }

    method PutMulti(list: seq<Page>)
      modifies this
      ensures pages == PutAll(old(pages), list)
    {
      ghost var rest := list;
      for i := 0 to |list|
        invariant rest == list[i..] && PutAll(pages, rest) == PutAll(old(pages), list)
      {
        pages := pages[IdOf(list[i]) := list[i]];
        rest := rest[1..];
      }
    }

    /** _throttled_put: the same as one put of the whole list. */
    method ThrottledPut(list: seq<Page>)
      modifies this
      ensures pages == PutAll(old(pages), list)
    {
      var batches := Batches(list, DATASTORE_LARGE_BATCH_SIZE);
      BatchesAreTheList(list, DATASTORE_LARGE_BATCH_SIZE);
      ghost var rest := batches;
      for i := 0 to |batches|
        invariant rest == batches[i..] && PutAll(pages, Flatten(rest)) == PutAll(old(pages), list)
      {
        PutAllConcat(pages, batches[i], Flatten(rest[1..]));
        rest := rest[1..];
        PutMulti(batches[i]);
      }
    }

    method ThrottledDelete(ids: seq<string>)
      modifies this
      ensures pages == old(pages) - Elements(ids)
    {
      var batches := Batches(ids, DATASTORE_LARGE_BATCH_SIZE);
      BatchesAreTheList(ids, DATASTORE_LARGE_BATCH_SIZE);
      ghost var rest := batches;
      for i := 0 to |batches|
        invariant rest == batches[i..] && pages - Elements(Flatten(rest)) == old(pages) - Elements(ids)
      {
        var batch := batches[i];
        ghost var left := Flatten(rest[1..]);
        assert Elements(batch + left) == Elements(batch) + Elements(left);
        pages := pages - Elements(batch);
        rest := rest[1..];
      }
    }

    /** update_affected_commits. */
    method UpdateAffectedCommits(bugId: string, commits: set<string>, isPublic: bool)
      requires WellKeyed(pages)
      modifies this
      ensures IsUpdated(old(pages), pages, bugId, isPublic, Batches(SortedOf(commits), MAX_COMMITS_PER_ENTITY))
    {
      var sorted := SortSet(commits);
      var batches := Batches(sorted, MAX_COMMITS_PER_ENTITY);
      var toPut: seq<Page> := [];
      var numPages := 0;
      for i := 0 to |batches|
        invariant numPages == i && |toPut| == i && forall n ::
                  0 <= n < i ==> toPut[n] == Page(bugId, n, batches[n], isPublic)
      {
        toPut := toPut + [Page(bugId, numPages, batches[i], isPublic)];
        numPages := numPages + 1;
      }
      assert toPut == PagesOf(bugId, isPublic, batches, 0);
      var stale := set id | id in pages && pages[id].bugId == bugId && pages[id].page >= numPages;
      var toDelete := SortSet(stale);
      ThrottledPut(toPut);
      ThrottledDelete(toDelete);
      PutThenDelete(old(pages), pages, bugId, isPublic, batches, toPut, stale);
    }
  }

  /** The bug has exactly its new pages, and the other bugs have what they had. */
  ghost predicate IsUpdated(before: Pages, after: Pages, bugId: string, isPublic: bool, batches: seq<seq<string>>) {
    && (forall id :: id in after ==> OldOrNew(before, after, bugId, |batches|, id))
    && (forall n :: 0 <= n < |batches| ==>
      PageId(bugId, n) in after && after[PageId(bugId, n)] == Page(bugId, n, batches[n], isPublic))
    && (forall id :: id in before && before[id].bugId != bugId ==> id in after && after[id] == before[id])
  }

  /** What the commit query finds: the bug ids read from the ids of the public pages that hold a
      commit, as far as they name a vulnerability that exists and is not withdrawn. */
  ghost predicate CommitFinds(pages: Pages, live: set<string>, commit: string, bugId: string) {
    && bugId in live
    && exists id :: id in pages && commit in pages[id].commits && pages[id].isPublic && BugIdOf(id) == bugId
  }

  /** A page id names the bug it was made from. */
  lemma {:induction false} IdsName(pages: Pages)
    requires forall id :: id in pages ==> id == IdOf(pages[id])
    ensures forall id :: id in pages ==> BugIdOf(id) == pages[id].bugId
  {
    forall id | id in pages ensures BugIdOf(id) == pages[id].bugId {
      PageIdReadsBack(pages[id].bugId, pages[id].page, "", 0);
    }
  }

  lemma {:induction false} FoundInBatches(before: Pages, after: Pages, bugId: string, isPublic: bool,
        batches: seq<seq<string>>, live: set<string>, commit: string)
    requires IsUpdated(before, after, bugId, isPublic, batches)
    ensures CommitFinds(after, live, commit, bugId) <==>
            bugId in live && isPublic && exists n :: 0 <= n < |batches| && commit in batches[n]
  {
    IdsName(after);
    if isPublic && bugId in live {
      if n :| 0 <= n < |batches| && commit in batches[n] {
        assert PageId(bugId, n) in after;
      }
    }
    if CommitFinds(after, live, commit, bugId) {
      var id :| id in after && commit in after[id].commits && BugIdOf(id) == bugId;
      var n := after[id].page;
      assert id == PageId(bugId, n) && after[id] == Page(bugId, n, batches[n], isPublic);
    }
  }

  /** After an update a query by commit finds the bug exactly if it is live and public and the commit
      is one of the new ones, and every other bug as before. */
  lemma {:induction false} UpdatedIsFound(before: Pages, after: Pages, bugId: string, isPublic: bool,
        commits: set<string>, live: set<string>, commit: string, other: string)
    requires WellKeyed(before)
    requires IsUpdated(before, after, bugId, isPublic, Batches(SortedOf(commits), MAX_COMMITS_PER_ENTITY))
    ensures CommitFinds(after, live, commit, bugId) <==> bugId in live && isPublic && commit in commits
    ensures other != bugId ==> (CommitFinds(after, live, commit, other) <==> CommitFinds(before, live, commit, other))
  {
    var sorted := SortedOf(commits);
    var batches := Batches(sorted, MAX_COMMITS_PER_ENTITY);
    assert commit in sorted <==> commit in Elements(sorted);
    BatchesAreTheList(sorted, MAX_COMMITS_PER_ENTITY);
    InFlatten(batches, commit);
    FoundInBatches(before, after, bugId, isPublic, batches, live, commit);
    if other != bugId { OthersAreFound(before, after, bugId, isPublic, batches, live, commit, other); }
  }

  lemma {:induction false} OthersAreFound(before: Pages, after: Pages, bugId: string, isPublic: bool,
        batches: seq<seq<string>>, live: set<string>, commit: string, other: string)
    requires WellKeyed(before) && IsUpdated(before, after, bugId, isPublic, batches) && other != bugId
    ensures CommitFinds(after, live, commit, other) <==> CommitFinds(before, live, commit, other)
  {
    IdsName(before);
    IdsName(after);
  }
}
