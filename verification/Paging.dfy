/** Paged package queries: the page loop, the cursor it leaves behind, and what a caller
    who follows the tokens receives. */
module Paging {
  import opened Strings
  import opened StringSets
  import opened Ecosystems
  import opened Base64
  import opened Cursor
  import opened Sorting

  const MAX_VULN_RESP_THRESH := 3000
  const MAX_VULN_LISTED_POST_EXCEEDED := 5
  const MAX_VULN_LISTED_PRE_EXCEEDED := 1000

  // ----- the meaning of a scan

  /** A stored entity as one query sees it: its vulnerability, and whether the query accepts it. */
  datatype Row = Row(vulnId: string, affects: bool)

  /** The ids a scan returns when `last` was the id returned before it. */
  function Scan(rows: seq<Row>, last: string): seq<string> {
    if rows == [] then []
    else if rows[0].affects && rows[0].vulnId != last then [rows[0].vulnId] + Scan(rows[1..], rows[0].vulnId)
    else Scan(rows[1..], last)
  }

  function LastMatch(rows: seq<Row>, last: string): string {
    var found := Scan(rows, last);
    if found == [] then last else found[|found| - 1]
  }

  /** A scan in two parts: the second continues from the last id of the first. */
  lemma {:induction false} ScanSplits(rows: seq<Row>, more: seq<Row>, last: string)
    ensures Scan(rows + more, last) == Scan(rows, last) + Scan(more, LastMatch(rows, last))
    ensures LastMatch(rows + more, last) == LastMatch(more, LastMatch(rows, last))
  {
    if rows == [] {
      assert rows + more == more;
    } else {
      var row, rest := rows[0], rows[1..];
      var next := if row.affects then row.vulnId else last;
      assert (rows + more)[1..] == rest + more && (rows + more)[0] == row;
      ScanSplits(rest, more, next);
      var head := if row.affects && row.vulnId != last then [row.vulnId] else [];
      ScanStep(rows, row, rest, last, next, head);
      ScanStep(rows + more, row, rest + more, last, next, head);
      Associative(head, Scan(rest, next), Scan(more, LastMatch(rest, next)));
    }
  }

  lemma {:induction false} ScanStep(rows: seq<Row>, row: Row, rest: seq<Row>, last: string, next: string,
        head: seq<string>)
    requires rows != [] && rows[0] == row && rows[1..] == rest
    requires next == (if row.affects then row.vulnId else last)
    requires head == (if row.affects && row.vulnId != last then [row.vulnId] else [])
    ensures Scan(rows, last) == head + Scan(rest, next) && LastMatch(rows, last) == LastMatch(rest, next)
  {
    if head == [] {
      assert Scan(rows, last) == Scan(rest, next) && next == last;
      assert head + Scan(rest, next) == Scan(rest, next);
    } else {
      LastOfMore(row.vulnId, Scan(rest, next));
    }
  }

  lemma {:induction false} LastOfMore(id: string, found: seq<string>)
    ensures found == [] ==> ([id] + found)[|[id] + found| - 1] == id
    ensures found != [] ==> ([id] + found)[|[id] + found| - 1] == found[|found| - 1]
  {
  }

  /** One row more. */
  lemma {:induction false} ScanOneMore(rows: seq<Row>, row: Row, last: string)
    ensures var before := LastMatch(rows, last);
            Scan(rows + [row], last) ==
              Scan(rows, last) + (if row.affects && row.vulnId != before then [row.vulnId] else [])
  {
    ScanSplits(rows, [row], last);
    assert [row][1..] == [];
  }

  ghost predicate SortedById(rows: seq<Row>)
  {
    forall i, j :: 0 <= i < j < |rows| ==> Le(rows[i].vulnId, rows[j].vulnId)
  }

  function MatchingIds(rows: seq<Row>): set<string> { set r | r in rows && r.affects :: r.vulnId }

  ghost predicate AtLeast(rows: seq<Row>, id: string) { forall i :: 0 <= i < |rows| ==> Le(id, rows[i].vulnId) }

  lemma {:induction false} MatchingSplits(row: Row, rest: seq<Row>)
    ensures MatchingIds([row] + rest) == MatchingIds(rest) + (if row.affects then {row.vulnId} else {})
  {
    assert forall r :: r in [row] + rest <==> r == row || r in rest;
  }

  lemma {:induction false} NoneBelow(rows: seq<Row>, first: string, last: string)
    requires Lt(last, first) && AtLeast(rows, first)
    ensures last !in MatchingIds(rows)
  {
  }

  /** A list above `last`, ascending. */
  ghost predicate AscendsFrom(last: string, ids: seq<string>) {
    Ascending(ids) && forall i :: 0 <= i < |ids| ==> Lt(last, ids[i])
  }

  lemma {:induction false} ConsAscends(last: string, first: string, ids: seq<string>)
    requires Lt(last, first) && AscendsFrom(first, ids)
    ensures AscendsFrom(last, [first] + ids) && Elements([first] + ids) == {first} + Elements(ids)
  {
    forall i | 0 <= i < |ids| ensures Lt(last, ids[i]) { LtTransitive(last, first, ids[i]); }
  }

  /** From the last id on, a scan of sorted rows returns each other matching id once, in order. */
  lemma {:induction false} ScanFrom(rows: seq<Row>, last: string)
    requires SortedById(rows) && AtLeast(rows, last)
    ensures AscendsFrom(last, Scan(rows, last)) && Elements(Scan(rows, last)) == MatchingIds(rows) - {last}
  {
    if rows != [] {
      var first, rest := rows[0], rows[1..];
      assert rows == [first] + rest && AtLeast(rest, first.vulnId) && AtLeast(rest, last);
      MatchingSplits(first, rest);
      if first.affects && first.vulnId != last {
        ScanFrom(rest, first.vulnId);
        Trichotomy(last, first.vulnId);
        ConsAscends(last, first.vulnId, Scan(rest, first.vulnId));
        NoneBelow(rest, first.vulnId, last);
      } else {
        ScanFrom(rest, last);
      }
    }
  }

  /** A whole scan returns every matching id once and in order; only the empty id is passed over. */
  lemma {:induction false} WholeScan(rows: seq<Row>)
    requires SortedById(rows)
    ensures Scan(rows, "") == SortedOf(MatchingIds(rows) - {""})
  {
    ScanFrom(rows, "");
    SortedUnique(Scan(rows, ""), SortedOf(MatchingIds(rows) - {""}));
  }

  // ----- the database

  /** A query over a fixed list of rows; `mark` writes a position as cursor bytes, `find` reads it. */
  datatype Query = Query(rows: seq<Row>, mark: nat -> bytes, find: bytes -> nat)

  ghost predicate ValidQuery(q: Query) {
    && (forall b :: q.find(b) <= |q.rows|)
    && (forall i: nat :: i <= |q.rows| ==> q.find(q.mark(i)) == i && q.mark(i) != [] && q.mark(i) != FIRST_PAGE)
  }

  /** What happens while the loop waits for the database: other queries of the batch may have
      added responses, and the cut-off time may have passed. */
  datatype Turn = Turn(others: nat, late: bool)

  /** The most a page can hold under an override, whatever other queries of the batch add. */
  function PageBound(limitOverride: nat): nat {
    if limitOverride == 0 then MAX_VULN_LISTED_PRE_EXCEEDED
    else if limitOverride < MAX_VULN_LISTED_POST_EXCEEDED then MAX_VULN_LISTED_POST_EXCEEDED
    else limitOverride
  }

  /** The page limit of a query when `count` responses have been given to the whole request. */
  function LimitAt(count: int, limitOverride: nat): (limit: nat)
    ensures 1 <= limit <= PageBound(limitOverride)
  {
    if count > MAX_VULN_RESP_THRESH then MAX_VULN_LISTED_POST_EXCEEDED
    else if limitOverride != 0 then limitOverride
    else MAX_VULN_LISTED_PRE_EXCEEDED
  }

  class RowIterator {
    const query: Query
    const start: nat
    var next: nat

    constructor (query: Query, cursor: Option<bytes>)
      requires ValidQuery(query)
      ensures this.query == query && next == start && start <= |query.rows|
      ensures start == match cursor case Some(b) => query.find(b) case None => 0
    {
      this.query := query;
      var position := match cursor case Some(b) => query.find(b) case None => 0;
      start, next := position, position;
    }

    function HasNext(): bool
      reads this
    {
      next < |query.rows|
    }

    method Next() returns (row: Row)
      requires HasNext()
      modifies `next
      ensures next == old(next) + 1 && row == query.rows[old(next)]
    {
      row := query.rows[next];
      next := next + 1;
    }

    /** cursor_after(): None for the error raised before the first element. */
    function CursorAfter(): Option<bytes>
      reads this
    {
      if next > start then Some(query.mark(next)) else None
    }
  }

  class ResponsesCount {
    var count: int

    constructor (count: int)
      ensures this.count == count
    {
      this.count := count;
    }

    /** add(): false stands for its ValueError. */
    method Add(amount: int) returns (ok: bool)
      modifies this
      ensures ok == (amount >= 0) && count == old(count) + (if ok then amount else 0)
    {
      if amount < 0 { return false; }
      count := count + amount;
      return true;
    }

    predicate Exceeded()
      reads this
    {
      count > MAX_VULN_RESP_THRESH
    }

    function PageLimit(): (limit: nat)
      reads this
      ensures limit == if count > MAX_VULN_RESP_THRESH then 5 else 1000
    {
      if Exceeded() then MAX_VULN_LISTED_POST_EXCEEDED else MAX_VULN_LISTED_PRE_EXCEEDED
    }
  }

  class QueryContext {
    const inputCursor: QueryCursor
    const outputCursor: QueryCursor
    const total: ResponsesCount
    const singlePageLimitOverride: nat  // 0 for None
    var queryCounter: nat

    ghost predicate Valid()
      reads this, inputCursor, outputCursor
    {
      inputCursor != outputCursor && inputCursor.Valid() && outputCursor.Valid()
    }

    constructor (inputCursor: QueryCursor, outputCursor: QueryCursor, total: ResponsesCount, limitOverride: nat)
      requires inputCursor != outputCursor && inputCursor.Valid() && outputCursor.Valid()
      ensures this.inputCursor == inputCursor && this.outputCursor == outputCursor && this.total == total
      ensures singlePageLimitOverride == limitOverride && queryCounter == 0 && Valid()
    {
      this.inputCursor, this.outputCursor, this.total := inputCursor, outputCursor, total;
      singlePageLimitOverride, queryCounter := limitOverride, 0;
    }

    function CurrentLimit(): (limit: nat)
      reads this, total
      ensures limit == LimitAt(total.count, singlePageLimitOverride)
    {
      if singlePageLimitOverride != 0 && !total.Exceeded() then singlePageLimitOverride else total.PageLimit()
    }

    predicate ShouldBreakPage(responseCount: nat, late: bool)
      reads this, total
    {
      responseCount >= CurrentLimit() || late
    }

    predicate ShouldSkipQuery()
      reads this, inputCursor, outputCursor
    {
      queryCounter < inputCursor.queryNumber || outputCursor.phase != ENDED
    }

    function CursorAtCurrent(): Option<bytes>
      reads this, inputCursor
      requires inputCursor.Valid()
    {
      if inputCursor.queryNumber == queryCounter then inputCursor.Position() else None
    }

    method SaveCursorAtPageBreak(it: RowIterator, lastId: Option<string>)
      modifies outputCursor
      ensures outputCursor.Valid()
      ensures outputCursor.Value() == CursorValue(StoppedAt(it.query, it.start, it.next), queryCounter, lastId)
    {
      outputCursor.UpdateFromIterator(it.CursorAfter());
      outputCursor.queryNumber := queryCounter;
      outputCursor.lastId := lastId;
    }
  }

  /** The state a page break leaves: a page that consumed nothing falls back to the first page. */
  function StoppedAt(q: Query, start: nat, stop: nat): State {
    if stop > start then InProgress(q.mark(stop)) else Started
  }

  function IdOrEmpty(lastId: Option<string>): string { match lastId case Some(id) => id case None => "" }

  function IdIfAny(last: string): Option<string> { if last != "" then Some(last) else None }

  /** Where the query of a cursor starts when it is the first of its request. */
  function StartOf(q: Query, c: CursorValue): nat {
    match c.state
    case InProgress(b) => if c.queryNumber == 1 then q.find(b) else 0
    case _ => 0
  }

  /** A page from `start` to `stop`: what it returns and the cursor it leaves. */
  ghost predicate IsPage(q: Query, start: nat, last: string, stop: nat, bugs: seq<string>, left: CursorValue) {
    && start <= stop <= |q.rows|
    && bugs == Scan(q.rows[start..stop], last)
    && left == if stop == |q.rows| then CursorValue(Ended, 1, None)
               else CursorValue(StoppedAt(q, start, stop), 1, IdIfAny(LastMatch(q.rows[start..stop], last)))
  }

  lemma {:induction false} PageStep(q: Query, start: nat, next: nat, last: string)
    requires start <= next < |q.rows|
    ensures var before, row := LastMatch(q.rows[start..next], last), q.rows[next];
            && Scan(q.rows[start..next + 1], last) ==
               Scan(q.rows[start..next], last) + (if row.affects && row.vulnId != before then [row.vulnId] else [])
            && LastMatch(q.rows[start..next + 1], last) == if row.affects then row.vulnId else before
  {
    assert q.rows[start..next + 1] == q.rows[start..next] + [q.rows[next]];
    ScanOneMore(q.rows[start..next], q.rows[next], last);
  }

  /** The loop of query_package, from an iterator that has returned nothing yet. */
  method RunPage(context: QueryContext, it: RowIterator, last: string, turns: nat -> Turn) returns (bugs: seq<string>)
    requires context.outputCursor.Valid() && it.next == it.start <= |it.query.rows| && context.queryCounter == 1
    requires context.outputCursor.Value() == CursorValue(Ended, 1, None)
    modifies it, context.outputCursor, context.total
    ensures context.outputCursor.Valid() && it.next <= |it.query.rows|
    ensures IsPage(it.query, it.start, last, it.next, bugs, context.outputCursor.Value())
    ensures it.next == it.start < |it.query.rows| ==> turns(0).late
    ensures |bugs| <= PageBound(context.singlePageLimitOverride)
  {
    bugs := [];
    var lastMatchedId := last;
    assert it.query.rows[it.start..it.start] == [];
    while true
      invariant it.start <= it.next <= |it.query.rows|
      invariant bugs == Scan(it.query.rows[it.start..it.next], last)
      invariant lastMatchedId == LastMatch(it.query.rows[it.start..it.next], last)
      invariant context.outputCursor.Valid() && context.outputCursor.Value() == CursorValue(Ended, 1, None)
      invariant |bugs| <= PageBound(context.singlePageLimitOverride)
      modifies it, context.outputCursor, context.total
      decreases |it.query.rows| - it.next
    {
      var turn := turns(it.next - it.start);
      var added := context.total.Add(turn.others);
      if !it.HasNext() { break; }
      if context.ShouldBreakPage(|bugs|, turn.late) {
        context.SaveCursorAtPageBreak(it, if lastMatchedId != "" then Some(lastMatchedId) else None);
        return;
      }
      PageStep(it.query, it.start, it.next, last);
      var affected := it.Next();
      if affected.vulnId == lastMatchedId { continue; }
      if affected.affects {
        bugs := bugs + [affected.vulnId];
        lastMatchedId := affected.vulnId;
        added := context.total.Add(1);
      }
    }
  }

  /** query_package. */
  method QueryPackage(context: QueryContext, query: Query, turns: nat -> Turn)
    returns (bugs: seq<string>, ghost stop: nat)
    requires context.Valid() && ValidQuery(query) && context.queryCounter == 0
    requires context.outputCursor.Value() == CursorValue(Ended, 1, None)
    modifies context`queryCounter, context.outputCursor, context.total
    ensures context.Valid() && context.queryCounter == 1
    ensures context.inputCursor.queryNumber > 1 ==>
            bugs == [] && context.outputCursor.Value() == CursorValue(Ended, 1, None)
    ensures var c := context.inputCursor.Value(); c.queryNumber <= 1 ==>
              IsPage(query, StartOf(query, c), IdOrEmpty(c.lastId), stop, bugs, context.outputCursor.Value())
    ensures var c := context.inputCursor.Value(); c.queryNumber <= 1 && stop == StartOf(query, c) < |query.rows| ==>
            turns(0).late
    ensures |bugs| <= PageBound(context.singlePageLimitOverride)
  {
    bugs, stop := [], 0;
    context.queryCounter := context.queryCounter + 1;
    if context.ShouldSkipQuery() { return; }
    var lastMatchedId := "";
    if context.inputCursor.lastId.Some? && context.inputCursor.lastId.value != "" {
      lastMatchedId := context.inputCursor.lastId.value;
    }
    var it := new RowIterator(query, context.CursorAtCurrent());
    bugs := RunPage(context, it, lastMatchedId, turns);
    stop := it.next;
  }

  // ----- one request

  datatype Reply = Reply(bugs: seq<string>, nextPageToken: Option<string>)

  /** A request with one query: None for its ValueError, an invalid token or one of another query. */
  method DoQuery(query: Query, token: string, limitOverride: nat, turns: nat -> Turn, toInt: IntParser)
    returns (reply: Option<Reply>, ghost stop: nat)
    requires ValidQuery(query)
    ensures reply.None? <==> Parse(token, toInt).None? || Parse(token, toInt).value.queryNumber > 1
    ensures reply.Some? ==> AnswersPage(query, Parse(token, toInt).value, stop, reply.value)
    ensures reply.Some? && stop == StartOf(query, Parse(token, toInt).value) < |query.rows| ==> turns(0).late
    ensures reply.Some? ==> |reply.value.bugs| <= PageBound(limitOverride)
  {
    stop := 0;
    var input := QueryCursor.FromPageToken(token, toInt);
    if input == None { return None, 0; }
    var output := new QueryCursor();
    var total := new ResponsesCount(0);
    var context := new QueryContext(input.value, output, total, limitOverride);
    ghost var c := input.value.Value();
    var bugs;
    bugs, stop := QueryPackage(context, query, turns);
    assert input.value.Value() == c;
    if context.queryCounter < input.value.queryNumber { return None, 0; }
    var next := output.UrlSafeEncode();
    reply := Some(Reply(bugs, next));
  }

  ghost predicate AnswersPage(q: Query, c: CursorValue, stop: nat, reply: Reply) {
    exists left :: IsPage(q, StartOf(q, c), IdOrEmpty(c.lastId), stop, reply.bugs, left)
      && reply.nextPageToken == Encode(left)
  }

  // ----- following the tokens

  /** The cursor a caller holds after the rows before `pos` have been returned. */
  function CursorAt(q: Query, pos: nat, last: string): CursorValue {
    CursorValue(if pos == 0 then Started else InProgress(q.mark(pos)), 1, IdIfAny(last))
  }

  /** A page that consumed something, or started at the first row, leaves a cursor at its end. */
  lemma {:induction false} PageLeadsOn(q: Query, start: nat, last: string, stop: nat, bugs: seq<string>,
        left: CursorValue, toInt: IntParser)
    requires ValidQuery(q) && ReadsNumbers(toInt) && IsPage(q, start, last, stop, bugs, left) && stop < |q.rows|
    requires stop > start
    ensures Encode(left).Some? && Encode(left).value != ""
    ensures Parse(Encode(left).value, toInt) == Some(CursorAt(q, stop, LastMatch(q.rows[start..stop], last)))
    ensures StartOf(q, left) == stop && IdOrEmpty(left.lastId) == LastMatch(q.rows[start..stop], last)
  {
    TokenReadsBack(left, toInt);
  }

  lemma {:induction false} ScanToStop(rows: seq<Row>, pos: nat, stop: nat)
    requires pos <= stop <= |rows|
    ensures var last := LastMatch(rows[..pos], "");
            && Scan(rows[..stop], "") == Scan(rows[..pos], "") + Scan(rows[pos..stop], last)
            && LastMatch(rows[..stop], "") == LastMatch(rows[pos..stop], last)
  {
    assert rows[..stop] == rows[..pos] + rows[pos..stop];
    ScanSplits(rows[..pos], rows[pos..stop], "");
  }

  /** A caller who follows the tokens to the end receives the whole scan, whatever breaks the
      pages, as long as no page is cut off before its first entity. */
  method FollowTokens(query: Query, limits: nat -> nat, turns: nat -> nat -> Turn, toInt: IntParser)
    returns (all: seq<string>)
    requires ValidQuery(query) && ReadsNumbers(toInt)
    requires forall page :: !turns(page)(0).late
    ensures all == Scan(query.rows, "")
  {
    all := [];
    var token, page := "", 0;
    ghost var pos: nat, last := 0, "";
    assert query.rows[..0] == [];
    while true
      invariant pos <= |query.rows|
      invariant all == Scan(query.rows[..pos], "") && last == LastMatch(query.rows[..pos], "")
      invariant Parse(token, toInt) == Some(CursorAt(query, pos, last))
      decreases |query.rows| - pos
    {
      var reply;
      ghost var stop;
      reply, stop := DoQuery(query, token, limits(page), turns(page), toInt);
      ghost var left :| IsPage(query, pos, last, stop, reply.value.bugs, left)
        && reply.value.nextPageToken == Encode(left);
      ScanToStop(query.rows, pos, stop);
      all := all + reply.value.bugs;
      if reply.value.nextPageToken == None {
        assert query.rows[..stop] == query.rows;
        return;
      }
      assert !turns(page)(0).late;
      PageLeadsOn(query, pos, last, stop, reply.value.bugs, left, toInt);
      token := reply.value.nextPageToken.value;
      pos, last := stop, LastMatch(query.rows[pos..stop], last);
      page := page + 1;
    }
  }

  // ----- a page that consumes nothing

  /** It sends the caller back to the first row, with the last id kept. */
  lemma {:induction false} EmptyPageRestarts(q: Query, start: nat, last: string, bugs: seq<string>, left: CursorValue,
        toInt: IntParser)
    requires ReadsNumbers(toInt) && IsPage(q, start, last, start, bugs, left) && start < |q.rows|
    ensures bugs == [] && Encode(left).Some?
    ensures Parse(Encode(left).value, toInt) == Some(CursorAt(q, 0, last))
  {
    assert q.rows[start..start] == [];
    TokenReadsBack(left, toInt);
  }

  lemma {:induction false} NothingNew(rows: seq<Row>, last: string)
    requires forall x :: x in MatchingIds(rows) ==> x == last
    ensures Scan(rows, last) == []
  {
    if rows != [] {
      assert rows == [rows[0]] + rows[1..];
      MatchingSplits(rows[0], rows[1..]);
      NothingNew(rows[1..], last);
    }
  }

  lemma {:induction false} OtherIdsAppear(rows: seq<Row>, last: string, x: string)
    requires x in MatchingIds(rows) && x != last
    ensures x in Scan(rows, last)
  {
    var row, rest := rows[0], rows[1..];
    assert rows == [row] + rest;
    MatchingSplits(row, rest);
    if !(row.affects && row.vulnId == x) {
      OtherIdsAppear(rest, if row.affects then row.vulnId else last, x);
    }
  }

  /** Starting over gives the caller what resuming would have given exactly if at most one id had
      been returned so far; otherwise ids are returned again. */
  lemma {:induction false} RestartIsHarmlessExactly(rows: seq<Row>, start: nat, last: string)
    requires SortedById(rows) && start <= |rows| && forall i :: 0 <= i < |rows| ==> rows[i].vulnId != ""
    requires last == LastMatch(rows[..start], "")
    ensures Scan(rows, last) == Scan(rows[start..], last) <==> |Scan(rows[..start], "")| <= 1
  {
    var seen, rest := rows[..start], rows[start..];
    var found := Scan(seen, "");
    assert rows == seen + rest;
    ScanSplits(seen, rest, last);
    ScanFrom(seen, "");
    EmptyIsAbsent(seen);
    if |found| <= 1 {
      forall x | x in MatchingIds(seen) ensures x == last { assert x in Elements(found); }
      NothingNew(seen, last);
    } else {
      var x := found[0];
      assert x in Elements(found) && last in Elements(found) && Lt(x, last);
      RepeatsFirst(rows, seen, rest, last, x);
    }
  }

  /** Two ids were returned and then a page without any: the token's scan returns both again. */
  lemma {:induction false} RestartRepeats(x: Row, y: Row, z: Row, rows: seq<Row>)
    requires rows == [x, y, z] && x.affects && y.affects && z.affects
    requires x.vulnId != "" && Lt(x.vulnId, y.vulnId) && Lt(y.vulnId, z.vulnId)
    ensures Scan(rows[..2], "") == [x.vulnId, y.vulnId]
    ensures Scan(rows, y.vulnId) == [x.vulnId, y.vulnId, z.vulnId] && Scan(rows[2..], y.vulnId) == [z.vulnId]
  {
    LtIrreflexive(x.vulnId);
    LtIrreflexive(y.vulnId);
    assert rows[..2] == [x, y] && [x, y][1..] == [y] && [y][1..] == [];
    assert rows[2..] == [z] && [z][1..] == [] && rows[1..] == [y, z] && [y, z][1..] == [z];
    assert Scan([z], y.vulnId) == [z.vulnId] + Scan([], z.vulnId);
    assert Scan([y], x.vulnId) == [y.vulnId] + Scan([], y.vulnId);
  }

  lemma {:induction false} EmptyIsAbsent(rows: seq<Row>)
    requires forall i :: 0 <= i < |rows| ==> rows[i].vulnId != ""
    ensures "" !in MatchingIds(rows)
  {
  }

  lemma {:induction false} RepeatsFirst(rows: seq<Row>, seen: seq<Row>, rest: seq<Row>, last: string, x: string)
    requires SortedById(rows) && rows == seen + rest
    requires x in MatchingIds(seen) && last in MatchingIds(seen) && Lt(x, last)
    ensures x in Scan(rows, last) && x !in Scan(rest, last)
  {
    LtIrreflexive(x);
    OtherIdsAppear(rows, last, x);
    var r :| r in seen && r.affects && r.vulnId == last;
    var i :| 0 <= i < |seen| && seen[i] == r;
    forall j | 0 <= j < |rest| ensures Le(last, rest[j].vulnId) { assert rows[i] == r && rows[|seen| + j] == rest[j]; }
    forall j, k | 0 <= j < k < |rest| ensures Le(rest[j].vulnId, rest[k].vulnId) {
      assert rows[|seen| + j] == rest[j] && rows[|seen| + k] == rest[k];
    }
    ScanFrom(rest, last);
    if x in Scan(rest, last) {
      var k :| 0 <= k < |Scan(rest, last)| && Scan(rest, last)[k] == x;
      Trichotomy(x, last);
    }
  }

  // ----- whatever restarts happen

  /** Every matching id of the rows has been returned, and so has the last id, if there is one. */
  ghost predicate Collected(rows: seq<Row>, last: string, all: seq<string>) {
    (forall x :: x in MatchingIds(rows) && x != "" ==> x in all) && (last == "" || last in all)
  }

  lemma {:induction false} MatchingOfBoth(a: seq<Row>, b: seq<Row>, x: string)
    ensures x in MatchingIds(a + b) <==> x in MatchingIds(a) || x in MatchingIds(b)
  {
    assert forall r :: r in a + b <==> r in a || r in b;
  }

  lemma {:induction false} PageCollects(rows: seq<Row>, more: seq<Row>, last: string, all: seq<string>)
    requires Collected(rows, last, all)
    ensures Collected(rows + more, LastMatch(more, last), all + Scan(more, last))
  {
    forall x | x in MatchingIds(rows + more) && x != "" ensures x in all + Scan(more, last) {
      MatchingOfBoth(rows, more, x);
      if x in MatchingIds(more) && x != last { OtherIdsAppear(more, last, x); }
    }
  }

  lemma {:induction false} ScannedMatch(rows: seq<Row>, last: string, x: string)
    requires x in Scan(rows, last)
    ensures x in MatchingIds(rows)
  {
    var row, rest := rows[0], rows[1..];
    assert rows == [row] + rest;
    MatchingSplits(row, rest);
    if !(row.affects && row.vulnId != last && x == row.vulnId) {
      ScannedMatch(rest, if row.affects && row.vulnId != last then row.vulnId else last, x);
    }
  }

  lemma {:induction false} PartMatches(rows: seq<Row>, pos: nat, stop: nat, last: string)
    requires pos <= stop <= |rows|
    ensures forall x :: x in Scan(rows[pos..stop], last) ==> x in MatchingIds(rows)
  {
    forall x | x in Scan(rows[pos..stop], last) ensures x in MatchingIds(rows) {
      ScannedMatch(rows[pos..stop], last, x);
      assert forall r :: r in rows[pos..stop] ==> r in rows;
    }
  }

  /** A caller who follows the tokens for any number of pages, cut off as they may be, receives only
      matching ids, and every one of them by the time the tokens end. */
  method FollowPages(query: Query, limits: nat -> nat, turns: nat -> nat -> Turn, toInt: IntParser, pages: nat)
    returns (all: seq<string>, ended: bool)
    requires ValidQuery(query) && ReadsNumbers(toInt)
    ensures Elements(all) <= MatchingIds(query.rows)
    ensures ended ==> MatchingIds(query.rows) - {""} <= Elements(all)
  {
    all, ended := [], false;
    var token := "";
    ghost var pos: nat, last := 0, "";
    for page := 0 to pages
      invariant !ended && pos <= |query.rows| && Parse(token, toInt) == Some(CursorAt(query, pos, last))
      invariant Collected(query.rows[..pos], last, all) && forall x :: x in all ==> x in MatchingIds(query.rows)
    {
      var reply;
      ghost var stop;
      reply, stop := DoQuery(query, token, limits(page), turns(page), toInt);
      ghost var left :| IsPage(query, pos, last, stop, reply.value.bugs, left)
        && reply.value.nextPageToken == Encode(left);
      assert query.rows[..stop] == query.rows[..pos] + query.rows[pos..stop];
      PageCollects(query.rows[..pos], query.rows[pos..stop], last, all);
      PartMatches(query.rows, pos, stop, last);
      all := all + reply.value.bugs;
      if reply.value.nextPageToken == None {
        assert query.rows[..stop] == query.rows;
        return all, true;
      }
      token := reply.value.nextPageToken.value;
      if stop == pos {
        EmptyPageRestarts(query, pos, last, reply.value.bugs, left, toInt);
        pos := 0;
      } else {
        PageLeadsOn(query, pos, last, stop, reply.value.bugs, left, toInt);
        pos, last := stop, LastMatch(query.rows[pos..stop], last);
      }
    }
  }
}
