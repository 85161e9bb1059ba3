/** Page tokens: the state of a query cursor, written for the caller and read back. */
module Cursor {
  import opened Strings
  import opened Ecosystems
  import opened Base64

  /** Where a query stands; the database's own cursor is opaque bytes. */
  datatype State = Ended | Started | InProgress(cursor: bytes)

  datatype CursorValue = CursorValue(state: State, queryNumber: int, lastId: Option<string>)

  /** The bytes of an ASCII literal. */
  function Ascii(s: string): bytes
    requires forall i :: 0 <= i < |s| ==> s[i] as int < 128
  {
    seq(|s|, i requires 0 <= i < |s| => s[i] as int)
  }

  const FIRST_PAGE := Ascii("FIRST_PAGE_TOKEN")
  const LAST_ID := "last_id"

  // ----- writing

  /** str() of an integer. */
  function NumberText(n: int): string { if n < 0 then "-" + Decimal(-n) else Decimal(n) }

  function LastIdItem(key: string, id: string): string { key + "=" + id }

  function MetadataParts(lastId: Option<string>): seq<string> {
    match lastId
    case None => []
    case Some(id) => [Encode64(EncodeUtf8(LastIdItem(LAST_ID, id)))]
  }

  function CursorPart(state: State): string
    requires !state.Ended?
  {
    match state case Started => Encode64(FIRST_PAGE) case InProgress(cursor) => Encode64(cursor)
  }

  /** url_safe_encode. */
  function Encode(c: CursorValue): Option<string> {
    if c.state.Ended? then None
    else Some(Join([NumberText(c.queryNumber), CursorPart(c.state)] + MetadataParts(c.lastId), ':'))
  }

  // ----- reading

  type Metadata = map<string, string>

  /** The key and value of 'key=value', split at the first '='. */
  function Partition(s: string): (string, string) {
    var key := Before(s, c => c == '=');
    (key, if |key| < |s| then s[|key| + 1..] else "")
  }

  function ReadItem(part: string, read: Metadata): Option<Metadata> {
    match Decode64(part)
    case None => None
    case Some(b) => var item := Partition(DecodeUtf8(b)); Some(read[item.0 := item.1])
  }

  function ReadMetadata(parts: seq<string>, read: Metadata): Option<Metadata> {
    if parts == [] then Some(read)
    else match ReadItem(parts[0], read)
      case None => None
      case Some(more) => ReadMetadata(parts[1..], more)
  }

  function ReadState(part: string): Option<State> {
    if part == "" || part == Encode64(FIRST_PAGE) then Some(Started)
    else match Decode64(part) case None => None case Some(b) => Some(InProgress(b))
  }

  function Lookup(m: Metadata, key: string): Option<string> { if key in m then Some(m[key]) else None }

  function Finish(part: string, number: int, metadata: Metadata): Option<CursorValue> {
    if exists k :: k in metadata && k != LAST_ID then None
    else match ReadState(part)
      case None => None
      case Some(state) => Some(CursorValue(state, number, Lookup(metadata, LAST_ID)))
  }

  function ParseParts(values: seq<string>, toInt: IntParser): Option<CursorValue>
    requires |values| >= 2
  {
    match (toInt(values[0]), ReadMetadata(values[2..], map[]))
    case (Some(number), Some(metadata)) => Finish(values[1], number, metadata)
    case _ => None
  }

  /** from_page_token: None for its ValueError. */
  function Parse(token: string, toInt: IntParser): Option<CursorValue> {
    if token == "" then Some(CursorValue(Started, 1, None))
    else
      var values := Split(token, ':');
      if |values| >= 2 then ParseParts(values, toInt) else Finish(token, 1, map[])
  }

  // ----- the round trip

  /** int() reads back what str() writes. */
  ghost predicate ReadsNumbers(toInt: IntParser) { forall n: int :: toInt(NumberText(n)) == Some(n) }

  /** The tokens of a cursor stand for the first page if the cursor's bytes are empty or spell
      the name of the first page. */
  predicate ReadsAsStarted(state: State) {
    state.InProgress? && (state.cursor == [] || state.cursor == FIRST_PAGE)
  }

  lemma {:induction false} NumberIsFree(n: int)
    ensures Free(NumberText(n), ':')
  {
    var digits := Decimal(if n < 0 then -n else n);
    assert forall i :: 0 <= i < |digits| ==> IsDigit(digits[i]);
  }

  lemma {:induction false} EncodedIsFree(b: bytes)
    ensures Free(Encode64(b), ':')
  {
    var s := Encode64(b);
    forall i | 0 <= i < |s| ensures s[i] != ':' { assert UrlSafe(s[i]); }
  }

  lemma {:induction false} BeforeFree(key: string, rest: string)
    requires Free(key, '=')
    ensures Before(key + ("=" + rest), c => c == '=') == key
  {
    if key == "" {
      assert key + ("=" + rest) == "=" + rest;
    } else {
      assert (key + ("=" + rest))[1..] == key[1..] + ("=" + rest);
      BeforeFree(key[1..], rest);
      assert key == [key[0]] + key[1..];
    }
  }

  /** The value may hold any characters, '=' and ':' among them. */
  lemma {:induction false} PartitionItem(key: string, id: string)
    requires Free(key, '=')
    ensures Partition(LastIdItem(key, id)) == (key, id)
  {
    BeforeFree(key, id);
    assert key + "=" + id == key + ("=" + id);
    assert (key + "=" + id)[|key| + 1..] == id;
  }

  function MetadataOf(lastId: Option<string>): Metadata {
    match lastId case None => map[] case Some(id) => map[LAST_ID := id]
  }

  lemma {:induction false} MetadataReadsBack(lastId: Option<string>)
    ensures ReadMetadata(MetadataParts(lastId), map[]) ==
            Some(MetadataOf(lastId))
  {
    match lastId {
      case None =>
      case Some(id) =>
        var item := LastIdItem(LAST_ID, id);
        RoundTrip64(EncodeUtf8(item));
        RoundTripUtf8(item);
        KeyIsFree();
        PartitionItem(LAST_ID, id);
        var parts := MetadataParts(lastId);
        assert ReadItem(parts[0], map[]) == Some(map[LAST_ID := id]) && parts[1..] == [];
    }
  }

  lemma {:induction false} KeyIsFree()
    ensures Free(LAST_ID, '=')
  {
  }

  lemma {:induction false} StateReadsBack(state: State)
    requires !state.Ended?
    ensures ReadState(CursorPart(state)) == Some(if ReadsAsStarted(state) then Started else state)
  {
    RoundTrip64(FIRST_PAGE);
    if state.InProgress? { RoundTrip64(state.cursor); }
  }

  lemma {:induction false} PartsAreFree(c: CursorValue, metadata: seq<string>)
    requires !c.state.Ended? && metadata == MetadataParts(c.lastId)
    ensures Free(NumberText(c.queryNumber), ':') && Free(CursorPart(c.state), ':')
    ensures forall i :: 0 <= i < |metadata| ==> Free(metadata[i], ':')
  {
    NumberIsFree(c.queryNumber);
    EncodedIsFree(if c.state.Started? then FIRST_PAGE else c.state.cursor);
    if c.lastId.Some? { EncodedIsFree(EncodeUtf8(LastIdItem(LAST_ID, c.lastId.value))); }
  }

  lemma {:induction false} SplitToken(number: string, part: string, metadata: seq<string>)
    requires Free(number, ':') && Free(part, ':') && forall i :: 0 <= i < |metadata| ==> Free(metadata[i], ':')
    ensures var values := [number, part] + metadata;
            Join(values, ':') != "" && Split(Join(values, ':'), ':') == values && values[2..] == metadata
  {
    var values := [number, part] + metadata;
    forall i | 0 <= i < |values| ensures Free(values[i], ':') {
      if i >= 2 { assert values[i] == metadata[i - 2]; }
    }
    SplitJoin(values, ':');
    assert values[2..] == metadata;
  }

  /** A token restores the cursor it was made from, except that a cursor whose bytes are empty or
      spell the first page's name comes back as the first page. */
  lemma {:induction false} TokenReadsBack(c: CursorValue, toInt: IntParser)
    requires !c.state.Ended? && ReadsNumbers(toInt)
    ensures Encode(c).Some? && Encode(c).value != ""
    ensures Parse(Encode(c).value, toInt) == Some(if ReadsAsStarted(c.state) then c.(state := Started) else c)
  {
    var number, part, metadata := NumberText(c.queryNumber), CursorPart(c.state), MetadataParts(c.lastId);
    var values := [number, part] + metadata;
    PartsAreFree(c, metadata);
    SplitToken(number, part, metadata);
    assert Parse(Encode(c).value, toInt) == ParseParts(values, toInt);
    PartsReadBack(c, values, toInt);
  }

  lemma {:induction false} PartsReadBack(c: CursorValue, values: seq<string>, toInt: IntParser)
    requires !c.state.Ended? && ReadsNumbers(toInt) && |values| >= 2
    requires values[0] == NumberText(c.queryNumber) && values[1] == CursorPart(c.state)
    requires values[2..] == MetadataParts(c.lastId)
    ensures ParseParts(values, toInt) == Some(if ReadsAsStarted(c.state) then c.(state := Started) else c)
  {
    assert toInt(NumberText(c.queryNumber)) == Some(c.queryNumber);
    MetadataReadsBack(c.lastId);
    FinishReadsBack(c, values[1]);
  }

  lemma {:induction false} FinishReadsBack(c: CursorValue, part: string)
    requires !c.state.Ended? && part == CursorPart(c.state)
    ensures Finish(part, c.queryNumber, MetadataOf(c.lastId)) ==
            Some(if ReadsAsStarted(c.state) then c.(state := Started) else c)
  {
    StateReadsBack(c.state);
    assert Lookup(MetadataOf(c.lastId), LAST_ID) == c.lastId;
  }

  /** Exactly the cursors that are restored. */
  lemma {:induction false} TokenRoundTrip(c: CursorValue, toInt: IntParser)
    requires !c.state.Ended? && ReadsNumbers(toInt)
    ensures Parse(Encode(c).value, toInt) == Some(c) <==> !ReadsAsStarted(c.state)
  {
    TokenReadsBack(c, toInt);
  }

  /** Different cursors in progress have different tokens. */
  lemma {:induction false} TokensDiffer(c: CursorValue, d: CursorValue, toInt: IntParser)
    requires !c.state.Ended? && !d.state.Ended? && ReadsNumbers(toInt)
    requires !ReadsAsStarted(c.state) && !ReadsAsStarted(d.state) && Encode(c) == Encode(d)
    ensures c == d
  {
    TokenReadsBack(c, toInt);
    TokenReadsBack(d, toInt);
  }

  // ----- the class

  datatype Phase = ENDED | STARTED | IN_PROGRESS

  class QueryCursor {
    var ndbCursor: Option<bytes>
    var phase: Phase
    var lastId: Option<string>
    var queryNumber: int

    ghost predicate Valid()
      reads this
    {
      phase == IN_PROGRESS ==> ndbCursor.Some?
    }

    function Value(): CursorValue
      reads this
      requires Valid()
    {
      var state := match phase
        case ENDED => Ended
        case STARTED => Started
        case IN_PROGRESS => InProgress(ndbCursor.value);
      CursorValue(state, queryNumber, lastId)
    }

    constructor ()
      ensures Valid() && Value() == CursorValue(Ended, 1, None)
    {
      ndbCursor, phase, lastId, queryNumber := None, ENDED, None, 1;
    }

    /** The database cursor to resume at, if any. */
    function Position(): (p: Option<bytes>)
      reads this
      requires Valid()
      ensures p == match Value().state case InProgress(b) => Some(b) case _ => None
    {
      if phase == IN_PROGRESS then ndbCursor else None
    }

    /** update_from_iterator; `after` is None when the iterator has not returned an element. */
    method UpdateFromIterator(after: Option<bytes>)
      modifies `ndbCursor, `phase
      ensures Valid()
      ensures Value() == CursorValue(match after case Some(b) => InProgress(b) case None => Started, queryNumber,
              lastId)
    {
      match after {
        case Some(b) => ndbCursor, phase := Some(b), IN_PROGRESS;
        case None => ndbCursor, phase := None, STARTED;
      }
    }

    method UrlSafeEncode() returns (token: Option<string>)
      requires Valid()
      ensures token == Encode(Value())
    {
      var cursorPart;
      match phase {
        case STARTED => cursorPart := Encode64(FIRST_PAGE);
        case IN_PROGRESS => cursorPart := Encode64(ndbCursor.value);
        case ENDED => return None;
      }
      token := Some(Join([NumberText(queryNumber), cursorPart] + MetadataParts(lastId), ':'));
    }

    /** The last step of from_page_token: the state a token's cursor part stands for. */
    method Restore(part: string) returns (ok: bool)
      modifies `ndbCursor, `phase
      ensures ok <==> ReadState(part).Some?
      ensures ok ==> Valid() && Value() == CursorValue(ReadState(part).value, queryNumber, lastId)
    {
      if part == "" || part == Encode64(FIRST_PAGE) {
        ndbCursor, phase := None, STARTED;
        return true;
      }
      var cursor := Decode64(part);
      if cursor == None { return false; }
      ndbCursor, phase := cursor, IN_PROGRESS;
      return true;
    }

    static method ReadItems(items: seq<string>) returns (r: Option<Metadata>)
      ensures r == ReadMetadata(items, map[])
    {
      var metadata: Metadata := map[];
      for i := 0 to |items|
        invariant ReadMetadata(items, map[]) == ReadMetadata(items[i..], metadata)
      {
        var more := ReadItem(items[i], metadata);
        assert items[i..][0] == items[i] && items[i..][1..] == items[i + 1..];
        if more == None { return None; }
        metadata := more.value;
      }
      assert items[|items|..] == [];
      return Some(metadata);
    }

    static method FromParts(part: string, number: int, metadata: Metadata) returns (r: Option<QueryCursor>)
      ensures r.Some? <==> Finish(part, number, metadata).Some?
      ensures r.Some? ==> fresh(r.value) && r.value.Valid() && r.value.Value() == Finish(part, number, metadata).value
    {
      if exists k :: k in metadata && k != LAST_ID { return None; }
      var qc := new QueryCursor();
      qc.queryNumber, qc.lastId := number, Lookup(metadata, LAST_ID);
      var ok := qc.Restore(part);
      return if ok then Some(qc) else None;
    }

    static method FromPageToken(token: string, toInt: IntParser) returns (r: Option<QueryCursor>)
      ensures r.Some? <==> Parse(token, toInt).Some?
      ensures r.Some? ==> fresh(r.value) && r.value.Valid() && r.value.Value() == Parse(token, toInt).value
    {
      if token == "" {
        var qc := new QueryCursor();
        qc.phase := STARTED;
        return Some(qc);
      }
      var values := Split(token, ':');
      if |values| < 2 {
        r := FromParts(token, 1, map[]);
        return;
      }
      var number := toInt(values[0]);
      if number == None { return None; }
      var metadata := ReadItems(values[2..]);
      if metadata == None { return None; }
      r := FromParts(values[1], number.value, metadata.value);
    }
  }
}
