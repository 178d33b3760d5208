/**
 Reading messages page by page from the DM relay: the two ordered queries, the
 opaque cursor `timestamp|id`, and the handlers that ask for one row more than the
 limit to learn whether another page exists.

 Time is the millisecond count a cursor carries. `toISOString` and `new Date` are a
 `Dates` value that is only known to be faithful on the range of dates.
 */
module KeysetPagination {
  import opened Outcomes
  import opened Base64

  datatype Message = Message(
    id: string,
    conversationId: string,
    sender: string,
    recipient: string,
    ciphertext: string,
    messageIndex: nat,
    timestamp: int,
    createdAt: int)

  /** The composite key of the order: newest first, ties by descending id. */
  datatype Position = Position(createdAt: int, id: string)

  datatype Selection = ByConversation(conversationId: string) | ByRecipient(recipient: string)

  type Limit = n: nat | 1 <= n <= 100 witness 50

  function PositionOf(m: Message): Position {
    Position(m.createdAt, m.id)
  }

  // ----- The order -----------------------------------------------------------

  predicate IdBefore(a: string, b: string) {
    b != [] && (a == [] || a[0] < b[0] || (a[0] == b[0] && IdBefore(a[1..], b[1..])))
  }

  /** `a` comes before `b` in the descending order, that is `(b) < (a)` as SQL rows. */
  predicate Precedes(a: Position, b: Position) {
    a.createdAt > b.createdAt || (a.createdAt == b.createdAt && IdBefore(b.id, a.id))
  }

  lemma {:induction false} IdsAreOrdered(a: string, b: string)
    ensures IdBefore(a, b) || a == b || IdBefore(b, a)
    ensures !(IdBefore(a, b) && IdBefore(b, a)) && !IdBefore(a, a)
    decreases |a|
  {
    if a != [] {
      IdsAreOrdered(a[1..], if b == [] then [] else b[1..]);
      if b != [] && a[0] == b[0] && a[1..] == b[1..] {
        assert a == [a[0]] + a[1..] && b == [b[0]] + b[1..];
      }
    }
  }

  lemma {:induction false} IdsAreTransitive(a: string, b: string, c: string)
    requires IdBefore(a, b) && IdBefore(b, c)
    ensures IdBefore(a, c)
    decreases |a|
  {
    if a != [] && a[0] == b[0] == c[0] {
      IdsAreTransitive(a[1..], b[1..], c[1..]);
    }
  }

  lemma PrecedesIsAnOrder(a: Position, b: Position)
    ensures Precedes(a, b) || a == b || Precedes(b, a)
    ensures !(Precedes(a, b) && Precedes(b, a)) && !Precedes(a, a)
  {
    IdsAreOrdered(a.id, b.id);
    IdsAreOrdered(b.id, a.id);
  }

  lemma PrecedesIsTransitive(a: Position, b: Position, c: Position)
    requires Precedes(a, b) && Precedes(b, c)
    ensures Precedes(a, c)
  {
    if a.createdAt == b.createdAt == c.createdAt {
      IdsAreTransitive(c.id, b.id, a.id);
    }
  }

  /** One id before another, character by character: at the first difference, or a proper prefix. */
  ghost predicate SmallerAt(a: string, b: string, k: nat) {
    && k <= |a| && k < |b|
    && (forall j :: 0 <= j < k ==> a[j] == b[j])
    && (k == |a| || a[k] < b[k])
  }

  lemma {:induction false} IdBeforeExactly(a: string, b: string)
    ensures IdBefore(a, b) <==> exists k: nat :: SmallerAt(a, b, k)
    decreases |a|
  {
    if a == [] {
      assert b != [] ==> SmallerAt(a, b, 0);
    } else if b != [] {
      IdBeforeExactly(a[1..], b[1..]);
      if a[0] == b[0] && IdBefore(a[1..], b[1..]) {
        var k: nat :| SmallerAt(a[1..], b[1..], k);
        assert forall j :: 0 < j < k + 1 ==> a[j] == a[1..][j - 1] && b[j] == b[1..][j - 1];
        assert SmallerAt(a, b, k + 1);
      }
      if a[0] < b[0] {
        assert SmallerAt(a, b, 0);
      }
      if exists k: nat :: SmallerAt(a, b, k) {
        var k: nat :| SmallerAt(a, b, k);
        if k > 0 {
          assert forall j :: 0 <= j < k - 1 ==> a[1..][j] == a[j + 1] && b[1..][j] == b[j + 1];
          assert SmallerAt(a[1..], b[1..], k - 1);
        }
      }
    }
  }

  // ----- The queries ---------------------------------------------------------

  predicate Selects(selection: Selection, m: Message) {
    match selection
    case ByConversation(conversationId) => m.conversationId == conversationId
    case ByRecipient(recipient) => m.recipient == recipient
  }

  function Matching(rows: seq<Message>, selection: Selection): seq<Message> {
    if rows == [] then []
    else if Selects(selection, rows[0]) then [rows[0]] + Matching(rows[1..], selection)
    else Matching(rows[1..], selection)
  }

  /** The rows after a cursor: `(created_at, id) < (cursor)`. */
  function Under(rows: seq<Message>, cursor: Position): seq<Message> {
    if rows == [] then []
    else if Precedes(cursor, PositionOf(rows[0])) then [rows[0]] + Under(rows[1..], cursor)
    else Under(rows[1..], cursor)
  }

  function Placed(m: Message, rows: seq<Message>): seq<Message> {
    if rows == [] then [m]
    else if Precedes(PositionOf(m), PositionOf(rows[0])) then [m] + rows
    else [rows[0]] + Placed(m, rows[1..])
  }

  /** ORDER BY created_at DESC, id DESC. */
  function Ordered(rows: seq<Message>): seq<Message> {
    if rows == [] then [] else Placed(rows[0], Ordered(rows[1..]))
  }

  function Candidates(table: seq<Message>, selection: Selection, cursor: Option<Position>): seq<Message> {
    if cursor.None? then Matching(table, selection) else Under(Matching(table, selection), cursor.value)
  }

  function FirstOf(rows: seq<Message>, limit: nat): seq<Message> {
    if |rows| <= limit then rows else rows[..limit]
  }

  /** `getMessages` and `getMessagesByRecipient`. */
  function GetMessages(table: seq<Message>, selection: Selection, limit: nat, cursor: Option<Position>)
    : (rows: seq<Message>)
  {
    FirstOf(Ordered(Candidates(table, selection, cursor)), limit)
  }

  // ----- Sorting is sound ----------------------------------------------------

  predicate Descending(rows: seq<Message>) {
    forall i, j :: 0 <= i < j < |rows| ==> Precedes(PositionOf(rows[i]), PositionOf(rows[j]))
  }

  /** The primary key. */
  predicate DistinctIds(rows: seq<Message>) {
    forall i, j :: 0 <= i < j < |rows| ==> rows[i].id != rows[j].id
  }

  predicate HasId(rows: seq<Message>, id: string) {
    exists i :: 0 <= i < |rows| && rows[i].id == id
  }

  lemma {:induction false} PlacedKeeps(m: Message, rows: seq<Message>)
    ensures multiset(Placed(m, rows)) == multiset{m} + multiset(rows)
    ensures |Placed(m, rows)| == |rows| + 1
  {
    if rows != [] && !Precedes(PositionOf(m), PositionOf(rows[0])) {
      PlacedKeeps(m, rows[1..]);
      assert rows == [rows[0]] + rows[1..];
    }
  }

  lemma {:induction false} OrderedKeeps(rows: seq<Message>)
    ensures multiset(Ordered(rows)) == multiset(rows) && |Ordered(rows)| == |rows|
  {
    hide Placed;
    if rows != [] {
      OrderedKeeps(rows[1..]);
      PlacedKeeps(rows[0], Ordered(rows[1..]));
      assert rows == [rows[0]] + rows[1..];
    }
  }

  lemma InMultiset(rows: seq<Message>, other: seq<Message>, m: Message)
    requires multiset(rows) == multiset(other)
    ensures m in rows <==> m in other
  {
    assert m in rows <==> m in multiset(rows);
    assert m in other <==> m in multiset(other);
  }

  lemma DescendingFrom(first: Message, rest: seq<Message>)
    requires Descending(rest)
    requires rest == [] || Precedes(PositionOf(first), PositionOf(rest[0]))
    ensures Descending([first] + rest)
  {
    var all := [first] + rest;
    forall i, j | 0 <= i < j < |all|
      ensures Precedes(PositionOf(all[i]), PositionOf(all[j]))
    {
      if i == 0 && j > 1 {
        PrecedesIsTransitive(PositionOf(first), PositionOf(rest[0]), PositionOf(rest[j - 1]));
      }
    }
  }

  lemma {:induction false} PlacedDescends(m: Message, rows: seq<Message>)
    requires Descending(rows) && !HasId(rows, m.id)
    ensures Descending(Placed(m, rows))
    ensures rows != [] && !Precedes(PositionOf(m), PositionOf(rows[0])) ==> Placed(m, rows)[0] == rows[0]
  {
    if rows == [] {
    } else if Precedes(PositionOf(m), PositionOf(rows[0])) {
      DescendingFrom(m, rows);
    } else {
      PrecedesIsAnOrder(PositionOf(m), PositionOf(rows[0]));
      PlacedDescends(m, rows[1..]);
      var rest := Placed(m, rows[1..]);
      assert rest[0] == m || rest[0] == rows[1];
      DescendingFrom(rows[0], rest);
    }
  }

  lemma {:induction false} OrderedDescends(rows: seq<Message>)
    requires DistinctIds(rows)
    ensures Descending(Ordered(rows))
  {
    if rows != [] {
      OrderedDescends(rows[1..]);
      OrderedKeeps(rows[1..]);
      var rest := Ordered(rows[1..]);
      forall i | 0 <= i < |rest|
        ensures rest[i].id != rows[0].id
      {
        InMultiset(rest, rows[1..], rest[i]);
        assert rest[i] in rest;
      }
      PlacedDescends(rows[0], rest);
    }
  }

  // ----- A cursor cuts the sorted list ---------------------------------------

  lemma {:induction false} UnderAll(rows: seq<Message>, cursor: Position)
    requires forall i :: 0 <= i < |rows| ==> Precedes(cursor, PositionOf(rows[i]))
    ensures Under(rows, cursor) == rows
  {
    if rows != [] {
      UnderAll(rows[1..], cursor);
    }
  }

  lemma {:induction false} UnderPlaced(m: Message, rows: seq<Message>, cursor: Position)
    requires Descending(rows)
    ensures Under(Placed(m, rows), cursor) ==
            if Precedes(cursor, PositionOf(m)) then Placed(m, Under(rows, cursor)) else Under(rows, cursor)
  {
    if rows == [] {
    } else if Precedes(PositionOf(m), PositionOf(rows[0])) {
      assert ([m] + rows)[1..] == rows;
      if Precedes(cursor, PositionOf(m)) {
        forall i | 0 <= i < |rows|
          ensures Precedes(cursor, PositionOf(rows[i]))
        {
          if i > 0 {
            PrecedesIsTransitive(PositionOf(m), PositionOf(rows[0]), PositionOf(rows[i]));
          }
          PrecedesIsTransitive(cursor, PositionOf(m), PositionOf(rows[i]));
        }
        UnderAll(rows, cursor);
      }
    } else {
      UnderPlaced(m, rows[1..], cursor);
      var placed := Placed(m, rows);
      assert placed[1..] == Placed(m, rows[1..]);
      var rest := Under(rows[1..], cursor);
      if Precedes(cursor, PositionOf(rows[0])) {
        assert ([rows[0]] + rest)[1..] == rest;
      }
    }
  }

  /** Filtering by the cursor commutes with sorting. */
  lemma {:induction false} UnderOrdered(rows: seq<Message>, cursor: Position)
    requires DistinctIds(rows)
    ensures Ordered(Under(rows, cursor)) == Under(Ordered(rows), cursor)
  {
    if rows != [] {
      UnderOrdered(rows[1..], cursor);
      OrderedDescends(rows[1..]);
      UnderPlaced(rows[0], Ordered(rows[1..]), cursor);
      var rest := Under(rows[1..], cursor);
      assert ([rows[0]] + rest)[1..] == rest;
    }
  }

  /** What lies under the `n`-th row of a sorted list is the list after it. */
  lemma {:induction false} UnderTheNth(rows: seq<Message>, n: nat)
    requires Descending(rows) && n < |rows|
    ensures Under(rows, PositionOf(rows[n])) == rows[n + 1..]
  {
    PrecedesIsAnOrder(PositionOf(rows[n]), PositionOf(rows[0]));
    if n == 0 {
      UnderAll(rows[1..], PositionOf(rows[0]));
    } else {
      UnderTheNth(rows[1..], n - 1);
      assert rows[1..][n - 1] == rows[n];
      assert rows[1..][n..] == rows[n + 1..];
    }
  }

  lemma {:induction false} MatchingMembers(rows: seq<Message>, selection: Selection, m: Message)
    ensures m in Matching(rows, selection) <==> m in rows && Selects(selection, m)
  {
    if rows != [] {
      MatchingMembers(rows[1..], selection, m);
      assert rows == [rows[0]] + rows[1..];
    }
  }

  lemma {:induction false} UnderMembers(rows: seq<Message>, cursor: Position, m: Message)
    ensures m in Under(rows, cursor) <==> m in rows && Precedes(cursor, PositionOf(m))
  {
    if rows != [] {
      UnderMembers(rows[1..], cursor, m);
      assert rows == [rows[0]] + rows[1..];
    }
  }

  lemma {:induction false} MatchingKeepsIdsDistinct(rows: seq<Message>, selection: Selection)
    requires DistinctIds(rows)
    ensures DistinctIds(Matching(rows, selection))
  {
    if rows != [] {
      MatchingKeepsIdsDistinct(rows[1..], selection);
      var rest := Matching(rows[1..], selection);
      forall i | 0 <= i < |rest|
        ensures rest[i].id != rows[0].id
      {
        MatchingMembers(rows[1..], selection, rest[i]);
        assert rest[i] in rest;
      }
    }
  }

  lemma {:induction false} UnderKeepsIdsDistinct(rows: seq<Message>, cursor: Position)
    requires DistinctIds(rows)
    ensures DistinctIds(Under(rows, cursor))
  {
    if rows != [] {
      UnderKeepsIdsDistinct(rows[1..], cursor);
      var rest := Under(rows[1..], cursor);
      forall i | 0 <= i < |rest|
        ensures rest[i].id != rows[0].id
      {
        UnderMembers(rows[1..], cursor, rest[i]);
        assert rest[i] in rest;
      }
    }
  }

  /** The rows a query may return: selected, and after the cursor if there is one. */
  predicate Eligible(table: seq<Message>, selection: Selection, cursor: Option<Position>, m: Message) {
    && m in table
    && Selects(selection, m)
    && (cursor.Some? ==> Precedes(cursor.value, PositionOf(m)))
  }

  lemma CandidatesAreEligible(table: seq<Message>, selection: Selection, cursor: Option<Position>)
    requires DistinctIds(table)
    ensures DistinctIds(Candidates(table, selection, cursor))
    ensures forall m :: m in Candidates(table, selection, cursor) <==> Eligible(table, selection, cursor, m)
  {
    MatchingKeepsIdsDistinct(table, selection);
    if cursor.Some? {
      UnderKeepsIdsDistinct(Matching(table, selection), cursor.value);
    }
    forall m
      ensures m in Candidates(table, selection, cursor) <==> Eligible(table, selection, cursor, m)
    {
      MatchingMembers(table, selection, m);
      if cursor.Some? {
        UnderMembers(Matching(table, selection), cursor.value, m);
      }
    }
  }

  /**
   The queries return eligible rows only, in strictly descending order; and an eligible row
   that is left out comes after all of the `limit` rows returned.
   */
  lemma GetMessagesReturnsTheNewest(table: seq<Message>, selection: Selection, limit: nat, cursor: Option<Position>)
    requires DistinctIds(table)
    ensures var rows := GetMessages(table, selection, limit, cursor);
            && Descending(rows)
            && |rows| <= limit
            && (forall i :: 0 <= i < |rows| ==> Eligible(table, selection, cursor, rows[i]))
            && (forall m :: Eligible(table, selection, cursor, m) && m !in rows ==>
                  && |rows| == limit
                  && forall i :: 0 <= i < |rows| ==> Precedes(PositionOf(rows[i]), PositionOf(m)))
  {
    var candidates := Candidates(table, selection, cursor);
    var ordered := Ordered(candidates);
    var rows := GetMessages(table, selection, limit, cursor);
    CandidatesAreEligible(table, selection, cursor);
    OrderedDescends(candidates);
    OrderedKeeps(candidates);
    forall i | 0 <= i < |rows|
      ensures Eligible(table, selection, cursor, rows[i])
    {
      InMultiset(ordered, candidates, rows[i]);
      assert rows[i] == ordered[i];
    }
    forall m | Eligible(table, selection, cursor, m) && m !in rows
      ensures |rows| == limit
      ensures forall i :: 0 <= i < |rows| ==> Precedes(PositionOf(rows[i]), PositionOf(m))
    {
      InMultiset(ordered, candidates, m);
      var n :| 0 <= n < |ordered| && ordered[n] == m;
      assert forall i :: 0 <= i < |rows| ==> rows[i] == ordered[i];
    }
  }

  /** The rows a request asks for, column by column. */
  ghost predicate IsAskedFor(table: seq<Message>, selection: Selection, cursor: Option<Position>, m: Message) {
    && m in table
    && (selection.ByConversation? ==> m.conversationId == selection.conversationId)
    && (selection.ByRecipient? ==> m.recipient == selection.recipient)
    && (cursor.Some? ==> IsOlder(m, cursor.value.createdAt, cursor.value.id))
  }

  /** Created earlier, or at the same time with a smaller id. */
  ghost predicate IsOlder(m: Message, createdAt: int, id: string) {
    m.createdAt < createdAt || (m.createdAt == createdAt && exists k: nat :: SmallerAt(m.id, id, k))
  }

  /**
   What a query returns, in columns: only rows asked for, each older than the one before, at most `limit`;
   and a row asked for that is missing is older than all of `limit` rows returned.
   */
  lemma GetMessagesExactly(table: seq<Message>, selection: Selection, limit: nat, cursor: Option<Position>)
    requires DistinctIds(table)
    ensures var rows := GetMessages(table, selection, limit, cursor);
            && |rows| <= limit
            && (forall i :: 0 <= i < |rows| ==> IsAskedFor(table, selection, cursor, rows[i]))
            && (forall i, j :: 0 <= i < j < |rows| ==> IsOlder(rows[j], rows[i].createdAt, rows[i].id))
            && (forall m :: IsAskedFor(table, selection, cursor, m) && m !in rows ==>
                  |rows| == limit && forall i :: 0 <= i < |rows| ==> IsOlder(m, rows[i].createdAt, rows[i].id))
  {
    var rows := GetMessages(table, selection, limit, cursor);
    GetMessagesReturnsTheNewest(table, selection, limit, cursor);
    forall m: Message, createdAt, id
      ensures Precedes(Position(createdAt, id), PositionOf(m)) <==> IsOlder(m, createdAt, id)
    {
      IdBeforeExactly(m.id, id);
    }
    forall m
      ensures Eligible(table, selection, cursor, m) <==> IsAskedFor(table, selection, cursor, m)
    {
    }
    hide Precedes, IsOlder, Eligible, IsAskedFor, SmallerAt, GetMessages;
    forall i, j | 0 <= i < j < |rows|
      ensures IsOlder(rows[j], rows[i].createdAt, rows[i].id)
    {
      assert Precedes(Position(rows[i].createdAt, rows[i].id), PositionOf(rows[j]));
    }
    forall m, i | IsAskedFor(table, selection, cursor, m) && m !in rows && 0 <= i < |rows|
      ensures IsOlder(m, rows[i].createdAt, rows[i].id)
    {
      assert Precedes(Position(rows[i].createdAt, rows[i].id), PositionOf(m));
    }
  }

  // ----- The cursor ----------------------------------------------------------

  /** The largest time value of a date, in milliseconds from the epoch. */
  const MAX_TIME: int := 8_640_000_000_000_000

  /** `toISOString`, and `new Date` on text, which has no value on what is not a date. */
  datatype Dates = Dates(format: int -> string, parse: string -> Option<int>)

  predicate IsTime(t: int) {
    -MAX_TIME <= t <= MAX_TIME
  }

  ghost predicate Faithful(dates: Dates) {
    forall t :: IsTime(t) ==>
      dates.parse(dates.format(t)) == Some(t) && Ascii(dates.format(t)) && '|' !in dates.format(t)
  }

  datatype CursorError = InvalidCursorFormat

  predicate NoBarBefore(text: string, i: nat)
    requires i <= |text|
  {
    '|' !in text[..i]
  }

  /** The index of the first `|`, or the length. */
  function BarAt(text: string): (i: nat)
    ensures i <= |text| && NoBarBefore(text, i) && (i < |text| ==> text[i] == '|')
  {
    if text == [] || text[0] == '|' then 0 else 1 + BarAt(text[1..])
  }

  /** The text before the first `|` is the date, the text up to the next one the id. */
  function ParsePosition(dates: Dates, decoded: string): Result<Position, CursorError> {
    var bar := BarAt(decoded);
    var rest := if bar < |decoded| then decoded[bar + 1..] else "";
    var id := rest[..BarAt(rest)];
    var date := dates.parse(decoded[..bar]);
    if date.None? || id == "" then Err(InvalidCursorFormat) else Ok(Position(date.value, id))
  }

  function ParseCursor(dates: Dates, cursor: string): Result<Position, CursorError> {
    ParsePosition(dates, Text(BufferFrom(cursor)))
  }

  /** Message ids are UUIDs, so the text of a cursor is ASCII. */
  function CreateCursor(dates: Dates, position: Position): string
    requires Ascii(dates.format(position.createdAt)) && Ascii(position.id)
  {
    Encode(Bytes(dates.format(position.createdAt) + "|" + position.id))
  }

  lemma {:induction false} BarFound(before: string, rest: string)
    requires '|' !in before
    ensures BarAt(before + "|" + rest) == |before|
  {
    if before != [] {
      BarFound(before[1..], rest);
      assert (before + "|" + rest)[1..] == before[1..] + "|" + rest;
    }
  }

  lemma NoBar(text: string)
    ensures BarAt(text) == |text| <==> '|' !in text
  {
    assert text[..|text|] == text;
  }

  lemma PositionRoundTrip(dates: Dates, position: Position)
    requires Faithful(dates) && IsTime(position.createdAt)
    ensures ParsePosition(dates, dates.format(position.createdAt) + "|" + position.id) == Ok(position) <==>
            position.id != "" && '|' !in position.id
  {
    var time := dates.format(position.createdAt);
    var text := time + "|" + position.id;
    BarFound(time, position.id);
    assert text[..|time|] == time && text[|time| + 1..] == position.id;
    NoBar(position.id);
    assert position.id[..|position.id|] == position.id;
  }

  lemma CursorDecodes(text: string)
    requires Ascii(text)
    ensures Text(BufferFrom(Encode(Bytes(text)))) == text
  {
    BufferFromUndoesEncode(Bytes(text));
    TextOfBytes(text);
  }

  /** `parseCursor` undoes `createCursor` exactly for the non-empty ids without `|`. */
  lemma CursorRoundTrip(dates: Dates, position: Position)
    requires Faithful(dates) && IsTime(position.createdAt) && Ascii(position.id)
    ensures Ascii(dates.format(position.createdAt))
    ensures ParseCursor(dates, CreateCursor(dates, position)) == Ok(position) <==>
            position.id != "" && '|' !in position.id
  {
    CursorDecodes(dates.format(position.createdAt) + "|" + position.id);
    PositionRoundTrip(dates, position);
  }

  /** A cursor is the base64 text of the date, a bar and the id. */
  lemma CursorText(dates: Dates, position: Position)
    requires Ascii(dates.format(position.createdAt)) && Ascii(position.id)
    ensures Text(BufferFrom(CreateCursor(dates, position))) == dates.format(position.createdAt) + "|" + position.id
  {
    var text := dates.format(position.createdAt) + "|" + position.id;
    BufferFromUndoesEncode(Bytes(text));
    TextOfBytes(text);
  }

  /** What decoded text is read as: the date before the first bar and the id up to the next one or the end. */
  lemma ParsePositionExactly(dates: Dates, date: string, id: string, rest: string)
    requires '|' !in date && '|' !in id
    ensures ParsePosition(dates, date) == Err(InvalidCursorFormat)
    ensures forall tail <- [id, id + "|" + rest] ::
              ParsePosition(dates, date + "|" + tail) ==
              if dates.parse(date).None? || id == "" then Err(InvalidCursorFormat)
              else Ok(Position(dates.parse(date).value, id))
  {
    NoBar(date);
    forall tail <- [id, id + "|" + rest]
      ensures ParsePosition(dates, date + "|" + tail) ==
              if dates.parse(date).None? || id == "" then Err(InvalidCursorFormat)
              else Ok(Position(dates.parse(date).value, id))
    {
      var text := date + "|" + tail;
      BarFound(date, tail);
      assert text[..|date|] == date && text[|date| + 1..] == tail;
      NoBar(id);
      BarFound(id, rest);
      assert id[..|id|] == id && (id + "|" + rest)[..|id|] == id;
    }
  }

  // ----- The handlers --------------------------------------------------------

  datatype Page = Page(messages: seq<Message>, hasMore: bool, nextCursor: Option<string>)

  /** A row the table can hold: a date in range, and a UUID for an id. */
  predicate Storable(m: Message) {
    IsTime(m.createdAt) && Ascii(m.id) && m.id != "" && '|' !in m.id
  }

  ghost predicate ValidTable(table: seq<Message>) {
    DistinctIds(table) && forall i :: 0 <= i < |table| ==> Storable(table[i])
  }

  ghost function PageFrom(dates: Dates, rows: seq<Message>, limit: Limit): Page
    requires Faithful(dates)
    requires forall i :: 0 <= i < |rows| ==> Storable(rows[i])
  {
    var hasMore := |rows| > limit;
    var shown := FirstOf(rows, limit);
    assert hasMore ==> shown[|shown| - 1] == rows[limit - 1] && Storable(rows[limit - 1]);
    Page(shown, hasMore, if hasMore then Some(CreateCursor(dates, PositionOf(shown[|shown| - 1]))) else None)
  }

  lemma RowsAreStorable(table: seq<Message>, selection: Selection, limit: nat, cursor: Option<Position>)
    requires ValidTable(table)
    ensures forall i :: 0 <= i < |GetMessages(table, selection, limit, cursor)| ==>
              Storable(GetMessages(table, selection, limit, cursor)[i])
  {
    GetMessagesReturnsTheNewest(table, selection, limit, cursor);
  }

  /** An absent or empty `cursor` asks for the first page. */
  function CursorOf(dates: Dates, cursor: Option<string>): Result<Option<Position>, CursorError> {
    if cursor.None? || cursor.value == "" then Ok(None)
    else
      match ParseCursor(dates, cursor.value)
      case Ok(position) => Ok(Some(position))
      case Err(error) => Err(error)
  }

  /** GET /messages/:address and GET /messages/conversation/:conversationId. */
  ghost function GetPage(dates: Dates, table: seq<Message>, selection: Selection, limit: Limit, cursor: Option<string>)
    : Result<Page, CursorError>
    requires Faithful(dates) && ValidTable(table)
  {
    match CursorOf(dates, cursor)
    case Err(error) => Err(error)
    case Ok(position) =>
      RowsAreStorable(table, selection, limit + 1, position);
      Ok(PageFrom(dates, GetMessages(table, selection, limit + 1, position), limit))
  }

  /**
   A request with a cursor that cannot be read is refused. Any other shows the first `limit` of the rows
   its query finds for one more than that, and says there is more exactly when that one was there.
   */
  lemma GetPageExactly(dates: Dates, table: seq<Message>, selection: Selection, limit: Limit, cursor: Option<string>,
                       start: Option<Position>)
    requires Faithful(dates) && ValidTable(table)
    ensures CursorOf(dates, cursor).Err? ==> GetPage(dates, table, selection, limit, cursor).Err?
    ensures CursorOf(dates, cursor) == Ok(start) ==>
              var rows := GetMessages(table, selection, limit + 1, start);
              var page := GetPage(dates, table, selection, limit, cursor);
              && page.Ok?
              && page.value.hasMore == (|rows| == limit + 1)
              && page.value.nextCursor.Some? == page.value.hasMore
              && |page.value.messages| == Least(|rows|, limit)
              && forall i :: 0 <= i < |page.value.messages| ==> page.value.messages[i] == rows[i]
  {
    if CursorOf(dates, cursor) == Ok(start) {
      RowsAreStorable(table, selection, limit + 1, start);
    }
  }

  // ----- Walks ---------------------------------------------------------------

  /** The rows the first `n` pages showed. */
  ghost function Shown(pages: seq<Page>, n: nat): seq<Message>
    requires n <= |pages|
  {
    if n == 0 then [] else Shown(pages, n - 1) + pages[n - 1].messages
  }

  /** Rows are only ever added to the table between two requests. */
  ghost predicate Growing(tables: seq<seq<Message>>) {
    forall j, k :: 0 <= j <= k < |tables| ==> tables[j] <= tables[k]
  }

  ghost function CursorBefore(pages: seq<Page>, k: nat): Option<string>
    requires k <= |pages|
  {
    if k == 0 then None else pages[k - 1].nextCursor
  }

  /** Request `k` sent the cursor of the page before it and was answered with `pages[k]`. */
  ghost predicate Requested(dates: Dates, table: seq<Message>, selection: Selection, limit: Limit, pages: seq<Page>,
                            k: nat)
    requires Faithful(dates) && ValidTable(table) && k < |pages|
  {
    && (k > 0 ==> pages[k - 1].nextCursor.Some?)
    && GetPage(dates, table, selection, limit, CursorBefore(pages, k)) == Ok(pages[k])
  }

  /**
   A client starts without a cursor and follows `next_cursor`. The table of request `k` is `tables[k]`:
   between two requests rows may be added and deleted.
   */
  ghost predicate IsWalk(dates: Dates, tables: seq<seq<Message>>, selection: Selection, limit: Limit,
                         pages: seq<Page>) {
    && Faithful(dates)
    && |pages| == |tables| > 0
    && (forall k :: 0 <= k < |tables| ==> ValidTable(tables[k]))
    && (forall k :: 0 <= k < |pages| ==> Requested(dates, tables[k], selection, limit, pages, k))
  }

  /** The position request `k` asks to continue from. */
  ghost function StartOf(pages: seq<Page>, k: nat): Option<Position>
    requires k <= |pages|
  {
    if k == 0 || pages[k - 1].messages == [] then None
    else Some(PositionOf(pages[k - 1].messages[|pages[k - 1].messages| - 1]))
  }

  lemma CursorIsNotEmpty(text: string)
    requires Ascii(text) && text != ""
    ensures Encode(Bytes(text)) != ""
  {
    assert |Sextets(Bytes(text))| > 0;
  }

  lemma CursorContinues(dates: Dates, position: Position)
    requires Faithful(dates) && IsTime(position.createdAt)
    requires Ascii(position.id) && position.id != "" && '|' !in position.id
    ensures Ascii(dates.format(position.createdAt))
    ensures CursorOf(dates, Some(CreateCursor(dates, position))) == Ok(Some(position))
  {
    CursorRoundTrip(dates, position);
    CursorIsNotEmpty(dates.format(position.createdAt) + "|" + position.id);
  }

  /** The cursor of a page, if it has one, asks to continue after its last row. */
  lemma NextCursorContinues(dates: Dates, rows: seq<Message>, limit: Limit)
    requires Faithful(dates)
    requires forall i :: 0 <= i < |rows| ==> Storable(rows[i])
    requires |rows| > limit
    ensures PageFrom(dates, rows, limit).nextCursor.Some?
    ensures CursorOf(dates, PageFrom(dates, rows, limit).nextCursor) == Ok(Some(PositionOf(rows[limit - 1])))
  {
    hide ParseCursor, CreateCursor;
    assert Storable(rows[limit - 1]);
    assert FirstOf(rows, limit)[limit - 1] == rows[limit - 1];
    CursorContinues(dates, PositionOf(rows[limit - 1]));
  }

  /** One request: what it shows, and where the next one continues. */
  lemma PageContinues(dates: Dates, table: seq<Message>, selection: Selection, limit: Limit, cursor: Option<string>,
                      start: Option<Position>, page: Page)
    requires Faithful(dates) && ValidTable(table)
    requires CursorOf(dates, cursor) == Ok(start)
    requires GetPage(dates, table, selection, limit, cursor) == Ok(page)
    ensures page.messages == FirstOf(GetMessages(table, selection, limit + 1, start), limit)
    ensures page.nextCursor.Some? <==> |GetMessages(table, selection, limit + 1, start)| > limit
    ensures page.nextCursor.Some? ==>
              && page.messages != []
              && CursorOf(dates, page.nextCursor) == Ok(Some(PositionOf(page.messages[|page.messages| - 1])))
  {
    hide GetMessages, CursorOf, ParseCursor, CreateCursor;
    var rows := GetMessages(table, selection, limit + 1, start);
    RowsAreStorable(table, selection, limit + 1, start);
    if |rows| > limit {
      NextCursorContinues(dates, rows, limit);
    }
  }

  lemma NextRequestContinues(dates: Dates, table: seq<Message>, selection: Selection, limit: Limit, pages: seq<Page>,
                             k: nat)
    requires Faithful(dates) && ValidTable(table) && 0 < k < |pages| && pages[k - 1].nextCursor.Some?
    requires Requested(dates, table, selection, limit, pages, k - 1)
    requires CursorOf(dates, CursorBefore(pages, k - 1)) == Ok(StartOf(pages, k - 1))
    ensures pages[k - 1].messages != [] && StartOf(pages, k).Some?
    ensures CursorOf(dates, CursorBefore(pages, k)) == Ok(StartOf(pages, k))
  {
    PageContinues(dates, table, selection, limit, CursorBefore(pages, k - 1), StartOf(pages, k - 1), pages[k - 1]);
  }

  /** Each page of a walk continues after the last row of the page before. */
  lemma {:induction false} WalkContinues(dates: Dates, tables: seq<seq<Message>>, selection: Selection, limit: Limit,
                                         pages: seq<Page>, k: nat)
    requires IsWalk(dates, tables, selection, limit, pages) && k < |pages|
    ensures k > 0 ==> pages[k - 1].messages != [] && StartOf(pages, k).Some?
    ensures CursorOf(dates, CursorBefore(pages, k)) == Ok(StartOf(pages, k))
    decreases k
  {
    hide GetPage, GetMessages, ParseCursor, Faithful, ValidTable;
    if k > 0 {
      WalkContinues(dates, tables, selection, limit, pages, k - 1);
      assert Requested(dates, tables[k - 1], selection, limit, pages, k - 1);
      assert Requested(dates, tables[k], selection, limit, pages, k);
      NextRequestContinues(dates, tables[k - 1], selection, limit, pages, k);
    }
  }

  // ----- Theorems ------------------------------------------------------------

  predicate IsAmong(m: Message, rows: seq<Message>) {
    m in rows
  }

  /** A request that started at `start`, as seen without the encoding of the cursors. */
  ghost predicate ReadsOn(table: seq<Message>, selection: Selection, limit: Limit, start: Option<Position>,
                          page: Page) {
    && DistinctIds(table)
    && page.messages == FirstOf(GetMessages(table, selection, limit + 1, start), limit)
    && (page.nextCursor.Some? <==> |GetMessages(table, selection, limit + 1, start)| > limit)
  }

  ghost predicate IsReading(tables: seq<seq<Message>>, selection: Selection, limit: Limit, pages: seq<Page>) {
    && |pages| == |tables| > 0
    && (forall k {:trigger StartOf(pages, k)} :: 0 <= k < |pages| ==>
          ReadsOn(tables[k], selection, limit, StartOf(pages, k), pages[k]))
    && (forall k {:trigger StartOf(pages, k)} :: 0 < k < |pages| ==>
          StartOf(pages, k).Some? && pages[k - 1].messages != [] && pages[k - 1].nextCursor.Some?)
  }

  lemma WalkReads(dates: Dates, tables: seq<seq<Message>>, selection: Selection, limit: Limit, pages: seq<Page>)
    requires IsWalk(dates, tables, selection, limit, pages)
    ensures IsReading(tables, selection, limit, pages)
  {
    forall k | 0 <= k < |pages|
      ensures ReadsOn(tables[k], selection, limit, StartOf(pages, k), pages[k])
      ensures k > 0 ==> StartOf(pages, k).Some? && pages[k - 1].messages != [] && pages[k - 1].nextCursor.Some?
    {
      WalkContinues(dates, tables, selection, limit, pages, k);
      assert Requested(dates, tables[k], selection, limit, pages, k);
      PageContinues(dates, tables[k], selection, limit, CursorBefore(pages, k), StartOf(pages, k), pages[k]);
    }
  }

  ghost predicate AllEligible(table: seq<Message>, selection: Selection, start: Option<Position>, shown: seq<Message>) {
    forall i :: 0 <= i < |shown| ==> Eligible(table, selection, start, shown[i])
  }

  /** An eligible row that is not shown comes after the last one shown, and the page says there is more. */
  ghost predicate RestFollows(table: seq<Message>, selection: Selection, start: Option<Position>, shown: seq<Message>,
                              more: bool)
  {
    forall m :: Eligible(table, selection, start, m) && !IsAmong(m, shown) ==>
      more && shown != [] && Precedes(PositionOf(shown[|shown| - 1]), PositionOf(m))
  }

  /** Cutting the extra row off. */
  lemma CutAtLimit(rows: seq<Message>, limit: Limit, shown: seq<Message>)
    requires Descending(rows) && |rows| <= limit + 1
    requires shown == FirstOf(rows, limit)
    ensures Descending(shown)
    ensures forall i :: 0 <= i < |shown| ==> shown[i] == rows[i]
    ensures forall m :: m in rows && !IsAmong(m, shown) ==>
              |rows| > limit && Precedes(PositionOf(shown[|shown| - 1]), PositionOf(m))
  {
    forall m | m in rows && !IsAmong(m, shown)
      ensures |rows| > limit && Precedes(PositionOf(shown[|shown| - 1]), PositionOf(m))
    {
      var n :| 0 <= n < |rows| && rows[n] == m;
      assert forall i :: 0 <= i < |shown| ==> IsAmong(shown[i], shown);
    }
  }

  lemma PageOfQuery(table: seq<Message>, selection: Selection, limit: Limit, start: Option<Position>,
                    rows: seq<Message>, shown: seq<Message>)
    requires DistinctIds(table)
    requires rows == GetMessages(table, selection, limit + 1, start) && shown == FirstOf(rows, limit)
    ensures Descending(shown)
    ensures AllEligible(table, selection, start, shown)
    ensures RestFollows(table, selection, start, shown, |rows| > limit)
  {
    GetMessagesReturnsTheNewest(table, selection, limit + 1, start);
    CutAtLimit(rows, limit, shown);
    forall m | Eligible(table, selection, start, m) && !IsAmong(m, shown)
      ensures |rows| > limit && shown != [] && Precedes(PositionOf(shown[|shown| - 1]), PositionOf(m))
    {
      if m !in rows {
        assert Precedes(PositionOf(rows[|shown| - 1]), PositionOf(m));
      }
    }
  }

  /** One page: its rows, and what it leaves for later. */
  lemma PageOfReading(tables: seq<seq<Message>>, selection: Selection, limit: Limit, pages: seq<Page>, k: nat)
    requires IsReading(tables, selection, limit, pages) && k < |pages|
    ensures Descending(pages[k].messages)
    ensures AllEligible(tables[k], selection, StartOf(pages, k), pages[k].messages)
    ensures RestFollows(tables[k], selection, StartOf(pages, k), pages[k].messages, pages[k].nextCursor.Some?)
  {
    var rows := GetMessages(tables[k], selection, limit + 1, StartOf(pages, k));
    PageOfQuery(tables[k], selection, limit, StartOf(pages, k), rows, pages[k].messages);
  }

  /** `start` is where `above` ended. */
  ghost predicate EndsAt(above: seq<Message>, start: Option<Position>) {
    start == if above == [] then None else Some(PositionOf(above[|above| - 1]))
  }

  lemma DescendingTogether(above: seq<Message>, below: seq<Message>, start: Option<Position>)
    requires Descending(above) && Descending(below) && EndsAt(above, start)
    requires start.Some? ==> forall i :: 0 <= i < |below| ==> Precedes(start.value, PositionOf(below[i]))
    ensures Descending(above + below)
    ensures below != [] ==> EndsAt(above + below, Some(PositionOf(below[|below| - 1])))
  {
    var all := above + below;
    forall i, j | 0 <= i < j < |all|
      ensures Precedes(PositionOf(all[i]), PositionOf(all[j]))
    {
      if i < |above| - 1 && j >= |above| {
        PrecedesIsTransitive(PositionOf(above[i]), start.value, PositionOf(below[j - |above|]));
      }
    }
  }

  /** Page `k` descends from where it started, and only the last page may be empty. */
  ghost predicate ContinuesBelow(pages: seq<Page>, k: nat)
    requires k < |pages|
  {
    && Descending(pages[k].messages)
    && (StartOf(pages, k).Some? ==> forall i :: 0 <= i < |pages[k].messages| ==>
          Precedes(StartOf(pages, k).value, PositionOf(pages[k].messages[i])))
    && (k < |pages| - 1 ==> pages[k].messages != [])
  }

  lemma {:induction false} ShownDescends(pages: seq<Page>, n: nat)
    requires n <= |pages|
    requires forall k :: 0 <= k < |pages| ==> ContinuesBelow(pages, k)
    ensures Descending(Shown(pages, n))
    ensures n < |pages| ==> EndsAt(Shown(pages, n), StartOf(pages, n))
  {
    if n > 0 {
      ShownDescends(pages, n - 1);
      assert ContinuesBelow(pages, n - 1);
      DescendingTogether(Shown(pages, n - 1), pages[n - 1].messages, StartOf(pages, n - 1));
    }
  }

  lemma ReadingContinuesBelow(tables: seq<seq<Message>>, selection: Selection, limit: Limit, pages: seq<Page>, k: nat)
    requires IsReading(tables, selection, limit, pages) && k < |pages|
    ensures ContinuesBelow(pages, k)
  {
    PageOfReading(tables, selection, limit, pages, k);
    if k < |pages| - 1 {
      assert StartOf(pages, k + 1).Some?;
    }
  }

  /** Whatever is added and deleted meanwhile, a walk shows strictly descending rows: none twice, none out of order. */
  lemma WalkDescends(dates: Dates, tables: seq<seq<Message>>, selection: Selection, limit: Limit, pages: seq<Page>)
    requires IsWalk(dates, tables, selection, limit, pages)
    ensures Descending(Shown(pages, |pages|))
  {
    WalkReads(dates, tables, selection, limit, pages);
    forall k | 0 <= k < |pages|
      ensures ContinuesBelow(pages, k)
    {
      ReadingContinuesBelow(tables, selection, limit, pages, k);
    }
    ShownDescends(pages, |pages|);
  }

  ghost predicate IsAhead(start: Option<Position>, m: Message) {
    start.Some? ==> Precedes(start.value, PositionOf(m))
  }

  /** Page `k` shows `m` if it is ahead, or leaves it ahead of the next page. */
  ghost predicate ShowsOrLeavesAhead(pages: seq<Page>, k: nat, m: Message)
    requires k < |pages|
  {
    && (IsAhead(StartOf(pages, k), m) && !IsAmong(m, pages[k].messages) ==>
          pages[k].nextCursor.Some? && IsAhead(StartOf(pages, k + 1), m))
  }

  lemma {:induction false} ShownOrStillToCome(pages: seq<Page>, n: nat, m: Message)
    requires n <= |pages|
    requires forall k :: 0 <= k < |pages| ==> ShowsOrLeavesAhead(pages, k, m)
    ensures || IsAmong(m, Shown(pages, n))
            || (IsAhead(StartOf(pages, n), m) && (n > 0 ==> pages[n - 1].nextCursor.Some?))
  {
    if n > 0 {
      ShownOrStillToCome(pages, n - 1, m);
      assert ShowsOrLeavesAhead(pages, n - 1, m);
    }
  }

  lemma ReadingShowsOrLeavesAhead(tables: seq<seq<Message>>, selection: Selection, limit: Limit, pages: seq<Page>,
                                  k: nat, m: Message)
    requires IsReading(tables, selection, limit, pages) && k < |pages|
    requires m in tables[k] && Selects(selection, m)
    ensures ShowsOrLeavesAhead(pages, k, m)
  {
    PageOfReading(tables, selection, limit, pages, k);
    if IsAhead(StartOf(pages, k), m) {
      assert Eligible(tables[k], selection, StartOf(pages, k), m);
    }
  }

  /** Whatever else is added and deleted, a walk to the end shows every selected row that is there throughout. */
  lemma WalkMissesNothing(dates: Dates, tables: seq<seq<Message>>, selection: Selection, limit: Limit,
                          pages: seq<Page>, m: Message)
    requires IsWalk(dates, tables, selection, limit, pages)
    requires pages[|pages| - 1].nextCursor.None?
    requires Selects(selection, m) && forall k :: 0 <= k < |tables| ==> IsAmong(m, tables[k])
    ensures m in Shown(pages, |pages|)
  {
    WalkReads(dates, tables, selection, limit, pages);
    forall k | 0 <= k < |pages|
      ensures ShowsOrLeavesAhead(pages, k, m)
    {
      assert IsAmong(m, tables[k]);
      ReadingShowsOrLeavesAhead(tables, selection, limit, pages, k, m);
    }
    ShownOrStillToCome(pages, |pages|, m);
  }

  ghost predicate AddedAbove(first: seq<Message>, table: seq<Message>) {
    forall i, j :: |first| <= i < |table| && 0 <= j < |first| ==> Precedes(PositionOf(table[i]), PositionOf(first[j]))
  }

  /** Every row inserted during the walk comes before all rows that were there at its start. */
  ghost predicate NewerOnly(tables: seq<seq<Message>>)
    requires |tables| > 0
  {
    forall k :: 0 <= k < |tables| ==> AddedAbove(tables[0], tables[k])
  }

  lemma {:induction false} MatchingOfBoth(a: seq<Message>, b: seq<Message>, selection: Selection)
    ensures Matching(a + b, selection) == Matching(a, selection) + Matching(b, selection)
  {
    hide Selects;
    if a == [] {
      assert a + b == b;
    } else {
      MatchingOfBoth(a[1..], b, selection);
      assert (a + b)[0] == a[0] && (a + b)[1..] == a[1..] + b;
      var rest := Matching(a[1..], selection);
      assert [a[0]] + rest + Matching(b, selection) == [a[0]] + (rest + Matching(b, selection));
    }
  }

  lemma {:induction false} UnderOfBoth(a: seq<Message>, b: seq<Message>, cursor: Position)
    ensures Under(a + b, cursor) == Under(a, cursor) + Under(b, cursor)
  {
    hide Precedes;
    if a == [] {
      assert a + b == b;
    } else {
      UnderOfBoth(a[1..], b, cursor);
      assert (a + b)[0] == a[0] && (a + b)[1..] == a[1..] + b;
      var rest := Under(a[1..], cursor);
      assert [a[0]] + rest + Under(b, cursor) == [a[0]] + (rest + Under(b, cursor));
    }
  }

  lemma {:induction false} NoneUnder(rows: seq<Message>, selection: Selection, cursor: Position)
    requires forall i :: 0 <= i < |rows| ==> Precedes(PositionOf(rows[i]), cursor)
    ensures Under(Matching(rows, selection), cursor) == []
  {
    if rows != [] {
      NoneUnder(rows[1..], selection, cursor);
      PrecedesIsAnOrder(PositionOf(rows[0]), cursor);
    }
  }

  /** Rows inserted above a cursor do not change what lies under it. */
  lemma NewRowsStayAbove(first: seq<Message>, table: seq<Message>, selection: Selection, cursor: Position)
    requires first <= table
    requires forall i :: |first| <= i < |table| ==> Precedes(PositionOf(table[i]), cursor)
    ensures Candidates(table, selection, Some(cursor)) == Candidates(first, selection, Some(cursor))
  {
    var added := table[|first|..];
    assert table == first + added;
    MatchingOfBoth(first, added, selection);
    UnderOfBoth(Matching(first, selection), Matching(added, selection), cursor);
    forall i | 0 <= i < |added|
      ensures Precedes(PositionOf(added[i]), cursor)
    {
      assert added[i] == table[|first| + i];
    }
    NoneUnder(added, selection, cursor);
  }

  /** All selected rows of the table at the start of the walk, in the order of the query. */
  function AllOrdered(table: seq<Message>, selection: Selection): seq<Message> {
    Ordered(Matching(table, selection))
  }

  /** Continuing after the `n`-th of those rows is reading on in that list. */
  lemma ContinuedList(first: seq<Message>, table: seq<Message>, selection: Selection, limit: nat, n: nat)
    requires DistinctIds(first) && first <= table
    requires n < |AllOrdered(first, selection)|
    requires AddedAbove(first, table)
    ensures GetMessages(table, selection, limit, Some(PositionOf(AllOrdered(first, selection)[n]))) ==
            FirstOf(AllOrdered(first, selection)[n + 1..], limit)
  {
    var all := AllOrdered(first, selection);
    MatchingKeepsIdsDistinct(first, selection);
    OrderedDescends(Matching(first, selection));
    OrderedKeeps(Matching(first, selection));
    InMultiset(all, Matching(first, selection), all[n]);
    MatchingMembers(first, selection, all[n]);
    NewRowsStayAbove(first, table, selection, PositionOf(all[n]));
    UnderOrdered(Matching(first, selection), PositionOf(all[n]));
    UnderTheNth(all, n);
  }

  /** How many rows the first `k` full pages hold. */
  ghost function Offset(k: nat, limit: nat): (offset: nat) {
    if k == 0 then 0 else Offset(k - 1, limit) + limit
  }

  lemma {:induction false} OffsetIsProduct(k: nat, limit: nat)
    ensures k * limit == Offset(k, limit)
  {
    if k > 0 {
      OffsetIsProduct(k - 1, limit);
      assert k * limit == (k - 1) * limit + limit;
    }
  }

  lemma SliceOf(all: seq<Message>, offset: nat, limit: nat)
    requires offset <= |all|
    ensures FirstOf(FirstOf(all[offset..], limit + 1), limit) == all[offset..Least(offset + limit, |all|)]
    ensures |FirstOf(all[offset..], limit + 1)| > limit <==> offset + limit < |all|
    ensures all[..offset] + all[offset..Least(offset + limit, |all|)] == all[..Least(offset + limit, |all|)]
    ensures offset > 0 ==> all[offset - 1 + 1..] == all[offset..]
  {
  }

  /** Page `k` is the slice of `all` from row `Offset(k, limit)`. */
  ghost predicate ShowsSlice(page: Page, all: seq<Message>, offset: nat, limit: nat) {
    && offset <= |all|
    && page.messages == all[offset..Least(offset + limit, |all|)]
    && (page.nextCursor.Some? <==> offset + limit < |all|)
  }

  /** If page `k` starts where the `k`-th slice does, it shows that slice. */
  ghost predicate SliceFollows(pages: seq<Page>, k: nat, all: seq<Message>, limit: Limit)
    requires k < |pages|
  {
    var offset := Offset(k, limit);
    && (k == 0 || (0 < offset < |all| && StartOf(pages, k) == Some(PositionOf(all[offset - 1]))) ==>
          ShowsSlice(pages[k], all, offset, limit))
    && (k < |pages| - 1 ==> pages[k].nextCursor.Some?)
  }

  /** With newer insertions only, page `k` is exactly the `k`-th slice of the list the walk started from. */
  lemma {:induction false} PageIsSlice(pages: seq<Page>, k: nat, all: seq<Message>, limit: Limit)
    requires k < |pages|
    requires forall j :: 0 <= j < |pages| ==> SliceFollows(pages, j, all, limit)
    ensures ShowsSlice(pages[k], all, Offset(k, limit), limit)
    decreases k
  {
    assert SliceFollows(pages, k, all, limit);
    if k > 0 {
      PageIsSlice(pages, k - 1, all, limit);
      assert SliceFollows(pages, k - 1, all, limit);
      NextSliceStarts(pages, k, all, limit);
    }
  }

  lemma ReadingFollowsSlices(tables: seq<seq<Message>>, selection: Selection, limit: Limit, pages: seq<Page>, k: nat,
                             all: seq<Message>)
    requires IsReading(tables, selection, limit, pages) && Growing(tables) && NewerOnly(tables) && k < |pages|
    requires all == AllOrdered(tables[0], selection)
    ensures SliceFollows(pages, k, all, limit)
  {
    var start, offset := StartOf(pages, k), Offset(k, limit);
    assert ReadsOn(tables[k], selection, limit, start, pages[k]);
    if k < |pages| - 1 {
      assert StartOf(pages, k + 1).Some?;
    }
    assert tables[0] <= tables[k];
    if k == 0 || (0 < offset < |all| && start == Some(PositionOf(all[offset - 1]))) {
      PageShowsSlice(tables[0], tables[k], selection, limit, start, pages[k], offset, all);
    }
  }

  lemma PageShowsSlice(first: seq<Message>, table: seq<Message>, selection: Selection, limit: Limit,
                       start: Option<Position>, page: Page, offset: nat, all: seq<Message>)
    requires ReadsOn(table, selection, limit, start, page) && first <= table && AddedAbove(first, table)
    requires all == AllOrdered(first, selection)
    requires || (offset == 0 && start.None? && table == first)
             || (0 < offset < |all| && start == Some(PositionOf(all[offset - 1])))
    ensures ShowsSlice(page, all, offset, limit)
  {
    var rows := GetMessages(table, selection, limit + 1, start);
    if offset == 0 {
      assert all[0..] == all;
    } else {
      SliceAfter(first, table, selection, limit, start, offset, rows, all);
    }
    assert rows == FirstOf(all[offset..], limit + 1);
    SliceOf(all, offset, limit);
  }

  lemma SliceAfter(first: seq<Message>, table: seq<Message>, selection: Selection, limit: Limit,
                   start: Option<Position>, offset: nat, rows: seq<Message>, all: seq<Message>)
    requires DistinctIds(table) && first <= table && AddedAbove(first, table)
    requires all == AllOrdered(first, selection) && 0 < offset < |all|
    requires start == Some(PositionOf(all[offset - 1]))
    requires rows == GetMessages(table, selection, limit + 1, start)
    ensures rows == FirstOf(all[offset..], limit + 1)
  {
    assert DistinctIds(first);
    ContinuedList(first, table, selection, limit + 1, offset - 1);
  }

  lemma NextSliceStarts(pages: seq<Page>, k: nat, all: seq<Message>, limit: Limit)
    requires 0 < k < |pages| && pages[k - 1].nextCursor.Some?
    requires ShowsSlice(pages[k - 1], all, Offset(k - 1, limit), limit)
    ensures 0 < Offset(k, limit) < |all|
    ensures StartOf(pages, k) == Some(PositionOf(all[Offset(k, limit) - 1]))
  {
    var before := pages[k - 1].messages;
    assert |before| == limit && before[limit - 1] == all[Offset(k, limit) - 1];
  }

  lemma {:induction false} ShownIsPrefix(pages: seq<Page>, n: nat, all: seq<Message>, limit: Limit)
    requires n <= |pages|
    requires forall j :: 0 <= j < |pages| ==> SliceFollows(pages, j, all, limit)
    ensures Shown(pages, n) == all[..Least(Offset(n, limit), |all|)]
  {
    hide SliceFollows, StartOf, FirstOf;
    if n > 0 {
      ShownIsPrefix(pages, n - 1, all, limit);
      PageIsSlice(pages, n - 1, all, limit);
      SliceOf(all, Offset(n - 1, limit), limit);
    }
  }

  lemma AllOrderedIsTheSelection(table: seq<Message>, selection: Selection)
    requires DistinctIds(table)
    ensures multiset(AllOrdered(table, selection)) == multiset(Matching(table, selection))
    ensures Descending(AllOrdered(table, selection))
  {
    MatchingKeepsIdsDistinct(table, selection);
    OrderedDescends(Matching(table, selection));
    OrderedKeeps(Matching(table, selection));
  }

  lemma SlicesEnd(pages: seq<Page>, all: seq<Message>, limit: Limit)
    requires |pages| > 0
    requires forall j :: 0 <= j < |pages| ==> SliceFollows(pages, j, all, limit)
    ensures Offset(|pages| - 1, limit) <= |all|
    ensures pages[|pages| - 1].nextCursor.None? ==> Shown(pages, |pages|) == all
  {
    var n := |pages|;
    PageIsSlice(pages, n - 1, all, limit);
    ShownIsPrefix(pages, n, all, limit);
    assert Offset(n, limit) == Offset(n - 1, limit) + limit;
    assert all[..|all|] == all;
  }

  lemma ReadingVisitsOnce(tables: seq<seq<Message>>, selection: Selection, limit: Limit, pages: seq<Page>,
                          all: seq<Message>)
    requires IsReading(tables, selection, limit, pages) && Growing(tables) && NewerOnly(tables)
    requires all == AllOrdered(tables[0], selection)
    ensures Offset(|pages| - 1, limit) <= |all|
    ensures pages[|pages| - 1].nextCursor.None? ==> Shown(pages, |pages|) == all
  {
    forall k | 0 <= k < |pages|
      ensures SliceFollows(pages, k, all, limit)
    {
      ReadingFollowsSlices(tables, selection, limit, pages, k, all);
    }
    SlicesEnd(pages, all, limit);
  }

  /**
   With newer insertions only, following `next_cursor` to the end shows exactly the selected rows
   of the start, each once and in order, and it does end: no walk has more than
   `|rows| / limit + 1` pages.
   */
  lemma WalkVisitsEveryMessageOnce(dates: Dates, tables: seq<seq<Message>>, selection: Selection, limit: Limit,
                                   pages: seq<Page>)
    requires IsWalk(dates, tables, selection, limit, pages) && Growing(tables) && NewerOnly(tables)
    ensures (|pages| - 1) * limit <= |AllOrdered(tables[0], selection)|
    ensures pages[|pages| - 1].nextCursor.None? ==> Shown(pages, |pages|) == AllOrdered(tables[0], selection)
    ensures multiset(AllOrdered(tables[0], selection)) == multiset(Matching(tables[0], selection))
    ensures Descending(AllOrdered(tables[0], selection))
  {
    WalkReads(dates, tables, selection, limit, pages);
    AllOrderedIsTheSelection(tables[0], selection);
    ReadingVisitsOnce(tables, selection, limit, pages, AllOrdered(tables[0], selection));
    OffsetIsProduct(|pages| - 1, limit);
  }
}
