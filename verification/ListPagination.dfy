/**
 The cursor pagination of the SDK: opaque cursors around an offset, one page at a time,
 and the generator that walks the pages of a list.
 */
module ListPagination {
  import opened Outcomes
  import opened Base64
  import Json

  const CURSOR_VERSION := 1
  const DEFAULT_PAGE_SIZE := 100
  const DEFAULT_MAX_PAGES := 100

  datatype PageError = InvalidCursor | InvalidPageSize
  datatype Page<T> = Page(items: seq<T>, nextCursor: Option<string>)

  /** One list method of the SDK: the items of a window. */
  type Fetch<!T> = (nat, nat) -> seq<T>

  // ----- Cursors -------------------------------------------------------------

  const PREFIX := "{\"v\":1,\"offset\":"

  /** JSON.stringify of the payload of a cursor. */
  function Payload(offset: nat): (text: string)
    ensures Ascii(text)
  {
    PREFIX + Json.Decimal(offset) + "}"
  }

  function EncodeCursor(offset: nat): string {
    Encode(Bytes(Payload(offset)))
  }

  /** The checks on a parsed payload: an object of this version with a non-negative integer offset. */
  function OffsetIn(payload: Json.Value): Result<nat, PageError> {
    if !payload.Object? then Err(InvalidCursor)
    else
      var version := Json.Member(payload.members, "v");
      var offset := Json.Member(payload.members, "offset");
      if version != Some(Json.Number(CURSOR_VERSION as real)) || offset.None? || !offset.value.Number? then
        Err(InvalidCursor)
      else if offset.value.n != offset.value.n.Floor as real || offset.value.n < 0.0 then Err(InvalidCursor)
      else Ok(offset.value.n.Floor)
  }

  function DecodeCursor(cursor: string): (offset: Result<nat, PageError>)
    ensures offset.Err? ==> offset.error == InvalidCursor
  {
    var bytes := Atob(cursor);
    if bytes.None? then Err(InvalidCursor)
    else
      var payload := Json.Parse(Text(bytes.value));
      if payload.None? then Err(InvalidCursor) else OffsetIn(payload.value)
  }

  /** The last member of a name: none after it has the same. */
  ghost predicate IsLastMember(members: seq<(string, Json.Value)>, name: string, value: Json.Value) {
    exists i :: 0 <= i < |members| && members[i] == (name, value) &&
                forall j :: i < j < |members| ==> members[j].0 != name
  }

  lemma LastMemberOneMore(before: seq<(string, Json.Value)>, last: (string, Json.Value), name: string,
                          value: Json.Value)
    ensures IsLastMember(before + [last], name, value) <==>
            if last.0 == name then last.1 == value else IsLastMember(before, name, value)
  {
    var members, n := before + [last], |before|;
    assert members[n] == last && forall i :: 0 <= i < n ==> members[i] == before[i];
    if IsLastMember(members, name, value) {
      var i :| 0 <= i < |members| && members[i] == (name, value) &&
               forall j :: i < j < |members| ==> members[j].0 != name;
      assert i < n ==> before[i] == (name, value);
    }
    if last.0 != name && IsLastMember(before, name, value) {
      var i :| 0 <= i < n && before[i] == (name, value) && forall j :: i < j < n ==> before[j].0 != name;
      assert members[i] == (name, value);
    }
  }

  lemma {:induction false} MemberExactly(members: seq<(string, Json.Value)>, name: string, value: Json.Value)
    ensures Json.Member(members, name) == Some(value) <==> IsLastMember(members, name, value)
    ensures Json.Member(members, name) == None <==> forall i :: 0 <= i < |members| ==> members[i].0 != name
  {
    if members != [] {
      var before, last := members[..|members| - 1], members[|members| - 1];
      MemberExactly(before, name, value);
      LastMemberOneMore(before, last, name, value);
      assert before + [last] == members;
      hide IsLastMember;
      assert forall i :: 0 <= i < |before| ==> before[i] == members[i];
    }
  }

  /** The payloads that give an offset: version 1, and an offset that is a natural number. */
  lemma OffsetInExactly(payload: Json.Value, offset: nat)
    ensures OffsetIn(payload) == Ok(offset) <==>
            && payload.Object?
            && IsLastMember(payload.members, "v", Json.Number(1.0))
            && IsLastMember(payload.members, "offset", Json.Number(offset as real))
  {
    if payload.Object? {
      MemberExactly(payload.members, "v", Json.Number(1.0));
      MemberExactly(payload.members, "offset", Json.Number(offset as real));
    }
  }

  /** A cursor gives an offset exactly when it is base64 of JSON text of such a payload. */
  lemma DecodeCursorExactly(cursor: string, offset: nat)
    ensures DecodeCursor(cursor) == Ok(offset) <==>
            && Atob(cursor).Some?
            && Json.Parse(Text(Atob(cursor).value)).Some?
            && OffsetIn(Json.Parse(Text(Atob(cursor).value)).value) == Ok(offset)
    ensures DecodeCursor(cursor).Ok? || DecodeCursor(cursor) == Err(InvalidCursor)
  {
  }

  lemma VersionParses(s: string)
    requires |s| > 16 && s[5] == '1' && s[6] == ','
    ensures Json.ParseValue(s, 5) == Some((Json.Number(1.0), 6))
  {
    assert Json.DigitsEnd(s, 6) == 6;
    assert s[5..6] == "1";
    assert Json.Extended(0, "1") == 1;
  }

  lemma PrefixIs(s: string)
    requires |s| > 16 && s[..16] == PREFIX
    ensures s[0] == '{' && s[1] == '"' && s[2..3] == "v" && s[3] == '"' && s[4] == ':' && s[5] == '1' && s[6] == ','
    ensures s[7] == '"' && s[8..14] == "offset" && s[14] == '"' && s[15] == ':'
  {
    assert forall i :: 0 <= i < 16 ==> s[i] == PREFIX[i];
  }

  /** The parser gets to the offset with the version read. */
  lemma PrefixParses(s: string)
    requires |s| > 16 && s[..16] == PREFIX
    ensures Json.ParseValue(s, 0) == Json.ParseMembers(s, 7, [("v", Json.Number(1.0))])
  {
    PrefixIs(s);
    Json.ObjectStarts(s, 0);
    Json.NameParses(s, 1, "v");
    VersionParses(s);
    Json.MemberParses(s, 1, [], "v", 5, Json.Number(1.0), 6);
    assert [] + [("v", Json.Number(1.0))] == [("v", Json.Number(1.0))];
    Json.NextMember(s, 6, [("v", Json.Number(1.0))]);
  }

  lemma NumberParses(s: string, i: nat, n: nat)
    requires i + |Json.Decimal(n)| < |s|
    requires s[i..i + |Json.Decimal(n)|] == Json.Decimal(n) && s[i + |Json.Decimal(n)|] == '}'
    ensures Json.ParseValue(s, i) == Some((Json.Number(n as real), i + |Json.Decimal(n)|))
  {
    assert s[i] == Json.Decimal(n)[0];
    Json.NumberStarts(s, i);
    Json.DecimalParses(s, i, n);
  }

  lemma OffsetParses(s: string, offset: nat, end: nat)
    requires |s| > 16 && s[..16] == PREFIX
    requires end == 16 + |Json.Decimal(offset)| < |s| && s[16..end] == Json.Decimal(offset) && s[end] == '}'
    ensures Json.ParseMembers(s, 7, [("v", Json.Number(1.0))]) ==
            Some((Json.Object([("v", Json.Number(1.0)), ("offset", Json.Number(offset as real))]), end + 1))
  {
    PrefixIs(s);
    Json.NameParses(s, 7, "offset");
    NumberParses(s, 16, offset);
    var before, last := [("v", Json.Number(1.0))], ("offset", Json.Number(offset as real));
    Json.MemberParses(s, 7, before, last.0, 16, last.1, end);
    Json.ObjectEnds(s, end, before + [last]);
    assert before + [last] == [before[0], last];
  }

  /** The parser reads the payload of a cursor back. */
  lemma PayloadParses(offset: nat)
    ensures Json.Parse(Payload(offset)) ==
            Some(Json.Object([("v", Json.Number(1.0)), ("offset", Json.Number(offset as real))]))
  {
    var s := Payload(offset);
    var end := 16 + |Json.Decimal(offset)|;
    assert s[..16] == PREFIX;
    assert s[16..end] == Json.Decimal(offset) && s[end] == '}' && |s| == end + 1;
    PrefixParses(s);
    OffsetParses(s, offset, end);
  }

  /** Decoding undoes encoding for every offset. */
  lemma CursorRoundTrip(offset: nat)
    ensures DecodeCursor(EncodeCursor(offset)) == Ok(offset)
  {
    AtobUndoesEncode(Bytes(Payload(offset)));
    TextOfBytes(Payload(offset));
    PayloadParses(offset);
    var members := [("v", Json.Number(1.0)), ("offset", Json.Number(offset as real))];
    assert members[..1] == [("v", Json.Number(1.0))];
    assert Json.Member(members[..1], "v") == Some(Json.Number(1.0));
  }

  // ----- One page ------------------------------------------------------------

  /** An integer that is positive; absent means 100. */
  function PageSizeOf(pageSize: Option<real>): Result<nat, PageError> {
    if pageSize.None? then Ok(DEFAULT_PAGE_SIZE)
    else if pageSize.value != pageSize.value.Floor as real || pageSize.value <= 0.0 then Err(InvalidPageSize)
    else Ok(pageSize.value.Floor)
  }

  /** A page size is a positive integer, 100 if absent. */
  lemma PageSizeExactly(pageSize: Option<real>, size: nat)
    ensures PageSizeOf(pageSize) == Ok(size) <==>
            size > 0 && if pageSize.None? then size == 100 else pageSize.value == size as real
    ensures PageSizeOf(pageSize).Ok? || PageSizeOf(pageSize) == Err(InvalidPageSize)
  {
  }

  function OffsetOf(cursor: Option<string>): Result<nat, PageError> {
    if cursor.None? then Ok(0) else DecodeCursor(cursor.value)
  }

  /** The page is the window at the offset; when it is full, its cursor decodes to the offset after it. */
  ghost predicate IsPageAt<T>(fetch: Fetch<T>, offset: nat, size: nat, page: Page<T>) {
    && page.items == fetch(offset, size)
    && (page.nextCursor.Some? <==> |page.items| >= size)
    && (page.nextCursor.Some? ==> OffsetOf(page.nextCursor) == Ok(offset + |page.items|))
  }

  /** The page size is checked before the cursor, and both before anything is fetched. */
  method FetchPageWithCursor<T>(cursor: Option<string>, pageSize: Option<real>, fetch: Fetch<T>)
    returns (page: Result<Page<T>, PageError>)
    ensures PageSizeOf(pageSize).Err? ==> page == Err(InvalidPageSize)
    ensures PageSizeOf(pageSize).Ok? && OffsetOf(cursor).Err? ==> page == Err(InvalidCursor)
    ensures PageSizeOf(pageSize).Ok? && OffsetOf(cursor).Ok? ==>
              page.Ok? && IsPageAt(fetch, OffsetOf(cursor).value, PageSizeOf(pageSize).value, page.value)
  {
    hide DecodeCursor, EncodeCursor;
    var size := PageSizeOf(pageSize);
    if size.Err? {
      return Err(size.error);
    }
    var offset := OffsetOf(cursor);
    if offset.Err? {
      return Err(offset.error);
    }
    var items := fetch(offset.value, size.value);
    var nextCursor := None;
    if |items| >= size.value {
      nextCursor := Some(EncodeCursor(offset.value + |items|));
      CursorRoundTrip(offset.value + |items|);
    }
    return Ok(Page(items, nextCursor));
  }

  // ----- The walk ------------------------------------------------------------

  /** The items, and the number of fetches, of at most `left` pages from `offset`. */
  function Walked<T>(fetch: Fetch<T>, offset: nat, size: nat, left: nat): (seq<T>, nat)
    decreases left
  {
    if left == 0 then ([], 0)
    else
      var items := fetch(offset, size);
      if |items| >= size then
        var rest := Walked(fetch, offset + |items|, size, left - 1);
        (items + rest.0, 1 + rest.1)
      else (items, 1)
  }

  /** The first page is fetched whatever the cap. */
  function PagesAllowed(maxPages: Option<int>): nat {
    if maxPages.None? then DEFAULT_MAX_PAGES else if maxPages.value < 1 then 1 else maxPages.value
  }

  /** The walk so far and the walk ahead make the whole walk. */
  ghost predicate IsSplit<T>(whole: (seq<T>, nat), items: seq<T>, fetches: nat, ahead: (seq<T>, nat)) {
    whole.0 == items + ahead.0 && whole.1 == fetches + ahead.1
  }

  lemma SplitMoves<T>(fetch: Fetch<T>, offset: nat, size: nat, left: nat, whole: (seq<T>, nat), items: seq<T>,
                      fetches: nat)
    requires left > 0 && IsSplit(whole, items, fetches, Walked(fetch, offset, size, left))
    ensures var page := fetch(offset, size);
            if |page| >= size then
              IsSplit(whole, items + page, fetches + 1, Walked(fetch, offset + |page|, size, left - 1))
            else whole == (items + page, fetches + 1)
    ensures left == 1 ==> whole == (items + fetch(offset, size), fetches + 1)
  {
    var page := fetch(offset, size);
    if |page| >= size {
      var rest := Walked(fetch, offset + |page|, size, left - 1);
      assert items + (page + rest.0) == items + page + rest.0;
      assert items + page + [] == items + page;
    }
  }

  /** `items` is what the generator yields; an error comes before the first of them. */
  method PaginateList<T>(cursor: Option<string>, pageSize: Option<real>, maxPages: Option<int>, fetch: Fetch<T>)
    returns (items: seq<T>, fetches: nat, error: Option<PageError>)
    ensures error.None? <==> PageSizeOf(pageSize).Ok? && OffsetOf(cursor).Ok?
    ensures error.Some? ==> items == [] && fetches == 0
    ensures error.None? ==>
              (items, fetches) ==
              Walked(fetch, OffsetOf(cursor).value, PageSizeOf(pageSize).value, PagesAllowed(maxPages))
    ensures error.None? ==> 1 <= fetches && (fetches == 1 || fetches <= if maxPages.None? then 100 else maxPages.value)
  {
    hide DecodeCursor, EncodeCursor, OffsetOf, PageSizeOf, Walked;
    var limit := if maxPages.None? then DEFAULT_MAX_PAGES else maxPages.value;
    var current := cursor;
    items := [];
    fetches := 0;
    ghost var total := PagesAllowed(maxPages);
    ghost var valid := PageSizeOf(pageSize).Ok? && OffsetOf(cursor).Ok?;
    ghost var size := if valid then PageSizeOf(pageSize).value else 0;
    ghost var at := if valid then OffsetOf(cursor).value else 0;
    ghost var whole := Walked(fetch, at, size, total);
    while true
      invariant fetches < total
      invariant !valid ==> current == cursor && items == [] && fetches == 0
      invariant valid ==> OffsetOf(current) == Ok(at)
      invariant valid ==> IsSplit(whole, items, fetches, Walked(fetch, at, size, total - fetches))
      decreases total - fetches
    {
      var page := FetchPageWithCursor(current, pageSize, fetch);
      if page.Err? {
        return [], 0, Some(page.error);
      }
      SplitMoves(fetch, at, size, total - fetches, whole, items, fetches);
      items := items + page.value.items;
      fetches := fetches + 1;
      if page.value.nextCursor.None? || fetches >= limit {
        return items, fetches, None;
      }
      current := page.value.nextCursor;
      at := at + |page.value.items|;
    }
  }

  // ----- A walk over a fixed list is a slice of it ---------------------------

  function Window<T>(list: seq<T>, offset: nat, limit: nat): seq<T> {
    if offset <= |list| then list[offset..Least(offset + limit, |list|)] else []
  }

  ghost predicate Reads<T(!new)>(fetch: Fetch<T>, list: seq<T>) {
    forall offset: nat, limit: nat :: fetch(offset, limit) == Window(list, offset, limit)
  }

  /** `pages * size`, a page at a time. */
  ghost function Reach(pages: nat, size: nat): nat {
    if pages == 0 then 0 else Reach(pages - 1, size) + size
  }

  /** `rest / size`, a page at a time. */
  ghost function FullPages(rest: nat, size: nat): nat
    requires size >= 1
    decreases rest
  {
    if rest < size then 0 else FullPages(rest - size, size) + 1
  }

  lemma {:induction false} ReachIsProduct(pages: nat, size: nat)
    ensures Reach(pages, size) == pages * size
  {
    if pages > 0 {
      ReachIsProduct(pages - 1, size);
      assert pages * size == (pages - 1) * size + size;
    }
  }

  lemma QuotientIs(a: nat, size: nat, q: nat)
    requires size >= 1 && q * size <= a < q * size + size
    ensures a / size == q
  {
    var p := a / size;
    ProductGrows(p + 1, if p < q then q else p + 1, size);
    ProductGrows(q + 1, if q < p then p else q + 1, size);
  }

  lemma {:induction false} ProductGrows(a: nat, b: nat, size: nat)
    requires a <= b
    ensures a * size <= b * size && a * size == (a - 1) * size + size
    decreases b - a
  {
    if a < b {
      ProductGrows(a, b - 1, size);
      assert b * size == (b - 1) * size + size;
    }
  }

  lemma FullPagesIsQuotient(rest: nat, size: nat)
    requires size >= 1
    ensures FullPages(rest, size) == rest / size
  {
    var q := FullPages(rest, size);
    FullPagesBounds(rest, size);
    ReachIsProduct(q, size);
    QuotientIs(rest, size, q);
  }

  lemma {:induction false} FullPagesBounds(rest: nat, size: nat)
    requires size >= 1
    ensures Reach(FullPages(rest, size), size) <= rest < Reach(FullPages(rest, size), size) + size
    decreases rest
  {
    if rest >= size {
      FullPagesBounds(rest - size, size);
    }
  }

  function Beyond<T>(list: seq<T>, offset: nat): nat {
    if offset <= |list| then |list| - offset else 0
  }

  lemma WindowsJoin<T>(list: seq<T>, offset: nat, size: nat, more: nat)
    ensures |Window(list, offset, size)| >= size ==>
              Window(list, offset, size) + Window(list, offset + size, more) == Window(list, offset, size + more)
    ensures |Window(list, offset, size)| < size ==> Window(list, offset, size) == Window(list, offset, size + more)
    ensures |Window(list, offset, size)| == Least(size, Beyond(list, offset)) <= size
  {
  }

  lemma ReadsWindow<T(!new)>(fetch: Fetch<T>, list: seq<T>, offset: nat, size: nat)
    requires Reads(fetch, list)
    ensures fetch(offset, size) == Window(list, offset, size)
  {
  }

  lemma EmptyWindow<T>(list: seq<T>, offset: nat)
    ensures Window(list, offset, 0) == []
  {
  }

  lemma {:induction false} WalkIsSlice<T(!new)>(fetch: Fetch<T>, list: seq<T>, offset: nat, size: nat, left: nat)
    requires Reads(fetch, list) && size >= 1
    ensures Walked(fetch, offset, size, left).0 == Window(list, offset, Reach(left, size))
    decreases left
  {
    hide Reads, Window;
    if left == 0 {
      EmptyWindow(list, offset);
    } else {
      ReadsWindow(fetch, list, offset, size);
      WindowsJoin(list, offset, size, Reach(left - 1, size));
      if |fetch(offset, size)| >= size {
        WalkIsSlice(fetch, list, offset + |fetch(offset, size)|, size, left - 1);
      }
    }
  }

  /** Full pages up to the cap, and one short page, possibly empty, when the list ends before it. */
  lemma {:induction false} WalkFetches<T(!new)>(fetch: Fetch<T>, list: seq<T>, offset: nat, size: nat, left: nat)
    requires Reads(fetch, list) && size >= 1
    ensures Walked(fetch, offset, size, left).1 == Least(left, FullPages(Beyond(list, offset), size) + 1)
    decreases left
  {
    if left > 0 {
      hide Reads;
      ReadsWindow(fetch, list, offset, size);
      WindowsJoin(list, offset, size, 0);
      if |fetch(offset, size)| >= size {
        WalkFetches(fetch, list, offset + size, size, left - 1);
      }
    }
  }

  /**
   For a fixed list, `paginateList` yields exactly the items from its start to the end of the
   list or of the last page allowed, in order.
   */
  lemma PaginateIsSlice<T(!new)>(fetch: Fetch<T>, list: seq<T>, offset: nat, size: nat, pages: nat)
    requires Reads(fetch, list) && size >= 1
    ensures Walked(fetch, offset, size, pages).0 == Window(list, offset, pages * size)
    ensures Walked(fetch, offset, size, pages).1 ==
            Least(pages, (if offset <= |list| then |list| - offset else 0) / size + 1)
  {
    WalkIsSlice(fetch, list, offset, size, pages);
    WalkFetches(fetch, list, offset, size, pages);
    ReachIsProduct(pages, size);
    FullPagesIsQuotient(Beyond(list, offset), size);
  }
}
