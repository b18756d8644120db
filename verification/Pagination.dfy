/** Cursor pagination of the public list endpoints (service/src/api.rs), down to
    the decimal text a cursor travels as. A page is the newest rows below the
    cursor (the ledger's `ORDER BY id DESC LIMIT`). */
module Pagination {
  import opened Numbers
  import opened DecimalText

  const DEFAULT_PAGE_LIMIT: u32 := 50
  const MAX_PAGE_LIMIT: u32 := 200

  /** Every row id survives the trip through a cursor. */
  lemma CursorRoundTrip(id: i64)
    ensures ParseI64(Show(id)) == Some(id) && Show(id) != ""
  {
    if id < 0 {
      var magnitude: nat := 0 - id;
      ParseNatInvertsShow(magnitude);
      assert Show(id)[1..] == ShowNat(magnitude);
    } else {
      ParseNatInvertsShow(id);
    }
  }

  // ------------------------------------------------------- parameters

  datatype PageError = CursorNotAnInteger | LimitNotAnInteger | LimitZero

  function ParsePageParams(cursor: Option<string>, limit: Option<string>): (r: Result<(Option<i64>, u32), PageError>)
    ensures r.Ok? ==> 1 <= r.value.1 <= MAX_PAGE_LIMIT
  {
    var noCursor := cursor.None? || cursor.value == "";
    if !noCursor && ParseI64(cursor.value).None? then Err(CursorNotAnInteger)
    else
      var before := if noCursor then None else ParseI64(cursor.value);
      if limit.None? || limit.value == "" then Ok((before, DEFAULT_PAGE_LIMIT))
      else
        match ParseU32(limit.value)
        case None => Err(LimitNotAnInteger)
        case Some(n) =>
          if n == 0 then Err(LimitZero)
          else Ok((before, if n <= MAX_PAGE_LIMIT then n else MAX_PAGE_LIMIT))
  }

  /** What a caller gets: no parameter (or an empty one) means the start and 50
      rows; a limit in decimal is honoured up to 200 and refused at zero. */
  lemma LimitHonoured(n: u32)
    ensures ParsePageParams(None, None) == ParsePageParams(Some(""), Some("")) == Ok((None, 50))
    ensures ParsePageParams(None, Some(Show(n))) ==
            if n == 0 then Err(LimitZero) else Ok((None, if n < 200 then n else 200))
  {
    ParseNatInvertsShow(n);
  }

  predicate Blank(text: Option<string>)
  {
    text.None? || text.value == ""
  }

  /** The starting points a cursor text can name. */
  ghost predicate CursorSays(text: Option<string>, before: Option<i64>)
  {
    if Blank(text) then before.None? else before.Some? && SpellsSigned(text.value, before.value)
  }

  /** The page sizes a limit text can name: 50 when blank, else the positive u32
      it spells, up to 200. */
  ghost predicate LimitSays(text: Option<string>, size: u32)
  {
    if Blank(text) then size == 50
    else exists n: u32 :: n >= 1 && SpellsUnsigned(text.value, n) && size == if n < 200 then n else 200
  }

  ghost predicate SpellsUnsigned(s: string, n: u32)
  {
    Spells(s, n) || (s != [] && s[0] == '+' && Spells(s[1..], n))
  }

  /** Parameters are accepted exactly when both texts spell something usable, and
      then as what they spell. */
  lemma ParamsAcceptedIff(cursor: Option<string>, limit: Option<string>, before: Option<i64>, size: u32)
    ensures ParsePageParams(cursor, limit) == Ok((before, size)) <==>
            CursorSays(cursor, before) && LimitSays(limit, size)
  {
    CursorAcceptedIff(cursor, before);
    LimitAcceptedIff(limit, size);
  }

  lemma CursorAcceptedIff(cursor: Option<string>, before: Option<i64>)
    ensures CursorSays(cursor, before) <==>
            if Blank(cursor) then before.None? else before.Some? && ParseI64(cursor.value) == before
  {
    if !Blank(cursor) && before.Some? { ParseI64Iff(cursor.value, before.value); }
  }

  lemma LimitAcceptedIff(limit: Option<string>, size: u32)
    ensures LimitSays(limit, size) <==>
            if Blank(limit) then size == 50
            else var n := ParseU32(limit.value);
                 n.Some? && n.value >= 1 && size == if n.value < 200 then n.value else 200
  {
    if !Blank(limit) {
      forall n: u32 ensures ParseU32(limit.value) == Some(n) <==> SpellsUnsigned(limit.value, n) {
        ParseU32Iff(limit.value, n);
      }
      if ParseU32(limit.value).Some? { assert SpellsUnsigned(limit.value, ParseU32(limit.value).value); }
    }
  }

  // ------------------------------------------------------------- pages

  datatype Row = Row(id: i64, content: string)

  /** A table (already narrowed by the endpoint's filter) in id order. */
  predicate Ascending(table: seq<Row>)
  {
    forall i, j :: 0 <= i < j < |table| ==> table[i].id < table[j].id
  }

  /** The newest `limit` rows below the cursor, newest first. */
  function QueryPage(table: seq<Row>, before: Option<i64>, limit: nat): (rows: seq<Row>)
  {
    if table == [] || limit == 0 then []
    else
      var last, older := table[|table| - 1], table[..|table| - 1];
      if before.None? || last.id < before.value then [last] + QueryPage(older, before, limit - 1)
      else QueryPage(older, before, limit)
  }

  datatype Page = Page(items: seq<Row>, nextCursor: Option<string>)

  function ListPage(table: seq<Row>, cursor: Option<string>, limit: Option<string>): (r: Result<Page, PageError>)
  {
    var (before, n) :- ParsePageParams(cursor, limit);
    Ok(PageOf(QueryPage(table, before, n), n))
  }

  /** A full page carries the id of its last row as the next cursor. */
  function PageOf(rows: seq<Row>, limit: nat): (page: Page)
    requires limit > 0
  {
    Page(rows, if |rows| == limit then Some(Show(rows[|rows| - 1].id)) else None)
  }

  /** Rows `lo` up to `hi` of a table, newest first. */
  function Down(table: seq<Row>, hi: nat, lo: nat): (rows: seq<Row>)
    requires lo <= hi <= |table|
  {
    seq(hi - lo, i requires 0 <= i < hi - lo => table[hi - 1 - i])
  }

  function NewestFirst(table: seq<Row>): (rows: seq<Row>)
  {
    Down(table, |table|, 0)
  }

  lemma DownJoins(table: seq<Row>, hi: nat, mid: nat, lo: nat)
    requires lo <= mid <= hi <= |table|
    ensures Down(table, hi, mid) + Down(table, mid, lo) == Down(table, hi, lo)
  {
  }

  lemma DownOfOne(table: seq<Row>, hi: nat)
    requires hi < |table|
    ensures Down(table, hi + 1, hi) == [table[hi]]
  {
  }

  lemma DownOfPrefix(start: seq<Row>, table: seq<Row>, hi: nat, lo: nat)
    requires start <= table && lo <= hi <= |start|
    ensures Down(start, hi, lo) == Down(table, hi, lo)
  {
  }

  /** Exactly the first `n` rows lie below the cursor. */
  predicate BelowCursor(table: seq<Row>, before: Option<i64>, n: nat)
  {
    && n <= |table| && (before.None? ==> n == |table|)
    && (forall i :: 0 <= i < n ==> before.None? || table[i].id < before.value)
    && (forall i :: n <= i < |table| ==> before.None? || before.value <= table[i].id)
  }

  function Less(n: nat, limit: nat): (m: nat)
  {
    if n <= limit then 0 else n - limit
  }

  /** A page is the top slice of the rows below the cursor. */
  lemma {:induction false} PageIsTopSlice(table: seq<Row>, before: Option<i64>, limit: nat, n: nat)
    requires BelowCursor(table, before, n)
    ensures QueryPage(table, before, limit) == Down(table, n, Less(n, limit))
  {
    if table != [] && limit > 0 {
      var top := |table| - 1;
      var older := table[..top];
      if n <= top {
        PageIsTopSlice(older, before, limit, n);
        DownOfPrefix(older, table, n, Less(n, limit));
      } else {
        PageIsTopSlice(older, before, limit - 1, top);
        DownOfPrefix(older, table, top, Less(n, limit));
        DownOfOne(table, top);
        DownJoins(table, n, top, Less(n, limit));
      }
    }
  }

  // --------------------------------------------------------- the walk

  /** The table as each request finds it: rows are only ever added, with ids
      above all earlier ones. */
  ghost predicate Growing(tables: nat -> seq<Row>)
  {
    forall j: nat, k: nat :: j <= k ==> Ascending(tables(k)) && tables(j) <= tables(k)
  }

  lemma CursorParses(id: i64, limitText: Option<string>, limit: u32)
    requires ParsePageParams(None, limitText) == Ok((None, limit))
    ensures ParsePageParams(Some(Show(id)), limitText) == Ok((Some(id), limit))
  {
    CursorRoundTrip(id);
  }

  lemma LeavesBelow(start: seq<Row>, table: seq<Row>, n: nat)
    requires Ascending(table) && start <= table && n < |start|
    ensures BelowCursor(table, Some(start[n].id), n)
  {
    assert start[n] == table[n];
  }

  /** The page that serves the newest of the first `n` starting rows: `size` of
      them, and a cursor exactly when the page is full. `mark(m)` is the cursor
      that leaves the first `m` rows. */
  function PageAt(start: seq<Row>, n: nat, size: nat, mark: nat -> string): (page: Page)
    requires n <= |start|
  {
    Page(Down(start, n, Less(n, size)), if n < size then None else Some(mark(n - size)))
  }

  /** The cursor that names a row's id. */
  function MarkOf(start: seq<Row>): (mark: nat -> string)
  {
    (n: nat) => if n < |start| then Show(start[n].id) else ""
  }

  lemma PageOfDown(start: seq<Row>, n: nat, size: nat)
    requires n <= |start| && size > 0
    ensures PageOf(Down(start, n, Less(n, size)), size) == PageAt(start, n, size, MarkOf(start))
  {
    if n >= size { assert Down(start, n, n - size)[size - 1] == start[n - size]; }
  }

  lemma FirstPage(start: seq<Row>, limitText: Option<string>, size: u32)
    requires Ascending(start) && ParsePageParams(None, limitText) == Ok((None, size))
    ensures ListPage(start, None, limitText) == Ok(PageAt(start, |start|, size, MarkOf(start)))
  {
    PageIsTopSlice(start, None, size, |start|);
    PageOfDown(start, |start|, size);
  }

  lemma LaterPage(start: seq<Row>, table: seq<Row>, n: nat, limitText: Option<string>, size: u32)
    requires Ascending(table) && start <= table && n < |start| && ParsePageParams(None, limitText) == Ok((None, size))
    ensures ListPage(table, Some(Show(start[n].id)), limitText) == Ok(PageAt(start, n, size, MarkOf(start)))
  {
    CursorParses(start[n].id, limitText, size);
    NextRows(start, table, n, size);
    PageOfDown(start, n, size);
  }

  lemma NextRows(start: seq<Row>, table: seq<Row>, n: nat, size: nat)
    requires Ascending(table) && start <= table && n < |start|
    ensures QueryPage(table, Some(start[n].id), size) == Down(start, n, Less(n, size))
  {
    LeavesBelow(start, table, n);
    PageIsTopSlice(table, Some(start[n].id), size, n);
    DownOfPrefix(start, table, n, Less(n, size));
  }

  /** The requests of a walk over the rows of `start`: the `k`-th, asked with the
      cursor it was given, serves what that cursor leaves. */
  ghost predicate Serves(fetch: (nat, Option<string>) -> Page, start: seq<Row>, size: nat, mark: nat -> string)
  {
    && fetch(0, None) == PageAt(start, |start|, size, mark)
    && forall k: nat, n: nat :: n < |start| ==> fetch(k, Some(mark(n))) == PageAt(start, n, size, mark)
  }

  lemma ServedSoFar(start: seq<Row>, rows: seq<Row>, m: nat, n: nat)
    requires m <= n <= |start| && rows == Down(start, |start|, n)
    ensures rows + Down(start, n, m) == Down(start, |start|, m)
  {
    DownJoins(start, |start|, n, m);
  }

  /** How many requests it takes to serve `total` rows and see a short page. */
  function Requests(total: nat, size: nat): (k: nat)
    requires size > 0
  {
    if total < size then 1 else 1 + Requests(total - size, size)
  }

  lemma {:induction false} RequestsCount(total: nat, size: nat)
    requires size > 0
    ensures Requests(total, size) == total / size + 1
  {
    if total >= size {
      RequestsCount(total - size, size);
      QuotientStep(total, size);
    } else {
      FloorIff(total, size, 1);
    }
  }

  lemma QuotientStep(total: nat, size: int)
    requires 0 < size <= total
    ensures total / size == (total - size) / size + 1
  {
    var q := (total - size) / size;
    DivBounds(total - size, size);
    assert (q + 1) * size == q * size + size && (q + 2) * size == (q + 1) * size + size;
    FloorIff(total, size, q + 1);
    FloorIff(total, size, q + 2);
  }

  /** Following `next_cursor` until it is null. */
  method Walk(fetch: (nat, Option<string>) -> Page, ghost start: seq<Row>, ghost size: nat, ghost mark: nat -> string)
    returns (rows: seq<Row>, k: nat)
    requires size > 0 && Serves(fetch, start, size, mark)
    ensures rows == NewestFirst(start) && k == Requests(|start|, size)
  {
    ghost var n: nat := |start|;
    var page := fetch(0, None);
    rows, k := page.items, 1;
    ServedSoFar(start, [], Less(n, size), n);
    while page.nextCursor.Some?
      invariant n <= |start| && page == PageAt(start, n, size, mark)
      invariant k + Requests(n, size) == Requests(|start|, size) + 1
      invariant rows == Down(start, |start|, Less(n, size))
      decreases if page.nextCursor.Some? then 1 else 0, n
    {
      n := n - size;
      page := fetch(k, page.nextCursor);
      ServedSoFar(start, rows, Less(n, size), n);
      rows := rows + page.items;
      k := k + 1;
    }
  }

  /** The walk over the endpoint: refused exactly when the limit is, and otherwise
      every row present at the start, once, newest first, whatever is inserted
      meanwhile, in one request more than the full pages. */
  method FollowCursors(tables: nat -> seq<Row>, limit: Option<string>)
    returns (r: Result<seq<Row>, PageError>, requests: nat)
    requires Growing(tables)
    ensures r.Ok? <==> ParsePageParams(None, limit).Ok?
    ensures r.Ok? ==> r.value == NewestFirst(tables(0))
    ensures r.Ok? ==> requests == |tables(0)| / ParsePageParams(None, limit).value.1 + 1
  {
    requests := 0;
    var params := ParsePageParams(None, limit);
    if params.Err? { return Err(params.error), requests; }
    var fetch := EndpointOf(tables, limit);
    EndpointServes(tables, limit, params.value.1);
    RequestsCount(|tables(0)|, params.value.1);
    var rows;
    rows, requests := Walk(fetch, tables(0), params.value.1, MarkOf(tables(0)));
    r := Ok(rows);
  }

  /** The endpoint as the walk calls it; a refused request would end the walk. */
  function EndpointOf(tables: nat -> seq<Row>, limit: Option<string>): (fetch: (nat, Option<string>) -> Page)
  {
    (k: nat, cursor: Option<string>) =>
      var page := ListPage(tables(k), cursor, limit);
      if page.Ok? then page.value else Page([], None)
  }

  lemma EndpointServes(tables: nat -> seq<Row>, limit: Option<string>, size: u32)
    requires Growing(tables) && ParsePageParams(None, limit) == Ok((None, size))
    ensures Serves(EndpointOf(tables, limit), tables(0), size, MarkOf(tables(0)))
  {
    FirstPage(tables(0), limit, size);
    forall k: nat, n: nat | n < |tables(0)|
      ensures EndpointOf(tables, limit)(k, Some(MarkOf(tables(0))(n))) == PageAt(tables(0), n, size, MarkOf(tables(0)))
    {
      LaterPage(tables(0), tables(k), n, limit, size);
    }
  }

  /** So no row is missed, repeated or out of order. */
  lemma NewestFirstIsOnceDescending(table: seq<Row>)
    requires Ascending(table)
    ensures forall i, j :: 0 <= i < j < |NewestFirst(table)| ==> NewestFirst(table)[i].id > NewestFirst(table)[j].id
    ensures multiset(NewestFirst(table)) == multiset(table)
  {
    NewestFirstKeepsRows(table);
  }

  lemma {:induction false} NewestFirstKeepsRows(table: seq<Row>)
    ensures multiset(NewestFirst(table)) == multiset(table)
  {
    if table != [] {
      var top := |table| - 1;
      NewestFirstKeepsRows(table[..top]);
      DownOfPrefix(table[..top], table, top, 0);
      DownOfOne(table, top);
      DownJoins(table, |table|, top, 0);
      assert table == table[..top] + [table[top]];
    }
  }
}
