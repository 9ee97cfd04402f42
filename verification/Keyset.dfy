/** Keyset pagination of message history (src/routes/conversations.ts, src/routes/secret.ts). */
module Keyset {
  import opened Aead
  import opened Bytes
  import opened Text

  datatype Row = Row(createdAt: int, id: string, expiresAt: Option<int>)

  datatype Key = Key(createdAt: int, id: string)

  // The order of the id column; the database compares the cursor's id with the same order.
  datatype Collation = Collation(less: (string, string) -> bool)
  {
    ghost predicate Total() {
      && (forall a {:trigger less(a, a)} :: !less(a, a))
      && (forall a, b {:trigger less(a, b), less(b, a)} :: a != b ==> less(a, b) != less(b, a))
      && (forall a, b, c {:trigger less(a, b), less(b, c)} :: less(a, b) && less(b, c) ==> less(a, c))
    }
  }

  function KeyOf(r: Row): Key {
    Key(r.createdAt, r.id)
  }

  /** (createdAt, id) of `a` is strictly smaller than that of `b`. */
  predicate Below(o: Collation, a: Key, b: Key) {
    a.createdAt < b.createdAt || (a.createdAt == b.createdAt && o.less(a.id, b.id))
  }

  lemma BelowTransitive(o: Collation, a: Key, b: Key, c: Key)
    requires o.Total() && Below(o, a, b) && Below(o, b, c)
    ensures Below(o, a, c)
  {
  }

  /** Strictly descending by (createdAt, id): no key occurs twice. */
  predicate Descending(o: Collation, rows: seq<Row>) {
    forall i, j :: 0 <= i < j < |rows| ==> Below(o, KeyOf(rows[j]), KeyOf(rows[i]))
  }

  function Insert(o: Collation, r: Row, rows: seq<Row>): seq<Row> {
    if rows == [] || Below(o, KeyOf(rows[0]), KeyOf(r)) then [r] + rows else [rows[0]] + Insert(o, r, rows[1..])
  }

  /** `orderBy: [{ createdAt: "desc" }, { id: "desc" }]`. */
  function Sort(o: Collation, rows: seq<Row>): seq<Row> {
    if rows == [] then [] else Insert(o, rows[0], Sort(o, rows[1..]))
  }

  predicate Visible(r: Row, now: int) {
    r.expiresAt.None? || r.expiresAt.value > now
  }

  /** The `where` clause. */
  predicate Matches(o: Collation, r: Row, now: int, cursor: Option<Key>) {
    Visible(r, now) && (cursor.Some? ==> Below(o, KeyOf(r), cursor.value))
  }

  function Select(o: Collation, table: seq<Row>, now: int, cursor: Option<Key>): seq<Row> {
    if table == [] then []
    else (if Matches(o, table[0], now, cursor) then [table[0]] else []) + Select(o, table[1..], now, cursor)
  }

  datatype Page = Page(items: seq<Row>, nextCursor: Option<Key>)

  /** One request: the cursor that comes back is the key of the last item, if there is one row more than asked for. */
  function GetPage(o: Collation, table: seq<Row>, now: int, cursor: Option<Key>, limit: nat): Page
    requires limit > 0
  {
    var sorted := Sort(o, Select(o, table, now, cursor));
    var rows := sorted[..Min(|sorted|, limit + 1)];
    if |rows| > limit then Page(rows[..limit], Some(KeyOf(rows[limit - 1]))) else Page(rows, None)
  }

  // ---------------------------------------------------------------- sorting

  /** Ids are unique in the table. */
  predicate UniqueIds(rows: seq<Row>) {
    forall i, j :: 0 <= i < j < |rows| ==> rows[i].id != rows[j].id
  }

  lemma {:induction false} InsertMembers(o: Collation, r: Row, rows: seq<Row>)
    ensures forall x :: x in Insert(o, r, rows) <==> x == r || x in rows
  {
    if rows != [] && !Below(o, KeyOf(rows[0]), KeyOf(r)) {
      InsertMembers(o, r, rows[1..]);
      assert rows == [rows[0]] + rows[1..];
    }
  }

  lemma {:induction false} SortMembers(o: Collation, rows: seq<Row>)
    ensures forall x :: x in Sort(o, rows) <==> x in rows
  {
    if rows != [] {
      SortMembers(o, rows[1..]);
      InsertMembers(o, rows[0], Sort(o, rows[1..]));
      assert rows == [rows[0]] + rows[1..];
    }
  }

  lemma {:induction false} InsertDescends(o: Collation, r: Row, rows: seq<Row>)
    requires o.Total() && Descending(o, rows)
    requires forall x :: x in rows ==> x.id != r.id
    ensures Descending(o, Insert(o, r, rows))
  {
    if rows != [] {
      if Below(o, KeyOf(rows[0]), KeyOf(r)) {
        forall i | 0 <= i < |rows|
          ensures Below(o, KeyOf(rows[i]), KeyOf(r))
        {
          if i > 0 {
            BelowTransitive(o, KeyOf(rows[i]), KeyOf(rows[0]), KeyOf(r));
          }
        }
      } else {
        assert rows[0] in rows && Below(o, KeyOf(r), KeyOf(rows[0]));
        assert forall x :: x in rows[1..] ==> x in rows;
        InsertDescends(o, r, rows[1..]);
        InsertMembers(o, r, rows[1..]);
        PrependDescends(o, rows[0], Insert(o, r, rows[1..]));
      }
    }
  }

  lemma PrependDescends(o: Collation, r: Row, rows: seq<Row>)
    requires Descending(o, rows) && forall x :: x in rows ==> Below(o, KeyOf(x), KeyOf(r))
    ensures Descending(o, [r] + rows)
  {
  }

  lemma {:induction false} SortDescends(o: Collation, rows: seq<Row>)
    requires o.Total() && UniqueIds(rows)
    ensures Descending(o, Sort(o, rows))
  {
    if rows != [] {
      SortDescends(o, rows[1..]);
      SortMembers(o, rows[1..]);
      InsertDescends(o, rows[0], Sort(o, rows[1..]));
    }
  }

  lemma {:induction false} SelectMembers(o: Collation, table: seq<Row>, now: int, cursor: Option<Key>)
    ensures forall x :: x in Select(o, table, now, cursor) <==> x in table && Matches(o, x, now, cursor)
  {
    if table != [] {
      SelectMembers(o, table[1..], now, cursor);
      assert table == [table[0]] + table[1..];
    }
  }

  lemma PrependUnique(r: Row, rows: seq<Row>)
    requires UniqueIds(rows) && forall x :: x in rows ==> x.id != r.id
    ensures UniqueIds([r] + rows)
  {
  }

  lemma {:induction false} SelectUnique(o: Collation, table: seq<Row>, now: int, cursor: Option<Key>)
    requires UniqueIds(table)
    ensures UniqueIds(Select(o, table, now, cursor))
  {
    if table != [] {
      SelectUnique(o, table[1..], now, cursor);
      SelectMembers(o, table[1..], now, cursor);
      assert forall x :: x in table[1..] ==> x.id != table[0].id;
      PrependUnique(table[0], Select(o, table[1..], now, cursor));
    }
  }

  /** The sorted query result: exactly the matching rows, newest first. */
  lemma QueryResult(o: Collation, table: seq<Row>, now: int, cursor: Option<Key>)
    requires o.Total() && UniqueIds(table)
    ensures var sorted := Sort(o, Select(o, table, now, cursor));
            Descending(o, sorted) && forall x :: x in sorted <==> x in table && Matches(o, x, now, cursor)
  {
    SelectMembers(o, table, now, cursor);
    SelectUnique(o, table, now, cursor);
    SortMembers(o, Select(o, table, now, cursor));
    SortDescends(o, Select(o, table, now, cursor));
  }

  // ---------------------------------------------------------------- one page

  /** What a page says about the table it was read from. */
  ghost predicate Covers(o: Collation, table: seq<Row>, now: int, cursor: Option<Key>, page: Page) {
    && Descending(o, page.items)
    && (forall x :: x in page.items ==> x in table && Matches(o, x, now, cursor))
    && (forall x :: x in table && Matches(o, x, now, cursor) ==>
          x in page.items || (page.nextCursor.Some? && Below(o, KeyOf(x), page.nextCursor.value)))
    && (page.nextCursor.Some? ==>
          page.items != [] && page.nextCursor.value == KeyOf(page.items[|page.items| - 1]))
  }

  /** A page holds the newest rows under the cursor, newest first, and its cursor separates them from the others. */
  lemma PageCovers(o: Collation, table: seq<Row>, now: int, cursor: Option<Key>, limit: nat)
    requires limit > 0 && o.Total() && UniqueIds(table)
    ensures Covers(o, table, now, cursor, GetPage(o, table, now, cursor, limit))
    ensures |GetPage(o, table, now, cursor, limit).items| <= limit
  {
    QueryResult(o, table, now, cursor);
    SplitCovers(o, Sort(o, Select(o, table, now, cursor)), limit);
    PageIsSplit(o, table, now, cursor, limit);
  }

  lemma PageIsSplit(o: Collation, table: seq<Row>, now: int, cursor: Option<Key>, limit: nat)
    requires limit > 0
    ensures var sorted := Sort(o, Select(o, table, now, cursor));
            GetPage(o, table, now, cursor, limit)
            == Page(sorted[..Min(|sorted|, limit)], if |sorted| > limit then Some(KeyOf(sorted[limit - 1])) else None)
  {
    var sorted := Sort(o, Select(o, table, now, cursor));
    if |sorted| > limit {
      assert sorted[..limit + 1][..limit] == sorted[..limit];
    } else {
      assert sorted[..|sorted|] == sorted;
    }
  }

  lemma SplitCovers(o: Collation, sorted: seq<Row>, limit: nat)
    requires limit > 0 && Descending(o, sorted)
    ensures var items := sorted[..Min(|sorted|, limit)];
            && Descending(o, items) && (forall x :: x in items ==> x in sorted)
            && (forall x :: x in sorted ==>
                  x in items || (|sorted| > limit && Below(o, KeyOf(x), KeyOf(items[limit - 1]))))
  {
    var items := sorted[..Min(|sorted|, limit)];
    forall x | x in sorted
      ensures x in items || (|sorted| > limit && Below(o, KeyOf(x), KeyOf(items[limit - 1])))
    {
      var i :| 0 <= i < |sorted| && sorted[i] == x;
      if i < |items| {
        assert items[i] == x;
      }
    }
  }

  /** Nothing that has expired is returned, and nothing at or above the cursor. */
  lemma NothingExpiredIsReturned(o: Collation, table: seq<Row>, now: int, cursor: Option<Key>, limit: nat, r: Row)
    requires limit > 0 && o.Total() && UniqueIds(table) && r in GetPage(o, table, now, cursor, limit).items
    ensures r in table && (r.expiresAt.Some? ==> now < r.expiresAt.value)
    ensures cursor.Some? ==>
              r.createdAt < cursor.value.createdAt
              || (r.createdAt == cursor.value.createdAt && o.less(r.id, cursor.value.id))
  {
    PageCovers(o, table, now, cursor, limit);
  }

  /** The rows that a request may return. */
  ghost predicate Due(o: Collation, r: Row, now: int, cursor: Option<Key>) {
    && (r.expiresAt.Some? ==> now < r.expiresAt.value)
    && (cursor.Some? ==>
          r.createdAt < cursor.value.createdAt
          || (r.createdAt == cursor.value.createdAt && o.less(r.id, cursor.value.id)))
  }

  /** A page is full unless it has all there is; then, and only then, no cursor comes back. */
  lemma PageIsFull(o: Collation, table: seq<Row>, now: int, cursor: Option<Key>, limit: nat)
    requires limit > 0 && o.Total() && UniqueIds(table)
    ensures var page := GetPage(o, table, now, cursor, limit);
            if page.nextCursor.Some? then
              && |page.items| == limit
              && page.nextCursor == Some(Key(page.items[limit - 1].createdAt, page.items[limit - 1].id))
              && exists r :: r in table && Due(o, r, now, cursor) && r !in page.items
            else
              |page.items| <= limit && forall r :: r in table && Due(o, r, now, cursor) ==> r in page.items
  {
    PageCovers(o, table, now, cursor, limit);
    PageIsSplit(o, table, now, cursor, limit);
    QueryResult(o, table, now, cursor);
    var page := GetPage(o, table, now, cursor, limit);
    var sorted := Sort(o, Select(o, table, now, cursor));
    if page.nextCursor.Some? {
      var r := sorted[limit];
      assert r in sorted;
      NotAmongEarlier(o, sorted, limit);
      assert r in table && Due(o, r, now, cursor);
    } else {
      forall r | r in table && Due(o, r, now, cursor)
        ensures r in page.items
      {
        assert Matches(o, r, now, cursor);
      }
    }
  }

  lemma NotAmongEarlier(o: Collation, rows: seq<Row>, i: nat)
    requires o.Total() && Descending(o, rows) && i < |rows|
    ensures rows[i] !in rows[..i]
  {
    assert !o.less(rows[i].id, rows[i].id);
    forall j | 0 <= j < i
      ensures rows[j] != rows[i]
    {
      assert Below(o, KeyOf(rows[i]), KeyOf(rows[j]));
    }
  }

  /** Within a page newer messages come first, and those of the same time in descending order of their ids. */
  lemma NewestFirst(o: Collation, table: seq<Row>, now: int, cursor: Option<Key>, limit: nat, i: nat, j: nat)
    requires limit > 0 && o.Total() && UniqueIds(table)
    requires i < j < |GetPage(o, table, now, cursor, limit).items|
    ensures var a, b := GetPage(o, table, now, cursor, limit).items[i], GetPage(o, table, now, cursor, limit).items[j];
            b.createdAt < a.createdAt || (b.createdAt == a.createdAt && o.less(b.id, a.id))
  {
    PageCovers(o, table, now, cursor, limit);
  }

  // ---------------------------------------------------------------- following the cursor

  /** The table and the clock as one request finds them, and how much it asks for. */
  datatype Request = Request(table: seq<Row>, now: int, limit: nat)

  ghost predicate Fits(o: Collation, requests: seq<Request>) {
    o.Total() && forall k :: 0 <= k < |requests| ==> requests[k].limit > 0 && UniqueIds(requests[k].table)
  }

  function Answer(o: Collation, r: Request, cursor: Option<Key>): Page
    requires r.limit > 0
  {
    GetPage(o, r.table, r.now, cursor, r.limit)
  }

  /** The pages of consecutive requests: the first without a cursor, each other with the one before's `nextCursor`. */
  ghost predicate Followed(o: Collation, requests: seq<Request>, pages: seq<Page>)
    requires Fits(o, requests)
  {
    |pages| == |requests| && forall k :: 0 <= k < |pages| ==> FollowedAt(o, requests, pages, k)
  }

  ghost predicate FollowedAt(o: Collation, requests: seq<Request>, pages: seq<Page>, k: int)
    requires Fits(o, requests) && 0 <= k < |pages| == |requests|
  {
    (k > 0 ==> pages[k - 1].nextCursor.Some?) && pages[k] == Answer(o, requests[k], CursorAt(pages, k))
  }

  function CursorAt(pages: seq<Page>, k: nat): Option<Key>
    requires k <= |pages|
  {
    if k == 0 then None else pages[k - 1].nextCursor
  }

  lemma FollowedCovers(o: Collation, requests: seq<Request>, pages: seq<Page>, k: nat)
    requires Fits(o, requests) && Followed(o, requests, pages) && k < |pages|
    ensures k > 0 ==> pages[k - 1].nextCursor.Some?
    ensures Covers(o, requests[k].table, requests[k].now, CursorAt(pages, k), pages[k])
  {
    assert FollowedAt(o, requests, pages, k);
    PageCovers(o, requests[k].table, requests[k].now, CursorAt(pages, k), requests[k].limit);
  }

  lemma ItemUnderCursor(o: Collation, requests: seq<Request>, pages: seq<Page>, k: nat, y: Row)
    requires Fits(o, requests) && Followed(o, requests, pages) && 0 < k < |pages| && y in pages[k].items
    ensures pages[k - 1].nextCursor.Some? && Below(o, KeyOf(y), pages[k - 1].nextCursor.value)
  {
    FollowedCovers(o, requests, pages, k);
  }

  lemma CursorIsLast(o: Collation, requests: seq<Request>, pages: seq<Page>, k: nat) returns (last: Row)
    requires Fits(o, requests) && Followed(o, requests, pages) && k < |pages| && pages[k].nextCursor.Some?
    ensures last in pages[k].items && pages[k].nextCursor == Some(KeyOf(last))
    ensures forall x :: x in pages[k].items ==> x == last || Below(o, KeyOf(last), KeyOf(x))
  {
    FollowedCovers(o, requests, pages, k);
    last := pages[k].items[|pages[k].items| - 1];
  }

  /** Cursors descend: everything on a later page is below the cursor of every earlier one. */
  lemma {:induction false} LaterIsBelow(o: Collation, requests: seq<Request>, pages: seq<Page>, i: nat, j: nat, y: Row)
    requires Fits(o, requests) && Followed(o, requests, pages) && i < j < |pages|
    requires y in pages[j].items
    ensures pages[i].nextCursor.Some? && Below(o, KeyOf(y), pages[i].nextCursor.value)
    decreases j
  {
    ItemUnderCursor(o, requests, pages, j, y);
    if i < j - 1 {
      var last := CursorIsLast(o, requests, pages, j - 1);
      LaterIsBelow(o, requests, pages, i, j - 1, last);
      BelowTransitive(o, KeyOf(y), KeyOf(last), pages[i].nextCursor.value);
    }
  }

  /**
   * Whatever happens to the table between the requests (messages arrive, expire or are deleted), the
   * pages read one after the other are strictly descending: nothing is ever returned twice.
   */
  lemma PagesDescend(o: Collation, requests: seq<Request>, pages: seq<Page>, i: nat, j: nat, x: Row, y: Row)
    requires Fits(o, requests) && Followed(o, requests, pages) && i < j < |pages|
    requires x in pages[i].items && y in pages[j].items
    ensures Below(o, KeyOf(y), KeyOf(x))
  {
    LaterIsBelow(o, requests, pages, i, j, y);
    var last := CursorIsLast(o, requests, pages, i);
    if x != last {
      BelowTransitive(o, KeyOf(y), KeyOf(last), KeyOf(x));
    }
  }

  ghost predicate OnAPage(pages: seq<Page>, n: nat, r: Row)
    requires n <= |pages|
  {
    exists k :: 0 <= k < n && r in pages[k].items
  }

  lemma CoveredAt(o: Collation, requests: seq<Request>, pages: seq<Page>, r: Row, k: nat)
    requires Fits(o, requests) && Followed(o, requests, pages) && k < |pages|
    requires r in requests[k].table && Visible(r, requests[k].now)
    requires k > 0 && pages[k - 1].nextCursor.Some? ==> Below(o, KeyOf(r), pages[k - 1].nextCursor.value)
    ensures r in pages[k].items || (pages[k].nextCursor.Some? && Below(o, KeyOf(r), pages[k].nextCursor.value))
  {
    FollowedCovers(o, requests, pages, k);
  }

  /** A message that is there and visible at every request is on one of the pages, or below the last cursor. */
  lemma {:induction false} NotHidden(o: Collation, requests: seq<Request>, pages: seq<Page>, r: Row, n: nat)
    requires Fits(o, requests) && Followed(o, requests, pages) && 0 < n <= |pages|
    requires forall k :: 0 <= k < n ==> r in requests[k].table && Visible(r, requests[k].now)
    ensures OnAPage(pages, n, r) || (pages[n - 1].nextCursor.Some? && Below(o, KeyOf(r), pages[n - 1].nextCursor.value))
  {
    if n > 1 {
      NotHidden(o, requests, pages, r, n - 1);
    }
    if !(n > 1 && OnAPage(pages, n - 1, r)) {
      CoveredAt(o, requests, pages, r, n - 1);
    }
  }

  /** Following `nextCursor` until it is null returns every message that stayed, also when others come and go. */
  lemma NothingIsHidden(o: Collation, requests: seq<Request>, pages: seq<Page>, r: Row)
    requires Fits(o, requests) && Followed(o, requests, pages)
    requires pages != [] && pages[|pages| - 1].nextCursor.None?
    requires forall k :: 0 <= k < |pages| ==> r in requests[k].table && Visible(r, requests[k].now)
    ensures OnAPage(pages, |pages|, r)
  {
    NotHidden(o, requests, pages, r, |pages|);
  }

  // ---------------------------------------------------------------- an unchanged table

  function Items(pages: seq<Page>): seq<Row> {
    if pages == [] then [] else Items(pages[..|pages| - 1]) + pages[|pages| - 1].items
  }

  lemma {:induction false} ItemsMembers(pages: seq<Page>, x: Row)
    ensures x in Items(pages) <==> OnAPage(pages, |pages|, x)
  {
    if pages != [] {
      var n := |pages| - 1;
      ItemsMembers(pages[..n], x);
      if OnAPage(pages, |pages|, x) {
        var k :| 0 <= k < |pages| && x in pages[k].items;
        if k < n {
          assert x in pages[..n][k].items;
        }
      }
      if OnAPage(pages[..n], n, x) {
        var k :| 0 <= k < n && x in pages[..n][k].items;
        assert x in pages[k].items;
      }
    }
  }

  lemma AppendDescends(o: Collation, a: seq<Row>, b: seq<Row>)
    requires Descending(o, a) && Descending(o, b)
    requires forall x, y :: x in a && y in b ==> Below(o, KeyOf(y), KeyOf(x))
    ensures Descending(o, a + b)
  {
    forall i, j | 0 <= i < j < |a + b|
      ensures Below(o, KeyOf((a + b)[j]), KeyOf((a + b)[i]))
    {
      if i < |a| <= j {
        assert a[i] in a && b[j - |a|] in b;
      }
    }
  }

  lemma FollowedPrefix(o: Collation, requests: seq<Request>, pages: seq<Page>, n: nat)
    requires Fits(o, requests) && Followed(o, requests, pages) && n <= |pages|
    ensures Fits(o, requests[..n]) && Followed(o, requests[..n], pages[..n])
  {
    forall k | 0 <= k < n
      ensures FollowedAt(o, requests[..n], pages[..n], k)
    {
      assert FollowedAt(o, requests, pages, k);
    }
  }

  lemma {:induction false} ItemsDescend(o: Collation, requests: seq<Request>, pages: seq<Page>)
    requires Fits(o, requests) && Followed(o, requests, pages)
    ensures Descending(o, Items(pages))
  {
    if pages != [] {
      var n := |pages| - 1;
      FollowedPrefix(o, requests, pages, n);
      ItemsDescend(o, requests[..n], pages[..n]);
      FollowedCovers(o, requests, pages, n);
      forall x, y | x in Items(pages[..n]) && y in pages[n].items
        ensures Below(o, KeyOf(y), KeyOf(x))
      {
        ItemsMembers(pages[..n], x);
        var k :| 0 <= k < n && x in pages[..n][k].items;
        PagesDescend(o, requests, pages, k, n, x, y);
      }
      AppendDescends(o, Items(pages[..n]), pages[n].items);
    }
  }

  lemma HeadIsTop(o: Collation, rows: seq<Row>, x: Row)
    requires Descending(o, rows) && x in rows
    ensures x == rows[0] || Below(o, KeyOf(x), KeyOf(rows[0]))
  {
  }

  lemma NotBelowBoth(o: Collation, a: Key, b: Key)
    requires o.Total() && Below(o, a, b)
    ensures !Below(o, b, a)
  {
    assert !o.less(a.id, a.id);
  }

  /** There is one way to write a set of rows in descending order. */
  lemma {:induction false} DescendingUnique(o: Collation, a: seq<Row>, b: seq<Row>)
    requires o.Total() && Descending(o, a) && Descending(o, b)
    requires forall x :: x in a <==> x in b
    ensures a == b
  {
    assert b != [] ==> b[0] in b && b[0] in a;
    if a != [] {
      assert a[0] in b && b != [] && b[0] in a;
      HeadIsTop(o, b, a[0]);
      HeadIsTop(o, a, b[0]);
      if a[0] != b[0] {
        NotBelowBoth(o, KeyOf(a[0]), KeyOf(b[0]));
      }
      TailMembers(o, a, b);
      DescendingUnique(o, a[1..], b[1..]);
    }
  }

  lemma TailMembers(o: Collation, a: seq<Row>, b: seq<Row>)
    requires o.Total() && Descending(o, a) && Descending(o, b) && a != [] && b != [] && a[0] == b[0]
    requires forall x :: x in a <==> x in b
    ensures forall x :: x in a[1..] <==> x in b[1..]
    ensures Descending(o, a[1..]) && Descending(o, b[1..])
  {
    TailIsRest(o, a);
    TailIsRest(o, b);
  }

  lemma TailIsRest(o: Collation, a: seq<Row>)
    requires o.Total() && Descending(o, a) && a != []
    ensures forall x :: x in a[1..] <==> x in a && x != a[0]
    ensures Descending(o, a[1..])
  {
    assert a == [a[0]] + a[1..];
    forall x | x in a[1..]
      ensures x != a[0]
    {
      assert Below(o, KeyOf(x), KeyOf(a[0]));
      NotBelowBoth(o, KeyOf(x), KeyOf(a[0]));
    }
  }

  /**
   * Following `nextCursor` over an unchanged table until it is null returns every visible message exactly
   * once, in (createdAt, id) descending order, whatever the limits.
   */
  lemma {:induction false} UnchangedTableOnce(o: Collation, table: seq<Row>, now: int, requests: seq<Request>,
                                              pages: seq<Page>)
    requires Fits(o, requests) && Followed(o, requests, pages)
    requires pages != [] && pages[|pages| - 1].nextCursor.None?
    requires Unchanged(requests, table, now)
    ensures Items(pages) == Sort(o, Select(o, table, now, None))
  {
    assert requests[0].table == table;
    var sorted := Sort(o, Select(o, table, now, None));
    QueryResult(o, table, now, None);
    ItemsDescend(o, requests, pages);
    forall x
      ensures x in Items(pages) <==> x in sorted
    {
      ItemsMembers(pages, x);
      if x in sorted {
        NothingIsHidden(o, requests, pages, x);
      }
      if OnAPage(pages, |pages|, x) {
        var k :| 0 <= k < |pages| && x in pages[k].items;
        FollowedCovers(o, requests, pages, k);
      }
    }
    DescendingUnique(o, Items(pages), sorted);
  }

  // ---------------------------------------------------------------- the null cursor is reached

  lemma {:induction false} SelectShrinks(o: Collation, table: seq<Row>, now: int, cursor: Option<Key>,
                                         next: Option<Key>, r: Row)
    requires forall x :: x in table && Matches(o, x, now, next) ==> Matches(o, x, now, cursor)
    ensures |Select(o, table, now, next)| <= |Select(o, table, now, cursor)|
    ensures r in table && Matches(o, r, now, cursor) && !Matches(o, r, now, next) ==>
              |Select(o, table, now, next)| < |Select(o, table, now, cursor)|
  {
    if table != [] {
      assert forall x :: x in table[1..] ==> x in table;
      SelectShrinks(o, table[1..], now, cursor, next, r);
    }
  }

  /** A cursor that comes back leaves fewer rows to read than the one that was sent. */
  lemma CursorAdvances(o: Collation, table: seq<Row>, now: int, cursor: Option<Key>, limit: nat)
    requires limit > 0 && o.Total() && UniqueIds(table)
    requires GetPage(o, table, now, cursor, limit).nextCursor.Some?
    ensures |Select(o, table, now, GetPage(o, table, now, cursor, limit).nextCursor)| < |Select(o, table, now, cursor)|
  {
    var page := GetPage(o, table, now, cursor, limit);
    PageCovers(o, table, now, cursor, limit);
    var last := page.items[|page.items| - 1];
    assert last in page.items && !Below(o, KeyOf(last), KeyOf(last));
    forall x | x in table && Matches(o, x, now, page.nextCursor)
      ensures Matches(o, x, now, cursor)
    {
      if cursor.Some? {
        BelowTransitive(o, KeyOf(x), KeyOf(last), cursor.value);
      }
    }
    SelectShrinks(o, table, now, cursor, page.nextCursor, last);
  }

  ghost predicate Unchanged(requests: seq<Request>, table: seq<Row>, now: int) {
    forall k :: 0 <= k < |requests| ==> requests[k].table == table && requests[k].now == now
  }

  lemma {:induction false} RowsLeft(o: Collation, table: seq<Row>, now: int, requests: seq<Request>, pages: seq<Page>,
                                    n: nat)
    requires Fits(o, requests) && Followed(o, requests, pages) && Unchanged(requests, table, now)
    requires n <= |pages| && (n > 0 ==> pages[n - 1].nextCursor.Some?)
    ensures |Select(o, table, now, CursorAt(pages, n))| + n <= |Select(o, table, now, None)|
  {
    if n > 0 {
      assert FollowedAt(o, requests, pages, n - 1) && requests[n - 1].table == table;
      RowsLeft(o, table, now, requests, pages, n - 1);
      CursorAdvances(o, table, now, CursorAt(pages, n - 1), requests[n - 1].limit);
    }
  }

  /**
   * A client that has read more pages of an unchanged table than there are visible messages has seen the null cursor.
   */
  lemma PagesAreBounded(o: Collation, table: seq<Row>, now: int, requests: seq<Request>, pages: seq<Page>)
    requires Fits(o, requests) && Followed(o, requests, pages) && Unchanged(requests, table, now) && pages != []
    ensures |pages| > |Select(o, table, now, None)| ==> pages[|pages| - 1].nextCursor.None?
    ensures |pages| <= |Select(o, table, now, None)| + 1
  {
    var n := |pages| - 1;
    assert FollowedAt(o, requests, pages, n);
    RowsLeft(o, table, now, requests, pages, n);
    if pages[n].nextCursor.Some? {
      RowsLeft(o, table, now, requests, pages, n + 1);
    }
  }

  /** Whatever has been read, and whatever the limits, reading on reaches the null cursor. */
  lemma {:induction false} ReadingEnds(o: Collation, table: seq<Row>, now: int, limits: nat -> nat,
                                       requests: seq<Request>, pages: seq<Page>)
    returns (allRequests: seq<Request>, allPages: seq<Page>)
    requires Fits(o, requests) && Followed(o, requests, pages) && Unchanged(requests, table, now) && UniqueIds(table)
    requires forall k :: limits(k) > 0
    requires pages != [] ==> pages[|pages| - 1].nextCursor.Some?
    ensures requests <= allRequests && pages <= allPages && Unchanged(allRequests, table, now)
    ensures forall k :: |requests| <= k < |allRequests| ==> allRequests[k].limit == limits(k)
    ensures Fits(o, allRequests) && Followed(o, allRequests, allPages)
    ensures allPages != [] && allPages[|allPages| - 1].nextCursor.None?
    decreases |Select(o, table, now, CursorAt(pages, |pages|))|
  {
    var n := |pages|;
    var request := Request(table, now, limits(n));
    var page := Answer(o, request, CursorAt(pages, n));
    allRequests, allPages := requests + [request], pages + [page];
    ReadOneMore(o, requests, pages, request);
    if page.nextCursor.Some? {
      CursorAdvances(o, table, now, CursorAt(pages, n), limits(n));
      allRequests, allPages := ReadingEnds(o, table, now, limits, allRequests, allPages);
    }
  }

  lemma ReadOneMore(o: Collation, requests: seq<Request>, pages: seq<Page>, request: Request)
    requires Fits(o, requests) && Followed(o, requests, pages) && request.limit > 0 && UniqueIds(request.table)
    requires pages != [] ==> pages[|pages| - 1].nextCursor.Some?
    ensures var more := pages + [Answer(o, request, CursorAt(pages, |pages|))];
            Fits(o, requests + [request]) && Followed(o, requests + [request], more)
  {
    var more := pages + [Answer(o, request, CursorAt(pages, |pages|))];
    forall k | 0 <= k < |more|
      ensures FollowedAt(o, requests + [request], more, k)
    {
      assert CursorAt(more, k) == CursorAt(pages, k);
      if k < |pages| {
        assert FollowedAt(o, requests, pages, k);
      }
    }
  }

  // ---------------------------------------------------------------- the cursor as text

  // `toISOString` and `new Date(…)`; an ISO date has no "|".
  datatype IsoDates = IsoDates(render: int -> string, parse: string -> Option<int>)
  {
    ghost predicate Correct() {
      forall t {:trigger render(t)} :: parse(render(t)) == Some(t) && '|' !in render(t) && render(t) != ""
    }
  }

  function RenderCursor(dates: IsoDates, k: Key): string {
    dates.render(k.createdAt) + "|" + k.id
  }

  /** `cursor.indexOf("|")`. */
  function IndexOfBar(s: string): (i: nat)
    requires '|' in s
    ensures i < |s| && s[i] == '|' && '|' !in s[..i]
  {
    if s[0] == '|' then 0 else 1 + IndexOfBar(s[1..])
  }

  /** The cursor of the conversation route, for cursors with a bar: split at the first one. */
  function ParseCursor(dates: IsoDates, cursor: string): Option<Key> {
    if '|' !in cursor then None
    else
      var sep := IndexOfBar(cursor);
      var ts, id := cursor[..sep], cursor[sep + 1..];
      if ts == "" || id == "" || dates.parse(ts).None? then None else Some(Key(dates.parse(ts).value, id))
  }

  /** The cursor of the secret history: the first two of all the pieces between bars. */
  function ParseSecretCursor(dates: IsoDates, cursor: string): Option<Key> {
    var pieces := Split(cursor, '|');
    if |pieces| < 2 || pieces[0] == "" || pieces[1] == "" || dates.parse(pieces[0]).None? then None
    else Some(Key(dates.parse(pieces[0]).value, pieces[1]))
  }

  lemma BarAfter(ts: string, id: string)
    requires '|' !in ts
    ensures '|' in ts + "|" + id && IndexOfBar(ts + "|" + id) == |ts|
  {
    var s := ts + "|" + id;
    assert s[|ts|] == '|';
  }

  /** Reading a cursor back gives the key it was made from, for every id that is not empty. */
  lemma CursorRoundTrip(dates: IsoDates, k: Key)
    requires dates.Correct() && k.id != ""
    ensures ParseCursor(dates, RenderCursor(dates, k)) == Some(k)
  {
    var ts := dates.render(k.createdAt);
    BarAfter(ts, k.id);
    var c := RenderCursor(dates, k);
    assert c[..|ts|] == ts && c[|ts| + 1..] == k.id;
  }

  /** The secret history reads its cursor back exactly when the id has no bar in it, as no UUID has. */
  lemma SecretCursorRoundTripIff(dates: IsoDates, k: Key)
    requires dates.Correct() && k.id != ""
    ensures ParseSecretCursor(dates, RenderCursor(dates, k)) == Some(k) <==> '|' !in k.id
  {
    var ts := dates.render(k.createdAt);
    SplitWord(ts, k.id, '|');
    assert ts + ['|'] + k.id == RenderCursor(dates, k);
    if '|' !in k.id {
      SplitOneWord(k.id, '|');
    } else {
      FirstPieceHasNoBar(k.id);
    }
  }

  lemma {:induction false} FirstPieceHasNoBar(s: string)
    ensures '|' !in Split(s, '|')[0]
  {
    if s != "" {
      FirstPieceHasNoBar(s[1..]);
    }
  }
}
