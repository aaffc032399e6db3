/** Keyset pagination, and a client that follows the cursors while rows come and go. */
module Pagination {
  import opened Outcomes
  import opened Strings

  /** A row's sort value and its unique id. */
  datatype Key = Key(sortValue: int, id: int)

  /** An opaque cursor: the encoded key of a row, or text that does not decode. */
  datatype Cursor = Encoded(key: Key) | Malformed

  function EncodeCursor(key: Key): Cursor {
    Encoded(key)
  }

  /** A missing or malformed cursor means "start from the top". */
  function DecodeCursor(cursor: Option<Cursor>): Option<Key> {
    match cursor
    case Some(Encoded(key)) => Some(key)
    case _ => None
  }

  /** The page size; a requested value that is not an integer is None. */
  function ResolveLimit(requested: Option<int>, defaultLimit: int, maxLimit: int): (limit: int)
    ensures 1 <= defaultLimit <= maxLimit ==> 1 <= limit <= maxLimit
    ensures requested.Some? && 1 <= requested.value <= maxLimit ==> limit == requested.value
    ensures requested.Some? && 1 <= requested.value && maxLimit < requested.value ==> limit == maxLimit
    ensures requested.None? || requested.value < 1 ==> limit == defaultLimit
  {
    if requested.None? || requested.value <= 0 then defaultLimit
    else if requested.value < maxLimit then requested.value
    else maxLimit
  }

  datatype Page = Page(rows: seq<Key>, nextCursor: Option<Cursor>, hasMore: bool, limit: nat)

  function BuildPageMeta(rows: seq<Key>, limit: nat): Page {
    var hasMore := |rows| > limit;
    var pageRows := if hasMore then rows[..limit] else rows;
    var nextCursor := if hasMore && pageRows != [] then Some(EncodeCursor(Last(pageRows))) else None;
    Page(pageRows, nextCursor, hasMore, limit)
  }

  // ---- The query ----

  /** `ORDER BY sortValue DESC, id DESC` */
  predicate Precedes(a: Key, b: Key) {
    a.sortValue > b.sortValue || (a.sortValue == b.sortValue && a.id > b.id)
  }

  /** A table as its index lists it; unique ids make the order strict. */
  ghost predicate InOrder(keys: seq<Key>) {
    forall i, j :: 0 <= i < j < |keys| ==> Precedes(keys[i], keys[j])
  }

  /** `WHERE (sortValue, id) < (?, ?)`; without a cursor, every row. */
  function PastCursor(table: seq<Key>, cursor: Option<Key>): seq<Key> {
    if table == [] then []
    else
      PastCursor(DropLast(table), cursor)
      + if cursor.None? || Precedes(cursor.value, Last(table)) then [Last(table)] else []
  }

  /** The page a repository returns: at most `limit + 1` rows past the cursor are read. */
  function FetchPage(table: seq<Key>, cursor: Option<Cursor>, limit: nat): Page {
    var past := PastCursor(table, DecodeCursor(cursor));
    BuildPageMeta(if |past| > limit + 1 then past[..limit + 1] else past, limit)
  }

  /** A lower sort value, or the same one and a lower id. */
  predicate IsLower(k: Key, than: Key) {
    k.sortValue < than.sortValue || (k.sortValue == than.sortValue && k.id < than.id)
  }

  /** The rows after the cursor, in order: those with a lower key. */
  lemma {:induction false} PastCursorMeaning(table: seq<Key>, cursor: Option<Key>)
    requires InOrder(table)
    ensures InOrder(PastCursor(table, cursor))
    ensures forall k :: k in PastCursor(table, cursor) <==> k in table && (cursor.None? || Precedes(cursor.value, k))
    ensures forall k :: k in PastCursor(table, cursor) <==> k in table && (cursor.None? || IsLower(k, cursor.value))
  {
    if table != [] {
      var rest := PastCursor(DropLast(table), cursor);
      PastCursorMeaning(DropLast(table), cursor);
      assert table == DropLast(table) + [Last(table)];
      forall i | 0 <= i < |rest|
        ensures Precedes(rest[i], Last(table))
      {
        assert rest[i] in DropLast(table);
        var j :| 0 <= j < |table| - 1 && table[j] == rest[i];
      }
    }
  }

  lemma NoMembersNoRows(keys: seq<Key>)
    ensures (forall k :: k !in keys) ==> keys == []
  {
    if keys != [] {
      assert keys[0] in keys;
    }
  }

  /** Past the last row there is none. */
  lemma PastLastRow(table: seq<Key>)
    requires InOrder(table) && table != []
    ensures PastCursor(table, Some(Last(table))) == []
  {
    var cursor := Some(Last(table));
    PastCursorMeaning(table, cursor);
    hide PastCursor;
    forall k <- table
      ensures !Precedes(Last(table), k)
    {
      var j :| 0 <= j < |table| && table[j] == k;
    }
    NoMembersNoRows(PastCursor(table, cursor));
  }

  lemma PastCursorStep(table: seq<Key>, cursor: Key)
    requires table != []
    ensures PastCursor(table, Some(cursor))
         == PastCursor(DropLast(table), Some(cursor)) + if Precedes(cursor, Last(table)) then [Last(table)] else []
  {
  }

  /** Past the m-th row of a table lie exactly the rows after it. */
  lemma {:induction false} PastRow(table: seq<Key>, m: nat)
    requires InOrder(table) && 0 < m <= |table|
    ensures PastCursor(table, Some(table[m - 1])) == table[m..]
  {
    if m == |table| {
      PastLastRow(table);
    } else {
      PastRow(DropLast(table), m);
      assert Precedes(table[m - 1], Last(table));
      PastCursorStep(table, table[m - 1]);
      hide PastCursor, InOrder, Precedes;
      assert table[m..] == DropLast(table)[m..] + [Last(table)];
    }
  }

  lemma {:induction false} PastNothing(table: seq<Key>)
    ensures PastCursor(table, None) == table
  {
    if table != [] {
      assert PastCursor(table, None) == PastCursor(DropLast(table), None) + [Last(table)];
      InitAndLast(table);
      hide PastCursor, DropLast, Last;
      PastNothing(DropLast(table));
    }
  }

  /**
   * What a page is: the next rows past the cursor, a cursor exactly when more remain, and nothing skipped in between.
   * Without a readable cursor it starts from the top.
   */
  lemma PageMeaning(table: seq<Key>, cursor: Option<Cursor>, limit: nat)
    requires InOrder(table) && limit >= 1
    ensures var page, past := FetchPage(table, cursor, limit), PastCursor(table, DecodeCursor(cursor));
      && (cursor in {None, Some(Malformed)} ==> past == table)
      && (forall key :: cursor == Some(Encoded(key)) ==> past == PastCursor(table, Some(key)))
      && page.rows == (if |past| > limit then past[..limit] else past)
      && page.hasMore == (|past| > limit) && page.limit == limit
      && (page.nextCursor.Some? <==> page.hasMore)
      && (page.hasMore ==> page.nextCursor == Some(Encoded(Last(page.rows))))
  {
    var past := PastCursor(table, DecodeCursor(cursor));
    PastNothing(table);
    hide PastCursor;
    if |past| > limit {
      assert (if |past| > limit + 1 then past[..limit + 1] else past)[..limit] == past[..limit];
    }
  }

  /** Rows past the cursor that do not come after the last row of the page are on the page. */
  lemma NothingSkipped(past: seq<Key>, limit: nat, k: Key)
    requires InOrder(past) && 1 <= limit < |past|
    requires k in past && !Precedes(past[limit - 1], k)
    ensures k in past[..limit]
  {
    var i :| 0 <= i < |past| && past[i] == k;
    assert i < limit;
    assert past[..limit][i] == k;
  }

  // ---- The client's walk ----

  /** What a walk has delivered, the cursor it sends next, and whether it is over. */
  datatype Progress = Progress(delivered: seq<Key>, cursor: Option<Cursor>, finished: bool)

  function NextProgress(table: seq<Key>, progress: Progress, limit: nat): Progress {
    if progress.finished then progress
    else
      var page := FetchPage(table, progress.cursor, limit);
      Progress(progress.delivered + page.rows, page.nextCursor, page.nextCursor.None?)
  }

  /** The walk after `n` fetches; `tables[i]` is the table as the i-th one finds it. */
  function Walk(tables: seq<seq<Key>>, limit: nat, n: nat): Progress
    requires n <= |tables|
  {
    if n == 0 then Progress([], None, false) else NextProgress(tables[n - 1], Walk(tables, limit, n - 1), limit)
  }

  ghost predicate AllInOrder(tables: seq<seq<Key>>) {
    forall i :: 0 <= i < |tables| ==> InOrder(tables[i])
  }

  /** What a fetched row is. */
  lemma PageRows(table: seq<Key>, cursor: Option<Cursor>, limit: nat)
    requires limit >= 1 && InOrder(table)
    ensures var page := FetchPage(table, cursor, limit);
      && InOrder(page.rows) && (page.hasMore ==> page.rows != [])
      && forall k <- page.rows :: k in table && (DecodeCursor(cursor).Some? ==> Precedes(DecodeCursor(cursor).value, k))
  {
    hide PastCursor, FetchPage, Precedes;
    PastCursorMeaning(table, DecodeCursor(cursor));
    PageMeaning(table, cursor, limit);
    forall k <- FetchPage(table, cursor, limit).rows
      ensures k in PastCursor(table, DecodeCursor(cursor))
    {
    }
  }

  /** A page continues what was delivered before it: the rows stay in order, so none comes twice. */
  lemma PageContinues(delivered: seq<Key>, rows: seq<Key>)
    requires InOrder(delivered) && InOrder(rows)
    requires delivered != [] ==> forall k <- rows :: Precedes(Last(delivered), k)
    ensures InOrder(delivered + rows)
  {
    forall i, j | 0 <= i < |delivered| && 0 <= j < |rows|
      ensures Precedes(delivered[i], rows[j])
    {
      assert rows[j] in rows;
      assert i < |delivered| - 1 ==> Precedes(delivered[i], Last(delivered));
    }
  }

  lemma WalkStart(tables: seq<seq<Key>>, limit: nat)
    ensures Walk(tables, limit, 0) == Progress([], None, false) && InOrder([])
  {
  }

  /** The cursor of an unfinished walk is its last delivered row, and only a finished one has none after a fetch. */
  lemma {:induction false} WalkIsOrdered(tables: seq<seq<Key>>, limit: nat, n: nat)
    requires limit >= 1 && AllInOrder(tables) && n <= |tables|
    ensures var progress := Walk(tables, limit, n);
      && InOrder(progress.delivered)
      && (n == 0 ==> progress == Progress([], None, false))
      && (n > 0 && !progress.finished ==>
            progress.delivered != [] && progress.cursor == Some(Encoded(Last(progress.delivered))))
  {
    WalkStart(tables, limit);
    hide FetchPage, PastCursor, Precedes, InOrder;
    if n > 0 {
      var before, table := Walk(tables, limit, n - 1), tables[n - 1];
      WalkIsOrdered(tables, limit, n - 1);
      if !before.finished {
        PageRows(table, before.cursor, limit);
        PageMeaning(table, before.cursor, limit);
        var rows := FetchPage(table, before.cursor, limit).rows;
        PageContinues(before.delivered, rows);
        assert Walk(tables, limit, n).delivered == before.delivered + rows;
      }
    }
  }

  /** The rows a walk delivers after its m-th fetch come from later tables and lie past the m-th cursor. */
  lemma {:induction false} LaterRows(tables: seq<seq<Key>>, limit: nat, m: nat, n: nat, k: Key)
    requires limit >= 1 && AllInOrder(tables) && m <= n <= |tables|
    ensures k in Walk(tables, limit, m).delivered ==> k in Walk(tables, limit, n).delivered
    ensures k in Walk(tables, limit, n).delivered && k !in Walk(tables, limit, m).delivered ==>
      && (exists j :: m <= j < n && k in tables[j])
      && var cursor := DecodeCursor(Walk(tables, limit, m).cursor);
      !Walk(tables, limit, m).finished && (cursor.Some? ==> Precedes(cursor.value, k))
    decreases n
  {
    hide FetchPage, PastCursor, InOrder;
    if m < n {
      var before := Walk(tables, limit, n - 1);
      LaterRows(tables, limit, m, n - 1, k);
      WalkIsOrdered(tables, limit, m);
      WalkIsOrdered(tables, limit, n - 1);
      PageRows(tables[n - 1], before.cursor, limit);
      if k in Walk(tables, limit, n).delivered && k !in before.delivered {
        assert k in tables[n - 1];
        CursorsAdvance(tables, limit, m, n - 1);
      }
    }
  }

  /** A walk that is still going was going before, and its cursor has not moved back. */
  lemma {:induction false} CursorsAdvance(tables: seq<seq<Key>>, limit: nat, m: nat, n: nat)
    requires limit >= 1 && AllInOrder(tables) && m <= n <= |tables| && !Walk(tables, limit, n).finished
    ensures !Walk(tables, limit, m).finished
    ensures var earlier := DecodeCursor(Walk(tables, limit, m).cursor);
      var later := DecodeCursor(Walk(tables, limit, n).cursor);
      earlier.Some? ==> later.Some? && (earlier == later || Precedes(earlier.value, later.value))
    decreases n
  {
    hide FetchPage, PastCursor, InOrder;
    if m < n {
      var before := Walk(tables, limit, n - 1);
      CursorsAdvance(tables, limit, m, n - 1);
      PageRows(tables[n - 1], before.cursor, limit);
      PageMeaning(tables[n - 1], before.cursor, limit);
      var page := FetchPage(tables[n - 1], before.cursor, limit);
      assert Last(page.rows) in page.rows;
    }
  }

  /**
   * A row found by every fetch from the `from`-th on, past the cursor then, is delivered once the walk has passed it.
   */
  lemma {:induction false} PassedRowIsDelivered(tables: seq<seq<Key>>, limit: nat, from: nat, n: nat, k: Key)
    requires limit >= 1 && AllInOrder(tables) && from <= n <= |tables|
    requires forall j :: from <= j < n ==> k in tables[j]
    requires !Walk(tables, limit, from).finished
    requires DecodeCursor(Walk(tables, limit, from).cursor).Some?
         ==> Precedes(DecodeCursor(Walk(tables, limit, from).cursor).value, k)
    ensures var progress := Walk(tables, limit, n);
      progress.finished || (DecodeCursor(progress.cursor).Some? && !Precedes(DecodeCursor(progress.cursor).value, k))
      ==> k in progress.delivered
    decreases n
  {
    hide FetchPage, PastCursor, InOrder, Precedes;
    if from < n {
      var before, table := Walk(tables, limit, n - 1), tables[n - 1];
      PassedRowIsDelivered(tables, limit, from, n - 1, k);
      if !before.finished {
        var past := PastCursor(table, DecodeCursor(before.cursor));
        PastCursorMeaning(table, DecodeCursor(before.cursor));
        PageMeaning(table, before.cursor, limit);
        if k in past && |past| > limit {
          PageEndsBefore(past, limit, k);
        }
      }
    }
  }

  lemma PageEndsBefore(past: seq<Key>, limit: nat, k: Key)
    requires InOrder(past) && 1 <= limit < |past| && k in past
    ensures k in past[..limit] || Precedes(Last(past[..limit]), k)
  {
    if !Precedes(past[limit - 1], k) {
      NothingSkipped(past, limit, k);
    }
  }

  /** `k` is in every one of the first `n` tables. */
  ghost predicate PresentThroughout(tables: seq<seq<Key>>, n: nat, k: Key)
    requires n <= |tables|
  {
    forall i :: 0 <= i < n ==> k in tables[i]
  }

  ghost predicate Unchanged(tables: seq<seq<Key>>, n: nat)
    requires n <= |tables|
  {
    forall i :: 0 <= i < n ==> tables[i] == tables[0]
  }

  /** The page from row `m` of a table extends its first m rows to its first m + limit, or to all of it. */
  lemma PageFromRow(table: seq<Key>, m: nat, cursor: Option<Cursor>, limit: nat)
    requires limit >= 1 && InOrder(table) && m <= |table|
    requires cursor == if m == 0 then None else Some(Encoded(table[m - 1]))
    ensures var page := FetchPage(table, cursor, limit);
      && page.nextCursor.Some? == (m + limit < |table|)
      && table[..m] + page.rows == if m + limit < |table| then table[..m + limit] else table
  {
    hide FetchPage, PastCursor, InOrder;
    PageMeaning(table, cursor, limit);
    if m == 0 {
      PastNothing(table);
    } else {
      PastRow(table, m);
    }
    assert table == table[..m] + table[m..];
  }

  /** The walk stands at row `m` of a table, or has delivered all of it. */
  ghost predicate AtRow(table: seq<Key>, progress: Progress, m: int) {
    if progress.finished then progress.delivered == table && |table| <= m
    else
      && 0 <= m <= |table| && progress.delivered == table[..m]
      && progress.cursor == if m == 0 then None else Some(Encoded(table[m - 1]))
  }

  lemma NextRow(table: seq<Key>, progress: Progress, m: int, limit: nat)
    requires limit >= 1 && InOrder(table) && AtRow(table, progress, m)
    ensures var next := NextProgress(table, progress, limit);
      AtRow(table, next, m + limit) && (next.finished || m + limit < |table|)
  {
    hide FetchPage, InOrder;
    if !progress.finished {
      PageFromRow(table, m, progress.cursor, limit);
      PageMeaning(table, progress.cursor, limit);
      LastOfConcat(table[..m], FetchPage(table, progress.cursor, limit).rows);
    }
  }

  lemma LastOfConcat(a: seq<Key>, b: seq<Key>)
    ensures b != [] ==> Last(a + b) == Last(b)
  {
  }

  /** On a table that does not change, the walk is at row `n * limit`, or over. */
  lemma {:induction false} WalkOfFixedTable(tables: seq<seq<Key>>, limit: nat, n: nat)
    requires limit >= 1 && AllInOrder(tables) && n <= |tables| && Unchanged(tables, n)
    ensures n > 0 ==> var table, progress := tables[0], Walk(tables, limit, n);
      AtRow(table, progress, n * limit) && (progress.finished || n * limit < |table|)
  {
    hide InOrder, NextProgress;
    WalkStart(tables, limit);
    if n > 0 {
      WalkOfFixedTable(tables, limit, n - 1);
      hide AtRow;
      assert tables[n - 1] == tables[0];
      assert AtRow(tables[0], Walk(tables, limit, n - 1), (n - 1) * limit) by {
        if n == 1 {
          StartOfTable(tables[0]);
        }
      }
      NextRow(tables[0], Walk(tables, limit, n - 1), (n - 1) * limit, limit);
      assert (n - 1) * limit + limit == n * limit;
    }
  }

  lemma StartOfTable(table: seq<Key>)
    ensures AtRow(table, Progress([], None, false), 0)
  {
  }

  /** Follow `next_cursor` until there is none. */
  method WalkPages(tables: seq<seq<Key>>, limit: nat) returns (delivered: seq<Key>, fetches: nat, finished: bool)
    requires limit >= 1 && AllInOrder(tables)
    ensures fetches <= |tables| && (!finished ==> fetches == |tables|)
    ensures delivered == Walk(tables, limit, fetches).delivered && finished == Walk(tables, limit, fetches).finished
    ensures forall n :: 0 <= n < fetches ==> !Walk(tables, limit, n).finished
    ensures InOrder(delivered) && forall i, j :: 0 <= i < j < |delivered| ==> delivered[i] != delivered[j]
    ensures forall k <- delivered :: exists i :: 0 <= i < fetches && k in tables[i]
    ensures finished ==> fetches > 0 && forall k :: PresentThroughout(tables, fetches, k) ==> k in delivered
    ensures fetches > 0 && Unchanged(tables, fetches) ==>
      (if finished then delivered == tables[0] && |tables[0]| <= fetches * limit
       else fetches * limit < |tables[0]| && delivered == tables[0][..fetches * limit])
  {
    delivered, fetches, finished := [], 0, false;
    hide FetchPage, PastCursor;
    var cursor: Option<Cursor> := None;
    while fetches < |tables| && !finished
      invariant fetches <= |tables|
      invariant Walk(tables, limit, fetches) == Progress(delivered, cursor, finished)
      invariant forall n :: 0 <= n < fetches ==> !Walk(tables, limit, n).finished
      decreases |tables| - fetches
    {
      var page := FetchPage(tables[fetches], cursor, limit);
      delivered := delivered + page.rows;
      fetches := fetches + 1;
      cursor := page.nextCursor;
      finished := cursor.None?;
    }
    WalkIsOrdered(tables, limit, fetches);
    forall k | k in delivered
      ensures exists i :: 0 <= i < fetches && k in tables[i]
    {
      LaterRows(tables, limit, 0, fetches, k);
    }
    forall k | finished && PresentThroughout(tables, fetches, k)
      ensures k in delivered
    {
      PassedRowIsDelivered(tables, limit, 0, fetches, k);
    }
    if fetches > 0 && Unchanged(tables, fetches) {
      WalkOfFixedTable(tables, limit, fetches);
    }
  }

  // ---- Rows whose sort value changes during the walk ----

  ghost predicate UniqueIds(table: seq<Key>) {
    forall a <- table, b <- table :: a.id == b.id ==> a == b
  }

  /** A row with key `before` for the fetches up to the i-th and key `after` from then on. */
  ghost predicate MovesAfter(tables: seq<seq<Key>>, n: nat, i: nat, before: Key, after: Key)
    requires i + 1 < n <= |tables|
  {
    && before.id == after.id && before != after
    && (forall j :: 0 <= j <= i ==> before in tables[j])
    && (forall j :: i < j < n ==> after in tables[j])
  }

  /** The last row of the page the i-th fetch returned, with more to come. */
  function LastRowOf(tables: seq<seq<Key>>, limit: nat, i: nat): Key
    requires limit >= 1 && i < |tables| && !Walk(tables, limit, i + 1).finished
  {
    var page := FetchPage(tables[i], Walk(tables, limit, i).cursor, limit);
    assert Walk(tables, limit, i + 1) == NextProgress(tables[i], Walk(tables, limit, i), limit);
    Last(page.rows)
  }

  lemma LastRowIsCursor(tables: seq<seq<Key>>, limit: nat, i: nat)
    requires limit >= 1 && AllInOrder(tables) && i < |tables| && !Walk(tables, limit, i + 1).finished
    ensures Walk(tables, limit, i + 1).cursor == Some(Encoded(LastRowOf(tables, limit, i)))
    ensures Walk(tables, limit, i + 1).delivered != []
    ensures Last(Walk(tables, limit, i + 1).delivered) == LastRowOf(tables, limit, i)
  {
    hide FetchPage, PastCursor;
    WalkIsOrdered(tables, limit, i + 1);
    PageMeaning(tables[i], Walk(tables, limit, i).cursor, limit);
  }

  /** The old key is delivered exactly when the walk had reached it, the new one exactly when the walk had not. */
  lemma MovedRowKeys(tables: seq<seq<Key>>, limit: nat, n: nat, i: nat, before: Key, after: Key)
    requires limit >= 1 && i + 1 < n <= |tables| && AllInOrder(tables)
    requires forall j :: 0 <= j < n ==> UniqueIds(tables[j])
    requires MovesAfter(tables, n, i, before, after)
    requires !Walk(tables, limit, i + 1).finished && Walk(tables, limit, n).finished
    ensures var last, delivered := LastRowOf(tables, limit, i), Walk(tables, limit, n).delivered;
      && (before in delivered <==> !Precedes(last, before))
      && (after in delivered <==> Precedes(last, after))
      && forall k <- delivered :: k.id == before.id ==> k == before || k == after
  {
    hide Walk, LastRowOf, FetchPage, PastCursor;
    var last, reached := LastRowOf(tables, limit, i), Walk(tables, limit, i + 1).delivered;
    LastRowIsCursor(tables, limit, i);
    WalkIsOrdered(tables, limit, i + 1);
    WalkStart(tables, limit);
    PassedRowIsDelivered(tables, limit, 0, i + 1, before);
    LaterRows(tables, limit, 0, i + 1, before);
    LaterRows(tables, limit, i + 1, n, before);
    LaterRows(tables, limit, 0, i + 1, after);
    LaterRows(tables, limit, i + 1, n, after);
    if Precedes(last, after) {
      PassedRowIsDelivered(tables, limit, i + 1, n, after);
    }
    assert before in reached ==> !Precedes(last, before);
    forall k | k in Walk(tables, limit, n).delivered && k.id == before.id
      ensures k == before || k == after
    {
      LaterRows(tables, limit, 0, n, k);
    }
  }

  /**
   * A row that moves between two fetches is missed exactly when it jumps from ahead of the walk to behind it,
   * and comes twice exactly when it jumps the other way.
   */
  lemma WhenMovedRowIsMissed(tables: seq<seq<Key>>, limit: nat, n: nat, i: nat, before: Key, after: Key)
    requires limit >= 1 && i + 1 < n <= |tables| && AllInOrder(tables)
    requires forall j :: 0 <= j < n ==> UniqueIds(tables[j])
    requires MovesAfter(tables, n, i, before, after)
    requires !Walk(tables, limit, i + 1).finished && Walk(tables, limit, n).finished
    ensures var last, delivered := LastRowOf(tables, limit, i), Walk(tables, limit, n).delivered;
      && ((forall k <- delivered :: k.id != before.id) <==> Precedes(last, before) && !Precedes(last, after))
      && ((exists a <- delivered, b <- delivered :: a != b && a.id == b.id == before.id)
          <==> !Precedes(last, before) && Precedes(last, after))
  {
    hide Walk, LastRowOf, Precedes, InOrder, UniqueIds;
    MovedRowKeys(tables, limit, n, i, before, after);
  }

  /** A row whose sort value is touched between fetches, present throughout and never delivered. */
  lemma TouchedRowIsMissed()
    ensures var first, second := [Key(5, 1), Key(4, 2)], [Key(6, 2), Key(5, 1)];
      && InOrder(first) && InOrder(second)
      && var one := FetchPage(first, None, 1);
      && one.rows == [Key(5, 1)] && one.hasMore
      && var two := FetchPage(second, one.nextCursor, 1);
      && two.rows == [] && !two.hasMore
  {
    hide PastCursor, FetchPage;
    var first, second := [Key(5, 1), Key(4, 2)], [Key(6, 2), Key(5, 1)];
    PastNothing(first);
    PageMeaning(first, None, 1);
    PastRow(second, 2);
    PageMeaning(second, Some(Encoded(Key(5, 1))), 1);
  }
}
