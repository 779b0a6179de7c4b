/** The Tenor engine's effect on the tenor_result table, stated on table
    values: the status transition, the page insertion, the clean-up DELETE,
    and the two transactions built from them. The class in tenor_search.dfy
    performs these step by step and is proved to agree with them. */
module Engine {
  import opened Wrappers
  import opened Errors
  import opened Image
  import opened Schema

  /** Tenor.TENOR_LOCALE and Tenor.LIMIT. */
  const TENOR_LOCALE: string := "en_GB"
  const LIMIT: nat := 5

  /** The parameters of the upstream search request. */
  datatype SearchQuery = SearchQuery(
    key: string,
    q: string,
    locale: string,
    limit: nat,
    mediaFilter: string,
    arRange: string,
    pos: Option<string>)

  /** The upstream answer: an ok response carries the `results` list and the
      `next` cursor (JSON null is None); anything else is a status code. */
  datatype Upstream = Page(results: seq<GifObject>, next: Option<string>) | HttpError(statusCode: int)

  /** The search request sent for a request's search text and a cursor. */
  function SearchFor(apiKey: string, searchString: string, pos: Option<string>): SearchQuery {
    SearchQuery(apiKey, searchString, TENOR_LOCALE, LIMIT, "default", "all", pos)
  }

  predicate InStatus(x: ResultRow, rid: nat, s: ResultStatus) {
    x.requestId == rid && x.status == s
  }

  /** How far a row has moved through FETCHED -> SELECTING -> USED, counted
      from the end: rows of a request are kept in this order by position. */
  function Rank(s: ResultStatus): nat {
    match s
    case Used => 0
    case Selecting => 1
    case Fetched => 2
  }

  /** A status stays or takes one step of FETCHED -> SELECTING -> USED. */
  predicate Forward(a: ResultStatus, b: ResultStatus) {
    a == b || (a == Fetched && b == ResultStatus.Selecting) || (a == ResultStatus.Selecting && b == Used)
  }

  ghost predicate IsLowest(rows: seq<ResultRow>, rid: nat, s: ResultStatus, k: nat) {
    && k < |rows|
    && InStatus(rows[k], rid, s)
    && forall i | 0 <= i < |rows| && InStatus(rows[i], rid, s) :: rows[k].position <= rows[i].position
  }

  /** SELECT tr.id ... WHERE block_uid = ? AND tr.status = ? ORDER BY position
      ASC LIMIT 1: the index of the request's lowest-position row in status
      `s`, or None when it has none. */
  function Lowest(rows: seq<ResultRow>, rid: nat, s: ResultStatus): (r: Option<nat>)
    ensures r.None? <==> forall i | 0 <= i < |rows| :: !InStatus(rows[i], rid, s)
    ensures r.Some? ==> IsLowest(rows, rid, s, r.value)
  {
    if rows == [] then None
    else
      var rest := Lowest(rows[1..], rid, s);
      if !InStatus(rows[0], rid, s) then
        (if rest.Some? then Some(rest.value + 1) else None)
      else if rest.Some? && rows[rest.value + 1].position < rows[0].position then
        Some(rest.value + 1)
      else
        Some(0)
  }

  /** The table after a state transition and the row it returns. */
  datatype Transition = Transition(rows: seq<ResultRow>, row: Option<ResultRow>)

  /** __record_state_transition: the lowest-position row of the request in
      status `from` is set to `to` and returned; with no such row the table is
      left as it is and None is returned. */
  function Promote(rows: seq<ResultRow>, rid: nat, from: ResultStatus, to: ResultStatus): (r: Transition)
    ensures |r.rows| == |rows|
    ensures r.row.None? ==> r.rows == rows
    ensures r.row.Some? ==> r.row.value.requestId == rid && r.row.value.status == to
  {
    match Lowest(rows, rid, from)
    case None => Transition(rows, None)
    case Some(k) => Transition(rows[k := rows[k].(status := to)], Some(rows[k].(status := to)))
  }

  /** SELECT MAX(position) over the request's rows: NULL (None) when it has
      none. */
  function MaxOf(rows: seq<ResultRow>, rid: nat): (r: Option<int>)
    ensures r.None? <==> forall i | 0 <= i < |rows| :: rows[i].requestId != rid
    ensures r.Some? ==> HasPosition(rows, rid, r.value)
    ensures r.Some? ==> forall i | 0 <= i < |rows| && rows[i].requestId == rid :: rows[i].position <= r.value
    decreases |rows|
  {
    if rows == [] then None
    else
      var m := MaxOf(rows[..|rows| - 1], rid);
      var x := rows[|rows| - 1];
      if x.requestId != rid then m
      else if m.None? || m.value < x.position then Some(x.position)
      else m
  }

  /** COALESCE(MAX(position), 0). */
  function MaxPosition(rows: seq<ResultRow>, rid: nat): int {
    match MaxOf(rows, rid)
    case None => 0
    case Some(m) => m
  }

  /** Inserting a row of the request one above COALESCE(MAX(position), 0)
      makes it the new maximum. */
  lemma MaxPositionAppend(rows: seq<ResultRow>, rid: nat, x: ResultRow)
    requires x.requestId == rid && x.position == MaxPosition(rows, rid) + 1
    ensures MaxPosition(rows + [x], rid) == x.position
  {
  }

  /** The rows __query_tenor inserts for one page, in page order: ids from
      `firstId`, positions from `base + 1`, all FETCHED, and the page cursor
      on the last row only. */
  function PageRows(rid: nat, firstId: nat, base: int, objs: seq<GifObject>, next: Option<string>): (r: seq<ResultRow>)
    ensures |r| == |objs|
    decreases |objs|
  {
    if objs == [] then []
    else
      [ResultRow(firstId, rid, base + 1, objs[0], Fetched, if |objs| == 1 then next else None)]
      + PageRows(rid, firstId + 1, base + 1, objs[1..], next)
  }

  /** The row a page puts at offset `i`. */
  lemma {:induction false} PageRowsAt(rid: nat, firstId: nat, base: int, objs: seq<GifObject>, next: Option<string>, i: nat)
    requires i < |objs|
    ensures PageRows(rid, firstId, base, objs, next)[i]
         == ResultRow(firstId + i, rid, base + 1 + i, objs[i], Fetched, if i + 1 == |objs| then next else None)
    decreases |objs|
  {
    if i > 0 {
      PageRowsAt(rid, firstId + 1, base + 1, objs[1..], next, i - 1);
    }
  }

  /** DELETE FROM tenor_result WHERE (the request's) status = 'FETCHED'. */
  function WithoutFetched(rows: seq<ResultRow>, rid: nat): (r: seq<ResultRow>)
    ensures forall x :: x in r <==> x in rows && !InStatus(x, rid, Fetched)
    ensures IdsIncreasing(rows) ==> IdsIncreasing(r)
  {
    if rows == [] then []
    else
      var rest := WithoutFetched(rows[1..], rid);
      assert forall x | x in rest :: x in rows[1..];
      assert IdsIncreasing(rows) ==> forall x | x in rows[1..] :: rows[0].id < x.id;
      if InStatus(rows[0], rid, Fetched) then rest else [rows[0]] + rest
  }

  ghost predicate HasPosition(rows: seq<ResultRow>, rid: nat, p: int) {
    exists j | 0 <= j < |rows| :: rows[j].requestId == rid && rows[j].position == p
  }

  /** The positions of every request are 1, 2, ..., n without gaps. */
  ghost predicate Gapless(rows: seq<ResultRow>) {
    forall i | 0 <= i < |rows| ::
      && 1 <= rows[i].position
      && (1 < rows[i].position ==> HasPosition(rows, rows[i].requestId, rows[i].position - 1))
  }

  /** Within a request, USED rows come first by position, then SELECTING, then
      FETCHED. */
  ghost predicate StatusOrdered(rows: seq<ResultRow>) {
    forall i, j | 0 <= i < |rows| && 0 <= j < |rows|
      && rows[i].requestId == rows[j].requestId && rows[i].position < rows[j].position ::
      Rank(rows[i].status) <= Rank(rows[j].status)
  }

  /** At most one row per request is SELECTING: the one being shown. */
  ghost predicate AtMostOneSelecting(rows: seq<ResultRow>) {
    forall i, j | 0 <= i < |rows| && 0 <= j < |rows|
      && InStatus(rows[i], rows[j].requestId, ResultStatus.Selecting)
      && InStatus(rows[j], rows[i].requestId, ResultStatus.Selecting) ::
      i == j
  }

  /** The shape every request's queue keeps under the engine's operations. */
  ghost predicate WellFormed(rows: seq<ResultRow>) {
    Gapless(rows) && StatusOrdered(rows) && AtMostOneSelecting(rows)
  }

  /** Two tables that differ at most in the status of their rows. */
  ghost predicate SameShape(rows: seq<ResultRow>, rows': seq<ResultRow>) {
    |rows'| == |rows| && forall i | 0 <= i < |rows| :: rows'[i] == rows[i].(status := rows'[i].status)
  }

  /** A change of statuses alone keeps the schema constraints and the absence
      of gaps. */
  lemma SameShapeKeepsValid(rows: seq<ResultRow>, rows': seq<ResultRow>, ids: set<nat>, nextId: nat)
    requires SameShape(rows, rows')
    ensures ResultsValid(rows, ids, nextId) ==> ResultsValid(rows', ids, nextId)
    ensures Gapless(rows) ==> Gapless(rows')
  {
  }

  /** A transition only changes the status of the row it picks. */
  lemma PromoteKeepsShape(rows: seq<ResultRow>, rid: nat, from: ResultStatus, to: ResultStatus)
    ensures SameShape(rows, Promote(rows, rid, from, to).rows)
    ensures forall i | 0 <= i < |rows| ::
      Promote(rows, rid, from, to).rows[i].status == rows[i].status
      || (InStatus(rows[i], rid, from) && Promote(rows, rid, from, to).rows[i].status == to)
    ensures var k := Lowest(rows, rid, from);
      forall i | 0 <= i < |rows| && (k.None? || i != k.value) :: Promote(rows, rid, from, to).rows[i] == rows[i]
  {
  }

  /** A transition returns nothing exactly when the request has no row in
      the old status, and otherwise returns a lowest such row, now in the new
      status, as it stands in the table. */
  lemma PromotePicksLowest(rows: seq<ResultRow>, rid: nat, from: ResultStatus, to: ResultStatus)
    ensures var t := Promote(rows, rid, from, to);
      && (t.row.None? <==> forall i | 0 <= i < |rows| :: !InStatus(rows[i], rid, from))
      && (t.row.Some? ==> exists k: nat ::
            IsLowest(rows, rid, from, k) && t.row.value == rows[k].(status := to) && t.rows[k] == t.row.value)
  {
  }

  /** Moving the shown row to USED keeps the queue ordered and leaves the
      request with no SELECTING row. */
  lemma PromoteToUsed(rows: seq<ResultRow>, rid: nat)
    requires StatusOrdered(rows) && AtMostOneSelecting(rows)
    ensures StatusOrdered(Promote(rows, rid, ResultStatus.Selecting, Used).rows)
    ensures AtMostOneSelecting(Promote(rows, rid, ResultStatus.Selecting, Used).rows)
    ensures forall i | 0 <= i < |rows| :: !InStatus(Promote(rows, rid, ResultStatus.Selecting, Used).rows[i], rid, ResultStatus.Selecting)
  {
  }

  /** Showing the lowest FETCHED row of a request with none shown keeps the
      queue ordered and makes that row the only SELECTING one: everything of
      the request below it is USED and everything above it FETCHED. */
  lemma PromoteToSelecting(rows: seq<ResultRow>, rid: nat)
    requires StatusOrdered(rows) && AtMostOneSelecting(rows)
    requires forall i | 0 <= i < |rows| :: !InStatus(rows[i], rid, ResultStatus.Selecting)
    ensures var t := Promote(rows, rid, Fetched, ResultStatus.Selecting);
      && StatusOrdered(t.rows) && AtMostOneSelecting(t.rows)
      && (t.row.Some? ==> forall i | 0 <= i < |t.rows| && t.rows[i].requestId == rid ::
            && (t.rows[i].position < t.row.value.position ==> t.rows[i].status == Used)
            && (t.row.value.position < t.rows[i].position ==> t.rows[i].status == Fetched))
  {
  }

  /** Every position of the request is at most COALESCE(MAX(position), 0),
      and, without gaps, that maximum is 0 or a position the request holds. */
  lemma MaxPositionBounds(rows: seq<ResultRow>, rid: nat)
    ensures forall i | 0 <= i < |rows| && rows[i].requestId == rid :: rows[i].position <= MaxPosition(rows, rid)
    ensures Gapless(rows) ==> 0 <= MaxPosition(rows, rid)
    ensures Gapless(rows) && MaxPosition(rows, rid) != 0 ==> HasPosition(rows, rid, MaxPosition(rows, rid))
  {
  }

  /** Appending a page at max+1, max+2, ... keeps the primary key, the
      foreign key and the uniqueness of positions. */
  lemma AppendPageKeepsValid(rows: seq<ResultRow>, ids: set<nat>, nextId: nat, rid: nat, objs: seq<GifObject>, next: Option<string>)
    requires ResultsValid(rows, ids, nextId) && rid in ids
    ensures ResultsValid(rows + PageRows(rid, nextId, MaxPosition(rows, rid), objs, next), ids, nextId + |objs|)
  {
    var m := MaxPosition(rows, rid);
    var page := PageRows(rid, nextId, m, objs, next);
    var rows' := rows + page;
    MaxPositionBounds(rows, rid);
    forall d | 0 <= d < |page|
      ensures page[d] == ResultRow(nextId + d, rid, m + 1 + d, objs[d], Fetched, if d + 1 == |objs| then next else None)
    {
      PageRowsAt(rid, nextId, m, objs, next, d);
    }
    assert forall i | 0 <= i < |rows'| :: rows'[i] == if i < |rows| then rows[i] else page[i - |rows|];
  }

  /** The rows of a page for request `rid` sit at positions m+1, m+2, ...
      and are all FETCHED. */
  ghost predicate IsPageAbove(page: seq<ResultRow>, rid: nat, m: int) {
    forall d | 0 <= d < |page| ::
      page[d].requestId == rid && page[d].position == m + 1 + d && page[d].status == Fetched
  }

  lemma PageRowsIsPageAbove(rid: nat, firstId: nat, m: int, objs: seq<GifObject>, next: Option<string>)
    ensures IsPageAbove(PageRows(rid, firstId, m, objs, next), rid, m)
  {
    forall d | 0 <= d < |objs|
      ensures PageRows(rid, firstId, m, objs, next)[d]
           == ResultRow(firstId + d, rid, m + 1 + d, objs[d], Fetched, if d + 1 == |objs| then next else None)
    {
      PageRowsAt(rid, firstId, m, objs, next, d);
    }
  }

  lemma AppendKeepsGapless(rows: seq<ResultRow>, page: seq<ResultRow>, rid: nat, m: int)
    requires Gapless(rows) && IsPageAbove(page, rid, m)
    requires 0 <= m && (m != 0 ==> HasPosition(rows, rid, m))
    ensures Gapless(rows + page)
  {
    var rows' := rows + page;
    forall r, p | HasPosition(rows, r, p) ensures HasPosition(rows', r, p) {
      var j :| 0 <= j < |rows| && rows[j].requestId == r && rows[j].position == p;
      assert rows'[j] == rows[j];
    }
    forall i | 0 <= i < |rows'|
      ensures 1 <= rows'[i].position
      ensures 1 < rows'[i].position ==> HasPosition(rows', rows'[i].requestId, rows'[i].position - 1)
    {
      if i < |rows| {
        assert rows'[i] == rows[i];
      } else if i > |rows| {
        assert rows'[i] == page[i - |rows|] && rows'[i - 1] == page[i - 1 - |rows|];
      } else {
        assert rows'[i] == page[0];
      }
    }
  }

  lemma AppendKeepsOrdered(rows: seq<ResultRow>, page: seq<ResultRow>, rid: nat, m: int)
    requires StatusOrdered(rows) && IsPageAbove(page, rid, m)
    requires forall i | 0 <= i < |rows| && rows[i].requestId == rid :: rows[i].position <= m
    ensures StatusOrdered(rows + page)
  {
  }

  lemma AppendKeepsAtMostOne(rows: seq<ResultRow>, page: seq<ResultRow>, rid: nat, m: int)
    requires AtMostOneSelecting(rows) && IsPageAbove(page, rid, m)
    ensures AtMostOneSelecting(rows + page)
  {
  }

  /** Appending a page keeps every request's queue gapless and ordered: the
      new rows are FETCHED and sit above every position the request held. */
  lemma AppendPageKeepsWellFormed(rows: seq<ResultRow>, rid: nat, firstId: nat, objs: seq<GifObject>, next: Option<string>)
    requires WellFormed(rows)
    ensures WellFormed(rows + PageRows(rid, firstId, MaxPosition(rows, rid), objs, next))
  {
    var m := MaxPosition(rows, rid);
    var page := PageRows(rid, firstId, m, objs, next);
    MaxPositionBounds(rows, rid);
    PageRowsIsPageAbove(rid, firstId, m, objs, next);
    AppendKeepsGapless(rows, page, rid, m);
    AppendKeepsOrdered(rows, page, rid, m);
    AppendKeepsAtMostOne(rows, page, rid, m);
  }

  /** Each row left by the DELETE is a row of the table at some index. */
  lemma WithoutFetchedFrom(rows: seq<ResultRow>, rid: nat, a: nat)
    requires a < |WithoutFetched(rows, rid)|
    ensures exists i | 0 <= i < |rows| :: rows[i] == WithoutFetched(rows, rid)[a]
  {
    assert WithoutFetched(rows, rid)[a] in WithoutFetched(rows, rid);
  }

  /** Each row the DELETE keeps appears in the result. */
  lemma WithoutFetchedTo(rows: seq<ResultRow>, rid: nat, j: nat)
    requires j < |rows| && !InStatus(rows[j], rid, Fetched)
    ensures exists c | 0 <= c < |WithoutFetched(rows, rid)| :: WithoutFetched(rows, rid)[c] == rows[j]
  {
    assert rows[j] in rows;
    assert rows[j] in WithoutFetched(rows, rid);
  }

  lemma WithoutFetchedKeepsValid(rows: seq<ResultRow>, rid: nat, ids: set<nat>, nextId: nat)
    requires ResultsValid(rows, ids, nextId)
    ensures ResultsValid(WithoutFetched(rows, rid), ids, nextId)
  {
    var r := WithoutFetched(rows, rid);
    forall a | 0 <= a < |r| ensures r[a] in rows {
      assert r[a] in r;
    }
    forall a, b | 0 <= a < |r| && 0 <= b < |r| && a != b && r[a].requestId == r[b].requestId
      ensures r[a].position != r[b].position
    {
      assert r[a].id != r[b].id;
      WithoutFetchedFrom(rows, rid, a);
      WithoutFetchedFrom(rows, rid, b);
    }
  }

  lemma WithoutFetchedKeepsOrder(rows: seq<ResultRow>, rid: nat)
    requires StatusOrdered(rows) && AtMostOneSelecting(rows) && IdsIncreasing(rows)
    ensures StatusOrdered(WithoutFetched(rows, rid))
    ensures AtMostOneSelecting(WithoutFetched(rows, rid))
  {
    var r := WithoutFetched(rows, rid);
    forall a, b | 0 <= a < |r| && 0 <= b < |r|
      && r[a].requestId == r[b].requestId && r[a].position < r[b].position
      ensures Rank(r[a].status) <= Rank(r[b].status)
    {
      WithoutFetchedFrom(rows, rid, a);
      WithoutFetchedFrom(rows, rid, b);
    }
    forall a, b | 0 <= a < |r| && 0 <= b < |r|
      && InStatus(r[a], r[b].requestId, ResultStatus.Selecting)
      && InStatus(r[b], r[a].requestId, ResultStatus.Selecting)
      ensures a == b
    {
      WithoutFetchedFrom(rows, rid, a);
      WithoutFetchedFrom(rows, rid, b);
    }
  }

  /** The row just below a kept row is itself kept, since it is no further
      along than the kept one. */
  lemma WithoutFetchedBelow(rows: seq<ResultRow>, rid: nat, i: nat, j: nat)
    requires StatusOrdered(rows) && i < |rows| && j < |rows| && !InStatus(rows[i], rid, Fetched)
    requires rows[j].requestId == rows[i].requestId && rows[j].position == rows[i].position - 1
    ensures HasPosition(WithoutFetched(rows, rid), rows[i].requestId, rows[i].position - 1)
  {
    assert Rank(rows[j].status) <= Rank(rows[i].status);
    WithoutFetchedTo(rows, rid, j);
    var r := WithoutFetched(rows, rid);
    var c :| 0 <= c < |r| && r[c] == rows[j];
    assert r[c].requestId == rows[i].requestId && r[c].position == rows[i].position - 1;
  }

  /** Deleting FETCHED rows leaves no gap: a FETCHED row only ever sits above
      the rows kept. */
  lemma WithoutFetchedKeepsGapless(rows: seq<ResultRow>, rid: nat)
    requires Gapless(rows) && StatusOrdered(rows)
    ensures Gapless(WithoutFetched(rows, rid))
  {
    var r := WithoutFetched(rows, rid);
    forall a | 0 <= a < |r|
      ensures 1 <= r[a].position
      ensures 1 < r[a].position ==> HasPosition(r, r[a].requestId, r[a].position - 1)
    {
      WithoutFetchedFrom(rows, rid, a);
      var i :| 0 <= i < |rows| && rows[i] == r[a];
      assert r[a] in r;
      if 1 < r[a].position {
        var j :| 0 <= j < |rows| && rows[j].requestId == rows[i].requestId && rows[j].position == rows[i].position - 1;
        WithoutFetchedBelow(rows, rid, i, j);
      }
    }
  }

  /** The clean-up DELETE keeps every constraint and every queue's shape, and
      leaves the request without FETCHED rows. */
  lemma WithoutFetchedKeeps(rows: seq<ResultRow>, rid: nat, ids: set<nat>, nextId: nat)
    requires ResultsValid(rows, ids, nextId)
    ensures ResultsValid(WithoutFetched(rows, rid), ids, nextId)
    ensures WellFormed(rows) ==> WellFormed(WithoutFetched(rows, rid))
    ensures forall i | 0 <= i < |WithoutFetched(rows, rid)| :: !InStatus(WithoutFetched(rows, rid)[i], rid, Fetched)
  {
    var r := WithoutFetched(rows, rid);
    WithoutFetchedKeepsValid(rows, rid, ids, nextId);
    if WellFormed(rows) {
      WithoutFetchedKeepsOrder(rows, rid);
      WithoutFetchedKeepsGapless(rows, rid);
    }
    forall a | 0 <= a < |r| ensures !InStatus(r[a], rid, Fetched) {
      assert r[a] in r;
    }
  }

  /** The result of one engine transaction: what it returns and the table
      and id counter it leaves (the ones it started from when it fails,
      because the transaction is rolled back). */
  datatype Step = Step(out: Result<GifObject, Error>, rows: seq<ResultRow>, nextId: nat)

  /** The cursor for the refill: None when no row was shown, otherwise the
      `next_pos` of the row just used. */
  function CursorAfter(used: Transition): Option<string> {
    if used.row.Some? then used.row.value.nextPos else None
  }

  /** The refill half of next_image: what one upstream answer makes of
      `usedRows`, the table after the shown row was used. A failure leaves
      `rows`, the table the transaction started from. */
  function Refill(rows: seq<ResultRow>, usedRows: seq<ResultRow>, rid: nat, nextId: nat, answer: Upstream): (r: Step)
    ensures r.out.Failure? ==> r.rows == rows && r.nextId == nextId
    ensures r.out.Success? ==> answer.Page? && r.nextId == nextId + |answer.results|
  {
    match answer
    case HttpError(code) => Step(Failure(UpstreamStatus(code)), rows, nextId)
    case Page(objs, next) =>
      var again := Promote(usedRows + PageRows(rid, nextId, MaxPosition(usedRows, rid), objs, next), rid, Fetched, ResultStatus.Selecting);
      if again.row.None? then Step(Failure(NoMoreImages), rows, nextId)
      else Step(Success(again.row.value.gifObject), again.rows, nextId + |objs|)
  }

  /** Tenor.next_image: the shown row becomes USED and the next FETCHED row
      is shown; with none left, one page is fetched from upstream with the
      cursor of the row just used, appended, and its first row shown. */
  function Advance(rows: seq<ResultRow>, rid: nat, nextId: nat, apiKey: string, searchString: string,
                   upstream: SearchQuery -> Upstream): (r: Step)
    ensures r.out.Failure? ==> r.rows == rows && r.nextId == nextId
    ensures nextId <= r.nextId
  {
    var used := Promote(rows, rid, ResultStatus.Selecting, Used);
    var shown := Promote(used.rows, rid, Fetched, ResultStatus.Selecting);
    if shown.row.Some? then
      Step(Success(shown.row.value.gifObject), shown.rows, nextId)
    else if used.row.Some? && used.row.value.nextPos.None? then
      Step(Failure(MissingCursor(used.row.value.id)), rows, nextId)
    else
      Refill(rows, used.rows, rid, nextId, upstream(SearchFor(apiKey, searchString, CursorAfter(used))))
  }

  /** Tenor.get_send_image_and_delete_others: the shown row becomes USED and
      is returned, and the request's FETCHED rows are deleted; with no shown
      row the transaction fails. */
  function SelectForSend(rows: seq<ResultRow>, rid: nat, nextId: nat): (r: Step)
    ensures r.nextId == nextId
    ensures r.out.Failure? ==> r.out.error == NothingToSend && r.rows == rows
    ensures forall x | x in r.rows :: x in rows || (x.status == Used && x.(status := ResultStatus.Selecting) in rows)
  {
    var used := Promote(rows, rid, ResultStatus.Selecting, Used);
    if used.row.None? then Step(Failure(NothingToSend), rows, nextId)
    else Step(Success(used.row.value.gifObject), WithoutFetched(used.rows, rid), nextId)
  }

  /** `rows'` keeps every row of `rows` at its index, each either in the same
      status or one step further along, and may add rows after them. */
  ghost predicate MovesForward(rows: seq<ResultRow>, rows': seq<ResultRow>) {
    && |rows| <= |rows'|
    && forall i | 0 <= i < |rows| ::
      rows'[i] == rows[i].(status := rows'[i].status) && Forward(rows[i].status, rows'[i].status)
  }

  /** A refill keeps the primary key, the foreign key and the uniqueness of
      positions, and never moves the id counter back. */
  lemma RefillKeepsValid(rows: seq<ResultRow>, usedRows: seq<ResultRow>, ids: set<nat>, rid: nat, nextId: nat, answer: Upstream)
    requires ResultsValid(rows, ids, nextId) && ResultsValid(usedRows, ids, nextId) && rid in ids
    ensures var st := Refill(rows, usedRows, rid, nextId, answer);
      ResultsValid(st.rows, ids, st.nextId) && nextId <= st.nextId
  {
    match answer
    case HttpError(code) =>
    case Page(objs, next) =>
      var filled := usedRows + PageRows(rid, nextId, MaxPosition(usedRows, rid), objs, next);
      AppendPageKeepsValid(usedRows, ids, nextId, rid, objs, next);
      PromoteKeepsShape(filled, rid, Fetched, ResultStatus.Selecting);
      SameShapeKeepsValid(filled, Promote(filled, rid, Fetched, ResultStatus.Selecting).rows, ids, nextId + |objs|);
  }

  /** next_image keeps the primary key, the foreign key and the uniqueness of
      positions, and never moves the id counter back. */
  lemma AdvanceKeepsValid(rows: seq<ResultRow>, ids: set<nat>, rid: nat, nextId: nat, apiKey: string, searchString: string,
                          upstream: SearchQuery -> Upstream)
    requires ResultsValid(rows, ids, nextId) && rid in ids
    ensures var st := Advance(rows, rid, nextId, apiKey, searchString, upstream);
      ResultsValid(st.rows, ids, st.nextId) && nextId <= st.nextId
  {
    var used := Promote(rows, rid, ResultStatus.Selecting, Used);
    var shown := Promote(used.rows, rid, Fetched, ResultStatus.Selecting);
    PromoteKeepsShape(rows, rid, ResultStatus.Selecting, Used);
    SameShapeKeepsValid(rows, used.rows, ids, nextId);
    PromoteKeepsShape(used.rows, rid, Fetched, ResultStatus.Selecting);
    SameShapeKeepsValid(used.rows, shown.rows, ids, nextId);
    RefillKeepsValid(rows, used.rows, ids, rid, nextId, upstream(SearchFor(apiKey, searchString, CursorAfter(used))));
  }

  /** Using the shown row and showing the next one keep a queue well formed,
      and after the first step the request has no row shown. */
  lemma ShowNextKeepsWellFormed(rows: seq<ResultRow>, rid: nat)
    requires WellFormed(rows)
    ensures var used := Promote(rows, rid, ResultStatus.Selecting, Used);
      && WellFormed(used.rows)
      && (forall i | 0 <= i < |used.rows| :: !InStatus(used.rows[i], rid, ResultStatus.Selecting))
      && WellFormed(Promote(used.rows, rid, Fetched, ResultStatus.Selecting).rows)
  {
    var used := Promote(rows, rid, ResultStatus.Selecting, Used);
    PromoteKeepsShape(rows, rid, ResultStatus.Selecting, Used);
    SameShapeKeepsValid(rows, used.rows, {}, 0);
    PromoteToUsed(rows, rid);
    PromoteKeepsShape(used.rows, rid, Fetched, ResultStatus.Selecting);
    SameShapeKeepsValid(used.rows, Promote(used.rows, rid, Fetched, ResultStatus.Selecting).rows, {}, 0);
    PromoteToSelecting(used.rows, rid);
  }

  /** A refill of a request with no row shown keeps every queue well formed:
      the page goes on top and its lowest row is shown. */
  lemma RefillKeepsWellFormed(rows: seq<ResultRow>, usedRows: seq<ResultRow>, rid: nat, nextId: nat, answer: Upstream)
    requires WellFormed(rows) && WellFormed(usedRows)
    requires forall i | 0 <= i < |usedRows| :: !InStatus(usedRows[i], rid, ResultStatus.Selecting)
    ensures WellFormed(Refill(rows, usedRows, rid, nextId, answer).rows)
  {
    match answer
    case HttpError(code) =>
    case Page(objs, next) =>
      var page := PageRows(rid, nextId, MaxPosition(usedRows, rid), objs, next);
      var filled := usedRows + page;
      AppendPageKeepsWellFormed(usedRows, rid, nextId, objs, next);
      PageRowsIsPageAbove(rid, nextId, MaxPosition(usedRows, rid), objs, next);
      forall i | 0 <= i < |filled| ensures !InStatus(filled[i], rid, ResultStatus.Selecting) {
        if i >= |usedRows| {
          assert filled[i] == page[i - |usedRows|];
        }
      }
      PromoteKeepsShape(filled, rid, Fetched, ResultStatus.Selecting);
      SameShapeKeepsValid(filled, Promote(filled, rid, Fetched, ResultStatus.Selecting).rows, {}, 0);
      PromoteToSelecting(filled, rid);
  }

  /** next_image keeps every queue gapless and ordered with at most one row
      shown. */
  lemma AdvanceKeepsWellFormed(rows: seq<ResultRow>, rid: nat, nextId: nat, apiKey: string, searchString: string,
                               upstream: SearchQuery -> Upstream)
    requires WellFormed(rows)
    ensures WellFormed(Advance(rows, rid, nextId, apiKey, searchString, upstream).rows)
  {
    var used := Promote(rows, rid, ResultStatus.Selecting, Used);
    ShowNextKeepsWellFormed(rows, rid);
    RefillKeepsWellFormed(rows, used.rows, rid, nextId, upstream(SearchFor(apiKey, searchString, CursorAfter(used))));
  }

  /** Using the shown row, appending `extra` and showing the lowest FETCHED
      row move every existing row at most one status forward; the appended
      rows keep everything but their status and do not become USED. */
  lemma ShowAfterMovesForward(rows: seq<ResultRow>, rid: nat, extra: seq<ResultRow>)
    requires forall d | 0 <= d < |extra| :: extra[d].status == Fetched
    ensures var used := Promote(rows, rid, ResultStatus.Selecting, Used);
      var again := Promote(used.rows + extra, rid, Fetched, ResultStatus.Selecting).rows;
      && MovesForward(rows, again)
      && |again| == |rows| + |extra|
      && forall d | 0 <= d < |extra| :: again[|rows| + d] == extra[d].(status := again[|rows| + d].status)
           && again[|rows| + d].status != Used
  {
    var used := Promote(rows, rid, ResultStatus.Selecting, Used);
    var filled := used.rows + extra;
    PromoteKeepsShape(rows, rid, ResultStatus.Selecting, Used);
    PromoteKeepsShape(filled, rid, Fetched, ResultStatus.Selecting);
    assert forall i | 0 <= i < |rows| :: filled[i] == used.rows[i];
    assert forall d | 0 <= d < |extra| :: filled[|rows| + d] == extra[d];
  }

  /** The rows of `st` are those of `rows`, each in the same status or one
      step along, followed by as many new rows as ids were consumed, all of
      the request and none USED. */
  ghost predicate AdvancedFrom(st: Step, rows: seq<ResultRow>, rid: nat, nextId: nat) {
    && MovesForward(rows, st.rows)
    && |st.rows| == |rows| + (st.nextId - nextId)
    && forall i | |rows| <= i < |st.rows| :: st.rows[i].requestId == rid && st.rows[i].status != Used
  }

  lemma RefillMovesForward(rows: seq<ResultRow>, rid: nat, nextId: nat, answer: Upstream)
    ensures AdvancedFrom(Refill(rows, Promote(rows, rid, ResultStatus.Selecting, Used).rows, rid, nextId, answer), rows, rid, nextId)
  {
    var used := Promote(rows, rid, ResultStatus.Selecting, Used);
    match answer
    case HttpError(code) =>
    case Page(objs, next) =>
      var page := PageRows(rid, nextId, MaxPosition(used.rows, rid), objs, next);
      PageRowsIsPageAbove(rid, nextId, MaxPosition(used.rows, rid), objs, next);
      ShowAfterMovesForward(rows, rid, page);
  }

  /** next_image only moves rows forward: every row stays where it is, in
      the same status or one step along, and the rows it adds are exactly
      the ones it counted off the id counter, for this request, and not
      USED. */
  lemma AdvanceMovesForward(rows: seq<ResultRow>, rid: nat, nextId: nat, apiKey: string, searchString: string,
                            upstream: SearchQuery -> Upstream)
    ensures AdvancedFrom(Advance(rows, rid, nextId, apiKey, searchString, upstream), rows, rid, nextId)
  {
    var used := Promote(rows, rid, ResultStatus.Selecting, Used);
    var shown := Promote(used.rows, rid, Fetched, ResultStatus.Selecting);
    if shown.row.Some? {
      ShowAfterMovesForward(rows, rid, []);
      assert used.rows + [] == used.rows;
    } else {
      RefillMovesForward(rows, rid, nextId, upstream(SearchFor(apiKey, searchString, CursorAfter(used))));
    }
  }

  /** While the request has a FETCHED row, next_image shows the lowest one,
      adds nothing and does not depend on the upstream service. */
  lemma AdvanceFromQueue(rows: seq<ResultRow>, rid: nat, nextId: nat, apiKey: string, searchString: string,
                         upstream: SearchQuery -> Upstream, other: SearchQuery -> Upstream)
    requires exists i | 0 <= i < |rows| :: InStatus(rows[i], rid, Fetched)
    ensures var st := Advance(rows, rid, nextId, apiKey, searchString, upstream);
      && st == Advance(rows, rid, nextId, apiKey, searchString, other)
      && st.out.Success? && st.nextId == nextId && |st.rows| == |rows|
      && exists k: nat :: IsLowest(rows, rid, Fetched, k) && st.out.value == rows[k].gifObject
           && InStatus(st.rows[k], rid, ResultStatus.Selecting)
  {
    var used := Promote(rows, rid, ResultStatus.Selecting, Used);
    PromoteKeepsShape(rows, rid, ResultStatus.Selecting, Used);
    var i :| 0 <= i < |rows| && InStatus(rows[i], rid, Fetched);
    assert InStatus(used.rows[i], rid, Fetched);
    var k := Lowest(used.rows, rid, Fetched).value;
    assert IsLowest(rows, rid, Fetched, k) by {
      forall j | 0 <= j < |rows| && InStatus(rows[j], rid, Fetched) ensures rows[k].position <= rows[j].position {
        assert InStatus(used.rows[j], rid, Fetched);
      }
    }
  }

  /** What next_image makes of one upstream answer once the request's queue
      has run dry: a failure status or an empty page fails with everything
      rolled back; otherwise the first image of the page is shown and the
      page's rows are counted off the id counter. */
  ghost predicate Refilled(st: Step, rows: seq<ResultRow>, nextId: nat, answer: Upstream) {
    match answer
    case HttpError(code) => st == Step(Failure(UpstreamStatus(code)), rows, nextId)
    case Page(objs, next) =>
      if objs == [] then st == Step(Failure(NoMoreImages), rows, nextId)
      else st.out == Success(objs[0]) && st.nextId == nextId + |objs|
  }

  /** Appending a page to a request with no FETCHED row and showing the
      lowest FETCHED row shows the page's first image. */
  lemma RefillShowsFirst(rows: seq<ResultRow>, rid: nat, firstId: nat, objs: seq<GifObject>, next: Option<string>)
    requires forall i | 0 <= i < |rows| :: !InStatus(rows[i], rid, Fetched)
    ensures var again := Promote(rows + PageRows(rid, firstId, MaxPosition(rows, rid), objs, next), rid, Fetched, ResultStatus.Selecting);
      && (again.row.None? <==> objs == [])
      && (again.row.Some? ==>
            && again.row.value.gifObject == objs[0]
            && |rows| < |again.rows| && again.row.value == again.rows[|rows|]
            && InStatus(again.rows[|rows|], rid, ResultStatus.Selecting)
            && again.rows[|rows|].position == MaxPosition(rows, rid) + 1)
  {
    var m := MaxPosition(rows, rid);
    var page := PageRows(rid, firstId, m, objs, next);
    var filled := rows + page;
    PageRowsIsPageAbove(rid, firstId, m, objs, next);
    if objs != [] {
      assert filled[|rows|] == page[0];
      PageRowsAt(rid, firstId, m, objs, next, 0);
      var j := Lowest(filled, rid, Fetched).value;
      if j >= |rows| {
        assert filled[j] == page[j - |rows|];
      }
    }
  }

  /** A refill of a request with no FETCHED row does what `Refilled` says. */
  lemma RefillFromDry(rows: seq<ResultRow>, usedRows: seq<ResultRow>, rid: nat, nextId: nat, answer: Upstream)
    requires forall i | 0 <= i < |usedRows| :: !InStatus(usedRows[i], rid, Fetched)
    ensures Refilled(Refill(rows, usedRows, rid, nextId, answer), rows, nextId, answer)
  {
    match answer
    case HttpError(code) =>
    case Page(objs, next) =>
      RefillShowsFirst(usedRows, rid, nextId, objs, next);
      assert objs == [] ==> usedRows + PageRows(rid, nextId, MaxPosition(usedRows, rid), objs, next) == usedRows;
  }

  /** Once the request has no FETCHED row, next_image asks upstream for the
      page after the cursor of the row it just used (from the start when
      nothing was shown), and fails without asking when that row carries no
      cursor. */
  lemma AdvanceRefill(rows: seq<ResultRow>, rid: nat, nextId: nat, apiKey: string, searchString: string,
                      upstream: SearchQuery -> Upstream)
    requires AtMostOneSelecting(rows)
    requires forall i | 0 <= i < |rows| :: !InStatus(rows[i], rid, Fetched)
    ensures var st := Advance(rows, rid, nextId, apiKey, searchString, upstream);
      && ((forall i | 0 <= i < |rows| :: !InStatus(rows[i], rid, ResultStatus.Selecting)) ==>
            Refilled(st, rows, nextId, upstream(SearchFor(apiKey, searchString, None))))
      && forall k | 0 <= k < |rows| && InStatus(rows[k], rid, ResultStatus.Selecting) ::
           && (rows[k].nextPos.None? ==> st == Step(Failure(MissingCursor(rows[k].id)), rows, nextId))
           && (rows[k].nextPos.Some? ==> Refilled(st, rows, nextId, upstream(SearchFor(apiKey, searchString, rows[k].nextPos))))
  {
    var used := Promote(rows, rid, ResultStatus.Selecting, Used);
    PromoteKeepsShape(rows, rid, ResultStatus.Selecting, Used);
    assert forall i | 0 <= i < |rows| :: !InStatus(used.rows[i], rid, Fetched);
    RefillFromDry(rows, used.rows, rid, nextId, upstream(SearchFor(apiKey, searchString, CursorAfter(used))));
  }

  /** The image next_image shows and the row showing it sit above every row
      of the request that had been shown or used before. */
  ghost predicate ShowsNew(st: Step, rows: seq<ResultRow>, rid: nat) {
    st.out.Success? ==> exists k: nat ::
      && k < |st.rows| && InStatus(st.rows[k], rid, ResultStatus.Selecting) && st.out.value == st.rows[k].gifObject
      && forall i | 0 <= i < |rows| && rows[i].requestId == rid && rows[i].status != Fetched ::
           rows[i].position < st.rows[k].position
  }

  /** In an ordered queue the lowest FETCHED row sits above every row of the
      request that is not FETCHED. */
  lemma LowestFetchedIsAboveShown(rows: seq<ResultRow>, rid: nat, k: nat)
    requires PositionsUnique(rows) && StatusOrdered(rows) && IsLowest(rows, rid, Fetched, k)
    ensures forall i | 0 <= i < |rows| && rows[i].requestId == rid && rows[i].status != Fetched ::
      rows[i].position < rows[k].position
  {
  }

  lemma ShowsNewFromQueue(rows: seq<ResultRow>, rid: nat, nextId: nat, apiKey: string, searchString: string,
                          upstream: SearchQuery -> Upstream)
    requires PositionsUnique(rows) && StatusOrdered(rows)
    requires exists i | 0 <= i < |rows| :: InStatus(rows[i], rid, Fetched)
    ensures ShowsNew(Advance(rows, rid, nextId, apiKey, searchString, upstream), rows, rid)
  {
    var st := Advance(rows, rid, nextId, apiKey, searchString, upstream);
    AdvanceFromQueue(rows, rid, nextId, apiKey, searchString, upstream, upstream);
    AdvanceMovesForward(rows, rid, nextId, apiKey, searchString, upstream);
    var k: nat :| IsLowest(rows, rid, Fetched, k) && st.out.value == rows[k].gifObject
      && InStatus(st.rows[k], rid, ResultStatus.Selecting);
    assert st.rows[k].position == rows[k].position;
    LowestFetchedIsAboveShown(rows, rid, k);
    assert k < |st.rows| && InStatus(st.rows[k], rid, ResultStatus.Selecting) && st.out.value == st.rows[k].gifObject;
  }

  /** A refill shows the page's first row, which sits above every row the
      request held. */
  lemma RefillShowsNew(rows: seq<ResultRow>, usedRows: seq<ResultRow>, rid: nat, nextId: nat, answer: Upstream)
    requires |usedRows| == |rows|
    requires forall i | 0 <= i < |rows| :: usedRows[i].requestId == rows[i].requestId && usedRows[i].position == rows[i].position
    requires forall i | 0 <= i < |usedRows| :: !InStatus(usedRows[i], rid, Fetched)
    ensures ShowsNew(Refill(rows, usedRows, rid, nextId, answer), rows, rid)
  {
    var st := Refill(rows, usedRows, rid, nextId, answer);
    match answer
    case HttpError(code) =>
    case Page(objs, next) =>
      RefillShowsFirst(usedRows, rid, nextId, objs, next);
      MaxPositionBounds(usedRows, rid);
      if st.out.Success? {
        var k := |rows|;
        forall i | 0 <= i < |rows| && rows[i].requestId == rid && rows[i].status != Fetched
          ensures rows[i].position < st.rows[k].position
        {
          assert usedRows[i].requestId == rid;
        }
      }
  }

  lemma ShowsNewFromRefill(rows: seq<ResultRow>, rid: nat, nextId: nat, apiKey: string, searchString: string,
                           upstream: SearchQuery -> Upstream)
    requires forall i | 0 <= i < |rows| :: !InStatus(rows[i], rid, Fetched)
    ensures ShowsNew(Advance(rows, rid, nextId, apiKey, searchString, upstream), rows, rid)
  {
    var used := Promote(rows, rid, ResultStatus.Selecting, Used);
    PromoteKeepsShape(rows, rid, ResultStatus.Selecting, Used);
    assert forall i | 0 <= i < |rows| :: !InStatus(used.rows[i], rid, Fetched);
    RefillShowsNew(rows, used.rows, rid, nextId, upstream(SearchFor(apiKey, searchString, CursorAfter(used))));
  }

  /** next_image never shows an image again: the row it shows is a
      SELECTING row of the request and sits above every row of the request
      that had been shown or used before. */
  lemma AdvanceShowsNewImage(rows: seq<ResultRow>, ids: set<nat>, rid: nat, nextId: nat, apiKey: string, searchString: string,
                             upstream: SearchQuery -> Upstream)
    requires ResultsValid(rows, ids, nextId) && WellFormed(rows)
    ensures ShowsNew(Advance(rows, rid, nextId, apiKey, searchString, upstream), rows, rid)
  {
    if exists i | 0 <= i < |rows| :: InStatus(rows[i], rid, Fetched) {
      ShowsNewFromQueue(rows, rid, nextId, apiKey, searchString, upstream);
    } else {
      ShowsNewFromRefill(rows, rid, nextId, apiKey, searchString, upstream);
    }
  }

  lemma SelectForSendKeepsValid(rows: seq<ResultRow>, ids: set<nat>, rid: nat, nextId: nat)
    requires ResultsValid(rows, ids, nextId)
    ensures ResultsValid(SelectForSend(rows, rid, nextId).rows, ids, nextId)
  {
    var used := Promote(rows, rid, ResultStatus.Selecting, Used);
    PromoteKeepsShape(rows, rid, ResultStatus.Selecting, Used);
    SameShapeKeepsValid(rows, used.rows, ids, nextId);
    WithoutFetchedKeeps(used.rows, rid, ids, nextId);
  }

  lemma SelectForSendKeepsWellFormed(rows: seq<ResultRow>, ids: set<nat>, rid: nat, nextId: nat)
    requires ResultsValid(rows, ids, nextId) && WellFormed(rows)
    ensures WellFormed(SelectForSend(rows, rid, nextId).rows)
  {
    var used := Promote(rows, rid, ResultStatus.Selecting, Used);
    PromoteKeepsShape(rows, rid, ResultStatus.Selecting, Used);
    SameShapeKeepsValid(rows, used.rows, ids, nextId);
    PromoteToUsed(rows, rid);
    WithoutFetchedKeeps(used.rows, rid, ids, nextId);
  }

  /** get_send_image_and_delete_others keeps the primary key, the foreign
      key, the uniqueness of positions and the shape of every queue. */
  lemma SelectForSendKeeps(rows: seq<ResultRow>, ids: set<nat>, rid: nat, nextId: nat)
    ensures var st := SelectForSend(rows, rid, nextId);
      && st.nextId == nextId
      && (ResultsValid(rows, ids, nextId) ==> ResultsValid(st.rows, ids, nextId))
      && (ResultsValid(rows, ids, nextId) && WellFormed(rows) ==> WellFormed(st.rows))
  {
    if ResultsValid(rows, ids, nextId) {
      SelectForSendKeepsValid(rows, ids, rid, nextId);
      if WellFormed(rows) {
        SelectForSendKeepsWellFormed(rows, ids, rid, nextId);
      }
    }
  }

  /** get_send_image_and_delete_others fails exactly when nothing is shown,
      rolling everything back, and otherwise returns the shown image. */
  lemma SelectForSendOutcome(rows: seq<ResultRow>, rid: nat, nextId: nat)
    requires AtMostOneSelecting(rows)
    ensures var st := SelectForSend(rows, rid, nextId);
      && (st.out.Failure? <==> forall i | 0 <= i < |rows| :: !InStatus(rows[i], rid, ResultStatus.Selecting))
      && (st.out.Failure? ==> st == Step(Failure(NothingToSend), rows, nextId))
      && (forall k | 0 <= k < |rows| && InStatus(rows[k], rid, ResultStatus.Selecting) :: st.out == Success(rows[k].gifObject))
  {
  }

  /** After get_send_image_and_delete_others succeeds, every row of the
      request is USED, every USED row is still there, and other requests'
      rows are exactly as before. */
  lemma SelectForSendEffect(rows: seq<ResultRow>, rid: nat, nextId: nat)
    requires StatusOrdered(rows) && AtMostOneSelecting(rows)
    ensures var st := SelectForSend(rows, rid, nextId);
      && (st.out.Success? ==> forall i | 0 <= i < |st.rows| && st.rows[i].requestId == rid :: st.rows[i].status == Used)
      && (forall x | x in rows && InStatus(x, rid, Used) :: x in st.rows)
      && (forall x: ResultRow | x.requestId != rid :: x in st.rows <==> x in rows)
      && forall k | 0 <= k < |rows| && InStatus(rows[k], rid, ResultStatus.Selecting) ::
           rows[k].(status := Used) in st.rows
  {
    SelectForSendLeavesUsed(rows, rid, nextId);
    SelectForSendKeepsUsed(rows, rid, nextId);
    SelectForSendKeepsOthers(rows, rid, nextId);
  }

  /** After a send the request holds only USED rows, the sent one among
      them. */
  lemma SelectForSendLeavesUsed(rows: seq<ResultRow>, rid: nat, nextId: nat)
    requires StatusOrdered(rows) && AtMostOneSelecting(rows)
    ensures var st := SelectForSend(rows, rid, nextId);
      && (st.out.Success? ==> forall i | 0 <= i < |st.rows| && st.rows[i].requestId == rid :: st.rows[i].status == Used)
      && forall k | 0 <= k < |rows| && InStatus(rows[k], rid, ResultStatus.Selecting) ::
           rows[k].(status := Used) in st.rows
  {
    var used := Promote(rows, rid, ResultStatus.Selecting, Used);
    PromoteToUsed(rows, rid);
    PromoteKeepsShape(rows, rid, ResultStatus.Selecting, Used);
    forall k | 0 <= k < |rows| && InStatus(rows[k], rid, ResultStatus.Selecting)
      ensures rows[k].(status := Used) in WithoutFetched(used.rows, rid)
    {
      assert used.rows[k] == rows[k].(status := Used);
    }
    if used.row.Some? {
      var r := WithoutFetched(used.rows, rid);
      forall i | 0 <= i < |r| && r[i].requestId == rid ensures r[i].status == Used {
        assert r[i] in r;
        var j :| 0 <= j < |used.rows| && used.rows[j] == r[i];
        assert !InStatus(used.rows[j], rid, ResultStatus.Selecting);
      }
    }
  }

  /** A send keeps every row the request had already used. */
  lemma SelectForSendKeepsUsed(rows: seq<ResultRow>, rid: nat, nextId: nat)
    ensures var st := SelectForSend(rows, rid, nextId);
      forall x | x in rows && InStatus(x, rid, Used) :: x in st.rows
  {
    var used := Promote(rows, rid, ResultStatus.Selecting, Used);
    PromoteKeepsShape(rows, rid, ResultStatus.Selecting, Used);
    if used.row.Some? {
      var r := WithoutFetched(used.rows, rid);
      forall x | x in rows && InStatus(x, rid, Used) ensures x in r {
        var j :| 0 <= j < |rows| && rows[j] == x;
        assert used.rows[j] == x;
      }
    }
  }

  /** A send leaves the rows of every other request as they were. */
  lemma SelectForSendKeepsOthers(rows: seq<ResultRow>, rid: nat, nextId: nat)
    ensures var st := SelectForSend(rows, rid, nextId);
      forall x: ResultRow | x.requestId != rid :: x in st.rows <==> x in rows
  {
    var used := Promote(rows, rid, ResultStatus.Selecting, Used);
    PromoteKeepsShape(rows, rid, ResultStatus.Selecting, Used);
    if used.row.Some? {
      var r := WithoutFetched(used.rows, rid);
      forall x: ResultRow | x.requestId != rid ensures x in r <==> x in rows {
        if x in rows {
          var j :| 0 <= j < |rows| && rows[j] == x;
          assert used.rows[j] == x;
        }
        if x in used.rows {
          var j :| 0 <= j < |used.rows| && used.rows[j] == x;
          assert rows[j] == x;
        }
      }
    }
  }

  /** After a successful send the request has no row shown and none queued,
      so a further next_image starts the search again from the first page:
      it asks upstream with no cursor. */
  lemma AdvanceAfterSendRestarts(rows: seq<ResultRow>, rid: nat, nextId: nat, apiKey: string, searchString: string,
                                 upstream: SearchQuery -> Upstream)
    requires StatusOrdered(rows) && AtMostOneSelecting(rows)
    ensures var st := SelectForSend(rows, rid, nextId);
      st.out.Success? ==>
        Advance(st.rows, rid, st.nextId, apiKey, searchString, upstream)
        == Refill(st.rows, st.rows, rid, st.nextId, upstream(SearchFor(apiKey, searchString, None)))
  {
    SelectForSendLeavesUsed(rows, rid, nextId);
  }
}
