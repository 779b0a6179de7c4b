/** create-db.py: the two tables, their status domains and the constraints
    the database enforces on every write. */
module Schema {
  import opened Wrappers
  import opened Image

  /** slack_request.status, CHECK (status IN ('SELECTING', 'CANCELLED', 'POSTED')). */
  datatype RequestStatus = Selecting | Cancelled | Posted

  /** tenor_result.status, CHECK (status IN ('FETCHED', 'SELECTING', 'USED')). */
  datatype ResultStatus = Fetched | Selecting | Used

  function RequestStatusText(s: RequestStatus): string {
    match s
    case Selecting => "SELECTING"
    case Cancelled => "CANCELLED"
    case Posted => "POSTED"
  }

  function ResultStatusText(s: ResultStatus): string {
    match s
    case Fetched => "FETCHED"
    case Selecting => "SELECTING"
    case Used => "USED"
  }

  /** The CHECK constraint of slack_request: a text passes it exactly when it
      names a request status. */
  function ParseRequestStatus(t: string): (r: Option<RequestStatus>)
    ensures r.Some? <==> t == "SELECTING" || t == "CANCELLED" || t == "POSTED"
    ensures r.Some? ==> RequestStatusText(r.value) == t
  {
    if t == "SELECTING" then Some(RequestStatus.Selecting)
    else if t == "CANCELLED" then Some(Cancelled)
    else if t == "POSTED" then Some(Posted)
    else None
  }

  /** The CHECK constraint of tenor_result: a text passes it exactly when it
      names a result status. */
  function ParseResultStatus(t: string): (r: Option<ResultStatus>)
    ensures r.Some? <==> t == "FETCHED" || t == "SELECTING" || t == "USED"
    ensures r.Some? ==> ResultStatusText(r.value) == t
  {
    if t == "FETCHED" then Some(Fetched)
    else if t == "SELECTING" then Some(ResultStatus.Selecting)
    else if t == "USED" then Some(Used)
    else None
  }

  /** Every status is stored as a text the CHECK constraint admits, and reads
      back as itself. */
  lemma StatusTextsRoundTrip(a: RequestStatus, b: ResultStatus)
    ensures ParseRequestStatus(RequestStatusText(a)) == Some(a)
    ensures ParseResultStatus(ResultStatusText(b)) == Some(b)
  {
  }

  /** A slack_request row. Every column is NOT NULL. */
  datatype RequestRow = RequestRow(
    id: nat,
    timestamp: string,
    userId: string,
    conversationId: string,
    blockUid: string,
    searchString: string,
    status: RequestStatus)

  /** A tenor_result row. `next_pos` is the only nullable column; the stored
      gif_object text is taken as the object it encodes. */
  datatype ResultRow = ResultRow(
    id: nat,
    requestId: nat,
    position: int,
    gifObject: GifObject,
    status: ResultStatus,
    nextPos: Option<string>)

  /** The primary keys of slack_request. */
  function RequestIds(requests: map<string, RequestRow>): set<nat> {
    set u | u in requests :: requests[u].id
  }

  /** slack_request, keyed by block_uid, so that UNIQUE (block_uid) holds by
      construction: each row is stored under its own uid, the primary key is
      unique and below the AUTOINCREMENT counter. */
  ghost predicate RequestsValid(requests: map<string, RequestRow>, nextRequestId: nat) {
    && (forall u | u in requests :: requests[u].blockUid == u && requests[u].id < nextRequestId)
    && (forall u, v | u in requests && v in requests && requests[u].id == requests[v].id :: u == v)
  }

  /** AUTOINCREMENT primary keys, in rowid order. */
  ghost predicate IdsIncreasing(rows: seq<ResultRow>) {
    forall i, j | 0 <= i < j < |rows| :: rows[i].id < rows[j].id
  }

  /** UNIQUE (slack_request_id, position). */
  ghost predicate PositionsUnique(rows: seq<ResultRow>) {
    forall i, j | 0 <= i < |rows| && 0 <= j < |rows| && i != j && rows[i].requestId == rows[j].requestId ::
      rows[i].position != rows[j].position
  }

  /** tenor_result: primary key, the uniqueness of positions per request, and
      the foreign key into slack_request. */
  ghost predicate ResultsValid(rows: seq<ResultRow>, requestIds: set<nat>, nextResultId: nat) {
    && IdsIncreasing(rows)
    && PositionsUnique(rows)
    && forall i | 0 <= i < |rows| :: rows[i].id < nextResultId && rows[i].requestId in requestIds
  }

  ghost predicate TablesValid(requests: map<string, RequestRow>, rows: seq<ResultRow>, nextRequestId: nat, nextResultId: nat) {
    RequestsValid(requests, nextRequestId) && ResultsValid(rows, RequestIds(requests), nextResultId)
  }

  /** Inserting a request under a new uid with the next primary key keeps
      every constraint, and every existing result row keeps its request. */
  lemma InsertRequestKeepsValid(requests: map<string, RequestRow>, rows: seq<ResultRow>, nextRequestId: nat, nextResultId: nat, row: RequestRow)
    requires TablesValid(requests, rows, nextRequestId, nextResultId)
    requires row.blockUid !in requests && row.id == nextRequestId
    ensures RequestIds(requests[row.blockUid := row]) == RequestIds(requests) + {row.id}
    ensures TablesValid(requests[row.blockUid := row], rows, nextRequestId + 1, nextResultId)
  {
    var requests' := requests[row.blockUid := row];
    assert RequestIds(requests') == RequestIds(requests) + {row.id} by {
      forall x | x in RequestIds(requests') ensures x in RequestIds(requests) + {row.id} {
        var u :| u in requests' && requests'[u].id == x;
        if u != row.blockUid { assert requests[u].id == x; }
      }
      forall x | x in RequestIds(requests) ensures x in RequestIds(requests') {
        var u :| u in requests && requests[u].id == x;
        assert requests'[u].id == x;
      }
      assert requests'[row.blockUid].id == row.id;
    }
  }

  /** Updating one request's status keeps every constraint. */
  lemma SetRequestStatusKeepsValid(requests: map<string, RequestRow>, rows: seq<ResultRow>, nextRequestId: nat, nextResultId: nat, uid: string, status: RequestStatus)
    requires TablesValid(requests, rows, nextRequestId, nextResultId)
    requires uid in requests
    ensures RequestIds(requests[uid := requests[uid].(status := status)]) == RequestIds(requests)
    ensures TablesValid(requests[uid := requests[uid].(status := status)], rows, nextRequestId, nextResultId)
  {
    var requests' := requests[uid := requests[uid].(status := status)];
    forall x | x in RequestIds(requests') ensures x in RequestIds(requests) {
      var u :| u in requests' && requests'[u].id == x;
      assert requests[u].id == x;
    }
    forall x | x in RequestIds(requests) ensures x in RequestIds(requests') {
      var u :| u in requests && requests[u].id == x;
      assert requests'[u].id == x;
    }
  }
}
