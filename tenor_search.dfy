/** tenor_search.py: the Tenor engine over the two tables, each `with
    Database()` block an all-or-nothing method of the store. */
module TenorSearch {
  import opened Wrappers
  import opened Errors
  import opened Image
  import opened Schema
  import opened Engine

  /** An engine bound to one request, by its block_uid, and to the API key
      it was built with. */
  datatype Tenor = Tenor(apiKey: string, blockUid: string)

  /** Tenor.__init__: there is no engine while the API key is unset. */
  function NewTenor(apiKey: Option<string>, blockUid: string): (r: Result<Tenor, Error>)
    ensures r.Failure? <==> apiKey.None?
    ensures r.Failure? ==> r.error == ApiKeyNotSet
    ensures r.Success? ==> r.value.apiKey == apiKey.value && r.value.blockUid == blockUid
  {
    if apiKey.None? then Failure(ApiKeyNotSet) else Success(Tenor(apiKey.value, blockUid))
  }

  /** The database: slack_request keyed by block_uid, tenor_result in rowid
      order, and the two AUTOINCREMENT counters. */
  class Store {
    var slackRequest: map<string, RequestRow>
    var tenorResult: seq<ResultRow>
    var nextRequestId: nat
    var nextResultId: nat

    /** The schema's constraints, and every request's queue well formed. */
    ghost predicate Valid()
      reads this
    {
      TablesValid(slackRequest, tenorResult, nextRequestId, nextResultId) && WellFormed(tenorResult)
    }

    /** A freshly created database: both tables empty. */
    constructor ()
      ensures Valid()
      ensures slackRequest == map[] && tenorResult == [] && nextRequestId == 1 && nextResultId == 1
    {
      slackRequest := map[];
      tenorResult := [];
      nextRequestId := 1;
      nextResultId := 1;
    }

    /** Tenor.fetch_request: the request row stored under the uid. */
    function FetchRequest(uid: string): (r: Option<RequestRow>)
      reads this
      requires Valid()
      ensures r.Some? <==> uid in slackRequest
      ensures r.Some? ==> r.value.blockUid == uid && r.value in slackRequest.Values
    {
      if uid in slackRequest then Some(slackRequest[uid]) else None
    }

    /** Tenor.__record_state_transition: the lowest-position row of the
        request in status `from` is set to `to` and returned. */
    method RecordStateTransition(uid: string, from: ResultStatus, to: ResultStatus) returns (row: Option<ResultRow>)
      modifies this
      ensures slackRequest == old(slackRequest) && nextRequestId == old(nextRequestId) && nextResultId == old(nextResultId)
      ensures uid !in slackRequest ==> row.None? && tenorResult == old(tenorResult)
      ensures uid in slackRequest ==>
        var t := Promote(old(tenorResult), slackRequest[uid].id, from, to);
        tenorResult == t.rows && row == t.row
    {
      row := None;
      if uid !in slackRequest {
        return;
      }
      var rid := slackRequest[uid].id;
      var found := Lowest(tenorResult, rid, from);
      if found.None? {
        return;
      }
      var k := found.value;
      tenorResult := tenorResult[k := tenorResult[k].(status := to)];
      row := Some(tenorResult[k]);
    }

    /** Tenor.__set_image_as_used_and_get. */
    method SetImageAsUsedAndGet(uid: string) returns (row: Option<ResultRow>)
      modifies this
      ensures slackRequest == old(slackRequest) && nextRequestId == old(nextRequestId) && nextResultId == old(nextResultId)
      ensures uid !in slackRequest ==> row.None? && tenorResult == old(tenorResult)
      ensures uid in slackRequest ==>
        var t := Promote(old(tenorResult), slackRequest[uid].id, ResultStatus.Selecting, Used);
        tenorResult == t.rows && row == t.row
    {
      row := RecordStateTransition(uid, ResultStatus.Selecting, Used);
    }

    /** Tenor.__next_image_from_db. */
    method NextImageFromDb(uid: string) returns (row: Option<ResultRow>)
      modifies this
      ensures slackRequest == old(slackRequest) && nextRequestId == old(nextRequestId) && nextResultId == old(nextResultId)
      ensures uid !in slackRequest ==> row.None? && tenorResult == old(tenorResult)
      ensures uid in slackRequest ==>
        var t := Promote(old(tenorResult), slackRequest[uid].id, Fetched, ResultStatus.Selecting);
        tenorResult == t.rows && row == t.row
    {
      row := RecordStateTransition(uid, Fetched, ResultStatus.Selecting);
    }

    /** Tenor.__query_tenor: one upstream page for the request's search text
        after `cursor`, inserted row by row above the request's highest
        position. */
    method QueryTenor(t: Tenor, cursor: Option<string>, upstream: SearchQuery -> Upstream) returns (r: Outcome<Error>)
      modifies this
      ensures slackRequest == old(slackRequest) && nextRequestId == old(nextRequestId)
      ensures t.blockUid !in slackRequest ==>
        r == Fail(UnknownRequest) && tenorResult == old(tenorResult) && nextResultId == old(nextResultId)
      ensures t.blockUid in slackRequest ==>
        var rid := slackRequest[t.blockUid].id;
        match upstream(SearchFor(t.apiKey, slackRequest[t.blockUid].searchString, cursor))
        case HttpError(code) =>
          r == Fail(UpstreamStatus(code)) && tenorResult == old(tenorResult) && nextResultId == old(nextResultId)
        case Page(objs, next) =>
          && r == Pass
          && tenorResult == old(tenorResult) + PageRows(rid, old(nextResultId), MaxPosition(old(tenorResult), rid), objs, next)
          && nextResultId == old(nextResultId) + |objs|
    {
      if t.blockUid !in slackRequest {
        return Fail(UnknownRequest);
      }
      var request := slackRequest[t.blockUid];
      var answer := upstream(SearchFor(t.apiKey, request.searchString, cursor));
      if answer.HttpError? {
        return Fail(UpstreamStatus(answer.statusCode));
      }
      var objs, next := answer.results, answer.next;
      ghost var rows0, id0, m0 := tenorResult, nextResultId, MaxPosition(tenorResult, request.id);
      ghost var page := PageRows(request.id, id0, m0, objs, next);
      for i := 0 to |objs|
        invariant slackRequest == old(slackRequest) && nextRequestId == old(nextRequestId)
        invariant tenorResult == rows0 + page[..i]
        invariant nextResultId == id0 + i
        invariant MaxPosition(tenorResult, request.id) == m0 + i
      {
        var pos := if i + 1 == |objs| then next else None;
        var row := ResultRow(nextResultId, request.id, MaxPosition(tenorResult, request.id) + 1, objs[i], Fetched, pos);
        PageRowsAt(request.id, id0, m0, objs, next, i);
        assert page[..i + 1] == page[..i] + [row];
        MaxPositionAppend(tenorResult, request.id, row);
        tenorResult := tenorResult + [row];
        nextResultId := nextResultId + 1;
      }
      assert page[..|objs|] == page;
      r := Pass;
    }

    /** Tenor.next_image, rolled back as a whole when it fails. */
    method NextImage(t: Tenor, upstream: SearchQuery -> Upstream) returns (r: Result<GifObject, Error>)
      requires Valid()
      modifies this
      ensures Valid()
      ensures slackRequest == old(slackRequest) && nextRequestId == old(nextRequestId)
      ensures t.blockUid !in slackRequest ==>
        r == Failure(UnknownRequest) && tenorResult == old(tenorResult) && nextResultId == old(nextResultId)
      ensures t.blockUid in slackRequest ==>
        var st := Advance(old(tenorResult), slackRequest[t.blockUid].id, old(nextResultId), t.apiKey,
                          slackRequest[t.blockUid].searchString, upstream);
        r == st.out && tenorResult == st.rows && nextResultId == st.nextId
    {
      ghost var known := t.blockUid in slackRequest;
      ghost var rid := if known then slackRequest[t.blockUid].id else 0;
      var rows0, id0 := tenorResult, nextResultId;
      var previous := SetImageAsUsedAndGet(t.blockUid);
      var next := NextImageFromDb(t.blockUid);
      if next.None? {
        var pos: Option<string> := None;
        if previous.Some? {
          pos := previous.value.nextPos;
          if pos.None? {
            tenorResult, nextResultId := rows0, id0;
            return Failure(MissingCursor(previous.value.id));
          }
        }
        var fetched := QueryTenor(t, pos, upstream);
        if fetched.Fail? {
          tenorResult, nextResultId := rows0, id0;
          return Failure(fetched.error);
        }
        next := NextImageFromDb(t.blockUid);
        if next.None? {
          tenorResult, nextResultId := rows0, id0;
          return Failure(NoMoreImages);
        }
      }
      r := Success(next.value.gifObject);
      if known {
        assert rid in RequestIds(slackRequest);
        AdvanceKeepsValid(rows0, RequestIds(slackRequest), rid, id0, t.apiKey, slackRequest[t.blockUid].searchString, upstream);
        AdvanceKeepsWellFormed(rows0, rid, id0, t.apiKey, slackRequest[t.blockUid].searchString, upstream);
      }
    }

    /** Tenor.get_send_image_and_delete_others, rolled back as a whole when
        it fails. */
    method GetSendImageAndDeleteOthers(t: Tenor) returns (r: Result<GifObject, Error>)
      requires Valid()
      modifies this
      ensures Valid()
      ensures slackRequest == old(slackRequest) && nextRequestId == old(nextRequestId) && nextResultId == old(nextResultId)
      ensures t.blockUid !in slackRequest ==> r == Failure(NothingToSend) && tenorResult == old(tenorResult)
      ensures t.blockUid in slackRequest ==>
        var st := SelectForSend(old(tenorResult), slackRequest[t.blockUid].id, old(nextResultId));
        r == st.out && tenorResult == st.rows
    {
      var rows0 := tenorResult;
      var send := SetImageAsUsedAndGet(t.blockUid);
      if send.None? {
        tenorResult := rows0;
        return Failure(NothingToSend);
      }
      var rid := slackRequest[t.blockUid].id;
      tenorResult := WithoutFetched(tenorResult, rid);
      r := Success(send.value.gifObject);
      assert rid in RequestIds(slackRequest);
      SelectForSendKeeps(rows0, RequestIds(slackRequest), rid, nextResultId);
    }

    /** The INSERT of a new search (main.py): a new SELECTING request row
        under the next primary key; a uid already present violates UNIQUE
        (block_uid) and nothing is inserted. */
    method InsertRequest(timestamp: string, userId: string, conversationId: string, blockUid: string, searchString: string)
      returns (r: Outcome<Error>)
      requires Valid()
      modifies this
      ensures Valid()
      ensures tenorResult == old(tenorResult) && nextResultId == old(nextResultId)
      ensures blockUid in old(slackRequest) ==>
        r == Fail(DuplicateBlockUid) && slackRequest == old(slackRequest) && nextRequestId == old(nextRequestId)
      ensures blockUid !in old(slackRequest) ==>
        && r == Pass
        && slackRequest == old(slackRequest)[blockUid := RequestRow(old(nextRequestId), timestamp, userId, conversationId,
                                                                     blockUid, searchString, RequestStatus.Selecting)]
        && nextRequestId == old(nextRequestId) + 1
    {
      if blockUid in slackRequest {
        return Fail(DuplicateBlockUid);
      }
      var row := RequestRow(nextRequestId, timestamp, userId, conversationId, blockUid, searchString, RequestStatus.Selecting);
      InsertRequestKeepsValid(slackRequest, tenorResult, nextRequestId, nextResultId, row);
      slackRequest := slackRequest[blockUid := row];
      nextRequestId := nextRequestId + 1;
      r := Pass;
    }

    /** UPDATE slack_request SET status = ? WHERE block_uid = ? (main.py),
        whatever the current status; the rowcount is 0 for an unknown uid. */
    method SetRequestStatus(uid: string, status: RequestStatus) returns (rowcount: nat)
      requires Valid()
      modifies this
      ensures Valid()
      ensures tenorResult == old(tenorResult) && nextResultId == old(nextResultId) && nextRequestId == old(nextRequestId)
      ensures uid !in old(slackRequest) ==> rowcount == 0 && slackRequest == old(slackRequest)
      ensures uid in old(slackRequest) ==>
        rowcount == 1 && slackRequest == old(slackRequest)[uid := old(slackRequest)[uid].(status := status)]
    {
      if uid !in slackRequest {
        return 0;
      }
      SetRequestStatusKeepsValid(slackRequest, tenorResult, nextRequestId, nextResultId, uid, status);
      slackRequest := slackRequest[uid := slackRequest[uid].(status := status)];
      rowcount := 1;
    }
  }
}
