/** main.py: what each Slack handler does to the database, and the order in
    which it calls the engine. The Slack client, the acknowledgement and the
    response calls are not modelled; a handler returns the blocks it would
    respond with, or the error that ends it. */
module Handlers {
  import opened Wrappers
  import opened Errors
  import opened Image
  import opened Schema
  import opened Engine
  import opened BlockResults
  import opened TenorSearch

  /** The /tenor command: the request row is inserted and committed on its
      own, then the engine shows the first image. `blockUid` and `timestamp`
      stand for uuid4() and datetime.now(). */
  method TenorSearchCommand(store: Store, apiKey: Option<string>, blockUid: string, timestamp: string,
                            userId: string, conversationId: string, queryStr: string,
                            upstream: SearchQuery -> Upstream)
    returns (r: Result<seq<Block>, Error>)
    requires store.Valid()
    modifies store
    ensures store.Valid()
    ensures blockUid in old(store.slackRequest) ==>
      && r == Failure(DuplicateBlockUid)
      && store.slackRequest == old(store.slackRequest) && store.nextRequestId == old(store.nextRequestId)
      && store.tenorResult == old(store.tenorResult) && store.nextResultId == old(store.nextResultId)
    ensures blockUid !in old(store.slackRequest) ==>
      && store.slackRequest == old(store.slackRequest)[blockUid := RequestRow(old(store.nextRequestId), timestamp, userId,
                                                                             conversationId, blockUid, queryStr, RequestStatus.Selecting)]
      && store.nextRequestId == old(store.nextRequestId) + 1
      && (apiKey.None? ==>
            r == Failure(ApiKeyNotSet) && store.tenorResult == old(store.tenorResult) && store.nextResultId == old(store.nextResultId))
      && (apiKey.Some? ==>
            var st := Advance(old(store.tenorResult), old(store.nextRequestId), old(store.nextResultId), apiKey.value, queryStr, upstream);
            && store.tenorResult == st.rows && store.nextResultId == st.nextId
            && Refilled(st, old(store.tenorResult), old(store.nextResultId), upstream(SearchFor(apiKey.value, queryStr, None)))
            && r == (if st.out.Failure? then Failure(st.out.error)
                     else BlockResults(blockUid, st.out.value, userId, queryStr).EphemeralMessage()))
  {
    ghost var rows0, rid := store.tenorResult, store.nextRequestId;
    var inserted := store.InsertRequest(timestamp, userId, conversationId, blockUid, queryStr);
    if inserted.Fail? {
      return Failure(inserted.error);
    }
    var tenor := NewTenor(apiKey, blockUid);
    if tenor.Failure? {
      return Failure(tenor.error);
    }
    assert forall i | 0 <= i < |rows0| :: rows0[i].requestId != rid by {
      forall i | 0 <= i < |rows0| ensures rows0[i].requestId != rid {
        assert rows0[i].requestId in RequestIds(old(store.slackRequest));
      }
    }
    AdvanceRefill(rows0, rid, store.nextResultId, apiKey.value, queryStr, upstream);
    var image := store.NextImage(tenor.value, upstream);
    if image.Failure? {
      return Failure(image.error);
    }
    r := BlockResults(blockUid, image.value, userId, queryStr).EphemeralMessage();
  }

  /** The Send button: the shown image is consumed and the unseen queue
      dropped in one transaction, the message to post is built, and only then
      is the request marked POSTED in a second transaction. */
  method SendMessage(store: Store, apiKey: Option<string>, blockUid: string) returns (r: Result<seq<Block>, Error>)
    requires store.Valid()
    modifies store
    ensures store.Valid()
    ensures store.nextRequestId == old(store.nextRequestId) && store.nextResultId == old(store.nextResultId)
    ensures apiKey.None? ==>
      r == Failure(ApiKeyNotSet) && store.slackRequest == old(store.slackRequest) && store.tenorResult == old(store.tenorResult)
    ensures apiKey.Some? && blockUid !in old(store.slackRequest) ==>
      r == Failure(NothingToSend) && store.slackRequest == old(store.slackRequest) && store.tenorResult == old(store.tenorResult)
    ensures apiKey.Some? && blockUid in old(store.slackRequest) ==>
      var request := old(store.slackRequest)[blockUid];
      var st := SelectForSend(old(store.tenorResult), request.id, old(store.nextResultId));
      && store.tenorResult == st.rows
      && (st.out.Failure? ==> r == Failure(st.out.error) && store.slackRequest == old(store.slackRequest))
      && (st.out.Success? ==>
            var blocks := BlockResults(blockUid, st.out.value, request.userId, request.searchString).CommandPostMessage();
            && r == blocks
            && (blocks.Failure? ==> store.slackRequest == old(store.slackRequest))
            && (blocks.Success? ==> store.slackRequest == old(store.slackRequest)[blockUid := request.(status := Posted)]))
  {
    var tenor := NewTenor(apiKey, blockUid);
    if tenor.Failure? {
      return Failure(tenor.error);
    }
    var request := store.FetchRequest(blockUid);
    var image := store.GetSendImageAndDeleteOthers(tenor.value);
    if image.Failure? {
      return Failure(image.error);
    }
    var blocks := BlockResults(blockUid, image.value, request.value.userId, request.value.searchString).CommandPostMessage();
    if blocks.Failure? {
      return blocks;
    }
    var rowcount := store.SetRequestStatus(blockUid, Posted);
    r := if rowcount == 1 then blocks else Failure(RowcountMismatch(rowcount));
  }

  /** The Next button: the engine shows the next image; the request row is
      only read. */
  method NextMessage(store: Store, apiKey: Option<string>, blockUid: string, upstream: SearchQuery -> Upstream)
    returns (r: Result<seq<Block>, Error>)
    requires store.Valid()
    modifies store
    ensures store.Valid()
    ensures store.slackRequest == old(store.slackRequest) && store.nextRequestId == old(store.nextRequestId)
    ensures apiKey.None? ==>
      r == Failure(ApiKeyNotSet) && store.tenorResult == old(store.tenorResult) && store.nextResultId == old(store.nextResultId)
    ensures apiKey.Some? && blockUid !in store.slackRequest ==>
      r == Failure(UnknownRequest) && store.tenorResult == old(store.tenorResult) && store.nextResultId == old(store.nextResultId)
    ensures apiKey.Some? && blockUid in store.slackRequest ==>
      var request := store.slackRequest[blockUid];
      var st := Advance(old(store.tenorResult), request.id, old(store.nextResultId), apiKey.value, request.searchString, upstream);
      && store.tenorResult == st.rows && store.nextResultId == st.nextId
      && r == (if st.out.Failure? then Failure(st.out.error)
               else BlockResults(blockUid, st.out.value, request.userId, request.searchString).EphemeralMessage())
  {
    var tenor := NewTenor(apiKey, blockUid);
    if tenor.Failure? {
      return Failure(tenor.error);
    }
    var request := store.FetchRequest(blockUid);
    var image := store.NextImage(tenor.value, upstream);
    if image.Failure? {
      return Failure(image.error);
    }
    r := BlockResults(blockUid, image.value, request.value.userId, request.value.searchString).EphemeralMessage();
  }

  /** The Cancel button: the request is marked CANCELLED whatever its status,
      so a POSTED request becomes CANCELLED too; an unknown uid matches no
      row. */
  method DeleteMessage(store: Store, blockUid: string) returns (r: Outcome<Error>)
    requires store.Valid()
    modifies store
    ensures store.Valid()
    ensures store.tenorResult == old(store.tenorResult)
    ensures store.nextRequestId == old(store.nextRequestId) && store.nextResultId == old(store.nextResultId)
    ensures blockUid !in old(store.slackRequest) ==>
      r == Fail(RowcountMismatch(0)) && store.slackRequest == old(store.slackRequest)
    ensures blockUid in old(store.slackRequest) ==>
      && r == Pass
      && store.slackRequest == old(store.slackRequest)[blockUid := old(store.slackRequest)[blockUid].(status := Cancelled)]
  {
    var rowcount := store.SetRequestStatus(blockUid, Cancelled);
    r := if rowcount == 1 then Pass else Fail(RowcountMismatch(rowcount));
  }
}
