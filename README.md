# slack-tenor in Dafny

slack-tenor is a Slack app. A user types `/tenor <query>`. The app answers
privately with one GIF from the Tenor search service and three buttons: Send,
Next and Cancel.

- Next replaces the GIF with the next one.
- Send posts the current GIF to the channel, under a line naming the user and
  the query.
- Cancel withdraws the request.

Each request is a row of the `slack_request` table. It owns a queue of
`tenor_result` rows, one per upstream GIF. Each result row moves
FETCHED → SELECTING → USED: FETCHED means queued, SELECTING means on screen,
USED means already shown or sent. When a request's queue runs dry, the next
page is fetched from Tenor with the cursor stored on the row that was just
on screen, which is the last row of the previous page; with no row on
screen the search starts again from the first page. That is the case for a
new request, and also for a Next click that comes after Send: a send leaves
the request with only USED rows, so the repeated search may show the first
page's GIFs again, in new rows.

This project models that engine and its surroundings:

- `Schema`: the two tables and the constraints of the schema script.
- `Engine`: the engine's effect on the result table, as functions on table
  values, with lemmas about those functions.
- `TenorSearch`: the `Tenor` class. Each database transaction is a method of
  a `Store` class whose fields are the tables. Each method is proved to agree
  with the `Engine` functions and to keep `Store.Valid()`, which is the schema
  constraints plus the queue invariant.
- `Handlers`: the database effects and the order of the engine calls in the
  Slack handlers.
- `Image` and `BlockResults`: how a GIF's URL is chosen and how the Slack
  message payloads are built.
- `LogSetup`: the string logic of the multi-line log formatter and the
  stdout level filter.

The queue invariant (`Engine.WellFormed`) says three things about every
request:

- Its positions are 1..n with no gaps.
- Its USED rows come before its SELECTING row, which comes before its FETCHED
  rows.
- At most one of its rows is SELECTING.

Behaviour where the code is followed literally:

- The alt-text strip removes `" GIF"` with its leading space, and it is
  case-sensitive (`blockresults.py:33`).
- The POSTED and CANCELLED updates overwrite any status. A posted request
  can be cancelled.
- The upstream fetch happens inside the same transaction as the status
  changes (`tenor_search.py:29`, `41`). A failed fetch therefore rolls back
  the USED promotion of the image that was shown.

## Model

| member | source | states |
|---|---|---|
| Strings.EndsWithMatchesLast | logsetup.py:35 | `str.endswith`: true exactly when the suffix fits and matches the last characters one by one, and then the text is its prefix followed by the suffix |
| Strings.RemoveSuffix | blockresults.py:33 | `str.removesuffix`: with the suffix present, the result plus the suffix is the input; without it, the input is unchanged |
| Strings.RemoveSuffixOfAppended | blockresults.py:33 | removing a suffix undoes appending it, and removes exactly one copy |
| Strings.Spaces | logsetup.py:37 | `' ' * n` has length n and holds only spaces |
| Strings.ReplaceChar | logsetup.py:40 | `str.replace` of one character: with a replacement free of that character, none is left; text without it comes back unchanged; a non-empty replacement never shortens the text |
| Strings.ReplaceCharAppend | logsetup.py:40 | `str.replace` of one character works piece by piece: the replaced concatenation is the concatenation of the replaced pieces, and a lone occurrence becomes the replacement |
| Strings.DropAfterReplaceChar | logsetup.py:40 | replacing each `c` by `c` followed by k characters loses nothing: dropping the k characters after each `c` restores the text |
| Image.Largest | image.py:12-13 | None exactly when no variant qualifies (size strictly below 2 MiB, key ending in "gif"); otherwise a qualifying variant that no qualifying variant exceeds, and the earliest of those, as the stable sort gives |
| Image.ChoiceIsUnique | image.py:13 | the choice conditions fix the chosen variant |
| Image.GetUrl | image.py:10-16 | only the first media dictionary is consulted; an empty media list or an empty selection fails and never falls back; a success is the URL of the chosen variant |
| BlockResults.BlockResults.ImageOf | blockresults.py:31-39 | the image block fails exactly when `get_url` does; otherwise its URL is `get_url`'s and its alt text is the content description with one trailing " GIF" removed, or the description unchanged when it has no such suffix |
| BlockResults.BlockResults.UserPostedSection | blockresults.py:22-29 | a mrkdwn section whose text is `"<@" + user_id + "> /tenor " + query` |
| BlockResults.BlockResults.ActionButtons | blockresults.py:41-78 | an actions block tagged with the request's block uid, with exactly three plain-text emoji buttons: Send, Next, Cancel (action_send, action_next, action_cancel); only Send has a style, and it is "primary" |
| BlockResults.BlockResults.EphemeralMessage | blockresults.py:10-14 | exactly the image block and then the actions block; fails when the image block does |
| BlockResults.BlockResults.CommandPostMessage | blockresults.py:16-20 | exactly the user section and then the image block, with no actions block; fails when the image block does |
| LogSetup.HeaderLength | logsetup.py:34-36 | the header is what precedes the message when the formatted line ends with it; otherwise the length is 0 |
| LogSetup.Replacement | logsetup.py:37-39 | a newline followed by `header_length` columns of spaces; with at least two columns, the last two read "\| " |
| LogSetup.AppendOnNewLine | logsetup.py:24-31 | the text so far is kept, then the extra text; a newline goes between them exactly when the text does not already end with one |
| LogSetup.Reindent | logsetup.py:40 | re-indentation changes nothing in a string without newlines and never shortens one |
| LogSetup.ReindentAtNewline | logsetup.py:37-40 | each newline becomes `Replacement(header_length)`, and the text on either side is re-indented on its own; with `Reindent`'s identity on text without newlines, this fixes the result for every string |
| LogSetup.WithExtras | logsetup.py:17-31 | the assembled string starts with the formatted line; with no traceback and no stack it is that line; with a traceback and no stack it is `AppendOnNewLine` of the line and the traceback; with a stack it is `AppendOnNewLine` of the string without the stack and the stack, so a traceback comes before the stack and is kept |
| LogSetup.ReindentIsReversible | logsetup.py:40 | re-indentation loses nothing: dropping the `header_length` characters after each newline restores the assembled string |
| LogSetup.Format | logsetup.py:10-42 | the record gets the message, the time stamp when the format uses the time, and a cached traceback, rendered only when none is cached; the result is the formatted line, the traceback and the stack, each on a new line, with every newline re-indented by the header length |
| LogSetup.StdOutFilter | logsetup.py:46-47 | DEBUG, INFO and WARNING records pass to stdout; ERROR and CRITICAL records do not |
| LogSetup.StreamsPartitionLevels | logsetup.py:46-47 | stdout takes a record exactly when its level is below ERROR, and the stderr handler (level ERROR, line 76) takes the rest |
| Schema.ParseRequestStatus | create-db.py:22 | a request status is one of SELECTING, CANCELLED and POSTED, and each parses back to its own text |
| Schema.ParseResultStatus | create-db.py:38 | a result status is one of FETCHED, SELECTING and USED, and each parses back to its own text |
| Schema.StatusTextsRoundTrip | create-db.py:22 | every status value is stored as a text that the CHECK constraint admits and parses back to that value |
| Schema.InsertRequestKeepsValid | create-db.py:12-23 | inserting a request under a new block_uid with the next primary key keeps UNIQUE(block_uid), the primary key and every result row's foreign key |
| Schema.SetRequestStatusKeepsValid | create-db.py:12-23 | updating a request's status keeps every constraint and the set of request ids |
| Engine.Lowest | tenor_search.py:102-109 | the row chosen by `ORDER BY position ASC LIMIT 1`: None exactly when the request has no row in that status, otherwise the row in that status with the lowest position |
| Engine.MaxOf | tenor_search.py:157 | `MAX(position)`: NULL exactly when the request has no rows, otherwise a position the request holds that none of its rows exceeds |
| Engine.MaxPositionBounds | tenor_search.py:157 | `COALESCE(MAX(position), 0)` bounds every position of the request; with no gaps it is 0 or a position the request holds |
| Engine.MaxPositionAppend | tenor_search.py:153-165 | a row inserted at COALESCE(MAX)+1 becomes the new maximum |
| Engine.PageRows | tenor_search.py:146-165 | a page of k objects gives exactly k rows |
| Engine.PageRowsAt | tenor_search.py:146-165 | the i-th row of a page has the next id after i others, position max+1+i, the i-th object and status FETCHED; only the last row carries the page's `next` cursor |
| Engine.WithoutFetched | tenor_search.py:55-63 | the DELETE keeps exactly the rows that are not this request's FETCHED rows, in id order |
| Engine.SameShapeKeepsValid | create-db.py:29-39 | a change of statuses alone keeps the primary key, UNIQUE(request, position), the foreign key and the absence of gaps |
| Engine.Promote | tenor_search.py:100-121 | `__record_state_transition` keeps the table's length; with no row returned the table is unchanged; a returned row belongs to the request and is in the new status |
| Engine.PromoteKeepsShape | tenor_search.py:100-121 | a transition changes nothing but statuses, only from the old status to the new one, and no row other than the one `Lowest` picks |
| Engine.PromotePicksLowest | tenor_search.py:100-121 | no row is returned exactly when the request has no row in the old status; otherwise the returned row is a lowest-position row of that status, now in the new status, and stands at that row's index in the table |
| Engine.PromoteToUsed | tenor_search.py:94-95 | moving the shown row to USED keeps the queue ordered with at most one SELECTING row, and leaves the request with none |
| Engine.PromoteToSelecting | tenor_search.py:97-98 | showing the lowest FETCHED row of a request that shows nothing keeps the queue ordered, makes that row the only SELECTING one, and leaves every lower row USED and every higher row FETCHED |
| Engine.AppendPageKeepsValid | tenor_search.py:146-165 | appending a page keeps the primary key, UNIQUE(request, position) and the foreign key |
| Engine.AppendPageKeepsWellFormed | tenor_search.py:146-165 | appending a page keeps every queue gapless, ordered and with at most one row shown |
| Engine.WithoutFetchedKeeps | tenor_search.py:55-63 | the DELETE keeps every constraint and every queue's shape, and leaves the request without FETCHED rows |
| Engine.Refill | tenor_search.py:41-44 | the refill half of `next_image`: every failure rolls back the table and the id counter; a success needs a page from upstream and consumes exactly one id per GIF of the page |
| Engine.RefillKeepsValid | tenor_search.py:41-44 | the refill half of `next_image` (append one upstream page, show its lowest FETCHED row, or roll back) keeps the schema constraints and never moves the id counter back |
| Engine.Advance | tenor_search.py:28-46 | `next_image`: every failure leaves the table and the id counter as they were (the transaction rolls back), and the counter never moves back |
| Engine.AdvanceKeepsValid | tenor_search.py:28-46 | `next_image` keeps the schema constraints and never moves the id counter back |
| Engine.ShowNextKeepsWellFormed | tenor_search.py:28-31 | promote-to-USED followed by promote-to-SELECTING keeps the queue well formed |
| Engine.RefillKeepsWellFormed | tenor_search.py:41-44 | for a request with nothing shown, a refill (the page appended and its lowest FETCHED row shown, or everything rolled back) keeps the queue well formed |
| Engine.AdvanceKeepsWellFormed | tenor_search.py:28-46 | `next_image` keeps every queue well formed, so at most one row per request is ever SELECTING |
| Engine.RefillMovesForward | tenor_search.py:41-44 | after the shown row is used, a refill moves each existing row at most one step forward and adds exactly as many rows as ids consumed, all of this request and none USED |
| Engine.AdvanceMovesForward | tenor_search.py:28-46 | every row stays at its index and either keeps its status or takes one step FETCHED→SELECTING or SELECTING→USED; the added rows are exactly as many as the ids consumed, all belong to this request, and none is USED |
| Engine.AdvanceFromQueue | tenor_search.py:28-31 | while the request has a FETCHED row, `next_image` succeeds and shows the lowest one; it adds no rows, consumes no ids, and gives the same result whatever the upstream service would answer |
| Engine.RefillShowsFirst | tenor_search.py:41-44 | with no FETCHED row left, a refill shows the page's first object, at position max+1, and fails exactly when the page is empty |
| Engine.RefillFromDry | tenor_search.py:41-44 | with no FETCHED row left, an error status fails with `UpstreamStatus` and an empty page with `NoMoreImages`, both rolled back; otherwise the page's first image is shown and the page's ids are consumed |
| Engine.AdvanceRefill | tenor_search.py:32-44 | with the queue empty, the cursor is None if nothing was shown, and otherwise the shown row's `next_pos`; a null `next_pos` fails before any request is made; an error status or an empty page fails with everything rolled back; otherwise the page's first image is shown and the page's ids are consumed |
| Engine.RefillShowsNew | tenor_search.py:41-44 | with no FETCHED row left, a successful refill shows a SELECTING row above every row the request held before |
| Engine.AdvanceShowsNewImage | tenor_search.py:28-46 | a success shows a SELECTING row of the request, positioned above every row the request had shown or used before, so no row is shown twice (the same GIF can come back in a new row; see `AdvanceAfterSendRestarts`) |
| Engine.SelectForSend | tenor_search.py:48-65 | `get_send_image_and_delete_others`: the id counter is unchanged; a failure is `NothingToSend` with the table unchanged; every row left is an input row, as it was or moved from SELECTING to USED |
| Engine.SelectForSendKeeps | tenor_search.py:48-65 | `get_send_image_and_delete_others` keeps the schema constraints, the queue invariant and the id counter |
| Engine.SelectForSendOutcome | tenor_search.py:48-52 | it fails, with nothing changed, exactly when the request shows nothing; otherwise it returns the shown image |
| Engine.SelectForSendEffect | tenor_search.py:48-65 | after a success every row of the request is USED; the sent row survives as USED; every USED row survives; other requests' rows are exactly as before |
| Engine.SelectForSendLeavesUsed | tenor_search.py:50-63 | after a success the request holds only USED rows, and its shown row is among them, now USED |
| Engine.SelectForSendKeepsUsed | tenor_search.py:55-63 | every row the request had already used survives the send |
| Engine.SelectForSendKeepsOthers | tenor_search.py:55-63 | the DELETE matches only this request, so every other request's rows are exactly as before |
| Engine.AdvanceAfterSendRestarts | tenor_search.py:28-46 | after a successful send, `next_image` has nothing shown and nothing queued, so it asks upstream with no cursor: the search restarts from the first page |
| TenorSearch.NewTenor | tenor_search.py:22-26 | building an engine fails exactly when the API key is unset; otherwise the engine is bound to the key and the block uid |
| TenorSearch.Store.constructor | create-db.py:11-42 | a fresh database has empty tables and both AUTOINCREMENT counters at 1, and satisfies every constraint |
| TenorSearch.Store.FetchRequest | tenor_search.py:82-88 | the row stored under the block uid, or None exactly when there is none |
| TenorSearch.Store.RecordStateTransition | tenor_search.py:100-121 | for a known request, the table and returned row are `Promote`'s; for an unknown uid the JOIN matches nothing and the result is None, with the table unchanged |
| TenorSearch.Store.SetImageAsUsedAndGet | tenor_search.py:94-95 | the SELECTING→USED transition |
| TenorSearch.Store.NextImageFromDb | tenor_search.py:97-98 | the FETCHED→SELECTING transition |
| TenorSearch.Store.QueryTenor | tenor_search.py:123-169 | an unknown uid fails (the search-string lookup returns no row), and so does an error status, both with nothing inserted; otherwise the loop appends exactly `PageRows` for the page above the request's maximum position, and consumes one id per object |
| TenorSearch.Store.NextImage | tenor_search.py:28-46 | the result, table and counter are `Advance`'s; an unknown uid fails with nothing changed; the store stays valid |
| TenorSearch.Store.GetSendImageAndDeleteOthers | tenor_search.py:48-65 | the result and table are `SelectForSend`'s; an unknown uid fails with nothing changed; the store stays valid |
| TenorSearch.Store.InsertRequest | main.py:66-77 | a new uid gets a SELECTING row with the next primary key and the given fields; a uid already present violates UNIQUE(block_uid), and nothing is inserted |
| TenorSearch.Store.SetRequestStatus | main.py:97-106 | the status is overwritten whatever it was; the rowcount is 1 for a known uid and 0 otherwise, and nothing else changes |
| Handlers.TenorSearchCommand | main.py:54-81 | the request row is committed before the engine runs, so it persists whatever happens next; the first image comes from the first upstream page (cursor None); the reply is the ephemeral message for that image |
| Handlers.SendMessage | main.py:83-107 | the send image is taken and the queue dropped before anything else; POSTED is set only after the posted message is built, so a failed send or a failed message leaves the status alone |
| Handlers.NextMessage | main.py:109-120 | `next_image` runs once, the request row is only read, and the reply is the ephemeral message for the new image |
| Handlers.DeleteMessage | main.py:122-139 | CANCELLED is set unconditionally, overwriting POSTED; an unknown uid matches no row and fails on the rowcount check |

## Left out

- HTTP: the Tenor search request is the parameter `upstream`, a function from the request parameters to a page (`results` and `next`) or an error status. A response that is not `ok` becomes an error status. The JSON parsing of the body is not modelled: a missing `next` or `results` key would raise KeyError.
- `register_image_as_shared` (tenor_search.py:67-80) has no database effect and is not modelled. `image.py` defines no `get_id`, so the call at main.py:107 raises AttributeError: first inside the `try`, then again inside the `except` handler at line 78. This happens after the POSTED commit and after the response. `Handlers.SendMessage` therefore returns the posted blocks as if the handler had ended normally.
- The rowcount check after each result INSERT (tenor_search.py:166-167) cannot fire. For an unknown uid, `__query_tenor` fails earlier, at the search-string lookup (lines 124-125, a TypeError on None); for a known uid, the INSERT … SELECT always yields one row. The model has no separate failing branch for it.
- The rowcount check of the request INSERT (main.py:76-77) cannot fire either: a duplicate uid raises IntegrityError instead, which is `DuplicateBlockUid`.
- In `send_message` and `next_message`, `request['user_id']` on a missing row would raise TypeError. The engine call before it already fails for an unknown uid, so this case never arises.
- JSON encoding of `gif_object` (tenor_search.py:92, 165) is not modelled. The object is kept as an immutable value, and encoding followed by decoding is the identity.
- Only the parts of an upstream object that the code reads are modelled: `id`, `content_description`, and `media` as a list of dictionaries of `size` and `url`. A dictionary is the sequence of its entries in insertion order. `get_description` is the field `contentDescription`. A missing key (KeyError) is not modelled.
- Slack: `ack`, `respond`, the error handler (main.py:46-52), argparse and app start-up are not modelled. A handler returns the blocks it would respond with, or the error that ends it.
- `uuid4()`, `datetime.now()` and `Tenor.TENOR_API_KEY` (set at main.py:38) are handler parameters.
- Logging: the log calls, the `print` in image.py:15, `formatTime`, `formatException`, `formatStack`, `formatMessage`, `LogSetup.setup` and `handle_top_exception` (logsetup.py:49-97) are not modelled. Their outputs enter `LogSetup.Format` as strings: the empty string stands for an unset traceback or stack, and None for the time stamp of a format that does not use the time.
- SQLite plumbing is not modelled: database.py, the unused class-level `sqlite3.connect` (tenor_search.py:20), and the file removal and commit in create-db.py. Each `with Database()` block is one method that restores the saved fields when it fails. The AUTOINCREMENT counters are restored too, because `sqlite_sequence` is written in the same transaction.
- SQLite's 64-bit INTEGER is unbounded here. A table can never hold enough rows to overflow it.
- Concurrency: two handlers racing on one request are not modelled. The methods are sequential and atomic.
- TenorSearch.Store.Valid: the invariant includes the queue shape, which the engine maintains but the schema does not enforce. A database edited by other means is outside the model.
