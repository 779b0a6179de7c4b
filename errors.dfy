/** The exceptions the modelled code raises, one constructor per raise site. */
module Errors {

  datatype Error =
    /** RuntimeError in Tenor.__init__ when no API key was configured. */
    | ApiKeyNotSet
    /** TypeError from subscripting the None that the search_string lookup
        returns when no request has the block uid. */
    | UnknownRequest
    /** RuntimeError for a non-ok upstream search response. */
    | UpstreamStatus(statusCode: int)
    /** DatabaseError: the previously shown row has no page cursor. */
    | MissingCursor(previousId: nat)
    /** DatabaseError: a refill left no FETCHED row to show. */
    | NoMoreImages
    /** DatabaseError: no SELECTING row to send. */
    | NothingToSend
    /** sqlite3.IntegrityError from the UNIQUE (block_uid) constraint. */
    | DuplicateBlockUid
    /** DatabaseError raised by a handler when an UPDATE touched a number of
        rows other than one. */
    | RowcountMismatch(rowcount: nat)
    /** IndexError: the gif object has an empty `media` list. */
    | NoMedia
    /** IndexError: no media variant passed the size and format filter. */
    | NoQualifyingVariant
}
