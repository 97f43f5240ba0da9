/** Failure values shared by the record store and its remote file. */
module Outcomes {

  datatype Option<+T> = None | Some(value: T)

  /** The remote requests the handler issues: GET, PUT ?resource=file, PATCH ?action=append,
      PATCH ?action=flush. */
  datatype Request = GetRequest | CreateRequest | AppendRequest | FlushRequest

  /** The exceptions the handler lets escape. */
  datatype Error =
    | RequestFailed(request: Request)  // a non-success response, rethrown with its reason phrase
    | DelimiterNotFound                // LastIndexOf found no delimiter, so Substring(0, -1) threw
    | IndexOutOfRange                  // a list was indexed past its end
    | BadGuid(cell: string)            // Guid.Parse rejected a first-column cell

  datatype Result<+T> = Ok(value: T) | Err(error: Error)
}
