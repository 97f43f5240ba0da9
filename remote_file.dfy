/** The remote file as the handler sees it through the storage REST interface: content that
    GET returns, and data appended but not yet flushed. Every request may fail, standing for
    a non-success HTTP status. */
module RemoteStore {
  import opened Outcomes

  class RemoteFile {
    /** The flushed content: what GET returns. */
    var committed: string
    /** Data appended after the committed content and not yet flushed. */
    var pending: string

    constructor (content: string)
      ensures committed == content && pending == ""
    {
      committed := content;
      pending := "";
    }

    /** GET path: the committed content. */
    method Get() returns (r: Result<string>)
      ensures r.Ok? ==> r.value == committed
      ensures r.Err? ==> r.error == RequestFailed(GetRequest)
    {
      var up: bool :| true;
      r := if up then Ok(committed) else Err(RequestFailed(GetRequest));
    }

    /** PUT path?resource=file&position=0: create the file, or truncate it, dropping any
        unflushed data. */
    method Create() returns (ok: bool)
      modifies this
      ensures committed == (if ok then "" else old(committed))
      ensures pending == (if ok then "" else old(pending))
    {
      ok :| true;
      if ok {
        committed, pending := "", "";
      }
    }

    /** PATCH path?action=append&position=p: stage data; p must be the end of the data
        already written, flushed or not. */
    method Append(position: int, data: string) returns (ok: bool)
      modifies this
      ensures ok ==> position == |old(committed)| + |old(pending)|
      ensures committed == old(committed)
      ensures pending == (if ok then old(pending) + data else old(pending))
    {
      var up: bool :| true;
      ok := up && position == |committed| + |pending|;
      if ok {
        pending := pending + data;
      }
    }

    /** PATCH path?action=flush&position=p: commit everything staged; p must be the length
        of the file once all staged data is in. */
    method Flush(position: int) returns (ok: bool)
      modifies this
      ensures ok ==> position == |old(committed)| + |old(pending)|
      ensures committed == (if ok then old(committed) + old(pending) else old(committed))
      ensures pending == (if ok then "" else old(pending))
    {
      var up: bool :| true;
      ok := up && position == |committed| + |pending|;
      if ok {
        committed, pending := committed + pending, "";
      }
    }
  }
}
