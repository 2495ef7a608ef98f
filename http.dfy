/** HTTP as the core sees it. Requests are not modelled; a response arrives as
    an input record, or as a transport failure. */
module Http {
  import opened Wrappers

  /** A response: its status code, its `ETag` header ("" when absent, as
      `Header.Get` gives it) and its body (`None` when reading it fails). */
  datatype Response = Response(status: int, etag: string, body: Option<string>)

  /** What `client.Do` returns: a response, or a transport error. */
  type Transport = Result<Response>

  const StatusOK: int := 200
  const StatusNotModified: int := 304
}
