/** The HTTP exchange as the driver sees it. The transport itself (HttpClient) is not
    modelled: a request is a value the driver hands over, and what comes back is an input. */
module Http {
  import opened Errors

  newtype byte = b: int | 0 <= b < 256

  datatype Verb = Get | Post

  /** The headers ClickHouseConnection.AddDefaultHttpHeaders sets. The Basic
      Authorization value is kept as the "username:password" text before Base64 encoding. */
  datatype Headers = Headers(basicCredentials: string, accept: seq<string>, acceptEncoding: seq<string>)

  /** What ClickHouseUriBuilder is given to build the request URI: the database, the
      session id, the compression flag, the custom parameters (a Dictionary) and the
      query parameters added with AddQueryParameter, in the order they were added. */
  datatype UriSpec = UriSpec(
    database: string,
    sessionId: Option<string>,
    useCompression: bool,
    customParameters: map<string, string>,
    queryParameters: seq<(string, string)>)

  /** The request body of a query: the SQL text as "text/sql" content, gzip-wrapped
      (CompressedContent) when the connection uses compression. */
  datatype Content = SqlContent(sql: string, gzip: bool)

  datatype Request = Request(verb: Verb, uri: UriSpec, headers: Headers, content: Option<Content>)

  /** A response: whether its status is 2xx, its headers in order, and its body. */
  datatype Response = Response(success: bool, headers: seq<(string, string)>, body: seq<byte>)

  /** What the transport gives back for one request: a response, or an exception. */
  datatype Exchange = TransportFailure | Responded(response: Response)

  /** The parameter name of the ArgumentException Dictionary.Add throws for a duplicate
      key: it names none, so its ParamName is null, written here as "". */
  const DuplicateKeyParamName: string := ""

  /** Dictionary.Add on the custom parameters, which throws when the key is already there. */
  function AddCustomParameter(uri: UriSpec, key: string, value: string): (r: Result<UriSpec>)
    ensures r.Ok? <==> key !in uri.customParameters
    ensures key in uri.customParameters ==> r == Err(ArgumentError(DuplicateKeyParamName))
    ensures r.Ok? ==> r.value.customParameters == uri.customParameters[key := value]
    ensures r.Ok? ==> r.value.(customParameters := uri.customParameters) == uri
  {
    if key in uri.customParameters then Err(ArgumentError(DuplicateKeyParamName))
    else Ok(uri.(customParameters := uri.customParameters[key := value]))
  }
}
