/** ClickHouseCommand: how a command turns its text and parameters into the POST request
    it sends, how it picks up the query id the server returns, and the guards and LIMIT
    suffixes of its Execute methods. */
module Command {
  import opened Errors
  import opened Text
  import opened Versions
  import opened Http
  import opened Connection
  import opened Binding

  const QueryIdHeader: string := "X-ClickHouse-Query-Id"
  const QueryIdParameter: string := "query_id"
  const NoConnectionMessage: string := "Connection is not set"
  const PostNoConnectionMessage: string := "Connection not set"

  // ---------------------------------------------------------------------------
  // The query id header

  /** ExtractQueryId: the first value of the X-ClickHouse-Query-Id header (header names
      compare ignoring case), or None (null) when the response has no such header. */
  function ExtractQueryId(headers: seq<(string, string)>): Option<string>
    decreases |headers|
  {
    if headers == [] then None
    else if EqualsIgnoreCase(headers[0].0, QueryIdHeader) then Some(headers[0].1)
    else ExtractQueryId(headers[1..])
  }

  /** The query id is found exactly when some header carries it, and then it is the
      value of the first such header. */
  lemma {:induction false} ExtractQueryIdFinds(headers: seq<(string, string)>)
    ensures ExtractQueryId(headers).None? <==>
              forall k :: 0 <= k < |headers| ==> !EqualsIgnoreCase(headers[k].0, QueryIdHeader)
    ensures ExtractQueryId(headers).Some? ==>
              exists k :: 0 <= k < |headers| && EqualsIgnoreCase(headers[k].0, QueryIdHeader)
                && ExtractQueryId(headers).value == headers[k].1
                && forall j :: 0 <= j < k ==> !EqualsIgnoreCase(headers[j].0, QueryIdHeader)
    decreases |headers|
  {
    if headers != [] && !EqualsIgnoreCase(headers[0].0, QueryIdHeader) {
      var tail := headers[1..];
      ExtractQueryIdFinds(tail);
      assert forall k :: 0 <= k < |tail| ==> tail[k] == headers[k + 1];
      if ExtractQueryId(tail).Some? {
        var k :| 0 <= k < |tail| && EqualsIgnoreCase(tail[k].0, QueryIdHeader)
                 && ExtractQueryId(tail).value == tail[k].1
                 && forall j :: 0 <= j < k ==> !EqualsIgnoreCase(tail[j].0, QueryIdHeader);
        assert forall j :: 0 <= j < k + 1 ==> !EqualsIgnoreCase(headers[j].0, QueryIdHeader) by {
          forall j | 0 <= j < k + 1 ensures !EqualsIgnoreCase(headers[j].0, QueryIdHeader) {
            if j > 0 {
              assert headers[j] == tail[j - 1];
            }
          }
        }
      } else {
        forall k | 0 <= k < |headers| ensures !EqualsIgnoreCase(headers[k].0, QueryIdHeader) {
          if k > 0 {
            assert headers[k] == tail[k - 1];
          }
        }
      }
    }
  }

  /** The header name is matched ignoring case: a lower-case spelling is found too. */
  lemma LowerCaseHeaderIsFound(value: string, others: seq<(string, string)>)
    ensures ExtractQueryId([("x-clickhouse-query-id", value)] + others) == Some(value)
  {
    var lower := "x-clickhouse-query-id";
    assert |lower| == |QueryIdHeader|;
    assert forall k :: 0 <= k < |lower| ==> FoldCase(lower[k]) == FoldCase(QueryIdHeader[k]);
    assert ([("x-clickhouse-query-id", value)] + others)[0] == (lower, value);
  }

  // ---------------------------------------------------------------------------
  // Command behaviour

  /** The members of System.Data.CommandBehavior, a flags enumeration; a behaviour is
      the set of flags it combines (Default is the empty set). */
  datatype BehaviorFlag = SingleResult | SchemaOnly | KeyInfo | SingleRow | SequentialAccess | CloseConnection

  /** The switch of ExecuteDbDataReaderAsync: a suffix for exactly SingleRow or exactly
      SchemaOnly, nothing for any other value, combinations included. */
  function WithBehavior(sql: string, behavior: set<BehaviorFlag>): (r: string)
    ensures |r| >= |sql| && r[..|sql|] == sql
  {
    if behavior == {SingleRow} then sql + " LIMIT 1"
    else if behavior == {SchemaOnly} then sql + " LIMIT 0"
    else sql
  }

  /** The text is changed exactly for the two single-flag behaviours, and then by the
      LIMIT suffix that names the number of rows asked for. */
  lemma WithBehaviorChanges(sql: string, behavior: set<BehaviorFlag>)
    ensures WithBehavior(sql, behavior) != sql <==> behavior == {SingleRow} || behavior == {SchemaOnly}
    ensures behavior == {SingleRow} ==> WithBehavior(sql, behavior)[|sql|..] == " LIMIT 1"
    ensures behavior == {SchemaOnly} ==> WithBehavior(sql, behavior)[|sql|..] == " LIMIT 0"
  {
    if behavior == {SingleRow} {
      assert |WithBehavior(sql, behavior)| == |sql| + 8;
    } else if behavior == {SchemaOnly} {
      assert |WithBehavior(sql, behavior)| == |sql| + 8;
    }
  }

  /** A combined behaviour such as SchemaOnly | KeyInfo, or SingleRow with anything
      else, gets no suffix, because the switch compares the whole value. */
  lemma CombinedBehaviorHasNoLimit(sql: string, behavior: set<BehaviorFlag>)
    requires |behavior| >= 2
    ensures WithBehavior(sql, behavior) == sql
  {
    assert |{SingleRow}| == 1 && |{SchemaOnly}| == 1;
  }

  // ---------------------------------------------------------------------------
  // Building the request

  /** The SQL text to send and the query parameters to add, by the one strategy the
      flags select: query parameters with the SQL as it is when the server supports HTTP
      parameters, otherwise inline substitution (first name wins) and no parameters. */
  function BoundQuery(sql: string, parameters: seq<Parameter>, features: set<Feature>,
                      httpFormat: Parameter -> string, inlineFormat: Parameter -> string): Result<(string, seq<(string, string)>)>
  {
    if SupportsHttpParameters in features then Ok((sql, HttpQueryParameters(parameters, httpFormat)))
    else match Substitute(sql, FirstWins(parameters, inlineFormat))
      case Err(e) => Err(e)
      case Ok(text) => Ok((text, []))
  }

  /** The POST request of PostSqlQueryAsync, built on the URI builder `uri` of the
      connection: the bound query, then query_id when the command has a non-empty one. */
  function QueryRequest(uri: UriSpec, headers: Headers, useCompression: bool, features: set<Feature>,
                        sql: string, parameters: seq<Parameter>, queryId: Option<string>,
                        httpFormat: Parameter -> string, inlineFormat: Parameter -> string): Result<Request>
  {
    match BoundQuery(sql, parameters, features, httpFormat, inlineFormat)
    case Err(e) => Err(e)
    case Ok(bound) =>
      var withParameters := uri.(queryParameters := uri.queryParameters + bound.1);
      var body := Some(SqlContent(bound.0, useCompression));
      if queryId.Some? && queryId.value != "" then
        match AddCustomParameter(withParameters, QueryIdParameter, queryId.value)
        case Err(e) => Err(e)
        case Ok(withId) => Ok(Request(Post, withId, headers, body))
      else Ok(Request(Post, withParameters, headers, body))
  }

  /** With HTTP parameters the SQL goes out as it is and every parameter becomes a query
      parameter, in order; nothing can fail on the way but the query_id clash. */
  lemma HttpStrategy(uri: UriSpec, headers: Headers, useCompression: bool, features: set<Feature>,
                     sql: string, parameters: seq<Parameter>, queryId: Option<string>,
                     httpFormat: Parameter -> string, inlineFormat: Parameter -> string)
    requires SupportsHttpParameters in features
    ensures var r := QueryRequest(uri, headers, useCompression, features, sql, parameters, queryId, httpFormat, inlineFormat);
            && (r.Err? <==> queryId.Some? && queryId.value != "" && QueryIdParameter in uri.customParameters)
            && (r.Ok? ==>
                  && r.value.content == Some(SqlContent(sql, useCompression))
                  && r.value.uri.queryParameters == uri.queryParameters + HttpQueryParameters(parameters, httpFormat))
  {
  }

  /** Without HTTP parameters the SQL is substituted from the first-wins table, no query
      parameter is added, and a substitution error is what the command reports. */
  lemma InlineStrategy(uri: UriSpec, headers: Headers, useCompression: bool, features: set<Feature>,
                       sql: string, parameters: seq<Parameter>, queryId: Option<string>,
                       httpFormat: Parameter -> string, inlineFormat: Parameter -> string)
    requires SupportsHttpParameters !in features
    ensures var r := QueryRequest(uri, headers, useCompression, features, sql, parameters, queryId, httpFormat, inlineFormat);
            var bound := Substitute(sql, FirstWins(parameters, inlineFormat));
            && (bound.Err? ==> r == Err(bound.error))
            && (r.Ok? ==>
                  && bound.Ok?
                  && r.value.content == Some(SqlContent(bound.value, useCompression))
                  && r.value.uri.queryParameters == uri.queryParameters)
  {
  }

  /** query_id is added exactly when the command's QueryId is non-empty, with that
      value; the other custom parameters, the verb, and the headers are the connection's. */
  lemma QueryIdAttached(uri: UriSpec, headers: Headers, useCompression: bool, features: set<Feature>,
                        sql: string, parameters: seq<Parameter>, queryId: Option<string>,
                        httpFormat: Parameter -> string, inlineFormat: Parameter -> string)
    ensures var r := QueryRequest(uri, headers, useCompression, features, sql, parameters, queryId, httpFormat, inlineFormat);
            r.Ok? ==>
              && r.value.verb == Post && r.value.headers == headers
              && r.value.uri.database == uri.database && r.value.uri.sessionId == uri.sessionId
              && (queryId.Some? && queryId.value != "" ==>
                    r.value.uri.customParameters == uri.customParameters[QueryIdParameter := queryId.value])
              && (queryId.None? || queryId.value == "" ==> r.value.uri.customParameters == uri.customParameters)
  {
  }

  /** The part of PostSqlQueryAsync between opening the connection and sending: the
      loop over the parameters for the selected strategy, then query_id. */
  method BuildRequest(uri: UriSpec, headers: Headers, useCompression: bool, features: set<Feature>,
                      sql: string, parameters: seq<Parameter>, queryId: Option<string>,
                      httpFormat: Parameter -> string, inlineFormat: Parameter -> string)
    returns (r: Result<Request>)
    ensures r == QueryRequest(uri, headers, useCompression, features, sql, parameters, queryId, httpFormat, inlineFormat)
  {
    var builder := uri;
    var text := sql;
    if SupportsHttpParameters in features {
      var qs := FormatHttp(parameters, httpFormat);
      builder := builder.(queryParameters := builder.queryParameters + qs);
    } else {
      var table := FormatInline(parameters, inlineFormat);
      var substituted := SubstituteParameters(sql, table);
      if substituted.Err? {
        return Err(substituted.error);
      }
      text := substituted.value;
      assert builder.queryParameters + [] == builder.queryParameters;
    }
    if queryId.Some? && queryId.value != "" {
      var withId := AddCustomParameter(builder, QueryIdParameter, queryId.value);
      if withId.Err? {
        return Err(withId.error);
      }
      builder := withId.value;
    }
    return Ok(Request(Post, builder, headers, Some(SqlContent(text, useCompression))));
  }

  /** What the command gets back from the transport: HandleError turns a non-2xx status
      into a server error carrying the SQL that was sent. */
  function PostResult(exchange: Exchange, decode: seq<byte> -> string, sql: string): (r: Result<Response>)
    ensures r.Ok? ==> exchange.Responded? && r.value == exchange.response && r.value.success
    ensures exchange.TransportFailure? ==> r == Err(TransportError)
    ensures exchange.Responded? && !exchange.response.success ==>
              r == Err(ServerError(decode(exchange.response.body), sql))
    ensures exchange.Responded? && exchange.response.success ==> r == Ok(exchange.response)
  {
    match exchange
    case TransportFailure => Err(TransportError)
    case Responded(response) =>
      if !response.success then Err(ServerError(decode(response.body), sql)) else Ok(response)
  }

  /** The QueryId after the send: the response's query id, found or not, and the old one
      only when no response came back. */
  function QueryIdAfter(exchange: Exchange, before: Option<string>): Option<string> {
    match exchange
    case TransportFailure => before
    case Responded(response) => ExtractQueryId(response.headers)
  }

  /** A response without the header clears QueryId, even one the caller had set. */
  lemma MissingHeaderClearsQueryId(response: Response, before: Option<string>)
    requires forall k :: 0 <= k < |response.headers| ==> !EqualsIgnoreCase(response.headers[k].0, QueryIdHeader)
    ensures QueryIdAfter(Responded(response), before) == None
  {
    ExtractQueryIdFinds(response.headers);
  }

  /** The row count ExecuteNonQueryAsync reads: 0 for an empty body, otherwise the
      7-bit encoded integer at its start (`readCount`, ExtendedBinaryReader). */
  function RowCount(body: seq<byte>, readCount: seq<byte> -> int): int {
    if body == [] then 0 else readCount(body)
  }

  class ClickHouseCommand {
    var connection: ClickHouseConnection?
    var commandText: string
    var queryId: Option<string>
    /** The command's parameter collection, in the order the parameters were added. */
    var parameters: seq<Parameter>

    constructor (connection: ClickHouseConnection?)
      ensures this.connection == connection && commandText == "" && queryId == None && parameters == []
    {
      this.connection := connection;
      commandText := "";
      queryId := None;
      parameters := [];
    }

    /** The connection is in a consistent state whenever there is one. */
    ghost predicate Valid()
      reads this, connection
    {
      connection != null ==> connection.Valid()
    }

    /** PostSqlQueryAsync. `openExchange` is what the transport returns for the version
        probe, should the connection need opening, and `exchange` what it returns for the
        query; `httpFormat` and `inlineFormat` are HttpParameterFormatter.Format and
        InlineParameterFormatter.Format. */
    method PostSqlQueryAsync(sql: string, openExchange: Exchange, exchange: Exchange, decode: seq<byte> -> string,
                             httpFormat: Parameter -> string, inlineFormat: Parameter -> string)
      returns (r: Result<Response>)
      requires Valid()
      modifies this, connection
      ensures Valid()
      ensures connection == old(connection) && commandText == old(commandText) && parameters == old(parameters)
      ensures old(connection) == null ==> r == Err(InvalidOperation(PostNoConnectionMessage)) && queryId == old(queryId)
      ensures connection != null ==> Posted(sql, openExchange, exchange, decode, httpFormat, inlineFormat, r)
    {
      if connection == null {
        return Err(InvalidOperation(PostNoConnectionMessage));
      }
      var c := connection;
      var uri := c.CreateUriBuilder();
      var opening := c.EnsureOpenAsync(openExchange, decode);
      if opening.Fail? {
        return Err(opening.error);
      }
      r := SendQuery(uri, sql, exchange, decode, httpFormat, inlineFormat);
    }

    /** The rest of PostSqlQueryAsync once the connection is open: the request is built
        on `uri` with the connection's flags, handed to the transport, and the response
        sets QueryId and the result. */
    method SendQuery(uri: UriSpec, sql: string, exchange: Exchange, decode: seq<byte> -> string,
                     httpFormat: Parameter -> string, inlineFormat: Parameter -> string)
      returns (r: Result<Response>)
      requires Valid() && connection != null && connection.state == Open
      modifies this, connection
      ensures Valid()
      ensures connection == old(connection) && commandText == old(commandText) && parameters == old(parameters)
      ensures connection.SettingsUnchanged() && connection.state == Open
      ensures connection.supportedFeatures == old(connection.supportedFeatures)
      ensures Sent(old(QueryRequest(uri, connection.DefaultHeaders(), connection.useCompression,
                                    connection.supportedFeatures, sql, parameters, queryId, httpFormat, inlineFormat)),
                   exchange, decode, r)
    {
      var c := connection;
      var features := c.SupportedFeatures();
      var built := BuildRequest(uri, c.DefaultHeaders(), c.useCompression, features.value,
                                sql, parameters, queryId, httpFormat, inlineFormat);
      if built.Err? {
        return Err(built.error);
      }
      var request := built.value;
      c.Record(request);
      if exchange.TransportFailure? {
        return Err(TransportError);
      }
      var response := exchange.response;
      queryId := ExtractQueryId(response.headers);
      if !response.success {
        return Err(ServerError(decode(response.body), request.content.value.sql));
      }
      return Ok(response);
    }

    /** What sending the request `request` did: nothing, when it could not be built;
        otherwise it joined the sent requests and the response set QueryId and the
        result. */
    twostate predicate Sent(request: Result<Request>, exchange: Exchange, decode: seq<byte> -> string, new r: Result<Response>)
      reads this, connection
      requires connection != null && old(connection) == connection
    {
      && (request.Err? ==> r == Err(request.error) && queryId == old(queryId) && connection.sent == old(connection.sent))
      && (request.Ok? ==>
            && connection.sent == old(connection.sent) + [request.value]
            && request.value.content.Some?
            && r == PostResult(exchange, decode, request.value.content.value.sql)
            && queryId == QueryIdAfter(exchange, old(queryId)))
    }

    /** The effect of PostSqlQueryAsync on a command with a connection. EnsureOpenAsync
        runs first and its error, if any, is the result; otherwise the request is built on
        the URI builder taken before opening and with the flags of the open connection,
        sent after the probe, and the response sets QueryId and the result. QueryId stays
        as it was when the request cannot be built or no response comes back. */
    twostate predicate Posted(sql: string, openExchange: Exchange, exchange: Exchange, decode: seq<byte> -> string,
                              httpFormat: Parameter -> string, inlineFormat: Parameter -> string, new r: Result<Response>)
      reads this, connection
      requires connection != null && old(connection) == connection
      requires old(connection.Valid())
    {
      var c := connection;
      var opening := old(c.EnsureOpenResult(openExchange, decode));
      var before := old(c.sent) + old(c.EnsureOpenSent());
      && c.SettingsUnchanged()
      && (opening.Err? ==> r == Err(opening.error) && queryId == old(queryId) && c.state == Broken && c.sent == before)
      && (opening.Ok? ==>
            var request := QueryRequest(old(c.CreateUriBuilder()), old(c.DefaultHeaders()), old(c.useCompression),
                                        opening.value, sql, parameters, old(queryId), httpFormat, inlineFormat);
            && c.state == Open && c.supportedFeatures == opening.value
            && (request.Err? ==> r == Err(request.error) && queryId == old(queryId) && c.sent == before)
            && (request.Ok? ==>
                  && c.sent == before + [request.value]
                  && r == PostResult(exchange, decode, request.value.content.value.sql)
                  && queryId == QueryIdAfter(exchange, old(queryId))))
    }

    /** ExecuteNonQueryAsync: the command text is posted and the row count read from
        the start of the response body (`readCount`, the 7-bit encoded integer), 0 when
        the body is empty. */
    method ExecuteNonQueryAsync(openExchange: Exchange, exchange: Exchange, decode: seq<byte> -> string,
                                httpFormat: Parameter -> string, inlineFormat: Parameter -> string,
                                readCount: seq<byte> -> int)
      returns (r: Result<int>)
      requires Valid()
      modifies this, connection
      ensures Valid()
      ensures connection == old(connection) && commandText == old(commandText) && parameters == old(parameters)
      ensures old(connection) == null ==> r == Err(InvalidOperation(NoConnectionMessage)) && queryId == old(queryId)
      ensures connection != null ==> exists posted: Result<Response> ::
                && Posted(commandText, openExchange, exchange, decode, httpFormat, inlineFormat, posted)
                && r == (if posted.Ok? then Ok(RowCount(posted.value.body, readCount)) else Err(posted.error))
    {
      if connection == null {
        return Err(InvalidOperation(NoConnectionMessage));
      }
      var response := PostSqlQueryAsync(commandText, openExchange, exchange, decode, httpFormat, inlineFormat);
      if response.Err? {
        return Err(response.error);
      }
      return Ok(RowCount(response.value.body, readCount));
    }

    /** ExecuteRawResultAsync: the response to the command text, as it is. */
    method ExecuteRawResultAsync(openExchange: Exchange, exchange: Exchange, decode: seq<byte> -> string,
                                 httpFormat: Parameter -> string, inlineFormat: Parameter -> string)
      returns (r: Result<Response>)
      requires Valid()
      modifies this, connection
      ensures Valid()
      ensures connection == old(connection) && commandText == old(commandText) && parameters == old(parameters)
      ensures old(connection) == null ==> r == Err(InvalidOperation(NoConnectionMessage)) && queryId == old(queryId)
      ensures connection != null ==> Posted(commandText, openExchange, exchange, decode, httpFormat, inlineFormat, r)
    {
      if connection == null {
        return Err(InvalidOperation(NoConnectionMessage));
      }
      r := PostSqlQueryAsync(commandText, openExchange, exchange, decode, httpFormat, inlineFormat);
    }

    /** ExecuteDbDataReaderAsync: the command text with the LIMIT suffix the behaviour
        asks for is posted; the response is what the data reader would read. */
    method ExecuteDbDataReaderAsync(behavior: set<BehaviorFlag>, openExchange: Exchange, exchange: Exchange,
                                    decode: seq<byte> -> string, httpFormat: Parameter -> string,
                                    inlineFormat: Parameter -> string)
      returns (r: Result<Response>)
      requires Valid()
      modifies this, connection
      ensures Valid()
      ensures connection == old(connection) && commandText == old(commandText) && parameters == old(parameters)
      ensures old(connection) == null ==> r == Err(InvalidOperation(NoConnectionMessage)) && queryId == old(queryId)
      ensures connection != null ==>
                Posted(WithBehavior(commandText, behavior), openExchange, exchange, decode, httpFormat, inlineFormat, r)
    {
      if connection == null {
        return Err(InvalidOperation(NoConnectionMessage));
      }
      var sql := WithBehavior(commandText, behavior);
      r := PostSqlQueryAsync(sql, openExchange, exchange, decode, httpFormat, inlineFormat);
    }

    /** ExecuteScalarAsync: a data reader with the default behaviour, so the command text
        goes out without a suffix and the null-connection guard is the reader's. */
    method ExecuteScalarAsync(openExchange: Exchange, exchange: Exchange, decode: seq<byte> -> string,
                              httpFormat: Parameter -> string, inlineFormat: Parameter -> string)
      returns (r: Result<Response>)
      requires Valid()
      modifies this, connection
      ensures Valid()
      ensures connection == old(connection) && commandText == old(commandText) && parameters == old(parameters)
      ensures old(connection) == null ==> r == Err(InvalidOperation(NoConnectionMessage)) && queryId == old(queryId)
      ensures connection != null ==> Posted(commandText, openExchange, exchange, decode, httpFormat, inlineFormat, r)
    {
      r := ExecuteDbDataReaderAsync({}, openExchange, exchange, decode, httpFormat, inlineFormat);
    }
  }
}
