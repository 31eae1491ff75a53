/** ClickHouseConnection: the connection lifecycle (Closed, Open, Broken), the version
    probe run by OpenAsync, and the request parts every command shares. */
module Connection {
  import opened Errors
  import opened Text
  import opened Versions
  import opened Http

  /** System.Data.ConnectionState, restricted to the three states the connection uses. */
  datatype ConnectionState = Closed | Open | Broken

  const VersionQuery: string := "SELECT version() FORMAT TSV"
  const CompressedResultMessage: string :=
    "ClickHouse server " + "returned compressed result but HttpClient did not decompress it. Check HttpClient settings"
  const NoVersionMessage: string :=
    "ClickHouse server did not return version, check if the server is functional"
  /** The message of an InvalidOperationException created without one. */
  const DefaultInvalidOperationMessage: string := "Operation is not valid due to the current state of the object."

  /** The checks OpenAsync makes on the body of a successful probe response, in order:
      the gzip marker (only on a body longer than two bytes), the empty body, then the
      version text. `decode` is Encoding.UTF8.GetString. */
  function ProbeVersion(data: seq<byte>, decode: seq<byte> -> string): (r: Result<Version>)
    ensures |data| > 2 && data[0] == 0x1F && data[1] == 0x8B ==> r == Err(InvalidOperation(CompressedResultMessage))
    ensures |data| == 0 ==> r == Err(InvalidOperation(NoVersionMessage))
    ensures (|data| <= 2 || data[0] != 0x1F || data[1] != 0x8B) && |data| > 0 ==>
              r == ParseVersion(Some(Trim(decode(data))))
    ensures r.Ok? ==> Defined(r.value) && r.value.major > 0
  {
    if |data| > 2 && data[0] == 0x1F && data[1] == 0x8B then Err(InvalidOperation(CompressedResultMessage))
    else if |data| == 0 then Err(InvalidOperation(NoVersionMessage))
    else ParseVersion(Some(Trim(decode(data))))
  }

  /** A two-byte body holding only the gzip marker is not reported as compressed: the
      length test is strict, so the body goes on to the version parser. */
  lemma TwoByteMarkerIsParsed(decode: seq<byte> -> string)
    ensures ProbeVersion([0x1F, 0x8B], decode) != Err(InvalidOperation(CompressedResultMessage))
    ensures ProbeVersion([0x1F, 0x8B], decode) == ParseVersion(Some(Trim(decode([0x1F, 0x8B]))))
  {
    var s := Trim(decode([0x1F, 0x8B]));
    InvalidVersionIsNotCompressed(s);
  }

  lemma InvalidVersionIsNotCompressed(s: string)
    ensures "Invalid version: " + s != CompressedResultMessage
  {
    assert ("Invalid version: " + s)[0] == 'I';
    assert CompressedResultMessage[0] == 'C';
  }

  /** The outcome of the version probe once it has been sent: HandleError turns a
      non-2xx status into a server error carrying the probe query, then the body is checked. */
  function Handshake(exchange: Exchange, decode: seq<byte> -> string): (r: Result<Version>)
  {
    match exchange
    case TransportFailure => Err(TransportError)
    case Responded(response) =>
      if !response.success then Err(ServerError(decode(response.body), VersionQuery))
      else ProbeVersion(response.body, decode)
  }

  /** The outcome of opening once the probe request has been built, or failed to be. */
  function OpenResult(probe: Result<Request>, exchange: Exchange, decode: seq<byte> -> string): Result<Version>
  {
    if probe.Err? then Err(probe.error) else Handshake(exchange, decode)
  }

  /** The body of OpenAsync's try block after the probe is sent, step by step: the
      transport, HandleError, the gzip and empty checks, then ParseVersion. */
  method ReceiveVersion(exchange: Exchange, decode: seq<byte> -> string) returns (r: Result<Version>)
    ensures exchange.TransportFailure? ==> r == Err(TransportError)
    ensures exchange.Responded? && !exchange.response.success ==>
              r == Err(ServerError(decode(exchange.response.body), VersionQuery))
    ensures exchange.Responded? && exchange.response.success ==> r == ProbeVersion(exchange.response.body, decode)
    ensures r.Ok? ==> exchange.Responded? && exchange.response.success && Defined(r.value) && r.value.major > 0
  {
    if exchange.TransportFailure? {
      return Err(TransportError);
    }
    var response := exchange.response;
    if !response.success {
      return Err(ServerError(decode(response.body), VersionQuery));
    }
    var data := response.body;
    if |data| > 2 && data[0] == 0x1F && data[1] == 0x8B {
      return Err(InvalidOperation(CompressedResultMessage));
    }
    if |data| == 0 {
      return Err(InvalidOperation(NoVersionMessage));
    }
    var text := Trim(decode(data));
    r := ParseVersion(Some(text));
  }

  class ClickHouseConnection {
    var state: ConnectionState
    var serverVersion: Option<Version>
    var supportedFeatures: set<Feature>
    var database: string
    var username: string
    var password: string
    var session: Option<string>
    var useCompression: bool
    var customSettings: map<string, string>
    /** Every request this connection has handed to the transport, oldest first. */
    ghost var sent: seq<Request>

    /** The flags always belong to the version next to them, and an open connection has both. */
    ghost predicate Valid()
      reads this
    {
      && (serverVersion.None? ==> supportedFeatures == {})
      && (serverVersion.Some? ==> Defined(serverVersion.value) && supportedFeatures == FeaturesOf(serverVersion.value))
      && (state == Open ==> serverVersion.Some?)
    }

    /** The settings a connection string would give (its parsing is not modelled). */
    constructor (database: string, username: string, password: string, useCompression: bool,
                 session: Option<string>, customSettings: map<string, string>)
      ensures Valid()
      ensures state == Closed && serverVersion == None && supportedFeatures == {} && sent == []
      ensures this.database == database && this.username == username && this.password == password
      ensures this.useCompression == useCompression && this.session == session
      ensures this.customSettings == customSettings
    {
      state := Closed;
      serverVersion := None;
      supportedFeatures := {};
      this.database := database;
      this.username := username;
      this.password := password;
      this.useCompression := useCompression;
      this.session := session;
      this.customSettings := customSettings;
      sent := [];
    }

    /** The settings no lifecycle operation touches. */
    twostate predicate SettingsUnchanged()
      reads this
    {
      && database == old(database)
      && username == old(username)
      && password == old(password)
      && session == old(session)
      && useCompression == old(useCompression)
      && customSettings == old(customSettings)
    }

    /** The SupportedFeatures getter: only an open connection answers. */
    function SupportedFeatures(): (r: Result<set<Feature>>)
      reads this
      ensures r.Ok? <==> state == Open
      ensures r.Ok? ==> r.value == supportedFeatures
      ensures r.Err? ==> r.error == InvalidOperation(DefaultInvalidOperationMessage)
    {
      if state == Open then Ok(supportedFeatures) else Err(InvalidOperation(DefaultInvalidOperationMessage))
    }

    /** AddDefaultHttpHeaders: Basic credentials; Accept lists json, csv and octet-stream in
        that order; Accept-Encoding lists gzip then deflate, only when compression is on. */
    function DefaultHeaders(): (h: Headers)
      reads this
      ensures h.basicCredentials == username + ":" + password
      ensures h.accept == ["application/json", "text/csv", "application/octet-stream"]
      ensures useCompression ==> h.acceptEncoding == ["gzip", "deflate"]
      ensures !useCompression ==> h.acceptEncoding == []
    {
      var encodings := if useCompression then ["gzip", "deflate"] else [];
      Headers(username + ":" + password, ["application/json", "text/csv", "application/octet-stream"], encodings)
    }

    /** CreateUriBuilder: a fresh builder holding this connection's settings. */
    function CreateUriBuilder(): (u: UriSpec)
      reads this
      ensures u.database == database && u.sessionId == session && u.useCompression == useCompression
      ensures u.customParameters == customSettings && u.queryParameters == []
    {
      UriSpec(database, session, useCompression, customSettings, [])
    }

    /** The GET request of the version probe, or the error adding the query to the
        custom parameters raises. */
    function ProbeRequest(): (r: Result<Request>)
      reads this
      ensures r.Ok? <==> "query" !in customSettings
      ensures r.Ok? ==> r.value.verb == Get && r.value.content == None && r.value.headers == DefaultHeaders()
      ensures r.Ok? ==> r.value.uri.customParameters == customSettings["query" := VersionQuery]
    {
      match AddCustomParameter(CreateUriBuilder(), "query", VersionQuery)
      case Err(e) => Err(e)
      case Ok(uri) => Ok(Request(Get, uri, DefaultHeaders(), None))
    }

    /** Opening an open connection: nothing changes and nothing is sent. */
    twostate predicate AlreadyOpen(r: Outcome)
      reads this
    {
      r == Pass && state == Open && sent == old(sent)
      && serverVersion == old(serverVersion) && supportedFeatures == old(supportedFeatures)
    }

    /** Opening from Closed or Broken: the probe is sent when it can be built, and the
        connection ends Open with the parsed version and its flags, or Broken with both
        left as they were. */
    twostate predicate Opened(probe: Result<Request>, outcome: Result<Version>, r: Outcome)
      reads this
    {
      && sent == old(sent) + (if probe.Ok? then [probe.value] else [])
      && (outcome.Ok? ==>
            r == Pass && state == Open && serverVersion == Some(outcome.value)
            && supportedFeatures == FeaturesOf(outcome.value))
      && (outcome.Err? ==>
            r == Fail(outcome.error) && state == Broken
            && serverVersion == old(serverVersion) && supportedFeatures == old(supportedFeatures))
    }

    /** OpenAsync. `exchange` is what the transport returns for the probe and `decode`
        the UTF-8 decoder. */
    method OpenAsync(exchange: Exchange, decode: seq<byte> -> string) returns (r: Outcome)
      requires Valid()
      modifies this
      ensures Valid()
      ensures SettingsUnchanged()
      ensures old(state) == Open ==> AlreadyOpen(r)
      ensures old(state) != Open ==> Opened(old(ProbeRequest()), OpenResult(old(ProbeRequest()), exchange, decode), r)
    {
      if state == Open {
        return Pass;
      }
      ghost var probe := ProbeRequest();
      var outcome: Result<Version>;
      var uri := CreateUriBuilder();
      var withQuery := AddCustomParameter(uri, "query", VersionQuery);
      if withQuery.Err? {
        outcome := Err(withQuery.error);
      } else {
        var request := Request(Get, withQuery.value, DefaultHeaders(), None);
        assert probe == Ok(request);
        sent := sent + [request];
        outcome := ReceiveVersion(exchange, decode);
      }
      assert outcome == OpenResult(probe, exchange, decode);
      r := Conclude(outcome);
    }

    /** The end of OpenAsync's try block, or its catch block: a parsed version is stored
        with its flags and the connection is Open; an exception leaves it Broken. */
    method Conclude(outcome: Result<Version>) returns (r: Outcome)
      requires Valid() && (outcome.Ok? ==> Defined(outcome.value))
      modifies this
      ensures Valid()
      ensures SettingsUnchanged() && sent == old(sent)
      ensures outcome.Ok? ==>
                r == Pass && state == Open && serverVersion == Some(outcome.value)
                && supportedFeatures == FeaturesOf(outcome.value)
      ensures outcome.Err? ==>
                r == Fail(outcome.error) && state == Broken
                && serverVersion == old(serverVersion) && supportedFeatures == old(supportedFeatures)
    {
      if outcome.Err? {
        state := Broken;
        return Fail(outcome.error);
      }
      serverVersion := Some(outcome.value);
      supportedFeatures := GetFeatureFlags(outcome.value);
      state := Open;
      return Pass;
    }

    /** What EnsureOpenAsync leaves a caller to work with: the flags of the open
        connection, or the error that left it Broken. */
    function EnsureOpenResult(exchange: Exchange, decode: seq<byte> -> string): (r: Result<set<Feature>>)
      reads this
      requires Valid()
      ensures state == Open ==> r == Ok(supportedFeatures)
      ensures state != Open ==> r.Ok? == OpenResult(ProbeRequest(), exchange, decode).Ok?
    {
      if state == Open then Ok(supportedFeatures)
      else match OpenResult(ProbeRequest(), exchange, decode)
        case Ok(v) => Ok(FeaturesOf(v))
        case Err(e) => Err(e)
    }

    /** The requests EnsureOpenAsync hands to the transport: the probe, when the
        connection is not open and the probe can be built. */
    function EnsureOpenSent(): (reqs: seq<Request>)
      reads this
      ensures |reqs| <= 1 && (state == Open ==> reqs == [])
    {
      if state == Open then []
      else match ProbeRequest()
        case Ok(probe) => [probe]
        case Err(_) => []
    }

    /** EnsureOpenAsync: opens unless already open. */
    method EnsureOpenAsync(exchange: Exchange, decode: seq<byte> -> string) returns (r: Outcome)
      requires Valid()
      modifies this
      ensures Valid()
      ensures SettingsUnchanged()
      ensures sent == old(sent) + old(EnsureOpenSent())
      ensures var opening := old(EnsureOpenResult(exchange, decode));
              && (opening.Ok? ==> r == Pass && state == Open && supportedFeatures == opening.value)
              && (opening.Err? ==> r == Fail(opening.error) && state == Broken)
      ensures old(state) == Open ==> AlreadyOpen(r)
      ensures old(state) != Open ==> Opened(old(ProbeRequest()), OpenResult(old(ProbeRequest()), exchange, decode), r)
    {
      if state != Open {
        r := OpenAsync(exchange, decode);
      } else {
        r := Pass;
      }
    }

    /** Handing a request to the transport (HttpClient.SendAsync): it joins the log of
        sent requests and nothing else about the connection changes. */
    ghost method Record(request: Request)
      requires Valid()
      modifies this
      ensures Valid() && SettingsUnchanged() && sent == old(sent) + [request]
      ensures state == old(state) && serverVersion == old(serverVersion) && supportedFeatures == old(supportedFeatures)
    {
      sent := sent + [request];
    }

    /** Close: back to Closed from any state; the version and flags are kept. */
    method Close()
      requires Valid()
      modifies this
      ensures Valid()
      ensures state == Closed && SettingsUnchanged() && sent == old(sent)
      ensures serverVersion == old(serverVersion) && supportedFeatures == old(supportedFeatures)
    {
      state := Closed;
    }

    /** ChangeDatabase: later requests name the new database. */
    method ChangeDatabase(databaseName: string)
      requires Valid()
      modifies this
      ensures Valid()
      ensures database == databaseName && state == old(state) && sent == old(sent)
      ensures serverVersion == old(serverVersion) && supportedFeatures == old(supportedFeatures)
      ensures username == old(username) && password == old(password) && session == old(session)
      ensures useCompression == old(useCompression) && customSettings == old(customSettings)
    {
      database := databaseName;
    }
  }

  /** A connection that failed to open can be opened again and may then succeed; one
      that failed stays Broken until then, never falling back to Closed by itself. */
  method ReopenAfterFailure(c: ClickHouseConnection, good: Response, decode: seq<byte> -> string)
    requires c.Valid() && c.state == Closed && "query" !in c.customSettings
    requires good.success && ProbeVersion(good.body, decode).Ok?
    modifies c
    ensures c.state == Open && c.serverVersion == Some(ProbeVersion(good.body, decode).value)
    ensures |c.sent| == |old(c.sent)| + 2
  {
    var first := c.OpenAsync(TransportFailure, decode);
    assert first == Fail(TransportError) && c.state == Broken;
    var second := c.OpenAsync(Responded(good), decode);
    assert second == Pass;
    var third := c.OpenAsync(TransportFailure, decode);
    assert third == Pass;
  }
}
