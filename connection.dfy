/**
 * Logging of the JSON-RPC traffic of the language server
 * (internal/lsp/connection.go): which methods are logged, the line written
 * for each message received or sent, and the table of request methods kept
 * so that a response can be logged under the method of its request.
 *
 * Messages are given with their identifiers, parameters, results and errors
 * already rendered as text; the JSON encoding is left out.
 */
module Connection {
  import opened Wrappers
  import opened GoStrings

  /** ConnectionLoggingConfig without its writer. */
  datatype LoggingConfig = LoggingConfig(
    includeMethods: seq<string>,
    excludeMethods: seq<string>,
    logInbound: bool,
    logOutbound: bool)

  /** A request or notification, its identifier and parameters rendered as text. */
  datatype Request = Request(id: string, methodName: string, params: string, notif: bool)

  /** A response; `result` and `error` are absent when nil. */
  datatype Response = Response(id: string, result: Option<string>, error: Option<string>)

  datatype Direction = Inbound | Outbound

  datatype Kind = Notif | RequestKind | ResponseKind | ResponseErrorKind

  /** One log line: its direction, what it logs, the identifier, the method and the payload. */
  datatype Entry = Entry(dir: Direction, kind: Kind, id: string, methodName: string, payload: string)

  /** The method a received response is logged under when no request comes with it. */
  const NoMatchingRequest: string := "(no matching request)"

  /** The method a sent response is logged under when no request method was remembered for its identifier. */
  const NoPreviousRequest: string := "(no previous request)"

  /** ShouldLog: only the included methods when some are included, otherwise every method not excluded. */
  predicate ShouldLog(cfg: LoggingConfig, methodName: string) {
    if |cfg.includeMethods| > 0 then methodName in cfg.includeMethods else methodName !in cfg.excludeMethods
  }

  /**
   * The include list takes precedence: a method that is both included and
   * excluded is logged; with nothing included or excluded everything is
   * logged.
   */
  lemma IncludeTakesPrecedence(cfg: LoggingConfig, methodName: string)
    ensures methodName in cfg.includeMethods ==> ShouldLog(cfg, methodName)
    ensures |cfg.includeMethods| > 0 && methodName !in cfg.includeMethods ==> !ShouldLog(cfg, methodName)
    ensures cfg.includeMethods == [] && cfg.excludeMethods == [] ==> ShouldLog(cfg, methodName)
    ensures cfg.includeMethods == [] ==> (ShouldLog(cfg, methodName) <==> methodName !in cfg.excludeMethods)
  {
  }

  /** The arrow each direction is written with. */
  function Arrow(dir: Direction): (r: string)
    ensures |r| == 4 && r[3] == ' '
  {
    match dir
    case Inbound => "--> "
    case Outbound => "<-- "
  }

  /** The text of a log line, as the format strings of the handlers write it. */
  function Render(e: Entry): (r: string)
    ensures HasPrefix(r, Arrow(e.dir)) && HasSuffix(r, "\n")
  {
    var head := match e.kind
      case Notif => "notif: "
      case RequestKind => "request #" + e.id + ": "
      case ResponseKind => "response #" + e.id + ": "
      case ResponseErrorKind => "response error #" + e.id + ": ";
    Arrow(e.dir) + head + e.methodName + ": " + e.payload + "\n"
  }

  /** The line for a request or notification travelling in `dir`. */
  function RequestEntry(dir: Direction, req: Request): (r: Entry)
    ensures r.dir == dir && r.methodName == req.methodName && r.payload == req.params
    ensures r.kind == Notif <==> req.notif
  {
    if req.notif then Entry(dir, Notif, "", req.methodName, req.params)
    else Entry(dir, RequestKind, req.id, req.methodName, req.params)
  }

  /** The method table after receiving: a request without a response records its method under its identifier. */
  function MethodsAfterRecv(methods: map<string, string>, req: Option<Request>, resp: Option<Response>): (r: map<string, string>)
    ensures req.Some? && resp.None? ==> r.Keys == methods.Keys + {req.value.id} && r[req.value.id] == req.value.methodName
    ensures req.Some? && resp.None? ==> forall id :: id in methods && id != req.value.id ==> r[id] == methods[id]
    ensures !(req.Some? && resp.None?) ==> r == methods
  {
    if req.Some? && resp.None? then methods[req.value.id := req.value.methodName] else methods
  }

  /**
   * The lines the receive handler writes: a request or notification is
   * logged when its method is; a response is logged under the method of the
   * request that came with it (or NoMatchingRequest), as a result, as an
   * error, or not at all when it holds neither.
   */
  function RecvLog(cfg: LoggingConfig, req: Option<Request>, resp: Option<Response>): (r: seq<Entry>)
    ensures |r| <= 1
    ensures r != [] ==> r[0].dir == Inbound && ShouldLog(cfg, r[0].methodName)
    ensures req.Some? && resp.None? ==> (r != [] <==> ShouldLog(cfg, req.value.methodName))
    ensures req.Some? && resp.None? && r != [] ==> r[0] == RequestEntry(Inbound, req.value)
    ensures resp.Some? ==> var m := if req.Some? then req.value.methodName else NoMatchingRequest;
      && (r != [] <==> ShouldLog(cfg, m) && (resp.value.result.Some? || resp.value.error.Some?))
      && (r != [] ==> r[0].methodName == m && r[0].id == resp.value.id)
      && (r != [] ==> (r[0].kind == ResponseKind <==> resp.value.result.Some?))
    ensures req.None? && resp.None? ==> r == []
  {
    if req.Some? && resp.None? then
      if ShouldLog(cfg, req.value.methodName) then [RequestEntry(Inbound, req.value)] else []
    else if resp.Some? then
      var m := if req.Some? then req.value.methodName else NoMatchingRequest;
      if !ShouldLog(cfg, m) then []
      else if resp.value.result.Some? then [Entry(Inbound, ResponseKind, resp.value.id, m, resp.value.result.value)]
      else if resp.value.error.Some? then [Entry(Inbound, ResponseErrorKind, resp.value.id, m, resp.value.error.value)]
      else []
    else []
  }

  /** The method a sent response is logged under: the one remembered for its identifier, unless there is none or it is empty. */
  function SendMethod(methods: map<string, string>, id: string): (r: string)
    ensures r != ""
    ensures id in methods && methods[id] != "" ==> r == methods[id]
    ensures id !in methods || methods[id] == "" ==> r == NoPreviousRequest
  {
    if id in methods && methods[id] != "" then methods[id] else NoPreviousRequest
  }

  /** The method table after sending: a response forgets the method of its identifier. */
  function MethodsAfterSend(methods: map<string, string>, req: Option<Request>, resp: Option<Response>): (r: map<string, string>)
    ensures resp.Some? ==> r.Keys == methods.Keys - {resp.value.id} && forall id :: id in r ==> r[id] == methods[id]
    ensures resp.None? ==> r == methods
  {
    if req.Some? && resp.None? then methods
    else if resp.Some? then methods - {resp.value.id}
    else methods
  }

  /**
   * The lines the send handler writes: a request or notification is logged
   * when its method is; a response is logged under SendMethod, as a result
   * when it has one and as an error ("null" when nil) otherwise.
   */
  function SendLog(cfg: LoggingConfig, methods: map<string, string>, req: Option<Request>, resp: Option<Response>): (r: seq<Entry>)
    ensures |r| <= 1
    ensures r != [] ==> r[0].dir == Outbound && ShouldLog(cfg, r[0].methodName)
    ensures req.Some? && resp.None? ==> (r != [] <==> ShouldLog(cfg, req.value.methodName))
    ensures req.Some? && resp.None? && r != [] ==> r[0] == RequestEntry(Outbound, req.value)
    ensures resp.Some? ==> var m := SendMethod(methods, resp.value.id);
      && (r != [] <==> ShouldLog(cfg, m))
      && (r != [] ==> r[0].methodName == m && r[0].id == resp.value.id)
      && (r != [] ==> (r[0].kind == ResponseKind <==> resp.value.result.Some?))
    ensures req.None? && resp.None? ==> r == []
  {
    if req.Some? && resp.None? then
      if ShouldLog(cfg, req.value.methodName) then [RequestEntry(Outbound, req.value)] else []
    else if resp.Some? then
      var m := SendMethod(methods, resp.value.id);
      if !ShouldLog(cfg, m) then []
      else if resp.value.result.Some? then [Entry(Outbound, ResponseKind, resp.value.id, m, resp.value.result.value)]
      else
        var payload := match resp.value.error case Some(e) => e case None => "null";
        [Entry(Outbound, ResponseErrorKind, resp.value.id, m, payload)]
    else []
  }

  /**
   * A request received and then answered: the answer is logged under the
   * request's method, when that method is logged and is not empty, and the
   * method is forgotten afterwards.
   */
  lemma RecvThenSend(cfg: LoggingConfig, methods: map<string, string>, req: Request, resp: Response)
    requires req.id == resp.id && req.methodName != ""
    ensures var after := MethodsAfterRecv(methods, Some(req), None);
      && SendMethod(after, resp.id) == req.methodName
      && (SendLog(cfg, after, None, Some(resp)) != [] <==> ShouldLog(cfg, req.methodName))
      && (SendLog(cfg, after, None, Some(resp)) != [] ==> SendLog(cfg, after, None, Some(resp))[0].methodName == req.methodName)
      && MethodsAfterSend(after, None, Some(resp)) == methods - {req.id}
  {
    var after := MethodsAfterRecv(methods, Some(req), None);
    assert MethodsAfterSend(after, None, Some(resp)) == methods - {req.id};
  }

  /**
   * The logging the connection is given (logMessages): a receive handler
   * only when inbound messages are logged, a send handler only when
   * outbound ones are, and the shared table of request methods.
   */
  class MessageLog {
    const cfg: LoggingConfig
    var reqMethods: map<string, string>
    var entries: seq<Entry>

    /** Only the receive handler records methods: without it the table stays empty. */
    ghost predicate Valid()
      reads this
    {
      !cfg.logInbound ==> reqMethods == map[]
    }

    constructor (cfg: LoggingConfig)
      ensures this.cfg == cfg && reqMethods == map[] && entries == []
      ensures Valid()
    {
      this.cfg := cfg;
      reqMethods := map[];
      entries := [];
    }

    /** A message received: handled by the receive handler when there is one. */
    method Received(req: Option<Request>, resp: Option<Response>)
      requires Valid()
      modifies this
      ensures Valid()
      ensures cfg.logInbound ==>
        (reqMethods == MethodsAfterRecv(old(reqMethods), req, resp) && entries == old(entries) + RecvLog(cfg, req, resp))
      ensures !cfg.logInbound ==> reqMethods == old(reqMethods) && entries == old(entries)
    {
      if cfg.logInbound {
        entries := entries + RecvLog(cfg, req, resp);
        reqMethods := MethodsAfterRecv(reqMethods, req, resp);
      }
    }

    /**
     * A message sent: handled by the send handler when there is one. With
     * inbound logging off no method was ever recorded, so every response is
     * logged under NoPreviousRequest.
     */
    method Sent(req: Option<Request>, resp: Option<Response>)
      requires Valid()
      modifies this
      ensures Valid()
      ensures cfg.logOutbound ==>
        (reqMethods == MethodsAfterSend(old(reqMethods), req, resp) && entries == old(entries) + SendLog(cfg, old(reqMethods), req, resp))
      ensures !cfg.logOutbound ==> reqMethods == old(reqMethods) && entries == old(entries)
      ensures !cfg.logInbound && resp.Some? ==> forall k :: |old(entries)| <= k < |entries| ==> entries[k].methodName == NoPreviousRequest
    {
      if cfg.logOutbound {
        entries := entries + SendLog(cfg, reqMethods, req, resp);
        reqMethods := MethodsAfterSend(reqMethods, req, resp);
      }
    }
  }
}
