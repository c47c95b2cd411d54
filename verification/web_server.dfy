/** The web server's handler registry and its dispatch of one request.

    The registry maps a `(method, path)` route to a handler. Handlers are abstract values
    of a type `H`; what a handler answers for a query map is the function `call`, about
    which nothing is assumed. The socket, the 1024-byte receive and the UTF-8 decoding
    around dispatch are not modelled: dispatch starts from the decoded request text and
    ends with the response text that would be sent. */
module WebServer {
  import opened Text
  import opened HttpRequest

  type Route = (string, string)

  type Registry<H> = map<Route, H>

  /** The methods a handler may be registered for. */
  const Methods: seq<string> := ["GET", "POST", "PUT", "DELETE"]

  /** The response to a request no handler is registered for. */
  const NotFound: string := "HTTP/1.1 404 Not Found\r\nContent-Type: text/html\r\n\r\n<h1>404 Not Found</h1>"

  /** A new server has no handlers. */
  function EmptyRegistry<H>(): (r: Registry<H>)
    ensures forall route :: route !in r
  {
    map[]
  }

  /** Registration: the method must be one of the four, and the route then answers with the
      new handler, whatever was registered there before. */
  function AddHandler<H>(handlers: Registry<H>, methodName: string, path: string, h: H): (r: Result<Registry<H>>)
    ensures r.Err? <==> methodName != "GET" && methodName != "POST" && methodName != "PUT" && methodName != "DELETE"
    ensures r.Err? ==> r.error == UnsupportedMethod(methodName)
    ensures r.Ok? ==> (methodName, path) in r.value && r.value[(methodName, path)] == h
    ensures r.Ok? ==> r.value.Keys == handlers.Keys + {(methodName, path)}
    ensures r.Ok? ==> forall route :: route in handlers && route != (methodName, path) ==> r.value[route] == handlers[route]
  {
    if methodName !in Methods then Err(UnsupportedMethod(methodName))
    else Ok(handlers[(methodName, path) := h])
  }

  /** The response to a request: the method and the path select the handler, which is given
      the query map; a route without a handler gets the fixed 404 response. The request line
      and the query are taken apart before the registry is consulted, so a malformed query
      fails whether or not a handler is registered. */
  function Dispatch<H>(handlers: Registry<H>, call: (H, QueryMap) -> string, request: string): (r: Result<string>)
    ensures ' ' !in request ==> r == Err(MissingTarget)
  {
    var line :- RequestLine(request);
    var (path, query) := SplitTarget(line.1);
    var queryMap :- ParseQuery(query);
    var route := (line.0, path);
    if route in handlers then Ok(call(handlers[route], queryMap)) else Ok(NotFound)
  }

  /** Dispatch of any request: whenever the request opens with a method, a space and a
      target (which runs to the next space or to the end), and the target is a path alone or
      opens with a path, '?' and a query (which runs to the next '?' or to the end), a
      malformed query fails; otherwise the handler registered for exactly that method and
      path is given the query map, and a route without a handler gets the 404 response. */
  lemma DispatchOpensWith<H>(handlers: Registry<H>, call: (H, QueryMap) -> string, request: string,
                             methodName: string, target: string, path: string, query: string)
    requires OpensWith(request, methodName, ' ', target)
    requires ('?' !in target && path == target && query == "") || OpensWith(target, path, '?', query)
    ensures Dispatch(handlers, call, request) ==
      if ParseQuery(query).Err? then Err(ParseQuery(query).error)
      else if (methodName, path) in handlers then Ok(call(handlers[(methodName, path)], ParseQuery(query).value))
      else Ok(NotFound)
  {
    RequestLineOpensWith(request, methodName, target);
    if OpensWith(target, path, '?', query) {
      SplitTargetOpensWith(target, path, query);
    }
  }

  /** A second '?' ends the query: `GET /p?a=1?x=2 HTTP/1.1` is dispatched to the handler
      for `GET /p` with only `a` set, and the text after the second '?' is dropped. */
  lemma DispatchSecondQuestionMark<H>(handlers: Registry<H>, call: (H, QueryMap) -> string)
    ensures ("GET", "/p") in handlers ==>
      Dispatch(handlers, call, "GET /p?a=1?x=2 HTTP/1.1") == Ok(call(handlers[("GET", "/p")], map["a" := "1"]))
    ensures ("GET", "/p") !in handlers ==>
      Dispatch(handlers, call, "GET /p?a=1?x=2 HTTP/1.1") == Ok(NotFound)
  {
    var request := "GET /p?a=1?x=2 HTTP/1.1";
    var target := "/p?a=1?x=2";
    assert request[..3 + 1 + |target|] == "GET" + [' '] + target && request[3 + 1 + |target|] == ' ';
    assert target[..2 + 1 + 3] == "/p" + ['?'] + "a=1" && target[2 + 1 + 3] == '?';
    DispatchOpensWith(handlers, call, request, "GET", target, "/p", "a=1");
    QueryOfOnePair();
  }

  /** The query `a=1` is the map with `a` set to `1`. */
  lemma QueryOfOnePair()
    ensures ParseQuery("a=1") == Ok(map["a" := "1"])
  {
    SplitFirst("a=1", '&');
    var segments := Split("a=1", '&');
    assert segments == ["a=1"] && segments[..0] == [];
    assert "a=1"[..1] == "a" && "a=1"[1] == '=';
    IndexOfIs("a=1", '=', 1);
    SegmentFields("a=1");
  }

  /** A request may end right after its target: `GET /x` is dispatched to the handler for
      `GET /x` with the empty map. */
  lemma DispatchEndsAtTarget<H>(handlers: Registry<H>, call: (H, QueryMap) -> string)
    ensures ("GET", "/x") in handlers ==>
      Dispatch(handlers, call, "GET /x") == Ok(call(handlers[("GET", "/x")], map[]))
    ensures ("GET", "/x") !in handlers ==> Dispatch(handlers, call, "GET /x") == Ok(NotFound)
  {
    var request := "GET /x";
    assert request[..3 + 1 + 2] == "GET" + [' '] + "/x";
    assert '?' !in "/x";
    DispatchOpensWith(handlers, call, request, "GET", "/x", "/x", "");
  }

  /** The request text `methodName path?query rest`, as a client sends it. */
  function RequestText(methodName: string, path: string, query: string, rest: string): string
  {
    methodName + [' '] + path + ['?'] + query + [' '] + rest
  }

  /** Such a request is read back as its method, path and query. */
  lemma {:induction false} RequestTextFields(methodName: string, path: string, query: string, rest: string)
    requires ' ' !in methodName && ' ' !in path && ' ' !in query
    requires '?' !in path && '?' !in query
    ensures RequestLine(RequestText(methodName, path, query, rest)) == Ok((methodName, path + ['?'] + query))
    ensures SplitTarget(path + ['?'] + query) == (path, query)
  {
    var target := path + ['?'] + query;
    var request := RequestText(methodName, path, query, rest);
    assert request == methodName + [' '] + target + [' '] + rest;
    assert ' ' !in target by {
      assert forall k :: 0 <= k < |target| ==> target[k] == (if k < |path| then path[k] else if k == |path| then '?' else query[k - |path| - 1]);
    }
    assert request[..|methodName| + 1 + |target|] == methodName + [' '] + target;
    assert request[|methodName| + 1 + |target|] == ' ';
    RequestLineOpensWith(request, methodName, target);
    assert target[..|path| + 1 + |query|] == target;
    SplitTargetOpensWith(target, path, query);
  }

  /** Dispatch of a request for a route: the route's handler answers with the parsed query
      when one is registered, the 404 response when none is, and a malformed query fails
      either way. */
  lemma DispatchRoute<H>(handlers: Registry<H>, call: (H, QueryMap) -> string,
                         methodName: string, path: string, query: string, rest: string)
    requires ' ' !in methodName && ' ' !in path && ' ' !in query
    requires '?' !in path && '?' !in query
    ensures ParseQuery(query).Err? ==>
      Dispatch(handlers, call, RequestText(methodName, path, query, rest)) == Err(ParseQuery(query).error)
    ensures ParseQuery(query).Ok? && (methodName, path) in handlers ==>
      Dispatch(handlers, call, RequestText(methodName, path, query, rest))
        == Ok(call(handlers[(methodName, path)], ParseQuery(query).value))
    ensures ParseQuery(query).Ok? && (methodName, path) !in handlers ==>
      Dispatch(handlers, call, RequestText(methodName, path, query, rest)) == Ok(NotFound)
  {
    RequestTextFields(methodName, path, query, rest);
  }

  /** Registering a handler and then requesting its route calls that handler. */
  lemma DispatchAfterAdd<H>(handlers: Registry<H>, call: (H, QueryMap) -> string, h: H,
                            methodName: string, path: string, query: string, rest: string)
    requires AddHandler(handlers, methodName, path, h).Ok?
    requires ' ' !in path && ' ' !in query && '?' !in path && '?' !in query
    requires ParseQuery(query).Ok?
    ensures Dispatch(AddHandler(handlers, methodName, path, h).value, call, RequestText(methodName, path, query, rest))
      == Ok(call(h, ParseQuery(query).value))
  {
    DispatchRoute(AddHandler(handlers, methodName, path, h).value, call, methodName, path, query, rest);
  }

  /** The request text `methodName path rest`, with no query, as a client sends it. */
  function PlainRequestText(methodName: string, path: string, rest: string): string
  {
    methodName + [' '] + path + [' '] + rest
  }

  /** Such a request is read back as its method and path, with an empty query. */
  lemma PlainRequestFields(methodName: string, path: string, rest: string)
    requires ' ' !in methodName && ' ' !in path && '?' !in path
    ensures RequestLine(PlainRequestText(methodName, path, rest)) == Ok((methodName, path))
    ensures SplitTarget(path) == (path, "")
  {
    var request := PlainRequestText(methodName, path, rest);
    assert request[..|methodName| + 1 + |path|] == methodName + [' '] + path;
    assert request[|methodName| + 1 + |path|] == ' ';
    RequestLineOpensWith(request, methodName, path);
  }

  /** Dispatch of a request without a query: the route's handler answers with the empty
      map when one is registered, and the response is the 404 text when none is. */
  lemma DispatchPlainRoute<H>(handlers: Registry<H>, call: (H, QueryMap) -> string,
                              methodName: string, path: string, rest: string)
    requires ' ' !in methodName && ' ' !in path && '?' !in path
    ensures (methodName, path) in handlers ==>
      Dispatch(handlers, call, PlainRequestText(methodName, path, rest)) == Ok(call(handlers[(methodName, path)], map[]))
    ensures (methodName, path) !in handlers ==>
      Dispatch(handlers, call, PlainRequestText(methodName, path, rest)) == Ok(NotFound)
  {
    PlainRequestFields(methodName, path, rest);
  }

  /** Registering a handler and then requesting its route without a query calls that
      handler with the empty map. */
  lemma DispatchPlainAfterAdd<H>(handlers: Registry<H>, call: (H, QueryMap) -> string, h: H,
                                 methodName: string, path: string, rest: string)
    requires AddHandler(handlers, methodName, path, h).Ok?
    requires ' ' !in path && '?' !in path
    ensures Dispatch(AddHandler(handlers, methodName, path, h).value, call, PlainRequestText(methodName, path, rest))
      == Ok(call(h, map[]))
  {
    DispatchPlainRoute(AddHandler(handlers, methodName, path, h).value, call, methodName, path, rest);
  }

  /** Registering a handler leaves every other route answering as before. */
  lemma DispatchOtherRoute<H>(handlers: Registry<H>, call: (H, QueryMap) -> string, h: H,
                              methodName: string, path: string, request: string)
    requires AddHandler(handlers, methodName, path, h).Ok?
    requires RequestLine(request).Ok?
    requires (RequestLine(request).value.0, SplitTarget(RequestLine(request).value.1).0) != (methodName, path)
    ensures Dispatch(AddHandler(handlers, methodName, path, h).value, call, request) == Dispatch(handlers, call, request)
  {
  }

  /** A new server answers every request it can take apart with the 404 response. */
  lemma DispatchEmpty<H>(call: (H, QueryMap) -> string, request: string)
    requires RequestLine(request).Ok?
    requires ParseQuery(SplitTarget(RequestLine(request).value.1).1).Ok?
    ensures Dispatch(EmptyRegistry<H>(), call, request) == Ok(NotFound)
  {
  }
}
