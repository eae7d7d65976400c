/** The dispatcher (src/server.rs): one parsed request is answered from a
    static file, else by the handler registered for its exact path, else
    with an untouched status-0 response; a request that does not parse
    is not answered. */
module Server {
  import opened Wrappers
  import opened Utf8
  import opened Request
  import opened RequestParser
  import opened Response
  import opened Helpers

  /** A route handler: user code that reads the request and changes the
      response it is lent; as a value, the response it leaves behind. */
  type Handler = (HttpRequest, ResponseValue) -> ResponseValue

  /** The filesystem that `write_from_file` reads: contents by path. */
  type FileSystem = map<string, seq<Byte>>

  /** `HttpResponse::new(0, Map::new(), None, Vec::new())`: what a handler
      is lent, and what is sent when no route matches. */
  const FRESH: ResponseValue := ResponseValue(0, map[], None, [])

  /** The file `handle_static` looks up: the request path, with
      `index.html` appended when it ends in `/`. The configured folder
      takes no part in it. */
  function StaticFilePath(path: string): string {
    if |path| > 0 && path[|path| - 1] == '/' then path + "index.html" else path
  }

  /** `index.html` is appended exactly when the path ends in `/`;
      otherwise the path is used unchanged. */
  lemma StaticFilePathSpec(path: string)
    ensures (|path| > 0 && path[|path| - 1] == '/') <==> StaticFilePath(path) == path + "index.html"
    ensures !(|path| > 0 && path[|path| - 1] == '/') ==> StaticFilePath(path) == path
  {
  }

  /** What `handle_static` serves: nothing without a static folder or
      without the file; otherwise status 200, no headers, the file's bytes
      and the type its path implies. */
  function StaticResponse(folder: Option<string>, path: string, files: FileSystem): Option<ResponseValue> {
    if folder.None? then None
    else
      var p := StaticFilePath(path);
      if p in files then Some(ResponseValue(200, map[], Some(PathToMimetype(p)), files[p])) else None
  }

  /** The response `handle_request` sends for a parsed request. */
  function Dispatch(handlers: map<string, Handler>, folder: Option<string>, files: FileSystem,
                    request: HttpRequest): ResponseValue
  {
    match StaticResponse(folder, request.GetPath(), files)
    case Some(r) => r
    case None =>
      if request.GetPath() in handlers then handlers[request.GetPath()](request, FRESH) else FRESH
  }

  /** `out` is the serialization of `r` in one iteration order of its
      headers. */
  ghost predicate Writes(r: ResponseValue, out: seq<Byte>) {
    exists order :: IsEnumeration(order, r.headers.Keys) && (forall i :: 0 <= i < |order| ==> order[i] in r.headers)
      && out == Serialize(r, order)
  }

  /** What one connection receives: nothing when the request does not
      parse, otherwise the serialized response to it. */
  ghost predicate Served(handlers: map<string, Handler>, folder: Option<string>, files: FileSystem,
                         stream: seq<Byte>, out: seq<Byte>) {
    match ParseSpec(stream).result
    case Err(_) => out == []
    case Ok(request) => Writes(Dispatch(handlers, folder, files, request), out)
  }

  /** Serializing in any iteration order of the headers is a way of
      writing the response. */
  lemma WritesOf(r: ResponseValue, order: seq<string>)
    requires IsEnumeration(order, r.headers.Keys)
    requires forall i :: 0 <= i < |order| ==> order[i] in r.headers
    ensures Writes(r, Serialize(r, order))
  {
  }

  class Server {
    var handlers: map<string, Handler>
    var staticAssetFolder: Option<string>

    /** `Server::new`, without the listening socket: no routes and no
        static folder. */
    constructor ()
      ensures handlers == map[] && staticAssetFolder == None
    {
      handlers := map[];
      staticAssetFolder := None;
    }

    /** `set_static_asset_folder`. */
    method SetStaticAssetFolder(folder: string)
      modifies this
      ensures staticAssetFolder == Some(folder) && handlers == old(handlers)
    {
      staticAssetFolder := Some(folder);
    }

    /** `add_handler`: registers `handler` for `path`, replacing an
        earlier registration for the same path. */
    method AddHandler(path: string, handler: Handler)
      modifies this
      ensures handlers == old(handlers)[path := handler]
      ensures staticAssetFolder == old(staticAssetFolder)
    {
      handlers := handlers[path := handler];
    }

    /** `handle_static`: whether a static file answered the request, and
        the bytes written for it. */
    method HandleStatic(request: HttpRequest, files: FileSystem) returns (wasStatic: bool, written: seq<Byte>)
      ensures wasStatic <==> StaticResponse(staticAssetFolder, request.GetPath(), files).Some?
      ensures wasStatic ==> Writes(StaticResponse(staticAssetFolder, request.GetPath(), files).value, written)
      ensures !wasStatic ==> written == []
    {
      if staticAssetFolder.None? {
        return false, [];
      }
      var pathStr := request.GetPath();
      if |pathStr| > 0 && pathStr[|pathStr| - 1] == '/' {
        pathStr := pathStr + "index.html";
      }
      var resp := new HttpResponse(200, map[], None, []);
      var readResult := resp.WriteFromFile(pathStr, files);
      if readResult.Err? {
        return false, [];
      }
      ghost var order;
      written, order := resp.WriteToStream();
      WritesOf(resp.Value(), order);
      wasStatic := true;
    }

    /** `handle_request`: the static file if there is one, else the
        registered handler run on a fresh response, else that fresh
        response itself. */
    method HandleRequest(request: HttpRequest, files: FileSystem) returns (written: seq<Byte>)
      ensures Writes(Dispatch(handlers, staticAssetFolder, files, request), written)
    {
      var wasStatic, staticWritten := HandleStatic(request, files);
      if wasStatic {
        return staticWritten;
      }
      StaticMissFallsThrough(handlers, staticAssetFolder, files, request);
      written := HandleRoute(request);
    }

    /** The part of `handle_request` after a static miss: a fresh status-0
        response, changed by the handler registered for the path when
        there is one, then written out. */
    method HandleRoute(request: HttpRequest) returns (written: seq<Byte>)
      ensures Writes(Dispatch(handlers, None, map[], request), written)
    {
      ghost var expected := Dispatch(handlers, None, map[], request);
      var path := request.GetPath();
      var response := new HttpResponse(0, map[], None, []);
      assert response.Value() == FRESH;
      if path in handlers {
        var after := handlers[path](request, response.Value());
        response.status, response.headers, response.contentType, response.body :=
          after.status, after.headers, after.contentType, after.body;
        assert response.Value() == after;
      }
      assert response.Value() == expected;
      ghost var order;
      written, order := response.WriteToStream();
      WritesOf(response.Value(), order);
    }

    /** The body of `run`'s loop for one connection: parse, and answer
        only a request that parsed. */
    method HandleConnection(stream: seq<Byte>, files: FileSystem) returns (written: seq<Byte>)
      ensures Served(handlers, staticAssetFolder, files, stream, written)
    {
      var request, consumed := Parse(stream);
      if request.Err? {
        return [];
      }
      written := HandleRequest(request.value, files);
    }

    /** `run`: each accepted connection in turn gets its own answer; a
        connection whose request does not parse gets none, and the loop
        goes on. */
    method Run(connections: seq<seq<Byte>>, files: FileSystem) returns (outputs: seq<seq<Byte>>)
      ensures |outputs| == |connections|
      ensures forall i :: 0 <= i < |connections| ==> Served(handlers, staticAssetFolder, files, connections[i], outputs[i])
    {
      outputs := [];
      for i := 0 to |connections|
        invariant |outputs| == i
        invariant forall k :: 0 <= k < i ==> Served(handlers, staticAssetFolder, files, connections[k], outputs[k])
      {
        var written := HandleConnection(connections[i], files);
        outputs := outputs + [written];
      }
    }

    /** `run` exactly as written: a connection on which `parse` panics
        (`ParseAsWritten`) unwinds out of the loop, so it and every later
        connection get no answer; the connections before it are served. */
    method RunAsWritten(connections: seq<seq<Byte>>, files: FileSystem) returns (outputs: seq<seq<Byte>>)
      ensures |outputs| <= |connections|
      ensures forall i :: 0 <= i < |outputs| ==>
        ParseAsWritten(connections[i]).Some? && Served(handlers, staticAssetFolder, files, connections[i], outputs[i])
      ensures |outputs| < |connections| ==> ParseAsWritten(connections[|outputs|]).None?
    {
      outputs := [];
      for i := 0 to |connections|
        invariant |outputs| == i
        invariant forall k :: 0 <= k < i ==>
          ParseAsWritten(connections[k]).Some? && Served(handlers, staticAssetFolder, files, connections[k], outputs[k])
      {
        if ParseAsWritten(connections[i]).None? {
          return;
        }
        var written := HandleConnection(connections[i], files);
        outputs := outputs + [written];
      }
    }
  }

  /** A static hit is answered by the file, whatever routes exist. */
  lemma StaticTakesPrecedence(handlers: map<string, Handler>, folder: Option<string>, files: FileSystem, request: HttpRequest)
    requires folder.Some? && StaticFilePath(request.GetPath()) in files
    ensures var p := StaticFilePath(request.GetPath());
      Dispatch(handlers, folder, files, request) == ResponseValue(200, map[], Some(PathToMimetype(p)), files[p])
  {
  }

  /** The folder's name never matters, only whether one is set. */
  lemma FolderNameIrrelevant(handlers: map<string, Handler>, f1: string, f2: string, files: FileSystem, request: HttpRequest)
    ensures Dispatch(handlers, Some(f1), files, request) == Dispatch(handlers, Some(f2), files, request)
  {
  }

  /** Without a static folder the filesystem is never consulted. */
  lemma NoFolderNoFiles(handlers: map<string, Handler>, files1: FileSystem, files2: FileSystem, request: HttpRequest)
    ensures Dispatch(handlers, None, files1, request) == Dispatch(handlers, None, files2, request)
  {
  }

  /** A static miss is answered as if no folder were set. */
  lemma StaticMissFallsThrough(handlers: map<string, Handler>, folder: Option<string>, files: FileSystem, request: HttpRequest)
    requires folder.None? || StaticFilePath(request.GetPath()) !in files
    ensures Dispatch(handlers, folder, files, request) == Dispatch(handlers, None, map[], request)
  {
  }

  /** Otherwise the handler registered for the exact path runs on a
      fresh status-0 response, whatever the request's method. */
  lemma RoutedRunsHandler(handlers: map<string, Handler>, request: HttpRequest)
    requires request.GetPath() in handlers
    ensures Dispatch(handlers, None, map[], request) == handlers[request.GetPath()](request, FRESH)
  {
  }

  /** With no route for the path, the fresh status-0 response is sent
      untouched, whatever the request's method. */
  lemma UnroutedIsFresh(handlers: map<string, Handler>, request: HttpRequest)
    requires request.GetPath() !in handlers
    ensures Dispatch(handlers, None, map[], request) == FRESH
  {
  }

  /** The route table is keyed by path alone: requests that differ only
      in their method reach the same handler, or none. */
  lemma RouteIgnoresMethod(handlers: map<string, Handler>, folder: Option<string>, files: FileSystem,
                           request: HttpRequest, m: HttpMethod)
    ensures var other := request.(httpMethod := m);
      && (request.GetPath() !in handlers ==>
            Dispatch(handlers, folder, files, request) == Dispatch(handlers, folder, files, other))
      && (request.GetPath() in handlers && StaticResponse(folder, request.GetPath(), files).None? ==>
            Dispatch(handlers, folder, files, other) == handlers[request.GetPath()](other, FRESH))
  {
  }

  /** Registering a path twice keeps the later handler. */
  lemma LastRegistrationWins(handlers: map<string, Handler>, path: string, h1: Handler, h2: Handler,
                             folder: Option<string>, files: FileSystem, request: HttpRequest)
    ensures Dispatch(handlers[path := h1][path := h2], folder, files, request)
         == Dispatch(handlers[path := h2], folder, files, request)
  {
    assert handlers[path := h1][path := h2] == handlers[path := h2];
  }

  /** Registering one path leaves every other path's answer unchanged. */
  lemma OtherRoutesUnchanged(handlers: map<string, Handler>, path: string, h: Handler,
                             folder: Option<string>, files: FileSystem, request: HttpRequest)
    requires request.GetPath() != path
    ensures Dispatch(handlers[path := h], folder, files, request) == Dispatch(handlers, folder, files, request)
  {
  }
}
