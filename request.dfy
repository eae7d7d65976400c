/** The parsed request (src/parsing/http_request.rs) and the method
    enumeration it carries (src/parsing/mod.rs). */
module Request {
  import opened Wrappers
  import opened Utf8

  /** `HttpMethod`: the nine methods the parser recognises. */
  datatype HttpMethod = Get | Post | Put | Delete | Patch | Head | Options | Trace | Connect

  /** `HttpRequest`: immutable once built; read through its getters. */
  datatype HttpRequest = HttpRequest(
    httpMethod: HttpMethod,
    path: string,
    query: map<string, string>,
    headers: map<string, string>,
    body: Option<seq<Byte>>)
  {
    function GetMethod(): HttpMethod { httpMethod }
    function GetPath(): string { path }
    function GetQuery(): map<string, string> { query }
    function GetHeaders(): map<string, string> { headers }
    /** `get_body` lends the stored bytes (`Option::as_deref`). */
    function GetBody(): Option<seq<Byte>> { body }
  }

  /** `HttpRequest::new`: every getter gives back what was passed in. */
  function New(httpMethod: HttpMethod, path: string, query: map<string, string>,
               headers: map<string, string>, body: Option<seq<Byte>>): (r: HttpRequest)
    ensures r.GetMethod() == httpMethod
    ensures r.GetPath() == path
    ensures r.GetQuery() == query && r.GetHeaders() == headers
    ensures r.GetBody().None? <==> body.None?
    ensures body.Some? ==> r.GetBody().value == body.value
  {
    HttpRequest(httpMethod, path, query, headers, body)
  }
}
