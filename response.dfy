/** The response under construction and its rendering onto the
    connection (src/parsing/http_response.rs). */
module Response {
  import opened Wrappers
  import opened Utf8
  import opened Decimal
  import opened Helpers

  /** A Rust `u16`, the type of the status code. */
  type Status = x: int | 0 <= x < 0x1_0000

  /** The four fields of an `HttpResponse`, as a value: what a handler
      sees and leaves behind, and what gets serialized. */
  datatype ResponseValue = ResponseValue(
    status: Status,
    headers: map<string, string>,
    contentType: Option<string>,
    body: seq<Byte>)

  /** `order` lists every key of `keys` exactly once: one possible
      iteration order of a `HashMap` with those keys. */
  ghost predicate IsEnumeration(order: seq<string>, keys: set<string>) {
    && (forall i, j :: 0 <= i < j < |order| ==> order[i] != order[j])
    && (forall k :: k in order <==> k in keys)
  }

  function StatusLine(status: Status): seq<Byte> {
    Encode("HTTP/1.1 " + Display(status) + "\r\n")
  }

  function HeaderLine(key: string, value: string): seq<Byte> {
    Encode(key + ": " + value + "\r\n")
  }

  /** The header lines, in the order given. */
  function HeaderLines(headers: map<string, string>, order: seq<string>): seq<Byte>
    requires forall i :: 0 <= i < |order| ==> order[i] in headers
  {
    if order == [] then []
    else HeaderLines(headers, order[..|order| - 1]) + HeaderLine(order[|order| - 1], headers[order[|order| - 1]])
  }

  /** One more key in the order adds its line at the end. */
  lemma HeaderLinesSnoc(headers: map<string, string>, order: seq<string>, key: string)
    requires forall i :: 0 <= i < |order| ==> order[i] in headers
    requires key in headers
    ensures HeaderLines(headers, order + [key]) == HeaderLines(headers, order) + HeaderLine(key, headers[key])
  {
    assert (order + [key])[..|order|] == order;
  }

  function ContentLengthLine(length: nat): seq<Byte> {
    Encode("Content-Length: " + Display(length) + "\r\n")
  }

  /** What is written for the content type. With none set, the code
      writes the bare text `text/plain`: no header name and no line end. */
  function ContentTypePiece(contentType: Option<string>): seq<Byte> {
    match contentType
    case Some(ct) => Encode("Content-Type: " + ct + "\r\n")
    case None => Encode("text/plain")
  }

  const CRLF: seq<Byte> := Encode("\r\n")

  /** `write_to_stream`: everything written, in order, when the headers
      are visited in the order `order`. */
  function Serialize(r: ResponseValue, order: seq<string>): seq<Byte>
    requires forall i :: 0 <= i < |order| ==> order[i] in r.headers
  {
    StatusLine(r.status) + HeaderLines(r.headers, order) + ContentLengthLine(|r.body|)
      + ContentTypePiece(r.contentType) + CRLF + r.body
  }

  /** The status line comes first and the body, verbatim, last. */
  lemma SerializeFrame(r: ResponseValue, order: seq<string>)
    requires forall i :: 0 <= i < |order| ==> order[i] in r.headers
    ensures var out := Serialize(r, order);
      && |StatusLine(r.status)| + |r.body| <= |out|
      && out[..|StatusLine(r.status)|] == StatusLine(r.status)
      && out[|out| - |r.body|..] == r.body
  {
    Pieces(StatusLine(r.status), HeaderLines(r.headers, order), ContentLengthLine(|r.body|),
           ContentTypePiece(r.contentType), CRLF, r.body);
  }

  /** Right after the header lines comes `Content-Length: ` and the body's
      length in decimal, whatever the headers hold. */
  lemma ContentLengthWritten(r: ResponseValue, order: seq<string>)
    requires forall i :: 0 <= i < |order| ==> order[i] in r.headers
    ensures var at := |StatusLine(r.status)| + |HeaderLines(r.headers, order)|;
      var line := Encode("Content-Length: " + Display(|r.body|) + "\r\n");
      && at + |line| <= |Serialize(r, order)|
      && Serialize(r, order)[at..at + |line|] == line
  {
    SerializePieces(r, order);
    Pieces(StatusLine(r.status), HeaderLines(r.headers, order), Encode("Content-Length: " + Display(|r.body|) + "\r\n"),
           ContentTypePiece(r.contentType), CRLF, r.body);
  }

  /** The six pieces `write_to_stream` writes, in order. */
  lemma SerializePieces(r: ResponseValue, order: seq<string>)
    requires forall i :: 0 <= i < |order| ==> order[i] in r.headers
    ensures Serialize(r, order) == StatusLine(r.status) + HeaderLines(r.headers, order)
      + Encode("Content-Length: " + Display(|r.body|) + "\r\n") + ContentTypePiece(r.contentType) + CRLF + r.body
  {
  }

  /** Where the first, third and last of six concatenated pieces sit. */
  lemma Pieces(a: seq<Byte>, b: seq<Byte>, c: seq<Byte>, d: seq<Byte>, e: seq<Byte>, f: seq<Byte>)
    ensures var out := a + b + c + d + e + f;
      && |a| + |f| <= |out| && out[..|a|] == a && out[|out| - |f|..] == f
      && |a| + |b| + |c| <= |out| && out[|a| + |b|..|a| + |b| + |c|] == c
  {
  }

  /** A set content type is a full header line. */
  lemma ContentTypeSet(ct: string)
    ensures ContentTypePiece(Some(ct)) == Encode("Content-Type: ") + Encode(ct) + CRLF
  {
    EncodeConcat("Content-Type: " + ct, "\r\n");
    EncodeConcat("Content-Type: ", ct);
  }

  /** An unset content type is the bare text `text/plain`: no header name,
      and no line break, so it runs into the blank line that follows. */
  lemma ContentTypeUnset()
    ensures 13 !in ContentTypePiece(None) && 10 !in ContentTypePiece(None)
  {
    NoLineBreak("text/plain");
  }

  /** Part way through visiting the keys of `headers`: `order` lists the
      keys visited so far, each once and none still in `remaining`, and
      every key is in one or the other. */
  ghost predicate Visiting(headers: map<string, string>, remaining: set<string>, order: seq<string>) {
    && remaining <= headers.Keys
    && (forall i :: 0 <= i < |order| ==> order[i] in headers && order[i] !in remaining)
    && (forall i, j :: 0 <= i < j < |order| ==> order[i] != order[j])
    && (forall k :: k in headers ==> k in remaining || k in order)
  }

  /** Moving one key from the unvisited set to the end of the order keeps
      the visit consistent. */
  lemma VisitKey(headers: map<string, string>, remaining: set<string>, order: seq<string>, key: string)
    requires Visiting(headers, remaining, order) && key in remaining
    ensures Visiting(headers, remaining - {key}, order + [key])
  {
    var order' := order + [key];
    forall k | k in headers
      ensures k in remaining - {key} || k in order'
    {
      if k == key {
        assert order'[|order|] == key;
      } else if k in order {
        var i :| 0 <= i < |order| && order[i] == k;
        assert order'[i] == k;
      }
    }
  }

  /** A finished visit lists every key exactly once. */
  lemma VisitDone(headers: map<string, string>, order: seq<string>)
    requires Visiting(headers, {}, order)
    ensures IsEnumeration(order, headers.Keys)
    ensures forall i :: 0 <= i < |order| ==> order[i] in headers
  {
  }

  /** The kind of the `std::io::Error` that `write_from_file` reports for
      a missing file. */
  datatype IoErrorKind = NotFound

  class HttpResponse {
    var status: Status
    var headers: map<string, string>
    var contentType: Option<string>
    var body: seq<Byte>

    function Value(): ResponseValue
      reads this
    {
      ResponseValue(status, headers, contentType, body)
    }

    /** `HttpResponse::new`. */
    constructor (status: Status, headers: map<string, string>, contentType: Option<string>, body: seq<Byte>)
      ensures Value() == ResponseValue(status, headers, contentType, body)
    {
      this.status := status;
      this.headers := headers;
      this.contentType := contentType;
      this.body := body;
    }

    /** `write_to_stream`: the bytes written to the stream. The Rust loop
        visits the headers in `HashMap` order, which the model leaves
        open: `order` is the order this run took. */
    method WriteToStream() returns (written: seq<Byte>, ghost order: seq<string>)
      ensures IsEnumeration(order, headers.Keys)
      ensures forall i :: 0 <= i < |order| ==> order[i] in headers
      ensures written == Serialize(Value(), order)
    {
      written := StatusLine(status);
      order := [];
      var remaining := headers.Keys;
      while remaining != {}
        invariant Visiting(headers, remaining, order)
        invariant written == StatusLine(status) + HeaderLines(headers, order)
        decreases remaining
      {
        var key :| key in remaining;
        VisitKey(headers, remaining, order, key);
        HeaderLinesSnoc(headers, order, key);
        written := written + HeaderLine(key, headers[key]);
        order := order + [key];
        remaining := remaining - {key};
      }
      VisitDone(headers, order);
      written := written + ContentLengthLine(|body|);
      written := written + ContentTypePiece(contentType);
      written := written + CRLF;
      written := written + body;
    }

    /** `set_header`: inserts or overwrites one key; nothing else changes. */
    method SetHeader(key: string, value: string)
      modifies this
      ensures Value() == old(Value()).(headers := old(headers)[key := value])
    {
      headers := headers[key := value];
    }

    /** `set_body`: replaces the body wholesale. */
    method SetBody(body: seq<Byte>)
      modifies this
      ensures Value() == old(Value()).(body := body)
    {
      this.body := body;
    }

    /** `set_status`. */
    method SetStatus(status: Status)
      modifies this
      ensures Value() == old(Value()).(status := status)
    {
      this.status := status;
    }

    /** `set_content_type`. */
    method SetContentType(contentType: string)
      modifies this
      ensures Value() == old(Value()).(contentType := Some(contentType))
    {
      this.contentType := Some(contentType);
    }

    function GetBody(): seq<Byte> reads this { body }
    function GetStatus(): Status reads this { status }
    function GetHeaders(): map<string, string> reads this { headers }
    function GetContentType(): Option<string> reads this { contentType }

    /** `write_from_json`: the body becomes the JSON text of `json`, which
        `toJsonString` (the `json` crate's `to_string`) produces. */
    method WriteFromJson<J>(json: J, toJsonString: J -> string)
      modifies this
      ensures Value() == old(Value()).(body := Encode(toJsonString(json)), contentType := Some("application/json"))
    {
      var jsonString := toJsonString(json);
      SetBody(Encode(jsonString));
      SetContentType("application/json");
    }

    /** `write_from_string`: the body becomes the string's UTF-8 bytes. */
    method WriteFromString(s: string)
      modifies this
      ensures Value() == old(Value()).(body := Encode(s), contentType := Some("text/plain"))
    {
      SetBody(Encode(s));
      SetContentType("text/plain");
    }

    /** `write_from_file`, with the filesystem given as a map from path to
        contents: a missing path is a `NotFound` error that leaves the
        response untouched; otherwise the body is the file's bytes and
        the content type is inferred from the path. */
    method WriteFromFile(path: string, files: map<string, seq<Byte>>) returns (r: Result<(), IoErrorKind>)
      modifies this
      ensures r.Err? <==> path !in files
      ensures r.Err? ==> r.error == NotFound && Value() == old(Value())
      ensures r.Ok? ==> Value() == old(Value()).(body := files[path], contentType := Some(PathToMimetype(path)))
    {
      if path !in files {
        return Err(NotFound);
      }
      var buffer := files[path];
      SetBody(buffer);
      SetContentType(PathToMimetype(path));
      return Ok(());
    }
  }
}
