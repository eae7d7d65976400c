/** `RequestParser::parse` (src/parsing/request_parser.rs): the bytes of
    one connection, read left to right through a `BufReader`, become an
    `HttpRequest` or a `ParseError`. */
module RequestParser {
  import opened Wrappers
  import opened Utf8
  import opened Text
  import opened Decimal
  import opened Request

  /** `ParseError`. `StreamError`'s boxed `std::io::Error` is dropped, and
      `GenericError`, which no path produces, is left out. */
  datatype ParseError = StreamError | MalformedRequest | InvalidMethod | ContentTooSmall | ContentTooLarge

  /** The two kinds of `std::io::Error` the reader can report: a line that
      is not UTF-8 (`InvalidData`) and a body cut short (`UnexpectedEof`). */
  datatype IoError = UnexpectedEof | InvalidData

  /** The `map_err` applied to every `read_line` and `read_exact` error
      before the body: end of file is a malformed request, anything else
      a stream error. */
  function LineError(e: IoError): ParseError {
    if e == UnexpectedEof then MalformedRequest else StreamError
  }

  /** The `map_err` applied to the `read_exact` error for the body. */
  function BodyError(e: IoError): ParseError {
    if e == UnexpectedEof then ContentTooSmall else StreamError
  }

  const NEWLINE: Byte := 10

  /** Where the line starting at `pos` ends: just past the next `\n`, or
      at the end of the input. */
  function LineEnd(s: seq<Byte>, pos: nat): (e: nat)
    requires pos <= |s|
    ensures pos <= e <= |s|
    ensures e == pos <==> pos == |s|
    decreases |s| - pos
  {
    if pos == |s| then pos
    else if s[pos] == NEWLINE then pos + 1
    else LineEnd(s, pos + 1)
  }

  /** The line holds no `\n` before its last byte, and it ends with `\n`
      unless it runs to the end of the input with no `\n` at all. */
  lemma {:induction false} LineEndSpec(s: seq<Byte>, pos: nat)
    requires pos <= |s|
    ensures var e := LineEnd(s, pos);
      && (forall i :: pos <= i < e - 1 ==> s[i] != NEWLINE)
      && (e < |s| ==> s[e - 1] == NEWLINE)
      && (e == |s| && e > pos ==> s[e - 1] == NEWLINE || NEWLINE !in s[pos..])
    decreases |s| - pos
  {
    if pos < |s| && s[pos] != NEWLINE {
      LineEndSpec(s, pos + 1);
      assert s[pos..] == [s[pos]] + s[pos + 1..];
    }
  }

  /** `BufRead::read_line` at `pos`: the line (its `\n` included) and the
      position after it. At the end of the input the line is empty and
      no error is raised; a line that is not UTF-8 is `InvalidData`. */
  function ReadLineAt(s: seq<Byte>, pos: nat): (r: (Result<string, IoError>, nat))
    requires pos <= |s|
    ensures pos <= r.1 <= |s|
  {
    var e := LineEnd(s, pos);
    match Decode(s[pos..e])
    case None => (Err(InvalidData), e)
    case Some(line) => (Ok(line), e)
  }

  /** A line read at `pos` that is not empty moved the reader forward. */
  lemma ReadLineAdvances(s: seq<Byte>, pos: nat)
    requires pos <= |s|
    requires ReadLineAt(s, pos).0.Ok? && ReadLineAt(s, pos).0.value != []
    ensures ReadLineAt(s, pos).1 > pos
  {
  }

  /** The connection as the parser sees it: one byte sequence consumed
      left to right by `read_line` and `read_exact`. */
  class BufReader {
    const data: seq<Byte>
    var pos: nat

    ghost predicate Valid()
      reads this
    {
      pos <= |data|
    }

    constructor (data: seq<Byte>)
      ensures Valid() && this.data == data && pos == 0
    {
      this.data := data;
      pos := 0;
    }

    /** `read_line`: scans to the next `\n`, then decodes the line. */
    method ReadLine() returns (r: Result<string, IoError>)
      requires Valid()
      modifies this
      ensures Valid()
      ensures (r, pos) == ReadLineAt(data, old(pos))
    {
      var i := pos;
      while i < |data| && data[i] != NEWLINE
        invariant pos <= i <= |data|
        invariant LineEnd(data, i) == LineEnd(data, pos)
        decreases |data| - i
      {
        i := i + 1;
      }
      var end := if i < |data| then i + 1 else i;
      var line := Decode(data[pos..end]);
      pos := end;
      if line.None? {
        return Err(InvalidData);
      }
      return Ok(line.value);
    }

    /** `read_exact`: exactly `n` more bytes, or `UnexpectedEof` (having
        consumed what was left) when fewer remain. */
    method ReadExact(n: nat) returns (r: Result<seq<Byte>, IoError>)
      requires Valid()
      modifies this
      ensures Valid()
      ensures old(pos) + n <= |data| ==> r == Ok(data[old(pos)..old(pos) + n]) && pos == old(pos) + n
      ensures old(pos) + n > |data| ==> r == Err(UnexpectedEof) && pos == |data|
    {
      if pos + n > |data| {
        pos := |data|;
        return Err(UnexpectedEof);
      }
      r := Ok(data[pos..pos + n]);
      pos := pos + n;
    }
  }

  /** The method token's spelling. */
  function MethodName(m: HttpMethod): string {
    match m
    case Get => "GET"
    case Post => "POST"
    case Put => "PUT"
    case Delete => "DELETE"
    case Patch => "PATCH"
    case Head => "HEAD"
    case Options => "OPTIONS"
    case Trace => "TRACE"
    case Connect => "CONNECT"
  }

  /** The `match` on the first token: exact, case-sensitive. */
  function MethodFromToken(token: string): Option<HttpMethod> {
    match token
    case "GET" => Some(Get)
    case "POST" => Some(Post)
    case "PUT" => Some(Put)
    case "DELETE" => Some(Delete)
    case "PATCH" => Some(Patch)
    case "HEAD" => Some(Head)
    case "OPTIONS" => Some(Options)
    case "TRACE" => Some(Trace)
    case "CONNECT" => Some(Connect)
    case _ => None
  }

  /** A token names method `m` exactly when it is `m`'s spelling, so each
      of the nine spellings maps to exactly one method and every other
      token to none. */
  lemma MethodFromTokenIff(token: string, m: HttpMethod)
    ensures MethodFromToken(token) == Some(m) <==> token == MethodName(m)
  {
  }

  /** Lower case is not accepted. */
  lemma MethodTokenCaseSensitive()
    ensures MethodFromToken("get") == None && MethodFromToken("Post") == None
  {
  }

  /** The path: the target up to its first `?`. */
  function TargetPath(target: string): string {
    match Find(target, '?')
    case None => target
    case Some(i) => target[..i]
  }

  /** The query string: what follows the first `?`, if there is one. */
  function TargetQuery(target: string): Option<string> {
    match Find(target, '?')
    case None => None
    case Some(i) => Some(target[i + 1..])
  }

  /** The path holds no `?`, and the path followed by `?` and the query
      (when there is one) is the target again. */
  lemma TargetReassembles(target: string)
    ensures '?' !in TargetPath(target)
    ensures target == TargetPath(target) + match TargetQuery(target) case None => "" case Some(q) => "?" + q
  {
    FindSpec(target, '?');
    match Find(target, '?')
    case None =>
    case Some(i) =>
      assert target == target[..i] + "?" + target[i + 1..];
  }

  /** Each `&`-separated piece split at its first `=`: `None` as soon as
      one piece has no `=`. */
  function SplitPairs(pieces: seq<string>): Option<seq<(string, string)>> {
    if pieces == [] then Some([])
    else match SplitPairs(pieces[..|pieces| - 1])
      case None => None
      case Some(kvs) =>
        match SplitOnce(pieces[|pieces| - 1], '=')
        case None => None
        case Some(kv) => Some(kvs + [kv])
  }

  /** Splitting the pieces fails exactly when some piece has no `=`;
      otherwise pair `i` is piece `i` cut at its first `=`. */
  lemma {:induction false} SplitPairsIff(pieces: seq<string>)
    ensures SplitPairs(pieces).None? <==> exists i :: 0 <= i < |pieces| && '=' !in pieces[i]
    ensures SplitPairs(pieces).Some? ==>
      var kvs := SplitPairs(pieces).value;
      && |kvs| == |pieces|
      && forall i :: 0 <= i < |pieces| ==> pieces[i] == kvs[i].0 + "=" + kvs[i].1 && '=' !in kvs[i].0
  {
    if pieces != [] {
      var init := pieces[..|pieces| - 1];
      SplitPairsIff(init);
      SplitOnceSpec(pieces[|pieces| - 1], '=');
      if exists i :: 0 <= i < |init| && '=' !in init[i] {
        var i :| 0 <= i < |init| && '=' !in init[i];
        assert pieces[i] == init[i];
      }
      if SplitPairs(pieces).Some? {
        var kvs := SplitPairs(pieces).value;
        forall i | 0 <= i < |pieces|
          ensures pieces[i] == kvs[i].0 + "=" + kvs[i].1 && '=' !in kvs[i].0
        {
          if i < |init| { assert pieces[i] == init[i]; }
        }
      }
    }
  }

  /** The query map: empty without a `?`; otherwise the pairs inserted in
      order, or `None` when a piece has no `=`. */
  function QueryOf(target: string): Option<map<string, string>> {
    match TargetQuery(target)
    case None => Some(map[])
    case Some(q) => PairsOf(q)
  }

  /** The map of a query string: its `&`-separated pieces cut at `=` and
      inserted in order, or `None` when a piece has no `=`. */
  function PairsOf(q: string): Option<map<string, string>> {
    match SplitPairs(Split(q, '&'))
    case None => None
    case Some(kvs) => Some(InsertAll(kvs))
  }

  /** Without a `?` there is no query. */
  lemma QueryWithoutQuestionMark(target: string)
    requires '?' !in target
    ensures QueryOf(target) == Some(map[])
  {
    FindSpec(target, '?');
  }

  /** With a `?`, the query is malformed exactly when one of its
      `&`-separated pieces has no `=`. */
  lemma QueryMalformedIff(target: string, q: string)
    requires TargetQuery(target) == Some(q)
    ensures QueryOf(target).None? <==> exists piece :: piece in Split(q, '&') && '=' !in piece
  {
    var ps := Split(q, '&');
    SplitPairsIff(ps);
    if QueryOf(target).None? {
      var i :| 0 <= i < |ps| && '=' !in ps[i];
      assert ps[i] in ps;
    }
  }

  /** A trailing `?`, and an empty piece between `&&`, are malformed: the
      empty piece has no `=`. */
  lemma QueryEmptyPieceMalformed(path: string, before: string, after: string)
    requires '?' !in path
    ensures QueryOf(path + "?") == None
    ensures QueryOf(path + "?" + before + "&&" + after) == None
  {
    var t1 := path + "?";
    assert t1[|path|] == '?' && t1[..|path|] == path;
    FindAt(t1, '?', |path|);
    assert t1[|path| + 1..] == "";
    assert Split("", '&') == [""];
    SplitPairsIff([""]);
    var t2 := path + "?" + before + "&&" + after;
    assert t2[|path|] == '?' && t2[..|path|] == path;
    var q := t2[|path| + 1..];
    FindAt(t2, '?', |path|);
    assert q == before + "&&" + after;
    EmptyPieceBetween(before, after);
    QueryMalformedIff(t2, q);
  }

  /** Splitting text that contains `&&` yields an empty piece. */
  lemma {:induction false} EmptyPieceBetween(before: string, after: string)
    ensures "" in Split(before + "&&" + after, '&')
    decreases |before|
  {
    var q := before + "&&" + after;
    FindSpec(before, '&');
    if '&' in before {
      var i := Find(before, '&').value;
      var rest := before[i + 1..] + "&&" + after;
      assert q == before[..i] + "&" + rest;
      SplitOnceAtFirst(before[..i], '&', rest);
      assert Split(q, '&') == [before[..i]] + Split(rest, '&');
      EmptyPieceBetween(before[i + 1..], after);
    } else {
      var rest := "&" + after;
      assert q == before + "&" + rest;
      SplitOnceAtFirst(before, '&', rest);
      assert Split(q, '&') == [before] + Split(rest, '&');
      assert rest == "" + "&" + after;
      SplitOnceAtFirst("", '&', after);
      assert Split(rest, '&') == [""] + Split(after, '&');
      assert Split(q, '&')[1] == "";
    }
  }

  /** The `key=value` pieces of a query, in order. */
  function PairPieces(kvs: seq<(string, string)>): (ps: seq<string>)
    ensures |ps| == |kvs|
  {
    seq(|kvs|, i requires 0 <= i < |kvs| => kvs[i].0 + "=" + kvs[i].1)
  }

  /** Pieces written from pairs whose keys hold no `=` split back into
      those pairs: the value keeps any further `=`. */
  lemma {:induction false} SplitPairsOfPieces(kvs: seq<(string, string)>)
    requires forall i :: 0 <= i < |kvs| ==> '=' !in kvs[i].0
    ensures SplitPairs(PairPieces(kvs)) == Some(kvs)
  {
    if kvs != [] {
      var n := |kvs| - 1;
      var init := kvs[..n];
      SplitPairsOfPieces(init);
      assert PairPieces(kvs)[..n] == PairPieces(init);
      SplitOnceAtFirst(kvs[n].0, '=', kvs[n].1);
      assert PairPieces(kvs)[n] == kvs[n].0 + "=" + kvs[n].1;
      assert init + [kvs[n]] == kvs;
    }
  }

  /** A well-formed query string parses to its pairs inserted in order (so
      a repeated key keeps its last value, by `InsertAllLastWins`). */
  lemma QueryOfPairs(path: string, kvs: seq<(string, string)>)
    requires '?' !in path && |kvs| >= 1
    requires forall i :: 0 <= i < |kvs| ==> '=' !in kvs[i].0 && '&' !in kvs[i].0 && '&' !in kvs[i].1
    ensures TargetPath(path + "?" + Join(PairPieces(kvs), '&')) == path
    ensures QueryOf(path + "?" + Join(PairPieces(kvs), '&')) == Some(InsertAll(kvs))
  {
    QuestionMarkAt(path, Join(PairPieces(kvs), '&'));
    PiecesSplitBack(kvs);
    QueryAccepted(path + "?" + Join(PairPieces(kvs), '&'), |path|, kvs);
  }

  /** The first `?` of `path + "?" + rest`, when `path` has none, is the
      one after `path`. */
  lemma QuestionMarkAt(path: string, rest: string)
    requires '?' !in path
    ensures Find(path + "?" + rest, '?') == Some(|path|)
    ensures TargetPath(path + "?" + rest) == path
    ensures (path + "?" + rest)[|path| + 1..] == rest
  {
    assert (path + "?" + rest)[|path|] == '?' && (path + "?" + rest)[..|path|] == path;
    FindAt(path + "?" + rest, '?', |path|);
  }

  /** The pieces written from such pairs split back into the pairs. */
  lemma PiecesSplitBack(kvs: seq<(string, string)>)
    requires |kvs| >= 1
    requires forall i :: 0 <= i < |kvs| ==> '=' !in kvs[i].0 && '&' !in kvs[i].0 && '&' !in kvs[i].1
    ensures SplitPairs(Split(Join(PairPieces(kvs), '&'), '&')) == Some(kvs)
  {
    forall k | 0 <= k < |PairPieces(kvs)|
      ensures '&' !in PairPieces(kvs)[k]
    {
      assert PairPieces(kvs)[k] == kvs[k].0 + "=" + kvs[k].1;
    }
    SplitJoin(PairPieces(kvs), '&');
    SplitPairsOfPieces(kvs);
  }

  /** A header line cut at its first `:`: the key as written, the value
      trimmed; `None` when the line has no `:`. */
  function HeaderEntry(line: string): Option<(string, string)> {
    match SplitOnce(line, ':')
    case None => None
    case Some((key, raw)) => Some((key, Trim(raw)))
  }

  /** A line without `:` is rejected; otherwise the key is everything
      before the first `:` and the value is the rest, trimmed. */
  lemma HeaderEntrySpec(line: string)
    ensures HeaderEntry(line).None? <==> ':' !in line
    ensures HeaderEntry(line).Some? ==>
      exists raw :: line == HeaderEntry(line).value.0 + ":" + raw && HeaderEntry(line).value.1 == Trim(raw)
        && ':' !in HeaderEntry(line).value.0
  {
    SplitOnceSpec(line, ':');
    if HeaderEntry(line).Some? {
      var raw := SplitOnce(line, ':').value.1;
      assert line == HeaderEntry(line).value.0 + ":" + raw;
    }
  }

  /** The outcome of the header loop: the entries read, in order, or the
      error that ended it; and where the reader stopped. */
  datatype HeaderScan = HeaderScan(result: Result<seq<(string, string)>, ParseError>, end: nat)

  /** The header loop from `pos`: lines until one that is blank after
      trimming (end of input reads as such a line). */
  function ScanHeaders(s: seq<Byte>, pos: nat): (h: HeaderScan)
    requires pos <= |s|
    ensures pos <= h.end <= |s|
    decreases |s| - pos
  {
    var r := ReadLineAt(s, pos);
    if r.0.Err? then HeaderScan(Err(LineError(r.0.error)), r.1)
    else if Trim(r.0.value) == [] then HeaderScan(Ok([]), r.1)
    else
      var entry := HeaderEntry(r.0.value);
      if entry.None? then HeaderScan(Err(MalformedRequest), r.1)
      else
        assert r.0.value != [];
        ReadLineAdvances(s, pos);
        Prepend([entry.value], ScanHeaders(s, r.1))
  }

  /** Entries read before `h` started, put in front of its own. */
  function Prepend(kvs: seq<(string, string)>, h: HeaderScan): (r: HeaderScan)
    ensures r.end == h.end
  {
    match h.result
    case Err(_) => h
    case Ok(rest) => HeaderScan(Ok(kvs + rest), h.end)
  }

  /** `Content-Length`, looked up with exactly that spelling: 0 when
      absent or not a valid `usize`. */
  function ContentLength(headers: map<string, string>): nat {
    if "Content-Length" in headers then ParseUsize(headers["Content-Length"]).GetOr(0) else 0
  }

  /** What `parse` returns, and how far it has read. */
  datatype ParseOutcome = ParseOutcome(result: Result<HttpRequest, ParseError>, consumed: nat)

  /** What the request line yields: the method, the path and the query. */
  datatype RequestLine = RequestLine(httpMethod: HttpMethod, path: string, query: map<string, string>)

  /** The request line, checked in the order the parser checks it: at least
      one token, a known method, a second token, a well-formed query. */
  function ParseRequestLine(line: string): Result<RequestLine, ParseError> {
    CheckRequestLine(Tokens(line))
  }

  /** The checks on the request line's words. */
  function CheckRequestLine(parts: seq<string>): Result<RequestLine, ParseError> {
    if |parts| == 0 then Err(MalformedRequest)
    else
      match MethodFromToken(parts[0])
      case None => Err(InvalidMethod)
      case Some(m) =>
        if |parts| < 2 then Err(MalformedRequest)
        else
          match QueryOf(parts[1])
          case None => Err(MalformedRequest)
          case Some(query) => Ok(RequestLine(m, TargetPath(parts[1]), query))
  }

  /** The body, read from `end` once the headers are known: none when the
      length is 0, else exactly that many bytes. */
  function ParseBody(s: seq<Byte>, end: nat, rl: RequestLine, headers: map<string, string>): ParseOutcome
    requires end <= |s|
  {
    var n := ContentLength(headers);
    if n == 0 then
      ParseOutcome(Ok(New(rl.httpMethod, rl.path, rl.query, headers, None)), end)
    else if end + n > |s| then
      ParseOutcome(Err(ContentTooSmall), |s|)
    else
      ParseOutcome(Ok(New(rl.httpMethod, rl.path, rl.query, headers, Some(s[end..end + n]))), end + n)
  }

  /** The three outcomes of the body stage: no body for length 0, the
      next `n` bytes when they are there, `ContentTooSmall` otherwise. */
  lemma BodyCases(s: seq<Byte>, end: nat, rl: RequestLine, headers: map<string, string>, n: nat)
    requires end <= |s| && n == ContentLength(headers)
    ensures n == 0 ==>
      ParseBody(s, end, rl, headers) == ParseOutcome(Ok(New(rl.httpMethod, rl.path, rl.query, headers, None)), end)
    ensures 0 < n && end + n <= |s| ==>
      ParseBody(s, end, rl, headers)
        == ParseOutcome(Ok(New(rl.httpMethod, rl.path, rl.query, headers, Some(s[end..end + n]))), end + n)
    ensures 0 < n && end + n > |s| ==> ParseBody(s, end, rl, headers) == ParseOutcome(Err(ContentTooSmall), |s|)
  {
  }

  /** The request line read at `pos` and checked, and where the reader
      stopped. */
  function RequestLineAt(s: seq<Byte>, pos: nat): (r: (Result<RequestLine, ParseError>, nat))
    requires pos <= |s|
    ensures r.1 == ReadLineAt(s, pos).1
  {
    var (first, next) := ReadLineAt(s, pos);
    match first
    case Err(e) => (Err(LineError(e)), next)
    case Ok(line) => (ParseRequestLine(line), next)
  }

  /** The parse, stage by stage, as a function of the connection's bytes. */
  function ParseSpec(s: seq<Byte>): ParseOutcome {
    var (rl, p1) := RequestLineAt(s, 0);
    match rl
    case Err(e) => ParseOutcome(Err(e), p1)
    case Ok(rl) =>
      var h := ScanHeaders(s, p1);
      match h.result
      case Err(e) => ParseOutcome(Err(e), h.end)
      case Ok(kvs) => ParseBody(s, h.end, rl, InsertAll(kvs))
  }

  /** `isize::MAX` on a 64-bit target: no `Vec` can be longer. */
  const ISIZE_MAX: nat := 0x7FFF_FFFF_FFFF_FFFF

  /** `parse` exactly as written: `vec![0; content_length]` is built
      before any body byte is read, and a length above `isize::MAX`
      makes it panic with a capacity overflow (`None` here). Every other
      connection gets the outcome `ParseSpec` gives. */
  function ParseAsWritten(s: seq<Byte>): (r: Option<ParseOutcome>)
    ensures r.Some? ==> r.value == ParseSpec(s)
    ensures r.None? <==>
      && RequestLineAt(s, 0).0.Ok?
      && ScanHeaders(s, RequestLineAt(s, 0).1).result.Ok?
      && ContentLength(InsertAll(ScanHeaders(s, RequestLineAt(s, 0).1).result.value)) > ISIZE_MAX
  {
    var (rl, p1) := RequestLineAt(s, 0);
    if rl.Err? then Some(ParseSpec(s))
    else
      var h := ScanHeaders(s, p1);
      if h.result.Ok? && ContentLength(InsertAll(h.result.value)) > ISIZE_MAX then None
      else Some(ParseSpec(s))
  }

  /** The target split at its first `?`; the query, when there is one,
      is parsed by `ParseQuery`. */
  method ParseTarget(fullPath: string) returns (path: string, query: Option<map<string, string>>)
    ensures path == TargetPath(fullPath) && query == QueryOf(fullPath)
  {
    var queryIdx := Find(fullPath, '?');
    path := if queryIdx.Some? then fullPath[..queryIdx.value] else fullPath;
    if queryIdx.Some? {
      query := ParseQuery(fullPath[queryIdx.value + 1..]);
    } else {
      query := Some(map[]);
    }
  }

  /** The `for` loop over the `&`-separated pieces of the query, inserting
      each pair into the map; a piece with no `=` rejects the query. */
  method ParseQuery(queryStr: string) returns (query: Option<map<string, string>>)
    ensures query == PairsOf(queryStr)
  {
    var pairsSoFar := map[];
    var pairs := Split(queryStr, '&');
    ghost var kvs: seq<(string, string)> := [];
    for i := 0 to |pairs|
      invariant SplitPairs(pairs[..i]) == Some(kvs)
      invariant pairsSoFar == InsertAll(kvs)
    {
      var kv := SplitOnce(pairs[i], '=');
      if kv.None? {
        SplitPairsFails(pairs, i);
        return None;
      }
      SplitPairsStep(pairs, i, kvs, kv.value);
      InsertAllSnoc(kvs, kv.value.0, kv.value.1);
      pairsSoFar := pairsSoFar[kv.value.0 := kv.value.1];
      kvs := kvs + [kv.value];
    }
    assert pairs[..|pairs|] == pairs;
    query := Some(pairsSoFar);
  }

  /** One more piece cut at its `=` extends the pairs by one. */
  lemma SplitPairsStep(pieces: seq<string>, i: nat, kvs: seq<(string, string)>, kv: (string, string))
    requires i < |pieces| && SplitPairs(pieces[..i]) == Some(kvs)
    requires SplitOnce(pieces[i], '=') == Some(kv)
    ensures SplitPairs(pieces[..i + 1]) == Some(kvs + [kv])
  {
    assert pieces[..i + 1][..i] == pieces[..i];
  }

  /** A piece with no `=` makes the whole split fail. */
  lemma SplitPairsFails(pieces: seq<string>, i: nat)
    requires i < |pieces| && SplitOnce(pieces[i], '=').None?
    ensures SplitPairs(pieces).None?
  {
    SplitOnceSpec(pieces[i], '=');
    SplitPairsIff(pieces);
  }

  lemma QueryAccepted(target: string, i: nat, kvs: seq<(string, string)>)
    requires Find(target, '?') == Some(i)
    requires SplitPairs(Split(target[i + 1..], '&')) == Some(kvs)
    ensures QueryOf(target) == Some(InsertAll(kvs))
  {
  }

  lemma PrependPrepend(a: seq<(string, string)>, b: seq<(string, string)>, h: HeaderScan)
    ensures Prepend(a, Prepend(b, h)) == Prepend(a + b, h)
  {
    if h.result.Ok? {
      assert a + (b + h.result.value) == (a + b) + h.result.value;
    }
  }

  lemma PrependNone(h: HeaderScan)
    ensures Prepend([], h) == h
  {
    if h.result.Ok? {
      assert [] + h.result.value == h.result.value;
    }
  }

  /** One step of the header scan, for the loop that performs it. */
  lemma ScanStep(s: seq<Byte>, pos: nat)
    requires pos <= |s|
    ensures var r := ReadLineAt(s, pos);
      && (r.0.Err? ==> ScanHeaders(s, pos) == HeaderScan(Err(LineError(r.0.error)), r.1))
      && (r.0.Ok? && Trim(r.0.value) == [] ==> ScanHeaders(s, pos) == HeaderScan(Ok([]), r.1))
      && (r.0.Ok? && Trim(r.0.value) != [] && HeaderEntry(r.0.value).None? ==>
            ScanHeaders(s, pos) == HeaderScan(Err(MalformedRequest), r.1))
      && (r.0.Ok? && Trim(r.0.value) != [] && HeaderEntry(r.0.value).Some? ==>
            pos < r.1 && ScanHeaders(s, pos) == Prepend([HeaderEntry(r.0.value).value], ScanHeaders(s, r.1)))
  {
    var r := ReadLineAt(s, pos);
    if r.0.Ok? && Trim(r.0.value) != [] {
      assert r.0.value != [];
      ReadLineAdvances(s, pos);
    }
  }

  lemma InsertAllSnoc<K, V>(kvs: seq<(K, V)>, k: K, v: V)
    ensures InsertAll(kvs + [(k, v)]) == InsertAll(kvs)[k := v]
  {
    assert (kvs + [(k, v)])[..|kvs|] == kvs;
  }

  /** The `loop` that reads header lines into the map until a blank line. */
  method ReadHeaders(buf: BufReader) returns (headers: Result<map<string, string>, ParseError>)
    requires buf.Valid()
    modifies buf
    ensures buf.Valid()
    ensures var h := ScanHeaders(buf.data, old(buf.pos));
      && buf.pos == h.end
      && (h.result.Err? ==> headers == Err(h.result.error))
      && (h.result.Ok? ==> headers == Ok(InsertAll(h.result.value)))
  {
    ghost var data := buf.data;
    ghost var start := buf.pos;
    ghost var entries: seq<(string, string)> := [];
    var soFar := map[];
    PrependNone(ScanHeaders(data, start));
    while true
      invariant buf.Valid() && buf.data == data && start <= buf.pos
      invariant ScanHeaders(data, start) == Prepend(entries, ScanHeaders(data, buf.pos))
      invariant soFar == InsertAll(entries)
      decreases |data| - buf.pos
    {
      ghost var before := buf.pos;
      ScanStep(data, before);
      var line := buf.ReadLine();
      if line.Err? {
        return Err(LineError(line.error));
      }
      if Trim(line.value) == [] {
        assert entries + [] == entries;
        break;
      }
      var parts := SplitOnce(line.value, ':');
      if parts.None? {
        return Err(MalformedRequest);
      }
      var key := parts.value.0;
      var value := Trim(parts.value.1);
      assert (line, buf.pos) == ReadLineAt(data, before);
      assert HeaderEntry(line.value) == Some((key, value));
      ghost var rest := ScanHeaders(data, buf.pos);
      assert ScanHeaders(data, before) == Prepend([(key, value)], rest);
      PrependPrepend(entries, [(key, value)], rest);
      InsertAllSnoc(entries, key, value);
      soFar := soFar[key := value];
      entries := entries + [(key, value)];
    }
    return Ok(soFar);
  }

  /** The first part of `parse`: the request line read, split on
      whitespace, and its method and target checked. */
  method ReadRequestLine(buf: BufReader) returns (line: Result<RequestLine, ParseError>)
    requires buf.Valid()
    modifies buf
    ensures buf.Valid()
    ensures (line, buf.pos) == RequestLineAt(buf.data, old(buf.pos))
  {
    var firstLine := buf.ReadLine();
    if firstLine.Err? {
      return Err(LineError(firstLine.error));
    }
    var parts := Tokens(firstLine.value);
    if |parts| == 0 {
      return Err(MalformedRequest);
    }
    var httpMethod := MethodFromToken(parts[0]);
    if httpMethod.None? {
      return Err(InvalidMethod);
    }
    if |parts| < 2 {
      return Err(MalformedRequest);
    }
    var path, query := ParseTarget(parts[1]);
    if query.None? {
      return Err(MalformedRequest);
    }
    return Ok(RequestLine(httpMethod.value, path, query.value));
  }

  /** The last part of `parse`: the body read once the headers are known. */
  method ReadBody(buf: BufReader, rl: RequestLine, headers: map<string, string>)
    returns (result: Result<HttpRequest, ParseError>)
    requires buf.Valid()
    modifies buf
    ensures buf.Valid()
    ensures ParseOutcome(result, buf.pos) == ParseBody(buf.data, old(buf.pos), rl, headers)
  {
    var contentLength := ContentLength(headers);
    BodyCases(buf.data, buf.pos, rl, headers, contentLength);
    if contentLength == 0 {
      return Ok(New(rl.httpMethod, rl.path, rl.query, headers, None));
    }
    var body := buf.ReadExact(contentLength);
    if body.Err? {
      return Err(BodyError(body.error));
    }
    return Ok(New(rl.httpMethod, rl.path, rl.query, headers, Some(body.value)));
  }

  /** `RequestParser::new(stream).parse()`: returns the request or the
      error, and how many of the stream's bytes the reader consumed. */
  method Parse(stream: seq<Byte>) returns (result: Result<HttpRequest, ParseError>, consumed: nat)
    ensures ParseOutcome(result, consumed) == ParseSpec(stream)
  {
    var buf := new BufReader(stream);
    var requestLine := ReadRequestLine(buf);
    ghost var p1 := buf.pos;
    assert (requestLine, p1) == RequestLineAt(stream, 0);
    if requestLine.Err? {
      return Err(requestLine.error), buf.pos;
    }
    var headers := ReadHeaders(buf);
    ghost var h := ScanHeaders(stream, p1);
    if headers.Err? {
      return Err(headers.error), buf.pos;
    }
    assert ParseSpec(stream) == ParseBody(stream, buf.pos, requestLine.value, headers.value);
    result := ReadBody(buf, requestLine.value, headers.value);
    consumed := buf.pos;
  }
}
