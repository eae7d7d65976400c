/** What the request parser promises about every connection, and the
    request it reads back from bytes written in the format it expects. */
module ParseProperties {
  import opened Wrappers
  import opened Utf8
  import opened Text
  import opened Decimal
  import opened Request
  import opened RequestParser

  /** Where the header scan starts: just after the first line. */
  function HeadersStart(s: seq<Byte>): (p: nat)
    ensures p <= |s|
  {
    RequestLineAt(s, 0).1
  }

  // ---------------------------------------------------------------------
  // Every connection

  /** A connection that closes without sending anything is malformed. */
  lemma EmptyConnectionMalformed()
    ensures ParseSpec([]) == ParseOutcome(Err(MalformedRequest), 0)
  {
    TokensEmptyIff("");
  }

  /** A first line that is empty or only whitespace is malformed, whatever
      follows it. */
  lemma BlankRequestLineMalformed(s: seq<Byte>)
    requires ReadLineAt(s, 0).0.Ok? && AllWhitespace(ReadLineAt(s, 0).0.value)
    ensures ParseSpec(s) == ParseOutcome(Err(MalformedRequest), ReadLineAt(s, 0).1)
  {
    TokensEmptyIff(ReadLineAt(s, 0).0.value);
  }

  /** The method is checked before the target: a first word that is not a
      method is `InvalidMethod` even when nothing follows it. */
  lemma RequestLineMethodChecked(line: string)
    ensures Tokens(line) == [] <==> AllWhitespace(line)
    ensures ParseRequestLine(line) == Err(InvalidMethod)
        <==> !AllWhitespace(line) && MethodFromToken(Tokens(line)[0]).None?
  {
    TokensEmptyIff(line);
    WordsMethodChecked(Tokens(line));
  }

  lemma WordsMethodChecked(parts: seq<string>)
    ensures CheckRequestLine(parts) == Err(InvalidMethod) <==> parts != [] && MethodFromToken(parts[0]).None?
  {
  }

  /** A line is accepted exactly when it has a method and a target with a
      well-formed query; any words after the target are ignored. */
  lemma RequestLineAccepted(line: string)
    ensures ParseRequestLine(line).Ok?
        <==> |Tokens(line)| >= 2 && MethodFromToken(Tokens(line)[0]).Some? && QueryOf(Tokens(line)[1]).Some?
    ensures ParseRequestLine(line).Ok? ==>
      var ts := Tokens(line);
      ParseRequestLine(line).value == RequestLine(MethodFromToken(ts[0]).value, TargetPath(ts[1]), QueryOf(ts[1]).value)
  {
    WordsAccepted(Tokens(line));
  }

  lemma WordsAccepted(parts: seq<string>)
    ensures CheckRequestLine(parts).Ok?
        <==> |parts| >= 2 && MethodFromToken(parts[0]).Some? && QueryOf(parts[1]).Some?
    ensures CheckRequestLine(parts).Ok? ==>
      CheckRequestLine(parts).value == RequestLine(MethodFromToken(parts[0]).value, TargetPath(parts[1]), QueryOf(parts[1]).value)
  {
  }

  /** Every other rejection of the request line is `MalformedRequest`. */
  lemma RequestLineErrors(line: string)
    ensures ParseRequestLine(line).Err? ==> ParseRequestLine(line).error in {MalformedRequest, InvalidMethod}
  {
  }

  lemma {:induction false} ScanNeverTooLarge(s: seq<Byte>, pos: nat)
    requires pos <= |s|
    ensures ScanHeaders(s, pos).result != Err(ContentTooLarge)
    decreases |s| - pos
  {
    ScanStep(s, pos);
    var r := ReadLineAt(s, pos);
    if r.0.Ok? && Trim(r.0.value) != [] && HeaderEntry(r.0.value).Some? {
      ScanNeverTooLarge(s, r.1);
    }
  }

  /** `ContentTooLarge` is declared but never produced. */
  lemma ParseNeverTooLarge(s: seq<Byte>)
    ensures ParseSpec(s).result != Err(ContentTooLarge)
  {
    var (rl, p1) := RequestLineAt(s, 0);
    if rl.Ok? {
      ScanNeverTooLarge(s, p1);
      var h := ScanHeaders(s, p1);
      if h.result.Ok? {
        var headers := InsertAll(h.result.value);
        BodyCases(s, h.end, rl.value, headers, ContentLength(headers));
      }
    }
  }

  /** A parsed request: its headers are the header lines inserted in order
      (so a repeated name keeps its last value); it has a body exactly when
      its `Content-Length` is a positive number, and then the body is the
      bytes after the blank line, that many of them, and reading stops
      right after them. */
  lemma ParsedRequestShape(s: seq<Byte>)
    requires ParseSpec(s).result.Ok?
    ensures var p1 := HeadersStart(s);
      var h := ScanHeaders(s, p1);
      var req := ParseSpec(s).result.value;
      var consumed := ParseSpec(s).consumed;
      && h.result.Ok?
      && req.GetHeaders() == InsertAll(h.result.value)
      && (req.GetBody().None? <==> ContentLength(req.GetHeaders()) == 0)
      && (req.GetBody().None? ==> consumed == h.end)
      && (req.GetBody().Some? ==>
            && consumed == h.end + ContentLength(req.GetHeaders()) <= |s|
            && req.GetBody().value == s[h.end..consumed])
  {
    var rl, kvs, end := StagesOfParsed(s);
    BodyShape(s, end, rl, InsertAll(kvs));
  }

  /** A parse that got past the header block: the request line and the
      header scan that it went through. */
  lemma StagesOfParsed(s: seq<Byte>) returns (rl: RequestLine, kvs: seq<(string, string)>, end: nat)
    requires ParseSpec(s).result.Ok? || ParseSpec(s).result == Err(ContentTooSmall)
    ensures RequestLineAt(s, 0).0 == Ok(rl)
    ensures HeadersStart(s) <= end <= |s| && ScanHeaders(s, HeadersStart(s)) == HeaderScan(Ok(kvs), end)
    ensures ParseSpec(s) == ParseBody(s, end, rl, InsertAll(kvs))
  {
    var p1 := HeadersStart(s);
    if RequestLineAt(s, 0).0.Err? {
      RequestLineNeverTooSmall(s);
      assert false;
    }
    rl := RequestLineAt(s, 0).0.value;
    var h := ScanHeaders(s, p1);
    if h.result.Err? {
      ScanNeverTooSmall(s, p1);
      assert false;
    }
    kvs := h.result.value;
    end := h.end;
  }

  lemma RequestLineNeverTooSmall(s: seq<Byte>)
    ensures RequestLineAt(s, 0).0 != Err(ContentTooSmall)
  {
    if ReadLineAt(s, 0).0.Ok? {
      RequestLineErrors(ReadLineAt(s, 0).0.value);
    }
  }

  /** The body stage's result, case by case. */
  lemma BodyShape(s: seq<Byte>, end: nat, rl: RequestLine, headers: map<string, string>)
    requires end <= |s| && ParseBody(s, end, rl, headers).result.Ok?
    ensures var req := ParseBody(s, end, rl, headers).result.value;
      var consumed := ParseBody(s, end, rl, headers).consumed;
      && req.GetHeaders() == headers
      && (req.GetBody().None? <==> ContentLength(headers) == 0)
      && (req.GetBody().None? ==> consumed == end)
      && (req.GetBody().Some? ==>
            && consumed == end + ContentLength(headers) <= |s|
            && req.GetBody().value == s[end..consumed])
  {
    BodyCases(s, end, rl, headers, ContentLength(headers));
  }

  /** `ContentTooSmall` exactly when the headers promise more bytes than
      the connection has; everything left has then been read. */
  lemma ContentTooSmallIff(s: seq<Byte>)
    ensures ParseSpec(s).result == Err(ContentTooSmall) <==>
      && RequestLineAt(s, 0).0.Ok?
      && ScanHeaders(s, HeadersStart(s)).result.Ok?
      && var h := ScanHeaders(s, HeadersStart(s));
         h.end + ContentLength(InsertAll(h.result.value)) > |s|
    ensures ParseSpec(s).result == Err(ContentTooSmall) ==> ParseSpec(s).consumed == |s|
  {
    var p1 := HeadersStart(s);
    if RequestLineAt(s, 0).0.Ok? && ScanHeaders(s, p1).result.Ok? {
      var h := ScanHeaders(s, p1);
      SpecOfStages(s, RequestLineAt(s, 0).0.value, p1, h.result.value, h.end);
      var headers := InsertAll(h.result.value);
      BodyCases(s, h.end, RequestLineAt(s, 0).0.value, headers, ContentLength(headers));
    } else if ParseSpec(s).result == Err(ContentTooSmall) {
      var rl, kvs, end := StagesOfParsed(s);
      assert false;
    }
  }

  lemma {:induction false} ScanNeverTooSmall(s: seq<Byte>, pos: nat)
    requires pos <= |s|
    ensures ScanHeaders(s, pos).result != Err(ContentTooSmall)
    decreases |s| - pos
  {
    ScanStep(s, pos);
    var r := ReadLineAt(s, pos);
    if r.0.Ok? && Trim(r.0.value) != [] && HeaderEntry(r.0.value).Some? {
      ScanNeverTooSmall(s, r.1);
    }
  }

  // ---------------------------------------------------------------------
  // Reading back a well-formed request

  /** The request line as a client writes it. */
  function RequestLineText(m: HttpMethod, target: string): string {
    MethodName(m) + " " + target + " HTTP/1.1\r\n"
  }

  /** One line of a header block as a client writes it. */
  function HeaderLine(h: (string, string)): string {
    h.0 + ": " + h.1 + "\r\n"
  }

  /** The header block on the wire: each header's line, then the blank
      line. */
  function HeaderBytes(hs: seq<(string, string)>): seq<Byte> {
    if hs == [] then [13, 10] else Encode(HeaderLine(hs[0])) + HeaderBytes(hs[1..])
  }

  /** The request on the wire: request line, header lines, blank line,
      then the body bytes. */
  function RequestBytes(m: HttpMethod, target: string, hs: seq<(string, string)>, body: seq<Byte>): seq<Byte> {
    Encode(RequestLineText(m, target)) + HeaderBytes(hs) + body
  }

  /** A header the parser reads back as written: no `:` or line break in
      the name, no line break in the value, and no whitespace at the
      value's ends (which `trim` would drop). */
  predicate WellFormedHeader(h: (string, string)) {
    && ':' !in h.0 && '\n' !in h.0 && '\n' !in h.1
    && (h.1 == [] || (!IsWhitespace(h.1[0]) && !IsWhitespace(h.1[|h.1| - 1])))
  }

  lemma {:induction false} EncodeNoNewline(t: string)
    requires '\n' !in t
    ensures forall i :: 0 <= i < |Encode(t)| ==> Encode(t)[i] != NEWLINE
    decreases |t|
  {
    if t != [] {
      assert t[0] in t;
      assert forall c :: c in t[1..] ==> c in t;
      EncodeNoNewline(t[1..]);
      var head := EncodeChar(t[0]);
      EncodeCharSpec(t[0]);
      assert Encode(t) == head + Encode(t[1..]);
      forall i | 0 <= i < |Encode(t)|
        ensures Encode(t)[i] != NEWLINE
      {
        if i >= |head| {
          assert Encode(t)[i] == Encode(t[1..])[i - |head|];
        }
      }
    }
  }

  lemma {:induction false} LineEndAt(s: seq<Byte>, pos: nat, e: nat)
    requires pos < e <= |s| && s[e - 1] == NEWLINE
    requires forall i :: pos <= i < e - 1 ==> s[i] != NEWLINE
    ensures LineEnd(s, pos) == e
    decreases e - pos
  {
    if s[pos] != NEWLINE {
      LineEndAt(s, pos + 1, e);
    }
  }

  /** Bytes holding one newline, at their end. */
  ghost predicate OneLine(bs: seq<Byte>) {
    bs != [] && bs[|bs| - 1] == NEWLINE && forall i :: 0 <= i < |bs| - 1 ==> bs[i] != NEWLINE
  }

  /** `read_line` on the encoding of a line with one `\n`, at its end,
      returns that line and stops after it. */
  lemma ReadEncodedLine(s: seq<Byte>, pos: nat, text: string)
    requires text != [] && text[|text| - 1] == '\n' && '\n' !in text[..|text| - 1]
    requires pos + |Encode(text)| <= |s| && s[pos..pos + |Encode(text)|] == Encode(text)
    ensures ReadLineAt(s, pos) == (Ok(text), pos + |Encode(text)|)
  {
    assert OneLine(Encode(text)) && Decode(Encode(text)) == Some(text) by {
      EncodedLineBytes(text);
    }
    ReadLineBytes(s, pos, Encode(text), text);
  }

  /** `read_line` at `pos` on bytes `bs` with one newline, at their end,
      that decode to `text`. */
  lemma ReadLineBytes(s: seq<Byte>, pos: nat, bs: seq<Byte>, text: string)
    requires OneLine(bs)
    requires Decode(bs) == Some(text)
    requires pos + |bs| <= |s| && s[pos..pos + |bs|] == bs
    ensures ReadLineAt(s, pos) == (Ok(text), pos + |bs|)
  {
    LineEndOfBytes(s, pos, bs);
  }

  /** Bytes `bs` with one newline, at their end, laid out in `s` from
      `pos` end the line there. */
  lemma LineEndOfBytes(s: seq<Byte>, pos: nat, bs: seq<Byte>)
    requires OneLine(bs)
    requires pos + |bs| <= |s| && s[pos..pos + |bs|] == bs
    ensures LineEnd(s, pos) == pos + |bs|
  {
    LineBytesAt(s, pos, bs);
    LineEndAt(s, pos, pos + |bs|);
  }

  /** The encoding of such a line has its only newline byte at its end,
      and decodes back to the line. */
  lemma EncodedLineBytes(text: string)
    requires text != [] && text[|text| - 1] == '\n' && '\n' !in text[..|text| - 1]
    ensures OneLine(Encode(text))
    ensures Decode(Encode(text)) == Some(text)
  {
    DecodeEncode(text);
    EncodedOneLine(text);
  }

  lemma EncodedOneLine(text: string)
    requires text != [] && text[|text| - 1] == '\n' && '\n' !in text[..|text| - 1]
    ensures OneLine(Encode(text))
  {
    var init := text[..|text| - 1];
    assert text == init + "\n";
    EncodeConcat(init, "\n");
    assert Encode("\n") == [NEWLINE];
    var bs, ei := Encode(text), Encode(init);
    assert bs == ei + [NEWLINE];
    EncodeNoNewline(init);
    forall i | 0 <= i < |bs| - 1
      ensures bs[i] != NEWLINE
    {
      assert bs[i] == ei[i];
    }
  }

  /** Bytes with one newline, at their end, laid out in `s` from `pos`. */
  lemma LineBytesAt(s: seq<Byte>, pos: nat, el: seq<Byte>)
    requires OneLine(el)
    requires pos + |el| <= |s| && s[pos..pos + |el|] == el
    ensures s[pos + |el| - 1] == NEWLINE
    ensures forall i :: pos <= i < pos + |el| - 1 ==> s[i] != NEWLINE
  {
    assert s[pos + |el| - 1] == el[|el| - 1];
    forall i | pos <= i < pos + |el| - 1
      ensures s[i] != NEWLINE
    {
      assert s[i] == el[i - pos];
    }
  }

  lemma NoNewlineInWord(w: string)
    requires NoWhitespace(w)
    ensures '\n' !in w
  {
    forall i | 0 <= i < |w|
      ensures w[i] != '\n'
    {
      assert !IsWhitespace(w[i]);
    }
  }

  /** The request line's words are the method's name, the target and the
      version. */
  lemma RequestLineTokens(m: HttpMethod, target: string)
    requires target != [] && NoWhitespace(target)
    ensures Tokens(RequestLineText(m, target)) == [MethodName(m), target, "HTTP/1.1"]
  {
    assert MethodName(m) != [] && NoWhitespace(MethodName(m));
    RequestLineWords(m, target);
    VersionWord();
    ThreeTokens(MethodName(m), target, "HTTP/1.1", "\r\n");
  }

  /** The request line as three words joined by single spaces, then the
      line end. */
  lemma RequestLineWords(m: HttpMethod, target: string)
    ensures RequestLineText(m, target) == MethodName(m) + (" " + target + (" " + "HTTP/1.1" + "\r\n"))
  {
    assert " HTTP/1.1\r\n" == " " + "HTTP/1.1" + "\r\n";
  }

  lemma VersionWord()
    ensures "HTTP/1.1" != [] && NoWhitespace("HTTP/1.1") && AllWhitespace("\r\n")
  {
  }

  /** Three words separated by single spaces, then only whitespace: the
      three words are the tokens. */
  lemma ThreeTokens(a: string, b: string, c: string, tail: string)
    requires a != [] && NoWhitespace(a) && b != [] && NoWhitespace(b) && c != [] && NoWhitespace(c)
    requires AllWhitespace(tail)
    ensures Tokens(a + (" " + b + (" " + c + tail))) == [a, b, c]
  {
    TwoTokens(b, c, tail);
    WordThenSpace(a, " " + b + (" " + c + tail), [b, c]);
    ConsThree(Tokens(a + (" " + b + (" " + c + tail))), a, b, c);
  }

  /** A word directly followed by a space-led text whose tokens are known. */
  lemma WordThenSpace(w: string, r: string, ts: seq<string>)
    requires w != [] && NoWhitespace(w)
    requires r != [] && r[0] == ' ' && Tokens(r) == ts
    ensures Tokens(w + r) == [w] + ts
  {
    TokensWordFirst(w, r);
  }

  lemma TwoTokens(b: string, c: string, tail: string)
    requires b != [] && NoWhitespace(b) && c != [] && NoWhitespace(c)
    requires AllWhitespace(tail)
    ensures Tokens(" " + b + (" " + c + tail)) == [b, c]
  {
    OneToken(c, tail);
    SpaceThenWord(b, " " + c + tail, [c]);
    ConsTwo(Tokens(" " + b + (" " + c + tail)), b, c);
  }

  lemma OneToken(c: string, tail: string)
    requires c != [] && NoWhitespace(c)
    requires AllWhitespace(tail)
    ensures Tokens(" " + c + tail) == [c]
  {
    TokensEmptyIff(tail);
    SpaceThenWord(c, tail, []);
    ConsOne(Tokens(" " + c + tail), c);
  }

  lemma ConsOne(t: seq<string>, c: string)
    requires t == [c] + []
    ensures t == [c]
  {
  }

  lemma ConsTwo(t: seq<string>, b: string, c: string)
    requires t == [b] + [c]
    ensures t == [b, c]
  {
  }

  lemma ConsThree(t: seq<string>, a: string, b: string, c: string)
    requires t == [a] + [b, c]
    ensures t == [a, b, c]
  {
  }

  /** A space, a word, then a text that is empty or starts with whitespace. */
  lemma SpaceThenWord(w: string, r: string, ts: seq<string>)
    requires w != [] && NoWhitespace(w)
    requires r == [] || IsWhitespace(r[0])
    requires Tokens(r) == ts
    ensures Tokens(" " + w + r) == [w] + ts
  {
    TokensSkipSpace(w + r);
    TokensWordFirst(w, r);
    AppendAssoc(" ", w, r);
  }

  lemma AppendAssoc(a: string, b: string, c: string)
    ensures a + b + c == a + (b + c)
  {
  }


  /** A well-formed header line is not blank and reads back as its
      header. */
  lemma HeaderLineEntry(h: (string, string))
    requires WellFormedHeader(h)
    ensures Trim(HeaderLine(h)) != [] && HeaderEntry(HeaderLine(h)) == Some(h)
  {
    var line := HeaderLine(h);
    var raw := " " + h.1 + "\r\n";
    assert line == h.0 + [':'] + raw;
    SplitOnceAtFirst(h.0, ':', raw);
    TrimPadded(" ", h.1, "\r\n");
    TrimEmptyIff(line);
    assert line[|h.0|] == ':';
  }

  /** A header line ends with its only `\n`. */
  lemma HeaderLineEnds(h: (string, string))
    requires WellFormedHeader(h)
    ensures HeaderLine(h) != [] && HeaderLine(h)[|HeaderLine(h)| - 1] == '\n'
    ensures '\n' !in HeaderLine(h)[..|HeaderLine(h)| - 1]
  {
    var line := HeaderLine(h);
    assert line[..|line| - 1] == h.0 + ": " + h.1 + "\r";
  }

  /** `read_line` from `pos` returns, one after another, a line for each
      header of `hs` that the scan reads as that header, then a blank
      line. */
  ghost predicate LinesAt(s: seq<Byte>, pos: nat, hs: seq<(string, string)>)
    requires pos <= |s|
    decreases |hs|
  {
    var r := ReadLineAt(s, pos);
    && r.0.Ok?
    && if hs == [] then Trim(r.0.value) == []
       else Trim(r.0.value) != [] && HeaderEntry(r.0.value) == Some(hs[0]) && LinesAt(s, r.1, hs[1..])
  }

  /** Where the reader stands after those lines. */
  ghost function LinesEnd(s: seq<Byte>, pos: nat, hs: seq<(string, string)>): nat
    requires pos <= |s|
    decreases |hs|
  {
    var r := ReadLineAt(s, pos);
    if hs == [] then r.1 else LinesEnd(s, r.1, hs[1..])
  }

  /** The header block of `hs` is laid out in `s` from `pos`: each header
      line's bytes, then the blank line. */
  ghost predicate Laid(s: seq<Byte>, pos: nat, hs: seq<(string, string)>)
    decreases |hs|
  {
    if hs == [] then pos + 2 <= |s| && s[pos..pos + 2] == [13, 10]
    else
      var el := Encode(HeaderLine(hs[0]));
      pos + |el| <= |s| && s[pos..pos + |el|] == el && Laid(s, pos + |el|, hs[1..])
  }

  /** Bytes equal to `HeaderBytes(hs)` are that layout. */
  lemma {:induction false} LaidOfBytes(s: seq<Byte>, pos: nat, hs: seq<(string, string)>)
    requires pos + |HeaderBytes(hs)| <= |s| && s[pos..pos + |HeaderBytes(hs)|] == HeaderBytes(hs)
    ensures Laid(s, pos, hs)
    decreases |hs|
  {
    if hs != [] {
      var el := Encode(HeaderLine(hs[0]));
      var rest := HeaderBytes(hs[1..]);
      assert HeaderBytes(hs) == el + rest;
      SliceSplit(s, pos, el, rest);
      LaidOfBytes(s, pos + |el|, hs[1..]);
    }
  }

  /** A header block laid out at `pos` reads as its lines, and they end
      where the block does. */
  lemma {:induction false} LinesOfBlock(s: seq<Byte>, pos: nat, hs: seq<(string, string)>)
    requires forall i :: 0 <= i < |hs| ==> WellFormedHeader(hs[i])
    requires Laid(s, pos, hs)
    ensures pos + |HeaderBytes(hs)| <= |s|
    ensures LinesAt(s, pos, hs) && LinesEnd(s, pos, hs) == pos + |HeaderBytes(hs)|
    decreases |hs|, 1
  {
    if hs == [] {
      BlankLineAt(s, pos);
    } else {
      LinesOfBlockCons(s, pos, hs);
    }
  }

  lemma BlankLineAt(s: seq<Byte>, pos: nat)
    requires pos + 2 <= |s| && s[pos..pos + 2] == [13, 10]
    ensures LinesAt(s, pos, []) && LinesEnd(s, pos, []) == pos + 2
  {
    assert Encode("\r\n") == [13, 10];
    assert "\r\n"[..1] == "\r";
    ReadEncodedLine(s, pos, "\r\n");
    TrimEmptyIff("\r\n");
  }

  lemma {:induction false} LinesOfBlockCons(s: seq<Byte>, pos: nat, hs: seq<(string, string)>)
    requires hs != [] && forall i :: 0 <= i < |hs| ==> WellFormedHeader(hs[i])
    requires Laid(s, pos, hs)
    ensures pos + |HeaderBytes(hs)| <= |s|
    ensures LinesAt(s, pos, hs) && LinesEnd(s, pos, hs) == pos + |HeaderBytes(hs)|
    decreases |hs|, 0
  {
    var next := pos + |Encode(HeaderLine(hs[0]))|;
    TailWellFormed(hs);
    LinesOfBlock(s, next, hs[1..]);
    FirstThenRest(s, pos, hs, next);
    assert |HeaderBytes(hs)| == next - pos + |HeaderBytes(hs[1..])|;
  }

  lemma FirstThenRest(s: seq<Byte>, pos: nat, hs: seq<(string, string)>, next: nat)
    requires hs != [] && WellFormedHeader(hs[0])
    requires next == pos + |Encode(HeaderLine(hs[0]))| <= |s|
    requires s[pos..next] == Encode(HeaderLine(hs[0]))
    requires LinesAt(s, next, hs[1..])
    ensures LinesAt(s, pos, hs) && LinesEnd(s, pos, hs) == LinesEnd(s, next, hs[1..])
  {
    FirstLineReads(s, pos, hs[0], next);
    LinesCons(s, pos, hs, HeaderLine(hs[0]), next);
  }

  /** `read_line` returns a well-formed header's line, which the scan
      reads back as that header. */
  lemma FirstLineReads(s: seq<Byte>, pos: nat, h: (string, string), next: nat)
    requires WellFormedHeader(h)
    requires next == pos + |Encode(HeaderLine(h))| <= |s|
    requires s[pos..next] == Encode(HeaderLine(h))
    ensures ReadLineAt(s, pos) == (Ok(HeaderLine(h)), next)
    ensures Trim(HeaderLine(h)) != [] && HeaderEntry(HeaderLine(h)) == Some(h)
  {
    HeaderLineEnds(h);
    ReadEncodedLine(s, pos, HeaderLine(h));
    HeaderLineEntry(h);
  }

  lemma SliceSplit(s: seq<Byte>, pos: nat, a: seq<Byte>, b: seq<Byte>)
    requires pos + |a + b| <= |s| && s[pos..pos + |a + b|] == a + b
    ensures s[pos..pos + |a|] == a && s[pos + |a|..pos + |a| + |b|] == b
  {
    assert s[pos..pos + |a|] == (a + b)[..|a|];
    assert s[pos + |a|..pos + |a| + |b|] == (a + b)[|a|..];
  }

  lemma TailWellFormed(hs: seq<(string, string)>)
    requires hs != [] && forall i :: 0 <= i < |hs| ==> WellFormedHeader(hs[i])
    ensures forall i :: 0 <= i < |hs[1..]| ==> WellFormedHeader(hs[1..][i])
  {
    forall i | 0 <= i < |hs[1..]|
      ensures WellFormedHeader(hs[1..][i])
    {
      assert hs[1..][i] == hs[i + 1];
    }
  }

  lemma LinesCons(s: seq<Byte>, pos: nat, hs: seq<(string, string)>, line: string, next: nat)
    requires hs != [] && pos <= next <= |s|
    requires ReadLineAt(s, pos) == (Ok(line), next)
    requires Trim(line) != [] && HeaderEntry(line) == Some(hs[0]) && LinesAt(s, next, hs[1..])
    ensures LinesAt(s, pos, hs) && LinesEnd(s, pos, hs) == LinesEnd(s, next, hs[1..])
  {
  }

  /** The header scan over those lines yields exactly the headers of
      `hs`, and stops where they end. */
  lemma {:induction false} ScanOfLines(s: seq<Byte>, pos: nat, hs: seq<(string, string)>)
    requires pos <= |s| && LinesAt(s, pos, hs)
    ensures ScanHeaders(s, pos) == HeaderScan(Ok(hs), LinesEnd(s, pos, hs))
    decreases |hs|, 1
  {
    if hs == [] {
      BlankLineStep(s, pos);
    } else {
      var r := ReadLineAt(s, pos);
      ScanOfLinesCons(s, pos, hs, r.0.value, r.1);
    }
  }

  lemma {:induction false} ScanOfLinesCons(s: seq<Byte>, pos: nat, hs: seq<(string, string)>, line: string, next: nat)
    requires hs != [] && pos <= next <= |s|
    requires ReadLineAt(s, pos) == (Ok(line), next)
    requires Trim(line) != [] && HeaderEntry(line) == Some(hs[0]) && LinesAt(s, next, hs[1..])
    ensures ScanHeaders(s, pos) == HeaderScan(Ok(hs), LinesEnd(s, next, hs[1..]))
    decreases |hs|, 0
  {
    HeaderLineStep(s, pos);
    ScanOfLines(s, next, hs[1..]);
    ConsScan(ScanHeaders(s, pos), ScanHeaders(s, next), hs, LinesEnd(s, next, hs[1..]));
  }

  lemma ConsScan(a: HeaderScan, b: HeaderScan, hs: seq<(string, string)>, e: nat)
    requires hs != [] && a == Prepend([hs[0]], b) && b == HeaderScan(Ok(hs[1..]), e)
    ensures a == HeaderScan(Ok(hs), e)
  {
    assert [hs[0]] + hs[1..] == hs;
  }

  lemma BlankLineStep(s: seq<Byte>, pos: nat)
    requires pos <= |s| && ReadLineAt(s, pos).0.Ok? && Trim(ReadLineAt(s, pos).0.value) == []
    ensures ScanHeaders(s, pos) == HeaderScan(Ok([]), ReadLineAt(s, pos).1)
  {
    ScanStep(s, pos);
  }

  lemma HeaderLineStep(s: seq<Byte>, pos: nat)
    requires pos <= |s| && ReadLineAt(s, pos).0.Ok? && Trim(ReadLineAt(s, pos).0.value) != []
    requires HeaderEntry(ReadLineAt(s, pos).0.value).Some?
    ensures var r := ReadLineAt(s, pos);
      ScanHeaders(s, pos) == Prepend([HeaderEntry(r.0.value).value], ScanHeaders(s, r.1))
  {
    ScanStep(s, pos);
  }

  /** `p` sits in `s` from `pos` on. Defined a byte at a time, so that a
      proof sees only as much of it as it unfolds; `BytesAtIff` says it
      in terms of slices. */
  ghost predicate BytesAt(s: seq<Byte>, pos: nat, p: seq<Byte>)
    decreases |p|
  {
    if p == [] then pos <= |s| else pos < |s| && s[pos] == p[0] && BytesAt(s, pos + 1, p[1..])
  }

  lemma {:induction false} BytesAtIff(s: seq<Byte>, pos: nat, p: seq<Byte>)
    ensures BytesAt(s, pos, p) <==> pos + |p| <= |s| && s[pos..pos + |p|] == p
    decreases |p|
  {
    if p != [] {
      BytesAtIff(s, pos + 1, p[1..]);
      if pos + |p| <= |s| {
        assert s[pos..pos + |p|] == [s[pos]] + s[pos + 1..pos + |p|];
        assert p == [p[0]] + p[1..];
        if s[pos..pos + |p|] == p {
          assert s[pos] == p[0] && s[pos + 1..pos + |p|] == p[1..];
        }
      }
    }
  }

  /** Three pieces laid out one after another from the start. */
  lemma BytesAtThree(s: seq<Byte>, a: seq<Byte>, b: seq<Byte>, c: seq<Byte>)
    requires BytesAt(s, 0, a + b + c)
    ensures BytesAt(s, 0, a) && BytesAt(s, |a|, b) && BytesAt(s, |a| + |b|, c)
  {
    BytesAtIff(s, 0, a + b + c);
    assert s[0..|a|] == (a + b + c)[..|a|];
    assert s[|a|..|a| + |b|] == (a + b + c)[|a|..|a| + |b|];
    assert s[|a| + |b|..|a| + |b| + |c|] == (a + b + c)[|a| + |b|..];
    BytesAtIff(s, 0, a);
    BytesAtIff(s, |a|, b);
    BytesAtIff(s, |a| + |b|, c);
  }

  /** A connection whose bytes start with a request written out as
      request line, well-formed header lines, a blank line and a body of
      exactly `Content-Length` bytes parses back to that request, and
      parsing stops at its last byte: whatever the connection sends after
      it is left unread. */
  lemma ParseRendered(m: HttpMethod, target: string, hs: seq<(string, string)>, body: seq<Byte>, s: seq<Byte>)
    requires target != [] && NoWhitespace(target) && QueryOf(target).Some?
    requires forall i :: 0 <= i < |hs| ==> WellFormedHeader(hs[i])
    requires ContentLength(InsertAll(hs)) == |body|
    requires BytesAt(s, 0, RequestBytes(m, target, hs, body))
    ensures var expected := New(m, TargetPath(target), QueryOf(target).value, InsertAll(hs),
                                if body == [] then None else Some(body));
      ParseSpec(s) == ParseOutcome(Ok(expected), |RequestBytes(m, target, hs, body)|)
  {
    var a := Encode(RequestLineText(m, target));
    var b := HeaderBytes(hs);
    BytesAtThree(s, a, b, body);
    ParseLaidOut(s, m, target, hs, body, |a|, |b|);
  }

  /** The same, with the three parts already located: the request line
      from 0, the header block from `la`, the body from `la + lb`. */
  lemma ParseLaidOut(s: seq<Byte>, m: HttpMethod, target: string, hs: seq<(string, string)>, body: seq<Byte>, la: nat, lb: nat)
    requires target != [] && NoWhitespace(target) && QueryOf(target).Some?
    requires forall i :: 0 <= i < |hs| ==> WellFormedHeader(hs[i])
    requires ContentLength(InsertAll(hs)) == |body|
    requires la == |Encode(RequestLineText(m, target))| && lb == |HeaderBytes(hs)|
    requires BytesAt(s, 0, Encode(RequestLineText(m, target))) && BytesAt(s, la, HeaderBytes(hs)) && BytesAt(s, la + lb, body)
    ensures ParseSpec(s) == ParseOutcome(Ok(New(m, TargetPath(target), QueryOf(target).value, InsertAll(hs),
                                if body == [] then None else Some(body))), la + lb + |body|)
  {
    var rl := RenderedRequestLine(s, m, target);
    RenderedAfterLine(s, rl, la, hs, lb, body);
  }

  /** Once the request line has read, rendered headers and a body of
      exactly `Content-Length` bytes complete the parse. */
  lemma RenderedAfterLine(s: seq<Byte>, rl: RequestLine, la: nat, hs: seq<(string, string)>, lb: nat, body: seq<Byte>)
    requires RequestLineAt(s, 0) == (Ok(rl), la)
    requires forall i :: 0 <= i < |hs| ==> WellFormedHeader(hs[i])
    requires ContentLength(InsertAll(hs)) == |body|
    requires lb == |HeaderBytes(hs)|
    requires BytesAt(s, la, HeaderBytes(hs)) && BytesAt(s, la + lb, body)
    ensures ParseSpec(s)
      == ParseOutcome(Ok(New(rl.httpMethod, rl.path, rl.query, InsertAll(hs), if body == [] then None else Some(body))), la + lb + |body|)
  {
    RenderedHeaders(s, la, hs);
    BytesAtIff(s, la + lb, body);
    RenderedTail(s, rl, la, hs, la + lb, body);
  }

  /** Once the request line and the headers have read, a body of exactly
      `Content-Length` bytes completes the parse. */
  lemma RenderedTail(s: seq<Byte>, rl: RequestLine, p1: nat, hs: seq<(string, string)>, end: nat, body: seq<Byte>)
    requires p1 <= end && RequestLineAt(s, 0) == (Ok(rl), p1)
    requires ScanHeaders(s, p1) == HeaderScan(Ok(hs), end)
    requires ContentLength(InsertAll(hs)) == |body|
    requires end + |body| <= |s| && s[end..end + |body|] == body
    ensures ParseSpec(s)
      == ParseOutcome(Ok(New(rl.httpMethod, rl.path, rl.query, InsertAll(hs), if body == [] then None else Some(body))), end + |body|)
  {
    RenderedBody(s, end, rl, InsertAll(hs), body);
    SpecOfStages(s, rl, p1, hs, end);
  }

  /** A body of exactly `Content-Length` bytes is read as such. */
  lemma RenderedBody(s: seq<Byte>, end: nat, rl: RequestLine, headers: map<string, string>, body: seq<Byte>)
    requires ContentLength(headers) == |body|
    requires end + |body| <= |s| && s[end..end + |body|] == body
    ensures ParseBody(s, end, rl, headers)
      == ParseOutcome(Ok(New(rl.httpMethod, rl.path, rl.query, headers, if body == [] then None else Some(body))), end + |body|)
  {
    BodyCases(s, end, rl, headers, |body|);
  }

  /** A rendered request line at the start of the input reads as that
      method and target. */
  lemma RenderedRequestLine(s: seq<Byte>, m: HttpMethod, target: string) returns (rl: RequestLine)
    requires target != [] && NoWhitespace(target) && QueryOf(target).Some?
    requires BytesAt(s, 0, Encode(RequestLineText(m, target)))
    ensures rl == RequestLine(m, TargetPath(target), QueryOf(target).value)
    ensures RequestLineAt(s, 0) == (Ok(rl), |Encode(RequestLineText(m, target))|)
  {
    RequestLineRead(s, m, target);
    RequestLineParses(m, target);
    rl := RequestLine(m, TargetPath(target), QueryOf(target).value);
  }

  lemma RequestLineRead(s: seq<Byte>, m: HttpMethod, target: string)
    requires NoWhitespace(target)
    requires BytesAt(s, 0, Encode(RequestLineText(m, target)))
    ensures ReadLineAt(s, 0) == (Ok(RequestLineText(m, target)), 0 + |Encode(RequestLineText(m, target))|)
  {
    BytesAtIff(s, 0, Encode(RequestLineText(m, target)));
    RequestLineEnds(m, target);
    ReadEncodedLine(s, 0, RequestLineText(m, target));
  }

  /** A request line ends with its only `\n`. */
  lemma RequestLineEnds(m: HttpMethod, target: string)
    requires NoWhitespace(target)
    ensures RequestLineText(m, target) != [] && RequestLineText(m, target)[|RequestLineText(m, target)| - 1] == '\n'
    ensures '\n' !in RequestLineText(m, target)[..|RequestLineText(m, target)| - 1]
  {
    var lineText := RequestLineText(m, target);
    NoNewlineInWord(target);
    assert MethodName(m) != [] && NoWhitespace(MethodName(m));
    NoNewlineInWord(MethodName(m));
    assert lineText[..|lineText| - 1] == MethodName(m) + " " + target + " HTTP/1.1\r";
  }

  lemma RequestLineParses(m: HttpMethod, target: string)
    requires target != [] && NoWhitespace(target) && QueryOf(target).Some?
    ensures ParseRequestLine(RequestLineText(m, target)) == Ok(RequestLine(m, TargetPath(target), QueryOf(target).value))
  {
    RequestLineTokens(m, target);
    MethodFromTokenIff(MethodName(m), m);
  }

  /** A rendered header block scans back as its headers and ends where
      the block does. */
  lemma RenderedHeaders(s: seq<Byte>, pos: nat, hs: seq<(string, string)>)
    requires forall i :: 0 <= i < |hs| ==> WellFormedHeader(hs[i])
    requires BytesAt(s, pos, HeaderBytes(hs))
    ensures pos + |HeaderBytes(hs)| <= |s|
    ensures ScanHeaders(s, pos) == HeaderScan(Ok(hs), pos + |HeaderBytes(hs)|)
  {
    BytesAtIff(s, pos, HeaderBytes(hs));
    LaidOfBytes(s, pos, hs);
    LinesOfBlock(s, pos, hs);
    ScanOfLines(s, pos, hs);
  }

  /** End of input ends the header block: `read_line` returns an empty
      line there, which is blank after trimming, and is no error. */
  lemma HeadersEndAtEof(s: seq<Byte>)
    ensures ScanHeaders(s, |s|) == HeaderScan(Ok([]), |s|)
  {
  }

  /** Header lines with no blank line after them, as a client that closes
      its side right after the headers leaves them. */
  function UnterminatedBytes(hs: seq<(string, string)>): seq<Byte> {
    if hs == [] then [] else Encode(HeaderLine(hs[0])) + UnterminatedBytes(hs[1..])
  }

  /** Well-formed header lines that run to the end of the input scan back
      as those headers, and the scan stops at the end. */
  lemma {:induction false} ScanToEof(s: seq<Byte>, pos: nat, hs: seq<(string, string)>)
    requires forall i :: 0 <= i < |hs| ==> WellFormedHeader(hs[i])
    requires pos <= |s| && s[pos..] == UnterminatedBytes(hs)
    ensures ScanHeaders(s, pos) == HeaderScan(Ok(hs), |s|)
    decreases |hs|
  {
    if hs == [] {
      assert pos == |s|;
      HeadersEndAtEof(s);
    } else {
      var el := Encode(HeaderLine(hs[0]));
      var next := pos + |el|;
      assert s[pos..] == el + UnterminatedBytes(hs[1..]);
      assert s[pos..next] == el by { assert s[pos..next] == s[pos..][..|el|]; }
      assert s[next..] == UnterminatedBytes(hs[1..]) by { assert s[next..] == s[pos..][|el|..]; }
      FirstLineReads(s, pos, hs[0], next);
      HeaderLineStep(s, pos);
      TailWellFormed(hs);
      ScanToEof(s, next, hs[1..]);
      ConsScan(ScanHeaders(s, pos), ScanHeaders(s, next), hs, |s|);
    }
  }

  /** A connection that ends right after its header lines, with no blank
      line: the headers read as written and the whole input is consumed.
      With no `Content-Length` there is no body; with a positive one the
      body cannot be there, so the parse is `ContentTooSmall`. */
  lemma ParseUnterminated(m: HttpMethod, target: string, hs: seq<(string, string)>, s: seq<Byte>)
    requires target != [] && NoWhitespace(target) && QueryOf(target).Some?
    requires forall i :: 0 <= i < |hs| ==> WellFormedHeader(hs[i])
    requires s == Encode(RequestLineText(m, target)) + UnterminatedBytes(hs)
    ensures ContentLength(InsertAll(hs)) == 0 ==>
      ParseSpec(s) == ParseOutcome(Ok(New(m, TargetPath(target), QueryOf(target).value, InsertAll(hs), None)), |s|)
    ensures ContentLength(InsertAll(hs)) > 0 ==> ParseSpec(s) == ParseOutcome(Err(ContentTooSmall), |s|)
  {
    var a := Encode(RequestLineText(m, target));
    assert s[0..|a|] == a;
    assert s[|a|..] == UnterminatedBytes(hs);
    BytesAtIff(s, 0, a);
    var rl := RenderedRequestLine(s, m, target);
    ScanToEof(s, |a|, hs);
    SpecOfStages(s, rl, |a|, hs, |s|);
    BodyCases(s, |s|, rl, InsertAll(hs), ContentLength(InsertAll(hs)));
  }

  /** When the request line and the header block both read, the parse is
      the body stage after them. */
  lemma SpecOfStages(s: seq<Byte>, rl: RequestLine, p1: nat, kvs: seq<(string, string)>, end: nat)
    requires p1 <= end <= |s|
    requires RequestLineAt(s, 0) == (Ok(rl), p1)
    requires ScanHeaders(s, p1) == HeaderScan(Ok(kvs), end)
    ensures ParseSpec(s) == ParseBody(s, end, rl, InsertAll(kvs))
  {
  }

  /** As written, `parse` panics only on connections that the corrected
      parse rejects as `ContentTooSmall` after reading everything there
      is, whenever the connection is shorter than `isize::MAX` bytes. */
  lemma PanicOnlyWhereTooSmall(s: seq<Byte>)
    requires |s| <= ISIZE_MAX
    ensures ParseAsWritten(s).None? ==> ParseSpec(s) == ParseOutcome(Err(ContentTooSmall), |s|)
  {
    ContentTooSmallIff(s);
  }

  /** A request line, then a `Content-Length` header whose value is a
      number above `isize::MAX` that `parse::<usize>` still accepts: as
      written, `parse` panics whatever follows, where the corrected parse
      answers `ContentTooSmall` when fewer than that many bytes follow. */
  lemma CapacityOverflowPanics(m: HttpMethod, target: string, n: nat, rest: seq<Byte>, s: seq<Byte>)
    requires target != [] && NoWhitespace(target) && QueryOf(target).Some?
    requires ISIZE_MAX < n <= USIZE_MAX
    requires s == RequestBytes(m, target, [("Content-Length", Display(n))], rest)
    ensures ParseAsWritten(s) == None
    ensures |rest| < n ==> ParseSpec(s) == ParseOutcome(Err(ContentTooSmall), |s|)
  {
    var hs := [("Content-Length", Display(n))];
    var a := Encode(RequestLineText(m, target));
    var b := HeaderBytes(hs);
    BytesAtIff(s, 0, a + b + rest);
    BytesAtThree(s, a, b, rest);
    var rl := RenderedRequestLine(s, m, target);
    ContentLengthWrittenLast([], n);
    assert [] + hs == hs;
    RenderedHeaders(s, |a|, hs);
    SpecOfStages(s, rl, |a|, hs, |a| + |b|);
    BodyCases(s, |a| + |b|, rl, InsertAll(hs), n);
  }

  /** A `Content-Length` header written last, with a value the parser can
      read, sets the body length. */
  lemma ContentLengthWrittenLast(hs: seq<(string, string)>, n: nat)
    requires n <= USIZE_MAX
    ensures ContentLength(InsertAll(hs + [("Content-Length", Display(n))])) == n
    ensures WellFormedHeader(("Content-Length", Display(n)))
  {
    InsertAllSnoc(hs, "Content-Length", Display(n));
    ParseDisplay(n);
    DisplayDigits(n);
    var d := Display(n);
    assert !IsWhitespace(d[0]) && !IsWhitespace(d[|d| - 1]);
    forall i | 0 <= i < |d|
      ensures d[i] != '\n'
    {
      assert IsDigit(d[i]);
    }
  }
}
