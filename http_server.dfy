/** The packaged server iteration (`net/karolnowak/simplehttpserver/HttpServer.kt`):
    the line terminator and root constants, the three-token request line, the
    405/404/200 dispatch and its own byte-array `Response`. The server's
    `content` is seen only through the two queries `respondTo` makes of it. */
module Server {
  import opened Results
  import opened Text
  import opened Numbers
  import opened Utf8
  import opened HeaderFields
  import opened Framing

  const EOL: string := "\r\n"
  const ROOT: string := "/"

  datatype Request = Request(httpMethod: string, requestTarget: string, httpVersion: string)

  datatype Response = Response(statusCode: Int32, reasonPhrase: string, responseBody: seq<byte>)

  /** What `respondTo` asks of the served content: whether it holds a target,
      and the bytes it has for a target. */
  datatype Site = Site(contains: string -> bool, bytesAt: string -> seq<byte>)

  /** `readRequest` throws from `require(tokens.size == 3)`. */
  datatype RequestLineError = NotThreeTokens

  predicate DoesntContain(site: Site, target: string) {
    !site.contains(target)
  }

  /** `respondTo`: the method check comes first, then the existence check. */
  function RespondTo(site: Site, request: Request): (r: Response)
    ensures r.statusCode == 405 <==> request.httpMethod != "GET"
    ensures r.statusCode == 404 <==> request.httpMethod == "GET" && !site.contains(request.requestTarget)
    ensures r.statusCode == 200 <==> request.httpMethod == "GET" && site.contains(request.requestTarget)
    ensures r.statusCode == 405 ==> r == Response(405, "Nope", [])
    ensures r.statusCode == 404 ==> r == Response(404, "It doesn't exist", [])
    ensures r.statusCode == 200 ==> r == Response(200, "Spoko", site.bytesAt(request.requestTarget))
  {
    if request.httpMethod != "GET" then Response(405, "Nope", [])
    else if DoesntContain(site, request.requestTarget) then Response(404, "It doesn't exist", [])
    else Response(200, "Spoko", site.bytesAt(request.requestTarget))
  }

  /** A method other than `GET` is refused whatever the content holds. */
  lemma MethodBeforeExistence(a: Site, b: Site, request: Request)
    requires request.httpMethod != "GET"
    ensures RespondTo(a, request) == RespondTo(b, request)
  {
  }

  /** The token split of `readRequest`: the line must split on `" "` into exactly
      three tokens, which become the method, target and version as they are. */
  function ReadRequest(line: string): (r: Result<Request, RequestLineError>)
    ensures r.Ok? <==> multiset(line)[' '] == 2
    ensures r.Ok? ==> r.value.httpMethod + " " + r.value.requestTarget + " " + r.value.httpVersion == line
    ensures r.Ok? ==> ' ' !in r.value.httpMethod && ' ' !in r.value.requestTarget && ' ' !in r.value.httpVersion
  {
    var tokens := Split(line, ' ');
    SplitCount(line, ' ');
    if |tokens| != 3 then Err(NotThreeTokens)
    else
      SplitJoin(line, ' ');
      JoinThree(tokens, " ");
      Ok(Request(tokens[0], tokens[1], tokens[2]))
  }

  lemma JoinThree(parts: seq<string>, sep: string)
    requires |parts| == 3
    ensures Join(parts, sep) == parts[0] + sep + parts[1] + sep + parts[2]
  {
    var tail := parts[1..];
    assert tail[1..] == [parts[2]];
    assert Join(tail, sep) == parts[1] + sep + parts[2];
    assert Join(parts, sep) == parts[0] + sep + Join(tail, sep);
  }

  /** Three space-free tokens joined by single spaces are read back as they are. */
  lemma RequestLineRoundTrip(verb: string, target: string, version: string)
    requires ' ' !in verb && ' ' !in target && ' ' !in version
    ensures ReadRequest(verb + " " + target + " " + version) == Ok(Request(verb, target, version))
  {
    SplitThree(verb, target, version, ' ');
    assert verb + " " + target + " " + version == verb + [' '] + target + [' '] + version;
  }

  lemma SplitThree(a: string, b: string, c: string, d: char)
    requires d !in a && d !in b && d !in c
    ensures Split(a + [d] + b + [d] + c, d) == [a, b, c]
  {
    var rest := b + [d] + c;
    assert a + [d] + b + [d] + c == a + [d] + rest;
    SplitCons(a, rest, d);
    SplitCons(b, c, d);
    SplitNone(c, d);
  }

  /** End to end: a request line's method token is compared case-sensitively,
      so only exactly `GET` gets past the 405. */
  lemma LineDispatch(site: Site, verb: string, target: string, version: string)
    requires ' ' !in verb && ' ' !in target && ' ' !in version
    ensures var r := RespondTo(site, ReadRequest(verb + " " + target + " " + version).value);
            && (r.statusCode == 405 <==> verb != "GET")
            && (r.statusCode == 200 <==> verb == "GET" && site.contains(target))
  {
    RequestLineRoundTrip(verb, target, version);
  }

  predicate IsSuccessful(r: Response) {
    100 <= r.statusCode <= 399
  }

  function StatusLine(r: Response): string {
    "HTTP/1.1 " + IntToString(r.statusCode) + " " + r.reasonPhrase
  }

  /** The single header: the body size for a success, `Accept: GET` otherwise. */
  function HeaderLine(r: Response): string {
    if IsSuccessful(r) then "Content-Length: " + IntToString(|r.responseBody|) else "Accept: GET"
  }

  /** `statusLineAndHeaders`: status line, CRLF, the header, CRLF, CRLF. */
  function StatusLineAndHeaders(r: Response): string {
    StatusLine(r) + EOL + HeaderLine(r) + EOL + EOL
  }

  /** `asBytes`: the head in UTF-8, then the body bytes. */
  function AsBytes(r: Response): seq<byte> {
    Encode(StatusLineAndHeaders(r)) + r.responseBody
  }

  /** Reading the serialised head back line by line gives the status code and a
      header block holding exactly the one header (whose Content-Length is the
      body size for a success), and the body follows the head unchanged. */
  lemma ResponseRoundTrip(r: Response)
    requires NoLineBreak(r.reasonPhrase) && |r.responseBody| <= INT_MAX
    ensures var ls := Lines(StatusLineAndHeaders(r));
            && |ls| == 4 && StatusCodeOf(ls[0]) == Some(r.statusCode)
            && ParseFields(ls[1..]) == Ok(Parsed(Headers(
                 if IsSuccessful(r) then map["Content-Length" := IntToString(|r.responseBody|)]
                 else map["Accept" := "GET"]), 2))
    ensures IsSuccessful(r) ==> ToInt(IntToString(|r.responseBody|)) == Some(|r.responseBody| as Int32)
    ensures AsBytes(r)[|Encode(StatusLineAndHeaders(r))|..] == r.responseBody
  {
    var sl, h := StatusLine(r), HeaderLine(r);
    IntTextHasNoSpace(r.statusCode);
    HeadLines(sl, h);
    StatusLineRoundTrip(r.statusCode, r.reasonPhrase);
    var ls := Lines(StatusLineAndHeaders(r));
    assert ls[1..] == [h, "", ""];
    HeaderBlock(r);
    if IsSuccessful(r) {
      ToIntOfIntToString(|r.responseBody|);
    }
  }

  lemma HeaderBlock(r: Response)
    ensures ParseFields([HeaderLine(r), "", ""]) == Ok(Parsed(Headers(
              if IsSuccessful(r) then map["Content-Length" := IntToString(|r.responseBody|)]
              else map["Accept" := "GET"]), 2))
  {
    SharedNamesPlain();
    assert [HeaderLine(r), "", ""] == [HeaderLine(r), ""] + [""];
    if IsSuccessful(r) {
      IntTextHasNoSpace(|r.responseBody|);
      assert HeaderLine(r) == FieldLine(CONTENT_LENGTH, IntToString(|r.responseBody|));
      OneField(CONTENT_LENGTH, IntToString(|r.responseBody|), [""]);
    } else {
      assert HeaderLine(r) == FieldLine(ACCEPT, "GET");
      OneField(ACCEPT, "GET", [""]);
    }
  }

  /** A status line and one header line, CRLF-terminated and followed by an
      empty line, read back as four lines (the last one after the final CRLF). */
  lemma HeadLines(sl: string, h: string)
    requires NoLineBreak(sl) && NoLineBreak(h)
    ensures Lines(sl + EOL + h + EOL + EOL) == [sl, h, "", ""]
  {
    assert Crlf([""]) == "\r\n";
    assert Crlf([h, ""]) == h + "\r\n" + Crlf([""]);
    assert Crlf([sl, h, ""]) == sl + "\r\n" + Crlf([h, ""]);
    assert sl + EOL + h + EOL + EOL == Crlf([sl, h, ""]) + "";
    LinesOfCrlf([sl, h, ""], "");
  }
}
