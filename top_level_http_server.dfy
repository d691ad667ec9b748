/** The first server iteration (`HttpServer.kt` at the top of the sources): one
    file, read once and decoded to text, served to every `GET`; the request line
    is upper-cased token by token; the response is a `String` whose body is
    followed by a CRLF. The file's decoded text is a parameter. */
module SingleFileServer {
  import opened Results
  import opened Text
  import opened Numbers
  import opened Utf8
  import opened HeaderFields
  import opened Framing
  import Server

  const EOL: string := "\r\n"

  /** The response of this iteration carries its body as text. */
  datatype Response = Response(statusCode: Int32, reasonPhrase: string, responseBody: string)

  /** `respondTo`: any method that reads `GET` gets the file, anything else a 405. */
  function RespondTo(fileText: string, request: Server.Request): (r: Response)
    ensures r.statusCode == 200 <==> request.httpMethod == "GET"
    ensures r.statusCode == 200 ==> r == Response(200, "Spoko", fileText)
    ensures r.statusCode != 200 ==> r == Response(405, "Nope", "")
  {
    if request.httpMethod == "GET" then Response(200, "Spoko", fileText)
    else Response(405, "Nope", "")
  }

  /** `readRequest`: exactly three space-separated tokens, each upper-cased. */
  function ReadRequest(line: string): (r: Result<Server.Request, Server.RequestLineError>)
    ensures r.Ok? <==> multiset(line)[' '] == 2
    ensures r.Ok? ==> r.value.httpMethod + " " + r.value.requestTarget + " " + r.value.httpVersion == Upper(line)
  {
    match Server.ReadRequest(line)
    case Err(e) => Err(e)
    case Ok(q) =>
      UpperConcat3(q.httpMethod, q.requestTarget, q.httpVersion);
      Ok(Server.Request(Upper(q.httpMethod), Upper(q.requestTarget), Upper(q.httpVersion)))
  }

  /** Upper-casing a line of three tokens upper-cases each token. */
  lemma UpperConcat3(a: string, b: string, c: string)
    ensures Upper(a + " " + b + " " + c) == Upper(a) + " " + Upper(b) + " " + Upper(c)
  {
    var l, u := a + " " + b + " " + c, Upper(a) + " " + Upper(b) + " " + Upper(c);
    assert |l| == |u|;
    forall i | 0 <= i < |l|
      ensures Upper(l)[i] == u[i]
    {
      if i < |a| {
        assert l[i] == a[i] && u[i] == Upper(a)[i];
      } else if i == |a| {
      } else if i < |a| + 1 + |b| {
        assert l[i] == b[i - |a| - 1] && u[i] == Upper(b)[i - |a| - 1];
      } else if i == |a| + 1 + |b| {
      } else {
        assert l[i] == c[i - |a| - |b| - 2] && u[i] == Upper(c)[i - |a| - |b| - 2];
      }
    }
  }

  /** The method token is matched without regard to case: a request line with a
      space-free method token is served exactly when that token spells `get` in
      any mix of cases. */
  lemma MethodCaseInsensitive(fileText: string, verb: string, target: string, version: string)
    requires ' ' !in verb && ' ' !in target && ' ' !in version
    ensures ReadRequest(verb + " " + target + " " + version).Ok?
    ensures var r := RespondTo(fileText, ReadRequest(verb + " " + target + " " + version).value);
            r.statusCode == 200 <==> (|verb| == 3 && verb[0] in "gG" && verb[1] in "eE" && verb[2] in "tT")
  {
    Server.RequestLineRoundTrip(verb, target, version);
    UpperIsGet(verb);
  }

  /** `uppercase() == "GET"` holds exactly for the case variants of `get`. */
  lemma UpperIsGet(m: string)
    ensures Upper(m) == "GET" <==> (|m| == 3 && m[0] in "gG" && m[1] in "eE" && m[2] in "tT")
  {
    if |m| == 3 && m[0] in "gG" && m[1] in "eE" && m[2] in "tT" {
      assert Upper(m) == [Upper(m)[0], Upper(m)[1], Upper(m)[2]];
    }
    if Upper(m) == "GET" {
      assert UpperChar(m[0]) == 'G' && UpperChar(m[1]) == 'E' && UpperChar(m[2]) == 'T';
    }
  }

  predicate IsSuccessful(r: Response) {
    100 <= r.statusCode <= 399
  }

  function StatusLine(r: Response): string {
    "HTTP/1.1 " + IntToString(r.statusCode) + " " + r.reasonPhrase
  }

  /** The single header: the UTF-8 size of the body for a success, `Accept: GET` otherwise. */
  function HeaderLine(r: Response): string {
    if IsSuccessful(r) then "Content-Length: " + IntToString(|Encode(r.responseBody)|) else "Accept: GET"
  }

  /** `toString`: status line, header, empty line, and for a success the body
      followed by one more CRLF. */
  function ToString(r: Response): string {
    StatusLine(r) + EOL + HeaderLine(r) + EOL + EOL + if IsSuccessful(r) then r.responseBody + EOL else ""
  }

  /** `asBytes`: the whole text in UTF-8. */
  function AsBytes(r: Response): seq<byte> {
    Encode(ToString(r))
  }

  /** The text before the body: status line, header and an empty line. */
  function Head(r: Response): string {
    StatusLine(r) + EOL + HeaderLine(r) + EOL + EOL
  }

  /** Reading the response back line by line gives the status code and a header
      block of exactly the one header, whatever the body holds. */
  lemma ResponseRoundTrip(r: Response)
    requires NoLineBreak(r.reasonPhrase) && |Encode(r.responseBody)| <= INT_MAX
    ensures var ls := Lines(ToString(r));
            && |ls| >= 4 && StatusCodeOf(ls[0]) == Some(r.statusCode)
            && ParseFields(ls[1..]) == Ok(Parsed(Headers(
                 if IsSuccessful(r) then map["Content-Length" := IntToString(|Encode(r.responseBody)|)]
                 else map["Accept" := "GET"]), 2))
    ensures IsSuccessful(r) ==> ToInt(IntToString(|Encode(r.responseBody)|)) == Some(|Encode(r.responseBody)| as Int32)
  {
    var tail := if IsSuccessful(r) then r.responseBody + EOL else "";
    assert ToString(r) == Head(r) + tail;
    HeadReadBack(r, tail);
    if IsSuccessful(r) {
      ToIntOfIntToString(|Encode(r.responseBody)|);
    }
  }

  lemma HeadReadBack(r: Response, rest: string)
    requires NoLineBreak(r.reasonPhrase) && |Encode(r.responseBody)| <= INT_MAX
    ensures var ls := Lines(Head(r) + rest);
            && |ls| >= 4 && StatusCodeOf(ls[0]) == Some(r.statusCode)
            && ParseFields(ls[1..]) == Ok(Parsed(Headers(
                 if IsSuccessful(r) then map["Content-Length" := IntToString(|Encode(r.responseBody)|)]
                 else map["Accept" := "GET"]), 2))
  {
    var sl, h := StatusLine(r), HeaderLine(r);
    HeadPlain(r);
    HeadThenRest(sl, h, rest);
    StatusLineRoundTrip(r.statusCode, r.reasonPhrase);
    HeaderBlock(r, Lines(rest));
  }

  /** Neither the status line nor the header holds a line break. */
  lemma HeadPlain(r: Response)
    requires NoLineBreak(r.reasonPhrase)
    ensures NoLineBreak(StatusLine(r)) && NoLineBreak(HeaderLine(r))
  {
    StatusLinePlain(r.statusCode, r.reasonPhrase);
    if IsSuccessful(r) {
      IntTextHasNoSpace(|Encode(r.responseBody)|);
      var name := "Content-Length: ";
      assert NoLineBreak(name);
      NoLineBreakConcat(name, IntToString(|Encode(r.responseBody)|));
    } else {
      assert NoLineBreak("Accept: GET");
    }
  }

  /** For a success the bytes after the head are the body's UTF-8 and a CRLF, two
      bytes more than the advertised Content-Length; a failure ends at the head. */
  lemma ResponseBytes(r: Response)
    ensures Encode(Head(r)) <= AsBytes(r)
    ensures IsSuccessful(r) ==> AsBytes(r)[|Encode(Head(r))|..] == Encode(r.responseBody) + [13, 10]
    ensures !IsSuccessful(r) ==> AsBytes(r) == Encode(Head(r))
  {
    var tail := if IsSuccessful(r) then r.responseBody + EOL else "";
    assert ToString(r) == Head(r) + tail;
    EncodeConcat(Head(r), tail);
    if IsSuccessful(r) {
      EncodeConcat(r.responseBody, EOL);
      assert Encode(EOL) == [13, 10];
    } else {
      assert Encode(tail) == [];
    }
  }

  /** The head reads back as status line, header and empty line, and what follows it as its own lines. */
  lemma HeadThenRest(sl: string, h: string, rest: string)
    requires NoLineBreak(sl) && NoLineBreak(h)
    ensures Lines(sl + EOL + h + EOL + EOL + rest) == [sl] + ([h, ""] + Lines(rest))
  {
    var t2 := EOL + rest;
    var t1 := h + EOL + t2;
    assert sl + EOL + h + EOL + EOL + rest == sl + EOL + t1;
    LinesCons(sl, EOL, t1);
    LinesCons(h, EOL, t2);
    assert t2 == "" + EOL + rest;
    LinesCons("", EOL, rest);
    assert [h] + ([""] + Lines(rest)) == [h, ""] + Lines(rest);
  }
  lemma HeaderBlock(r: Response, rest: seq<string>)
    requires |Encode(r.responseBody)| <= INT_MAX
    ensures ParseFields([HeaderLine(r), ""] + rest) == Ok(Parsed(Headers(
              if IsSuccessful(r) then map["Content-Length" := IntToString(|Encode(r.responseBody)|)]
              else map["Accept" := "GET"]), 2))
  {
    SharedNamesPlain();
    if IsSuccessful(r) {
      IntTextHasNoSpace(|Encode(r.responseBody)|);
      assert HeaderLine(r) == FieldLine(CONTENT_LENGTH, IntToString(|Encode(r.responseBody)|));
      OneField(CONTENT_LENGTH, IntToString(|Encode(r.responseBody)|), rest);
    } else {
      assert HeaderLine(r) == FieldLine(ACCEPT, "GET");
      OneField(ACCEPT, "GET", rest);
    }
  }
}
