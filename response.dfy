/** The response of the later server iteration (`response/Response.kt`): status
    line, a fixed header order for successes with the lengths and the type of
    the content and the `Content-Range` line of the range, a short header block
    for failures, and the content's bytes for the range after the head. The
    content is seen only through what the response asks of it. */
module Responses {
  import opened Results
  import opened Text
  import opened Numbers
  import opened Utf8
  import opened HeaderFields
  import opened Framing
  import opened Ranges
  import Server

  /** The content as the response uses it: its bytes and length for a range,
      its full length, and its type, which is `None` where `type()` throws. */
  datatype Body = Body(bytesIn: Range -> seq<byte>, lengthIn: Range -> Int32, length: Int32, contentType: Option<string>)

  /** `NoContent`: no bytes, length 0, and no type; its ranged views are taken
      to be empty as well. */
  function NoContentBody(): (b: Body)
    ensures b.length == 0 && b.contentType.None?
    ensures forall range :: b.bytesIn(range) == [] && b.lengthIn(range) == 0
  {
    Body(_ => [], _ => 0, 0, None)
  }

  datatype Response = Response(statusCode: Int32, reasonPhrase: string, content: Body, range: Range)

  /** The constructor defaults: `NoContent()` and `NoRange()`. */
  function Plain(statusCode: Int32, reasonPhrase: string): (r: Response)
    ensures r.content == NoContentBody() && r.range == NoRange()
  {
    Response(statusCode, reasonPhrase, NoContentBody(), NoRange())
  }

  /** Why building the head throws: `type()` of content without a type, or an
      exception of `asIntRange` while rendering the `Content-Range` line. */
  datatype ResponseError = NoType | BadRange(cause: RangeError)

  predicate IsSuccessful(r: Response) {
    100 <= r.statusCode <= 399
  }

  function StatusLine(r: Response): string {
    "HTTP/1.1 " + IntToString(r.statusCode) + " " + r.reasonPhrase
  }

  /** `statusLineAndHeaders`. The success headers are evaluated in order, so a
      missing type is reported before a bad range. */
  function StatusLineAndHeaders(r: Response): (res: Result<string, ResponseError>)
    ensures res.Err? <==> IsSuccessful(r) && (r.content.contentType.None? || AsResponseHeader(r.range, r.content.length).Err?)
    ensures res == Err(NoType) <==> IsSuccessful(r) && r.content.contentType.None?
  {
    var EOL := Server.EOL;
    if IsSuccessful(r) then
      match r.content.contentType
      case None => Err(NoType)
      case Some(t) =>
        match AsResponseHeader(r.range, r.content.length)
        case Err(e) => Err(BadRange(e))
        case Ok(contentRange) => Ok(SuccessHeadText(StatusLine(r), IntToString(r.content.lengthIn(r.range)), t, contentRange))
    else Ok(FailureHeadText(StatusLine(r)))
  }

  /** The failure head: the status line, `Content-Length: 0`, `Allow: GET`, then
      the empty line. */
  function FailureHeadText(statusLine: string): string {
    var EOL := Server.EOL;
    var headers := "Content-Length: 0" + EOL + "Allow: GET" + EOL;
    statusLine + EOL + headers + EOL
  }

  /** The success head: the status line, then Content-Length (the ranged
      length), Content-Type, the Content-Range text, Accept-Ranges and
      Connection, then the empty line. */
  function SuccessHeadText(statusLine: string, length: string, contentType: string, contentRange: string): string {
    var EOL := Server.EOL;
    var headers :=
      "Content-Length: " + length + EOL
      + "Content-Type: " + contentType + EOL
      + contentRange
      + "Accept-Ranges: bytes" + EOL
      + "Connection: Keep-Alive" + EOL;
    statusLine + EOL + headers + EOL
  }

  /** `asBytes`: the head in UTF-8, then the content's bytes for the range. */
  function AsBytes(r: Response): (res: Result<seq<byte>, ResponseError>)
    ensures res.Ok? <==> StatusLineAndHeaders(r).Ok?
    ensures res.Ok? ==> var head := Encode(StatusLineAndHeaders(r).value);
                        head <= res.value && res.value[|head|..] == r.content.bytesIn(r.range)
  {
    match StatusLineAndHeaders(r)
    case Err(e) => Err(e)
    case Ok(head) => Ok(Encode(head) + r.content.bytesIn(r.range))
  }

  // ---------------------------------------------------------------------------
  // Properties

  /** The field names the head writes. */
  const CONTENT_TYPE: string := "Content-Type"
  const CONTENT_RANGE: string := "Content-Range"
  const ACCEPT_RANGES: string := "Accept-Ranges"
  const CONNECTION: string := "Connection"
  const ALLOW: string := "Allow"
  /** The field values the success head writes as they are. */
  const BYTES: string := "bytes"
  const KEEP_ALIVE: string := "Keep-Alive"

  lemma FieldNamesPlain()
    ensures CONTENT_LENGTH != [] && PlainValue(CONTENT_LENGTH) && PlainValue("GET")
    ensures CONTENT_TYPE != [] && PlainValue(CONTENT_TYPE)
    ensures CONTENT_RANGE != [] && PlainValue(CONTENT_RANGE)
    ensures ACCEPT_RANGES != [] && PlainValue(ACCEPT_RANGES)
    ensures CONNECTION != [] && PlainValue(CONNECTION)
    ensures ALLOW != [] && PlainValue(ALLOW)
    ensures PlainValue("0") && PlainValue(BYTES) && PlainValue(KEEP_ALIVE)
  {
    SharedNamesPlain();
    LongNamesPlain();
  }

  lemma LongNamesPlain()
    ensures CONTENT_TYPE != [] && PlainValue(CONTENT_TYPE)
    ensures CONTENT_RANGE != [] && PlainValue(CONTENT_RANGE)
    ensures ACCEPT_RANGES != [] && PlainValue(ACCEPT_RANGES)
  {
  }

  /** A failure never asks the content anything that throws: its head is the
      status line, `Content-Length: 0`, `Allow: GET` and an empty line. */
  lemma FailureHeadExact(r: Response)
    requires !IsSuccessful(r)
    ensures var fs := [FieldLine(CONTENT_LENGTH, "0"), FieldLine(ALLOW, "GET")];
            StatusLineAndHeaders(r) == Ok(Crlf([StatusLine(r)] + fs + [""]))
  {
    var sl := StatusLine(r);
    var fs := [FieldLine(CONTENT_LENGTH, "0"), FieldLine(ALLOW, "GET")];
    assert [sl] + fs + [""] == [sl, fs[0], fs[1], ""];
    FailureShape(sl);
  }

  /** A failure's head reads back as its status code and exactly the two
      fields `Content-Length: 0` and `Allow: GET`. */
  lemma FailureHead(r: Response)
    requires !IsSuccessful(r) && NoLineBreak(r.reasonPhrase)
    ensures var ls := Lines(StatusLineAndHeaders(r).value);
            && |ls| == 5 && StatusCodeOf(ls[0]) == Some(r.statusCode)
            && ParseFields(ls[1..]) == Ok(Parsed(Headers(map[CONTENT_LENGTH := "0", ALLOW := "GET"]), 3))
  {
    var sl := StatusLine(r);
    assert StatusLineAndHeaders(r) == Ok(FailureHeadText(sl));
    FailureShape(sl);
    FailureLinesBack(r, FailureHeadText(sl));
  }

  lemma FailureShape(sl: string)
    ensures FailureHeadText(sl) == Crlf([sl, FieldLine(CONTENT_LENGTH, "0"), FieldLine(ALLOW, "GET"), ""])
  {
    var cl, al := FieldLine(CONTENT_LENGTH, "0"), FieldLine(ALLOW, "GET");
    assert cl == "Content-Length: 0" && al == "Allow: GET";
    CrlfOfFour([sl, cl, al, ""]);
  }

  lemma FailureLinesBack(r: Response, head: string)
    requires NoLineBreak(r.reasonPhrase)
    requires head == Crlf([StatusLine(r), FieldLine(CONTENT_LENGTH, "0"), FieldLine(ALLOW, "GET"), ""])
    ensures var ls := Lines(head);
            && |ls| == 5 && StatusCodeOf(ls[0]) == Some(r.statusCode)
            && ParseFields(ls[1..]) == Ok(Parsed(Headers(map[CONTENT_LENGTH := "0", ALLOW := "GET"]), 3))
  {
    var cl, al := FieldLine(CONTENT_LENGTH, "0"), FieldLine(ALLOW, "GET");
    FieldNamesPlain();
    TwoFields(CONTENT_LENGTH, "0", ALLOW, "GET", [""]);
    PlainFieldLine(CONTENT_LENGTH, "0");
    PlainFieldLine(ALLOW, "GET");
    StatusHeadBack(r.statusCode, r.reasonPhrase, [cl, al], Parsed(Headers(map[CONTENT_LENGTH := "0", ALLOW := "GET"]), 3));
    assert [StatusLine(r)] + [cl, al] + [""] == [StatusLine(r), cl, al, ""];
  }

  lemma CrlfOfFour(ls: seq<string>)
    requires |ls| == 4
    ensures Crlf(ls) == ls[0] + "\r\n" + ls[1] + "\r\n" + ls[2] + "\r\n" + ls[3] + "\r\n"
  {
    assert ls[1..][1..] == ls[2..];
    assert ls[2..][1..] == ls[3..];
    assert ls[3..][1..] == [];
    assert Crlf(ls[3..]) == ls[3] + "\r\n";
    assert Crlf(ls[2..]) == ls[2] + "\r\n" + Crlf(ls[3..]);
    assert Crlf(ls[1..]) == ls[1] + "\r\n" + Crlf(ls[2..]);
  }

  /** With the defaults and a failure code the bytes are the head alone. */
  lemma DefaultFailureHasNoBody(statusCode: Int32, reasonPhrase: string)
    requires !(100 <= statusCode <= 399)
    ensures AsBytes(Plain(statusCode, reasonPhrase)).Ok?
    ensures AsBytes(Plain(statusCode, reasonPhrase)).value == Encode(StatusLineAndHeaders(Plain(statusCode, reasonPhrase)).value)
  {
  }

  /** A success with the default `NoContent` fails on `type()`. */
  lemma DefaultSuccessHasNoType(statusCode: Int32, reasonPhrase: string)
    requires 100 <= statusCode <= 399
    ensures AsBytes(Plain(statusCode, reasonPhrase)) == Err(NoType)
  {
  }

  /** The `Content-Range` value `bytes <first>-<last>/<total>`. */
  function RangeValue(iv: Interval, total: Int32): string {
    "bytes " + IntToString(iv.first) + "-" + IntToString(iv.last) + "/" + IntToString(total)
  }

  /** The header fields of a success in the order they are written:
      Content-Length, Content-Type, Content-Range when the request had a range,
      Accept-Ranges, Connection. */
  function SuccessFieldList(r: Response, t: string, iv: Interval): seq<Field> {
    [Field(CONTENT_LENGTH, IntToString(r.content.lengthIn(r.range))), Field(CONTENT_TYPE, t)]
    + (if r.range.rangeHeader.Some? then [Field(CONTENT_RANGE, RangeValue(iv, r.content.length))] else [])
    + [Field(ACCEPT_RANGES, BYTES), Field(CONNECTION, KEEP_ALIVE)]
  }

  function SuccessFieldLines(r: Response, t: string, iv: Interval): seq<string> {
    FieldLines(SuccessFieldList(r, t, iv))
  }

  /** A success head is the status line and its header lines, each followed by
      CRLF, and then the empty line; the Content-Range line carries the interval
      of the range and the full length of the content. */
  lemma SuccessHead(r: Response)
    requires IsSuccessful(r) && r.content.contentType.Some?
    requires AsIntRange(r.range, r.content.length).Ok?
    ensures var iv := AsIntRange(r.range, r.content.length).value;
            StatusLineAndHeaders(r) == Ok(Crlf([StatusLine(r)] + SuccessFieldLines(r, r.content.contentType.value, iv) + [""]))
  {
    var t := r.content.contentType.value;
    var iv := AsIntRange(r.range, r.content.length).value;
    var cr := AsResponseHeader(r.range, r.content.length).value;
    assert StatusLineAndHeaders(r) == Ok(SuccessHeadText(StatusLine(r), IntToString(r.content.lengthIn(r.range)), t, cr));
    RangeText(r, iv);
    SuccessLines(r, t, iv, cr);
  }

  /** The `Content-Range` text of a success is its Content-Range field line
      followed by CRLF, or nothing without a range. */
  lemma RangeText(r: Response, iv: Interval)
    requires AsIntRange(r.range, r.content.length) == Ok(iv)
    ensures AsResponseHeader(r.range, r.content.length).Ok?
    ensures AsResponseHeader(r.range, r.content.length).value == Crlf(RangeLines(r, iv))
  {
    var crs := RangeLines(r, iv);
    if r.range.rangeHeader.Some? {
      ResponseHeaderFormat(r.range, r.content.length);
      RangeLineShape(IntToString(iv.first), IntToString(iv.last), IntToString(r.content.length));
      assert crs[1..] == [];
    }
  }

  /** The Content-Range field line of a success, if the request had a range. */
  function RangeLines(r: Response, iv: Interval): seq<string> {
    if r.range.rangeHeader.Some? then [FieldLine(CONTENT_RANGE, RangeValue(iv, r.content.length))] else []
  }

  lemma SuccessLines(r: Response, t: string, iv: Interval, cr: string)
    requires cr == Crlf(RangeLines(r, iv))
    ensures SuccessHeadText(StatusLine(r), IntToString(r.content.lengthIn(r.range)), t, cr)
         == Crlf([StatusLine(r)] + SuccessFieldLines(r, t, iv) + [""])
  {
    var sl := StatusLine(r);
    var n := IntToString(r.content.lengthIn(r.range));
    var cl, ct := FieldLine(CONTENT_LENGTH, n), FieldLine(CONTENT_TYPE, t);
    var ar, co := FieldLine(ACCEPT_RANGES, BYTES), FieldLine(CONNECTION, KEEP_ALIVE);
    var crs := RangeLines(r, iv);
    HeadShape(sl, n, t, cr);
    assert SuccessFieldLines(r, t, iv) == [cl, ct] + crs + [ar, co];
    assert [sl] + SuccessFieldLines(r, t, iv) + [""] == [sl, cl, ct] + crs + [ar, co, ""];
    CrlfAppend([sl, cl, ct] + crs, [ar, co, ""]);
    CrlfAppend([sl, cl, ct], crs);
  }

  lemma HeadShape(sl: string, n: string, t: string, cr: string)
    ensures SuccessHeadText(sl, n, t, cr)
         == Crlf([sl, FieldLine(CONTENT_LENGTH, n), FieldLine(CONTENT_TYPE, t)]) + cr
            + Crlf([FieldLine(ACCEPT_RANGES, BYTES), FieldLine(CONNECTION, KEEP_ALIVE), ""])
  {
    var cl, ct := FieldLine(CONTENT_LENGTH, n), FieldLine(CONTENT_TYPE, t);
    var ar, co := FieldLine(ACCEPT_RANGES, BYTES), FieldLine(CONNECTION, KEEP_ALIVE);
    assert cl == "Content-Length: " + n && ct == "Content-Type: " + t;
    assert ar == "Accept-Ranges: bytes" && co == "Connection: Keep-Alive";
    assert SuccessHeadText(sl, n, t, cr) == sl + "\r\n" + (cl + "\r\n" + ct + "\r\n" + cr + ar + "\r\n" + co + "\r\n") + "\r\n";
    SixPieces(sl, cl, ct, cr, ar, co);
  }

  lemma SixPieces(sl: string, cl: string, ct: string, cr: string, ar: string, co: string)
    ensures sl + "\r\n" + (cl + "\r\n" + ct + "\r\n" + cr + ar + "\r\n" + co + "\r\n") + "\r\n"
         == Crlf([sl, cl, ct]) + cr + Crlf([ar, co, ""])
  {
    CrlfOfThree([sl, cl, ct]);
    CrlfOfThree([ar, co, ""]);
  }

  lemma RangeLineShape(a: string, b: string, c: string)
    ensures "Content-Range: bytes " + a + "-" + b + "/" + c + "\r\n"
         == FieldLine(CONTENT_RANGE, "bytes " + a + "-" + b + "/" + c) + "\r\n"
  {
    var v := "bytes " + a + "-" + b + "/" + c;
    assert "Content-Range: bytes " + a + "-" + b + "/" + c == "Content-Range: " + v;
    assert "Content-Range: " == CONTENT_RANGE + ": ";
  }

  lemma CrlfOfThree(ls: seq<string>)
    requires |ls| == 3
    ensures Crlf(ls) == ls[0] + "\r\n" + ls[1] + "\r\n" + ls[2] + "\r\n"
  {
    assert ls[1..][1..] == ls[2..];
    assert ls[2..][1..] == [];
    assert Crlf(ls[2..]) == ls[2] + "\r\n";
    assert Crlf(ls[1..]) == ls[1] + "\r\n" + Crlf(ls[2..]);
  }

  /** Reading a success head back gives the status code and the header fields
      `Content-Length` (the ranged length), `Content-Type`, `Content-Range` when
      there is a range (the interval over the full length of the content),
      `Accept-Ranges` and `Connection`; the Content-Length value reads back as
      the ranged length. */
  lemma SuccessRoundTrip(r: Response)
    requires IsSuccessful(r) && r.content.contentType.Some? && PlainValue(r.content.contentType.value)
    requires NoLineBreak(r.reasonPhrase)
    requires AsIntRange(r.range, r.content.length).Ok?
    ensures var iv := AsIntRange(r.range, r.content.length).value;
            var ls := Lines(StatusLineAndHeaders(r).value);
            var fields := map[CONTENT_LENGTH := IntToString(r.content.lengthIn(r.range)),
                              CONTENT_TYPE := r.content.contentType.value,
                              ACCEPT_RANGES := BYTES, CONNECTION := KEEP_ALIVE];
            && StatusCodeOf(ls[0]) == Some(r.statusCode)
            && ParseFields(ls[1..]) == Ok(Parsed(Headers(
                 if r.range.rangeHeader.Some? then fields[CONTENT_RANGE := RangeValue(iv, r.content.length)]
                 else fields), if r.range.rangeHeader.Some? then 6 else 5))
            && ToInt(IntToString(r.content.lengthIn(r.range))) == Some(r.content.lengthIn(r.range))
  {
    var t := r.content.contentType.value;
    var iv := AsIntRange(r.range, r.content.length).value;
    SuccessHead(r);
    SuccessLinesBack(r, t, iv, StatusLineAndHeaders(r).value);
    ToIntOfIntToString(r.content.lengthIn(r.range));
  }

  lemma SuccessLinesBack(r: Response, t: string, iv: Interval, head: string)
    requires PlainValue(t) && NoLineBreak(r.reasonPhrase)
    requires head == Crlf([StatusLine(r)] + SuccessFieldLines(r, t, iv) + [""])
    ensures var ls := Lines(head);
            var fields := map[CONTENT_LENGTH := IntToString(r.content.lengthIn(r.range)),
                              CONTENT_TYPE := t, ACCEPT_RANGES := BYTES, CONNECTION := KEEP_ALIVE];
            && StatusCodeOf(ls[0]) == Some(r.statusCode)
            && ParseFields(ls[1..]) == Ok(Parsed(Headers(
                 if r.range.rangeHeader.Some? then fields[CONTENT_RANGE := RangeValue(iv, r.content.length)]
                 else fields), if r.range.rangeHeader.Some? then 6 else 5))
  {
    SuccessFieldsParse(r, t, iv);
    SuccessFieldsMap(r, t, iv);
    var fs := SuccessFieldLines(r, t, iv);
    StatusHeadBack(r.statusCode, r.reasonPhrase, fs, Parsed(Headers(FieldMap(SuccessFieldList(r, t, iv))), |fs| + 1));
  }

  /** The success field lines have no line break and parse to the success fields. */
  lemma SuccessFieldsParse(r: Response, t: string, iv: Interval)
    requires PlainValue(t)
    ensures var fs := SuccessFieldLines(r, t, iv);
            && (forall k :: 0 <= k < |fs| ==> NoLineBreak(fs[k]))
            && ParseFields(fs + [""] + [""]) == Ok(Parsed(Headers(FieldMap(SuccessFieldList(r, t, iv))), |fs| + 1))
            && |fs| == if r.range.rangeHeader.Some? then 5 else 4
  {
    var list := SuccessFieldList(r, t, iv);
    SuccessFieldsPlain(r, t, iv);
    PlainFieldLines(list);
    FieldBlock(FieldLines(list), [""]);
  }

  lemma SuccessFieldsPlain(r: Response, t: string, iv: Interval)
    requires PlainValue(t)
    ensures forall k :: 0 <= k < |SuccessFieldList(r, t, iv)| ==> PlainField(SuccessFieldList(r, t, iv)[k])
  {
    IntTextHasNoSpace(r.content.lengthIn(r.range));
    RangeValuePlain(iv, r.content.length);
    FieldNamesPlain();
  }

  /** The fields of a success head, spelled out: a map of four names, and five
      when the request had a range. */
  lemma SuccessFieldsMap(r: Response, t: string, iv: Interval)
    ensures var fields := map[CONTENT_LENGTH := IntToString(r.content.lengthIn(r.range)),
                              CONTENT_TYPE := t, ACCEPT_RANGES := BYTES, CONNECTION := KEEP_ALIVE];
            FieldMap(SuccessFieldList(r, t, iv)) ==
              if r.range.rangeHeader.Some? then fields[CONTENT_RANGE := RangeValue(iv, r.content.length)] else fields
  {
    var list := SuccessFieldList(r, t, iv);
    var a, b := Field(CONTENT_LENGTH, IntToString(r.content.lengthIn(r.range))), Field(CONTENT_TYPE, t);
    var c := Field(CONTENT_RANGE, RangeValue(iv, r.content.length));
    var d, e := Field(ACCEPT_RANGES, BYTES), Field(CONNECTION, KEEP_ALIVE);
    var lead := if r.range.rangeHeader.Some? then [a, b, c] else [a, b];
    assert list == lead + [d, e];
    assert list[..|list| - 1] == lead + [d];
    assert (lead + [d])[..|lead|] == lead;
    assert [a, b][..1] == [a] && [a][..0] == [];
    assert FieldMap([a]) == map[][a.name := a.value];
    assert FieldMap([a, b]) == FieldMap([a])[b.name := b.value];
    if r.range.rangeHeader.Some? {
      assert lead[..2] == [a, b];
      assert CONTENT_RANGE != ACCEPT_RANGES && CONTENT_RANGE != CONNECTION;
    }
    assert FieldMap(list) == FieldMap(lead)[d.name := d.value][e.name := e.value];
  }

  /** The Content-Range value is plain field text. */
  lemma RangeValuePlain(iv: Interval, total: Int32)
    ensures PlainValue(RangeValue(iv, total))
  {
    var a, b, c := IntToString(iv.first), IntToString(iv.last), IntToString(total);
    IntTextHasNoSpace(iv.first);
    IntTextHasNoSpace(iv.last);
    IntTextHasNoSpace(total);
    var v := RangeValue(iv, total);
    assert v[0] == 'b';
    assert v[|v| - 1] == c[|c| - 1];
  }

  /** The bytes after the head are the content's bytes for the range. */
  lemma BodyFollowsHead(r: Response)
    requires StatusLineAndHeaders(r).Ok?
    ensures AsBytes(r) == Ok(Encode(StatusLineAndHeaders(r).value) + r.content.bytesIn(r.range))
  {
  }
}
