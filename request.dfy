/** The parsed request of the later server iteration (`request/Request.kt`): the
    three request-line tokens and the header block, the path-traversal check on
    the target and the `Range` header lookup. */
module Requests {
  import opened Results
  import opened Text
  import opened HeaderFields
  import opened Numbers
  import opened Ranges

  datatype Request = Request(httpMethod: string, requestTarget: string, httpVersion: string, headers: Headers)

  /** `isValid`: a request is valid exactly when `..` occurs nowhere in the
      target and `%2E%2E` occurs nowhere in its upper-cased form. */
  function IsValid(request: Request): (r: bool)
    ensures r <==>
              (forall i: nat :: !OccursAt(request.requestTarget, "..", i))
              && (forall i: nat :: !OccursAt(Upper(request.requestTarget), "%2E%2E", i))
  {
    !Contains(request.requestTarget, "..") && !Contains(Upper(request.requestTarget), "%2E%2E")
  }

  /** `getRange`: the `Range` header, looked up by its exact name. */
  function GetRange(request: Request): (r: Range)
    ensures r.rangeHeader == request.headers.Get("Range")
  {
    Range(request.headers.Get("Range"))
  }

  /** A `..` anywhere in the target makes the request invalid. */
  lemma DotDotInvalid(request: Request, i: nat)
    requires i + 2 <= |request.requestTarget| && request.requestTarget[i..i + 2] == ".."
    ensures !IsValid(request)
  {
    assert OccursAt(request.requestTarget, "..", i);
  }

  /** `%2E%2E` in any mix of letter cases anywhere in the target makes the
      request invalid. */
  lemma EncodedDotDotInvalid(request: Request, i: nat)
    requires i + 6 <= |request.requestTarget|
    requires EncodedDotDot(request.requestTarget[i..i + 6])
    ensures !IsValid(request)
  {
    var t := request.requestTarget;
    EncodedDotDotUpper(t[i..i + 6]);
    UpperSlice(t, i, i + 6);
    assert OccursAt(Upper(t), "%2E%2E", i);
  }

  /** The six characters `%2E%2E`, each `E` in either case. */
  predicate EncodedDotDot(s: string) {
    |s| == 6 && s[0] == '%' && s[1] == '2' && s[2] in "eE" && s[3] == '%' && s[4] == '2' && s[5] in "eE"
  }

  /** Upper-casing gives `%2E%2E` exactly for the case variants of it. */
  lemma EncodedDotDotUpper(s: string)
    ensures Upper(s) == "%2E%2E" <==> EncodedDotDot(s)
  {
    if EncodedDotDot(s) {
      assert Upper(s) == [Upper(s)[0], Upper(s)[1], Upper(s)[2], Upper(s)[3], Upper(s)[4], Upper(s)[5]];
    }
    if Upper(s) == "%2E%2E" {
      assert UpperChar(s[0]) == '%' && UpperChar(s[1]) == '2' && UpperChar(s[2]) == 'E';
      assert UpperChar(s[3]) == '%' && UpperChar(s[4]) == '2' && UpperChar(s[5]) == 'E';
    }
  }

  /** For example, `/%2e%2E/secret` is refused. */
  lemma MixedCaseExample(headers: Headers)
    ensures !IsValid(Request("GET", "/%2e%2E/secret", "HTTP/1.1", headers))
  {
    var t := "/%2e%2E/secret";
    assert t[1..7] == "%2e%2E";
    EncodedDotDotInvalid(Request("GET", t, "HTTP/1.1", headers), 1);
  }

  /** Only the target matters to `isValid`. */
  lemma IsValidOnlyTarget(a: Request, b: Request)
    requires a.requestTarget == b.requestTarget
    ensures IsValid(a) == IsValid(b)
  {
  }

  /** Without a `Range` header the range is `NoRange`: not multiple, the whole
      content, and no `Content-Range` line. */
  lemma AbsentRange(request: Request, contentLength: Int32)
    requires "Range" !in request.headers.fields
    ensures GetRange(request) == NoRange()
    ensures !MultipleRanges(GetRange(request))
    ensures AsIntRange(GetRange(request), contentLength) == Ok(Interval(0, Dec(contentLength)))
  {
  }
}
