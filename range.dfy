/** The `Range` request header (`request/Range.kt`): its value, after an optional
    `bytes=` prefix, becomes one inclusive interval of byte positions, rendered
    back as a `Content-Range` response line. The code's reading differs from
    section 14 of RFC 9110: `-N` means the positions `0` to `N` rather than the
    last `N` bytes, and nothing is clamped to the content length. */
module Ranges {
  import opened Results
  import opened Text
  import opened Numbers
  import Server

  /** `NO_HEADER`: what `asResponseHeader` returns without a `Range` header. */
  const NO_HEADER: string := ""
  const BYTES_PREFIX: string := "bytes="

  /** The header value as received, or `None` when the request had none. */
  datatype Range = Range(rangeHeader: Option<string>)

  /** Kotlin's `IntRange`: the positions `first` to `last`, both included. */
  datatype Interval = Interval(first: Int32, last: Int32)

  /** Why `asIntRange` throws: `last()` of an empty spec, `toInt` of text that is
      not an `Int`, or the destructuring of a split with no second part. */
  datatype RangeError = EmptySpec | NotANumber | NoEnd

  function NoRange(): (r: Range)
    ensures r.rangeHeader.None?
  {
    Range(None)
  }

  /** `multipleRanges`: a header is present and holds a comma. */
  function MultipleRanges(range: Range): (r: bool)
    ensures r <==> range.rangeHeader.Some? && ',' in range.rangeHeader.value
  {
    match range.rangeHeader
    case None => false
    case Some(header) =>
      ContainsChar(header, ',');
      Contains(header, ",")
  }

  /** The range spec `asIntRange` works on: the header without its `bytes=` prefix. */
  function Spec(header: string): string {
    RemovePrefix(header, BYTES_PREFIX)
  }

  function Bound(s: string): Result<Int32, RangeError> {
    match ToInt(s)
    case Some(v) => Ok(v)
    case None => Err(NotANumber)
  }

  /** `asIntRange`: no header is the whole content; a spec starting with `-`
      ends at the number after it; a spec ending with `-` starts at the number
      before it and runs to the last byte; otherwise the first two `-`-separated
      parts are the two ends. */
  function AsIntRange(range: Range, contentLength: Int32): (r: Result<Interval, RangeError>)
    ensures range.rangeHeader.None? ==> r == Ok(Interval(0, Dec(contentLength)))
    ensures r == Err(EmptySpec) <==> range.rangeHeader.Some? && Spec(range.rangeHeader.value) == ""
    ensures r == Err(NoEnd) <==>
              range.rangeHeader.Some? &&
              var s := Spec(range.rangeHeader.value);
              s != "" && s[0] != '-' && s[|s| - 1] != '-' && '-' !in s
    ensures r.Ok? && range.rangeHeader.Some? ==>
              var s := Spec(range.rangeHeader.value);
              s != "" && (s[0] == '-' ==> r.value.first == 0)
              && (s[0] != '-' && s[|s| - 1] == '-' ==> r.value.last == Dec(contentLength))
  {
    match range.rangeHeader
    case None => Ok(Interval(0, Dec(contentLength)))
    case Some(header) =>
      var s := Spec(header);
      if s != "" && s[0] == '-' then
        match Bound(s[1..])
        case Err(e) => Err(e)
        case Ok(last) => Ok(Interval(0, last))
      else if s == "" then Err(EmptySpec)
      else if s[|s| - 1] == '-' then
        match Bound(s[..|s| - 1])
        case Err(e) => Err(e)
        case Ok(first) => Ok(Interval(first, Dec(contentLength)))
      else
        var parts := Split(s, '-');
        SplitHasSecondPart(s, '-');
        if |parts| < 2 then Err(NoEnd)
        else
          match Bound(parts[0])
          case Err(e) => Err(e)
          case Ok(first) =>
            match Bound(parts[1])
            case Err(e) => Err(e)
            case Ok(last) => Ok(Interval(first, last))
  }

  /** Kotlin's `replace("..", "-")`: every non-overlapping `..`, left to right. */
  function ReplaceDots(s: string): (r: string)
    ensures |r| <= |s|
  {
    if |s| >= 2 && s[0] == '.' && s[1] == '.' then "-" + ReplaceDots(s[2..])
    else if s == [] then ""
    else [s[0]] + ReplaceDots(s[1..])
  }

  /** `IntRange.toString()`. */
  function IntervalText(iv: Interval): string {
    IntToString(iv.first) + ".." + IntToString(iv.last)
  }

  /** `asResponseHeader`: nothing without a header; otherwise the `Content-Range`
      line for the interval and the full length; an error of `asIntRange` is
      passed on. */
  function AsResponseHeader(range: Range, contentLength: Int32): (r: Result<string, RangeError>)
    ensures range.rangeHeader.None? ==> r == Ok(NO_HEADER)
    ensures range.rangeHeader.Some? ==> (r.Err? <==> AsIntRange(range, contentLength).Err?)
  {
    match range.rangeHeader
    case None => Ok(NO_HEADER)
    case Some(_) =>
      match AsIntRange(range, contentLength)
      case Err(e) => Err(e)
      case Ok(iv) => Ok(RangeLine(iv, contentLength))
  }

  /** The `Content-Range` line of an interval over the full length. */
  function RangeLine(iv: Interval, contentLength: Int32): string {
    "Content-Range: bytes " + ReplaceDots(IntervalText(iv)) + "/" + IntToString(contentLength) + Server.EOL
  }

  // ---------------------------------------------------------------------------
  // Properties

  /** `NoRange` is the whole content, is not multiple and renders no header line. */
  lemma NoRangeIsWhole(contentLength: Int32)
    ensures AsIntRange(NoRange(), contentLength) == Ok(Interval(0, Dec(contentLength)))
    ensures !MultipleRanges(NoRange())
    ensures AsResponseHeader(NoRange(), contentLength) == Ok("")
  {
  }

  /** The `bytes=` prefix may be left out: a spec that does not itself start with
      it means the same with or without it. */
  lemma PrefixOptional(s: string, contentLength: Int32)
    requires !StartsWith(s, BYTES_PREFIX)
    ensures AsIntRange(Range(Some(BYTES_PREFIX + s)), contentLength) == AsIntRange(Range(Some(s)), contentLength)
  {
    assert StartsWith(BYTES_PREFIX + s, BYTES_PREFIX);
    assert (BYTES_PREFIX + s)[|BYTES_PREFIX|..] == s;
  }

  /** `bytes=-B` gives `0..N` for any bound text `B` that `toInt` reads as `N`
      (a sign and leading zeros included), whatever the content length. */
  lemma LeadingDash(bound: string, n: Int32, contentLength: Int32)
    requires ToInt(bound) == Some(n)
    ensures AsIntRange(Range(Some(BYTES_PREFIX + ("-" + bound))), contentLength) == Ok(Interval(0, n))
  {
    var s := "-" + bound;
    assert !StartsWith(s, BYTES_PREFIX) by { assert s[0] == '-'; }
    PrefixOptional(s, contentLength);
    assert s[1..] == bound;
  }

  /** `bytes=B-` gives `N..contentLength-1` for any bound text `B` that does not
      start with `-` and that `toInt` reads as `N`. */
  lemma TrailingDash(bound: string, n: Int32, contentLength: Int32)
    requires bound != [] && bound[0] != '-' && ToInt(bound) == Some(n)
    ensures AsIntRange(Range(Some(BYTES_PREFIX + (bound + "-"))), contentLength) == Ok(Interval(n, Dec(contentLength)))
  {
    var s := bound + "-";
    assert s[0] == bound[0];
    assert StartsWith(BYTES_PREFIX + s, BYTES_PREFIX);
    assert (BYTES_PREFIX + s)[|BYTES_PREFIX|..] == s;
    assert s[..|s| - 1] == bound;
  }

  /** `bytes=N-M` gives `N..M`, not clamped, and any further `-`-separated part
      is ignored as long as the spec does not end with `-`. */
  lemma TwoEnds(a: nat, b: nat, extra: string, contentLength: Int32)
    requires a <= INT_MAX && b <= INT_MAX
    requires extra == "" || (extra[0] == '-' && extra[|extra| - 1] != '-')
    ensures var spec := NatToString(a) + "-" + NatToString(b) + extra;
            AsIntRange(Range(Some(BYTES_PREFIX + spec)), contentLength) == Ok(Interval(a, b))
  {
    var s := NatToString(a) + "-" + NatToString(b) + extra;
    TwoEndsBare(a, b, extra, contentLength);
    PrefixOptional(s, contentLength);
  }

  /** The same without the `bytes=` prefix. */
  lemma TwoEndsBare(a: nat, b: nat, extra: string, contentLength: Int32)
    requires a <= INT_MAX && b <= INT_MAX
    requires extra == "" || (extra[0] == '-' && extra[|extra| - 1] != '-')
    ensures !StartsWith(NatToString(a) + "-" + NatToString(b) + extra, BYTES_PREFIX)
    ensures AsIntRange(Range(Some(NatToString(a) + "-" + NatToString(b) + extra)), contentLength) == Ok(Interval(a, b))
  {
    var da, db := NatToString(a), NatToString(b);
    var s := da + "-" + db + extra;
    TwoEndsSpec(da, db, extra);
    ToIntOfIntToString(a);
    ToIntOfIntToString(b);
    assert !StartsWith(s, BYTES_PREFIX) by { assert IsDigit(s[0]); }
    LastBranch(s, a, b, contentLength);
  }

  /** A spec that neither starts nor ends with `-` and whose first two parts are
      numbers gives the interval between them. */
  lemma LastBranch(s: string, first: Int32, last: Int32, contentLength: Int32)
    requires !StartsWith(s, BYTES_PREFIX) && s != "" && s[0] != '-' && s[|s| - 1] != '-'
    requires |Split(s, '-')| >= 2 && ToInt(Split(s, '-')[0]) == Some(first) && ToInt(Split(s, '-')[1]) == Some(last)
    ensures AsIntRange(Range(Some(s)), contentLength) == Ok(Interval(first, last))
  {
    assert Spec(s) == s;
  }

  /** The spec of two digit strings around a dash falls to the last branch of
      `asIntRange`, and its first two parts are the two digit strings. */
  lemma TwoEndsSpec(da: string, db: string, extra: string)
    requires da != "" && db != "" && AllDigits(da) && AllDigits(db)
    requires extra == "" || (extra[0] == '-' && extra[|extra| - 1] != '-')
    ensures var s := da + "-" + db + extra;
            && s != "" && s[0] != '-' && s[|s| - 1] != '-'
            && |Split(s, '-')| >= 2 && Split(s, '-')[0] == da && Split(s, '-')[1] == db
  {
    var s := da + "-" + db + extra;
    assert s[0] == da[0];
    assert s[|s| - 1] != '-' by {
      if extra == "" { assert s[|s| - 1] == db[|db| - 1]; }
      else { assert s[|s| - 1] == extra[|extra| - 1]; }
    }
    DigitsHaveNoDash(da);
    DigitsHaveNoDash(db);
    assert s == da + ['-'] + (db + extra);
    SplitCons(da, db + extra, '-');
    if extra == "" {
      SplitNone(db, '-');
      assert db + extra == db;
    } else {
      assert db + extra == db + ['-'] + extra[1..];
      SplitCons(db, extra[1..], '-');
    }
  }

  lemma DigitsHaveNoDash(s: string)
    requires AllDigits(s)
    ensures '-' !in s
  {
  }

  /** `bytes=` with nothing after it fails, as does an empty header. */
  lemma EmptySpecFails(contentLength: Int32)
    ensures AsIntRange(Range(Some("bytes=")), contentLength) == Err(EmptySpec)
    ensures AsIntRange(Range(Some("")), contentLength) == Err(EmptySpec)
  {
    assert Spec("bytes=") == "";
  }

  /** `bytes=-B` fails when `toInt` refuses the bound text `B`. */
  lemma LeadingNotANumber(bound: string, contentLength: Int32)
    requires ToInt(bound).None?
    ensures AsIntRange(Range(Some(BYTES_PREFIX + ("-" + bound))), contentLength) == Err(NotANumber)
  {
    var s := "-" + bound;
    assert !StartsWith(s, BYTES_PREFIX) by { assert s[0] == '-'; }
    PrefixOptional(s, contentLength);
    assert s[1..] == bound;
  }

  /** `bytes=B-`, with `B` not starting with `-`, fails when `toInt` refuses `B`. */
  lemma TrailingNotANumber(bound: string, contentLength: Int32)
    requires bound != [] && bound[0] != '-' && ToInt(bound).None?
    ensures AsIntRange(Range(Some(BYTES_PREFIX + (bound + "-"))), contentLength) == Err(NotANumber)
  {
    var s := bound + "-";
    assert s[0] == bound[0];
    assert StartsWith(BYTES_PREFIX + s, BYTES_PREFIX);
    assert (BYTES_PREFIX + s)[|BYTES_PREFIX|..] == s;
    assert s[..|s| - 1] == bound;
  }

  /** A spec that neither starts nor ends with `-` fails when `toInt` refuses
      either of its first two parts. */
  lemma LastNotANumber(s: string, contentLength: Int32)
    requires !StartsWith(s, BYTES_PREFIX) && s != "" && s[0] != '-' && s[|s| - 1] != '-'
    requires |Split(s, '-')| >= 2 && (ToInt(Split(s, '-')[0]).None? || ToInt(Split(s, '-')[1]).None?)
    ensures AsIntRange(Range(Some(s)), contentLength) == Err(NotANumber)
  {
    assert Spec(s) == s;
  }

  /** Replacing `..` leaves dot-free text and replaces the one separator. */
  lemma {:induction false} ReplaceDotsPrefix(a: string, t: string)
    requires '.' !in a
    ensures ReplaceDots(a + t) == a + ReplaceDots(t)
  {
    if a != [] {
      assert (a + t)[1..] == a[1..] + t;
      ReplaceDotsPrefix(a[1..], t);
      assert a == [a[0]] + a[1..];
    } else {
      assert a + t == t;
    }
  }

  lemma {:induction false} ReplaceDotsNone(a: string)
    requires '.' !in a
    ensures ReplaceDots(a) == a
  {
    if a != [] {
      ReplaceDotsNone(a[1..]);
      assert a == [a[0]] + a[1..];
    }
  }

  /** `IntRange.toString().replace("..", "-")` is `first-last`. */
  lemma IntervalDash(iv: Interval)
    ensures ReplaceDots(IntervalText(iv)) == IntToString(iv.first) + "-" + IntToString(iv.last)
  {
    var a, b := IntToString(iv.first), IntToString(iv.last);
    IntToStringChars(iv.first);
    IntToStringChars(iv.last);
    assert '.' !in a && '.' !in b;
    ReplaceDotsPrefix(a, ".." + b);
    assert (".." + b)[2..] == b;
    ReplaceDotsNone(b);
    assert IntervalText(iv) == a + (".." + b);
  }

  /** With a header and a valid spec, the response line is exactly
      `Content-Range: bytes <first>-<last>/<contentLength>` and a CRLF. */
  lemma ResponseHeaderFormat(range: Range, contentLength: Int32)
    requires range.rangeHeader.Some? && AsIntRange(range, contentLength).Ok?
    ensures var iv := AsIntRange(range, contentLength).value;
            AsResponseHeader(range, contentLength) ==
              Ok("Content-Range: bytes " + IntToString(iv.first) + "-" + IntToString(iv.last)
                 + "/" + IntToString(contentLength) + "\r\n")
  {
    var iv := AsIntRange(range, contentLength).value;
    assert AsResponseHeader(range, contentLength) == Ok(RangeLine(iv, contentLength));
    RangeLineFormat(iv, contentLength);
  }

  lemma RangeLineFormat(iv: Interval, contentLength: Int32)
    ensures RangeLine(iv, contentLength)
         == "Content-Range: bytes " + IntToString(iv.first) + "-" + IntToString(iv.last) + "/" + IntToString(contentLength) + "\r\n"
  {
    IntervalDash(iv);
    var a, b, n := IntToString(iv.first), IntToString(iv.last), IntToString(contentLength);
    assert "Content-Range: bytes " + (a + "-" + b) + "/" + n + "\r\n"
        == "Content-Range: bytes " + a + "-" + b + "/" + n + "\r\n";
  }
}
