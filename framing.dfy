/** Reading serialised HTTP/1.1 heads back: CRLF-terminated lines, the status
    code token of a status line, and `Name: value` field lines as the header
    parser sees them. The three response serialisers are proved against these. */
module Framing {
  import opened Results
  import opened Text
  import opened Numbers
  import opened HeaderFields

  /** Lines each followed by CRLF. */
  function Crlf(ls: seq<string>): string {
    if ls == [] then "" else ls[0] + "\r\n" + Crlf(ls[1..])
  }

  /** CRLF-terminated lines without breaks of their own come back from `lines()`. */
  lemma {:induction false} LinesOfCrlf(ls: seq<string>, rest: string)
    requires forall k :: 0 <= k < |ls| ==> NoLineBreak(ls[k])
    ensures Lines(Crlf(ls) + rest) == ls + Lines(rest)
  {
    if ls != [] {
      LinesOfCrlf(ls[1..], rest);
      assert Crlf(ls) + rest == ls[0] + "\r\n" + (Crlf(ls[1..]) + rest);
      LinesCons(ls[0], "\r\n", Crlf(ls[1..]) + rest);
      assert ls == [ls[0]] + ls[1..];
    } else {
      assert Crlf(ls) + rest == rest;
    }
  }

  /** The status code read back from a status line: its second space-separated
      token, as an `Int`. */
  function StatusCodeOf(line: string): Option<Int32> {
    var tokens := Split(line, ' ');
    if |tokens| < 2 then None else ToInt(tokens[1])
  }

  lemma IntTextHasNoSpace(x: int)
    ensures ' ' !in IntToString(x) && ':' !in IntToString(x) && NoLineBreak(IntToString(x))
    ensures !IsWhitespace(IntToString(x)[0]) && !IsWhitespace(IntToString(x)[|IntToString(x)| - 1])
  {
    IntToStringChars(x);
  }

  /** A status line `HTTP/1.1 <code> <reason>` gives its code back. */
  lemma StatusLineRoundTrip(code: Int32, reason: string)
    ensures StatusCodeOf("HTTP/1.1 " + IntToString(code) + " " + reason) == Some(code)
  {
    var c := IntToString(code);
    IntTextHasNoSpace(code);
    assert "HTTP/1.1 " + c + " " + reason == "HTTP/1.1" + [' '] + (c + [' '] + reason);
    SplitCons("HTTP/1.1", c + [' '] + reason, ' ');
    SplitCons(c, reason, ' ');
    ToIntOfIntToString(code);
  }

  /** A field line `name: value` is stored under `name` with `value`, provided
      neither holds a colon and neither has whitespace at its ends. */
  lemma FieldLineParts(name: string, value: string)
    requires name != [] && ':' !in name && !IsWhitespace(name[0]) && !IsWhitespace(name[|name| - 1])
    requires ':' !in value && (value != [] ==> !IsWhitespace(value[0]) && !IsWhitespace(value[|value| - 1]))
    ensures IsField(name + ": " + value)
    ensures FieldName(name + ": " + value) == name && FieldValue(name + ": " + value) == value
  {
    var line := name + ": " + value;
    assert line == name + [':'] + (" " + value);
    assert line[|name|] == ':';
    SplitCons(name, " " + value, ':');
    SplitNone(" " + value, ':');
    TrimNoOp(name);
    TrimAfterBlank(" ", value);
    TrimNoOp(value);
  }

  /** Text that can stand as a field value and is read back as it is: no colon,
      no line break, and no whitespace at its ends. */
  predicate PlainValue(v: string) {
    ':' !in v && NoLineBreak(v) && (v != [] ==> !IsWhitespace(v[0]) && !IsWhitespace(v[|v| - 1]))
  }

  lemma {:induction false} CrlfAppend(a: seq<string>, b: seq<string>)
    ensures Crlf(a + b) == Crlf(a) + Crlf(b)
  {
    if a != [] {
      assert (a + b)[1..] == a[1..] + b;
      CrlfAppend(a[1..], b);
    } else {
      assert a + b == b;
    }
  }

  /** Field lines, an empty line, and anything after it: the parse stops at the
      empty line with the reference meaning of the field lines. */
  lemma FieldBlock(fields: seq<string>, rest: seq<string>)
    requires forall j :: 0 <= j < |fields| ==> IsField(fields[j])
    ensures ParseFields(fields + [""] + rest) == Ok(Parsed(Headers(FieldsOf(fields)), |fields| + 1))
  {
    var ls := fields + [""] + rest;
    assert ls[..|fields|] == fields;
    assert forall j :: 0 <= j < |fields| ==> ls[j] == fields[j];
    ParseStopsAtFirstEmpty(ls, |fields|);
  }

  /** One more field line puts its name and value into the map. */
  lemma FieldsOfSnoc(fields: seq<string>, line: string)
    requires forall j :: 0 <= j < |fields| ==> IsField(fields[j])
    requires IsField(line)
    ensures FieldsOf(fields + [line]) == FieldsOf(fields)[FieldName(line) := FieldValue(line)]
  {
    assert (fields + [line])[..|fields|] == fields;
  }

  /** `name: value`, as the serialisers write a field. */
  function FieldLine(name: string, value: string): string {
    name + ": " + value
  }

  /** A field line of plain name and value is stored as that name and value. */
  lemma PlainFieldLine(name: string, value: string)
    requires name != [] && PlainValue(name) && PlainValue(value)
    ensures IsField(FieldLine(name, value)) && NoLineBreak(FieldLine(name, value))
    ensures FieldName(FieldLine(name, value)) == name && FieldValue(FieldLine(name, value)) == value
  {
    FieldLineParts(name, value);
    var l := FieldLine(name, value);
    assert l == name + ": " + value;
    forall i | 0 <= i < |l| ensures !IsLineBreak(l[i]) {
      if i < |name| { assert l[i] == name[i]; }
      else if i >= |name| + 2 { assert l[i] == value[i - |name| - 2]; }
    }
  }

  /** Two plain field lines and an empty line parse to the two fields. */
  lemma TwoFields(n1: string, v1: string, n2: string, v2: string, rest: seq<string>)
    requires n1 != [] && PlainValue(n1) && PlainValue(v1)
    requires n2 != [] && PlainValue(n2) && PlainValue(v2)
    ensures ParseFields([FieldLine(n1, v1), FieldLine(n2, v2)] + [""] + rest)
            == Ok(Parsed(Headers(map[n1 := v1, n2 := v2]), 3))
  {
    var a, b := FieldLine(n1, v1), FieldLine(n2, v2);
    PlainFieldLine(n1, v1);
    PlainFieldLine(n2, v2);
    FieldBlock([a, b], rest);
    FieldsOfSnoc([a], b);
    FieldsOfSnoc([], a);
    assert [] + [a] == [a];
    assert [a] + [b] == [a, b];
  }

  /** One more plain field line puts its name and value into the map. */
  lemma FieldsOfPlainSnoc(fields: seq<string>, name: string, value: string)
    requires forall j :: 0 <= j < |fields| ==> IsField(fields[j])
    requires name != [] && PlainValue(name) && PlainValue(value)
    ensures forall j :: 0 <= j < |fields + [FieldLine(name, value)]| ==> IsField((fields + [FieldLine(name, value)])[j])
    ensures FieldsOf(fields + [FieldLine(name, value)]) == FieldsOf(fields)[name := value]
  {
    PlainFieldLine(name, value);
    FieldsOfSnoc(fields, FieldLine(name, value));
  }

  /** A header field as a serialiser writes it: a name and a value. */
  datatype Field = Field(name: string, value: string)

  predicate PlainField(f: Field) {
    f.name != [] && PlainValue(f.name) && PlainValue(f.value)
  }

  /** The fields written one `name: value` line each, in order. */
  function FieldLines(fs: seq<Field>): seq<string> {
    seq(|fs|, k requires 0 <= k < |fs| => FieldLine(fs[k].name, fs[k].value))
  }

  /** The fields collected into a map, a later field replacing an earlier one
      of the same name. */
  function FieldMap(fs: seq<Field>): map<string, string> {
    if fs == [] then map[] else FieldMap(fs[..|fs| - 1])[fs[|fs| - 1].name := fs[|fs| - 1].value]
  }

  /** Plain fields written as lines give field lines without line breaks, and
      the header parse of those lines stores exactly the fields' map. */
  lemma {:induction false} PlainFieldLines(fs: seq<Field>)
    requires forall k :: 0 <= k < |fs| ==> PlainField(fs[k])
    ensures forall k :: 0 <= k < |fs| ==> IsField(FieldLines(fs)[k]) && NoLineBreak(FieldLines(fs)[k])
    ensures FieldsOf(FieldLines(fs)) == FieldMap(fs)
  {
    if fs != [] {
      var init, last := fs[..|fs| - 1], fs[|fs| - 1];
      PlainFieldLines(init);
      assert FieldLines(fs) == FieldLines(init) + [FieldLine(last.name, last.value)];
      FieldsOfPlainSnoc(FieldLines(init), last.name, last.value);
      PlainFieldLine(last.name, last.value);
      PlainLinesSnoc(FieldLines(init), FieldLine(last.name, last.value));
    }
  }

  lemma PlainLinesSnoc(ls: seq<string>, l: string)
    requires forall k :: 0 <= k < |ls| ==> IsField(ls[k]) && NoLineBreak(ls[k])
    requires IsField(l) && NoLineBreak(l)
    ensures forall k :: 0 <= k < |ls + [l]| ==> IsField((ls + [l])[k]) && NoLineBreak((ls + [l])[k])
  {
    forall k | 0 <= k < |ls + [l]| ensures IsField((ls + [l])[k]) && NoLineBreak((ls + [l])[k]) {
      if k < |ls| { assert (ls + [l])[k] == ls[k]; }
    }
  }

  /** A head written as a status line, field lines and the empty line, each
      followed by CRLF, reads back as those lines and one more empty line. */
  lemma CrlfOne(line: string)
    ensures Crlf([line]) == line + "\r\n"
  {
    assert [line][1..] == [];
  }

  lemma HeadReadsBack(statusLine: string, fields: seq<string>)
    requires NoLineBreak(statusLine) && forall k :: 0 <= k < |fields| ==> NoLineBreak(fields[k])
    ensures Lines(Crlf([statusLine] + fields + [""])) == [statusLine] + (fields + ["", ""])
  {
    CrlfFrame(statusLine, fields);
    FieldsThenEol(fields);
    LinesCons(statusLine, "\r\n", Crlf(fields) + "\r\n");
  }

  lemma CrlfFrame(statusLine: string, fields: seq<string>)
    ensures Crlf([statusLine] + fields + [""]) == statusLine + "\r\n" + (Crlf(fields) + "\r\n")
  {
    assert [statusLine] + fields + [""] == [statusLine] + (fields + [""]);
    CrlfAppend([statusLine], fields + [""]);
    CrlfAppend(fields, [""]);
    CrlfOne("");
    CrlfOne(statusLine);
  }

  lemma FieldsThenEol(fields: seq<string>)
    requires forall k :: 0 <= k < |fields| ==> NoLineBreak(fields[k])
    ensures Lines(Crlf(fields) + "\r\n") == fields + ["", ""]
  {
    LinesOfCrlf(fields, "\r\n");
    LinesOfEol();
  }

  lemma LinesOfEol()
    ensures Lines("\r\n") == ["", ""]
  {
  }

  /** Field names written by more than one serialiser. */
  const CONTENT_LENGTH: string := "Content-Length"
  const ACCEPT: string := "Accept"

  lemma SharedNamesPlain()
    ensures CONTENT_LENGTH != [] && PlainValue(CONTENT_LENGTH) && ACCEPT != [] && PlainValue(ACCEPT)
    ensures PlainValue("GET")
  {
  }

  /** One plain field line and an empty line parse to that one field, whatever
      follows. */
  lemma OneField(name: string, value: string, rest: seq<string>)
    requires name != [] && PlainValue(name) && PlainValue(value)
    ensures ParseFields([FieldLine(name, value), ""] + rest) == Ok(Parsed(Headers(map[name := value]), 2))
  {
    var h := FieldLine(name, value);
    PlainFieldLine(name, value);
    FieldBlock([h], rest);
    FieldsOfSnoc([], h);
    assert [] + [h] == [h];
    assert [h] + [""] + rest == [h, ""] + rest;
  }

  /** A status line holds no line break when its reason phrase holds none. */
  lemma StatusLinePlain(code: Int32, reason: string)
    requires NoLineBreak(reason)
    ensures NoLineBreak("HTTP/1.1 " + IntToString(code) + " " + reason)
  {
    IntTextHasNoSpace(code);
    var prefix := "HTTP/1.1 ";
    assert NoLineBreak(prefix) && NoLineBreak(" ");
    NoLineBreakConcat(prefix, IntToString(code));
    NoLineBreakConcat(prefix + IntToString(code), " ");
    NoLineBreakConcat(prefix + IntToString(code) + " ", reason);
  }

  /** A head of a status line `HTTP/1.1 <code> <reason>`, field lines and the
      empty line reads back as the code and whatever the field lines parse to. */
  lemma StatusHeadBack(code: Int32, reason: string, fields: seq<string>, parsed: Parsed)
    requires NoLineBreak(reason) && forall k :: 0 <= k < |fields| ==> NoLineBreak(fields[k])
    requires ParseFields(fields + [""] + [""]) == Ok(parsed)
    ensures var ls := Lines(Crlf(["HTTP/1.1 " + IntToString(code) + " " + reason] + fields + [""]));
            && |ls| == |fields| + 3 && StatusCodeOf(ls[0]) == Some(code) && ParseFields(ls[1..]) == Ok(parsed)
  {
    var sl := "HTTP/1.1 " + IntToString(code) + " " + reason;
    StatusLinePlain(code, reason);
    HeadReadsBack(sl, fields);
    StatusLineRoundTrip(code, reason);
    assert fields + ["", ""] == fields + [""] + [""];
  }
}
