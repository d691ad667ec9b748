/** The request header block (`common/Headers.kt`): lines are read one at a time
    until the first empty line, and each `Name: value` line is stored in a map
    under its trimmed name. The reader is given as the sequence of lines it
    would return. */
module HeaderFields {
  import opened Results
  import opened Text

  /** The parsed header map; lookup is exact-case. */
  datatype Headers = Headers(fields: map<string, string>) {
    /** `get(name)`: the stored value for exactly `name`, or null. */
    function Get(name: string): (r: Option<string>)
      ensures r.Some? <==> name in fields
      ensures r.Some? ==> r.value == fields[name]
    {
      if name in fields then Some(fields[name]) else None
    }
  }

  /** Why `toMap` throws: `readLine()` returned null before an empty line
      (a null dereference), or a non-empty line has no `:` (`it[1]` out of bounds). */
  datatype HeaderError = EndOfInput | MissingColon(line: nat)

  /** The parsed map and the number of lines consumed, the empty line included. */
  datatype Parsed = Parsed(headers: Headers, consumed: nat)

  /** A line that `toMap` stores: non-empty, with a `:`. */
  predicate IsField(line: string) {
    line != "" && ':' in line
  }

  /** The key `toMap` stores for a line: the trimmed text before the first `:`. */
  function FieldName(line: string): string {
    Trim(Split(line, ':')[0])
  }

  /** The value `toMap` stores for a line: the trimmed text between the first
      and the second `:`. */
  function FieldValue(line: string): string
    requires ':' in line
  {
    SplitHasSecondPart(line, ':');
    Trim(Split(line, ':')[1])
  }

  /** The `while (true)` loop of `toMap` from line `i` on, with `acc` the map
      filled so far. */
  function Scan(lines: seq<string>, i: nat, acc: map<string, string>): (r: Result<Parsed, HeaderError>)
    requires i <= |lines|
    ensures r.Ok? ==> i < r.value.consumed <= |lines| && lines[r.value.consumed - 1] == ""
                      && forall j :: i <= j < r.value.consumed - 1 ==> IsField(lines[j])
    ensures r == Err(EndOfInput) ==> forall j :: i <= j < |lines| ==> IsField(lines[j])
    ensures r.Err? && r.error.MissingColon? ==>
              var k := r.error.line;
              i <= k < |lines| && lines[k] != "" && ':' !in lines[k]
              && forall j :: i <= j < k ==> IsField(lines[j])
    decreases |lines| - i
  {
    if i == |lines| then Err(EndOfInput)
    else if lines[i] == "" then Ok(Parsed(Headers(acc), i + 1))
    else
      var parts := Split(lines[i], ':');
      SplitHasSecondPart(lines[i], ':');
      if |parts| < 2 then Err(MissingColon(i))
      else Scan(lines, i + 1, acc[Trim(parts[0]) := Trim(parts[1])])
  }

  /** What `toMap` returns for the lines the reader would deliver. */
  function ParseFields(lines: seq<string>): (r: Result<Parsed, HeaderError>)
    ensures r.Ok? ==> 0 < r.value.consumed <= |lines| && lines[r.value.consumed - 1] == ""
                      && forall j :: 0 <= j < r.value.consumed - 1 ==> IsField(lines[j])
  {
    Scan(lines, 0, map[])
  }

  /** `Headers.toMap`: the loop that reads lines and puts each field into a mutable map. */
  method ParseHeaders(lines: seq<string>) returns (r: Result<Parsed, HeaderError>)
    ensures r == ParseFields(lines)
  {
    var headers: map<string, string> := map[];
    var i := 0;
    while true
      invariant 0 <= i <= |lines|
      invariant Scan(lines, i, headers) == ParseFields(lines)
      decreases |lines| - i
    {
      if i == |lines| {
        return Err(EndOfInput);
      }
      var line := lines[i];
      if line == "" {
        return Ok(Parsed(Headers(headers), i + 1));
      }
      var parts := Split(line, ':');
      SplitHasSecondPart(line, ':');
      if |parts| < 2 {
        return Err(MissingColon(i));
      }
      headers := headers[Trim(parts[0]) := Trim(parts[1])];
      i := i + 1;
    }
  }

  /** Reference meaning of a run of field lines: each line puts its name and value
      into the map, so a later line with the same name overwrites an earlier one. */
  function FieldsOf(ls: seq<string>): map<string, string>
    requires forall j :: 0 <= j < |ls| ==> IsField(ls[j])
  {
    if ls == [] then map[]
    else
      var last := ls[|ls| - 1];
      assert IsField(last);
      FieldsOf(ls[..|ls| - 1])[FieldName(last) := FieldValue(last)]
  }

  /** A name is in the map exactly when some line carries it, and its value is
      the one from the last line that carries it. */
  lemma {:induction false} LastLineWins(ls: seq<string>, name: string, j: nat)
    requires forall k :: 0 <= k < |ls| ==> IsField(ls[k])
    requires j < |ls| && FieldName(ls[j]) == name
    requires forall k :: j < k < |ls| ==> FieldName(ls[k]) != name
    ensures name in FieldsOf(ls) && FieldsOf(ls)[name] == FieldValue(ls[j])
  {
    var init := ls[..|ls| - 1];
    assert forall k :: 0 <= k < |init| ==> init[k] == ls[k];
    assert FieldsOf(ls) == FieldsOf(init)[FieldName(ls[|ls| - 1]) := FieldValue(ls[|ls| - 1])];
    if j < |ls| - 1 {
      LastLineWins(init, name, j);
    }
  }

  /** A name no line carries is absent from the map. */
  lemma {:induction false} AbsentName(ls: seq<string>, name: string)
    requires forall k :: 0 <= k < |ls| ==> IsField(ls[k])
    requires forall k :: 0 <= k < |ls| ==> FieldName(ls[k]) != name
    ensures name !in FieldsOf(ls)
  {
    if ls != [] {
      var init := ls[..|ls| - 1];
      assert forall k :: 0 <= k < |init| ==> init[k] == ls[k];
      AbsentName(init, name);
    }
  }

  /** From line `i` to the first empty line at `k`, the loop folds the field lines into the map. */
  lemma {:induction false} ScanFolds(lines: seq<string>, i: nat, k: nat)
    requires i <= k < |lines| && lines[k] == ""
    requires forall j :: 0 <= j < k ==> IsField(lines[j])
    ensures Scan(lines, i, FieldsOf(lines[..i])) == Ok(Parsed(Headers(FieldsOf(lines[..k])), k + 1))
    decreases k - i
  {
    if i < k {
      var line := lines[i];
      assert IsField(line);
      SplitHasSecondPart(line, ':');
      var acc := FieldsOf(lines[..i]);
      var next := acc[FieldName(line) := FieldValue(line)];
      assert lines[..i + 1][..i] == lines[..i];
      assert FieldsOf(lines[..i + 1]) == next;
      assert Scan(lines, i, acc) == Scan(lines, i + 1, next);
      ScanFolds(lines, i + 1, k);
    }
  }

  /** Parsing stops at the first empty line: it consumes exactly the lines up to
      and including it, the lines after it do not matter, and the map is the
      reference meaning of the field lines before it. */
  lemma ParseStopsAtFirstEmpty(lines: seq<string>, k: nat)
    requires k < |lines| && lines[k] == ""
    requires forall j :: 0 <= j < k ==> IsField(lines[j])
    ensures ParseFields(lines) == Ok(Parsed(Headers(FieldsOf(lines[..k])), k + 1))
  {
    assert lines[..0] == [];
    ScanFolds(lines, 0, k);
  }

  /** The first non-empty line without a `:` before any empty line makes parsing fail. */
  lemma ParseFailsWithoutColon(lines: seq<string>, k: nat)
    requires k < |lines| && lines[k] != "" && ':' !in lines[k]
    requires forall j :: 0 <= j < k ==> IsField(lines[j])
    ensures ParseFields(lines) == Err(MissingColon(k))
  {
  }

  /** Input that ends before any empty line makes parsing fail. */
  lemma ParseFailsAtEndOfInput(lines: seq<string>)
    requires forall j :: 0 <= j < |lines| ==> IsField(lines[j])
    ensures ParseFields(lines) == Err(EndOfInput)
  {
  }

  /** After a successful parse, `get(name)` gives the value of the last field line
      whose trimmed name is exactly `name`. */
  lemma ParsedLookup(lines: seq<string>, k: nat, name: string, j: nat)
    requires k < |lines| && lines[k] == ""
    requires forall i :: 0 <= i < k ==> IsField(lines[i])
    requires j < k && FieldName(lines[j]) == name
    requires forall i :: j < i < k ==> FieldName(lines[i]) != name
    ensures ParseFields(lines).Ok?
    ensures IsField(lines[j]) && ParseFields(lines).value.headers.Get(name) == Some(FieldValue(lines[j]))
  {
    ParseStopsAtFirstEmpty(lines, k);
    LastLineWins(lines[..k], name, j);
  }

  /** After a successful parse, `get(name)` is null when no field line has exactly that name. */
  lemma ParsedLookupAbsent(lines: seq<string>, k: nat, name: string)
    requires k < |lines| && lines[k] == ""
    requires forall i :: 0 <= i < k ==> IsField(lines[i])
    requires forall i :: 0 <= i < k ==> FieldName(lines[i]) != name
    ensures ParseFields(lines).Ok? && ParseFields(lines).value.headers.Get(name) == None
  {
    ParseStopsAtFirstEmpty(lines, k);
    AbsentName(lines[..k], name);
  }

  /** The name is the text before the first colon and the value stops at the
      second one, so `Host: example.org:8080` is stored as `Host` mapped to
      `example.org`. */
  lemma HostWithPort(name: string, host: string, port: string)
    requires name != [] && ':' !in name && !IsWhitespace(name[0]) && !IsWhitespace(name[|name| - 1])
    requires host != [] && ':' !in host && !IsWhitespace(host[0]) && !IsWhitespace(host[|host| - 1])
    ensures ParseFields([name + ": " + host + ":" + port, ""]) == Ok(Parsed(Headers(map[name := host]), 2))
  {
    var line := name + ": " + host + ":" + port;
    HostLineParts(name, host, port);
    var lines := [line, ""];
    ParseStopsAtFirstEmpty(lines, 1);
    assert lines[..1] == [line];
    assert [line][..0] == [];
    assert FieldsOf([line]) == map[][FieldName(line) := FieldValue(line)];
  }

  lemma HostLineParts(name: string, host: string, port: string)
    requires name != [] && ':' !in name && !IsWhitespace(name[0]) && !IsWhitespace(name[|name| - 1])
    requires host != [] && ':' !in host && !IsWhitespace(host[0]) && !IsWhitespace(host[|host| - 1])
    ensures var line := name + ": " + host + ":" + port;
            IsField(line) && FieldName(line) == name && FieldValue(line) == host
  {
    var line := name + ": " + host + ":" + port;
    assert line == name + [':'] + ((" " + host) + [':'] + port);
    SplitCons(name, (" " + host) + [':'] + port, ':');
    assert ':' !in " " + host;
    SplitCons(" " + host, port, ':');
    assert line[|name|] == ':';
    TrimNoOp(name);
    TrimAfterBlank(" ", host);
    TrimNoOp(host);
  }
}
