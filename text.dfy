/** The pieces of the Kotlin string library that the server relies on, over Dafny
    strings (sequences of Unicode scalar values): `isWhitespace`, `isBlank`, `trim`,
    `split` on a one-character delimiter, `contains`, `startsWith`, `endsWith`,
    `uppercase`, `lines`, `joinToString` and `trimMargin`. */
module Text {
  import opened Results

  /** Kotlin's `Char.isWhitespace()` on the JVM: the Unicode space, line and
      paragraph separators together with the ISO control characters
      U+0009..U+000D and U+001C..U+001F. */
  predicate IsWhitespace(c: char) {
    || c == ' ' || c == '\t' || c == '\n' || c == '\r'
    || c == '\U{000B}' || c == '\U{000C}'
    || ('\U{001C}' <= c <= '\U{001F}')
    || c == '\U{00A0}' || c == '\U{1680}'
    || ('\U{2000}' <= c <= '\U{200A}')
    || c == '\U{2028}' || c == '\U{2029}' || c == '\U{202F}' || c == '\U{205F}' || c == '\U{3000}'
  }

  /** Kotlin's `isBlank()`: empty or whitespace only. */
  predicate IsBlank(s: string) {
    forall i :: 0 <= i < |s| ==> IsWhitespace(s[i])
  }

  /** Drops the leading whitespace. */
  function TrimStart(s: string): (r: string)
    ensures |r| <= |s|
  {
    if s != [] && IsWhitespace(s[0]) then TrimStart(s[1..]) else s
  }

  /** Drops the trailing whitespace. */
  function TrimEnd(s: string): (r: string)
    ensures |r| <= |s|
  {
    if s != [] && IsWhitespace(s[|s| - 1]) then TrimEnd(s[..|s| - 1]) else s
  }

  /** Kotlin's `trim()`: whitespace removed from both ends. */
  function Trim(s: string): (r: string)
    ensures |r| <= |s|
  {
    TrimEnd(TrimStart(s))
  }

  /** `TrimStart` removes a blank prefix and stops at a non-whitespace character. */
  lemma {:induction false} TrimStartSpec(s: string)
    ensures var r := TrimStart(s);
            r == s[|s| - |r|..] && IsBlank(s[..|s| - |r|]) && (r != [] ==> !IsWhitespace(r[0]))
  {
    if s != [] && IsWhitespace(s[0]) {
      TrimStartSpec(s[1..]);
      var r := TrimStart(s);
      assert s[..|s| - |r|] == [s[0]] + s[1..][..|s| - 1 - |r|];
    }
  }

  /** `TrimEnd` removes a blank suffix and stops at a non-whitespace character. */
  lemma {:induction false} TrimEndSpec(s: string)
    ensures var r := TrimEnd(s);
            r == s[..|r|] && IsBlank(s[|r|..]) && (r != [] ==> !IsWhitespace(r[|r| - 1]))
  {
    if s != [] && IsWhitespace(s[|s| - 1]) {
      var init := s[..|s| - 1];
      TrimEndSpec(init);
      var r := TrimEnd(s);
      assert s[|r|..] == init[|r|..] + [s[|s| - 1]];
    }
  }

  /** The trim is the infix of `s` between a blank prefix and a blank suffix, and
      neither of its ends is whitespace. */
  lemma TrimSpec(s: string)
    ensures var r := Trim(s);
            && (exists i :: 0 <= i <= |s| - |r| && r == s[i..i + |r|]
                            && IsBlank(s[..i]) && IsBlank(s[i + |r|..]))
            && (r != [] ==> !IsWhitespace(r[0]) && !IsWhitespace(r[|r| - 1]))
  {
    var t := TrimStart(s);
    TrimStartSpec(s);
    TrimEndSpec(t);
    var r := TrimEnd(t);
    var i := |s| - |t|;
    assert r == s[i..i + |r|];
    assert s[i + |r|..] == t[|r|..];
  }

  /** A string whose ends are not whitespace is its own trim. */
  lemma TrimNoOp(s: string)
    requires s != [] ==> !IsWhitespace(s[0]) && !IsWhitespace(s[|s| - 1])
    ensures Trim(s) == s
  {
    if s != [] {
      assert TrimStart(s) == s;
    }
  }

  /** Leading blanks do not change the trim. */
  lemma TrimAfterBlank(w: string, s: string)
    requires IsBlank(w)
    ensures Trim(w + s) == Trim(s)
  {
    TrimStartAfterBlank(w, s);
  }

  lemma {:induction false} TrimStartAfterBlank(w: string, s: string)
    requires IsBlank(w)
    ensures TrimStart(w + s) == TrimStart(s)
  {
    if w != [] {
      assert (w + s)[1..] == w[1..] + s;
      TrimStartAfterBlank(w[1..], s);
    } else {
      assert w + s == s;
    }
  }

  /** The trim is empty exactly when the string is blank. */
  lemma TrimEmptyIffBlank(s: string)
    ensures Trim(s) == [] <==> IsBlank(s)
  {
    TrimSpec(s);
    if Trim(s) == [] {
      var i :| 0 <= i <= |s| && IsBlank(s[..i]) && IsBlank(s[i..]);
      forall k | 0 <= k < |s| ensures IsWhitespace(s[k]) {
        if k < i { assert s[..i][k] == s[k]; } else { assert s[i..][k - i] == s[k]; }
      }
    }
  }

  /** Kotlin's `joinToString(separator)`. */
  function Join(parts: seq<string>, sep: string): string
  {
    if |parts| == 0 then ""
    else if |parts| == 1 then parts[0]
    else parts[0] + sep + Join(parts[1..], sep)
  }

  /** Kotlin's `split(d)` for a one-character delimiter: the parts between the
      occurrences of `d`, empty parts included. */
  function Split(s: string, d: char): (r: seq<string>)
    ensures |r| >= 1
    ensures forall k :: 0 <= k < |r| ==> d !in r[k]
  {
    if s == [] then [""]
    else
      var rest := Split(s[1..], d);
      if s[0] == d then [""] + rest
      else
        assert forall k :: 1 <= k < |rest| ==> rest[k] == rest[1..][k - 1];
        [[s[0]] + rest[0]] + rest[1..]
  }

  /** The parts joined back with the delimiter give the string; with the parts
      holding no delimiter, this determines the split. */
  lemma {:induction false} SplitJoin(s: string, d: char)
    ensures Join(Split(s, d), [d]) == s
  {
    if s != [] {
      SplitJoin(s[1..], d);
      var rest := Split(s[1..], d);
      if s[0] == d {
        assert s == [d] + s[1..];
      } else {
        assert |rest| > 1 ==> Join(rest, [d]) == rest[0] + [d] + Join(rest[1..], [d]);
        assert s == [s[0]] + s[1..];
      }
    }
  }

  /** Splitting at the first delimiter peels off the part before it. */
  lemma {:induction false} SplitCons(a: string, b: string, d: char)
    requires d !in a
    ensures Split(a + [d] + b, d) == [a] + Split(b, d)
  {
    if a != [] {
      assert (a + [d] + b)[1..] == a[1..] + [d] + b;
      SplitCons(a[1..], b, d);
      assert [a[0]] + a[1..] == a;
    } else {
      assert (a + [d] + b)[1..] == b;
    }
  }

  /** A string without the delimiter splits into itself. */
  lemma {:induction false} SplitNone(a: string, d: char)
    requires d !in a
    ensures Split(a, d) == [a]
  {
    if a != [] {
      SplitNone(a[1..], d);
      assert a == [a[0]] + a[1..];
    }
  }

  /** There is a second part exactly when the delimiter occurs. */
  lemma {:induction false} SplitHasSecondPart(s: string, d: char)
    ensures |Split(s, d)| >= 2 <==> d in s
  {
    if s != [] {
      SplitHasSecondPart(s[1..], d);
      assert d in s <==> s[0] == d || d in s[1..];
    }
  }

  /** Splitting yields one part more than there are delimiters. */
  lemma {:induction false} SplitCount(s: string, d: char)
    ensures |Split(s, d)| == multiset(s)[d] + 1
  {
    if s != [] {
      SplitCount(s[1..], d);
      assert s == [s[0]] + s[1..];
      assert multiset(s) == multiset([s[0]]) + multiset(s[1..]);
    }
  }

  /** `p` occurs in `s` starting at index `i`. */
  predicate OccursAt(s: string, p: string, i: nat) {
    i + |p| <= |s| && s[i..i + |p|] == p
  }

  /** Kotlin's `contains(p)`: `p` occurs somewhere in `s`. */
  function Contains(s: string, p: string): (r: bool)
    ensures r <==> exists i: nat :: OccursAt(s, p, i)
    decreases |s|
  {
    if |s| < |p| then false
    else if s[..|p|] == p then
      assert OccursAt(s, p, 0);
      true
    else if s == [] then false
    else
      var r := Contains(s[1..], p);
      assert forall i: nat :: OccursAt(s[1..], p, i) <==> OccursAt(s, p, i + 1) by {
        forall i: nat ensures OccursAt(s[1..], p, i) <==> OccursAt(s, p, i + 1) {
          if i + |p| <= |s| - 1 { assert s[1..][i..i + |p|] == s[i + 1..i + 1 + |p|]; }
        }
      }
      assert r ==> exists i: nat :: OccursAt(s, p, i) by {
        if r { var i: nat :| OccursAt(s[1..], p, i); assert OccursAt(s, p, i + 1); }
      }
      assert (exists i: nat :: OccursAt(s, p, i)) ==> r by {
        if exists i: nat :: OccursAt(s, p, i) {
          var i: nat :| OccursAt(s, p, i);
          assert i != 0;
          assert OccursAt(s[1..], p, i - 1);
        }
      }
      r
  }

  /** A one-character pattern occurs exactly when the character is in the string. */
  lemma ContainsChar(s: string, c: char)
    ensures Contains(s, [c]) <==> c in s
  {
    if c in s {
      var i :| 0 <= i < |s| && s[i] == c;
      assert s[i..i + 1] == [c];
      assert OccursAt(s, [c], i);
    }
    if Contains(s, [c]) {
      var i: nat :| OccursAt(s, [c], i);
      assert s[i] == s[i..i + 1][0];
    }
  }

  /** Kotlin's `startsWith(p)`. */
  predicate StartsWith(s: string, p: string) {
    |p| <= |s| && s[..|p|] == p
  }

  /** Kotlin's `endsWith(p)`. */
  predicate EndsWith(s: string, p: string) {
    |p| <= |s| && s[|s| - |p|..] == p
  }

  /** Kotlin's `removePrefix(p)`. */
  function RemovePrefix(s: string, p: string): (r: string)
    ensures StartsWith(s, p) ==> s == p + r
    ensures !StartsWith(s, p) ==> r == s
  {
    if StartsWith(s, p) then s[|p|..] else s
  }

  /** Upper case of an ASCII letter; every other character is unchanged. */
  function UpperChar(c: char): char {
    if 'a' <= c <= 'z' then (c as int - 'a' as int + 'A' as int) as char else c
  }

  /** Kotlin's `uppercase()`, restricted to ASCII letters. */
  function Upper(s: string): (r: string)
    ensures |r| == |s|
    ensures forall i :: 0 <= i < |s| ==> r[i] == UpperChar(s[i])
  {
    seq(|s|, i requires 0 <= i < |s| => UpperChar(s[i]))
  }

  /** Upper-casing works character by character, so it commutes with slicing. */
  lemma UpperSlice(s: string, i: nat, j: nat)
    requires i <= j <= |s|
    ensures Upper(s)[i..j] == Upper(s[i..j])
  {
  }

  /** The characters at which Kotlin's `lines()` breaks a string. */
  predicate IsLineBreak(c: char) {
    c == '\n' || c == '\r'
  }

  predicate NoLineBreak(s: string) {
    forall i :: 0 <= i < |s| ==> !IsLineBreak(s[i])
  }

  /** Two texts without line breaks join into one. */
  lemma NoLineBreakConcat(a: string, b: string)
    requires NoLineBreak(a) && NoLineBreak(b)
    ensures NoLineBreak(a + b)
  {
    forall i | 0 <= i < |a + b| ensures !IsLineBreak((a + b)[i]) {
      if i >= |a| { assert (a + b)[i] == b[i - |a|]; }
    }
  }

  /** Kotlin's `lines()`: splits at CRLF, LF and CR; a final terminator leaves a
      final empty line, so there is always at least one line. */
  function Lines(s: string): (r: seq<string>)
    ensures |r| >= 1
    ensures forall k :: 0 <= k < |r| ==> NoLineBreak(r[k])
  {
    if s == [] then [""]
    else if s[0] == '\n' then [""] + Lines(s[1..])
    else if s[0] == '\r' then
      if |s| > 1 && s[1] == '\n' then [""] + Lines(s[2..]) else [""] + Lines(s[1..])
    else
      var rest := Lines(s[1..]);
      [[s[0]] + rest[0]] + rest[1..]
  }

  /** A line without a break is one line. */
  lemma {:induction false} LinesSingle(a: string)
    requires NoLineBreak(a)
    ensures Lines(a) == [a]
  {
    if a != [] {
      LinesSingle(a[1..]);
      assert a == [a[0]] + a[1..];
    }
  }

  /** A line ended by `term` (LF or CRLF) comes off the front as one line. */
  lemma {:induction false} LinesCons(a: string, term: string, b: string)
    requires NoLineBreak(a)
    requires term == "\n" || term == "\r\n"
    ensures Lines(a + term + b) == [a] + Lines(b)
  {
    if a != [] {
      assert (a + term + b)[1..] == a[1..] + term + b;
      LinesCons(a[1..], term, b);
      assert [a[0]] + a[1..] == a;
    } else {
      assert a + term + b == term + b;
      if term == "\r\n" { assert (term + b)[2..] == b; } else { assert (term + b)[1..] == b; }
    }
  }

  /** The index of the first non-whitespace character (Kotlin's
      `indexOfFirst { !it.isWhitespace() }`), or `None` for a blank string. */
  function FirstNonWhitespace(s: string): (r: Option<nat>)
    ensures r.None? <==> IsBlank(s)
    ensures r.Some? ==> r.value < |s| && !IsWhitespace(s[r.value]) && IsBlank(s[..r.value])
  {
    if s == [] then None
    else if !IsWhitespace(s[0]) then Some(0)
    else match FirstNonWhitespace(s[1..])
      case None => None
      case Some(k) =>
        assert s[..k + 1] == [s[0]] + s[1..][..k];
        Some(k + 1)
  }

  /** The margin cut of `trimMargin("|")` for one line: the text after the
      `|` that follows the leading whitespace, or `None` when there is no such `|`. */
  function CutMargin(line: string): Option<string>
  {
    match FirstNonWhitespace(line)
    case None => None
    case Some(k) => if StartsWith(line[k..], "|") then Some(line[k + 1..]) else None
  }

  /** The lines `trimMargin` keeps from index `i` on: a blank first or last line
      is dropped, every other line keeps the text after its margin, and a line
      without a margin stays as it is. */
  function KeptLines(ls: seq<string>, i: nat): seq<string>
    requires i <= |ls|
    decreases |ls| - i
  {
    if i == |ls| then []
    else
      var line := ls[i];
      (if (i == 0 || i == |ls| - 1) && IsBlank(line) then [] else [CutMargin(line).GetOr(line)])
        + KeptLines(ls, i + 1)
  }

  /** Kotlin's `trimMargin("|")`. */
  function TrimMargin(s: string): string
  {
    Join(KeptLines(Lines(s), 0), "\n")
  }

  /** Lexicographic order of code points, which is the order of the UTF-8 bytes
      that Unix paths compare by. */
  predicate LexLe(a: string, b: string)
  {
    if a == [] then true
    else if b == [] then false
    else if a[0] != b[0] then a[0] < b[0]
    else LexLe(a[1..], b[1..])
  }

  lemma {:induction false} LexTotal(a: string, b: string)
    ensures LexLe(a, b) || LexLe(b, a)
  {
    if a != [] && b != [] && a[0] == b[0] { LexTotal(a[1..], b[1..]); }
  }

  lemma {:induction false} LexTransitive(a: string, b: string, c: string)
    requires LexLe(a, b) && LexLe(b, c)
    ensures LexLe(a, c)
  {
    if a != [] && b != [] && c != [] && a[0] == b[0] && b[0] == c[0] {
      LexTransitive(a[1..], b[1..], c[1..]);
    }
  }
}
