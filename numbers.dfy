/** Kotlin `Int` arithmetic and the conversions between `Int` and decimal text
    that the server uses: `Int.dec()`, `Int.toString()` and `String.toInt()`. */
module Numbers {
  import opened Results

  const INT_MIN: int := -0x8000_0000
  const INT_MAX: int := 0x7FFF_FFFF

  /** Kotlin's 32-bit `Int`. */
  type Int32 = x: int | -0x8000_0000 <= x <= 0x7FFF_FFFF

  /** Kotlin's `Int.dec()`, which wraps around at the smallest `Int`. */
  function Dec(x: Int32): (r: Int32)
    ensures x > INT_MIN ==> r == x - 1
    ensures x == INT_MIN ==> r == INT_MAX
  {
    if x == INT_MIN then INT_MAX else x - 1
  }

  predicate IsDigit(c: char) {
    '0' <= c <= '9'
  }

  predicate AllDigits(s: string) {
    forall i :: 0 <= i < |s| ==> IsDigit(s[i])
  }

  function DigitChar(d: nat): (c: char)
    requires d < 10
    ensures IsDigit(c) && c as int - '0' as int == d
  {
    ('0' as int + d) as char
  }

  /** The value of a string of decimal digits, read most significant digit first. */
  function DigitsValue(s: string): nat
    requires AllDigits(s)
  {
    if s == [] then 0
    else DigitsValue(s[..|s| - 1]) * 10 + (s[|s| - 1] as int - '0' as int)
  }

  /** Decimal digits of a natural number, without leading zeros. */
  function NatToString(n: nat): (r: string)
    ensures r != [] && AllDigits(r)
  {
    if n < 10 then [DigitChar(n)] else NatToString(n / 10) + [DigitChar(n % 10)]
  }

  /** Kotlin's `Int.toString()`: a minus sign for negative values, then the digits. */
  function IntToString(x: int): (r: string)
  {
    if x < 0 then "-" + NatToString(-x) else NatToString(x)
  }

  /** Kotlin's `String.toInt()`: an optional `+` or `-`, then at least one decimal
      digit, and a value that fits in an `Int`; anything else raises
      `NumberFormatException`, which is `None` here. */
  function ToInt(s: string): (r: Option<Int32>)
    ensures r.Some? ==> s != []
    ensures r.Some? && s[0] != '-' && s[0] != '+' ==> AllDigits(s) && r.value == DigitsValue(s)
    ensures r.Some? && (s[0] == '-' || s[0] == '+') ==>
              |s| >= 2 && AllDigits(s[1..])
              && r.value == if s[0] == '-' then -(DigitsValue(s[1..]) as int) else DigitsValue(s[1..])
  {
    if s == [] then None
    else
      var signed := s[0] == '-' || s[0] == '+';
      var digits := if signed then s[1..] else s;
      if digits == [] || !AllDigits(digits) then None
      else
        var magnitude: int := DigitsValue(digits);
        var v := if s[0] == '-' then -magnitude else magnitude;
        if INT_MIN <= v <= INT_MAX then Some(v) else None
  }

  /** The converse of `ToInt`'s contract: an optional sign and a non-empty
      digit string are read as their signed value whenever it fits in an `Int`,
      and are refused when it does not. */
  lemma ToIntOfSigned(sign: string, digits: string)
    requires sign == "" || sign == "+" || sign == "-"
    requires digits != [] && AllDigits(digits)
    ensures var v: int := if sign == "-" then -(DigitsValue(digits) as int) else DigitsValue(digits);
            ToInt(sign + digits) == if INT_MIN <= v <= INT_MAX then Some(v) else None
  {
    var s := sign + digits;
    if sign == "" {
      assert s == digits;
      assert s[0] != '-' && s[0] != '+' by { assert IsDigit(s[0]); }
    } else {
      assert s[0] == sign[0] && s[1..] == digits;
    }
  }

  /** Reading back the digits of `n` gives `n`. */
  lemma {:induction false} DigitsValueOfNatToString(n: nat)
    ensures DigitsValue(NatToString(n)) == n
  {
    if n >= 10 {
      DigitsValueOfNatToString(n / 10);
      var s := NatToString(n);
      assert s[..|s| - 1] == NatToString(n / 10);
    }
  }

  /** `toInt` undoes `toString` on every `Int`. */
  lemma ToIntOfIntToString(x: Int32)
    ensures ToInt(IntToString(x)) == Some(x)
  {
    if x < 0 {
      ToIntOfNegative(-(x as int));
    } else {
      ToIntOfNat(x);
    }
  }

  lemma ToIntOfNat(n: nat)
    requires n <= INT_MAX
    ensures ToInt(NatToString(n)) == Some(n)
  {
    DigitsValueOfNatToString(n);
    var s := NatToString(n);
    assert IsDigit(s[0]);
  }

  lemma ToIntOfNegative(m: int)
    requires 0 < m <= -INT_MIN
    ensures ToInt("-" + NatToString(m)) == Some(-m)
  {
    DigitsValueOfNatToString(m);
    var s := "-" + NatToString(m);
    assert s[0] == '-' && s[1..] == NatToString(m);
  }

  /** The text of an `Int` is a possibly signed digit string: no spaces, no colons,
      no line breaks, and it starts and ends with something other than whitespace. */
  lemma IntToStringChars(x: int)
    ensures IntToString(x) != []
    ensures forall i :: 0 <= i < |IntToString(x)| ==> IntToString(x)[i] == '-' || IsDigit(IntToString(x)[i])
    ensures IsDigit(IntToString(x)[|IntToString(x)| - 1])
  {
  }
}
