/**
 * Kotlin's 32-bit `Int`: wrap-around arithmetic, `Int.toString()` and
 * `String.toIntOrNull()` (radix 10), restricted to ASCII digits.
 */
module KotlinInt {
  import opened Wrappers

  const MIN_INT: int := -0x8000_0000
  const MAX_INT: int := 0x7fff_ffff
  const TWO_TO_32: int := 0x1_0000_0000

  predicate InInt32(x: int) {
    MIN_INT <= x <= MAX_INT
  }

  /** The value a Kotlin `Int` operation yields for the exact result `x`. */
  function Wrap(x: int): (r: int)
    ensures InInt32(r)
    ensures InInt32(x) ==> r == x
    ensures exists k: int :: r == x + k * TWO_TO_32
  {
    var r := (x - MIN_INT) % TWO_TO_32 + MIN_INT;
    assert r == x + (-((x - MIN_INT) / TWO_TO_32)) * TWO_TO_32;
    r
  }

  predicate IsDigit(c: char) {
    '0' <= c <= '9'
  }

  predicate AllDigits(s: string) {
    forall i :: 0 <= i < |s| ==> IsDigit(s[i])
  }

  function DigitValue(c: char): (d: nat)
    requires IsDigit(c)
    ensures d < 10
  {
    c as int - '0' as int
  }

  function DigitChar(d: nat): (c: char)
    requires d < 10
    ensures IsDigit(c) && DigitValue(c) == d
  {
    ('0' as int + d) as char
  }

  /** The number a string of decimal digits denotes, most significant digit first. */
  function DigitsValue(s: string): nat
    requires AllDigits(s)
  {
    if |s| == 0 then 0 else DigitsValue(s[..|s| - 1]) * 10 + DigitValue(s[|s| - 1])
  }

  /** The shortest decimal representation of `n`. */
  function NatToDigits(n: nat): (s: string)
    ensures |s| >= 1 && AllDigits(s)
    ensures |s| > 1 ==> s[0] != '0'
    decreases n
  {
    if n < 10 then [DigitChar(n)] else NatToDigits(n / 10) + [DigitChar(n % 10)]
  }

  lemma {:induction false} NatToDigitsValue(n: nat)
    ensures DigitsValue(NatToDigits(n)) == n
    decreases n
  {
    if n >= 10 {
      var s := NatToDigits(n);
      var front := NatToDigits(n / 10);
      assert s[..|s| - 1] == front;
      NatToDigitsValue(n / 10);
    }
  }

  /** `Int.toString()`: an optional minus sign followed by the shortest digits. */
  function IntToString(n: int): (s: string)
    ensures |s| >= 1
    ensures n < 0 <==> s[0] == '-'
    ensures n >= 0 ==> AllDigits(s)
  {
    if n < 0 then "-" + NatToDigits(-n) else NatToDigits(n)
  }

  /**
   * `String.toIntOrNull()`: an optional `+` or `-` sign, then at least one
   * digit; anything else, or a value outside the 32-bit range, gives null.
   */
  function ToIntOrNull(s: string): (r: Option<int>)
    ensures r.Some? ==> InInt32(r.value)
    ensures r.Some? ==> |s| >= 1 && (IsDigit(s[0]) || ((s[0] == '-' || s[0] == '+') && |s| >= 2))
  {
    if |s| == 0 then None
    else if s[0] == '-' || s[0] == '+' then
      if |s| == 1 || !AllDigits(s[1..]) then None
      else
        var v: int := if s[0] == '-' then -(DigitsValue(s[1..]) as int) else DigitsValue(s[1..]);
        if InInt32(v) then Some(v) else None
    else if AllDigits(s) && InInt32(DigitsValue(s)) then Some(DigitsValue(s))
    else None
  }

  /** Every 32-bit integer survives printing and parsing back. */
  lemma {:induction false} IntToStringRoundTrip(n: int)
    requires InInt32(n)
    ensures ToIntOrNull(IntToString(n)) == Some(n)
  {
    var s := IntToString(n);
    if n < 0 {
      assert s[1..] == NatToDigits(-n);
      NatToDigitsValue(-n);
    } else {
      NatToDigitsValue(n);
      assert IsDigit(s[0]);
    }
  }
}
