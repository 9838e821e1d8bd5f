/** Character classes and decimal formatting shared by the string-handling parts
    of the model: Rust's `char::is_whitespace`, `char::to_digit(10)`, `str::trim`
    and the `{}` formatting of unsigned integers. */
module Text {

  /** `char::is_whitespace`: the Unicode White_Space property. */
  predicate IsWhitespace(c: char)
  {
    var n := c as int;
    (0x09 <= n <= 0x0D) || n == 0x20 || n == 0x85 || n == 0xA0 || n == 0x1680
    || (0x2000 <= n <= 0x200A) || n == 0x2028 || n == 0x2029 || n == 0x202F
    || n == 0x205F || n == 0x3000
  }

  /** `char::to_digit(10)` succeeds exactly on the ASCII digits. */
  predicate IsDigit(c: char)
  {
    '0' <= c <= '9'
  }

  function DigitValue(c: char): (d: nat)
    requires IsDigit(c)
    ensures d < 10
  {
    c as int - '0' as int
  }

  function DigitChar(d: nat): (c: char)
    requires d < 10
    ensures IsDigit(c) && DigitValue(c) == d
  {
    ('0' as int + d) as char
  }

  predicate AllDigits(s: string)
  {
    forall i | 0 <= i < |s| :: IsDigit(s[i])
  }

  /** Decimal rendering of a natural number, as `format!("{}", n)` prints it:
      no sign, no leading zeros, "0" for zero. */
  function NatToString(n: nat): (s: string)
    ensures |s| > 0 && AllDigits(s)
    ensures n > 0 ==> s[0] != '0'
  {
    if n < 10 then [DigitChar(n)] else NatToString(n / 10) + [DigitChar(n % 10)]
  }

  /** Decimal rendering of an integer, with a leading '-' when negative. */
  function IntToString(i: int): string
  {
    if i < 0 then "-" + NatToString(-i) else NatToString(i)
  }

  /** The value a digit string accumulates when it is read left to right with
      `current = 10 * current + d`, starting from `current`. */
  function Accumulate(current: nat, s: string): nat
    requires AllDigits(s)
    decreases |s|
  {
    if |s| == 0 then current else Accumulate(10 * current + DigitValue(s[0]), s[1..])
  }

  lemma {:induction false} AccumulateAppend(current: nat, s: string, t: string)
    requires AllDigits(s) && AllDigits(t)
    ensures AllDigits(s + t)
    ensures Accumulate(current, s + t) == Accumulate(Accumulate(current, s), t)
    decreases |s|
  {
    if |s| == 0 {
      assert s + t == t;
    } else {
      assert (s + t)[0] == s[0];
      assert (s + t)[1..] == s[1..] + t;
      AccumulateAppend(10 * current + DigitValue(s[0]), s[1..], t);
    }
  }

  /** Reading back what `NatToString` wrote gives the number again. */
  lemma {:induction false} AccumulateNatToString(n: nat)
    ensures Accumulate(0, NatToString(n)) == n
  {
    if n >= 10 {
      AccumulateNatToString(n / 10);
      AccumulateAppend(0, NatToString(n / 10), [DigitChar(n % 10)]);
    }
  }

  /** `str::trim`: strips leading and trailing whitespace. */
  function Trim(s: string): (t: string)
    ensures |t| <= |s|
    ensures |t| > 0 ==> !IsWhitespace(t[0]) && !IsWhitespace(t[|t| - 1])
  {
    TrimEnd(TrimStart(s))
  }

  /** The trimmed string is a slice of `s`, and everything cut off around it
      is whitespace. */
  lemma TrimIsSlice(s: string)
    ensures TrimmedAt(s, Trim(s), |s| - |TrimStart(s)|)
  {
    var u := TrimStart(s);
    var a := |s| - |u|;
    SliceOfSuffix(s, u, TrimEnd(u), a);
  }

  /** Trimming the end of a suffix: the whitespace cut from the suffix is
      whitespace of `s`. */
  lemma SliceOfSuffix(s: string, u: string, t: string, a: nat)
    requires a <= |s| && u == s[a..] && |t| <= |u| && t == u[..|t|]
    requires forall i | 0 <= i < a :: IsWhitespace(s[i])
    requires forall i | |t| <= i < |u| :: IsWhitespace(u[i])
    ensures TrimmedAt(s, t, a)
  {
    forall i | a + |t| <= i < |s|
      ensures IsWhitespace(s[i])
    {
      assert s[i] == u[i - a];
    }
  }

  /** `t` is the slice of `s` at `a`, and only whitespace surrounds it. */
  predicate TrimmedAt(s: string, t: string, a: int)
  {
    0 <= a <= |s| - |t| && t == s[a..a + |t|]
    && (forall i | 0 <= i < a :: IsWhitespace(s[i]))
    && (forall i | a + |t| <= i < |s| :: IsWhitespace(s[i]))
  }

  /** `str::trim_start`: the suffix of `s` left after its leading whitespace. */
  function TrimStart(s: string): (t: string)
    ensures |t| <= |s| && t == s[|s| - |t|..]
    ensures |t| > 0 ==> !IsWhitespace(t[0])
    ensures forall i | 0 <= i < |s| - |t| :: IsWhitespace(s[i])
  {
    if |s| > 0 && IsWhitespace(s[0]) then TrimStart(s[1..]) else s
  }

  /** `str::trim_end`: the prefix of `s` left before its trailing whitespace. */
  function TrimEnd(s: string): (t: string)
    ensures |t| <= |s| && t == s[..|t|]
    ensures |t| > 0 ==> !IsWhitespace(t[|t| - 1])
    ensures forall i | |t| <= i < |s| :: IsWhitespace(s[i])
  {
    if |s| > 0 && IsWhitespace(s[|s| - 1]) then TrimEnd(s[..|s| - 1]) else s
  }
}
