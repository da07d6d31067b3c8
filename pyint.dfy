/**
 * Python's `int(s)` and `int(s, 16)` on text, as used by every validator and
 * parser of the toolkit. Modelled grammar: surrounding whitespace (Python's
 * `str.isspace`), an optional `+` or `-`, for base 16 an optional `0x`/`0X`
 * prefix, then one or more ASCII digits. Underscore separators and non-ASCII
 * decimal digits, which Python also accepts, are not part of this grammar.
 */
module PyInt {
  import opened Base

  predicate IsDigit(c: char) { '0' <= c <= '9' }

  predicate IsHexDigit(c: char) { '0' <= c <= '9' || 'a' <= c <= 'f' || 'A' <= c <= 'F' }

  predicate AllDigits(s: string) { forall i :: 0 <= i < |s| ==> IsDigit(s[i]) }

  predicate AllHexDigits(s: string) { forall i :: 0 <= i < |s| ==> IsHexDigit(s[i]) }

  function DigitValue(c: char): (d: nat)
    requires IsHexDigit(c)
    ensures d < 16
    ensures IsDigit(c) ==> d < 10
  {
    if '0' <= c <= '9' then c as int - '0' as int
    else if 'a' <= c <= 'f' then c as int - 'a' as int + 10
    else c as int - 'A' as int + 10
  }

  /** Value of a digit string in the given base, most significant digit first. */
  function DigitsValue(ds: string, base: nat): (v: nat)
    requires base == 10 || base == 16
    requires AllHexDigits(ds)
    decreases |ds|
  {
    if ds == [] then 0
    else DigitsValue(ds[..|ds| - 1], base) * base + DigitValue(ds[|ds| - 1])
  }

  /** Splits an optional leading sign off: (sign, rest). */
  function SignOf(t: string): (r: (int, string))
    ensures r.0 == 1 || r.0 == -1
    ensures |r.1| <= |t|
  {
    if |t| > 0 && t[0] == '-' then (-1, t[1..])
    else if |t| > 0 && t[0] == '+' then (1, t[1..])
    else (1, t)
  }

  /** A magnitude with the sign `SignOf` found. */
  function Signed(sign: int, v: nat): int {
    if sign < 0 then -(v as int) else v
  }

  /** `int(s)`: None where Python raises ValueError. */
  function ParseInt(s: string): Option<int> {
    var (sign, body) := SignOf(Strip(s));
    if |body| > 0 && AllDigits(body) then Some(Signed(sign, DigitsValue(body, 10))) else None
  }

  /** `int(s, 16)`: None where Python raises ValueError. */
  function ParseIntBase16(s: string): Option<int> {
    var (sign, body) := SignOf(Strip(s));
    var digits := if StartsWith(body, "0x") || StartsWith(body, "0X") then body[2..] else body;
    if |digits| > 0 && AllHexDigits(digits) then Some(Signed(sign, DigitsValue(digits, 16))) else None
  }

  lemma {:induction false} DigitsOfNatToString(n: nat)
    ensures AllHexDigits(NatToString(n))
    ensures DigitsValue(NatToString(n), 10) == n
  {
    var s := NatToString(n);
    if n >= 10 {
      DigitsOfNatToString(n / 10);
      assert s[..|s| - 1] == NatToString(n / 10);
    }
  }

  lemma StripOfDigits(s: string)
    requires |s| > 0 && (s[0] == '-' || IsDigit(s[0])) && IsDigit(s[|s| - 1])
    ensures Strip(s) == s
  {
    assert !IsSpace(s[0]);
    assert TrimLeft(s) == s;
    assert !IsSpace(s[|s| - 1]);
    assert TrimRight(s) == s;
  }

  /** `int(str(i)) == i`: the parser reads back every integer Python prints. */
  lemma {:induction false} ParseIntOfIntToString(i: int)
    ensures ParseInt(IntToString(i)) == Some(i)
  {
    var n: nat := if i < 0 then -i else i;
    var digits := NatToString(n);
    DigitsOfNatToString(n);
    var s := IntToString(i);
    StripOfDigits(s);
    var sb := SignOf(s);
    if i < 0 {
      assert s == "-" + digits && s[1..] == digits;
      assert sb == (-1, digits);
    } else {
      assert s == digits;
      assert sb == (1, digits);
    }
    assert Signed(sb.0, DigitsValue(sb.1, 10)) == i;
  }
}
