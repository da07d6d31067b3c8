/**
 * `InputValidator` of utils.py: integer range validation, hexadecimal parsing,
 * the CAN interface allow-list and printable-ASCII sanitising. Raised errors
 * become `Err` values; `ValueError` and `SecurityError` are told apart.
 */
module Utils {
  import opened Base
  import opened PyInt
  import Config

  datatype ValidationError =
    | InputTooLong            // ValueError("Input too long")
    | InvalidInteger          // ValueError("Invalid integer: ...") for text int() rejects
    | OutOfRange              // ValueError("Invalid integer: Value must be between ...")
    | InvalidHex              // ValueError("Invalid hexadecimal value")
    | InterfaceNotAllowed     // SecurityError("CAN interface '...' not allowed")

  /**
   * `validate_integer(value, min_val, max_val)`; `maxVal == None` is the
   * default upper bound `float('inf')`.
   */
  function ValidateInteger(value: string, minVal: int, maxVal: Option<int>): (r: Result<int, ValidationError>)
    ensures |value| > Config.MAX_INPUT_LENGTH ==> r == Err(InputTooLong)
    ensures r.Ok? <==> |value| <= Config.MAX_INPUT_LENGTH && ParseInt(value).Some?
                       && minVal <= ParseInt(value).value
                       && (maxVal.Some? ==> ParseInt(value).value <= maxVal.value)
    ensures r.Ok? ==> ParseInt(value) == Some(r.value)
    ensures r.Ok? ==> minVal <= r.value && (maxVal.Some? ==> r.value <= maxVal.value)
  {
    if |value| > Config.MAX_INPUT_LENGTH then Err(InputTooLong)
    else match ParseInt(value)
      case None => Err(InvalidInteger)
      case Some(v) =>
        if minVal <= v && (maxVal.None? || v <= maxVal.value) then Ok(v) else Err(OutOfRange)
  }

  /**
   * `validate_hex`: trim, lower-case, drop one leading "0x", then `int(_, 16)`
   * (which itself accepts one more "0x").
   */
  function ValidateHex(value: string): (r: Result<int, ValidationError>)
    ensures |value| > Config.MAX_INPUT_LENGTH ==> r == Err(InputTooLong)
  {
    if |value| > Config.MAX_INPUT_LENGTH then Err(InputTooLong)
    else
      match ParseIntBase16(HexBody(value))
      case None => Err(InvalidHex)
      case Some(v) => Ok(v)
  }

  /** The text `validate_hex` hands to `int(_, 16)`. */
  function HexBody(value: string): string {
    var lowered := Lower(Strip(value));
    if StartsWith(lowered, "0x") then lowered[2..] else lowered
  }

  /** `validate_can_interface` against the allow-list of the given platform. */
  function ValidateCanInterface(platform: string, iface: string): (r: Result<string, ValidationError>)
    ensures r.Ok? <==> iface in Config.AllowedCanInterfaces(platform)
    ensures r.Ok? ==> r.value == iface
    ensures r.Err? ==> r.error == InterfaceNotAllowed
  {
    if Config.ValidateCanInterface(platform, iface) then Ok(iface) else Err(InterfaceNotAllowed)
  }

  predicate IsPrintableAscii(c: char) { ' ' <= c <= '~' }

  /** `re.sub(r'[^\x20-\x7e]', '', s)`. */
  function KeepPrintable(s: string): (r: string)
    ensures |r| <= |s|
    ensures forall i :: 0 <= i < |r| ==> IsPrintableAscii(r[i])
    ensures |s| == 1 && IsPrintableAscii(s[0]) ==> r == s
    ensures |s| == 1 && !IsPrintableAscii(s[0]) ==> r == []
  {
    if s == [] then []
    else
      assert s == [s[0]] + s[1..];
      if IsPrintableAscii(s[0]) then [s[0]] + KeepPrintable(s[1..]) else KeepPrintable(s[1..])
  }

  /** Every printable character is kept as often as it occurs, and nothing else is. */
  lemma {:induction false} KeepPrintableCounts(s: string)
    ensures forall c :: IsPrintableAscii(c) ==> multiset(KeepPrintable(s))[c] == multiset(s)[c]
    ensures forall c :: !IsPrintableAscii(c) ==> multiset(KeepPrintable(s))[c] == 0
    decreases |s|
  {
    if s != [] {
      KeepPrintableCounts(s[1..]);
      assert s == [s[0]] + s[1..];
    }
  }

  /**
   * The filter keeps the order of what it keeps: filtering `a + b` is
   * filtering `a`, then `b`. With the one-character cases above this
   * determines the filter on every text.
   */
  lemma {:induction false} KeepPrintableConcat(a: string, b: string)
    ensures KeepPrintable(a + b) == KeepPrintable(a) + KeepPrintable(b)
    decreases |a|
  {
    if a == [] {
      assert a + b == b;
      assert KeepPrintable(a) == [];
    } else {
      var ab := a + b;
      assert ab[0] == a[0] && ab[1..] == a[1..] + b;
      KeepPrintableConcat(a[1..], b);
      var head := if IsPrintableAscii(a[0]) then [a[0]] else [];
      assert KeepPrintable(ab) == head + KeepPrintable(a[1..] + b);
      assert KeepPrintable(a) == head + KeepPrintable(a[1..]);
      var x, y := KeepPrintable(a[1..]), KeepPrintable(b);
      assert head + (x + y) == (head + x) + y;
    }
  }

  /** `sanitize_input`: strip, then keep printable ASCII only. */
  function SanitizeInput(value: string): (r: Result<string, ValidationError>)
    ensures |value| > Config.MAX_INPUT_LENGTH <==> r == Err(InputTooLong)
    ensures r.Ok? ==> r.value == KeepPrintable(Strip(value))
    ensures r.Ok? ==> |r.value| <= |Strip(value)|
    ensures r.Ok? ==> forall i :: 0 <= i < |r.value| ==> IsPrintableAscii(r.value[i])
  {
    if |value| > Config.MAX_INPUT_LENGTH then Err(InputTooLong) else Ok(KeepPrintable(Strip(value)))
  }

  // ------------------------------------------------------------------ lemmas

  /** The asserted call `validate_integer("123", 0, 200) == 123`. */
  lemma ValidateIntegerExample()
    ensures ValidateInteger("123", 0, Some(200)) == Ok(123)
  {
    StripOfDigits("123");
    assert "123"[..2] == "12" && "12"[..1] == "1";
    assert DigitsValue("123", 10) == 123;
  }

  lemma {:induction false} LowerHexDigits(s: string)
    requires AllHexDigits(s)
    ensures AllHexDigits(Lower(s))
    ensures DigitsValue(Lower(s), 16) == DigitsValue(s, 16)
    decreases |s|
  {
    if s != [] {
      var init := s[..|s| - 1];
      LowerHexDigits(init);
      var l := Lower(s);
      assert l[..|s| - 1] == Lower(init);
      assert DigitValue(l[|s| - 1]) == DigitValue(s[|s| - 1]);
    }
  }

  lemma StripIdentity(s: string)
    requires |s| > 0 ==> !IsSpace(s[0]) && !IsSpace(s[|s| - 1])
    ensures Strip(s) == s
  {
    assert TrimLeft(s) == s;
  }

  lemma HexDigitIsNotSpace(c: char)
    requires IsHexDigit(c)
    ensures !IsSpace(c) && c != '-' && c != '+'
  {
  }

  /** Bare hexadecimal digits: no surrounding space, no sign, no "0x" prefix. */
  lemma BareHexDigits(t: string)
    requires |t| > 0 && AllHexDigits(t)
    ensures Strip(t) == t
    ensures SignOf(t) == (1, t)
    ensures !StartsWith(t, "0x") && !StartsWith(t, "0X")
  {
    HexDigitIsNotSpace(t[0]);
    HexDigitIsNotSpace(t[|t| - 1]);
    StripIdentity(t);
    if |t| >= 2 { assert IsHexDigit(t[1]); }
  }

  /** `int(t, 16)` on bare hexadecimal digits. */
  lemma ParseHexOfDigits(t: string)
    requires |t| > 0 && AllHexDigits(t)
    ensures ParseIntBase16(t) == Some(DigitsValue(t, 16))
  {
    BareHexDigits(t);
    var sb := SignOf(Strip(t));
    assert sb == (1, t);
    assert Signed(1, DigitsValue(t, 16)) == DigitsValue(t, 16);
  }

  /** `validate_hex` on bare hexadecimal digits reads them in base 16. */
  lemma HexBodyOfDigits(s: string)
    requires |s| > 0 && AllHexDigits(s)
    ensures HexBody(s) == Lower(s)
  {
    LowerHexDigits(s);
    BareHexDigits(s);
    BareHexDigits(Lower(s));
  }

  lemma HexBodyOfPrefixed(s: string)
    requires |s| > 0 && AllHexDigits(s)
    ensures HexBody("0x" + s) == Lower(s)
  {
    var p := "0x" + s;
    PrefixedHexIsStripped(s);
    assert Strip(p) == p;
    LowerOfPrefixed(s);
    var lp := Lower(p);
    assert lp == "0x" + Lower(s);
    ConcatParts("0x", Lower(s));
  }

  lemma ConcatParts(x: string, y: string)
    ensures (x + y)[..|x|] == x && (x + y)[|x|..] == y
  {
  }

  /** `validate_hex` on bare hexadecimal digits reads them in base 16. */
  lemma ValidateHexOfDigits(s: string)
    requires 0 < |s| <= Config.MAX_INPUT_LENGTH && AllHexDigits(s)
    ensures ValidateHex(s) == Ok(DigitsValue(s, 16))
  {
    HexBodyOfDigits(s);
    LowerHexDigits(s);
    ParseHexOfDigits(Lower(s));
  }

  /** "0x" followed by hexadecimal digits has nothing to strip. */
  lemma PrefixedHexIsStripped(s: string)
    requires |s| > 0 && AllHexDigits(s)
    ensures Strip("0x" + s) == "0x" + s
  {
    var p := "0x" + s;
    HexDigitIsNotSpace(s[|s| - 1]);
    assert p[|p| - 1] == s[|s| - 1];
    assert p[0] == '0';
    StripIdentity(p);
  }

  lemma LowerOfPrefixed(s: string)
    ensures Lower("0x" + s) == "0x" + Lower(s)
  {
    LowerConcat("0x", s);
    assert Lower("0x") == "0x";
  }

  /**
   * On a bare string of hexadecimal digits, the "0x" prefix makes no
   * difference, and the value is the digits read in base 16.
   */
  lemma ValidateHexPrefixOptional(s: string)
    requires 0 < |s| <= Config.MAX_INPUT_LENGTH - 2 && AllHexDigits(s)
    ensures ValidateHex("0x" + s) == ValidateHex(s) == Ok(DigitsValue(s, 16))
  {
    ValidateHexOfDigits(s);
    HexBodyOfPrefixed(s);
    LowerHexDigits(s);
    ParseHexOfDigits(Lower(s));
  }

  /** The asserted call `validate_hex("0xFF") == 255`. */
  lemma ValidateHexExample(value: string)
    requires value == "0xFF"
    ensures ValidateHex(value) == Ok(255)
  {
    HexFF();
    ValidateHexPrefixOptional("FF");
  }

  lemma HexFF()
    ensures AllHexDigits("FF") && DigitsValue("FF", 16) == 255
    ensures "0x" + "FF" == "0xFF"
  {
    FFIs255("FF");
  }

  lemma FFIs255(s: string)
    requires s == "FF" || s == "ff"
    ensures AllHexDigits(s) && DigitsValue(s, 16) == 255
  {
    assert s[..1][..0] == [];
    assert DigitsValue(s[..1], 16) == 15;
  }

  /** Printable text is left alone by the filter. */
  lemma {:induction false} KeepPrintableOfPrintable(s: string)
    requires forall i :: 0 <= i < |s| ==> IsPrintableAscii(s[i])
    ensures KeepPrintable(s) == s
    decreases |s|
  {
    if s != [] {
      KeepPrintableOfPrintable(s[1..]);
    }
  }

  lemma SanitizeFirstPass(s: string)
    requires |s| == 3 && s[0] == '\U{01}' && s[1] == ' ' && s[2] == 'a'
    ensures SanitizeInput(s) == Ok(s[1..])
  {
    var rest := s[1..];
    assert s == [s[0]] + rest;
    assert !IsSpace(s[0]) && !IsSpace(s[2]);
    StripIdentity(s);
    KeepPrintableDrops(s[0], rest);
    KeepPrintableOfPrintable(rest);
  }

  lemma KeepPrintableDrops(c: char, rest: string)
    requires !IsPrintableAscii(c)
    ensures KeepPrintable([c] + rest) == KeepPrintable(rest)
  {
    assert ([c] + rest)[1..] == rest;
  }

  lemma SanitizeSecondPass(t: string)
    requires t == " a"
    ensures SanitizeInput(t) == Ok("a")
  {
    var a := t[1..];
    assert a == "a" && !IsSpace(a[0]);
    assert IsSpace(t[0]);
    assert TrimLeft(a) == a;
    assert TrimLeft(t) == a;
    assert TrimRight(a) == a;
    assert Strip(t) == a;
    KeepPrintableOfPrintable(a);
  }

  /**
   * `sanitize_input` as written strips before it filters, so a control
   * character shields the whitespace behind it: sanitising twice removes more.
   */
  lemma SanitizeInputNotIdempotent()
    ensures SanitizeInput("\U{01} a") == Ok(" a")
    ensures SanitizeInput(" a") == Ok("a")
  {
    var s := "\U{01} a";
    SanitizeFirstPass(s);
    assert s[1..] == " a";
    SanitizeSecondPass(" a");
  }

  /**
   * Sanitising with the filter applied before the strip: the result is
   * printable, has no surrounding whitespace, and is a fixed point.
   */
  function SanitizeInputStable(value: string): (r: Result<string, ValidationError>)
    ensures |value| > Config.MAX_INPUT_LENGTH <==> r == Err(InputTooLong)
    ensures r.Ok? ==> r.value == Strip(KeepPrintable(value))
    ensures r.Ok? ==> |r.value| <= |value|
    ensures r.Ok? ==> forall i :: 0 <= i < |r.value| ==> IsPrintableAscii(r.value[i])
    ensures r.Ok? && |r.value| > 0 ==> !IsSpace(r.value[0]) && !IsSpace(r.value[|r.value| - 1])
  {
    if |value| > Config.MAX_INPUT_LENGTH then Err(InputTooLong)
    else
      StripKeepsPrintable(KeepPrintable(value));
      Ok(Strip(KeepPrintable(value)))
  }

  lemma StripKeepsPrintable(s: string)
    requires forall i :: 0 <= i < |s| ==> IsPrintableAscii(s[i])
    ensures forall i :: 0 <= i < |Strip(s)| ==> IsPrintableAscii(Strip(s)[i])
  {
    var l := TrimLeft(s);
    TrimLeftSuffix(s);
    var r := TrimRight(l);
    TrimRightPrefix(l);
    forall i | 0 <= i < |r| ensures IsPrintableAscii(r[i]) {
      assert r[i] == l[i] == s[|s| - |l| + i];
    }
  }

  /** Sanitising an already sanitised value changes nothing. */
  lemma SanitizeInputStableIdempotent(value: string)
    requires SanitizeInputStable(value).Ok?
    ensures SanitizeInputStable(SanitizeInputStable(value).value) == SanitizeInputStable(value)
  {
    var y := Strip(KeepPrintable(value));
    StripKeepsPrintable(KeepPrintable(value));
    KeepPrintableOfPrintable(y);
    StripIdentity(y);
  }

  /** Only the allowed interfaces pass, and unchanged. */
  lemma ValidateCanInterfaceLinux()
    ensures ValidateCanInterface("linux", "can1") == Ok("can1")
    ensures ValidateCanInterface("windows", "can1") == Err(InterfaceNotAllowed)
  {
  }
}
