/**
 * The textual integer format of the backlight control files: Rust's `i128`
 * type, `str::trim`, `<i128 as FromStr>::from_str` (what `.parse()` does on
 * the trimmed contents) and `<i128 as Display>` (what `to_string` writes).
 */
module Decimal {
  import opened Wrappers

  const I128_MIN: int := -0x8000_0000_0000_0000_0000_0000_0000_0000
  const I128_MAX: int := 0x7fff_ffff_ffff_ffff_ffff_ffff_ffff_ffff

  predicate InI128(x: int) { I128_MIN <= x <= I128_MAX }

  /** Rust's `i128`. */
  type Int128 = x: int | InI128(x)

  // ---------------------------------------------------------------- trim

  /** The characters with the Unicode White_Space property, which `str::trim` removes. */
  predicate IsWhitespace(c: char) {
    || ('\U{9}' <= c <= '\U{D}') || c == ' ' || c == '\U{85}' || c == '\U{A0}'
    || c == '\U{1680}' || ('\U{2000}' <= c <= '\U{200A}') || c == '\U{2028}'
    || c == '\U{2029}' || c == '\U{202F}' || c == '\U{205F}' || c == '\U{3000}'
  }

  /** Drops the leading white space. */
  function TrimStart(s: string): (r: string)
    ensures |r| <= |s|
    ensures r == [] || !IsWhitespace(r[0])
  {
    if |s| > 0 && IsWhitespace(s[0]) then TrimStart(s[1..]) else s
  }

  /** Drops the trailing white space. */
  function TrimEnd(s: string): (r: string)
    ensures |r| <= |s| && r == s[..|r|]
    ensures r == [] || !IsWhitespace(r[|r| - 1])
  {
    if |s| > 0 && IsWhitespace(s[|s| - 1]) then TrimEnd(s[..|s| - 1]) else s
  }

  /** `str::trim`: the string without leading and trailing white space. */
  function Trim(s: string): (r: string)
    ensures |r| <= |s|
    ensures r == [] || (!IsWhitespace(r[0]) && !IsWhitespace(r[|r| - 1]))
    ensures |s| > 0 && !IsWhitespace(s[0]) && !IsWhitespace(s[|s| - 1]) ==> r == s
  {
    var t := TrimStart(s);
    var r := TrimEnd(t);
    assert r == [] || r[0] == t[0];
    r
  }

  /** `TrimStart` removes a prefix made only of white space. */
  lemma {:induction false} TrimStartRemovesWhitespace(s: string)
    ensures var r := TrimStart(s);
      r == s[|s| - |r|..] && forall i :: 0 <= i < |s| - |r| ==> IsWhitespace(s[i])
  {
    if |s| > 0 && IsWhitespace(s[0]) {
      TrimStartRemovesWhitespace(s[1..]);
    }
  }

  /** `TrimEnd` removes a suffix made only of white space. */
  lemma {:induction false} TrimEndRemovesWhitespace(s: string)
    ensures var r := TrimEnd(s);
      r == s[..|r|] && forall i :: |r| <= i < |s| ==> IsWhitespace(s[i])
  {
    if |s| > 0 && IsWhitespace(s[|s| - 1]) {
      TrimEndRemovesWhitespace(s[..|s| - 1]);
    }
  }

  /** The newline sysfs puts after a value is trimmed away. */
  lemma TrimTrailingNewline(t: string)
    requires |t| > 0 && !IsWhitespace(t[0]) && !IsWhitespace(t[|t| - 1])
    ensures Trim(t + "\n") == t
  {
    var s := t + "\n";
    assert TrimStart(s) == s;
    assert s[..|s| - 1] == t;
    assert TrimEnd(s) == TrimEnd(t);
  }

  // -------------------------------------------------------------- digits

  predicate IsDigit(c: char) { '0' <= c <= '9' }

  predicate AllDigits(s: string) { forall i :: 0 <= i < |s| ==> IsDigit(s[i]) }

  function DigitValue(c: char): (d: nat)
    requires IsDigit(c)
    ensures d < 10
  {
    (c - '0') as nat
  }

  function DigitChar(d: nat): (c: char)
    requires d < 10
    ensures IsDigit(c) && DigitValue(c) == d
  {
    ('0' as int + d) as char
  }

  /**
   * The value of a string of ASCII digits, most significant first, or None
   * at the first character that is not a digit. The empty string is 0.
   */
  function ParseDigits(s: string): Option<nat>
  {
    if |s| == 0 then Some(0)
    else match ParseDigits(s[..|s| - 1])
      case None => None
      case Some(n) => if IsDigit(s[|s| - 1]) then Some(n * 10 + DigitValue(s[|s| - 1])) else None
  }

  /** `ParseDigits` fails exactly on a string holding a non-digit. */
  lemma {:induction false} ParseDigitsAccepts(s: string)
    ensures ParseDigits(s).Some? <==> AllDigits(s)
  {
    if |s| > 0 {
      ParseDigitsAccepts(s[..|s| - 1]);
      assert AllDigits(s) <==> AllDigits(s[..|s| - 1]) && IsDigit(s[|s| - 1]);
    }
  }

  /** The shortest decimal rendering of `n`: no leading zero, "0" for zero. */
  function NatToDigits(n: nat): (s: string)
    ensures |s| > 0 && IsDigit(s[0]) && IsDigit(s[|s| - 1])
    ensures s[0] == '0' ==> n == 0
    decreases n
  {
    (if n < 10 then [] else NatToDigits(n / 10)) + [DigitChar(n % 10)]
  }

  /** Every character of a rendering is a digit. */
  lemma {:induction false} NatToDigitsAreDigits(n: nat)
    ensures AllDigits(NatToDigits(n))
    decreases n
  {
    if n >= 10 {
      NatToDigitsAreDigits(n / 10);
    }
  }

  /** Parsing the digits of `n` gives back `n`. */
  lemma {:induction false} DigitsRoundTrip(n: nat)
    ensures ParseDigits(NatToDigits(n)) == Some(n)
    decreases n
  {
    var s := NatToDigits(n);
    assert s[..|s| - 1] == if n < 10 then [] else NatToDigits(n / 10);
    if n >= 10 {
      DigitsRoundTrip(n / 10);
    }
  }

  // ------------------------------------------------------ Display / FromStr

  /** `i128::to_string`: a '-' before the digits of a negative number, no sign otherwise. */
  function ToDecimal(v: int): (s: string)
    ensures |s| > 0 && !IsWhitespace(s[0]) && !IsWhitespace(s[|s| - 1])
    ensures IsDigit(s[|s| - 1])
    ensures s[0] == '-' <==> v < 0
  {
    if v < 0 then "-" + NatToDigits(-v) else NatToDigits(v)
  }

  /**
   * What `to_string` writes is canonical: past the optional '-', a non-empty
   * run of ASCII digits with no leading zero unless the value is 0.
   */
  lemma ToDecimalDigits(v: int)
    ensures var d := Unsigned(ToDecimal(v));
      && |d| > 0 && AllDigits(d)
      && (d[0] == '0' ==> v == 0)
      && ToDecimal(v)[0] != '+'
  {
    var n: nat := if v < 0 then -v else v;
    assert Unsigned(ToDecimal(v)) == NatToDigits(n);
    NatToDigitsAreDigits(n);
  }

  /** The digits left once an optional leading '+' or '-' is taken off. */
  function Unsigned(s: string): string
  {
    if |s| > 0 && (s[0] == '+' || s[0] == '-') then s[1..] else s
  }

  /** `n` negated when `s` starts with '-'. */
  function ApplySign(s: string, n: nat): int
  {
    if |s| > 0 && s[0] == '-' then -(n as int) else n
  }

  /**
   * `<i128 as FromStr>::from_str`: an optional sign, then at least one ASCII
   * digit and nothing else, with a value in the i128 range. Anything else is
   * a parse error (None); the kind of error is not distinguished.
   */
  function ParseInt(s: string): Option<Int128>
  {
    var d := Unsigned(s);
    if |d| == 0 then None
    else match ParseDigits(d)
      case None => None
      case Some(n) => if InI128(ApplySign(s, n)) then Some(ApplySign(s, n)) else None
  }

  /**
   * `ParseInt` accepts exactly an optional sign followed by at least one
   * digit, with a value within the i128 range; a negative result comes only
   * from a leading '-'.
   */
  lemma ParseIntAccepts(s: string)
    ensures ParseInt(s).Some? <==>
      var d := Unsigned(s);
      |d| > 0 && AllDigits(d) && ParseDigits(d).Some? && InI128(ApplySign(s, ParseDigits(d).value))
    ensures ParseInt(s).Some? && ParseInt(s).value < 0 ==> s[0] == '-'
  {
    ParseDigitsAccepts(Unsigned(s));
  }

  /** Parsing what `to_string` wrote, after trimming, gives back the value. */
  lemma ParseToDecimal(v: Int128)
    ensures ParseInt(Trim(ToDecimal(v))) == Some(v)
  {
    var s := ToDecimal(v);
    assert Trim(s) == s;
    var n: nat := if v < 0 then -(v as int) else v;
    assert Unsigned(s) == NatToDigits(n);
    DigitsRoundTrip(n);
  }

  /** A number outside the i128 range cannot be read back from its decimal text. */
  lemma ParseToDecimalOutOfRange(v: int)
    requires !InI128(v)
    ensures ParseInt(Trim(ToDecimal(v))) == None
  {
    var s := ToDecimal(v);
    assert Trim(s) == s;
    var n: nat := if v < 0 then -v else v;
    assert Unsigned(s) == NatToDigits(n);
    DigitsRoundTrip(n);
  }

  /** Whatever parses, renders back to its canonical text, which parses to the same value. */
  lemma ParseThenRender(s: string)
    requires ParseInt(s).Some?
    ensures ParseInt(ToDecimal(ParseInt(s).value)) == ParseInt(s)
  {
    var v := ParseInt(s).value;
    ParseToDecimal(v);
    assert Trim(ToDecimal(v)) == ToDecimal(v);
  }

  /** A digit run with no leading zero, "0" itself excepted: the form `to_string` writes. */
  predicate CanonicalDigits(d: string) {
    |d| > 0 && AllDigits(d) && (d[0] == '0' ==> |d| == 1)
  }

  /** A canonical digit run is exactly the rendering of its value. */
  lemma {:induction false} RenderParsedDigits(d: string)
    requires CanonicalDigits(d)
    ensures ParseDigits(d).Some? && NatToDigits(ParseDigits(d).value) == d
    decreases |d|
  {
    ParseDigitsAccepts(d);
    var c := d[|d| - 1];
    var init := d[..|d| - 1];
    var n := ParseDigits(d).value;
    assert IsDigit(c);
    assert DigitChar(DigitValue(c)) == c;
    if |d| == 1 {
      assert init == [];
      assert n == DigitValue(c);
      assert NatToDigits(n) == [DigitChar(n)];
    } else {
      assert init[0] == d[0] && d[0] != '0';
      assert AllDigits(init) by {
        forall k | 0 <= k < |init| ensures IsDigit(init[k]) {
          assert init[k] == d[k];
        }
      }
      RenderParsedDigits(init);
      var m := ParseDigits(init).value;
      assert n == m * 10 + DigitValue(c);
      assert NatToDigits(0)[0] == '0';
      assert m != 0;
      assert n / 10 == m && n % 10 == DigitValue(c);
      assert NatToDigits(n) == NatToDigits(m) + [DigitChar(DigitValue(c))];
      assert d == init + [c];
    }
  }

  /**
   * A text in the form `to_string` writes (no '+', canonical digits, not
   * "-0") that parses is written back by `to_string` character for character.
   */
  lemma RenderParsedText(s: string)
    requires ParseInt(s).Some?
    requires |s| > 0 && s[0] != '+' && CanonicalDigits(Unsigned(s)) && s != "-0"
    ensures ToDecimal(ParseInt(s).value) == s
  {
    var d := Unsigned(s);
    RenderParsedDigits(d);
    var n := ParseDigits(d).value;
    assert ParseInt(s).value == ApplySign(s, n);
    RenderSigned(s, n);
  }

  /** The sign `ApplySign` takes from `s`, put back by `to_string`. */
  lemma RenderSigned(s: string, n: nat)
    requires |s| > 0 && s[0] != '+' && s != "-0" && NatToDigits(n) == Unsigned(s)
    ensures ToDecimal(ApplySign(s, n)) == s
  {
    var d := Unsigned(s);
    if s[0] == '-' {
      assert s == "-" + d;
      assert NatToDigits(0) == "0";
      assert n != 0;
      assert ToDecimal(-(n as int)) == "-" + NatToDigits(n);
    } else {
      assert ToDecimal(n) == NatToDigits(n);
    }
  }
}
