/** The test `fresh`'s get trap applies to a string key before it treats the
    key as a position: `parseInt(prop, 10).toString() === prop`.

    `ParseInt` and `IntToString` model JavaScript's `parseInt` with radix 10
    and `Number.prototype.toString` on integers; `IsIndexKey` is the test
    itself, and `IsCanonicalInteger` an independent, purely syntactic
    description of the strings it accepts. */
module IndexKey {

  /** What `parseInt` returns: an integer, or NaN when no digit follows the
      optional white space and sign. */
  datatype Parsed = NaN | Int(value: int)

  /** 2^53. Every integer of at most this magnitude is a double exactly, so on
      them `parseInt` and `toString` are exact integer operations. */
  const MaxExact: nat := 0x20_0000_0000_0000

  predicate IsDigit(c: char) {
    '0' <= c <= '9'
  }

  predicate AllDigits(s: string) {
    forall i :: 0 <= i < |s| ==> IsDigit(s[i])
  }

  function DigitValue(c: char): (d: nat)
    requires IsDigit(c)
    ensures d < 10
  {
    c as int - '0' as int
  }

  function DigitChar(d: nat): (c: char)
    requires d < 10
    ensures IsDigit(c) && DigitValue(c) == d
  {
    ('0' as int + d) as char
  }

  /** The white space `parseInt` skips before the sign: the ECMAScript
      WhiteSpace and LineTerminator code points. */
  predicate IsWhiteSpace(c: char) {
    var u := c as int;
    u == 0x09 || u == 0x0A || u == 0x0B || u == 0x0C || u == 0x0D || u == 0x20 ||
    u == 0xA0 || u == 0x1680 || (0x2000 <= u <= 0x200A) || u == 0x2028 || u == 0x2029 ||
    u == 0x202F || u == 0x205F || u == 0x3000 || u == 0xFEFF
  }

  /** `s` without its leading white space. */
  function TrimStart(s: string): (t: string)
    ensures |t| <= |s| && t == s[|s| - |t|..]
    ensures forall i :: 0 <= i < |s| - |t| ==> IsWhiteSpace(s[i])
    ensures t == [] || !IsWhiteSpace(t[0])
  {
    if s != [] && IsWhiteSpace(s[0]) then
      var t := TrimStart(s[1..]);
      assert forall i :: 1 <= i < |s| - |t| ==> s[i] == s[1..][i - 1];
      t
    else s
  }

  /** The longest prefix of `s` made of decimal digits. */
  function DigitPrefix(s: string): (p: string)
    ensures p <= s && AllDigits(p)
    ensures |p| < |s| ==> !IsDigit(s[|p|])
  {
    if s == [] || !IsDigit(s[0]) then [] else [s[0]] + DigitPrefix(s[1..])
  }

  /** The number a string of decimal digits denotes. */
  function DigitsValue(ds: string): nat
    requires AllDigits(ds)
  {
    if ds == [] then 0 else DigitsValue(ds[..|ds| - 1]) * 10 + DigitValue(ds[|ds| - 1])
  }

  /** `parseInt(s, 10)`: skip white space, read an optional sign, then the
      longest run of digits; NaN when that run is empty. */
  function ParseInt(s: string): (p: Parsed)
    ensures p.Int? ==> exists i :: 0 <= i < |s| && IsDigit(s[i])
    ensures p.Int? && p.value != 0 ==> TrimStart(s) != [] && (p.value < 0 <==> TrimStart(s)[0] == '-')
  {
    var t := TrimStart(s);
    assert forall j :: 0 <= j < |t| ==> t[j] == s[|s| - |t| + j];
    ParseSigned(t)
  }

  /** An optional sign followed by digits. */
  function ParseSigned(t: string): (p: Parsed)
    ensures p.Int? ==> exists i :: 0 <= i < |t| && IsDigit(t[i])
    ensures p.Int? && p.value != 0 ==> (p.value < 0 <==> t[0] == '-')
  {
    if |t| > 0 && t[0] == '-' then
      var p := Negate(ParseDigits(t[1..]));
      assert p.Int? ==> IsDigit(t[1]);
      p
    else if |t| > 0 && t[0] == '+' then
      var p := ParseDigits(t[1..]);
      assert p.Int? ==> IsDigit(t[1]);
      p
    else ParseDigits(t)
  }

  /** The longest run of digits at the start of `u`, as a number. */
  function ParseDigits(u: string): (p: Parsed)
    ensures p.Int? <==> u != [] && IsDigit(u[0])
    ensures p.Int? ==> p.value >= 0
  {
    var ds := DigitPrefix(u);
    if ds == [] then NaN else Int(DigitsValue(ds))
  }

  function Negate(p: Parsed): Parsed {
    match p
    case NaN => NaN
    case Int(n) => Int(-n)
  }

  /** Decimal rendering of a natural number, without leading zeros. */
  function NatToString(n: nat): (s: string)
    ensures |s| > 0 && AllDigits(s)
    ensures s[0] == '0' <==> n == 0
    decreases n
  {
    if n < 10 then [DigitChar(n)] else NatToString(n / 10) + [DigitChar(n % 10)]
  }

  /** `n.toString()` for an integer `n` (minus zero is not an integer here, so
      `parseInt("-0")`, which JavaScript renders "0", is simply 0). */
  function IntToString(n: int): (s: string)
    ensures |s| > 0 && (s[0] == '-' <==> n < 0)
    ensures var digits := if n < 0 then s[1..] else s;
            |digits| > 0 && AllDigits(digits) && (digits[0] == '0' <==> n == 0)
  {
    if n < 0 then "-" + NatToString(-n) else NatToString(n)
  }

  /** The get trap's test: `parseInt(s, 10).toString() === s`, for keys whose
      integer JavaScript holds exactly. A key that does not parse fails. */
  predicate IsIndexKey(s: string)
    ensures IsIndexKey(s) ==> s != [] && (s[0] == '-' || IsDigit(s[0]))
  {
    match ParseInt(s)
    case NaN => false
    case Int(n) => -(MaxExact as int) <= n <= MaxExact && IntToString(n) == s
  }

  /** The digits of `s` after an optional leading minus sign. */
  function Magnitude(s: string): (m: string)
    ensures |m| <= |s| && m == s[|s| - |m|..]
  {
    if |s| > 0 && s[0] == '-' then s[1..] else s
  }

  /** An integer written the way JavaScript prints one: "0", or an optional
      minus sign followed by digits of which the first is not 0. */
  predicate IsCanonicalInteger(s: string) {
    s == "0" || (var m := Magnitude(s); m != [] && AllDigits(m) && m[0] != '0')
  }

  /** The magnitude of a canonical integer string, as a number. */
  function MagnitudeValue(s: string): nat
    requires IsCanonicalInteger(s)
  {
    if s == "0" then 0 else DigitsValue(Magnitude(s))
  }

  lemma {:induction false} DigitCharOfValue(c: char)
    requires IsDigit(c)
    ensures DigitChar(DigitValue(c)) == c
  {
  }

  lemma {:induction false} DigitPrefixOfDigits(ds: string)
    requires AllDigits(ds)
    ensures DigitPrefix(ds) == ds
    decreases |ds|
  {
    if ds != [] {
      DigitPrefixOfDigits(ds[1..]);
      assert [ds[0]] + ds[1..] == ds;
    }
  }

  /** Reading back a rendering gives the number rendered. */
  lemma {:induction false} DigitsValueOfNatToString(n: nat)
    ensures DigitsValue(NatToString(n)) == n
    decreases n
  {
    if n >= 10 {
      var s := NatToString(n);
      var p := NatToString(n / 10);
      assert s == p + [DigitChar(n % 10)];
      assert s[..|s| - 1] == p;
      DigitsValueOfNatToString(n / 10);
    }
  }

  lemma {:induction false} LeadingDigitPositive(ds: string)
    requires ds != [] && AllDigits(ds) && ds[0] != '0'
    ensures DigitsValue(ds) >= 1
    decreases |ds|
  {
    if |ds| > 1 {
      LeadingDigitPositive(ds[..|ds| - 1]);
    }
  }

  /** Rendering the number a digit string denotes gives that string back,
      provided it has no leading zero. */
  lemma {:induction false} NatToStringOfDigits(ds: string)
    requires ds != [] && AllDigits(ds) && (ds[0] != '0' || ds == "0")
    ensures NatToString(DigitsValue(ds)) == ds
    decreases |ds|
  {
    var n := DigitsValue(ds);
    if |ds| == 1 {
      assert ds[..|ds| - 1] == [];
      assert DigitsValue(ds[..|ds| - 1]) == 0;
      DigitCharOfValue(ds[0]);
      assert n == DigitValue(ds[0]);
      assert NatToString(n) == [ds[0]];
    } else {
      var p := ds[..|ds| - 1];
      LeadingDigitPositive(p);
      NatToStringOfDigits(p);
      assert n / 10 == DigitsValue(p) && n % 10 == DigitValue(ds[|ds| - 1]);
      DigitCharOfValue(ds[|ds| - 1]);
      assert ds == p + [ds[|ds| - 1]];
    }
  }

  lemma {:induction false} DigitIsNotWhiteSpace(c: char)
    requires IsDigit(c)
    ensures !IsWhiteSpace(c)
  {
  }

  /** `parseInt` reads a digit string as the number it denotes. */
  lemma {:induction false} ParseIntOfDigits(ds: string)
    requires ds != [] && AllDigits(ds)
    ensures ParseInt(ds) == Int(DigitsValue(ds))
  {
    DigitIsNotWhiteSpace(ds[0]);
    assert TrimStart(ds) == ds;
    DigitPrefixOfDigits(ds);
    assert ParseDigits(ds) == Int(DigitsValue(ds));
  }

  /** ... and a minus sign followed by digits as the negated number. */
  lemma {:induction false} ParseIntOfNegative(ds: string)
    requires ds != [] && AllDigits(ds)
    ensures ParseInt("-" + ds) == Int(-(DigitsValue(ds) as int))
  {
    var s := "-" + ds;
    assert s[0] == '-' && s[1..] == ds;
    assert !IsWhiteSpace('-');
    assert TrimStart(s) == s;
    DigitPrefixOfDigits(ds);
    assert ParseDigits(ds) == Int(DigitsValue(ds));
  }

  /** `parseInt` inverts `toString` on every integer. */
  lemma {:induction false} ParseIntToString(n: int)
    ensures ParseInt(IntToString(n)) == Int(n)
  {
    var m: nat := if n < 0 then -n else n;
    DigitsValueOfNatToString(m);
    if n < 0 {
      ParseIntOfNegative(NatToString(m));
    } else {
      ParseIntOfDigits(NatToString(m));
    }
  }

  /** Every rendering is canonical, and its magnitude is that of the number. */
  lemma {:induction false} IntToStringIsCanonical(n: int)
    ensures IsCanonicalInteger(IntToString(n))
    ensures MagnitudeValue(IntToString(n)) == if n < 0 then -n else n
  {
    var m: nat := if n < 0 then -n else n;
    var digits := NatToString(m);
    DigitsValueOfNatToString(m);
    if n < 0 {
      var s := "-" + digits;
      assert s[0] == '-' && s[1..] == digits;
      assert Magnitude(s) == digits;
    } else if n == 0 {
      assert digits == "0";
    } else {
      assert Magnitude(digits) == digits;
    }
  }

  /** A canonical string is the rendering of the integer it is read as. */
  lemma {:induction false} CanonicalIsIndexKey(s: string)
    requires IsCanonicalInteger(s) && MagnitudeValue(s) <= MaxExact
    ensures IsIndexKey(s)
  {
    hide ParseInt, NatToString;
    if s == "0" {
      assert DigitsValue("0") == 0 by { assert "0"[..0] == []; }
      ParseIntOfDigits("0");
      NatToStringOfDigits("0");
    } else {
      var mag := Magnitude(s);
      var v := DigitsValue(mag);
      NatToStringOfDigits(mag);
      LeadingDigitPositive(mag);
      if s[0] == '-' {
        assert s == "-" + mag;
        assert IntToString(-(v as int)) == s;
        ParseIntOfNegative(mag);
      } else {
        assert mag == s;
        assert IntToString(v) == s;
        ParseIntOfDigits(mag);
      }
    }
  }

  /** `parseInt("NaN")` is NaN, and a key that does not parse fails. */
  lemma NaNKeyRejected()
    ensures ParseInt("NaN") == NaN && !IsIndexKey("NaN")
  {
    assert !IsWhiteSpace("NaN"[0]) && !IsDigit("NaN"[0]);
    assert TrimStart("NaN") == "NaN";
  }

  /** What the get trap accepts, described without `parseInt`: exactly the
      canonical integer strings whose magnitude is at most 2^53. So "3" and
      "-3" are accepted, while "03", "+3", "3a", "-0" and " 3" are not. */
  lemma {:induction false} IndexKeyIsCanonical(s: string)
    ensures IsIndexKey(s) <==> IsCanonicalInteger(s) && MagnitudeValue(s) <= MaxExact
  {
    if IsIndexKey(s) {
      var n := ParseInt(s).value;
      assert IntToString(n) == s;
      IntToStringIsCanonical(n);
    }
    if IsCanonicalInteger(s) && MagnitudeValue(s) <= MaxExact {
      CanonicalIsIndexKey(s);
    }
  }

  /** "3" and "-3" are positions: the test also accepts negative integers. */
  lemma SignedIndexKeysAccepted()
    ensures IsIndexKey("3") && IsIndexKey("-3")
  {
    assert DigitsValue("3") == 3 by { assert "3"[..0] == []; }
    assert Magnitude("-3") == "3";
    CanonicalIsIndexKey("3");
    CanonicalIsIndexKey("-3");
  }

  /** "0" and "12" are positions. */
  lemma IndexKeysAccepted()
    ensures IsIndexKey("0") && IsIndexKey("12")
  {
    assert DigitsValue("12") == 12 by { assert "12"[..1] == "1"; assert "1"[..0] == []; }
    CanonicalIsIndexKey("0");
    CanonicalIsIndexKey("12");
  }

  /** Only canonical strings pass the test. */
  lemma {:induction false} NonCanonicalRejected(s: string)
    requires !IsCanonicalInteger(s)
    ensures !IsIndexKey(s)
  {
    IndexKeyIsCanonical(s);
  }

  /** A leading zero disqualifies a key of two or more characters. */
  lemma LeadingZeroRejected(s: string)
    requires |s| > 1 && (s[0] == '0' || (s[0] == '-' && s[1] == '0'))
    ensures !IsIndexKey(s)
  {
    if s[0] == '0' {
      assert Magnitude(s) == s;
    }
    NonCanonicalRejected(s);
  }

  /** So does a character other than a digit after a leading digit. */
  lemma TrailingTextRejected(s: string, i: nat)
    requires 0 < i < |s| && IsDigit(s[0]) && !IsDigit(s[i])
    ensures !IsIndexKey(s)
  {
    assert Magnitude(s) == s;
    NonCanonicalRejected(s);
  }

  /** A leading zero, an explicit plus sign or trailing text disqualifies a key. */
  lemma MalformedIndexKeysRejected()
    ensures !IsIndexKey("03") && !IsIndexKey("+3") && !IsIndexKey("3a")
  {
    LeadingZeroRejected("03");
    TrailingTextRejected("3a", 1);
  }

  /** So do "-0" (which reads back as "0"), the empty key, leading white space
      and a name such as "length". */
  lemma OtherKeysRejected()
    ensures !IsIndexKey("-0") && !IsIndexKey("") && !IsIndexKey(" 3") && !IsIndexKey("length")
  {
    LeadingZeroRejected("-0");
  }
}
