/**
 Decimal and hexadecimal text: `Display` for integers, `from_str` and `from_str_radix`, and the
 hex encoding of byte strings (section 8 of RFC 4648).
 */
module Numbers {
  import opened Wrappers
  import opened Bytes
  import opened Text

  const I64_MIN: int := -0x8000_0000_0000_0000
  const I64_MAX: int := 0x7FFF_FFFF_FFFF_FFFF
  /** The number of values of a 64-bit `usize`. */
  const USIZE: int := 0x1_0000_0000_0000_0000
  /** `isize::MAX`, the length no Rust slice exceeds. */
  const MAX_SLICE: int := 0x7FFF_FFFF_FFFF_FFFF
  const U16_MAX: int := 0xFFFF

  type Radix = r: nat | r == 10 || r == 16 witness 10

  predicate IsI64(n: int) { I64_MIN <= n <= I64_MAX }

  /** Two's-complement wrap-around of a release-build `i64` result. */
  function WrapI64(n: int): (r: int)
    ensures IsI64(r)
    ensures IsI64(n) ==> r == n
  {
    (n - I64_MIN) % USIZE + I64_MIN
  }

  /** A wrapped result differs from the exact one by a multiple of two to the 64. */
  lemma WrapsByWords(n: int)
    ensures (n - WrapI64(n)) % USIZE == 0
  {
    var r := (n - I64_MIN) % USIZE;
    assert n - WrapI64(n) == (n - I64_MIN) - r == (n - I64_MIN) / USIZE * USIZE;
  }

  /** Wrap-around of a release-build `usize` sum. */
  function WrapUsize(n: nat): (r: nat) { n % USIZE }

  function DigitChar(d: nat): char
    requires d < 16
  {
    "0123456789abcdef"[d]
  }

  function DigitValue(c: char): (r: Option<nat>)
    ensures r.Some? ==> r.value < 16
  {
    if '0' <= c <= '9' then Some(c as int - '0' as int)
    else if 'a' <= c <= 'f' then Some(c as int - 'a' as int + 10)
    else if 'A' <= c <= 'F' then Some(c as int - 'A' as int + 10)
    else None
  }

  function PrintNat(n: nat, radix: Radix): (s: string)
    ensures s != ""
    decreases n
  {
    if n < radix then [DigitChar(n)] else PrintNat(n / radix, radix) + [DigitChar(n % radix)]
  }

  /** The value of a possibly empty run of digits. */
  function DigitsValue(s: string, radix: Radix): Option<nat> {
    if s == "" then Some(0)
    else
      var high :- DigitsValue(s[..|s| - 1], radix);
      var low :- DigitValue(s[|s| - 1]);
      if low < radix then Some(high * radix + low) else None
  }

  /** `uN::from_str_radix`: an optional plus sign, at least one digit, and no overflow. */
  function ParseUnsigned(s: string, radix: Radix, max: nat): Option<nat> {
    var digits := if s != "" && s[0] == '+' then s[1..] else s;
    if digits == "" then None
    else
      var n :- DigitsValue(digits, radix);
      if n <= max then Some(n) else None
  }

  /** `str::parse::<i64>`. */
  function ParseI64(s: string): (r: Option<int>)
    ensures r.Some? ==> IsI64(r.value)
  {
    if s != "" && s[0] == '-' then
      if s[1..] == "" then None
      else
        var n: int :- DigitsValue(s[1..], 10);
        if I64_MIN <= -n then Some(-n) else None
    else ParseUnsigned(s, 10, I64_MAX)
  }

  function PrintInt(n: int): string {
    if n < 0 then "-" + PrintNat(-n, 10) else PrintNat(n, 10)
  }

  lemma DigitCharValue(d: nat)
    requires d < 16
    ensures DigitValue(DigitChar(d)) == Some(d)
    ensures '0' <= DigitChar(d) <= '9' || 'a' <= DigitChar(d) <= 'f'
    ensures d < 10 ==> '0' <= DigitChar(d) <= '9'
  {
  }

  /** Printed digits are lower-case digits, and their value is the number printed. */
  lemma {:induction false} PrintedValue(n: nat, radix: Radix)
    ensures DigitsValue(PrintNat(n, radix), radix) == Some(n)
    ensures forall i | 0 <= i < |PrintNat(n, radix)| ::
              var c := PrintNat(n, radix)[i];
              '0' <= c <= '9' || (radix == 16 && 'a' <= c <= 'f')
    decreases n
  {
    var s := PrintNat(n, radix);
    hide DigitChar, DigitValue;
    if n < radix {
      DigitCharValue(n);
      assert s[..0] == "";
    } else {
      PrintedValue(n / radix, radix);
      DigitCharValue(n % radix);
      assert s[..|s| - 1] == PrintNat(n / radix, radix);
    }
  }

  lemma ParsePrinted(n: nat, radix: Radix, max: nat)
    ensures ParseUnsigned(PrintNat(n, radix), radix, max) == if n <= max then Some(n) else None
  {
    hide DigitsValue, PrintNat, DigitValue;
    PrintedValue(n, radix);
  }

  lemma ParsePrintedInt(n: int)
    requires IsI64(n)
    ensures ParseI64(PrintInt(n)) == Some(n)
  {
    hide DigitsValue, PrintNat, DigitValue;
    if n < 0 {
      PrintedValue(-n, 10);
      assert PrintInt(n)[1..] == PrintNat(-n, 10);
    } else {
      PrintedValue(n, 10);
    }
  }

  lemma PrintInjective(m: nat, n: nat, radix: Radix)
    requires PrintNat(m, radix) == PrintNat(n, radix)
    ensures m == n
  {
    PrintedValue(m, radix);
    PrintedValue(n, radix);
  }

  // ----- what the parsers read -----

  function ZeroDigits(k: nat): string { seq(k, _ => '0') }

  /** Leading zeros, then the print of `n`, in digits of either case. */
  ghost predicate IsNumeral(s: string, n: nat, radix: Radix) {
    exists k: nat :: ToLower(s) == ZeroDigits(k) + PrintNat(n, radix)
  }

  /** A numeral, perhaps after a plus sign. */
  ghost predicate SpellsUnsigned(s: string, n: nat, radix: Radix) {
    || IsNumeral(s, n, radix)
    || (s != "" && s[0] == '+' && IsNumeral(s[1..], n, radix))
  }

  /** A decimal numeral, perhaps after a plus sign; or, for zero and below, after a minus sign. */
  ghost predicate SpellsInt(s: string, n: int) {
    || (n >= 0 && SpellsUnsigned(s, n, 10))
    || (n <= 0 && s != "" && s[0] == '-' && IsNumeral(s[1..], -n, 10))
  }

  lemma DigitOfEitherCase(c: char, d: nat)
    requires d < 16
    ensures DigitValue(c) == Some(d) <==> LowerChar(c) == DigitChar(d)
  {
  }

  lemma LowerSnoc(s: string, c: char)
    ensures ToLower(s + [c]) == ToLower(s) + [LowerChar(c)]
  {
  }

  lemma ExtendNumeral(s: string, high: nat, c: char, low: nat, radix: Radix, n: nat)
    requires IsNumeral(s, high, radix) && low < radix && DigitValue(c) == Some(low) && n == high * radix + low
    ensures IsNumeral(s + [c], n, radix)
  {
    hide ToLower, DigitValue, LowerChar, DigitChar;
    var k: nat :| ToLower(s) == ZeroDigits(k) + PrintNat(high, radix);
    LowerSnoc(s, c);
    DigitOfEitherCase(c, low);
    DivideBack(high, radix, low, n);
    if high == 0 {
      assert PrintNat(0, radix) == "0" by { DigitZero(); }
      assert ZeroDigits(k) + "0" == ZeroDigits(k + 1);
      assert ToLower(s + [c]) == ZeroDigits(k + 1) + PrintNat(low, radix);
    } else {
      assert ToLower(s + [c]) == ZeroDigits(k) + PrintNat(n, radix);
    }
  }

  lemma DigitZero()
    ensures DigitChar(0) == '0'
  {
  }

  lemma DivideBack(high: nat, radix: Radix, low: nat, n: nat)
    requires low < radix && n == high * radix + low
    ensures n / radix == high && n % radix == low
    ensures high > 0 ==> n >= radix
  {
    if radix == 16 {
    } else {
      assert radix == 10;
    }
  }

  /** Digits with a value are a numeral of it. */
  lemma {:induction false} ValueIsNumeral(s: string, radix: Radix)
    requires s != "" && DigitsValue(s, radix).Some?
    ensures IsNumeral(s, DigitsValue(s, radix).value, radix)
  {
    hide DigitValue, IsNumeral;
    var init, c := s[..|s| - 1], s[|s| - 1];
    assert s == init + [c];
    if init == "" {
      assert DigitsValue(init, radix) == Some(0);
      OneDigitNumeral(c, DigitValue(c).value, radix);
      assert s == [c];
    } else {
      ValueIsNumeral(init, radix);
      ExtendNumeral(init, DigitsValue(init, radix).value, c, DigitValue(c).value, radix, DigitsValue(s, radix).value);
    }
  }

  lemma OneDigitNumeral(c: char, d: nat, radix: Radix)
    requires d < radix && DigitValue(c) == Some(d)
    ensures IsNumeral([c], d, radix)
  {
    DigitOfEitherCase(c, d);
    hide DigitValue, LowerChar, DigitChar;
    assert ToLower([c]) == ZeroDigits(0) + PrintNat(d, radix);
  }

  lemma {:induction false} ValueOfEitherCase(s: string, radix: Radix)
    ensures DigitsValue(ToLower(s), radix) == DigitsValue(s, radix)
  {
    hide DigitValue, LowerChar;
    if s != "" {
      var n := |s| - 1;
      ValueOfEitherCase(s[..n], radix);
      assert ToLower(s)[..n] == ToLower(s[..n]);
      SameDigit(s[n]);
    }
  }

  lemma SameDigit(c: char)
    ensures DigitValue(LowerChar(c)) == DigitValue(c)
  {
  }

  lemma {:induction false} ValueAfterZeros(k: nat, s: string, radix: Radix)
    ensures DigitsValue(ZeroDigits(k) + s, radix) == DigitsValue(s, radix)
    decreases k + |s|
  {
    hide DigitValue;
    assert DigitValue('0') == Some(0) by { DigitCharValue(0); DigitZero(); }
    var t := ZeroDigits(k) + s;
    if s != "" {
      ValueAfterZeros(k, s[..|s| - 1], radix);
      assert t[..|t| - 1] == ZeroDigits(k) + s[..|s| - 1];
    } else if k > 0 {
      ValueAfterZeros(k - 1, "", radix);
      assert t[..|t| - 1] == ZeroDigits(k - 1) + "";
    }
  }

  /** Digits have a value exactly when they are a numeral of it. */
  lemma NumeralIff(s: string, n: nat, radix: Radix)
    ensures s != "" && DigitsValue(s, radix) == Some(n) <==> IsNumeral(s, n, radix)
  {
    hide DigitsValue, PrintNat;
    if s != "" && DigitsValue(s, radix) == Some(n) {
      ValueIsNumeral(s, radix);
    }
    if IsNumeral(s, n, radix) {
      var k: nat :| ToLower(s) == ZeroDigits(k) + PrintNat(n, radix);
      ValueOfEitherCase(s, radix);
      ValueAfterZeros(k, PrintNat(n, radix), radix);
      PrintedValue(n, radix);
    }
  }

  lemma {:induction false} NumeralDigits(s: string, radix: Radix)
    requires DigitsValue(s, radix).Some?
    ensures AllHexDigits(s)
  {
    hide DigitValue;
    if s != "" {
      NumeralDigits(s[..|s| - 1], radix);
      assert s == s[..|s| - 1] + [s[|s| - 1]];
    }
  }

  lemma SpelledDigits(s: string, n: nat, radix: Radix)
    requires SpellsUnsigned(s, n, radix)
    ensures s != "" && AllHexDigits(s[1..]) && (s[0] == '+' || DigitValue(s[0]).Some?)
  {
    hide DigitsValue, IsNumeral, DigitValue;
    NumeralIff(s, n, radix);
    if IsNumeral(s, n, radix) {
      NumeralDigits(s, radix);
    } else {
      NumeralIff(s[1..], n, radix);
      NumeralDigits(s[1..], radix);
    }
  }

  lemma {:induction false} NoSignInside(s: string, radix: Radix)
    requires s != "" && DigitsValue(s, radix).Some?
    ensures s[0] != '+' && s[0] != '-'
  {
    if |s| > 1 {
      NoSignInside(s[..|s| - 1], radix);
    }
  }

  /** The unsigned parser reads exactly the spellings of the numbers up to its bound. */
  lemma ParseUnsignedIff(s: string, radix: Radix, max: nat, n: nat)
    ensures ParseUnsigned(s, radix, max) == Some(n) <==> n <= max && SpellsUnsigned(s, n, radix)
  {
    hide DigitsValue, IsNumeral;
    NumeralIff(s, n, radix);
    if s != "" && DigitsValue(s, radix).Some? {
      NoSignInside(s, radix);
    }
    if s != "" && s[0] == '+' {
      NumeralIff(s[1..], n, radix);
    }
  }

  /** The integer parser reads exactly the spellings of the 64-bit integers. */
  lemma ParseI64Iff(s: string, n: int)
    ensures ParseI64(s) == Some(n) <==> IsI64(n) && SpellsInt(s, n)
  {
    hide DigitsValue, IsNumeral, ParseUnsigned;
    if s != "" && s[0] == '-' {
      NoNumeralAfterMinus(s);
      if n <= 0 {
        NumeralIff(s[1..], -n, 10);
      }
      if ParseI64(s) == Some(n) {
        assert n <= 0;
      }
    } else if n >= 0 {
      ParseUnsignedIff(s, 10, I64_MAX, n);
    }
  }

  lemma NoNumeralAfterMinus(s: string)
    requires s != "" && s[0] == '-'
    ensures forall n: nat :: !SpellsUnsigned(s, n, 10)
  {
    hide DigitsValue, IsNumeral;
    forall n: nat
      ensures !IsNumeral(s, n, 10)
    {
      NumeralIff(s, n, 10);
      if DigitsValue(s, 10).Some? {
        NoSignInside(s, 10);
      }
    }
  }

  /** Canonical digits: no leading zero. */
  predicate Canonical(s: string) {
    s != "" && (|s| == 1 || s[0] != '0')
  }

  lemma {:induction false} PrintedIsCanonical(n: nat, radix: Radix)
    ensures Canonical(PrintNat(n, radix))
    ensures n > 0 ==> PrintNat(n, radix)[0] != '0'
    decreases n
  {
    if n >= radix {
      PrintedIsCanonical(n / radix, radix);
    }
  }

  predicate AllDecimal(s: string) {
    forall i | 0 <= i < |s| :: '0' <= s[i] <= '9'
  }

  /** Integers print as canonical decimal digits, after a minus sign below zero and never a plus sign. */
  lemma PrintedIntShape(n: int)
    ensures n >= 0 ==> Canonical(PrintInt(n)) && AllDecimal(PrintInt(n))
    ensures n < 0 ==> PrintInt(n)[0] == '-' && Canonical(PrintInt(n)[1..]) && AllDecimal(PrintInt(n)[1..])
  {
    hide PrintNat, DigitsValue;
    var m: nat := if n < 0 then -n else n;
    PrintedIsCanonical(m, 10);
    PrintedValue(m, 10);
  }

  lemma DecimalDigit(c: char)
    requires '0' <= c <= '9'
    ensures DigitValue(c).Some? && DigitValue(c).value < 10 && DigitChar(DigitValue(c).value) == c
    ensures c != '0' ==> DigitValue(c).value > 0
  {
  }

  lemma LastDigit(high: nat, low: nat)
    requires low < 10
    ensures (high * 10 + low) / 10 == high && (high * 10 + low) % 10 == low
  {
  }

  /** A canonical run of decimal digits is the print of its value. */
  lemma {:induction false} CanonicalIsPrinted(s: string)
    requires Canonical(s) && AllDecimal(s)
    ensures DigitsValue(s, 10).Some? && PrintNat(DigitsValue(s, 10).value, 10) == s
    ensures s[0] != '0' ==> DigitsValue(s, 10).value > 0
  {
    hide DigitChar, DigitValue;
    var n := |s| - 1;
    DecimalDigit(s[n]);
    if n == 0 {
      assert s[..0] == "";
    } else {
      CanonicalIsPrinted(s[..n]);
      LastDigit(DigitsValue(s[..n], 10).value, DigitValue(s[n]).value);
      assert s == s[..n] + [s[n]];
    }
  }

  /** `hex::encode`. */
  function HexEncode(b: bytes): (s: string)
    ensures |s| == 2 * |b|
  {
    seq(2 * |b|, k requires 0 <= k < 2 * |b| => DigitChar(if k % 2 == 0 then b[k / 2] / 16 else b[k / 2] % 16))
  }

  predicate AllHexDigits(s: string) {
    forall k | 0 <= k < |s| :: DigitValue(s[k]).Some?
  }

  /** `hex::decode`: pairs of digits of either case; an odd length is an error. */
  function HexDecode(s: string): (r: Option<bytes>)
    ensures r.Some? ==> |s| == 2 * |r.value|
  {
    if |s| % 2 == 0 && AllHexDigits(s) then
      Some(seq(|s| / 2, i requires 0 <= i < |s| / 2 => HexByte(s[2 * i], s[2 * i + 1])))
    else None
  }

  function HexByte(high: char, low: char): byte
    requires DigitValue(high).Some? && DigitValue(low).Some?
  {
    DigitValue(high).value * 16 + DigitValue(low).value
  }

  lemma EncodedPair(b: bytes, i: nat)
    requires i < |b|
    ensures DigitValue(HexEncode(b)[2 * i]) == Some(b[i] / 16)
    ensures DigitValue(HexEncode(b)[2 * i + 1]) == Some(b[i] % 16)
  {
    DigitCharValue(b[i] / 16);
    DigitCharValue(b[i] % 16);
    hide DigitChar, DigitValue;
  }

  lemma HexRoundTrip(b: bytes)
    ensures HexDecode(HexEncode(b)) == Some(b)
  {
    hide DigitValue, HexEncode;
    var s := HexEncode(b);
    forall i | 0 <= i < |b|
      ensures DigitValue(s[2 * i]).Some? && DigitValue(s[2 * i + 1]).Some?
      ensures HexByte(s[2 * i], s[2 * i + 1]) == b[i]
    {
      EncodedPair(b, i);
    }
    forall k | 0 <= k < |s|
      ensures DigitValue(s[k]).Some?
    {
      EncodedPair(b, k / 2);
      assert k == 2 * (k / 2) || k == 2 * (k / 2) + 1;
    }
    assert AllHexDigits(s) && |s| % 2 == 0;
    hide HexByte;
    var d := HexDecode(s).value;
    assert forall i | 0 <= i < |b| :: d[i] == HexByte(s[2 * i], s[2 * i + 1]);
    assert d == b;
  }

  /** Hexadecimal text decodes to some bytes exactly when it is their encoding in either case. */
  lemma HexDecodeIff(s: string, b: bytes)
    ensures HexDecode(s) == Some(b) <==> ToLower(s) == HexEncode(b)
  {
    hide DigitChar, DigitValue, LowerChar, HexEncode;
    if HexDecode(s) == Some(b) {
      forall k | 0 <= k < |s|
        ensures ToLower(s)[k] == HexEncode(b)[k]
      {
        RestoredDigit(s, k);
        DigitOfEitherCase(s[k], DigitValue(s[k]).value);
      }
      assert ToLower(s) == HexEncode(b);
    }
    if ToLower(s) == HexEncode(b) {
      forall i | 0 <= i < |b|
        ensures DigitValue(s[2 * i]) == Some(b[i] / 16) && DigitValue(s[2 * i + 1]) == Some(b[i] % 16)
      {
        EncodedPair(b, i);
        assert LowerChar(s[2 * i]) == ToLower(s)[2 * i] && LowerChar(s[2 * i + 1]) == ToLower(s)[2 * i + 1];
        SameDigit(s[2 * i]);
        SameDigit(s[2 * i + 1]);
      }
      PairsDecode(s, b);
    }
  }

  lemma PairsDecode(s: string, b: bytes)
    requires |s| == 2 * |b|
    requires forall i | 0 <= i < |b| ::
               DigitValue(s[2 * i]) == Some(b[i] / 16) && DigitValue(s[2 * i + 1]) == Some(b[i] % 16)
    ensures HexDecode(s) == Some(b)
  {
    hide DigitValue;
    forall k | 0 <= k < |s|
      ensures DigitValue(s[k]).Some?
    {
      var i := k / 2;
      assert DigitValue(s[2 * i]).Some? && DigitValue(s[2 * i + 1]).Some?;
      assert k == 2 * i || k == 2 * i + 1;
    }
    assert AllHexDigits(s) && |s| % 2 == 0;
    var d := HexDecode(s).value;
    forall i | 0 <= i < |b|
      ensures d[i] == b[i]
    {
      assert d[i] == HexByte(s[2 * i], s[2 * i + 1]);
    }
    assert d == b;
  }

  predicate IsUpper(c: char) { 'A' <= c <= 'Z' }

  predicate NoUpperCase(s: string) {
    forall i | 0 <= i < |s| :: !IsUpper(s[i])
  }

  lemma DigitCanonical(c: char)
    requires DigitValue(c).Some?
    ensures DigitChar(DigitValue(c).value) == c <==> !IsUpper(c)
  {
  }

  /** Decoded hex text is the encoding of its bytes exactly when it has no upper-case digit. */
  lemma HexCanonical(s: string)
    requires HexDecode(s).Some?
    ensures HexEncode(HexDecode(s).value) == s <==> NoUpperCase(s)
  {
    hide DigitChar, DigitValue, IsUpper;
    var e := HexEncode(HexDecode(s).value);
    forall k | 0 <= k < |s|
      ensures e[k] == s[k] <==> !IsUpper(s[k])
    {
      DigitCanonical(s[k]);
      RestoredDigit(s, k);
    }
    hide HexEncode, HexDecode;
    if NoUpperCase(s) {
      assert e == s;
    }
  }

  lemma RestoredDigit(s: string, k: nat)
    requires HexDecode(s).Some? && k < |s|
    ensures HexEncode(HexDecode(s).value)[k] == DigitChar(DigitValue(s[k]).value)
  {
    hide DigitChar, DigitValue;
    var i := k / 2;
    var high, low := DigitValue(s[2 * i]).value, DigitValue(s[2 * i + 1]).value;
    assert (high * 16 + low) / 16 == high && (high * 16 + low) % 16 == low;
    assert k == 2 * i || k == 2 * i + 1;
  }

  /** The encoding is the one hexadecimal text of its bytes without upper-case digits. */
  lemma HexEncodedIff(s: string, b: bytes)
    ensures s == HexEncode(b) <==> HexDecode(s) == Some(b) && NoUpperCase(s)
  {
    hide HexEncode, HexDecode, NoUpperCase;
    HexRoundTrip(b);
    HexCanonical(HexEncode(b));
    if HexDecode(s) == Some(b) {
      HexCanonical(s);
    }
  }
}
