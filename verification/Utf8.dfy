/**
 UTF-8 as `std::str::from_utf8` and `str::as_bytes` see it. A Rust `str` is a `string` of
 Unicode scalar values; its `len()` is the length of its encoding.
 */
module Utf8 {
  import opened Wrappers
  import opened Bytes

  function EncodeChar(c: char): (r: bytes)
    ensures 1 <= |r| <= 4
    ensures |r| == 1 <==> c as int < 0x80
  {
    var n := c as int;
    if n < 0x80 then [n]
    else if n < 0x800 then [0xC0 + n / 64, 0x80 + n % 64]
    else if n < 0x1_0000 then [0xE0 + n / 4096, 0x80 + n / 64 % 64, 0x80 + n % 64]
    else [0xF0 + n / 26_2144, 0x80 + n / 4096 % 64, 0x80 + n / 64 % 64, 0x80 + n % 64]
  }

  function Encode(s: string): bytes {
    if s == "" then [] else EncodeChar(s[0]) + Encode(s[1..])
  }

  predicate IsContinuation(b: byte) { 0x80 <= b < 0xC0 }

  /** The low bits a continuation or lead byte carries. */
  function Low(b: byte, marker: int): int { b as int - marker }

  /** The value of the multi-byte sequence at the head of `b`, before range checks. */
  function HeadValue(b: bytes): (r: Option<(int, nat)>)
    requires b != []
    ensures r.Some? ==> 1 <= r.value.1 <= |b|
  {
    if b[0] < 0x80 then Some((b[0] as int, 1))
    else if 0xC2 <= b[0] < 0xE0 && |b| >= 2 && IsContinuation(b[1]) then
      Some((Low(b[0], 0xC0) * 64 + Low(b[1], 0x80), 2))
    else if 0xE0 <= b[0] < 0xF0 && |b| >= 3 && IsContinuation(b[1]) && IsContinuation(b[2]) then
      Some((Low(b[0], 0xE0) * 4096 + Low(b[1], 0x80) * 64 + Low(b[2], 0x80), 3))
    else if 0xF0 <= b[0] < 0xF5 && |b| >= 4 && IsContinuation(b[1]) && IsContinuation(b[2])
            && IsContinuation(b[3]) then
      Some((Low(b[0], 0xF0) * 26_2144 + Low(b[1], 0x80) * 4096 + Low(b[2], 0x80) * 64 + Low(b[3], 0x80), 4))
    else None
  }

  /** Overlong forms, surrogates and values above U+10FFFF are malformed. */
  predicate WellFormedValue(n: int, width: nat) {
    && (0 <= n < 0xD800 || 0xE000 <= n < 0x11_0000)
    && (width == 3 ==> 0x800 <= n)
    && (width == 4 ==> 0x1_0000 <= n)
  }

  function DecodeHead(b: bytes): (r: Option<(char, nat)>)
    requires b != []
    ensures r.Some? ==> 1 <= r.value.1 <= |b|
  {
    var (n, width) :- HeadValue(b);
    if WellFormedValue(n, width) then Some((n as char, width)) else None
  }

  /** `std::str::from_utf8`. */
  function Decode(b: bytes): Option<string> {
    if b == [] then Some("")
    else
      var (c, width) :- DecodeHead(b);
      var rest :- Decode(b[width..]);
      Some([c] + rest)
  }

  /** A code point is the sum of its six-bit groups. */
  lemma SixBitGroups(n: nat)
    ensures n == n / 64 * 64 + n % 64
    ensures n / 64 == n / 4096 * 64 + n / 64 % 64
    ensures n / 4096 == n / 26_2144 * 64 + n / 4096 % 64
  {
    assert n / 64 / 64 == n / 4096;
    assert n / 4096 / 64 == n / 26_2144;
  }

  lemma DecodeEncodedHead(c: char, rest: bytes)
    ensures DecodeHead(EncodeChar(c) + rest) == Some((c, |EncodeChar(c)|))
  {
    var n := c as int;
    SixBitGroups(n);
    var e := EncodeChar(c);
    var b := e + rest;
    assert b[0] == e[0];
    if n < 0x80 {
    } else if n < 0x800 {
      assert b[1] == e[1];
    } else if n < 0x1_0000 {
      assert b[1] == e[1] && b[2] == e[2];
    } else {
      assert b[1] == e[1] && b[2] == e[2] && b[3] == e[3];
    }
    assert HeadValue(b) == Some((n, |e|));
  }

  lemma LowGroup(n: int, high: int, low: int)
    requires n == high * 64 + low && 0 <= low < 64
    ensures n / 64 == high && n % 64 == low
  {
  }

  lemma EncodeDecodedHead(b: bytes)
    requires b != [] && DecodeHead(b).Some?
    ensures var (c, width) := DecodeHead(b).value; EncodeChar(c) == b[..width]
  {
    var (c, width) := DecodeHead(b).value;
    var n := c as int;
    if width == 2 {
      LowGroup(n, Low(b[0], 0xC0), Low(b[1], 0x80));
    } else if width == 3 {
      LowGroup(n, Low(b[0], 0xE0) * 64 + Low(b[1], 0x80), Low(b[2], 0x80));
      LowGroup(n / 64, Low(b[0], 0xE0), Low(b[1], 0x80));
      SixBitGroups(n);
    } else if width == 4 {
      LowGroup(n, Low(b[0], 0xF0) * 4096 + Low(b[1], 0x80) * 64 + Low(b[2], 0x80), Low(b[3], 0x80));
      LowGroup(n / 64, Low(b[0], 0xF0) * 64 + Low(b[1], 0x80), Low(b[2], 0x80));
      SixBitGroups(n);
      LowGroup(n / 4096, Low(b[0], 0xF0), Low(b[1], 0x80));
    }
  }

  lemma {:induction false} DecodeEncoded(s: string)
    ensures Decode(Encode(s)) == Some(s)
  {
    if s != "" {
      hide DecodeHead, EncodeChar;
      DecodeEncodedHead(s[0], Encode(s[1..]));
      DecodeEncoded(s[1..]);
      assert Encode(s)[|EncodeChar(s[0])|..] == Encode(s[1..]);
      assert s == [s[0]] + s[1..];
    }
  }

  lemma {:induction false} EncodeDecoded(b: bytes)
    requires Decode(b).Some?
    ensures Encode(Decode(b).value) == b
  {
    if b != [] {
      EncodeDecodedHead(b);
      hide DecodeHead, EncodeChar;
      var width := DecodeHead(b).value.1;
      EncodeDecoded(b[width..]);
      var s := Decode(b).value;
      assert s[1..] == Decode(b[width..]).value;
      assert b == b[..width] + b[width..];
    }
  }

  /** Decoding is exactly the inverse of encoding: only the encoding of `s` decodes to `s`. */
  lemma DecodeIffEncoded(b: bytes, s: string)
    ensures Decode(b) == Some(s) <==> b == Encode(s)
  {
    hide Decode, Encode;
    DecodeEncoded(s);
    if Decode(b).Some? {
      EncodeDecoded(b);
    }
  }

  lemma {:induction false} EncodeConcat(s: string, t: string)
    ensures Encode(s + t) == Encode(s) + Encode(t)
  {
    if s == "" {
      assert s + t == t;
    } else {
      assert (s + t)[1..] == s[1..] + t;
      EncodeConcat(s[1..], t);
    }
  }

  lemma EncodeCons(s: string, rest: bytes)
    requires s != ""
    ensures Encode(s) + rest == EncodeChar(s[0]) + (Encode(s[1..]) + rest)
    ensures DecodeHead(Encode(s) + rest) == Some((s[0], |EncodeChar(s[0])|))
    ensures (Encode(s) + rest)[|EncodeChar(s[0])|..] == Encode(s[1..]) + rest
  {
    DecodeEncodedHead(s[0], Encode(s[1..]) + rest);
  }

  /** If one text's encoding is a prefix of another's, so is the text itself. */
  lemma {:induction false} EncodePrefix(s: string, t: string, rest: bytes)
    requires Encode(s) + rest == Encode(t)
    ensures s <= t && Encode(t[|s|..]) == rest
  {
    if s == "" {
    } else {
      hide DecodeHead, EncodeChar;
      EncodeCons(s, rest);
      assert t != "";
      EncodeCons(t, []);
      assert Encode(t) + [] == Encode(t) && Encode(t[1..]) + [] == Encode(t[1..]);
      EncodePrefix(s[1..], t[1..], rest);
      assert s == [s[0]] + s[1..] && t == [t[0]] + t[1..];
      assert t[|s|..] == t[1..][|s[1..]|..];
    }
  }

  predicate IsAscii(s: string) {
    forall i | 0 <= i < |s| :: s[i] as int < 0x80
  }

  /** On ASCII text the encoding is character by character. */
  lemma {:induction false} EncodeAscii(s: string)
    requires IsAscii(s)
    ensures |Encode(s)| == |s|
    ensures forall i | 0 <= i < |s| :: Encode(s)[i] == s[i] as int
  {
    if s != "" {
      EncodeAscii(s[1..]);
    }
  }

  /** No text is shorter in bytes than in characters, and only ASCII text is as short. */
  lemma {:induction false} EncodedLength(s: string)
    ensures |Encode(s)| >= |s|
    ensures |Encode(s)| == |s| <==> IsAscii(s)
  {
    if s != "" {
      EncodedLength(s[1..]);
      assert s == [s[0]] + s[1..];
      if IsAscii(s) { assert IsAscii(s[1..]); }
    }
  }

  /** An ASCII byte occurs in an encoding only where that character occurs in the text. */
  lemma {:induction false} AsciiByteIsChar(s: string, k: nat)
    requires k < |Encode(s)| && Encode(s)[k] < 0x80
    ensures exists i :: 0 <= i < |s| && s[i] as int == Encode(s)[k] && k == |Encode(s[..i])|
  {
    var w := |EncodeChar(s[0])|;
    if k < w {
      assert s[..0] == "";
      assert s[0] as int == Encode(s)[k];
    } else {
      AsciiByteIsChar(s[1..], k - w);
      var i :| 0 <= i < |s[1..]| && s[1..][i] as int == Encode(s[1..])[k - w]
               && k - w == |Encode(s[1..][..i])|;
      assert s[..i + 1][1..] == s[1..][..i];
      assert s[i + 1] as int == Encode(s)[k];
    }
  }

  /** The only one-byte encodings are those of ASCII characters. */
  lemma AsciiByteOnly(s: string, b: byte)
    requires Encode(s) == [b]
    ensures b < 0x80
  {
    assert Encode(s) == EncodeChar(s[0]) + Encode(s[1..]);
    assert |EncodeChar(s[0])| == 1 && [b][0] == EncodeChar(s[0])[0];
  }
}
