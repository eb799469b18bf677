// helpers::urldecode of helpers.cpp, against percent-decoding as in section 2.1 of RFC 3986.
module UrlDecode {
  import opened Common

  const PERCENT: byte := 37
  const DIGIT_0: byte := 48
  const UPPER_A: byte := 65
  const LOWER_A: byte := 97

  // isxdigit
  predicate IsHex(b: byte) {
    DIGIT_0 <= b < DIGIT_0 + 10 || UPPER_A <= b < UPPER_A + 6 || LOWER_A <= b < LOWER_A + 6
  }

  function HexValue(b: byte): (v: int)
    requires IsHex(b)
    ensures 0 <= v < 16
  {
    if b < UPPER_A then b as int - 48 else if b < LOWER_A then b as int - 55 else b as int - 87
  }

  // A percent sign followed by two hexadecimal digits is one byte; anything else is itself.
  function Decode(s: seq<byte>): (d: seq<byte>)
    ensures |d| <= |s|
  {
    if s == [] then []
    else if |s| >= 3 && s[0] == PERCENT && IsHex(s[1]) && IsHex(s[2]) then
      [16 * HexValue(s[1]) + HexValue(s[2])] + Decode(s[3..])
    else [s[0]] + Decode(s[1..])
  }

  // The characters of a NUL-terminated string that fills its array.
  ghost predicate IsCString(src: array<byte>)
    reads src
  {
    src.Length > 0 && src[src.Length - 1] == 0 && forall i :: 0 <= i < src.Length - 1 ==> src[i] != 0
  }

  // The adjustments made to each of the two digits: to upper case, then to a value.
  method FromHex(b: byte) returns (v: int)
    requires IsHex(b)
    ensures v == HexValue(b)
  {
    v := b;
    if v >= 97 {
      v := v - 32;
    }
    if v >= 65 {
      v := v - 55;
    } else {
      v := v - 48;
    }
  }

  // The code, on a source that ends right after its NUL and a destination of the same size, as
  // the caller allocates it: every read and write is inside.
  method Urldecode(dst: array<byte>, src: array<byte>)
    requires dst != src && IsCString(src) && dst.Length == src.Length
    modifies dst
    ensures var decoded := Decode(src[..src.Length - 1]);
      && dst[..|decoded|] == decoded && dst[|decoded|] == 0
      && dst[|decoded| + 1..] == old(dst[|decoded| + 1..])
  {
    hide Decode, IsHex, HexValue;
    var d, s := 0, 0;
    ghost var text := src[..src.Length - 1];
    assert text[0..] == text;
    while src[s] != 0
      invariant 0 <= d <= s <= |text|
      invariant dst[..d] + Decode(text[s..]) == Decode(text)
      invariant forall k :: d <= k < dst.Length ==> dst[k] == old(dst[k])
      decreases |text| - s
    {
      ghost var before := dst[..d];
      DecodeStep(text, s);
      assert src[s] == text[s] && (s + 1 < |text| ==> src[s + 1] == text[s + 1]);
      if src[s] == PERCENT && src[s + 1] != 0 && src[s + 2] != 0 && IsHex(src[s + 1]) && IsHex(src[s + 2]) {
        var a := FromHex(src[s + 1]);
        var b := FromHex(src[s + 2]);
        dst[d] := (16 * a + b) % 256;
        s := s + 3;
      } else {
        dst[d] := src[s];
        s := s + 1;
      }
      assert dst[..d + 1] == before + [dst[d]];
      Assoc(before, [dst[d]], Decode(text[s..]));
      d := d + 1;
    }
    DecodeStep(text, s);
    assert dst[..d] + [] == dst[..d];
    dst[d] := 0;
  }

  lemma DecodeStep(text: seq<byte>, s: nat)
    requires s <= |text|
    ensures Decode(text[s..])
         == if s == |text| then []
            else if s + 2 < |text| && text[s] == PERCENT && IsHex(text[s + 1]) && IsHex(text[s + 2]) then
              [16 * HexValue(text[s + 1]) + HexValue(text[s + 2])] + Decode(text[s + 3..])
            else [text[s]] + Decode(text[s + 1..])
    ensures |Decode(text[s..])| <= |text| - s
  {
    hide IsHex, HexValue;
    if s < |text| {
      assert text[s..][1..] == text[s + 1..];
      if s + 2 < |text| {
        assert text[s..][3..] == text[s + 3..];
      }
    }
  }

  // ---------- Percent-encoding is undone ----------

  // How one byte is written: as it is, or escaped with digits of either case.
  datatype Spelling = Plain | Escaped(highUpper: bool, lowUpper: bool)

  function HexDigit(v: int, upper: bool): byte
    requires 0 <= v < 16
  {
    if v < 10 then DIGIT_0 + v else if upper then UPPER_A + v - 10 else LOWER_A + v - 10
  }

  function Spell(b: byte, how: Spelling): seq<byte> {
    match how
    case Plain => [b]
    case Escaped(high, low) =>
      var h, l := b as int / 16, b as int % 16;
      [PERCENT, HexDigit(h, high), HexDigit(l, low)]
  }

  function Encode(s: seq<byte>, how: seq<Spelling>): seq<byte>
    requires |s| == |how|
  {
    if s == [] then [] else Spell(s[0], how[0]) + Encode(s[1..], how[1..])
  }

  lemma HexRoundTrip(v: int, upper: bool)
    requires 0 <= v < 16
    ensures IsHex(HexDigit(v, upper)) && HexValue(HexDigit(v, upper)) == v && HexDigit(v, upper) != 0
  {
  }

  // Decoding undoes every percent-encoding of a NUL-free string that escapes the percent signs,
  // and such an encoding is itself NUL-free, so the code sees all of it.
  lemma {:induction false} DecodeEncode(s: seq<byte>, how: seq<Spelling>)
    requires |s| == |how|
    requires forall i :: 0 <= i < |s| ==> s[i] != 0 && (s[i] == PERCENT ==> how[i].Escaped?)
    ensures Decode(Encode(s, how)) == s
    ensures forall i :: 0 <= i < |Encode(s, how)| ==> Encode(s, how)[i] != 0
    decreases |s|
  {
    if s != [] {
      var rest := Encode(s[1..], how[1..]);
      DecodeEncode(s[1..], how[1..]);
      match how[0]
      case Plain => assert ([s[0]] + rest)[1..] == rest;
      case Escaped(high, low) =>
        var b: int := s[0];
        HexRoundTrip(b / 16, high);
        HexRoundTrip(b % 16, low);
        assert 16 * (b / 16) + b % 16 == b;
        hide IsHex, HexDigit, HexValue;
        var t := Spell(s[0], how[0]) + rest;
        assert t[3..] == rest;
    }
  }

  // ---------- Decoding, written out ----------

  // One of the hexadecimal digits.
  predicate HexChar(b: byte) {
    b as char in "0123456789abcdef" || b as char in "0123456789ABCDEF"
  }

  // The value of a hexadecimal digit is its place among the digits.
  lemma HexDigitsAre(b: byte)
    ensures IsHex(b) <==> HexChar(b)
    ensures IsHex(b) ==>
              var v := HexValue(b); "0123456789abcdef"[v] == b as char || "0123456789ABCDEF"[v] == b as char
  {
    if IsHex(b) {
      var v := HexValue(b);
      if b < UPPER_A {
        assert "0123456789abcdef"[v] == b as char;
      } else if b < LOWER_A {
        assert "0123456789ABCDEF"[v] == b as char;
      } else {
        assert "0123456789abcdef"[v] == b as char;
      }
    }
  }

  // "%xy" is the byte with these two digits.
  lemma EscapeIsByte(high: byte, low: byte, rest: seq<byte>)
    requires HexChar(high) && HexChar(low)
    ensures IsHex(high) && IsHex(low)
    ensures Decode([37, high, low] + rest) == [16 * HexValue(high) + HexValue(low)] + Decode(rest)
  {
    hide IsHex, HexValue, HexChar;
    HexDigitsAre(high);
    HexDigitsAre(low);
    assert ([37, high, low] + rest)[3..] == rest;
  }

  // Anything else stands for itself: other characters, and a percent sign without two digits.
  lemma OthersAreThemselves(b: byte, rest: seq<byte>)
    requires b != 37 || |rest| < 2 || !HexChar(rest[0]) || !HexChar(rest[1])
    ensures Decode([b] + rest) == [b] + Decode(rest)
  {
    hide IsHex, HexValue, HexChar;
    if |rest| >= 2 {
      HexDigitsAre(rest[0]);
      HexDigitsAre(rest[1]);
    }
    assert ([b] + rest)[1..] == rest;
  }
}
