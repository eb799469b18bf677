// The streaming base64 codec of lib/base64/base64.hpp, against the 24-bit groups of
// section 4 of RFC 4648: three bytes are four 6-bit digits.
module Base64 {
  import opened Common

  // `base64_chars.at(v)`: A-Z, a-z, 0-9, '+', '/' (table 1 of RFC 4648).
  function Char64(v: int): char
    requires 0 <= v < 64
  {
    if v < 26 then (v + 65) as char
    else if v < 52 then (v + 71) as char
    else if v < 62 then (v - 4) as char
    else if v == 62 then '+' else '/'
  }

  // `base64_chars.find(c)`; None is npos.
  function Value64(c: char): (v: Option<int>)
    ensures v.Some? ==> 0 <= v.value < 64
  {
    if 'A' <= c <= 'Z' then Some(c as int - 65)
    else if 'a' <= c <= 'z' then Some(c as int - 71)
    else if '0' <= c <= '9' then Some(c as int + 4)
    else if c == '+' then Some(62)
    else if c == '/' then Some(63)
    else None
  }

  lemma CharInverse(v: int, c: char)
    requires 0 <= v < 64
    ensures Value64(Char64(v)) == Some(v)
    ensures Value64(c).Some? ==> Char64(Value64(c).value) == c
  {
  }

  // ---------- 24-bit groups ----------

  predicate Is24(n: int) {
    0 <= n < 0x100_0000
  }

  function Pack(a: int, b: int, c: int): int {
    a * 0x1_0000 + b * 0x100 + c
  }

  function Join(p: int, q: int, r: int, t: int): int {
    p * 0x4_0000 + q * 0x1000 + r * 0x40 + t
  }

  // `n >> 18 & 0x3f`, `n >> 12 & 0x3f`, `n >> 6 & 0x3f`, `n & 0x3f`.
  function Digit(n: int, i: int): (d: int)
    ensures 0 <= d < 64
  {
    match i case 0 => n / 0x4_0000 % 64 case 1 => n / 0x1000 % 64 case 2 => n / 0x40 % 64 case _ => n % 64
  }

  // `n >> 16 & 0xff`, `n >> 8 & 0xff`, `n & 0xff`.
  function Byte(n: int, i: int): (b: byte) {
    match i case 0 => n / 0x1_0000 % 256 case 1 => n / 0x100 % 256 case _ => n % 256
  }

  // The i-th character that the group n is written as.
  function Letter(n: int, i: int): char {
    Char64(Digit(n, i))
  }

  function Quad(n: int): (q: string)
    ensures |q| == 4
  {
    [Letter(n, 0), Letter(n, 1), Letter(n, 2), Letter(n, 3)]
  }

  function Encode(data: seq<byte>): string {
    if |data| == 0 then ""
    else if |data| == 1 then
      var n := Pack(data[0], 0, 0); [Letter(n, 0), Letter(n, 1), '=', '=']
    else if |data| == 2 then
      var n := Pack(data[0], data[1], 0); [Letter(n, 0), Letter(n, 1), Letter(n, 2), '=']
    else
      Quad(Pack(data[0], data[1], data[2])) + Encode(data[3..])
  }

  lemma {:induction false} EncodeAppend(a: seq<byte>, b: seq<byte>)
    requires |a| % 3 == 0
    ensures Encode(a + b) == Encode(a) + Encode(b)
  {
    hide Quad, Letter, Pack;
    if a == [] {
      assert a + b == b;
    } else {
      EncodeAppend(a[3..], b);
      assert (a + b)[3..] == a[3..] + b;
    }
  }

  lemma {:induction false} EncodeLength(data: seq<byte>)
    ensures |Encode(data)| == 4 * ((|data| + 2) / 3)
  {
    hide Quad, Letter, Pack;
    if |data| >= 3 {
      EncodeLength(data[3..]);
      Quotient((|data| - 1) / 3 + 1, (|data| - 1) % 3, 3);
    }
  }

  // ---------- Arithmetic of groups ----------

  lemma Quotient(x: int, y: int, m: int)
    requires m > 0 && 0 <= y < m
    ensures (x * m + y) / m == x && (x * m + y) % m == y
  {
    var n := x * m + y;
    var d := n / m - x;
    assert n == n / m * m + n % m;
    assert d * m == y - n % m;
    assert d >= 1 ==> d * m >= m;
    assert d <= -1 ==> d * m <= -m;
  }

  lemma DigitsOfJoin(p: int, q: int, r: int, t: int)
    requires 0 <= p < 64 && 0 <= q < 64 && 0 <= r < 64 && 0 <= t < 64
    ensures var n := Join(p, q, r, t);
      Is24(n) && Digit(n, 0) == p && Digit(n, 1) == q && Digit(n, 2) == r && Digit(n, 3) == t
  {
    Quotient(p, q * 0x1000 + r * 0x40 + t, 0x4_0000);
    Quotient(p * 64 + q, r * 0x40 + t, 0x1000);
    Quotient(p * 0x1000 + q * 0x40 + r, t, 0x40);
    Quotient(p, q, 64);
    Quotient(p * 64 + q, r, 64);
  }

  lemma JoinOfDigits(n: int)
    requires Is24(n)
    ensures Join(Digit(n, 0), Digit(n, 1), Digit(n, 2), Digit(n, 3)) == n
  {
    var t, a := n % 64, n / 64;
    var r, b := a % 64, a / 64;
    var q, p := b % 64, b / 64;
    assert n == Join(p, q, r, t);
    DigitsOfJoin(p, q, r, t);
  }

  lemma BytesOfPack(a: int, b: int, c: int)
    requires 0 <= a < 256 && 0 <= b < 256 && 0 <= c < 256
    ensures var n := Pack(a, b, c);
      Is24(n) && Byte(n, 0) == a && Byte(n, 1) == b && Byte(n, 2) == c
  {
    Quotient(a, b * 0x100 + c, 0x1_0000);
    Quotient(a * 256 + b, c, 0x100);
    Quotient(a, b, 256);
  }

  lemma PackOfBytes(n: int)
    requires Is24(n)
    ensures Pack(Byte(n, 0), Byte(n, 1), Byte(n, 2)) == n
  {
    var c, x := n % 256, n / 256;
    var b, a := x % 256, x / 256;
    assert n == Pack(a, b, c);
    BytesOfPack(a, b, c);
  }

  // How the two groupings of the same 24 bits overlap.
  lemma Regroup(a: int, b: int, c: int)
    requires 0 <= a < 256 && 0 <= b < 256 && 0 <= c < 256
    ensures Pack(a, b, c) == Join(a / 4, a % 4 * 16 + b / 16, b % 16 * 4 + c / 64, c % 64)
  {
  }

  // Adding bytes below the bits already written leaves the digits already written alone.
  lemma EarlyDigits(a: int, b: int, c: int)
    requires 0 <= a < 256 && 0 <= b < 256 && 0 <= c < 256
    ensures Digit(Pack(a, 0, 0), 0) == Digit(Pack(a, b, 0), 0) == Digit(Pack(a, b, c), 0)
    ensures Digit(Pack(a, b, 0), 1) == Digit(Pack(a, b, c), 1)
    ensures Digit(Pack(a, 0, 0), 1) % 16 == 0 && Digit(Pack(a, b, 0), 2) % 4 == 0
  {
    hide Digit, Pack, Join;
    Regroup(a, 0, 0); Regroup(a, b, 0); Regroup(a, b, c);
    DigitsOfJoin(a / 4, a % 4 * 16, 0, 0);
    DigitsOfJoin(a / 4, a % 4 * 16 + b / 16, b % 16 * 4, 0);
    DigitsOfJoin(a / 4, a % 4 * 16 + b / 16, b % 16 * 4 + c / 64, c % 64);
  }

  lemma Ungroup(p: int, q: int, r: int, t: int)
    requires 0 <= p < 64 && 0 <= q < 64 && 0 <= r < 64 && 0 <= t < 64
    ensures Join(p, q, r, t) == Pack(p * 4 + q / 16, q % 16 * 16 + r / 4, r % 4 * 64 + t)
  {
  }

  // The bytes leave the accumulator before the low digits arrive; the result is the same.
  lemma EarlyBytes(p: int, q: int, r: int, t: int)
    requires 0 <= p < 64 && 0 <= q < 64 && 0 <= r < 64 && 0 <= t < 64
    ensures Byte(Join(p, q, 0, 0), 0) == Byte(Join(p, q, r, 0), 0) == Byte(Join(p, q, r, t), 0)
    ensures Byte(Join(p, q, r, 0), 1) == Byte(Join(p, q, r, t), 1)
    ensures q % 16 == 0 ==> Byte(Join(p, q, 0, 0), 1) == 0 && Byte(Join(p, q, 0, 0), 2) == 0
    ensures r % 4 == 0 ==> Byte(Join(p, q, r, 0), 2) == 0
  {
    hide Byte, Pack, Join;
    Ungroup(p, q, 0, 0); Ungroup(p, q, r, 0); Ungroup(p, q, r, t);
    BytesOfPack(p * 4 + q / 16, q % 16 * 16, 0);
    BytesOfPack(p * 4 + q / 16, q % 16 * 16 + r / 4, r % 4 * 64);
    BytesOfPack(p * 4 + q / 16, q % 16 * 16 + r / 4, r % 4 * 64 + t);
  }

  // ---------- Shifts ----------

  function Pow2(places: nat): nat {
    if places == 0 then 1 else 2 * Pow2(places - 1)
  }

  function Shl(x: int, places: nat): int {
    x * Pow2(places)
  }

  lemma ShlValues(x: int)
    ensures Shl(x, 0) == x
    ensures Shl(x, 6) == x * 0x40
    ensures Shl(x, 8) == x * 0x100
    ensures Shl(x, 12) == x * 0x1000
    ensures Shl(x, 16) == x * 0x1_0000
    ensures Shl(x, 18) == x * 0x4_0000
  {
    assert Pow2(6) == 0x40 && Pow2(8) == 0x100 && Pow2(12) == 0x1000;
    assert Pow2(16) == 0x1_0000 && Pow2(18) == 0x4_0000;
  }

  // ---------- to_base64 ----------

  // The loop has seen `whole` bytes in complete groups and `pending` more: its accumulator, and
  // what it has written by then.
  function Bits(data: seq<byte>, whole: nat, pending: nat): int
    requires whole + pending <= |data|
  {
    match pending
    case 0 => 0
    case 1 => Pack(data[whole], 0, 0)
    case _ => Pack(data[whole], data[whole + 1], 0)
  }

  function Front(n: int, pending: nat): string {
    match pending
    case 0 => ""
    case 1 => [Letter(n, 0)]
    case _ => [Letter(n, 0), Letter(n, 1)]
  }

  function Written(data: seq<byte>, whole: nat, pending: nat): string
    requires whole + pending <= |data|
  {
    Encode(data[..whole]) + Front(Bits(data, whole, pending), pending)
  }

  // What follows the loop.
  function Padding(n: int, pending: nat): string {
    match pending
    case 0 => ""
    case 1 => [Letter(n, 1), '=', '=']
    case _ => [Letter(n, 2), '=']
  }

  lemma EncodeGroup(data: seq<byte>, at: nat)
    requires at % 3 == 0 && at + 3 <= |data|
    ensures Encode(data[..at + 3])
         == Encode(data[..at]) + Quad(Pack(data[at], data[at + 1], data[at + 2]))
  {
    hide Quad, Pack;
    var group := data[at..at + 3];
    assert data[..at + 3] == data[..at] + group;
    EncodeAppend(data[..at], group);
    assert Encode(group) == Quad(Pack(group[0], group[1], group[2])) + Encode(group[3..]);
  }

  lemma WrittenStep(data: seq<byte>, whole: nat, pending: nat)
    requires pending < 2 && whole + pending < |data|
    ensures var n := Bits(data, whole, pending + 1);
      && Is24(n)
      && n == Bits(data, whole, pending) + data[whole + pending] as int * (if pending == 0 then 0x1_0000 else 0x100)
      && Written(data, whole, pending + 1) == Written(data, whole, pending) + [Letter(n, pending)]
  {
    hide Letter, Encode;
    if pending == 0 {
      BytesOfPack(data[whole], 0, 0);
    } else {
      BytesOfPack(data[whole], data[whole + 1], 0);
      SameLetters(data[whole], data[whole + 1], 0);
    }
  }

  lemma WrittenGroup(data: seq<byte>, whole: nat)
    requires whole % 3 == 0 && whole + 2 < |data|
    ensures var n := Bits(data, whole, 2) + data[whole + 2] as int;
      && Is24(n)
      && Written(data, whole + 3, 0) == Written(data, whole, 2) + [Letter(n, 2), Letter(n, 3)]
  {
    var a: int, b: int, c: int := data[whole], data[whole + 1], data[whole + 2];
    var n, m := Pack(a, b, c), Pack(a, b, 0);
    assert Bits(data, whole, 2) + c == n;
    BytesOfPack(a, b, c);
    SameLetters(a, b, c);
    EncodeGroup(data, whole);
    hide Letter, Encode, Pack, Bits;
    var e := Encode(data[..whole]);
    assert Bits(data, whole, 2) == m by { BitsTwo(data, whole); }
    assert Written(data, whole, 2) == e + [Letter(n, 0), Letter(n, 1)];
    Assoc(e, [Letter(n, 0), Letter(n, 1)], [Letter(n, 2), Letter(n, 3)]);
    assert [Letter(n, 0), Letter(n, 1)] + [Letter(n, 2), Letter(n, 3)] == Quad(n);
  }

  lemma BitsTwo(data: seq<byte>, whole: nat)
    requires whole + 2 <= |data|
    ensures Bits(data, whole, 2) == Pack(data[whole], data[whole + 1], 0)
  {
  }

  lemma SameLetters(a: int, b: int, c: int)
    requires 0 <= a < 256 && 0 <= b < 256 && 0 <= c < 256
    ensures Letter(Pack(a, 0, 0), 0) == Letter(Pack(a, b, 0), 0) == Letter(Pack(a, b, c), 0)
    ensures Letter(Pack(a, b, 0), 1) == Letter(Pack(a, b, c), 1)
  {
    hide Digit, Char64, Pack;
    EarlyDigits(a, b, c);
  }

  lemma WrittenEnd(data: seq<byte>, whole: nat, pending: nat)
    requires whole % 3 == 0 && pending < 3 && whole + pending == |data|
    ensures Encode(data) == Written(data, whole, pending) + Padding(Bits(data, whole, pending), pending)
  {
    hide Bits, Encode, Padding, Front;
    var front, tail := data[..whole], data[whole..];
    var n := Bits(data, whole, pending);
    assert data == front + tail;
    EncodeAppend(front, tail);
    EncodeTail(data, whole, pending);
    Assoc(Encode(front), Front(n, pending), Padding(n, pending));
  }

  lemma EncodeTail(data: seq<byte>, whole: nat, pending: nat)
    requires pending < 3 && whole + pending == |data|
    ensures var n := Bits(data, whole, pending);
      Encode(data[whole..]) == Front(n, pending) + Padding(n, pending)
  {
    hide Letter, Pack;
  }

  method ToBase64(data: seq<byte>) returns (encoded: string)
    requires |data| <= INT_MAX  // `int counter`
    ensures encoded == Encode(data)
  {
    hide Letter, Shl, Bits, Written, Encode;
    var counter, bitStream, offset := 0, 0, 0;
    encoded := "";
    ghost var whole, pending := 0, 0;
    WrittenStart(data, 0);
    while counter < |data|
      invariant 0 <= counter == whole + pending <= |data| && 0 <= whole && 0 <= pending < 3 && whole % 3 == 0
      invariant offset == if pending == 0 then 0 else 24 - pending * 8
      invariant bitStream == Bits(data, whole, pending)
      invariant encoded == Written(data, whole, pending)
    {
      var numVal: int := data[counter];
      Quotient(whole / 3, pending, 3);
      assert counter % 3 == pending;
      offset := 16 - counter % 3 * 8;
      ShlValues(numVal);
      if pending < 2 {
        WrittenStep(data, whole, pending);
      } else {
        WrittenGroup(data, whole);
      }
      ghost var before := encoded;
      bitStream := (bitStream + Shl(numVal, offset)) % TWO_TO_32;
      pending := pending + 1;
      if offset == 16 {
        encoded := encoded + [Letter(bitStream, 0)];
      }
      if offset == 8 {
        encoded := encoded + [Letter(bitStream, 1)];
      }
      if offset == 0 && counter != 3 {
        encoded := encoded + [Letter(bitStream, 2)];
        encoded := encoded + [Letter(bitStream, 3)];
        assert encoded == before + [Letter(bitStream, 2), Letter(bitStream, 3)];
        bitStream := 0;
        whole, pending := whole + 3, 0;
        WrittenStart(data, whole);
      }
      counter := counter + 1;
    }
    WrittenEnd(data, whole, pending);
    if offset == 16 {
      encoded := encoded + [Letter(bitStream, 1)];
      encoded := encoded + "==";
    }
    if offset == 8 {
      encoded := encoded + [Letter(bitStream, 2)];
      encoded := encoded + "=";
    }
  }

  lemma WrittenStart(data: seq<byte>, whole: nat)
    requires whole <= |data|
    ensures Bits(data, whole, 0) == 0 && Written(data, 0, 0) == ""
  {
  }

  // ---------- from_base64 ----------

  // The result of the loop from `counter` on, with accumulator `bitStream` and output so far
  // `decoded`; None when it meets a character outside the alphabet and gives up.
  function DecodeFrom(counter: nat, bitStream: int, decoded: seq<byte>, s: string): Option<seq<byte>>
    decreases |s|
  {
    if s == "" then Some(decoded)
    else match Value64(s[0])
      case None => if s[0] == '=' then DecodeFrom(counter + 1, bitStream, decoded, s[1..]) else None
      case Some(v) =>
        var offset := 18 - counter % 4 * 6;
        var bits := (bitStream + Shl(v, offset)) % TWO_TO_32;
        if offset == 18 then DecodeFrom(counter + 1, bits, decoded, s[1..])
        else if offset == 12 then DecodeFrom(counter + 1, bits, decoded + [Byte(bits, 0)], s[1..])
        else if offset == 6 then DecodeFrom(counter + 1, bits, decoded + [Byte(bits, 1)], s[1..])
        else DecodeFrom(counter + 1, 0, decoded + [Byte(bits, 2)], s[1..])
  }

  function Decode(s: string): seq<byte> {
    var d := DecodeFrom(0, 0, [], s);
    if d == None then [] else d.value
  }

  method FromBase64(data: string) returns (decoded: seq<byte>)
    requires |data| <= INT_MAX  // `int counter`
    ensures decoded == Decode(data)
  {
    hide Value64, Shl, Byte;
    var counter, bitStream, offset := 0, 0, 0;
    decoded := [];
    assert data[0..] == data;
    while counter < |data|
      invariant 0 <= counter <= |data|
      invariant 0 <= bitStream < TWO_TO_32
      invariant DecodeFrom(0, 0, [], data) == DecodeFrom(counter, bitStream, decoded, data[counter..])
    {
      var c := data[counter];
      ghost var rest := data[counter..];
      assert rest[0] == c && rest[1..] == data[counter + 1..];
      var numVal := Value64(c);
      if numVal.Some? {
        offset := 18 - counter % 4 * 6;
        bitStream := (bitStream + Shl(numVal.value, offset)) % TWO_TO_32;
        if offset == 12 {
          decoded := decoded + [Byte(bitStream, 0)];
        }
        if offset == 6 {
          decoded := decoded + [Byte(bitStream, 1)];
        }
        if offset == 0 && counter != 4 {
          decoded := decoded + [Byte(bitStream, 2)];
          bitStream := 0;
        }
      } else if c != '=' {
        return [];
      }
      counter := counter + 1;
    }
  }

  // ---------- Round trips ----------

  // One step of the decoder on an alphabet character.
  lemma DecodeChar(counter: nat, bits: int, out: seq<byte>, s: string)
    requires s != "" && Value64(s[0]).Some? && Is24(bits)
    ensures var v := Value64(s[0]).value; var rest := s[1..];
      DecodeFrom(counter, bits, out, s)
      == match counter % 4
         case 0 => DecodeFrom(counter + 1, bits + v * 0x4_0000, out, rest)
         case 1 => DecodeFrom(counter + 1, bits + v * 0x1000, out + [Byte(bits + v * 0x1000, 0)], rest)
         case 2 => DecodeFrom(counter + 1, bits + v * 0x40, out + [Byte(bits + v * 0x40, 1)], rest)
         case _ => DecodeFrom(counter + 1, 0, out + [Byte(bits + v, 2)], rest)
  {
    hide Value64, Shl, Byte;
    ShlValues(Value64(s[0]).value);
  }

  // The first i characters of `s` are the first i digits of n.
  predicate Starts(s: string, n: int, i: nat) {
    && i <= 4 && i <= |s|
    && (0 < i ==> Value64(s[0]) == Some(Digit(n, 0)))
    && (1 < i ==> Value64(s[1]) == Some(Digit(n, 1)))
    && (2 < i ==> Value64(s[2]) == Some(Digit(n, 2)))
    && (3 < i ==> Value64(s[3]) == Some(Digit(n, 3)))
  }

  // The accumulator after the first i digits of n.
  function Partial(n: int, i: nat): int {
    match i
    case 0 => 0
    case 1 => Join(Digit(n, 0), 0, 0, 0)
    case 2 => Join(Digit(n, 0), Digit(n, 1), 0, 0)
    case _ => Join(Digit(n, 0), Digit(n, 1), Digit(n, 2), 0)
  }

  lemma PartialStep(n: int)
    requires Is24(n)
    ensures Partial(n, 0) + Digit(n, 0) * 0x4_0000 == Partial(n, 1)
    ensures Partial(n, 1) + Digit(n, 1) * 0x1000 == Partial(n, 2)
    ensures Partial(n, 2) + Digit(n, 2) * 0x40 == Partial(n, 3)
    ensures Partial(n, 3) + Digit(n, 3) == n
    ensures Is24(Partial(n, 0)) && Is24(Partial(n, 1)) && Is24(Partial(n, 2)) && Is24(Partial(n, 3))
    ensures Byte(Partial(n, 2), 0) == Byte(n, 0) && Byte(Partial(n, 3), 1) == Byte(n, 1)
  {
    var p, q, r, t := Digit(n, 0), Digit(n, 1), Digit(n, 2), Digit(n, 3);
    hide Digit, Byte;
    JoinOfDigits(n);
    EarlyBytes(p, q, r, t);
  }

  lemma DecodeDigit(counter: nat, i: nat, out: seq<byte>, n: int, s: string)
    requires i < 4 && counter % 4 == i && Is24(n)
    requires s != "" && Value64(s[0]) == Some(Digit(n, i))
    ensures DecodeFrom(counter, Partial(n, i), out, s)
         == DecodeFrom(counter + 1, if i == 3 then 0 else Partial(n, i + 1),
                       if i == 0 then out else out + [Byte(n, i - 1)], s[1..])
  {
    hide Value64, Digit, Byte, Partial, DecodeFrom;
    PartialStep(n);
    DecodeChar(counter, Partial(n, i), out, s);
  }

  lemma DecodePair(counter: nat, out: seq<byte>, n: int, s: string)
    requires counter % 4 == 0 && Is24(n) && Starts(s, n, 2)
    ensures DecodeFrom(counter, 0, out, s)
         == DecodeFrom(counter + 2, Partial(n, 2), out + [Byte(n, 0)], s[2..])
  {
    hide Value64, Digit, Byte, DecodeFrom;
    DecodeDigit(counter, 0, out, n, s);
    DecodeDigit(counter + 1, 1, out, n, s[1..]);
    assert s[1..][1..] == s[2..];
  }

  lemma DecodeThree(counter: nat, out: seq<byte>, n: int, s: string)
    requires counter % 4 == 0 && Is24(n) && Starts(s, n, 3)
    ensures DecodeFrom(counter, 0, out, s)
         == DecodeFrom(counter + 3, Partial(n, 3), out + [Byte(n, 0), Byte(n, 1)], s[3..])
  {
    hide Value64, Digit, Byte, DecodeFrom, Partial;
    DecodePair(counter, out, n, s);
    DecodeDigit(counter + 2, 2, out + [Byte(n, 0)], n, s[2..]);
    assert s[2..][1..] == s[3..];
    assert out + [Byte(n, 0)] + [Byte(n, 1)] == out + [Byte(n, 0), Byte(n, 1)];
  }

  lemma DecodeQuad(counter: nat, out: seq<byte>, n: int, s: string)
    requires counter % 4 == 0 && Is24(n) && Starts(s, n, 4)
    ensures DecodeFrom(counter, 0, out, s)
         == DecodeFrom(counter + 4, 0, out + [Byte(n, 0), Byte(n, 1), Byte(n, 2)], s[4..])
  {
    hide Value64, Digit, Byte, DecodeFrom, Partial;
    DecodeThree(counter, out, n, s);
    DecodeDigit(counter + 3, 3, out + [Byte(n, 0), Byte(n, 1)], n, s[3..]);
    assert s[3..][1..] == s[4..];
    assert out + [Byte(n, 0), Byte(n, 1)] + [Byte(n, 2)] == out + [Byte(n, 0), Byte(n, 1), Byte(n, 2)];
  }

  lemma DecodePadding(counter: nat, bits: int, out: seq<byte>)
    ensures DecodeFrom(counter, bits, out, "=") == Some(out)
    ensures DecodeFrom(counter, bits, out, "==") == Some(out)
  {
    assert "="[1..] == "" && "=="[1..] == "=";
    assert DecodeFrom(counter, bits, out, "=") == DecodeFrom(counter + 1, bits, out, "");
    assert DecodeFrom(counter + 1, bits, out, "=") == DecodeFrom(counter + 2, bits, out, "");
    assert DecodeFrom(counter, bits, out, "==") == DecodeFrom(counter + 1, bits, out, "=");
  }

  // A final group of `length` bytes, or a whole group when `length` is 3.
  ghost predicate Group(s: string, n: int, length: nat) {
    && Is24(n) && 1 <= length <= 3
    && (length == 1 ==> Byte(n, 1) == 0 && Byte(n, 2) == 0 && s == [Letter(n, 0), Letter(n, 1), '=', '='])
    && (length == 2 ==> Byte(n, 2) == 0 && s == [Letter(n, 0), Letter(n, 1), Letter(n, 2), '='])
    && (length == 3 ==> |s| >= 4 && s == Quad(n) + s[4..])
  }

  lemma GroupStarts(s: string, n: int, length: nat)
    requires Group(s, n, length)
    ensures Starts(s, n, length + 1)
    ensures length < 3 ==> s[length + 1..] == if length == 1 then "==" else "="
  {
    CharInverse(Digit(n, 0), '=');
    CharInverse(Digit(n, 1), '=');
    CharInverse(Digit(n, 2), '=');
    CharInverse(Digit(n, 3), '=');
    hide Value64, Char64, Digit, Byte;
  }

  lemma DecodeGroup(counter: nat, out: seq<byte>, n: int, s: string, length: nat)
    requires counter % 4 == 0 && Group(s, n, length)
    ensures length == 1 ==> DecodeFrom(counter, 0, out, s) == Some(out + [Byte(n, 0)])
    ensures length == 2 ==> DecodeFrom(counter, 0, out, s) == Some(out + [Byte(n, 0), Byte(n, 1)])
    ensures length == 3 ==>
              DecodeFrom(counter, 0, out, s)
              == DecodeFrom(counter + 4, 0, out + [Byte(n, 0), Byte(n, 1), Byte(n, 2)], s[4..])
  {
    GroupStarts(s, n, length);
    hide Starts, Quad, Digit, Byte, DecodeFrom, Partial;
    if length == 1 {
      DecodePair(counter, out, n, s);
      DecodePadding(counter + 2, Partial(n, 2), out + [Byte(n, 0)]);
    } else if length == 2 {
      DecodeThree(counter, out, n, s);
      DecodePadding(counter + 3, Partial(n, 3), out + [Byte(n, 0), Byte(n, 1)]);
    } else {
      DecodeQuad(counter, out, n, s);
    }
  }

  // The group at the front of encoded data.
  lemma FrontGroup(data: seq<byte>) returns (n: int, length: nat)
    requires data != []
    ensures Group(Encode(data), n, length) && length == Min(|data|, 3)
    ensures length == 3 ==> Encode(data)[4..] == Encode(data[3..])
    ensures data[..length] == [Byte(n, 0), Byte(n, 1), Byte(n, 2)][..length]
    ensures length == 1 ==> Digit(n, 1) % 16 == 0
    ensures length == 2 ==> Digit(n, 2) % 4 == 0
  {
    hide Byte, Quad, Digit;
    var a: int := data[0];
    var b: int := if |data| >= 2 then data[1] else 0;
    var c: int := if |data| >= 3 then data[2] else 0;
    n, length := Pack(a, b, c), Min(|data|, 3);
    BytesOfPack(a, b, c);
    EarlyDigits(a, b, c);
  }

  lemma {:induction false} DecodeEncodeFrom(counter: nat, out: seq<byte>, data: seq<byte>)
    requires counter % 4 == 0
    ensures DecodeFrom(counter, 0, out, Encode(data)) == Some(out + data)
    decreases |data|
  {
    if |data| == 0 {
      assert out + data == out;
    } else {
      hide Byte, Encode, Group, DecodeFrom;
      var n, length := FrontGroup(data);
      DecodeGroup(counter, out, n, Encode(data), length);
      var bytes := [Byte(n, 0), Byte(n, 1), Byte(n, 2)];
      assert data == data[..length] + data[length..];
      if length == 3 {
        DecodeEncodeFrom(counter + 4, out + bytes, data[3..]);
        assert bytes[..3] == bytes;
        assert out + bytes + data[3..] == out + data;
      } else if length == 1 {
        assert data == [Byte(n, 0)];
      } else {
        assert data == [Byte(n, 0), Byte(n, 1)];
      }
    }
  }

  // from_base64 undoes to_base64.
  lemma DecodeEncode(data: seq<byte>)
    ensures Decode(Encode(data)) == data
  {
    DecodeEncodeFrom(0, [], data);
    assert [] + data == data;
  }

  // Canonical text (sections 3.5 and 4 of RFC 4648): whole groups of four alphabet characters,
  // where only the last group may be padded and then leaves no stray bits.
  predicate Canonical(s: string) {
    if |s| == 0 then true
    else if |s| < 4 || Value64(s[0]) == None || Value64(s[1]) == None then false
    else if |s| == 4 && s[2] == '=' && s[3] == '=' then Value64(s[1]).value % 16 == 0
    else if Value64(s[2]) == None then false
    else if |s| == 4 && s[3] == '=' then Value64(s[2]).value % 4 == 0
    else Value64(s[3]).Some? && Canonical(s[4..])
  }

  // The group that the first four canonical characters stand for.
  lemma GroupOf(s: string) returns (n: int, length: nat)
    requires s != "" && Canonical(s)
    ensures Group(s, n, length) && (length == 3 ==> Canonical(s[4..]))
  {
    hide Value64, Char64, Digit, Byte, Join;
    var p, q := Value64(s[0]).value, Value64(s[1]).value;
    CharInverse(0, s[0]);
    CharInverse(0, s[1]);
    if |s| == 4 && s[2] == '=' && s[3] == '=' {
      n, length := Join(p, q, 0, 0), 1;
      DigitsOfJoin(p, q, 0, 0);
      EarlyBytes(p, q, 0, 0);
    } else {
      var r := Value64(s[2]).value;
      CharInverse(0, s[2]);
      if |s| == 4 && s[3] == '=' {
        n, length := Join(p, q, r, 0), 2;
        DigitsOfJoin(p, q, r, 0);
        EarlyBytes(p, q, r, 0);
      } else {
        var t := Value64(s[3]).value;
        CharInverse(0, s[3]);
        n, length := Join(p, q, r, t), 3;
        DigitsOfJoin(p, q, r, t);
      }
    }
  }

  lemma EncodeOneGroup(s: string, n: int, length: nat, rest: seq<byte>)
    requires Group(s, n, length) && (length == 3 ==> Encode(rest) == s[4..])
    ensures length == 1 ==> Encode([Byte(n, 0)]) == s
    ensures length == 2 ==> Encode([Byte(n, 0), Byte(n, 1)]) == s
    ensures length == 3 ==> Encode([Byte(n, 0), Byte(n, 1), Byte(n, 2)] + rest) == s
  {
    hide Byte, Quad, Pack;
    PackOfBytes(n);
    assert ([Byte(n, 0), Byte(n, 1), Byte(n, 2)] + rest)[3..] == rest;
  }

  lemma {:induction false} EncodeDecodeFrom(counter: nat, out: seq<byte>, s: string) returns (data: seq<byte>)
    requires counter % 4 == 0 && Canonical(s)
    ensures DecodeFrom(counter, 0, out, s) == Some(out + data) && Encode(data) == s
    decreases |s|
  {
    if |s| == 0 {
      data := [];
      assert out + [] == out;
    } else {
      hide Byte, Encode, Group, Canonical, DecodeFrom;
      var n, length := GroupOf(s);
      GroupLength(s, n, length);
      DecodeGroup(counter, out, n, s, length);
      if length == 3 {
        var bytes := [Byte(n, 0), Byte(n, 1), Byte(n, 2)];
        var rest := EncodeDecodeFrom(counter + 4, out + bytes, s[4..]);
        EncodeOneGroup(s, n, length, rest);
        data := bytes + rest;
        assert out + bytes + rest == out + data;
      } else {
        EncodeOneGroup(s, n, length, []);
        data := if length == 1 then [Byte(n, 0)] else [Byte(n, 0), Byte(n, 1)];
      }
    }
  }

  lemma GroupLength(s: string, n: int, length: nat)
    requires Group(s, n, length)
    ensures |s| >= 4 && 1 <= length <= 3
  {
  }

  // to_base64 undoes from_base64 on canonical text.
  lemma EncodeDecode(s: string)
    requires Canonical(s)
    ensures Encode(Decode(s)) == s
  {
    hide Encode, Canonical, DecodeFrom;
    var data := EncodeDecodeFrom(0, [], s);
    assert [] + data == data;
  }

  // What to_base64 produces is canonical, so the two round trips make a bijection.
  lemma {:induction false} EncodeIsCanonical(data: seq<byte>)
    ensures Canonical(Encode(data))
  {
    if |data| > 0 {
      hide Byte, Quad, Digit, Char64, Encode;
      var s := Encode(data);
      var n, length := FrontGroup(data);
      GroupStarts(s, n, length);
      if length == 3 {
        EncodeIsCanonical(data[3..]);
        CharInverse(0, s[3]);
      }
    }
  }

  // ---------- The encoding as the RFC writes it ----------

  // Table 1 of RFC 4648.
  function Alphabet(): string {
    Upper() + Lower() + Figures() + "+/"
  }

  lemma AlphabetIs(v: int)
    requires 0 <= v < 64
    ensures |Alphabet()| == 64 && Char64(v) == Alphabet()[v]
  {
    hide Upper, Lower, Figures;
    UpperAt(if v < 26 then v else 0);
    LowerAt(if 26 <= v < 52 then v - 26 else 0);
    FigureAt(if 52 <= v < 62 then v - 52 else 0);
    assert "+/"[0] == '+' && "+/"[1] == '/';
  }

  // Section 4 of RFC 4648 for the first group: the characters are the alphabet's at four digits
  // that read, in base 64, as the bytes do in base 256, with zeros and '=' for missing bytes.
  lemma FirstGroup(data: seq<byte>) returns (d0: int, d1: int, d2: int, d3: int)
    requires data != []
    ensures 0 <= d0 < 64 && 0 <= d1 < 64 && 0 <= d2 < 64 && 0 <= d3 < 64
    ensures d0 * 262144 + d1 * 4096 + d2 * 64 + d3
         == data[0] as int * 65536 + (if |data| > 1 then data[1] as int * 256 else 0) + (if |data| > 2 then data[2] as int else 0)
    ensures Encode(data)
         == [Alphabet()[d0], Alphabet()[d1], if |data| > 1 then Alphabet()[d2] else '=',
             if |data| > 2 then Alphabet()[d3] else '='] + Encode(if |data| > 3 then data[3..] else [])
  {
    var b: int, c: int := if |data| > 1 then data[1] else 0, if |data| > 2 then data[2] else 0;
    var a: int := data[0];
    var n := Pack(a, b, c);
    BytesOfPack(a, b, c);
    JoinOfDigits(n);
    d0, d1, d2, d3 := Digit(n, 0), Digit(n, 1), Digit(n, 2), Digit(n, 3);
    AlphabetIs(d0);
    AlphabetIs(d1);
    AlphabetIs(d2);
    AlphabetIs(d3);
    assert n == a * 65536 + b * 256 + c;
    assert Join(d0, d1, d2, d3) == d0 * 262144 + d1 * 4096 + d2 * 64 + d3;
    hide Digit, Char64, Alphabet, Pack, Join;
    assert Encode([]) == "";
    if |data| == 3 {
      assert data[3..] == [];
    }
  }

  // A character outside the alphabet, other than '=', makes from_base64 give nothing at all.
  lemma {:induction false} ForeignCharacter(s: string, counter: nat, bits: int, out: seq<byte>)
    ensures DecodeFrom(counter, bits, out, s) == None <==>
            exists k :: 0 <= k < |s| && s[k] !in Alphabet() && s[k] != '='
    decreases |s|
  {
    hide DecodeFrom, Alphabet, Value64;
    if s == "" {
      NothingLeft(counter, bits, out);
    } else {
      InAlphabet(s[0]);
      var c, b, o := NextState(counter, bits, out, s);
      ForeignCharacter(s[1..], c, b, o);
      forall k | 1 <= k < |s| ensures s[k] == s[1..][k - 1] {
      }
      if k :| 0 <= k < |s[1..]| && s[1..][k] !in Alphabet() && s[1..][k] != '=' {
        assert s[k + 1] !in Alphabet() && s[k + 1] != '=';
      }
    }
  }

  lemma NothingLeft(counter: nat, bits: int, out: seq<byte>)
    ensures DecodeFrom(counter, bits, out, "") == Some(out)
  {
  }

  lemma NextState(counter: nat, bits: int, out: seq<byte>, s: string) returns (c: nat, b: int, o: seq<byte>)
    requires s != ""
    ensures DecodeFrom(counter, bits, out, s)
         == if Value64(s[0]) == None && s[0] != '=' then None else DecodeFrom(c, b, o, s[1..])
  {
    hide Value64, Shl, Byte;
    c, b, o := counter + 1, bits, out;
    if Value64(s[0]).Some? {
      var offset := 18 - counter % 4 * 6;
      b := (bits + Shl(Value64(s[0]).value, offset)) % TWO_TO_32;
      if offset == 12 {
        o := out + [Byte(b, 0)];
      } else if offset == 6 {
        o := out + [Byte(b, 1)];
      } else if offset != 18 {
        o := out + [Byte(b, 2)];
        b := 0;
      }
    }
  }

  lemma InAlphabet(c: char)
    ensures Value64(c).Some? <==> c in Alphabet()
  {
    hide Alphabet, Value64, Char64;
    AlphabetIs(0);
    if Value64(c).Some? {
      CharInverse(0, c);
      AlphabetIs(Value64(c).value);
    }
    if c in Alphabet() {
      var v :| 0 <= v < |Alphabet()| && Alphabet()[v] == c;
      AlphabetIs(v);
      CharInverse(v, c);
    }
  }
}
