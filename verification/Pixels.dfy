// Pixels packed into a uint32_t by the masks and shifts of `image_spec` (lib/clip/clip.h).
module Pixels {
  import opened Common

  // A channel shift; the mask of a channel is 0xff shifted by it.
  type Shift = s: bv32 | s == 0 || s == 8 || s == 16 || s == 24

  // The part of `image_spec` that says where each channel lives.
  datatype Layout = Layout(red: Shift, green: Shift, blue: Shift, alpha: Shift)

  predicate Separate(l: Layout) {
    && l.red != l.green && l.red != l.blue && l.red != l.alpha
    && l.green != l.blue && l.green != l.alpha && l.blue != l.alpha
  }

  // The layout of an uncompressed DIB, which `set_image` also gives its own.
  const Dib: Layout := Layout(16, 8, 0, 24)

  datatype Rgba = Rgba(r: byte, g: byte, b: byte, a: byte)

  // `(c & mask) >> shift`.
  function Field(c: bv32, s: Shift): bv32 {
    (c & (0xff << s)) >> s
  }

  function Channel(c: bv32, s: Shift): (v: byte) {
    Below256(Field(c, s));
    FieldFits(c, s);
    Field(c, s) as int
  }

  function Unpack(l: Layout, c: bv32): Rgba {
    Rgba(Channel(c, l.red), Channel(c, l.green), Channel(c, l.blue), Channel(c, l.alpha))
  }

  // The uint32_t with the value of an int.
  function Bits(v: byte): (w: bv32)
    ensures w < 256 && w as int == v
  {
    WordValue(v);
    v as bv32
  }

  function Put(v: bv32, s: Shift): bv32 {
    v << s
  }

  function Or(x: bv32, y: bv32): bv32 {
    x | y
  }

  // `r << red_shift | g << green_shift | b << blue_shift | a << alpha_shift`.
  function Pack(l: Layout, p: Rgba): bv32 {
    Or(Or(Or(Put(Bits(p.r), l.red), Put(Bits(p.g), l.green)), Put(Bits(p.b), l.blue)), Put(Bits(p.a), l.alpha))
  }

  lemma Below256(x: bv32)
    ensures x < 256 <==> x as int < 256
  {
  }

  lemma Below255(x: bv32)
    ensures x < 255 <==> x as int < 255
  {
  }

  lemma FieldFits(c: bv32, s: Shift)
    ensures Field(c, s) < 256
  {
  }

  lemma Successor(x: bv32)
    requires x < 255
    ensures (x + 1) as int == x as int + 1
  {
  }

  lemma BackToBits(x: bv32)
    ensures (x as int) as bv32 == x
  {
  }

  // An int between 0 and 255 keeps its value as a uint32_t.
  lemma {:induction false} WordValue(n: int)
    requires 0 <= n < 256
    ensures (n as bv32) as int == n && n as bv32 < 256
  {
    var w := Counted(n);
    BackToBits(w);
  }

  lemma {:induction false} Counted(n: int) returns (w: bv32)
    requires 0 <= n < 256
    ensures w as int == n && w < 256
  {
    if n == 0 {
      w := 0;
    } else {
      var p := Counted(n - 1);
      assert p < 255 by { Below255(p); }
      Successor(p);
      w := p + 1;
      Below256(w);
    }
  }

  lemma FieldOfPut(v: bv32, s: Shift, t: Shift)
    requires v < 256
    ensures Field(Put(v, s), t) == if s == t then v else 0
  {
  }

  lemma FieldOfOr(x: bv32, y: bv32, t: Shift)
    ensures Field(Or(x, y), t) == Or(Field(x, t), Field(y, t))
  {
    if t == 0 {
    } else if t == 8 {
    } else if t == 16 {
    }
  }

  lemma OrZero(v: bv32)
    ensures Or(v, 0) == v && Or(0, v) == v
  {
  }

  // A field stored at another shift is not seen; one stored over an empty field is.
  lemma FieldOfOrPut(c: bv32, v: bv32, s: Shift, t: Shift)
    requires v < 256
    ensures s != t ==> Field(Or(c, Put(v, s)), t) == Field(c, t)
    ensures s == t && Field(c, t) == 0 ==> Field(Or(c, Put(v, s)), t) == v
  {
    hide Field, Or, Put;
    FieldOfOr(c, Put(v, s), t);
    FieldOfPut(v, s, t);
    OrZero(Field(c, t));
    OrZero(v);
  }

  // With four separate shifts, what is stored at a shift is what the mask and shift recover.
  lemma FieldOfPack(r: bv32, g: bv32, b: bv32, a: bv32, l: Layout, t: Shift)
    requires r < 256 && g < 256 && b < 256 && a < 256 && Separate(l)
    ensures var c := Or(Or(Or(Put(r, l.red), Put(g, l.green)), Put(b, l.blue)), Put(a, l.alpha));
            && (t == l.red ==> Field(c, t) == r)
            && (t == l.green ==> Field(c, t) == g)
            && (t == l.blue ==> Field(c, t) == b)
            && (t == l.alpha ==> Field(c, t) == a)
  {
    hide Field, Or, Put;
    var c1 := Put(r, l.red);
    var c2 := Or(c1, Put(g, l.green));
    var c3 := Or(c2, Put(b, l.blue));
    FieldOfPut(r, l.red, t);
    FieldOfOrPut(c1, g, l.green, t);
    FieldOfOrPut(c2, b, l.blue, t);
    FieldOfOrPut(c3, a, l.alpha, t);
  }

  // Packed fields do not overlap: every channel reads back.
  lemma UnpackPack(l: Layout, p: Rgba)
    requires Separate(l)
    ensures Unpack(l, Pack(l, p)) == p
  {
    hide Field, Bits, Or, Put;
    FieldOfPack(Bits(p.r), Bits(p.g), Bits(p.b), Bits(p.a), l, l.red);
    FieldOfPack(Bits(p.r), Bits(p.g), Bits(p.b), Bits(p.a), l, l.green);
    FieldOfPack(Bits(p.r), Bits(p.g), Bits(p.b), Bits(p.a), l, l.blue);
    FieldOfPack(Bits(p.r), Bits(p.g), Bits(p.b), Bits(p.a), l, l.alpha);
  }

  // A DIB pixel is 0xAARRGGBB.
  lemma DibIs(p: Rgba)
    ensures var c := Pack(Dib, p);
      Channel(c, 24) == p.a && Channel(c, 16) == p.r && Channel(c, 8) == p.g && Channel(c, 0) == p.b
  {
    hide Channel, Pack;
    UnpackPack(Dib, p);
  }
}
