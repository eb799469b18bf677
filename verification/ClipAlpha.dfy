// The 32-bit pixel path of the clipboard on Windows: `set_image` premultiplies the colours and
// stores the rows bottom-up (lib/clip/clip_win.cpp), `get_image` copies them back and
// `divide_rgb_by_alpha` recovers straight alpha (lib/clip/clip_common.h).
module ClipAlpha {
  import opened Common
  import opened Pixels

  // ---------- Channel arithmetic ----------

  // `r * a / 255`.
  function Scaled(v: byte, a: byte): (q: byte)
    ensures q <= a && 255 * q as int <= v as int * a as int < 255 * q as int + 255
  {
    ScaledBounds(v, a);
    v * a / 255
  }

  lemma ScaledBounds(v: int, a: int)
    requires 0 <= v < 256 && 0 <= a < 256
    ensures 0 <= v * a / 255 <= a
    ensures 255 * (v * a / 255) <= v * a <= 255 * (v * a / 255) + 254
  {
    assert 0 <= v * a <= 255 * a;
  }

  // `r * 255 / a`.
  function Restored(q: byte, a: byte): (v: byte)
    requires 0 < a && q <= a
    ensures a as int * v as int <= 255 * q as int < a as int * v as int + a as int
  {
    RestoredBounds(q, a);
    q * 255 / a
  }

  lemma RestoredBounds(q: int, a: int)
    requires 0 <= q <= a < 256 && 0 < a
    ensures 0 <= q * 255 / a <= 255
    ensures a * (q * 255 / a) <= 255 * q < a * (q * 255 / a) + a
  {
    var n := q * 255;
    var k := n / a;
    assert n == k * a + n % a;
    assert k * a == a * k;
    Times(a, k, -1);
    Times(a, 256, k);
  }

  lemma Times(a: int, x: int, y: int)
    requires a >= 0
    ensures x <= y ==> a * x <= a * y
  {
  }

  lemma Recovery(v: int, a: int, q: int, w: int)
    requires 0 <= v < 256 && 0 < a < 256
    requires 255 * q <= v * a <= 255 * q + 254
    requires a * w <= 255 * q < a * w + a
    ensures w <= v && a * (v - w) <= 253 + a
    ensures w == v <==> v * a % 255 == 0
    ensures a == 255 ==> w == v
  {
    var d := v - w;
    assert a * d == v * a - a * w;
    Times(a, d, -1);
    Times(a, 1, d);
    assert v * a % 255 == v * a - 255 * q;
  }

  // What a channel v of a pixel with alpha a > 0 may come back as: never brighter, at most
  // 253 / a + 1 levels darker, and exact iff 255 divides v * a.
  predicate Recovered(v: byte, a: byte, w: byte) {
    w <= v && a as int * (v as int - w as int) <= 253 + a && (w == v <==> v * a % 255 == 0)
  }

  lemma ChannelRecovery(v: byte, a: byte)
    requires 0 < a
    ensures Recovered(v, a, Restored(Scaled(v, a), a))
    ensures a == 255 ==> Restored(Scaled(v, a), a) == v
  {
    var q: int := Scaled(v, a);
    ScaledBounds(v, a);
    RestoredBounds(q, a);
    Recovery(v, a, q, q * 255 / a);
  }

  // ---------- Whole pixels ----------

  function Premultiply(p: Rgba): Rgba {
    Rgba(Scaled(p.r, p.a), Scaled(p.g, p.a), Scaled(p.b, p.a), p.a)
  }

  // `!(r > a || g > a || b > a)`, the validity scan.
  predicate Valid(p: Rgba) {
    p.r <= p.a && p.g <= p.a && p.b <= p.a
  }

  // What the second pass makes of a pixel, given the result of the first.
  function Straight(hasAlpha: bool, valid: bool, p: Rgba): Rgba
    requires valid ==> Valid(p)
  {
    if !hasAlpha then p.(a := 255)
    else if valid && p.a > 0 then Rgba(Restored(p.r, p.a), Restored(p.g, p.a), Restored(p.b, p.a), p.a)
    else p
  }

  // The three cases, written out: without any alpha a pixel becomes opaque and keeps its colour;
  // otherwise, if all pixels are valid, the colours of one with alpha grow by 255 / a, rounded
  // down, and every other pixel stays as it is.
  lemma StraightIs(hasAlpha: bool, valid: bool, p: Rgba)
    requires valid ==> p.r <= p.a && p.g <= p.a && p.b <= p.a
    ensures var q := Straight(hasAlpha, valid, p);
      && (!hasAlpha ==> q == Rgba(p.r, p.g, p.b, 255))
      && (hasAlpha && !valid ==> q == p)
      && (hasAlpha && valid && p.a == 0 ==> q == p)
      && (hasAlpha && valid && p.a > 0 ==>
            && q.a == p.a
            && p.a as int * q.r as int <= 255 * p.r as int < p.a as int * q.r as int + p.a as int
            && p.a as int * q.g as int <= 255 * p.g as int < p.a as int * q.g as int + p.a as int
            && p.a as int * q.b as int <= 255 * p.b as int < p.a as int * q.b as int + p.a as int)
  {
    hide Restored;
  }

  // What one pixel may come back as after being copied and pasted.
  predicate Returned(hasAlpha: bool, p: Rgba, q: Rgba) {
    if !hasAlpha then q == Rgba(0, 0, 0, 255)
    else if p.a == 0 then q == Rgba(0, 0, 0, 0)
    else
      && q.a == p.a
      && Recovered(p.r, p.a, q.r) && Recovered(p.g, p.a, q.g) && Recovered(p.b, p.a, q.b)
      && (p.a == 255 ==> q == p)
  }

  lemma PixelReturns(hasAlpha: bool, p: Rgba)
    requires p.a > 0 ==> hasAlpha
    ensures Valid(Premultiply(p)) && Returned(hasAlpha, p, Straight(hasAlpha, true, Premultiply(p)))
  {
    if p.a > 0 {
      hide Scaled, Restored, Recovered;
      ChannelRecovery(p.r, p.a);
      ChannelRecovery(p.g, p.a);
      ChannelRecovery(p.b, p.a);
    }
  }

  // ---------- The pixel loops ----------

  // An image is `height` rows of `width` pixels, row 0 first; a DIB holds the last row first.
  predicate InImage(img: array2<bv32>, y: int, x: int) {
    0 <= y < img.Length0 && 0 <= x < img.Length1
  }

  function PixelAt(img: array2<bv32>, l: Layout, y: int, x: int): Rgba
    requires InImage(img, y, x)
    reads img
  {
    Unpack(l, img[y, x])
  }

  ghost predicate HasAlpha(img: array2<bv32>, l: Layout)
    reads img
  {
    exists y, x :: InImage(img, y, x) && PixelAt(img, l, y, x).a > 0
  }

  ghost predicate AllValid(img: array2<bv32>, l: Layout)
    reads img
  {
    forall y, x :: InImage(img, y, x) ==> Valid(PixelAt(img, l, y, x))
  }

  // The first pass of `divide_rgb_by_alpha`.
  method Scan(img: array2<bv32>, l: Layout, known: bool) returns (hasAlpha: bool, valid: bool)
    ensures hasAlpha <==> known || HasAlpha(img, l)
    ensures valid <==> AllValid(img, l)
  {
    hide Unpack;
    hasAlpha, valid := known, true;
    for y := 0 to img.Length0
      invariant hasAlpha ==> known || HasAlpha(img, l)
      invariant valid || !AllValid(img, l)
      invariant known ==> hasAlpha
      invariant forall j, i :: 0 <= j < y && InImage(img, j, i) ==>
        && (PixelAt(img, l, j, i).a > 0 ==> hasAlpha) && (valid ==> Valid(PixelAt(img, l, j, i)))
    {
      for x := 0 to img.Length1
        invariant hasAlpha ==> known || HasAlpha(img, l)
        invariant valid || !AllValid(img, l)
        invariant known ==> hasAlpha
        invariant forall j, i :: InImage(img, j, i) && (j < y || (j == y && i < x)) ==>
          && (PixelAt(img, l, j, i).a > 0 ==> hasAlpha) && (valid ==> Valid(PixelAt(img, l, j, i)))
      {
        var p := PixelAt(img, l, y, x);
        if p.a > 0 {
          hasAlpha := true;
        }
        if p.r > p.a || p.g > p.a || p.b > p.a {
          valid := false;
        }
      }
    }
  }

  method DivideRgbByAlpha(img: array2<bv32>, l: Layout, known: bool)
    requires Separate(l)
    modifies img
    ensures forall y, x :: InImage(img, y, x) ==>
      && (old(AllValid(img, l)) ==> Valid(old(PixelAt(img, l, y, x))))
      && PixelAt(img, l, y, x)
           == Straight(known || old(HasAlpha(img, l)), old(AllValid(img, l)), old(PixelAt(img, l, y, x)))
  {
    hide Unpack, Pack, Straight;
    var hasAlpha, valid := Scan(img, l, known);
    for y := 0 to img.Length0
      invariant forall j, i :: InImage(img, j, i) && y <= j ==> img[j, i] == old(img[j, i])
      invariant forall j, i :: InImage(img, j, i) && j < y ==>
        PixelAt(img, l, j, i) == Straight(hasAlpha, valid, old(PixelAt(img, l, j, i)))
    {
      for x := 0 to img.Length1
        invariant forall j, i :: InImage(img, j, i) && (y < j || (y == j && x <= i)) ==>
          img[j, i] == old(img[j, i])
        invariant forall j, i :: InImage(img, j, i) && (j < y || (j == y && i < x)) ==>
          PixelAt(img, l, j, i) == Straight(hasAlpha, valid, old(PixelAt(img, l, j, i)))
      {
        var p := PixelAt(img, l, y, x);
        assert p == old(PixelAt(img, l, y, x));
        var q := Straight(hasAlpha, valid, p);
        img[y, x] := Pack(l, q);
        UnpackPack(l, q);
      }
    }
  }

  // dib holds the premultiplied pixels of src, bottom row first.
  ghost predicate Copied(src: array2<bv32>, l: Layout, dib: array2<bv32>)
    reads src, dib
  {
    && dib.Length0 == src.Length0 && dib.Length1 == src.Length1
    && forall y, x :: InImage(src, y, x) ==>
      PixelAt(dib, Dib, src.Length0 - 1 - y, x) == Premultiply(PixelAt(src, l, y, x))
  }

  method SetImage(src: array2<bv32>, l: Layout) returns (dib: array2<bv32>)
    ensures fresh(dib) && Copied(src, l, dib)
  {
    hide Unpack, Pack, Premultiply;
    var h, w := src.Length0, src.Length1;
    dib := new bv32[h, w];
    var row := h;
    for y := 0 to h
      invariant row == h - y
      invariant forall j, i :: InImage(src, j, i) && j < y ==>
        PixelAt(dib, Dib, h - 1 - j, i) == Premultiply(PixelAt(src, l, j, i))
    {
      row := row - 1;
      for x := 0 to w
        invariant forall j, i :: InImage(src, j, i) && (j < y || (j == y && i < x)) ==>
          PixelAt(dib, Dib, h - 1 - j, i) == Premultiply(PixelAt(src, l, j, i))
      {
        var q := Premultiply(PixelAt(src, l, y, x));
        dib[row, x] := Pack(Dib, q);
        UnpackPack(Dib, q);
      }
    }
  }

  // img is what pasting dib gives: rows flipped back, colours straightened.
  ghost predicate Pasted(dib: array2<bv32>, img: array2<bv32>)
    reads dib, img
  {
    && img.Length0 == dib.Length0 && img.Length1 == dib.Length1
    && forall y, x :: InImage(img, y, x) ==>
      var p := PixelAt(dib, Dib, dib.Length0 - 1 - y, x);
      && (AllValid(dib, Dib) ==> Valid(p))
      && PixelAt(img, Dib, y, x) == Straight(HasAlpha(dib, Dib), AllValid(dib, Dib), p)
  }

  // The 32-bit case of `get_image`.
  method GetImage(dib: array2<bv32>) returns (img: array2<bv32>)
    ensures fresh(img) && Pasted(dib, img)
  {
    hide Unpack, Pack, Straight;
    var h, w := dib.Length0, dib.Length1;
    img := new bv32[h, w];
    var row := 0;
    for y := h downto 0
      invariant row == h - y
      invariant forall j, i :: InImage(img, j, i) && y <= j ==> img[j, i] == dib[h - 1 - j, i]
    {
      for x := 0 to w
        invariant forall j, i :: InImage(img, j, i) && (y < j || (y == j && i < x)) ==>
          img[j, i] == dib[h - 1 - j, i]
      {
        img[y, x] := dib[row, x];
      }
      row := row + 1;
    }
    FlippedAgree(dib, img);
    DivideRgbByAlpha(img, Dib, false);
  }

  ghost predicate Mirrored(a: array2<bv32>, b: array2<bv32>)
    reads a, b
  {
    && a.Length0 == b.Length0 && a.Length1 == b.Length1
    && forall j, i :: InImage(a, j, i) ==> a[j, i] == b[b.Length0 - 1 - j, i]
  }

  lemma MirrorAgrees(a: array2<bv32>, b: array2<bv32>)
    requires Mirrored(a, b)
    ensures HasAlpha(b, Dib) ==> HasAlpha(a, Dib)
    ensures AllValid(a, Dib) ==> AllValid(b, Dib)
  {
    hide Unpack;
    forall j, i | InImage(b, j, i)
      ensures var k := a.Length0 - 1 - j; InImage(a, k, i) && PixelAt(b, Dib, j, i) == PixelAt(a, Dib, k, i)
    {
      assert InImage(a, a.Length0 - 1 - j, i);
    }
  }

  lemma FlippedAgree(dib: array2<bv32>, img: array2<bv32>)
    requires Mirrored(img, dib)
    ensures HasAlpha(img, Dib) <==> HasAlpha(dib, Dib)
    ensures AllValid(img, Dib) <==> AllValid(dib, Dib)
  {
    hide Unpack, HasAlpha, AllValid;
    forall j, i | InImage(dib, j, i)
      ensures dib[j, i] == img[img.Length0 - 1 - j, i]
    {
      assert InImage(img, img.Length0 - 1 - j, i);
    }
    MirrorAgrees(dib, img);
    MirrorAgrees(img, dib);
  }

  // Copying always leaves a valid premultiplied picture, and pasting returns every pixel up to
  // the loss of `Recovered`; a wholly transparent picture comes back as opaque black.
  lemma RoundTrip(src: array2<bv32>, l: Layout, dib: array2<bv32>, img: array2<bv32>)
    requires Copied(src, l, dib) && Pasted(dib, img)
    ensures AllValid(dib, Dib)
    ensures img.Length0 == src.Length0 && img.Length1 == src.Length1
    ensures forall y, x :: InImage(src, y, x) ==>
      Returned(HasAlpha(src, l), PixelAt(src, l, y, x), PixelAt(img, Dib, y, x))
  {
    hide Unpack, Straight, Premultiply, Returned;
    CopiedAgree(src, l, dib);
    forall y, x | InImage(src, y, x)
      ensures Returned(HasAlpha(src, l), PixelAt(src, l, y, x), PixelAt(img, Dib, y, x))
    {
      PixelReturns(HasAlpha(src, l), PixelAt(src, l, y, x));
    }
  }

  lemma CopiedAgree(src: array2<bv32>, l: Layout, dib: array2<bv32>)
    requires Copied(src, l, dib)
    ensures AllValid(dib, Dib)
    ensures HasAlpha(dib, Dib) <==> HasAlpha(src, l)
  {
    hide Unpack, Scaled;
    var h := src.Length0;
    forall j, i | InImage(dib, j, i)
      ensures PixelAt(dib, Dib, j, i) == Premultiply(PixelAt(src, l, h - 1 - j, i))
    {
      assert InImage(src, h - 1 - j, i);
    }
    if HasAlpha(dib, Dib) {
      var y, x :| InImage(dib, y, x) && PixelAt(dib, Dib, y, x).a > 0;
      assert PixelAt(src, l, h - 1 - y, x).a > 0;
    }
    if HasAlpha(src, l) {
      var y, x :| InImage(src, y, x) && PixelAt(src, l, y, x).a > 0;
      assert PixelAt(dib, Dib, h - 1 - y, x).a > 0;
    }
  }
}
