// Pasting a picture with a palette on Windows (lib/clip/clip_win.cpp): every 8-bit pixel becomes
// a 3-byte one, written with a 4-byte store that spills one byte into what follows.
module ClipPalette {
  import opened Common
  import opened Pixels

  datatype Rgb = Rgb(r: byte, g: byte, b: byte)

  // A CF_DIB bitmap with 8 bits per pixel: the header fields the code reads, the colour table
  // and the pixels, last row first.
  datatype Bitmap = Bitmap(width: nat, height: int, used: nat, table: seq<Rgb>, pixels: seq<byte>)

  datatype ImageSpec = ImageSpec(width: nat, height: nat, bitsPerPixel: nat, bytesPerRow: nat)

  // `(4 - (n & 3)) & 3`.
  function Padding(n: nat): (p: nat)
    ensures p < 4 && (n + p) % 4 == 0
  {
    (4 - n % 4) % 4
  }

  // `BitmapInfo::fill_spec` without the masks.
  function FillSpec(width: nat, height: int, bitCount: nat): ImageSpec {
    var bits := if bitCount <= 8 then 24 else bitCount;
    var n := width * ((bits + 7) / 8);
    var bytes :=
      if bits == 24 then n + 1 + Padding(n + 1)
      else if bits == 16 then n + Padding(n)
      else n;
    ImageSpec(width, if height >= 0 then height else -height, bits, bytes)
  }

  // `image_spec::required_data_size`.
  function RequiredDataSize(spec: ImageSpec): nat {
    var n := spec.bytesPerRow * spec.height;
    if spec.bitsPerPixel != 24 then n
    else if n % 4 > 0 then n + (4 - n % 4)
    else n + 1
  }

  function Spec(bmp: Bitmap): ImageSpec {
    FillSpec(bmp.width, bmp.height, 8)
  }

  function Colors(bmp: Bitmap): int {
    if bmp.used > 0 then bmp.used else 256
  }

  // Bytes from one source row to the next.
  function SourceStride(bmp: Bitmap): nat {
    bmp.width + Padding(bmp.width)
  }

  // Offset of row y of rows that are `stride` bytes long.
  function Row(y: int, stride: int): int {
    y * stride
  }

  lemma RowNext(y: int, stride: int)
    ensures Row(0, stride) == 0
    ensures Row(y + 1, stride) == Row(y, stride) + stride
  {
  }

  lemma {:induction false} RowsApart(y: int, z: int, stride: int)
    requires 0 <= stride
    ensures y < z ==> Row(y, stride) + stride <= Row(z, stride)
    ensures y <= z ==> Row(y, stride) <= Row(z, stride)
    decreases z - y
  {
    hide Row;
    if y < z {
      RowNext(y, stride);
      RowsApart(y + 1, z, stride);
    }
  }

  // What the clipboard owes: a whole colour table and whole rows.
  predicate Whole(bmp: Bitmap) {
    && |bmp.table| == Colors(bmp)
    && |bmp.pixels| == Row(Spec(bmp).height, SourceStride(bmp))
  }

  // The colour of source byte i: indices past the palette take its last entry.
  function Shown(bmp: Bitmap, i: byte): Rgb
    requires Whole(bmp)
  {
    bmp.table[if i < Colors(bmp) then i else Colors(bmp) - 1]
  }

  // The palette has as many colours as the header says, or 256; an index past it takes the last.
  lemma ShownIs(bmp: Bitmap, i: byte)
    requires Whole(bmp)
    ensures bmp.used > 0 ==> |bmp.table| == bmp.used && Shown(bmp, i) == bmp.table[Min(i, bmp.used - 1)]
    ensures bmp.used == 0 ==> |bmp.table| == 256 && Shown(bmp, i) == bmp.table[i]
  {
    hide Spec, SourceStride, Row;
  }

  // Rows hold their pixels and one spare byte, and the buffer holds the rows.
  lemma SpecFits(bmp: Bitmap)
    ensures var s := Spec(bmp);
            && s.bitsPerPixel == 24 && s.width == bmp.width
            && 3 * s.width + 1 <= s.bytesPerRow <= 3 * s.width + 4
            && s.bytesPerRow % 4 == 0
            && Row(s.height, s.bytesPerRow) + 1 == RequiredDataSize(s)
  {
    var s := Spec(bmp);
    var n := 3 * s.width + 1;
    assert s.bytesPerRow == n + Padding(n);
    MultipleOfFour(s.bytesPerRow, s.height);
  }

  lemma MultipleOfFour(n: nat, k: nat)
    requires n % 4 == 0
    ensures n * k % 4 == 0
  {
    assert n * k == 4 * (n / 4 * k);
  }

  // For every depth: the height counts without its sign, a palette becomes 24 bits, rows hold their
  // pixels, with a spare byte for 24 bits, and rows of 24 and 16 bits are aligned to four bytes
  // with at most three more.
  lemma FillSpecIs(width: nat, height: int, bitCount: nat)
    ensures var s := FillSpec(width, height, bitCount); var pixel := (s.bitsPerPixel + 7) / 8;
      && s.width == width && (s.height == height || s.height == -height)
      && s.bitsPerPixel == (if bitCount <= 8 then 24 else bitCount)
      && (s.bitsPerPixel == 24 ==> s.bytesPerRow % 4 == 0 && 3 * width + 1 <= s.bytesPerRow <= 3 * width + 4)
      && (s.bitsPerPixel == 16 ==> s.bytesPerRow % 4 == 0 && 2 * width <= s.bytesPerRow <= 2 * width + 3)
      && (s.bitsPerPixel != 24 && s.bitsPerPixel != 16 ==> s.bytesPerRow == width * pixel)
  {
  }

  // The buffer of a 24-bit picture has room for a 4-byte store to its last pixel, and at most three
  // bytes more than its rows; for other depths it is its rows.
  lemma LastStoreFits(s: ImageSpec)
    ensures s.bitsPerPixel != 24 ==> RequiredDataSize(s) == s.bytesPerRow * s.height
    ensures s.bitsPerPixel == 24 ==>
              s.bytesPerRow * s.height + 1 <= RequiredDataSize(s) <= s.bytesPerRow * s.height + 3
    ensures s.bitsPerPixel == 24 && 3 * s.width <= s.bytesPerRow && s.width > 0 && s.height > 0 ==>
              Row(s.height - 1, s.bytesPerRow) + 3 * (s.width - 1) + 4 <= RequiredDataSize(s)
  {
    RowNext(s.height - 1, s.bytesPerRow);
  }

  // ---------- Stores ----------

  // `*((uint32_t*)dst) = c` on a little-endian machine.
  method Store32(img: array<byte>, at: nat, c: bv32)
    requires at + 4 <= img.Length
    modifies img
    ensures img[at] == Channel(c, 0) && img[at + 1] == Channel(c, 8)
    ensures img[at + 2] == Channel(c, 16) && img[at + 3] == Channel(c, 24)
    ensures forall i :: 0 <= i < img.Length && !(at <= i < at + 4) ==> img[i] == old(img[i])
  {
    img[at] := Channel(c, 0);
    img[at + 1] := Channel(c, 8);
    img[at + 2] := Channel(c, 16);
    img[at + 3] := Channel(c, 24);
  }

  // `rgbRed << 16 | rgbGreen << 8 | rgbBlue`.
  function Entry(c: Rgb): bv32 {
    Pack(Dib, Rgba(c.r, c.g, c.b, 0))
  }

  lemma EntryBytes(c: Rgb)
    ensures Channel(Entry(c), 0) == c.b && Channel(Entry(c), 8) == c.g
    ensures Channel(Entry(c), 16) == c.r && Channel(Entry(c), 24) == 0
  {
    hide Channel, Pack;
    UnpackPack(Dib, Rgba(c.r, c.g, c.b, 0));
  }

  method BuildPalette(bmp: Bitmap) returns (palette: seq<bv32>)
    requires Whole(bmp)
    ensures |palette| == Colors(bmp)
    ensures forall c :: 0 <= c < |palette| ==> palette[c] == Entry(bmp.table[c])
  {
    hide Entry;
    palette := [];
    for c := 0 to Colors(bmp)
      invariant |palette| == c
      invariant forall d :: 0 <= d < c ==> palette[d] == Entry(bmp.table[d])
    {
      palette := palette + [Entry(bmp.table[c])];
    }
  }

  // The three bytes at offset `at` are the colour c.
  predicate Shows(img: seq<byte>, at: int, c: Rgb)
    requires 0 <= at && at + 3 <= |img|
  {
    img[at] == c.b && img[at + 1] == c.g && img[at + 2] == c.r
  }

  // The inner loop: `width` pixels read from offset src go to offset dst. The last store clears
  // one byte after the pixels, and nothing else is touched.
  method ExpandRow(bmp: Bitmap, palette: seq<bv32>, src: nat, img: array<byte>, dst: nat)
    requires Whole(bmp) && src + bmp.width <= |bmp.pixels| && dst + 3 * bmp.width + 1 <= img.Length
    requires |palette| == Colors(bmp)
    requires forall c :: 0 <= c < |palette| ==> palette[c] == Entry(bmp.table[c])
    modifies img
    ensures forall x :: 0 <= x < bmp.width ==> Shows(img[..], dst + 3 * x, Shown(bmp, bmp.pixels[src + x]))
    ensures bmp.width > 0 ==> img[dst + 3 * bmp.width] == 0
    ensures bmp.width == 0 && dst < img.Length ==> img[dst] == old(img[dst])
    ensures forall i :: 0 <= i < img.Length && !(dst <= i <= dst + 3 * bmp.width) ==> img[i] == old(img[i])
  {
    hide Entry, Whole, Channel;
    for x := 0 to bmp.width
      invariant forall k :: 0 <= k < x ==> Shows(img[..], dst + 3 * k, Shown(bmp, bmp.pixels[src + k]))
      invariant x > 0 ==> img[dst + 3 * x] == 0
      invariant x == 0 ==> img[dst] == old(img[dst])
      invariant forall i :: 0 <= i < img.Length && !(dst <= i <= dst + 3 * x) ==> img[i] == old(img[i])
    {
      var index: int := bmp.pixels[src + x];
      if index < 0 {
        index := 0;
      } else if index >= Colors(bmp) {
        index := Colors(bmp) - 1;
      }
      EntryBytes(Shown(bmp, bmp.pixels[src + x]));
      Store32(img, dst + 3 * x, palette[index]);
    }
  }

  // ---------- The whole picture ----------

  predicate RowShows(bmp: Bitmap, img: seq<byte>, y: int)
    requires Whole(bmp) && 0 <= y < Spec(bmp).height && |img| == RequiredDataSize(Spec(bmp))
  {
    RowRanges(bmp, y);
    forall x :: 0 <= x < bmp.width ==>
      Shows(img, Row(y, Spec(bmp).bytesPerRow) + 3 * x,
            Shown(bmp, bmp.pixels[Row(Spec(bmp).height - 1 - y, SourceStride(bmp)) + x]))
  }

  lemma RowRanges(bmp: Bitmap, y: int)
    requires Whole(bmp) && 0 <= y < Spec(bmp).height
    ensures var s := Spec(bmp);
            && 0 <= Row(y, s.bytesPerRow)
            && Row(y, s.bytesPerRow) + 3 * bmp.width + 1 <= Row(y, s.bytesPerRow) + s.bytesPerRow
            && Row(y, s.bytesPerRow) + s.bytesPerRow < RequiredDataSize(s)
            && 0 <= Row(s.height - 1 - y, SourceStride(bmp))
            && Row(s.height - 1 - y, SourceStride(bmp)) + bmp.width <= |bmp.pixels|
  {
    var s := Spec(bmp);
    SpecFits(bmp);
    RowsApart(0, y, s.bytesPerRow);
    RowsApart(y, s.height, s.bytesPerRow);
    RowsApart(0, s.height - 1 - y, SourceStride(bmp));
    RowsApart(s.height - 1 - y, s.height, SourceStride(bmp));
  }

  // Byte i belongs to the pixels of some row, or is the spare byte after them.
  ghost predicate Written(bmp: Bitmap, i: int) {
    exists y :: 0 <= y < Spec(bmp).height && InRow(bmp, y, i)
  }

  predicate InRow(bmp: Bitmap, y: int, i: int) {
    bmp.width > 0 && 0 <= i - Row(y, Spec(bmp).bytesPerRow) <= 3 * bmp.width
  }

  // Writing row y leaves every other finished row as it is.
  lemma RowKept(bmp: Bitmap, was: seq<byte>, img: seq<byte>, y: int, z: int)
    requires Whole(bmp) && |was| == |img| == RequiredDataSize(Spec(bmp))
    requires 0 <= y < Spec(bmp).height && 0 <= z < Spec(bmp).height && y != z
    requires forall i :: 0 <= i < |img| && !InRow(bmp, y, i) ==> img[i] == was[i]
    requires RowShows(bmp, was, z)
    ensures RowShows(bmp, img, z)
  {
    hide Whole, Spec, RequiredDataSize, Row, SourceStride, Colors, Shown;
    var stride := Spec(bmp).bytesPerRow;
    RowRanges(bmp, y);
    RowRanges(bmp, z);
    RowsApart(y, z, stride);
    RowsApart(z, y, stride);
    forall x | 0 <= x < bmp.width
      ensures Shows(img, Row(z, stride) + 3 * x, Shown(bmp, bmp.pixels[Row(Spec(bmp).height - 1 - z, SourceStride(bmp)) + x]))
    {
      var at := Row(z, stride) + 3 * x;
      assert !InRow(bmp, y, at) && !InRow(bmp, y, at + 1) && !InRow(bmp, y, at + 2);
    }
  }

  // One turn of the outer loop.
  method ExpandRowOf(bmp: Bitmap, palette: seq<bv32>, src: nat, img: array<byte>, y: int)
    requires Whole(bmp) && img.Length == RequiredDataSize(Spec(bmp))
    requires 0 <= y < Spec(bmp).height && src == Row(Spec(bmp).height - 1 - y, SourceStride(bmp))
    requires |palette| == Colors(bmp)
    requires forall c :: 0 <= c < |palette| ==> palette[c] == Entry(bmp.table[c])
    modifies img
    ensures RowShows(bmp, img[..], y)
    ensures forall z :: 0 <= z < Spec(bmp).height && z != y && RowShows(bmp, old(img[..]), z) ==>
      RowShows(bmp, img[..], z)
    ensures forall i :: 0 <= i < img.Length && !InRow(bmp, y, i) ==> img[i] == old(img[i])
  {
    hide Whole, Spec, RequiredDataSize, Row, SourceStride, Colors, Shown, Entry;
    RowRanges(bmp, y);
    ExpandRow(bmp, palette, src, img, Row(y, Spec(bmp).bytesPerRow));
    forall z | 0 <= z < Spec(bmp).height && z != y && RowShows(bmp, old(img[..]), z)
      ensures RowShows(bmp, img[..], z)
    {
      RowKept(bmp, old(img[..]), img[..], y, z);
    }
  }

  // The 8-bit case of `get_image`, into a buffer of the size `image(spec)` allocates.
  method ExpandPicture(bmp: Bitmap, img: array<byte>)
    requires Whole(bmp) && img.Length == RequiredDataSize(Spec(bmp))
    modifies img
    ensures forall y :: 0 <= y < Spec(bmp).height ==> RowShows(bmp, img[..], y)
    ensures forall i :: 0 <= i < img.Length && !Written(bmp, i) ==> img[i] == old(img[i])
  {
    hide Whole, Spec, RequiredDataSize, Row, RowShows, SourceStride, Colors, Shown, InRow, Entry;
    var palette := BuildPalette(bmp);
    var height := Spec(bmp).height;
    var src: nat := 0;
    RowNext(0, SourceStride(bmp));
    for y := height downto 0
      invariant src == Row(height - y, SourceStride(bmp))
      invariant forall z :: y <= z < height ==> RowShows(bmp, img[..], z)
      invariant forall i :: 0 <= i < img.Length && !Written(bmp, i) ==> img[i] == old(img[i])
    {
      ExpandRowOf(bmp, palette, src, img, y);
      assert forall i :: InRow(bmp, y, i) ==> Written(bmp, i);
      RowNext(height - 1 - y, SourceStride(bmp));
      src := src + SourceStride(bmp);
    }
  }
}
