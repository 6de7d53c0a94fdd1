/**
 Where a pixel of a frame lies in the macroblock format of the STE decoder, and
 what it looks like in RGB565 (ColorConverter::convertSTEYUV420PackedSemiPlanarMB).

 A macroblock is 16 by 16 pixels: 256 bytes of luma in two columns 8 pixels wide,
 and 128 bytes of interleaved Cb and Cr, one pair for each 2 by 2 pixels.
 */
module MbLayout {
  import opened Machine

  type Word = w: int | 0 <= w < 0x1_0000_0000

  // ----- positions

  /** The macroblock of pixel (x, y) in a frame that is mx macroblocks wide. */
  function Block(x: nat, y: nat, mx: nat): nat {
    y / 16 * mx + x / 16
  }

  /** The luma byte inside the macroblock: column, row, position in the row. */
  function InLuma(x: nat, y: nat): nat {
    x % 16 / 8 * 128 + y % 16 * 8 + x % 8
  }

  /** The Cb byte inside the macroblock; one row of pairs serves two rows of pixels. */
  function InChroma(x: nat, y: nat): nat {
    x % 16 / 8 * 64 + y % 16 / 2 * 8 + x % 8 / 2 * 2
  }

  function LumaByte(x: nat, y: nat, mx: nat): nat {
    Block(x, y, mx) * 256 + InLuma(x, y)
  }

  /** The Cb byte of pixel (x, y), counted from the start of the chroma; Cr is next. */
  function ChromaByte(x: nat, y: nat, mx: nat): nat {
    Block(x, y, mx) * 128 + InChroma(x, y)
  }

  /** The pixel whose luma is at a given byte. */
  function LumaX(offset: nat, mx: nat): nat
    requires 0 < mx
  {
    offset / 256 % mx * 16 + offset % 256 / 128 * 8 + offset % 256 % 128 % 8
  }

  function LumaY(offset: nat, mx: nat): nat
    requires 0 < mx
  {
    offset / 256 / mx * 16 + offset % 256 % 128 / 8
  }

  lemma DivMod(q: nat, d: nat, r: nat)
    requires r < d
    ensures (q * d + r) / d == q && (q * d + r) % d == r
  {
    var n := q * d + r;
    assert n == n / d * d + n % d;
    if n / d < q {
      MulMonotone(n / d + 1, q, d);
    } else if q < n / d {
      MulMonotone(q + 1, n / d, d);
    }
  }

  /** There are my rows of mx macroblocks. */
  lemma BlockNumber(lx: nat, ly: nat, mx: nat, my: nat)
    requires lx < mx && ly < my
    ensures ly * mx + lx < mx * my
  {
    MulMonotone(ly + 1, my, mx);
  }

  lemma InsideBlock(x: nat, y: nat)
    ensures InLuma(x, y) < 256 && InChroma(x, y) + 1 < 128 && InChroma(x, y) % 2 == 0
  {
    var col, row, pos := x % 16 / 8, y % 16, x % 8;
    assert col <= 1 && row <= 15 && pos <= 7;
    assert row / 2 <= 7 && pos / 2 <= 3;
  }

  /** Every pixel inside the macroblocks has a luma byte and a chroma pair of the frame. */
  lemma InsideFrame(x: nat, y: nat, mx: nat, my: nat)
    requires x < 16 * mx && y < 16 * my
    ensures LumaByte(x, y, mx) < 256 * (mx * my)
    ensures ChromaByte(x, y, mx) + 1 < 128 * (mx * my)
  {
    BlockNumber(x / 16, y / 16, mx, my);
    InsideBlock(x, y);
    BelowTotal(Block(x, y, mx), mx * my, InLuma(x, y), InChroma(x, y));
  }

  lemma BelowTotal(block: nat, total: nat, luma: nat, chroma: nat)
    requires block < total && luma < 256 && chroma + 1 < 128
    ensures block * 256 + luma < 256 * total && block * 128 + chroma + 1 < 128 * total
  {
  }

  /** From one pixel to others in the luma: along half a row, down, to the other half, to
      the next macroblock and to the next row of them. */
  lemma LumaSteps(x: nat, y: nat, mx: nat)
    ensures LumaByte(0, 0, mx) == 0
    ensures x % 8 != 7 ==> LumaByte(x + 1, y, mx) == LumaByte(x, y, mx) + 1
    ensures y % 16 != 15 ==> LumaByte(x, y + 1, mx) == LumaByte(x, y, mx) + 8
    ensures x % 16 < 8 ==> LumaByte(x + 8, y, mx) == LumaByte(x, y, mx) + 128
    ensures LumaByte(x + 16, y, mx) == LumaByte(x, y, mx) + 256
    ensures LumaByte(x, y + 16, mx) == LumaByte(x, y, mx) + 256 * mx
  {
    StepsX(x);
    StepsY(y);
    assert (y / 16 + 1) * mx == y / 16 * mx + mx;
  }

  /** The same in the chroma, from one square of pixels to others. */
  lemma ChromaSteps(x: nat, y: nat, mx: nat)
    ensures ChromaByte(0, 0, mx) == 0
    ensures x % 8 < 6 ==> ChromaByte(x + 2, y, mx) == ChromaByte(x, y, mx) + 2
    ensures y % 16 < 14 ==> ChromaByte(x, y + 2, mx) == ChromaByte(x, y, mx) + 8
    ensures x % 16 < 8 ==> ChromaByte(x + 8, y, mx) == ChromaByte(x, y, mx) + 64
    ensures ChromaByte(x + 16, y, mx) == ChromaByte(x, y, mx) + 128
    ensures ChromaByte(x, y + 16, mx) == ChromaByte(x, y, mx) + 128 * mx
  {
    StepsX(x);
    StepsY(y);
    HalfStep(x % 8);
    assert (y / 16 + 1) * mx == y / 16 * mx + mx;
  }

  lemma HalfStep(n: nat)
    ensures (n + 2) / 2 == n / 2 + 1
  {
  }

  lemma StepsX(x: nat)
    ensures x % 8 != 7 ==> (x + 1) / 16 == x / 16 && (x + 1) % 16 / 8 == x % 16 / 8 && (x + 1) % 8 == x % 8 + 1
    ensures x % 8 < 6 ==> (x + 2) / 16 == x / 16 && (x + 2) % 16 / 8 == x % 16 / 8 && (x + 2) % 8 == x % 8 + 2
    ensures x % 16 < 8 ==> (x + 8) / 16 == x / 16 && (x + 8) % 16 / 8 == x % 16 / 8 + 1 && (x + 8) % 8 == x % 8
    ensures (x + 16) / 16 == x / 16 + 1 && (x + 16) % 16 / 8 == x % 16 / 8 && (x + 16) % 8 == x % 8
  {
    var lx, col, pos := x / 16, x % 16 / 8, x % 8;
    DigitsOf(x);
    if pos != 7 {
      PixelDigits(lx, 0, col, 0, pos + 1);
    }
    if pos < 6 {
      PixelDigits(lx, 0, col, 0, pos + 2);
    }
    if col == 0 {
      PixelDigits(lx, 0, 1, 0, pos);
    }
    PixelDigits(lx + 1, 0, col, 0, pos);
  }

  lemma DigitsOf(x: nat)
    ensures x == x / 16 * 16 + x % 16 / 8 * 8 + x % 8 && x % 16 / 8 < 2 && (x % 16 < 8 <==> x % 16 / 8 == 0)
  {
  }

  lemma StepsY(y: nat)
    ensures y % 16 != 15 ==> (y + 1) / 16 == y / 16 && (y + 1) % 16 == y % 16 + 1
    ensures y % 16 < 14 ==> (y + 2) / 16 == y / 16 && (y + 2) % 16 / 2 == y % 16 / 2 + 1
    ensures (y + 16) / 16 == y / 16 + 1 && (y + 16) % 16 == y % 16
  {
  }

  /** The digits of a position in a macroblock. */
  lemma LumaDigits(col: nat, row: nat, pos: nat)
    requires col < 2 && row < 16 && pos < 8
    ensures var n := col * 128 + row * 8 + pos;
      n < 256 && n / 128 == col && n % 128 / 8 == row && n % 128 % 8 == pos
  {
  }

  /** No two pixels share a luma byte... */
  lemma LumaInverse(x: nat, y: nat, mx: nat)
    requires x < 16 * mx
    ensures LumaX(LumaByte(x, y, mx), mx) == x && LumaY(LumaByte(x, y, mx), mx) == y
  {
    LumaParts(x, y, LumaByte(x, y, mx), Block(x, y, mx));
    DivMod(y / 16, mx, x / 16);
  }

  lemma LumaParts(x: nat, y: nat, offset: nat, block: nat)
    requires offset == block * 256 + InLuma(x, y)
    ensures offset / 256 == block
    ensures offset % 256 / 128 * 8 + offset % 256 % 128 % 8 == x % 16 && offset % 256 % 128 / 8 == y % 16
  {
    LumaDigits(x % 16 / 8, y % 16, x % 8);
    DivMod(block, 256, InLuma(x, y));
  }

  /** ...and every luma byte belongs to a pixel. */
  lemma LumaCovers(offset: nat, mx: nat, my: nat)
    requires 0 < mx && offset < 256 * (mx * my)
    ensures LumaX(offset, mx) < 16 * mx && LumaY(offset, mx) < 16 * my
    ensures LumaByte(LumaX(offset, mx), LumaY(offset, mx), mx) == offset
  {
    var block := offset / 256;
    var lx, ly := block % mx, block / mx;
    BlockInFrame(block, mx, my);
    var col, row, pos := offset % 256 / 128, offset % 256 % 128 / 8, offset % 256 % 128 % 8;
    PixelDigits(lx, ly, col, row, pos);
    OffsetDigits(offset);
  }

  lemma BlockInFrame(block: nat, mx: nat, my: nat)
    requires 0 < mx && block < mx * my
    ensures block % mx < mx && block / mx < my && block / mx * mx + block % mx == block
  {
    if my <= block / mx {
      MulMonotone(my, block / mx, mx);
    }
  }

  lemma OffsetDigits(offset: nat)
    ensures offset == offset / 256 * 256 + offset % 256 / 128 * 128
                      + offset % 256 % 128 / 8 * 8 + offset % 256 % 128 % 8
  {
    var n := offset % 256;
    assert n == n / 128 * 128 + n % 128;
    assert n % 128 == n % 128 / 8 * 8 + n % 128 % 8;
  }

  lemma PixelDigits(lx: nat, ly: nat, col: nat, row: nat, pos: nat)
    requires col < 2 && row < 16 && pos < 8
    ensures var x, y := lx * 16 + col * 8 + pos, ly * 16 + row;
      && x / 16 == lx && y / 16 == ly
      && x % 16 / 8 == col && x % 8 == pos && y % 16 == row
  {
  }

  /** Two pixels share a chroma pair exactly if they lie in the same 2 by 2 square. */
  lemma ChromaShared(x: nat, y: nat, x': nat, y': nat, mx: nat)
    requires x < 16 * mx && x' < 16 * mx
    ensures ChromaByte(x, y, mx) == ChromaByte(x', y', mx) <==> x / 2 == x' / 2 && y / 2 == y' / 2
  {
    ChromaInverse(x, y, mx);
    ChromaInverse(x', y', mx);
    if x / 2 == x' / 2 && y / 2 == y' / 2 {
      SquareDigits(x, y);
      SquareDigits(x', y');
    }
  }

  /** Everything about a chroma position depends on the square only. */
  lemma SquareDigits(x: nat, y: nat)
    ensures x / 16 == x / 2 / 8 && y / 16 == y / 2 / 8
    ensures InChroma(x, y) == x / 2 % 8 / 4 * 64 + y / 2 % 8 * 8 + x / 2 % 4 * 2
  {
    HalfX(x);
    HalfY(y);
  }

  lemma HalfX(x: nat)
    ensures x / 16 == x / 2 / 8 && x % 16 / 8 == x / 2 % 8 / 4 && x % 8 / 2 == x / 2 % 4
  {
    var q := x / 2;
    assert x == (q / 8 * 8 + q % 8) * 2 + x % 2;
    DivMod(q / 8, 16, q % 8 * 2 + x % 2);
    DivMod(q % 8 / 4, 8, q % 4 * 2 + x % 2);
    DivMod(q / 4, 8, q % 4 * 2 + x % 2);
    DivMod(q % 4, 2, x % 2);
    Eighth(q);
  }

  lemma HalfY(y: nat)
    ensures y / 16 == y / 2 / 8 && y % 16 / 2 == y / 2 % 8
  {
  }

  lemma ChromaInverse(x: nat, y: nat, mx: nat)
    requires x < 16 * mx
    ensures var offset := ChromaByte(x, y, mx);
      && x / 2 == offset / 128 % mx * 8 + offset % 128 / 64 * 4 + offset % 128 % 64 % 8 / 2
      && y / 2 == offset / 128 / mx * 8 + offset % 128 % 64 / 8
  {
    InsideBlock(x, y);
    ChromaParts(x, y, ChromaByte(x, y, mx), Block(x, y, mx));
    DivMod(y / 16, mx, x / 16);
  }

  lemma ChromaDigits(col: nat, row: nat, pos: nat)
    requires col < 2 && row < 8 && pos < 4
    ensures var n := col * 64 + row * 8 + pos * 2;
      n < 128 && n / 64 == col && n % 64 / 8 == row && n % 64 % 8 / 2 == pos
  {
  }

  lemma ChromaParts(x: nat, y: nat, offset: nat, block: nat)
    requires offset == block * 128 + InChroma(x, y)
    ensures offset / 128 == block
    ensures x / 2 == x / 16 * 8 + offset % 128 / 64 * 4 + offset % 128 % 64 % 8 / 2
    ensures y / 2 == y / 16 * 8 + offset % 128 % 64 / 8
  {
    SquareDigits(x, y);
    SquareParts(x / 2, y / 2);
    InsideBlock(x, y);
    DivMod(block, 128, InChroma(x, y));
  }

  lemma SquareParts(xs: nat, ys: nat)
    ensures var n := xs % 8 / 4 * 64 + ys % 8 * 8 + xs % 4 * 2;
      xs == xs / 8 * 8 + n / 64 * 4 + n % 64 % 8 / 2 && ys == ys / 8 * 8 + n % 64 / 8
  {
    ChromaDigits(xs % 8 / 4, ys % 8, xs % 4);
    Eighth(xs);
  }

  lemma Eighth(x: nat)
    ensures x % 8 == x % 8 / 4 * 4 + x % 4
  {
  }

  // ----- one pixel

  /** Byte number i of a word, the lowest first. */
  function ByteOf(w: Word, i: nat): Byte {
    if i == 0 then w % 256 else ByteOf(w / 256, i - 1)
  }

  /** A word is its bytes, the lowest first. */
  lemma WordBytes(w: Word)
    ensures w == ByteOf(w, 0) + 0x100 * ByteOf(w, 1) + 0x1_0000 * ByteOf(w, 2) + 0x100_0000 * ByteOf(w, 3)
  {
    assert ByteOf(w, 1) == w / 256 % 256;
    assert ByteOf(w, 2) == w / 256 / 256 % 256;
    assert ByteOf(w, 3) == w / 256 / 256 / 256 % 256;
  }

  /** A colour component: the whole part of a fixed-point value, cut to a byte. */
  function Clamp(v: int): (b: Byte)
    ensures v < 0 ==> b == 0
    ensures 65536 <= v ==> b == 255
    ensures 0 <= v < 65536 ==> 256 * b <= v < 256 * (b + 1)
  {
    var whole := v / 256;
    if whole < 0 then 0 else if 255 < whole then 255 else whole
  }

  lemma ClampMonotone(v: int, w: int, d: nat)
    requires v <= w && (d == 4 || d == 8)
    ensures Clamp(v) / d <= Clamp(w) / d
  {
  }

  /** Five bits of red, six of green and five of blue. */
  datatype Colour = Colour(red: nat, green: nat, blue: nat) {
    predicate Fits() {
      red < 32 && green < 64 && blue < 32
    }

    function Packed(): (p: nat)
      requires Fits()
      ensures p < 65536
    {
      red * 2048 + green * 32 + blue
    }
  }

  /** Packing loses nothing. */
  lemma Unpacked(c: Colour)
    requires c.Fits()
    ensures c == Colour(c.Packed() / 2048, c.Packed() / 32 % 64, c.Packed() % 32)
  {
    DivMod(c.red, 2048, c.green * 32 + c.blue);
    DivMod(c.red * 64 + c.green, 32, c.blue);
    DivMod(c.red, 64, c.green);
  }

  /** What the frame holds of a pixel. */
  datatype Sample = Sample(y: Byte, cb: Byte, cr: Byte)

  function Rgb(p: Sample): (c: Colour)
    ensures c.Fits()
  {
    Colour(Clamp(298 * p.y + 408 * p.cr - 57059) / 8,
           Clamp(298 * p.y - 100 * p.cb - 208 * p.cr + 34713) / 4,
           Clamp(298 * p.y + 516 * p.cb - 70887) / 8)
  }

  // ----- what the colours mean

  /** More luma makes no component darker. */
  lemma MoreLuma(p: Sample, q: Sample)
    requires p.y <= q.y && p.cb == q.cb && p.cr == q.cr
    ensures Rgb(p).red <= Rgb(q).red && Rgb(p).green <= Rgb(q).green && Rgb(p).blue <= Rgb(q).blue
  {
    ClampMonotone(298 * p.y + 408 * p.cr - 57059, 298 * q.y + 408 * q.cr - 57059, 8);
    ClampMonotone(298 * p.y - 100 * p.cb - 208 * p.cr + 34713, 298 * q.y - 100 * q.cb - 208 * q.cr + 34713, 4);
    ClampMonotone(298 * p.y + 516 * p.cb - 70887, 298 * q.y + 516 * q.cb - 70887, 8);
  }

  /** More Cb shifts green to blue. */
  lemma MoreCb(p: Sample, q: Sample)
    requires p.y == q.y && p.cb <= q.cb && p.cr == q.cr
    ensures Rgb(p).red == Rgb(q).red && Rgb(p).green >= Rgb(q).green && Rgb(p).blue <= Rgb(q).blue
  {
    ClampMonotone(298 * q.y - 100 * q.cb - 208 * q.cr + 34713, 298 * p.y - 100 * p.cb - 208 * p.cr + 34713, 4);
    ClampMonotone(298 * p.y + 516 * p.cb - 70887, 298 * q.y + 516 * q.cb - 70887, 8);
  }

  /** More Cr shifts green to red. */
  lemma MoreCr(p: Sample, q: Sample)
    requires p.y == q.y && p.cb == q.cb && p.cr <= q.cr
    ensures Rgb(p).red <= Rgb(q).red && Rgb(p).green >= Rgb(q).green && Rgb(p).blue == Rgb(q).blue
  {
    ClampMonotone(298 * p.y + 408 * p.cr - 57059, 298 * q.y + 408 * q.cr - 57059, 8);
    ClampMonotone(298 * q.y - 100 * q.cb - 208 * q.cr + 34713, 298 * p.y - 100 * p.cb - 208 * p.cr + 34713, 4);
  }

  /** Without colour, luma up to 16 is black and luma from 235 on is white. */
  lemma BlackAndWhite(y: Byte)
    ensures y <= 16 ==> Rgb(Sample(y, 128, 128)) == Colour(0, 0, 0)
    ensures 235 <= y ==> Rgb(Sample(y, 128, 128)) == Colour(31, 63, 31)
  {
    if y <= 16 {
      MoreLuma(Sample(y, 128, 128), Sample(16, 128, 128));
    }
    if 235 <= y {
      MoreLuma(Sample(235, 128, 128), Sample(y, 128, 128));
    }
  }

  // The components of Recommendation ITU-R BT.601, for luma from 16 to 235 and chroma
  // around 128, on a scale from 0 to 255.

  function IdealRed(p: Sample): real {
    255.0 / 219.0 * (p.y as real - 16.0) + 255.0 / 224.0 * 1.402 * (p.cr as real - 128.0)
  }

  function IdealGreen(p: Sample): real {
    255.0 / 219.0 * (p.y as real - 16.0)
    - 255.0 / 224.0 * 0.344136 * (p.cb as real - 128.0) - 255.0 / 224.0 * 0.714136 * (p.cr as real - 128.0)
  }

  function IdealBlue(p: Sample): real {
    255.0 / 219.0 * (p.y as real - 16.0) + 255.0 / 224.0 * 1.772 * (p.cb as real - 128.0)
  }

  function Between0And255(v: real): real {
    if v < 0.0 then 0.0 else if 255.0 < v then 255.0 else v
  }

  /** A fixed-point value and a real one that are less than one step apart. */
  lemma NearClamp(v: int, ideal: real, d: nat)
    requires -256.0 < v as real - 256.0 * ideal < 256.0 && (d == 4 || d == 8)
    ensures -2.0 - (d - 1) as real < (d * (Clamp(v) / d)) as real - Between0And255(ideal) < 1.0
  {
    var b := Clamp(v);
    assert b == d * (b / d) + b % d;
    assert -2.0 < b as real - Between0And255(ideal) < 1.0;
  }

  /** Every component is that of the standard to within two of 256 steps, before its low
      bits are dropped. */
  lemma NearStandard(p: Sample)
    ensures var c := Rgb(p);
      && -9.0 < (8 * c.red) as real - Between0And255(IdealRed(p)) < 1.0
      && -5.0 < (4 * c.green) as real - Between0And255(IdealGreen(p)) < 1.0
      && -9.0 < (8 * c.blue) as real - Between0And255(IdealBlue(p)) < 1.0
  {
    NearClamp(298 * p.y + 408 * p.cr - 57059, IdealRed(p), 8);
    NearClamp(298 * p.y - 100 * p.cb - 208 * p.cr + 34713, IdealGreen(p), 4);
    NearClamp(298 * p.y + 516 * p.cb - 70887, IdealBlue(p), 8);
  }

  /** Two pixels in one word. */
  function Joined(left: Colour, right: Colour): Word
    requires left.Fits() && right.Fits()
  {
    right.Packed() * 65536 + left.Packed()
  }

  // ----- a frame

  /** Byte number `offset` of a frame that is stored in words. */
  function ByteAt(s: seq<Word>, offset: nat): Byte
    requires offset / 4 < |s|
  {
    ByteOf(s[offset / 4], offset % 4)
  }

  /** The words of a frame of mx by my macroblocks: luma, then chroma. */
  predicate IsFrame(s: seq<Word>, mx: nat, my: nat) {
    96 * (mx * my) <= |s|
  }

  /** Pixel (x, y) of the frame. */
  function SampleAt(s: seq<Word>, mx: nat, my: nat, x: nat, y: nat): Sample
    requires IsFrame(s, mx, my) && x < 16 * mx && y < 16 * my
  {
    InsideFrame(x, y, mx, my);
    var chroma := 256 * (mx * my) + ChromaByte(x, y, mx);
    Sample(ByteAt(s, LumaByte(x, y, mx)), ByteAt(s, chroma), ByteAt(s, chroma + 1))
  }

  /** The pixels (2 * xw, y) and (2 * xw + 1, y). */
  function WordOf(s: seq<Word>, mx: nat, my: nat, xw: nat, y: nat): Word
    requires IsFrame(s, mx, my) && xw < 8 * mx && y < 16 * my
  {
    Joined(Rgb(SampleAt(s, mx, my, 2 * xw, y)), Rgb(SampleAt(s, mx, my, 2 * xw + 1, y)))
  }

  /** The picture depends on the 96 words of each macroblock and on nothing behind them. */
  lemma OnlyTheFrame(s: seq<Word>, t: seq<Word>, mx: nat, my: nat, x: nat, y: nat)
    requires IsFrame(s, mx, my) && IsFrame(t, mx, my) && x < 16 * mx && y < 16 * my
    requires s[..96 * (mx * my)] == t[..96 * (mx * my)]
    ensures SampleAt(s, mx, my, x, y) == SampleAt(t, mx, my, x, y)
  {
    InsideFrame(x, y, mx, my);
    SameByte(s, t, LumaByte(x, y, mx), 96 * (mx * my));
    SameByte(s, t, 256 * (mx * my) + ChromaByte(x, y, mx), 96 * (mx * my));
    SameByte(s, t, 256 * (mx * my) + ChromaByte(x, y, mx) + 1, 96 * (mx * my));
  }

  lemma SameByte(s: seq<Word>, t: seq<Word>, offset: nat, words: nat)
    requires offset < 4 * words && words <= |s| && words <= |t| && s[..words] == t[..words]
    ensures ByteAt(s, offset) == ByteAt(t, offset)
  {
    var k :| k == offset / 4;
    assert s[k] == s[..words][k] == t[..words][k] == t[k];
  }

  /** In byte `offset` of the first n bytes t has at least as much as s; in the others
      they are the same. */
  ghost predicate Raised(s: seq<Word>, t: seq<Word>, n: nat, offset: nat) {
    && n <= 4 * |s| && n <= 4 * |t|
    && forall k :: 0 <= k < n ==>
         if k == offset then ByteAt(s, k) <= ByteAt(t, k) else ByteAt(s, k) == ByteAt(t, k)
  }

  /** How many bytes a frame has. */
  function FrameSize(mx: nat, my: nat): nat {
    384 * (mx * my)
  }

  /** The Cb byte of pixel (x, y), counted from the start of the frame. */
  function CbByte(x: nat, y: nat, mx: nat, my: nat): nat {
    256 * (mx * my) + ChromaByte(x, y, mx)
  }

  /** One luma byte is one pixel: more of it makes this pixel no darker, and the others
      stay. */
  lemma LumaIsOnePixel(s: seq<Word>, t: seq<Word>, mx: nat, my: nat, x: nat, y: nat, u: nat, v: nat)
    requires x < 16 * mx && y < 16 * my && u < 16 * mx && v < 16 * my
    requires IsFrame(s, mx, my) && IsFrame(t, mx, my) && Raised(s, t, FrameSize(mx, my), LumaByte(x, y, mx))
    ensures var c, d := Rgb(SampleAt(s, mx, my, u, v)), Rgb(SampleAt(t, mx, my, u, v));
      if u == x && v == y then c.red <= d.red && c.green <= d.green && c.blue <= d.blue else c == d
  {
    hide Rgb, SampleAt, LumaByte, CbByte, FrameSize, Raised;
    var p, q := SampleAt(s, mx, my, u, v), SampleAt(t, mx, my, u, v);
    ThreeBytes(x, y, u, v, mx, my);
    SampleRaised(s, t, mx, my, LumaByte(x, y, mx), u, v);
    if u == x && v == y {
      MoreLuma(p, q);
    }
  }

  /** One Cb byte is one square of pixels: more of it makes them no less blue and no more
      green. */
  lemma CbIsOneSquare(s: seq<Word>, t: seq<Word>, mx: nat, my: nat, x: nat, y: nat, u: nat, v: nat)
    requires x < 16 * mx && y < 16 * my && u < 16 * mx && v < 16 * my
    requires IsFrame(s, mx, my) && IsFrame(t, mx, my) && Raised(s, t, FrameSize(mx, my), CbByte(x, y, mx, my))
    ensures var c, d := Rgb(SampleAt(s, mx, my, u, v)), Rgb(SampleAt(t, mx, my, u, v));
      if u / 2 == x / 2 && v / 2 == y / 2 then c.red == d.red && c.green >= d.green && c.blue <= d.blue else c == d
  {
    hide Rgb, SampleAt, LumaByte, CbByte, FrameSize, Raised;
    var p, q := SampleAt(s, mx, my, u, v), SampleAt(t, mx, my, u, v);
    ThreeBytes(x, y, u, v, mx, my);
    SampleRaised(s, t, mx, my, CbByte(x, y, mx, my), u, v);
    if u / 2 == x / 2 && v / 2 == y / 2 {
      MoreCb(p, q);
    }
  }

  /** The byte behind it is Cr: more of it makes them no less red and no more green. */
  lemma CrIsOneSquare(s: seq<Word>, t: seq<Word>, mx: nat, my: nat, x: nat, y: nat, u: nat, v: nat)
    requires x < 16 * mx && y < 16 * my && u < 16 * mx && v < 16 * my
    requires IsFrame(s, mx, my) && IsFrame(t, mx, my) && Raised(s, t, FrameSize(mx, my), CbByte(x, y, mx, my) + 1)
    ensures var c, d := Rgb(SampleAt(s, mx, my, u, v)), Rgb(SampleAt(t, mx, my, u, v));
      if u / 2 == x / 2 && v / 2 == y / 2 then c.red <= d.red && c.green >= d.green && c.blue == d.blue else c == d
  {
    hide Rgb, SampleAt, LumaByte, CbByte, FrameSize, Raised;
    var p, q := SampleAt(s, mx, my, u, v), SampleAt(t, mx, my, u, v);
    ThreeBytes(x, y, u, v, mx, my);
    SampleRaised(s, t, mx, my, CbByte(x, y, mx, my) + 1, u, v);
    if u / 2 == x / 2 && v / 2 == y / 2 {
      MoreCr(p, q);
    }
  }

  /** Which of the three bytes of pixel (u, v) are bytes of pixel (x, y). */
  lemma ThreeBytes(x: nat, y: nat, u: nat, v: nat, mx: nat, my: nat)
    requires x < 16 * mx && y < 16 * my && u < 16 * mx && v < 16 * my
    ensures LumaByte(x, y, mx) == LumaByte(u, v, mx) <==> u == x && v == y
    ensures LumaByte(x, y, mx) < CbByte(u, v, mx, my) && LumaByte(u, v, mx) < CbByte(x, y, mx, my)
    ensures CbByte(x, y, mx, my) == CbByte(u, v, mx, my) <==> u / 2 == x / 2 && v / 2 == y / 2
    ensures CbByte(x, y, mx, my) != CbByte(u, v, mx, my) + 1 && CbByte(x, y, mx, my) + 1 != CbByte(u, v, mx, my)
  {
    hide LumaByte, ChromaByte, LumaX, LumaY;
    InsideFrame(x, y, mx, my);
    InsideFrame(u, v, mx, my);
    LumaInverse(x, y, mx);
    LumaInverse(u, v, mx);
    ChromaShared(x, y, u, v, mx);
    ChromaIsEven(x, y, mx);
    ChromaIsEven(u, v, mx);
    NotNext(256 * (mx * my), ChromaByte(x, y, mx), ChromaByte(u, v, mx));
  }

  lemma NotNext(start: nat, a: nat, b: nat)
    requires a % 2 == 0 && b % 2 == 0
    ensures start + a != start + b + 1 && start + a + 1 != start + b
  {
  }

  lemma ChromaIsEven(x: nat, y: nat, mx: nat)
    ensures ChromaByte(x, y, mx) % 2 == 0
  {
    hide Block, InChroma;
    InsideBlock(x, y);
    EvenSum(Block(x, y, mx), InChroma(x, y));
  }

  lemma EvenSum(block: nat, chroma: nat)
    requires chroma % 2 == 0
    ensures (block * 128 + chroma) % 2 == 0
  {
  }

  lemma SampleRaised(s: seq<Word>, t: seq<Word>, mx: nat, my: nat, offset: nat, u: nat, v: nat)
    requires IsFrame(s, mx, my) && IsFrame(t, mx, my) && Raised(s, t, FrameSize(mx, my), offset)
    requires u < 16 * mx && v < 16 * my
    ensures var p, q := SampleAt(s, mx, my, u, v), SampleAt(t, mx, my, u, v);
      && (if offset == LumaByte(u, v, mx) then p.y <= q.y else p.y == q.y)
      && (if offset == CbByte(u, v, mx, my) then p.cb <= q.cb else p.cb == q.cb)
      && (if offset == CbByte(u, v, mx, my) + 1 then p.cr <= q.cr else p.cr == q.cr)
  {
    hide LumaByte, ChromaByte, ByteAt, Raised;
    InsideFrame(u, v, mx, my);
    ByteRaised(s, t, FrameSize(mx, my), offset, LumaByte(u, v, mx));
    ByteRaised(s, t, FrameSize(mx, my), offset, CbByte(u, v, mx, my));
    ByteRaised(s, t, FrameSize(mx, my), offset, CbByte(u, v, mx, my) + 1);
  }

  lemma ByteRaised(s: seq<Word>, t: seq<Word>, n: nat, offset: nat, k: nat)
    requires Raised(s, t, n, offset) && k < n
    ensures k / 4 < |s| && k / 4 < |t|
    ensures if k == offset then ByteAt(s, k) <= ByteAt(t, k) else ByteAt(s, k) == ByteAt(t, k)
  {
  }
}
