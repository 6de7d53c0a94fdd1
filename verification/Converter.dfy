/**
 ColorConverter::convertSTEYUV420PackedSemiPlanarMB: six nested loops of moving
 pointers that turn a frame of macroblocks into rows of RGB565 pixels.
 */
module Converter {
  import opened Machine
  import opened MbLayout

  /** Sizes and inclusive crop rectangle of a bitmap. */
  datatype BitmapParams = BitmapParams(width: nat, height: nat,
                                       cropLeft: nat, cropTop: nat, cropRight: nat, cropBottom: nat) {
    function CropWidth(): int {
      cropRight - cropLeft + 1
    }

    function CropHeight(): int {
      cropBottom - cropTop + 1
    }
  }

  datatype Status = OK | ERROR_UNSUPPORTED

  predicate Supported(src: BitmapParams, dst: BitmapParams) {
    && dst.width % 2 == 0
    && src.cropLeft == 0 && src.cropTop == 0
    && src.CropWidth() == dst.CropWidth()
    && src.CropHeight() == dst.CropHeight()
  }

  /** mx by my macroblocks go into rows of `half` words (two pixels each). */
  datatype Frame = Frame(mx: nat, my: nat, half: nat, height: nat)

  /** The loop variables when a word is written. */
  datatype Pos = Pos(ly: nat, lx: nat, col: nat, nb: nat, row: nat, i: nat)

  /** a comes before b in the order of the loops. */
  predicate Before(a: Pos, b: Pos) {
    || a.ly < b.ly
    || (a.ly == b.ly &&
        (|| a.lx < b.lx
         || (a.lx == b.lx &&
             (|| a.col < b.col
              || (a.col == b.col &&
                  (|| a.nb < b.nb
                   || (a.nb == b.nb && (a.row < b.row || (a.row == b.row && a.i < b.i)))))))))
  }

  /** When word xw of row y is written. */
  function PosOf(xw: nat, y: nat): Pos {
    Pos(y / 16, xw / 8, xw % 8 / 4, xw % 4 / 2, y % 16, xw % 2 * 2)
  }

  /** Word k of the destination shows part of the frame. */
  predicate Covered(f: Frame, k: nat) {
    0 < f.half && k < f.half * f.height && k % f.half < 8 * f.mx && k / f.half < 16 * f.my
  }

  function PosAt(f: Frame, k: nat): Pos
    requires 0 < f.half
  {
    PosOf(k % f.half, k / f.half)
  }

  predicate Written(f: Frame, p: Pos, k: nat) {
    Covered(f, k) && Before(PosAt(f, k), p)
  }

  /** What word k holds when the loops have come to p. */
  function Target(s: seq<Word>, was: seq<Word>, f: Frame, p: Pos, k: nat): Word
    requires IsFrame(s, f.mx, f.my) && k < |was|
  {
    if Written(f, p, k) then WordOf(s, f.mx, f.my, k % f.half, k / f.half) else was[k]
  }

  ghost predicate Progress(s: seq<Word>, was: seq<Word>, now: seq<Word>, log: seq<nat>, f: Frame, p: Pos) {
    && IsFrame(s, f.mx, f.my) && |now| == |was| && f.half * f.height <= |was|
    && (forall k :: 0 <= k < |was| ==> now[k] == Target(s, was, f, p, k))
    // the words written so far, each once
    && (forall k :: k in log <==> 0 <= k && Written(f, p, k))
    && (forall a, b :: 0 <= a < b < |log| ==> log[a] != log[b])
  }

  // ----- steps of the loops

  /** A position the loops can be at. */
  predicate InLoops(f: Frame, p: Pos) {
    p.ly < f.my && p.lx < f.mx && p.col < 2 && p.nb < 2 && p.row < 16 && (p.i == 0 || p.i == 2)
  }

  function ColumnOf(p: Pos): nat {
    p.lx * 8 + p.col * 4 + p.nb * 2 + p.i / 2
  }

  function RowOf(p: Pos): nat {
    p.ly * 16 + p.row
  }

  /** Only one word is written at each position, and each at its own. */
  lemma PosIsWord(f: Frame, p: Pos, xw: nat, y: nat)
    requires InLoops(f, p)
    ensures PosOf(xw, y) == p <==> xw == ColumnOf(p) && y == RowOf(p)
  {
    XOfPos(xw);
    XOfPos(ColumnOf(p));
    assert ColumnOf(p) == p.lx * 8 + (p.col * 4 + p.nb * 2 + p.i / 2);
    DigitsX(p.lx, p.col, p.nb, p.i / 2);
    DivMod(p.ly, 16, p.row);
    assert y == y / 16 * 16 + y % 16;
  }

  lemma XOfPos(xw: nat)
    ensures xw == xw / 8 * 8 + xw % 8 / 4 * 4 + xw % 4 / 2 * 2 + xw % 2
  {
    Eighth(xw);
    Quarter(xw);
  }

  lemma Quarter(x: nat)
    ensures x % 4 == x % 4 / 2 * 2 + x % 2
  {
    var r := x % 4;
    assert x == (x / 4 * 2 + r / 2) * 2 + r % 2;
    DivMod(x / 4 * 2 + r / 2, 2, r % 2);
  }

  /** Between p and the next position only the word at p is written. */
  lemma WrittenNext(f: Frame, p: Pos, k: nat)
    requires p.i == 0 || p.i == 2
    ensures Written(f, p.(i := p.i + 2), k) <==> Written(f, p, k) || (Covered(f, k) && PosAt(f, k) == p)
  {
    if Covered(f, k) {
      DigitBounds(k % f.half, k / f.half);
    }
  }

  lemma DigitsX(lx: nat, col: nat, nb: nat, i: nat)
    requires col < 2 && nb < 2 && i < 2
    ensures var xw := lx * 8 + col * 4 + nb * 2 + i;
      xw / 8 == lx && xw % 8 / 4 == col && xw % 4 / 2 == nb && xw % 2 == i
  {
    DivMod(lx, 8, col * 4 + nb * 2 + i);
    DivMod(col, 4, nb * 2 + i);
    DivMod(lx * 2 + col, 4, nb * 2 + i);
    DivMod(nb, 2, i);
    DivMod(lx * 4 + col * 2 + nb, 2, i);
  }

  /** Going on to q changes nothing if q is reached before any further word. */
  lemma Carry(s: seq<Word>, was: seq<Word>, now: seq<Word>, log: seq<nat>, f: Frame, p: Pos, q: Pos)
    requires Progress(s, was, now, log, f, p)
    requires forall k :: 0 <= k ==> Written(f, p, k) == Written(f, q, k)
    ensures Progress(s, was, now, log, f, q)
  {
    forall k | 0 <= k < |was|
      ensures now[k] == Target(s, was, f, q, k)
    {
      assert Written(f, p, k) == Written(f, q, k);
    }
  }

  /** The end of an inner loop is the start of the next turn of the outer one. */
  predicate SamePlace(f: Frame, p: Pos, q: Pos) {
    || (p.i == 4 && q == p.(row := p.row + 1, i := 0))
    || (p.row == 16 && p.i == 0 && q == p.(nb := p.nb + 1, row := 0))
    || (p.nb == 2 && p.row == 0 && p.i == 0 && q == p.(col := p.col + 1, nb := 0))
    || (p.col == 2 && p.nb == 0 && p.row == 0 && p.i == 0 && q == p.(lx := p.lx + 1, col := 0))
    || (p.lx == f.mx && p.col == 0 && p.nb == 0 && p.row == 0 && p.i == 0 && q == p.(ly := p.ly + 1, lx := 0))
  }

  lemma Turn(s: seq<Word>, was: seq<Word>, now: seq<Word>, log: seq<nat>, f: Frame, p: Pos, q: Pos)
    requires Progress(s, was, now, log, f, p) && SamePlace(f, p, q)
    ensures Progress(s, was, now, log, f, q)
  {
    hide Progress, Written, SamePlace;
    forall k: nat
      ensures Written(f, p, k) == Written(f, q, k)
    {
      TurnWord(f, p, q, k);
    }
    Carry(s, was, now, log, f, p, q);
  }

  lemma TurnWord(f: Frame, p: Pos, q: Pos, k: nat)
    requires SamePlace(f, p, q)
    ensures Written(f, p, k) == Written(f, q, k)
  {
    if Covered(f, k) {
      DigitBounds(k % f.half, k / f.half);
      assert k % f.half / 8 < f.mx;
    }
  }

  lemma DigitBounds(xw: nat, y: nat)
    ensures var p := PosOf(xw, y);
      p.col < 2 && p.nb < 2 && p.row < 16 && (p.i == 0 || p.i == 2)
  {
  }

  /** Nothing is written to the right of the destination... */
  lemma SkipColumn(s: seq<Word>, was: seq<Word>, now: seq<Word>, log: seq<nat>, f: Frame, p: Pos)
    requires Progress(s, was, now, log, f, p) && InLoops(f, p) && f.half <= ColumnOf(p)
    ensures Progress(s, was, now, log, f, p.(i := p.i + 2))
  {
    var q := p.(i := p.i + 2);
    forall k | 0 <= k
      ensures Written(f, p, k) == Written(f, q, k)
    {
      WrittenNext(f, p, k);
      if Covered(f, k) {
        PosIsWord(f, p, k % f.half, k / f.half);
      }
    }
    Carry(s, was, now, log, f, p, q);
  }

  /** ...nor below it. */
  lemma SkipRows(s: seq<Word>, was: seq<Word>, now: seq<Word>, log: seq<nat>, f: Frame, p: Pos)
    requires Progress(s, was, now, log, f, p) && InLoops(f, p) && p.i == 0 && f.height <= RowOf(p)
    ensures Progress(s, was, now, log, f, p.(row := 16))
  {
    forall k: nat
      ensures Written(f, p, k) == Written(f, p.(row := 16), k)
    {
      NoRowBelow(f, p, k);
    }
    Carry(s, was, now, log, f, p, p.(row := 16));
  }

  lemma NoRowBelow(f: Frame, p: Pos, k: nat)
    requires InLoops(f, p) && p.i == 0 && f.height <= RowOf(p)
    ensures Written(f, p, k) == Written(f, p.(row := 16), k)
  {
    if Covered(f, k) {
      DigitBounds(k % f.half, k / f.half);
      RowInside(k, f.half, f.height);
      RowSplit(k / f.half);
    }
  }

  lemma RowSplit(y: nat)
    ensures y == y / 16 * 16 + y % 16
  {
  }

  lemma RowInside(k: nat, half: nat, height: nat)
    requires 0 < half && k < half * height
    ensures k / half < height
  {
    assert k == k / half * half + k % half;
    if height <= k / half {
      MulMonotone(height, k / half, half);
    }
  }

  /** Rows of `half` words, one after the other. */
  lemma WordIndex(half: nat, height: nat, xw: nat, y: nat, j: nat)
    requires xw < half && y < height
    ensures y * half + xw < half * height
    ensures 0 <= j / half && (j == y * half + xw <==> j / half == y && j % half == xw)
  {
    DivMod(y, half, xw);
    MulMonotone(y + 1, height, half);
    assert j == j / half * half + j % half;
  }

  /** The index of the first word of row y. */
  function RowStart(half: nat, y: nat): nat {
    if y == 0 then 0 else RowStart(half, y - 1) + half
  }

  lemma {:induction false} RowStartIsProduct(half: nat, y: nat)
    ensures RowStart(half, y) == y * half
  {
    if y != 0 {
      RowStartIsProduct(half, y - 1);
    }
  }

  /** The word at p is the one at index k. */
  lemma WordAtPos(f: Frame, p: Pos, xw: nat, y: nat, k: nat, j: nat)
    requires InLoops(f, p) && xw == ColumnOf(p) && y == RowOf(p)
    requires xw < f.half && y < f.height && k == RowStart(f.half, y) + xw
    ensures k < f.half * f.height && k / f.half == y && k % f.half == xw
    ensures Covered(f, j) && PosAt(f, j) == p <==> j == k
  {
    RowStartIsProduct(f.half, y);
    WordIndex(f.half, f.height, xw, y, j);
    WordIndex(f.half, f.height, xw, y, k);
    PosIsWord(f, p, j % f.half, j / f.half);
  }

  /** Writing the word that belongs to p. */
  lemma Write(s: seq<Word>, was: seq<Word>, now: seq<Word>, log: seq<nat>, f: Frame, p: Pos, k: nat)
    requires Progress(s, was, now, log, f, p) && InLoops(f, p)
    requires ColumnOf(p) < f.half && RowOf(p) < f.height && k == RowStart(f.half, RowOf(p)) + ColumnOf(p)
    ensures IsFrame(s, f.mx, f.my)
    ensures k < |now| && ColumnOf(p) < 8 * f.mx && RowOf(p) < 16 * f.my
    ensures Progress(s, was, now[k := WordOf(s, f.mx, f.my, ColumnOf(p), RowOf(p))], log + [k], f, p.(i := p.i + 2))
  {
    var q := p.(i := p.i + 2);
    forall j | 0 <= j
      ensures Written(f, q, j) <==> Written(f, p, j) || j == k
    {
      WrittenNext(f, p, j);
      WordAtPos(f, p, ColumnOf(p), RowOf(p), k, j);
    }
    WordAtPos(f, p, ColumnOf(p), RowOf(p), k, k);
    assert !Written(f, p, k);
    assert forall j :: j in log + [k] <==> j in log || j == k;
  }

  // ----- the words of the source

  /** Four pixels of a row share one word of luma, at this index... */
  function LumaWord(f: Frame, p: Pos): nat {
    (p.ly * f.mx + p.lx) * 64 + p.col * 32 + p.row * 2 + p.nb
  }

  /** ...and, with the row above or below, one word of chroma. */
  function ChromaWord(f: Frame, p: Pos): nat {
    f.mx * f.my * 64 + (p.ly * f.mx + p.lx) * 32 + p.col * 16 + p.row / 2 * 2 + p.nb
  }

  lemma WordsInside(f: Frame, p: Pos)
    requires InLoops(f, p)
    ensures LumaWord(f, p) < 64 * (f.mx * f.my)
    ensures ChromaWord(f, p) < 96 * (f.mx * f.my)
  {
    BlockNumber(p.lx, p.ly, f.mx, f.my);
    BelowWords(p.ly * f.mx + p.lx, f.mx * f.my, p.col * 32 + p.row * 2 + p.nb, p.col * 16 + p.row / 2 * 2 + p.nb);
  }

  lemma BelowWords(block: nat, total: nat, luma: nat, chroma: nat)
    requires block < total && luma < 64 && chroma < 32
    ensures block * 64 + luma < 64 * total
    ensures total * 64 + block * 32 + chroma < 96 * total
  {
  }

  /** The four pixels of a row whose words are at p are those of these two words. */
  lemma PixelBytes(f: Frame, p: Pos, x: nat, y: nat, n: nat)
    requires InLoops(f, p) && n < 4
    requires x == p.lx * 16 + p.col * 8 + p.nb * 4 + n && y == RowOf(p)
    ensures x < 16 * f.mx && y < 16 * f.my
    ensures LumaByte(x, y, f.mx) / 4 == LumaWord(f, p) && LumaByte(x, y, f.mx) % 4 == n
    ensures var c := 256 * (f.mx * f.my) + ChromaByte(x, y, f.mx);
      c / 4 == ChromaWord(f, p) && c % 4 == n / 2 * 2 && (c + 1) / 4 == ChromaWord(f, p) && (c + 1) % 4 == n / 2 * 2 + 1
  {
    PixelDigits(p.lx, p.ly, p.col, p.row, p.nb * 4 + n);
    assert Block(x, y, f.mx) == p.ly * f.mx + p.lx;
    assert InLuma(x, y) == p.col * 128 + p.row * 8 + (p.nb * 4 + n);
    NibbleHalf(p.nb, n);
    assert InChroma(x, y) == p.col * 64 + p.row / 2 * 8 + (p.nb * 2 + n / 2) * 2;
    WordDigits(p.ly * f.mx + p.lx, f.mx * f.my, p.col, p.row, p.nb, n);
  }

  lemma NibbleHalf(nb: nat, n: nat)
    ensures (nb * 4 + n) / 2 == nb * 2 + n / 2
  {
    DivMod(nb * 2 + n / 2, 2, n % 2);
  }

  lemma WordDigits(block: nat, total: nat, col: nat, row: nat, nb: nat, n: nat)
    requires n < 4
    ensures var b := block * 256 + (col * 128 + row * 8 + (nb * 4 + n));
      b / 4 == block * 64 + col * 32 + row * 2 + nb && b % 4 == n
    ensures var c := 256 * total + (block * 128 + (col * 64 + row / 2 * 8 + (nb * 2 + n / 2) * 2));
      && c / 4 == total * 64 + block * 32 + col * 16 + row / 2 * 2 + nb && c % 4 == n / 2 * 2
      && (c + 1) / 4 == c / 4 && (c + 1) % 4 == n / 2 * 2 + 1
  {
    DivMod(block * 64 + col * 32 + row * 2 + nb, 4, n);
    DivMod(total * 64 + block * 32 + col * 16 + row / 2 * 2 + nb, 4, n / 2 * 2);
    DivMod(total * 64 + block * 32 + col * 16 + row / 2 * 2 + nb, 4, n / 2 * 2 + 1);
  }

  /** Pixel n of four, from the two words of its row. */
  function SampleFrom(luma: Word, chroma: Word, n: nat): Sample {
    Sample(ByteOf(luma, n), ByteOf(chroma, n / 2 * 2), ByteOf(chroma, n / 2 * 2 + 1))
  }

  lemma SampleOfWords(s: seq<Word>, b: nat, c: nat, luma: nat, chroma: nat, n: nat)
    requires luma < |s| && chroma < |s|
    requires b / 4 == luma && b % 4 == n
    requires c / 4 == (c + 1) / 4 == chroma && c % 4 == n / 2 * 2 && (c + 1) % 4 == n / 2 * 2 + 1
    ensures Sample(ByteAt(s, b), ByteAt(s, c), ByteAt(s, c + 1)) == SampleFrom(s[luma], s[chroma], n)
  {
  }

  lemma SampleInWords(s: seq<Word>, mx: nat, my: nat, x: nat, y: nat, luma: nat, chroma: nat, n: nat)
    requires IsFrame(s, mx, my) && x < 16 * mx && y < 16 * my && luma < |s| && chroma < |s|
    requires LumaByte(x, y, mx) / 4 == luma && LumaByte(x, y, mx) % 4 == n
    requires var c := 256 * (mx * my) + ChromaByte(x, y, mx);
      c / 4 == (c + 1) / 4 == chroma && c % 4 == n / 2 * 2 && (c + 1) % 4 == n / 2 * 2 + 1
    ensures SampleAt(s, mx, my, x, y) == SampleFrom(s[luma], s[chroma], n)
  {
    SampleOfWords(s, LumaByte(x, y, mx), 256 * (mx * my) + ChromaByte(x, y, mx), luma, chroma, n);
  }

  lemma PixelWords(s: seq<Word>, f: Frame, p: Pos, x: nat, y: nat, n: nat)
    requires IsFrame(s, f.mx, f.my) && InLoops(f, p) && n < 4
    requires x == p.lx * 16 + p.col * 8 + p.nb * 4 + n && y == RowOf(p)
    requires LumaWord(f, p) < |s| && ChromaWord(f, p) < |s| && x < 16 * f.mx && y < 16 * f.my
    ensures SampleAt(s, f.mx, f.my, x, y) == SampleFrom(s[LumaWord(f, p)], s[ChromaWord(f, p)], n)
  {
    hide *;
    PixelBytes(f, p, x, y, n);
    SampleInWords(s, f.mx, f.my, x, y, LumaWord(f, p), ChromaWord(f, p), n);
  }

  lemma ColumnFrom(f: Frame, p: Pos, i: nat)
    requires InLoops(f, p) && p.i == 0 && (i == 0 || i == 2)
    ensures var q := p.(i := i);
      && InLoops(f, q) && ColumnOf(q) == ColumnOf(p) + i / 2 && RowOf(q) == RowOf(p)
      && 2 * ColumnOf(q) == p.lx * 16 + p.col * 8 + p.nb * 4 + i
      && ColumnOf(q) < 8 * f.mx && RowOf(q) < 16 * f.my
  {
  }

  /** The two words written in the row at p, from the words read for it. */
  lemma WordFrom(s: seq<Word>, f: Frame, p: Pos, xw: nat, y: nat, i: nat)
    requires IsFrame(s, f.mx, f.my) && InLoops(f, p) && (i == 0 || i == 2)
    requires 2 * xw == p.lx * 16 + p.col * 8 + p.nb * 4 + i && y == RowOf(p)
    ensures LumaWord(f, p) < |s| && ChromaWord(f, p) < |s| && xw < 8 * f.mx && y < 16 * f.my
    ensures var luma, chroma := s[LumaWord(f, p)], s[ChromaWord(f, p)];
      WordOf(s, f.mx, f.my, xw, y) == Joined(Rgb(SampleFrom(luma, chroma, i)), Rgb(SampleFrom(luma, chroma, i + 1)))
  {
    hide Rgb, Joined, LumaWord, ChromaWord, SampleFrom, SampleAt;
    WordsInside(f, p);
    PixelWords(s, f, p, 2 * xw, y, i);
    PixelWords(s, f, p, 2 * xw + 1, y, i + 1);
  }

  // ----- the loops

  /** The bytes of the four pixels of a row. */
  method Unpack(lumaWord: Word, chromaWord: Word) returns (y: seq<Byte>, cb: seq<Byte>, cr: seq<Byte>)
    ensures |y| == |cb| == |cr| == 4
    ensures forall n :: 0 <= n < 4 ==> Sample(y[n], cb[n], cr[n]) == SampleFrom(lumaWord, chromaWord, n)
  {
    y := [ByteOf(lumaWord, 0), ByteOf(lumaWord, 1), ByteOf(lumaWord, 2), ByteOf(lumaWord, 3)];
    cb := [ByteOf(chromaWord, 0), ByteOf(chromaWord, 0), ByteOf(chromaWord, 2), ByteOf(chromaWord, 2)];
    cr := [ByteOf(chromaWord, 1), ByteOf(chromaWord, 1), ByteOf(chromaWord, 3), ByteOf(chromaWord, 3)];
  }

  /** A component is cut to a byte before its low bits are dropped. */
  method Cut(v: int) returns (b: Byte)
    ensures b == Clamp(v)
  {
    if v < 0 {
      return 0;
    } else if v >= 65536 {
      return 255;
    }
    return v / 256;
  }

  /** One turn of the first inner loop of a row. */
  method DecodePixel(y: Byte, cb: Byte, cr: Byte) returns (r: nat, g: nat, b: nat)
    ensures Colour(r, g, b) == Rgb(Sample(y, cb, cr))
  {
    var rW := 298 * y + 408 * cr - 57059;
    var gW := 298 * y - 100 * cb - 208 * cr + 34713;
    var bW := 298 * y + 516 * cb - 70887;
    r := Cut(rW);
    g := Cut(gW);
    b := Cut(bW);
    r, g, b := r / 8, g / 4, b / 8;
  }

  /** The first inner loop of a row: four colours, each cut to its width. */
  method DecodeRow(lumaWord: Word, chromaWord: Word) returns (r: array<nat>, g: array<nat>, b: array<nat>)
    ensures fresh(r) && fresh(g) && fresh(b) && r.Length == g.Length == b.Length == 4
    ensures forall n :: 0 <= n < 4 ==> Colour(r[n], g[n], b[n]) == Rgb(SampleFrom(lumaWord, chromaWord, n))
  {
    hide Rgb;
    r, g, b := new nat[4], new nat[4], new nat[4];
    var y, cb, cr := Unpack(lumaWord, chromaWord);
    var i := 0;
    while i < 4
      invariant 0 <= i <= 4
      invariant forall n :: 0 <= n < i ==> Colour(r[n], g[n], b[n]) == Rgb(Sample(y[n], cb[n], cr[n]))
    {
      var red, green, blue := DecodePixel(y[i], cb[i], cr[i]);
      r[i], g[i], b[i] := red, green, blue;
      i := i + 1;
    }
  }

  /** The one place where the destination is written; the log says where. */
  method Store(dstBits: array<Word>, k: nat, word: Word, ghost log: seq<nat>) returns (ghost longer: seq<nat>)
    requires k < dstBits.Length
    modifies dstBits
    ensures dstBits[..] == old(dstBits[..])[k := word] && longer == log + [k]
  {
    dstBits[k] := word;
    longer := log + [k];
  }

  /** One turn of the second inner loop: two pixels, unless they lie to the right of
      the destination. */
  method WriteWord(dstBits: array<Word>, width: nat, left: Colour, right: Colour, locBuf: nat, dstRowOrigo: nat,
                   ghost luma: Word, ghost chroma: Word, ghost i: nat,
                   ghost s: seq<Word>, ghost was: seq<Word>, ghost log: seq<nat>, ghost f: Frame, ghost p: Pos)
      returns (ghost longer: seq<nat>)
    requires width == 2 * f.half && InLoops(f, p) && p.i == 0 && RowOf(p) < f.height && (i == 0 || i == 2)
    requires left == Rgb(SampleFrom(luma, chroma, i)) && right == Rgb(SampleFrom(luma, chroma, i + 1))
    requires LumaWord(f, p) < |s| && ChromaWord(f, p) < |s|
    requires luma == s[LumaWord(f, p)] && chroma == s[ChromaWord(f, p)]
    requires dstRowOrigo == 2 * RowStart(f.half, RowOf(p)) && locBuf == RowStart(f.half, RowOf(p)) + ColumnOf(p) + i / 2
    requires Progress(s, was, dstBits[..], log, f, p.(i := i))
    modifies dstBits
    ensures Progress(s, was, dstBits[..], longer, f, p.(i := i + 2))
  {
    hide Progress, LumaWord, ChromaWord, WordOf, Rgb, SampleFrom, RowStart;
    ghost var q := p.(i := i);
    ColumnFrom(f, p, i);
    var rowPos := locBuf * 2 - dstRowOrigo;
    if rowPos >= width {
      SkipColumn(s, was, dstBits[..], log, f, q);
      return log;
    }
    Write(s, was, dstBits[..], log, f, q, locBuf);
    WordFrom(s, f, p, ColumnOf(q), RowOf(q), i);
    var rgbWord: Word := right.red * 0x800_0000 + right.green * 0x20_0000 + right.blue * 0x1_0000
                       + left.red * 0x800 + left.green * 0x20 + left.blue;
    assert rgbWord == Joined(left, right);
    longer := Store(dstBits, locBuf, rgbWord, log);
  }

  /** The second inner loop of a row. */
  method WriteRow(dstBits: array<Word>, width: nat, lumaWord: Word, chromaWord: Word, locBuf: nat, dstRowOrigo: nat,
                  ghost s: seq<Word>, ghost was: seq<Word>, ghost log: seq<nat>, ghost f: Frame, ghost p: Pos)
      returns (next: nat, ghost longer: seq<nat>)
    requires width == 2 * f.half && RowOf(p) < f.height && p.i == 0 && InLoops(f, p)
    requires AtRow(f, p, locBuf, dstRowOrigo) && Progress(s, was, dstBits[..], log, f, p)
    requires LumaWord(f, p) < |s| && ChromaWord(f, p) < |s|
    requires lumaWord == s[LumaWord(f, p)] && chromaWord == s[ChromaWord(f, p)]
    modifies dstBits
    ensures next == locBuf + 2 && Progress(s, was, dstBits[..], longer, f, p.(i := 4))
  {
    var r, g, b := DecodeRow(lumaWord, chromaWord);
    next, longer := locBuf, log;
    var i := 0;
    while i < 4
      invariant i == 0 || i == 2 || i == 4
      invariant next == locBuf + i / 2
      invariant Progress(s, was, dstBits[..], longer, f, p.(i := i))
      invariant forall n :: 0 <= n < 4 ==> Colour(r[n], g[n], b[n]) == Rgb(SampleFrom(lumaWord, chromaWord, n))
    {
      longer := WriteWord(dstBits, width, Colour(r[i], g[i], b[i]), Colour(r[i + 1], g[i + 1], b[i + 1]), next,
                          dstRowOrigo, lumaWord, chromaWord, i, s, was, longer, f, p);
      next := next + 1;
      i := i + 2;
    }
  }

  /** Where the pointers into the destination are when the row at p begins. */
  predicate AtRow(f: Frame, p: Pos, locBuf: int, dstRowOrigo: int) {
    dstRowOrigo == 2 * RowStart(f.half, RowOf(p)) && locBuf == RowStart(f.half, RowOf(p)) + ColumnOf(p)
  }

  lemma NextRow(f: Frame, p: Pos, locBuf: int, dstRowOrigo: int, width: nat)
    requires AtRow(f, p, locBuf, dstRowOrigo) && width == 2 * f.half && p.i == 0
    ensures 0 <= locBuf + 2 + (width / 2 - 2) && 0 <= dstRowOrigo + width
    ensures AtRow(f, p.(row := p.row + 1), locBuf + 2 + (width / 2 - 2), dstRowOrigo + width)
  {
  }

  /** Where the pointers into the source are when the row at p begins: the chroma word
      was read, and stepped over, in the even row. */
  predicate AtWords(s: seq<Word>, f: Frame, p: Pos, pWordLuma: nat, pWordChroma: nat, chromaWord: Word) {
    && pWordLuma == LumaWord(f, p)
    && pWordChroma == ChromaWord(f, p) + p.row % 2 * 2
    && (p.row % 2 == 1 ==> ChromaWord(f, p) < |s| && chromaWord == s[ChromaWord(f, p)])
  }

  lemma WordsOfNextRow(f: Frame, p: Pos)
    ensures LumaWord(f, p.(row := p.row + 1)) == LumaWord(f, p) + 2
    ensures ChromaWord(f, p.(row := p.row + 1)) == ChromaWord(f, p) + p.row % 2 * 2
  {
  }

  /** The source words of a row. */
  method ReadRow(srcBits: array<Word>, row: nat, pWordLuma: nat, pWordChroma: nat, chromaWord: Word,
                 ghost s: seq<Word>, ghost f: Frame, ghost p: Pos)
      returns (lumaWord: Word, nextLuma: nat, nextChroma: nat, chroma: Word)
    requires srcBits[..] == s && IsFrame(s, f.mx, f.my) && InLoops(f, p) && row == p.row
    requires AtWords(s, f, p, pWordLuma, pWordChroma, chromaWord)
    ensures LumaWord(f, p) < 64 * (f.mx * f.my) && ChromaWord(f, p) < 96 * (f.mx * f.my)
    ensures LumaWord(f, p) < |s| && ChromaWord(f, p) < |s|
    ensures lumaWord == s[LumaWord(f, p)] && chroma == s[ChromaWord(f, p)]
    ensures AtWords(s, f, p.(row := row + 1), nextLuma, nextChroma, chroma)
  {
    hide InLoops, LumaWord, ChromaWord;
    WordsInside(f, p);
    WordsOfNextRow(f, p);
    lumaWord, nextLuma := srcBits[pWordLuma], pWordLuma + 2;
    chroma, nextChroma := chromaWord, pWordChroma;
    if row % 2 == 0 {
      chroma, nextChroma := srcBits[pWordChroma], pWordChroma + 2;
    }
  }

  lemma StripBegins(s: seq<Word>, was: seq<Word>, now: seq<Word>, log: seq<nat>, f: Frame, p: Pos,
                    luma: nat, chroma: nat)
    requires Progress(s, was, now, log, f, p) && p.row == 0
    requires luma == LumaWord(f, p) && chroma == ChromaWord(f, p)
    ensures IsFrame(s, f.mx, f.my) && p.(row := 0) == p && AtWords(s, f, p, luma, chroma, 0)
  {
  }

  /** The loop over the 16 rows of a strip that is four pixels wide. */
  method WriteStrip(srcBits: array<Word>, dstBits: array<Word>, width: nat, height: nat,
                    luma: nat, chroma: nat, buf: nat, origo: nat, ly: nat,
                    ghost s: seq<Word>, ghost was: seq<Word>, ghost log: seq<nat>, ghost f: Frame, ghost p: Pos)
      returns (ghost longer: seq<nat>)
    requires srcBits != dstBits && srcBits[..] == s
    requires width == 2 * f.half && height == f.height && ly == p.ly
    requires InLoops(f, p) && p.row == 0 && p.i == 0 && AtRow(f, p, buf, origo)
    requires luma == LumaWord(f, p) && chroma == ChromaWord(f, p)
    requires Progress(s, was, dstBits[..], log, f, p)
    modifies dstBits
    ensures Progress(s, was, dstBits[..], longer, f, p.(row := 16))
  {
    hide Progress, AtWords, AtRow, LumaWord, ChromaWord, IsFrame, RowStart, ColumnOf;
    StripBegins(s, was, dstBits[..], log, f, p, luma, chroma);
    longer := log;
    var pWordLuma, pWordChroma, chromaWord: Word := luma, chroma, 0;
    var locBuf: nat, dstRowOrigo: nat := buf, origo;
    var row := 0;
    while row < 16
      invariant 0 <= row <= 16
      invariant AtWords(s, f, p.(row := row), pWordLuma, pWordChroma, chromaWord)
      invariant AtRow(f, p.(row := row), locBuf, dstRowOrigo)
      invariant Progress(s, was, dstBits[..], longer, f, p.(row := row))
    {
      ghost var q := p.(row := row);
      if ly * 16 + row >= height {
        SkipRows(s, was, dstBits[..], longer, f, q);
        break;
      }
      var lumaWord;
      lumaWord, pWordLuma, pWordChroma, chromaWord :=
        ReadRow(srcBits, row, pWordLuma, pWordChroma, chromaWord, s, f, q);
      locBuf, longer := WriteRow(dstBits, width, lumaWord, chromaWord, locBuf, dstRowOrigo, s, was, longer, f, q);
      Turn(s, was, dstBits[..], longer, f, q.(i := 4), q.(row := row + 1));
      NextRow(f, q, locBuf - 2, dstRowOrigo, width);
      locBuf := locBuf + (width / 2 - 2);
      dstRowOrigo := dstRowOrigo + width;
      row := row + 1;
    }
  }

  /** The loops over the two columns of a macroblock and the two halves of each. */
  method WriteBlock(srcBits: array<Word>, dstBits: array<Word>, width: nat, height: nat,
                    pLuma: nat, pChroma: nat, dstBuf: nat, ly: nat,
                    ghost s: seq<Word>, ghost was: seq<Word>, ghost log: seq<nat>, ghost f: Frame, ghost p: Pos)
      returns (ghost longer: seq<nat>)
    requires srcBits != dstBits && srcBits[..] == s
    requires width == 2 * f.half && height == f.height
    requires p == Pos(ly, p.lx, 0, 0, 0, 0) && ly < f.my && p.lx < f.mx
    requires pLuma == LumaWord(f, p) && pChroma == ChromaWord(f, p)
    requires dstBuf == RowStart(f.half, ly * 16) + p.lx * 8
    requires Progress(s, was, dstBits[..], log, f, p)
    modifies dstBits
    ensures Progress(s, was, dstBits[..], longer, f, p.(lx := p.lx + 1))
  {
    longer := log;
    RowStartIsProduct(f.half, ly * 16);
    var pBurstLuma, pBurstChroma := pLuma, pChroma;
    var col := 0;
    while col < 2
      invariant 0 <= col <= 2
      invariant pBurstLuma == pLuma + 32 * col && pBurstChroma == pChroma + 16 * col
      invariant Progress(s, was, dstBits[..], longer, f, p.(col := col))
    {
      var nbOfBlock := 0;
      while nbOfBlock < 2
        invariant 0 <= nbOfBlock <= 2
        invariant Progress(s, was, dstBits[..], longer, f, p.(col := col, nb := nbOfBlock))
      {
        ghost var q := p.(col := col, nb := nbOfBlock);
        var locBuf := dstBuf + 4 * col + 2 * nbOfBlock;
        var dstRowOrigo := ly * 16 * width;
        longer := WriteStrip(srcBits, dstBits, width, height, pBurstLuma + nbOfBlock, pBurstChroma + nbOfBlock,
                             locBuf, dstRowOrigo, ly, s, was, longer, f, q);
        Turn(s, was, dstBits[..], longer, f, q.(row := 16), q.(nb := nbOfBlock + 1));
        nbOfBlock := nbOfBlock + 1;
      }
      Turn(s, was, dstBits[..], longer, f, p.(col := col, nb := 2), p.(col := col + 1));
      pBurstLuma := pBurstLuma + 32;
      pBurstChroma := pBurstChroma + 16;
      col := col + 1;
    }
    Turn(s, was, dstBits[..], longer, f, p.(col := 2), p.(lx := p.lx + 1));
  }

  /** The loop over a row of macroblocks. */
  method WriteBlocks(srcBits: array<Word>, dstBits: array<Word>, width: nat, height: nat,
                     luma: nat, chroma: nat, mx: nat, ly: nat,
                     ghost s: seq<Word>, ghost was: seq<Word>, ghost log: seq<nat>, ghost f: Frame)
      returns (pLuma: nat, pChroma: nat, ghost longer: seq<nat>)
    requires srcBits != dstBits && srcBits[..] == s
    requires width == 2 * f.half && height == f.height && mx == f.mx && ly < f.my
    requires luma == ly * mx * 64 && chroma == mx * f.my * 64 + ly * mx * 32
    requires Progress(s, was, dstBits[..], log, f, Pos(ly, 0, 0, 0, 0, 0))
    modifies dstBits
    ensures pLuma == luma + mx * 64 && pChroma == chroma + mx * 32
    ensures Progress(s, was, dstBits[..], longer, f, Pos(ly + 1, 0, 0, 0, 0, 0))
  {
    pLuma, pChroma, longer := luma, chroma, log;
    var lx := 0;
    while lx < mx
      invariant 0 <= lx <= mx
      invariant pLuma == luma + lx * 64 && pChroma == chroma + lx * 32
      invariant Progress(s, was, dstBits[..], longer, f, Pos(ly, lx, 0, 0, 0, 0))
    {
      var dstBuf := ly * 16 * width / 2 + lx * 16 / 2;
      BufferOf(ly, width, f.half, dstBuf, lx);
      longer := WriteBlock(srcBits, dstBits, width, height, pLuma, pChroma, dstBuf, ly,
                           s, was, longer, f, Pos(ly, lx, 0, 0, 0, 0));
      pLuma := pLuma + 64;
      pChroma := pChroma + 32;
      lx := lx + 1;
    }
    Turn(s, was, dstBits[..], longer, f, Pos(ly, mx, 0, 0, 0, 0), Pos(ly + 1, 0, 0, 0, 0, 0));
  }

  lemma BufferOf(ly: nat, width: nat, half: nat, dstBuf: nat, lx: nat)
    requires width == 2 * half && dstBuf == ly * 16 * width / 2 + lx * 16 / 2
    ensures dstBuf == RowStart(half, ly * 16) + lx * 8
  {
    RowStartIsProduct(half, ly * 16);
    assert ly * 16 * width == ly * 16 * half * 2;
  }

  // ----- the whole conversion

  /** The pixel at (x, y) of a destination whose rows are `half` words. */
  function PixelIn(bits: seq<Word>, half: nat, x: nat, y: nat): nat
    requires y * half + x / 2 < |bits|
  {
    if x % 2 == 0 then bits[y * half + x / 2] % 65536 else bits[y * half + x / 2] / 65536
  }

  /** Both the frame and the destination have a pixel (x, y). */
  predicate Shown(f: Frame, x: nat, y: nat) {
    x < 16 * f.mx && y < 16 * f.my && x < 2 * f.half && y < f.height
  }

  /** Pixel (x, y) of the destination is that of the frame. */
  predicate Detiled(s: seq<Word>, now: seq<Word>, f: Frame, x: nat, y: nat)
    requires IsFrame(s, f.mx, f.my) && f.half * f.height <= |now|
    requires Shown(f, x, y)
  {
    WordIndex(f.half, f.height, x / 2, y, 0);
    PixelIn(now, f.half, x, y) == Rgb(SampleAt(s, f.mx, f.my, x, y)).Packed()
  }

  /** The colour of a pixel of the destination. */
  function ColourIn(bits: seq<Word>, half: nat, x: nat, y: nat): Colour
    requires y * half + x / 2 < |bits|
  {
    var p := PixelIn(bits, half, x, y);
    Colour(p / 2048, p / 32 % 64, p % 32)
  }

  lemma ColourShown(s: seq<Word>, now: seq<Word>, f: Frame, x: nat, y: nat)
    requires IsFrame(s, f.mx, f.my) && f.half * f.height <= |now|
    requires Shown(f, x, y) && Detiled(s, now, f, x, y)
    ensures y * f.half + x / 2 < |now| && ColourIn(now, f.half, x, y) == Rgb(SampleAt(s, f.mx, f.my, x, y))
  {
    hide Rgb, SampleAt;
    WordIndex(f.half, f.height, x / 2, y, 0);
    Unpacked(Rgb(SampleAt(s, f.mx, f.my, x, y)));
  }

  /** Two frames that differ in one luma byte give pictures that differ in at most one
      pixel, which is no darker where there is more luma. */
  lemma LumaShows(s: seq<Word>, t: seq<Word>, a: seq<Word>, b: seq<Word>, f: Frame, x: nat, y: nat, u: nat, v: nat)
    requires IsFrame(s, f.mx, f.my) && IsFrame(t, f.mx, f.my) && x < 16 * f.mx && y < 16 * f.my
    requires Raised(s, t, FrameSize(f.mx, f.my), LumaByte(x, y, f.mx))
    requires f.half * f.height <= |a| && f.half * f.height <= |b| && Shown(f, u, v)
    requires Detiled(s, a, f, u, v) && Detiled(t, b, f, u, v)
    ensures v * f.half + u / 2 < |a| && v * f.half + u / 2 < |b|
    ensures var c, d := ColourIn(a, f.half, u, v), ColourIn(b, f.half, u, v);
      if u == x && v == y then c.red <= d.red && c.green <= d.green && c.blue <= d.blue else c == d
  {
    hide Rgb, SampleAt, Raised, Detiled, ColourIn, LumaByte, FrameSize;
    ColourShown(s, a, f, u, v);
    ColourShown(t, b, f, u, v);
    LumaIsOnePixel(s, t, f.mx, f.my, x, y, u, v);
  }

  /** Two frames that differ in one Cb byte give pictures that differ in at most four pixels,
      which are no less blue, no more green and just as red where there is more of it. */
  lemma CbShows(s: seq<Word>, t: seq<Word>, a: seq<Word>, b: seq<Word>, f: Frame, x: nat, y: nat, u: nat, v: nat)
    requires IsFrame(s, f.mx, f.my) && IsFrame(t, f.mx, f.my) && x < 16 * f.mx && y < 16 * f.my
    requires Raised(s, t, FrameSize(f.mx, f.my), CbByte(x, y, f.mx, f.my))
    requires f.half * f.height <= |a| && f.half * f.height <= |b| && Shown(f, u, v)
    requires Detiled(s, a, f, u, v) && Detiled(t, b, f, u, v)
    ensures v * f.half + u / 2 < |a| && v * f.half + u / 2 < |b|
    ensures var c, d := ColourIn(a, f.half, u, v), ColourIn(b, f.half, u, v);
      if u / 2 == x / 2 && v / 2 == y / 2 then c.red == d.red && c.green >= d.green && c.blue <= d.blue else c == d
  {
    hide Rgb, SampleAt, Raised, Detiled, ColourIn, CbByte, FrameSize;
    ColourShown(s, a, f, u, v);
    ColourShown(t, b, f, u, v);
    CbIsOneSquare(s, t, f.mx, f.my, x, y, u, v);
  }

  /** The same for Cr and red. */
  lemma CrShows(s: seq<Word>, t: seq<Word>, a: seq<Word>, b: seq<Word>, f: Frame, x: nat, y: nat, u: nat, v: nat)
    requires IsFrame(s, f.mx, f.my) && IsFrame(t, f.mx, f.my) && x < 16 * f.mx && y < 16 * f.my
    requires Raised(s, t, FrameSize(f.mx, f.my), CbByte(x, y, f.mx, f.my) + 1)
    requires f.half * f.height <= |a| && f.half * f.height <= |b| && Shown(f, u, v)
    requires Detiled(s, a, f, u, v) && Detiled(t, b, f, u, v)
    ensures v * f.half + u / 2 < |a| && v * f.half + u / 2 < |b|
    ensures var c, d := ColourIn(a, f.half, u, v), ColourIn(b, f.half, u, v);
      if u / 2 == x / 2 && v / 2 == y / 2 then c.red <= d.red && c.green >= d.green && c.blue == d.blue else c == d
  {
    hide Rgb, SampleAt, Raised, Detiled, ColourIn, CbByte, FrameSize;
    ColourShown(s, a, f, u, v);
    ColourShown(t, b, f, u, v);
    CrIsOneSquare(s, t, f.mx, f.my, x, y, u, v);
  }

  /** Every colour of the picture is that of the standard to within two of 256 steps. */
  lemma PictureNearStandard(s: seq<Word>, now: seq<Word>, f: Frame, x: nat, y: nat)
    requires IsFrame(s, f.mx, f.my) && f.half * f.height <= |now|
    requires Shown(f, x, y) && Detiled(s, now, f, x, y)
    ensures y * f.half + x / 2 < |now|
    ensures var c, p := ColourIn(now, f.half, x, y), SampleAt(s, f.mx, f.my, x, y);
      && -9.0 < (8 * c.red) as real - Between0And255(IdealRed(p)) < 1.0
      && -5.0 < (4 * c.green) as real - Between0And255(IdealGreen(p)) < 1.0
      && -9.0 < (8 * c.blue) as real - Between0And255(IdealBlue(p)) < 1.0
  {
    hide Rgb, SampleAt, Detiled, ColourIn, IdealRed, IdealGreen, IdealBlue, Between0And255;
    ColourShown(s, now, f, x, y);
    NearStandard(SampleAt(s, f.mx, f.my, x, y));
  }

  /** Each word that shows part of the frame was written once, and no other. */
  ghost predicate EachOnce(log: seq<nat>, f: Frame) {
    && (forall k :: k in log <==> 0 <= k && Covered(f, k))
    && (forall a, b :: 0 <= a < b < |log| ==> log[a] != log[b])
  }

  /** The covered words are those with a pixel of the frame. */
  lemma CoveredIsShown(f: Frame, k: nat, x: nat, y: nat)
    requires 0 < f.half && k == y * f.half + x / 2 && x < 2 * f.half
    ensures Covered(f, k) <==> Shown(f, x, y)
  {
    DivMod(y, f.half, x / 2);
    if y < f.height {
      WordIndex(f.half, f.height, x / 2, y, k);
    } else {
      MulMonotone(f.height, y, f.half);
    }
  }

  /** When the loops have ended every covered word has been written. */
  lemma AllWritten(f: Frame, k: nat)
    ensures Written(f, Pos(f.my, 0, 0, 0, 0, 0), k) <==> Covered(f, k)
  {
    if Covered(f, k) {
      RowSplit(k / f.half);
    }
  }

  lemma ConvertedWord(s: seq<Word>, was: seq<Word>, now: seq<Word>, log: seq<nat>, f: Frame, xw: nat, y: nat, k: nat)
    requires Progress(s, was, now, log, f, Pos(f.my, 0, 0, 0, 0, 0))
    requires xw < 8 * f.mx && y < 16 * f.my && xw < f.half && y < f.height && k == y * f.half + xw
    ensures k < |now| && now[k] == WordOf(s, f.mx, f.my, xw, y)
  {
    WordIndex(f.half, f.height, xw, y, k);
    AllWritten(f, k);
  }

  /** Half of a word is a pixel. */
  lemma HalfWord(left: Colour, right: Colour)
    requires left.Fits() && right.Fits()
    ensures Joined(left, right) % 65536 == left.Packed() && Joined(left, right) / 65536 == right.Packed()
  {
    DivMod(right.Packed(), 65536, left.Packed());
  }

  lemma HalvesOfWord(s: seq<Word>, mx: nat, my: nat, xw: nat, y: nat)
    requires IsFrame(s, mx, my) && xw < 8 * mx && y < 16 * my
    ensures WordOf(s, mx, my, xw, y) % 65536 == Rgb(SampleAt(s, mx, my, 2 * xw, y)).Packed()
    ensures WordOf(s, mx, my, xw, y) / 65536 == Rgb(SampleAt(s, mx, my, 2 * xw + 1, y)).Packed()
  {
    HalfWord(Rgb(SampleAt(s, mx, my, 2 * xw, y)), Rgb(SampleAt(s, mx, my, 2 * xw + 1, y)));
  }

  lemma PixelOfWord(s: seq<Word>, f: Frame, x: nat, y: nat)
    requires IsFrame(s, f.mx, f.my) && Shown(f, x, y)
    ensures x / 2 < 8 * f.mx
    ensures var w := WordOf(s, f.mx, f.my, x / 2, y);
      (if x % 2 == 0 then w % 65536 else w / 65536) == Rgb(SampleAt(s, f.mx, f.my, x, y)).Packed()
  {
    var xw :| xw == x / 2;
    assert x == if x % 2 == 0 then 2 * xw else 2 * xw + 1;
    HalvesOfWord(s, f.mx, f.my, xw, y);
  }

  lemma ConvertedPixel(s: seq<Word>, was: seq<Word>, now: seq<Word>, log: seq<nat>, f: Frame, x: nat, y: nat)
    requires Progress(s, was, now, log, f, Pos(f.my, 0, 0, 0, 0, 0)) && Shown(f, x, y)
    ensures Detiled(s, now, f, x, y)
  {
    ConvertedWord(s, was, now, log, f, x / 2, y, y * f.half + x / 2);
    PixelOfWord(s, f, x, y);
  }

  /** Before the loops nothing has been written... */
  lemma NothingWritten(s: seq<Word>, was: seq<Word>, f: Frame)
    requires IsFrame(s, f.mx, f.my) && f.half * f.height <= |was|
    ensures Progress(s, was, was, [], f, Pos(0, 0, 0, 0, 0, 0))
  {
  }

  /** ...and after them the destination shows the frame. */
  lemma Finished(s: seq<Word>, was: seq<Word>, now: seq<Word>, log: seq<nat>, f: Frame)
    requires Progress(s, was, now, log, f, Pos(f.my, 0, 0, 0, 0, 0))
    ensures IsFrame(s, f.mx, f.my) && f.half * f.height <= |was| == |now| && EachOnce(log, f)
    ensures forall x: nat, y: nat :: Shown(f, x, y) ==> Detiled(s, now, f, x, y)
    ensures forall k :: 0 <= k < |now| && !Covered(f, k) ==> now[k] == was[k]
  {
    forall k: nat
      ensures Written(f, Pos(f.my, 0, 0, 0, 0, 0), k) <==> Covered(f, k)
    {
      AllWritten(f, k);
    }
    forall x: nat, y: nat | Shown(f, x, y)
      ensures Detiled(s, now, f, x, y)
    {
      ConvertedPixel(s, was, now, log, f, x, y);
    }
  }

  method Convert(src: BitmapParams, srcBits: array<Word>, dst: BitmapParams, dstBits: array<Word>)
      returns (status: Status, ghost log: seq<nat>)
    requires srcBits != dstBits
    requires Supported(src, dst) ==>
               IsFrame(srcBits[..], src.width / 16, src.height / 16) && dst.width / 2 * dst.height <= dstBits.Length
    modifies dstBits
    ensures status == OK <==> Supported(src, dst)
    ensures status != OK ==> dstBits[..] == old(dstBits[..])
    ensures status == OK ==>
              var f := Frame(src.width / 16, src.height / 16, dst.width / 2, dst.height);
              && EachOnce(log, f)
              && (forall x: nat, y: nat :: Shown(f, x, y) ==> Detiled(srcBits[..], dstBits[..], f, x, y))
              && (forall k :: 0 <= k < dstBits.Length && !Covered(f, k) ==> dstBits[k] == old(dstBits[k]))
  {
    hide Progress, EachOnce, Shown, Detiled, Covered, IsFrame;
    log := [];
    if !(dst.width % 2 == 0 && src.cropLeft == 0 && src.cropTop == 0
         && src.CropWidth() == dst.CropWidth() && src.CropHeight() == dst.CropHeight()) {
      return ERROR_UNSUPPORTED, log;
    }
    ghost var s, was := srcBits[..], dstBits[..];
    var mx, my := src.width / 16, src.height / 16;
    ghost var f := Frame(mx, my, dst.width / 2, dst.height);
    var pLuma, pChroma := 0, mx * my * 64;
    NothingWritten(s, was, f);
    var ly := 0;
    while ly < my
      invariant 0 <= ly <= my
      invariant pLuma == ly * mx * 64 && pChroma == mx * my * 64 + ly * mx * 32
      invariant Progress(s, was, dstBits[..], log, f, Pos(ly, 0, 0, 0, 0, 0))
    {
      pLuma, pChroma, log :=
        WriteBlocks(srcBits, dstBits, dst.width, dst.height, pLuma, pChroma, mx, ly, s, was, log, f);
      assert (ly + 1) * mx == ly * mx + mx;
      ly := ly + 1;
    }
    Finished(s, was, dstBits[..], log, f);
    return OK, log;
  }
}
