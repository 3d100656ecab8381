/**
 * RGBA pixel buffers as the `pngjs` PNG object holds them: a width, a height
 * and a flat byte array in which pixel (col, row) occupies the four bytes
 * starting at `(row * width + col) * 4`, in the order R, G, B, A.
 *
 * Writing into such a buffer is described once, by `Paint`: every byte of a
 * rectangle of pixels takes its value from an `Ink` (a solid colour, as
 * `drawRect` uses, or the pixels of another image, as the glyph blitter
 * uses), and every other byte keeps its value.
 */
module Raster {

  newtype byte = b: int | 0 <= b < 256

  /** An RGBA colour, the `Color` tuple of the source. */
  datatype Color = Color(r: byte, g: byte, b: byte, a: byte) {
    function Channel(k: int): byte
      requires 0 <= k < 4
    {
      if k == 0 then r else if k == 1 then g else if k == 2 then b else a
    }
  }

  /** A decoded image: `width` by `height` pixels of four bytes each. */
  class Png {
    const width: nat
    const height: nat
    const data: array<byte>

    ghost predicate Valid()
      reads this
    {
      data.Length == width * height * 4
    }

    /** The contents as a value, for specifications. */
    function View(): (v: Bitmap)
      reads this, data
      ensures v.data == data[..] && v.width == width && v.height == height
      ensures Valid() ==> v.Valid()
    {
      Bitmap(width, height, data[..])
    }

    /** A new image is all zero bytes (transparent black). */
    constructor (w: nat, h: nat)
      ensures Valid() && fresh(data)
      ensures width == w && height == h
      ensures forall i :: 0 <= i < data.Length ==> data[i] == 0
    {
      width, height := w, h;
      data := new byte[w * h * 4](_ => 0);
    }
  }

  /** The value of a `Png`, used where a specification needs its bytes. */
  datatype Bitmap = Bitmap(width: nat, height: nat, data: seq<byte>) {
    ghost predicate Valid() {
      |data| == width * height * 4
    }
  }

  /** A rectangle of pixels: columns x .. x+w-1, rows y .. y+h-1. */
  datatype Rect = Rect(x: int, y: int, w: int, h: int) {
    predicate Contains(col: int, row: int) {
      x <= col < x + w && y <= row < y + h
    }

    predicate IsEmpty() {
      w <= 0 || h <= 0
    }

    /** The rectangle lies inside a `width` by `height` image. */
    predicate Within(width: int, height: int) {
      IsEmpty() || (0 <= x && x + w <= width && 0 <= y && y + h <= height)
    }
  }

  /** Byte offset of channel `ch` of pixel (col, row); `<< 2` in the source. */
  function Idx(width: int, col: int, row: int, ch: int): int {
    (row * width + col) * 4 + ch
  }

  /** Column and row of the pixel that byte `i` belongs to. */
  function ColOf(width: nat, i: nat): nat
    requires width > 0
  {
    (i / 4) % width
  }

  function RowOf(width: nat, i: nat): nat
    requires width > 0
  {
    (i / 4) / width
  }

  lemma DivModUnique(q: int, r: int, n: int)
    requires n > 0 && 0 <= r < n
    ensures (q * n + r) / n == q && (q * n + r) % n == r
  {
    var a := q * n + r;
    var d, m := a / n, a % n;
    assert a == d * n + m;
    if d > q {
      assert d * n >= (q + 1) * n by { MulMonotone(q + 1, d, n); }
    } else if d < q {
      assert q * n >= (d + 1) * n by { MulMonotone(d + 1, q, n); }
    }
  }

  lemma MulMonotone(a: int, b: int, n: int)
    requires a <= b && n >= 0
    ensures a * n <= b * n
  {
    assert b * n - a * n == (b - a) * n;
  }

  /** The byte offset of (col, row, ch) decodes back to col, row and ch. */
  lemma IdxDecode(width: nat, col: int, row: int, ch: int)
    requires width > 0 && 0 <= col < width && 0 <= row && 0 <= ch < 4
    ensures Idx(width, col, row, ch) >= 0
    ensures Idx(width, col, row, ch) / 4 == row * width + col
    ensures Idx(width, col, row, ch) % 4 == ch
    ensures ColOf(width, Idx(width, col, row, ch)) == col
    ensures RowOf(width, Idx(width, col, row, ch)) == row
  {
    assert row * width >= 0 by { MulMonotone(0, row, width); }
    DivModUnique(row * width + col, ch, 4);
    DivModUnique(row, col, width);
  }

  /** Every byte offset is the offset of its own pixel and channel. */
  lemma IdxEncode(width: nat, i: nat)
    requires width > 0
    ensures i == Idx(width, ColOf(width, i), RowOf(width, i), i % 4)
  {
  }

  /** The bytes of a pixel inside the image lie inside the buffer. */
  lemma IdxInBounds(width: nat, height: nat, col: int, row: int, ch: int)
    requires 0 <= col < width && 0 <= row < height && 0 <= ch < 4
    ensures 0 <= Idx(width, col, row, ch) < width * height * 4
  {
    MulMonotone(0, row, width);
    MulMonotone(row + 1, height, width);
  }

  /** Channel `ch` of pixel (col, row) of a bitmap. */
  function PixelByte(bm: Bitmap, col: int, row: int, ch: int): byte
    requires bm.Valid()
    requires 0 <= col < bm.width && 0 <= row < bm.height && 0 <= ch < 4
  {
    IdxInBounds(bm.width, bm.height, col, row, ch);
    bm.data[Idx(bm.width, col, row, ch)]
  }

  /**
   * Where painted bytes come from: one colour, or the image `src` read at the
   * target position shifted by (dx, dy).
   */
  datatype Ink =
    | Solid(color: Color)
    | Sprite(src: Bitmap, dx: int, dy: int)
  {
    /** Every pixel of `r`, shifted, lies inside the source image. */
    ghost predicate Covers(r: Rect) {
      match this
      case Solid(_) => true
      case Sprite(src, dx, dy) =>
        src.Valid() && Rect(r.x + dx, r.y + dy, r.w, r.h).Within(src.width, src.height)
    }

    function At(r: Rect, col: int, row: int, ch: int): byte
      requires Covers(r) && r.Contains(col, row) && 0 <= ch < 4
    {
      match this
      case Solid(c) => c.Channel(ch)
      case Sprite(src, dx, dy) => PixelByte(src, col + dx, row + dy, ch)
    }
  }

  /** Byte `i` of a `width`-wide buffer belongs to a pixel of `r`. */
  predicate Hits(width: nat, i: nat, r: Rect) {
    width > 0 && r.Contains(ColOf(width, i), RowOf(width, i))
  }

  /**
   * The buffer `d` of a `width`-wide image after every byte of every pixel
   * of `r` has been written from `ink`; all other bytes are kept.
   */
  ghost function Paint(d: seq<byte>, width: nat, r: Rect, ink: Ink): (e: seq<byte>)
    requires ink.Covers(r)
    ensures |e| == |d|
  {
    seq(|d|, i requires 0 <= i < |d| =>
      if Hits(width, i, r) then ink.At(r, ColOf(width, i), RowOf(width, i), i % 4) else d[i])
  }

  /** Painting, stated per pixel: inside `r` the ink, outside the old byte. */
  lemma PaintAt(d: seq<byte>, width: nat, height: nat, r: Rect, ink: Ink, col: int, row: int, ch: int)
    requires |d| == width * height * 4 && ink.Covers(r)
    requires 0 <= col < width && 0 <= row < height && 0 <= ch < 4
    ensures 0 <= Idx(width, col, row, ch) < |d|
    ensures Paint(d, width, r, ink)[Idx(width, col, row, ch)]
         == if r.Contains(col, row) then ink.At(r, col, row, ch) else d[Idx(width, col, row, ch)]
  {
    IdxInBounds(width, height, col, row, ch);
    IdxDecode(width, col, row, ch);
  }

  /** Painting the same rectangle with the same ink twice is painting it once. */
  lemma PaintIdempotent(d: seq<byte>, width: nat, r: Rect, ink: Ink)
    requires ink.Covers(r)
    ensures Paint(Paint(d, width, r, ink), width, r, ink) == Paint(d, width, r, ink)
  {
    var once := Paint(d, width, r, ink);
    var twice := Paint(once, width, r, ink);
    forall i | 0 <= i < |d| ensures twice[i] == once[i] {
    }
  }

  /** Painting a rectangle row by row: row `k` completes rows 0 .. k-1. */
  lemma PaintNextRow(d: seq<byte>, width: nat, r: Rect, ink: Ink, k: int)
    requires 0 <= k < r.h && ink.Covers(r)
    ensures ink.Covers(Rect(r.x, r.y, r.w, k)) && ink.Covers(Rect(r.x, r.y + k, r.w, 1))
    ensures Paint(Paint(d, width, Rect(r.x, r.y, r.w, k), ink), width, Rect(r.x, r.y + k, r.w, 1), ink)
         == Paint(d, width, Rect(r.x, r.y, r.w, k + 1), ink)
  {
  }

  /**
   * Painting a row pixel by pixel: pixel (r.x + k, r.y) is the four byte
   * writes of the source's inner loop body.
   */
  lemma PaintNextPixel(d: seq<byte>, width: nat, height: nat, r: Rect, ink: Ink, k: int)
    requires |d| == width * height * 4
    requires r.h == 1 && 0 <= k < r.w && ink.Covers(r)
    requires 0 <= r.x && r.x + r.w <= width && 0 <= r.y < height
    ensures ink.Covers(Rect(r.x, r.y, k, 1)) && ink.Covers(Rect(r.x, r.y, k + 1, 1))
    ensures var p := Idx(width, r.x + k, r.y, 0);
      0 <= p && p + 3 < |d| &&
      Paint(d, width, Rect(r.x, r.y, k + 1, 1), ink)
        == Paint(d, width, Rect(r.x, r.y, k, 1), ink)
             [p := ink.At(r, r.x + k, r.y, 0)]
             [p + 1 := ink.At(r, r.x + k, r.y, 1)]
             [p + 2 := ink.At(r, r.x + k, r.y, 2)]
             [p + 3 := ink.At(r, r.x + k, r.y, 3)]
  {
    var p := Idx(width, r.x + k, r.y, 0);
    IdxInBounds(width, height, r.x + k, r.y, 3);
    var before := Paint(d, width, Rect(r.x, r.y, k, 1), ink);
    var after := Paint(d, width, Rect(r.x, r.y, k + 1, 1), ink);
    var written := before[p := ink.At(r, r.x + k, r.y, 0)][p + 1 := ink.At(r, r.x + k, r.y, 1)]
                         [p + 2 := ink.At(r, r.x + k, r.y, 2)][p + 3 := ink.At(r, r.x + k, r.y, 3)];
    forall i | 0 <= i < |d| ensures after[i] == written[i] {
      IdxEncode(width, i);
      if p <= i < p + 4 {
        IdxDecode(width, r.x + k, r.y, i - p);
      }
    }
  }

  /**
   * The inner loop of `drawRect`: row `yy`, columns x .. x+w-1, all four
   * channels of each pixel set to `rgba`.
   */
  method FillRow(png: Png, x: int, yy: int, w: int, rgba: Color)
    requires png.Valid()
    requires Rect(x, yy, w, 1).Within(png.width, png.height)
    modifies png.data
    ensures png.data[..] == Paint(old(png.data[..]), png.width, Rect(x, yy, w, 1), Solid(rgba))
  {
    ghost var row := png.data[..];
    var xx := x;
    while xx < x + w
      invariant x <= xx && (xx <= x + w || xx == x)
      invariant png.data[..] == Paint(row, png.width, Rect(x, yy, xx - x, 1), Solid(rgba))
    {
      PaintNextPixel(row, png.width, png.height, Rect(x, yy, w, 1), Solid(rgba), xx - x);
      var idx := (yy * png.width + xx) * 4;
      png.data[idx] := rgba.r;
      png.data[idx + 1] := rgba.g;
      png.data[idx + 2] := rgba.b;
      png.data[idx + 3] := rgba.a;
      xx := xx + 1;
    }
    assert png.data[..] == Paint(row, png.width, Rect(x, yy, w, 1), Solid(rgba));
  }

  /**
   * `drawRect`: every byte of every pixel in columns x .. x+w-1 and rows
   * y .. y+h-1 takes the matching channel of `rgba`; nothing else changes.
   */
  method DrawRect(png: Png, x: int, y: int, w: int, h: int, rgba: Color)
    requires png.Valid()
    requires Rect(x, y, w, h).Within(png.width, png.height)
    modifies png.data
    ensures png.data[..] == Paint(old(png.data[..]), png.width, Rect(x, y, w, h), Solid(rgba))
  {
    ghost var d := png.data[..];
    var yy := y;
    while yy < y + h
      invariant y <= yy && (yy <= y + h || yy == y)
      invariant png.data[..] == Paint(d, png.width, Rect(x, y, w, yy - y), Solid(rgba))
    {
      FillRow(png, x, yy, w, rgba);
      PaintNextRow(d, png.width, Rect(x, y, w, h), Solid(rgba), yy - y);
      yy := yy + 1;
    }
  }
}
