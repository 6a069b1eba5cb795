/** Drawing the image into the framebuffer: `draw_img`, which copies the
    image and paints the scan line red, and the green level overlay that the
    frame loop adds at the bottom of the window for the scan line. The image
    is a 2D array indexed `img[x, y]`, `img.Length0` wide and `img.Length1` high. */
module Compositor {
  import opened Bitwise
  import opened Colors
  import opened Framebuffer

  /** The colour of the scan-line marker, `RGB(0xff, 0, 0)`. */
  const RED: FTypes := RGB(0xff, 0, 0)

  /** The word `draw_img` leaves for image pixel p on row y: its colour, or
      red when y is the scan line. */
  function MarkedPixel(p: Rgba, line: nat, y: nat): Word
  {
    Pack(if y == line then RED else RgbOf(p))
  }

  /** A cell after `draw_img` for scan line `line`: the image pixel over it,
      red on the scan line, and the old value where the image does not reach. */
  function ImageCell(v: Word, img: array2<Rgba>, line: nat, x: nat, y: nat): Word
    reads img
  {
    if x < img.Length0 && y < img.Length1 then MarkedPixel(img[x, y], line, y) else v
  }

  /** Where the image covers the buffer, a cell off the scan line shows the
      red, green and blue of its image pixel, the scan line is pure red, and
      nothing beyond the image changes. */
  lemma ImageCellShows(v: Word, img: array2<Rgba>, line: nat, x: nat, y: nat)
    ensures x < img.Length0 && y < img.Length1 && y != line ==>
      var w := ImageCell(v, img, line, x, y);
      RedOf(w) == img[x, y].r && GreenOf(w) == img[x, y].g && BlueOf(w) == img[x, y].b
    ensures x < img.Length0 && y < img.Length1 && y == line ==>
      var w := ImageCell(v, img, line, x, y);
      RedOf(w) == 0xff && GreenOf(w) == 0 && BlueOf(w) == 0
    ensures !(x < img.Length0 && y < img.Length1) ==> ImageCell(v, img, line, x, y) == v
  {
  }

  /** A cell after `draw_img` does not depend on what the buffer held before,
      wherever the image reaches. */
  lemma ImageCellOverwrites(v: Word, v': Word, img: array2<Rgba>, line: nat, x: nat, y: nat)
    requires x < img.Length0 && y < img.Length1
    ensures ImageCell(v, img, line, x, y) == ImageCell(v', img, line, x, y)
  {
  }

  /** Row y of the row-major walk over `img.pixels()` in `draw_img`. */
  method DrawImgRow(buffer: array<Word>, img: array2<Rgba>, line: nat, y: nat)
    requires buffer.Length == SIZE
    requires y < img.Length1
    modifies buffer
    ensures forall k :: 0 <= k < SIZE ==>
      buffer[k] == if RowOf(k) == y then ImageCell(old(buffer[k]), img, line, ColOf(k), y) else old(buffer[k])
  {
    var x := 0;
    while x < img.Length0
      invariant 0 <= x <= img.Length0
      invariant forall k :: 0 <= k < SIZE ==>
        buffer[k] == if RowOf(k) == y && ColOf(k) < x then ImageCell(old(buffer[k]), img, line, ColOf(k), y) else old(buffer[k])
    {
      SetPixel(buffer, x, y, RgbOf(img[x, y]));
      if y == line {
        SetPixel(buffer, x, y, RED);
      }
      x := x + 1;
    }
  }

  /** `draw_img`: every cell the image reaches shows its pixel (red on the
      scan line); every other cell keeps its value. */
  method DrawImg(buffer: array<Word>, img: array2<Rgba>, line: nat)
    requires buffer.Length == SIZE
    modifies buffer
    ensures forall k :: 0 <= k < SIZE ==>
      buffer[k] == ImageCell(old(buffer[k]), img, line, ColOf(k), RowOf(k))
  {
    var y := 0;
    while y < img.Length1
      invariant 0 <= y <= img.Length1
      invariant forall k :: 0 <= k < SIZE ==>
        buffer[k] == if RowOf(k) < y then ImageCell(old(buffer[k]), img, line, ColOf(k), RowOf(k)) else old(buffer[k])
    {
      DrawImgRow(buffer, img, line, y);
      y := y + 1;
    }
  }

  /** The bar of a green level g: `(g as f32 * 0.2) as usize` rows upwards
      from row HEIGHT - 5. The single-precision product of a byte and 0.2
      truncates to g / 5. */
  predicate InLevel(g: Byte, y: int) { HEIGHT - 5 - g / 5 < y <= HEIGHT - 5 }

  /** A level bar is at most 51 rows tall, so it never leaves the buffer at
      the top (the row subtraction cannot underflow), a brighter pixel's bar
      contains a darker one's, and a level below 5 draws no row at all. */
  lemma LevelBounds(g: Byte, g': Byte, y: int)
    ensures InLevel(g, y) ==> HEIGHT - 56 <= y <= HEIGHT - 5
    ensures g <= g' && InLevel(g, y) ==> InLevel(g', y)
    ensures InLevel(g, HEIGHT - 5) <==> g >= 5
    ensures g < 5 ==> !InLevel(g, y)
  {
  }

  /** The overlay colour of a green level g: `RGB(0, g, 0)`. */
  function LevelColor(g: Byte): (c: FTypes)
    ensures GreenOf(Pack(c)) == g && RedOf(Pack(c)) == 0 && BlueOf(Pack(c)) == 0
  {
    RGB(0, g, 0)
  }

  /** A cell after the overlay for scan line `line`: the green of the image
      pixel in its column on that line is composited in where that pixel's
      bar reaches. */
  function LevelCell(v: Word, img: array2<Rgba>, line: nat, x: nat, y: nat): Word
    reads img
  {
    if x < img.Length0 && line < img.Length1 && InLevel(img[x, line].g, y) then
      Composite(v, Pack(LevelColor(img[x, line].g)))
    else v
  }

  /** The overlay only ORs into the buffer: it never clears a bit. */
  lemma LevelCellKeepsBits(v: Word, img: array2<Rgba>, line: nat, x: nat, y: nat, b: nat)
    requires Bit(v, b)
    ensures Bit(LevelCell(v, img, line, x, y), b)
  {
    if x < img.Length0 && line < img.Length1 {
      var c := Pack(LevelColor(img[x, line].g));
      CompositeLaws(v, c, c);
    }
  }

  /** The inner loop of the overlay for pixel (x, line) of green level g:
      `for u in 0..(g * 0.2) { add_pixel(x, HEIGHT - 5 - u, RGB(0, g, 0)) }`. */
  method DrawLevelBar(buffer: array<Word>, x: nat, g: Byte)
    requires buffer.Length == SIZE
    modifies buffer
    ensures forall k :: 0 <= k < SIZE ==>
      buffer[k] == if ColOf(k) == x && InLevel(g, RowOf(k)) then Composite(old(buffer[k]), Pack(LevelColor(g))) else old(buffer[k])
  {
    var u := 0;
    while u < g / 5
      invariant 0 <= u <= g / 5
      invariant forall k :: 0 <= k < SIZE ==>
        buffer[k] == if ColOf(k) == x && HEIGHT - 5 - u < RowOf(k) <= HEIGHT - 5 then Composite(old(buffer[k]), Pack(LevelColor(g))) else old(buffer[k])
    {
      AddPixel(buffer, x, HEIGHT - 5 - u, LevelColor(g));
      u := u + 1;
    }
  }

  /** Row y of the walk over `img.pixels()` in the overlay: only the scan
      line draws anything. */
  method DrawLevelsRow(buffer: array<Word>, img: array2<Rgba>, line: nat, y: nat)
    requires buffer.Length == SIZE
    requires y < img.Length1
    modifies buffer
    ensures forall k :: 0 <= k < SIZE ==>
      buffer[k] == if y == line then LevelCell(old(buffer[k]), img, line, ColOf(k), RowOf(k)) else old(buffer[k])
  {
    var x := 0;
    while x < img.Length0
      invariant 0 <= x <= img.Length0
      invariant forall k :: 0 <= k < SIZE ==>
        buffer[k] == if y == line && ColOf(k) < x then LevelCell(old(buffer[k]), img, line, ColOf(k), RowOf(k)) else old(buffer[k])
    {
      if y == line {
        DrawLevelBar(buffer, x, img[x, y].g);
      }
      x := x + 1;
    }
  }

  /** The green level overlay of the frame loop: every cell gets its
      column's level bar composited in and nothing else changes. */
  method DrawLevels(buffer: array<Word>, img: array2<Rgba>, line: nat)
    requires buffer.Length == SIZE
    modifies buffer
    ensures forall k :: 0 <= k < SIZE ==>
      buffer[k] == LevelCell(old(buffer[k]), img, line, ColOf(k), RowOf(k))
  {
    var y := 0;
    while y < img.Length1
      invariant 0 <= y <= img.Length1
      invariant forall k :: 0 <= k < SIZE ==>
        buffer[k] == if line < y then LevelCell(old(buffer[k]), img, line, ColOf(k), RowOf(k)) else old(buffer[k])
    {
      DrawLevelsRow(buffer, img, line, y);
      y := y + 1;
    }
  }
}
