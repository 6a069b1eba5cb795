/** The integer part of `fft`: reading the green channel of the scan line
    into a zeroed signal, drawing the spectrum before and after filtering,
    and writing the reconstructed row back into the image as grayscale.
    The transforms and the filter are floating-point library work; they
    enter the model as a FloatStage, three functions of the extracted row. */
module Scanline {
  import opened Colors
  import opened Framebuffer
  import opened SpectrumBars

  const U32_MODULUS: nat := 0x1_0000_0000

  /** Spectrum colour before filtering, `RGB(0xaa, 0, 0xaa)`. */
  const PURPLE: FTypes := RGB(0xaa, 0, 0xaa)
  /** Spectrum colour after filtering, `RGB(0xaa, 0xaa, 0)`. */
  const YELLOW: FTypes := RGB(0xaa, 0xaa, 0)

  /** `line as u32`: a `usize` truncated to its low 32 bits. */
  function AsU32(n: nat): (r: nat)
    ensures r < U32_MODULUS
    ensures n < U32_MODULUS ==> r == n
    ensures (n - r) % U32_MODULUS == 0
  {
    n % U32_MODULUS
  }

  /** The image dimensions are `u32`s. */
  predicate IsImage(img: array2<Rgba>) { img.Length0 < U32_MODULUS && img.Length1 < U32_MODULUS }

  /** The value extracted for column i: the green byte of pixel (i, line as u32),
      or the 0 the signal was initialised with when that row is not in the image. */
  function RowValue(img: array2<Rgba>, line: nat, i: nat): Byte
    requires i < img.Length0
    reads img
  {
    if AsU32(line) < img.Length1 then img[i, AsU32(line)].g else 0
  }

  /** The whole extracted signal, one value per image column. */
  function RowSignal(img: array2<Rgba>, line: nat): (s: seq<Byte>)
    reads img
    ensures |s| == img.Length0
  {
    seq(img.Length0, i requires 0 <= i < img.Length0 reads img => RowValue(img, line, i))
  }

  /** The pixels of row `line as u32`, one per image column, as they are
      when the frame reads them; a row that is not in the image reads as
      transparent black and is never drawn. */
  function RowPixels(img: array2<Rgba>, line: nat): (row: seq<Rgba>)
    reads img
    ensures |row| == img.Length0
    ensures AsU32(line) < img.Length1 ==> forall i :: 0 <= i < img.Length0 ==> row[i] == img[i, AsU32(line)]
    ensures AsU32(line) >= img.Length1 ==> forall i :: 0 <= i < img.Length0 ==> row[i] == Rgba(0, 0, 0, 0)
  {
    seq(img.Length0, i requires 0 <= i < img.Length0 reads img =>
      if AsU32(line) < img.Length1 then img[i, AsU32(line)] else Rgba(0, 0, 0, 0))
  }

  /** A line past the bottom of the image yields the all-zero signal, and the
      truncation to 32 bits makes the scan periodic in line. */
  lemma RowSignalFacts(img: array2<Rgba>, line: nat)
    ensures AsU32(line) >= img.Length1 ==> forall i :: 0 <= i < img.Length0 ==> RowSignal(img, line)[i] == 0
    ensures RowSignal(img, line + U32_MODULUS) == RowSignal(img, line)
  {
  }

  /** The extraction loop of `fft`: a row-major walk over the pixels that
      copies the green byte of every pixel on row `line as u32` and stops at
      the first pixel below that row. */
  method ExtractRow(img: array2<Rgba>, line: nat) returns (signal: seq<Byte>)
    ensures |signal| == img.Length0
    ensures forall i :: 0 <= i < img.Length0 ==>
      signal[i] == if AsU32(line) < img.Length1 then img[i, AsU32(line)].g else 0
    ensures signal == RowSignal(img, line)
  {
    var row := AsU32(line);
    signal := seq(img.Length0, _ => 0);
    var y := 0;
    label pixels: while y < img.Length1
      invariant 0 <= y <= img.Length1
      invariant |signal| == img.Length0
      invariant forall i :: 0 <= i < img.Length0 ==>
        signal[i] == if row < y then img[i, row].g else 0
    {
      var x := 0;
      while x < img.Length0
        invariant 0 <= x <= img.Length0
        invariant |signal| == img.Length0
        invariant forall i :: 0 <= i < img.Length0 ==>
          signal[i] == if row < y || (row == y && i < x) then img[i, row].g else 0
      {
        if y == row {
          signal := signal[x := img[x, y].g];
        }
        if y > row {
          break pixels;
        }
        x := x + 1;
      }
      y := y + 1;
    }
    assert forall i :: 0 <= i < img.Length0 ==> signal[i] == RowSignal(img, line)[i];
  }

  /** A pixel after the write-back: on row `line as u32` it becomes the gray
      of its reconstructed intensity, elsewhere it keeps its value. */
  function WrittenBack(p: Rgba, line: nat, levels: seq<Byte>, x: nat, y: nat): Rgba
    requires x < |levels|
  {
    if y == AsU32(line) then Gray(levels[x]) else p
  }

  /** The write-back loop of `fft`: pixel n of row `line as u32` becomes the
      gray `RGB(g, g, g)` for the n-th intensity when `in_bounds` holds. */
  method WriteBack(img: array2<Rgba>, line: nat, levels: seq<Byte>)
    requires |levels| == img.Length0
    modifies img
    ensures forall x, y :: 0 <= x < img.Length0 && 0 <= y < img.Length1 ==>
      img[x, y] == WrittenBack(old(img[x, y]), line, levels, x, y)
  {
    var row := AsU32(line);
    for n := 0 to |levels|
      invariant forall x, y :: 0 <= x < img.Length0 && 0 <= y < img.Length1 ==>
        img[x, y] == if x < n then WrittenBack(old(img[x, y]), line, levels, x, y) else old(img[x, y])
    {
      if n < img.Length0 && row < img.Length1 {
        img[n, row] := Gray(levels[n]);
      }
    }
  }

  /** The write-back turns the scan line gray, and leaves the image as it
      was once the scan line is past the bottom of the image. */
  lemma WrittenBackFacts(p: Rgba, line: nat, levels: seq<Byte>, x: nat, y: nat)
    requires x < |levels|
    ensures y == AsU32(line) ==> IsGray(WrittenBack(p, line, levels, x, y)) && WrittenBack(p, line, levels, x, y).g == levels[x]
    ensures y != AsU32(line) ==> WrittenBack(p, line, levels, x, y) == p
  {
  }

  /** The floating-point stages of `fft`, as functions of the extracted row:
      the truncated bar magnitudes `(re * 0.02) as i32` of the forward
      spectrum and of the filtered spectrum, and the intensities
      `(re / HEIGHT) as u8` of the inverse transform. */
  datatype FloatStage = FloatStage(
    forward: seq<Byte> -> seq<int>,
    filtered: seq<Byte> -> seq<int>,
    inverse: seq<Byte> -> seq<Byte>)
  {
    /** A transform of n samples has n coefficients, and no magnitude is
        `i32::MIN`: a row of bytes has spectrum values far below 2^31 / 0.02. */
    ghost predicate Valid()
    {
      (forall s :: |forward(s)| == |s| && |filtered(s)| == |s| && |inverse(s)| == |s|) &&
      (forall s, i :: 0 <= i < |forward(s)| ==> IsMagnitude(forward(s)[i])) &&
      (forall s, i :: 0 <= i < |filtered(s)| ==> IsMagnitude(filtered(s)[i]))
    }
  }

  /** `fft(draw_buf, img, line)`: the spectrum of the scan line is drawn in
      purple, the filtered spectrum in yellow over it, and row `line as u32`
      of the image is replaced by the gray reconstruction. */
  method Fft(drawBuf: array<Word>, img: array2<Rgba>, line: nat, stage: FloatStage)
    requires drawBuf.Length == SIZE
    requires stage.Valid()
    modifies drawBuf, img
    ensures forall k :: 0 <= k < SIZE ==>
      var s := old(RowSignal(img, line));
      drawBuf[k] == FreqCell(FreqCell(old(drawBuf[k]), stage.forward(s), PURPLE, ColOf(k), RowOf(k)),
                             stage.filtered(s), YELLOW, ColOf(k), RowOf(k))
    ensures forall x, y :: 0 <= x < img.Length0 && 0 <= y < img.Length1 ==>
      img[x, y] == WrittenBack(old(img[x, y]), line, stage.inverse(old(RowSignal(img, line))), x, y)
  {
    var signal := ExtractRow(img, line);
    DrawFreqs(drawBuf, stage.forward(signal), PURPLE);
    DrawFreqs(drawBuf, stage.filtered(signal), YELLOW);
    WriteBack(img, line, stage.inverse(signal));
  }
}
