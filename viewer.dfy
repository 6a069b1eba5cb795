/** The frame loop of `main`: each frame clears the buffer, draws the image
    with the scan-line marker, runs the spectrum stage for the frame, adds
    the green level overlay and advances the frame counter. The window, its
    refresh and the key polling are outside the model: the loop runs for a
    given number of frames. */
module Viewer {
  import opened Colors
  import opened Framebuffer
  import opened SpectrumBars
  import opened Compositor
  import opened Scanline

  /** The marker row of a frame: the frame counter reduced by the buffer height. */
  function MarkerRow(frame: nat): (r: nat)
    ensures r < HEIGHT
  {
    frame % HEIGHT
  }

  /** Cell (x, y) of the frame shown for frame `frame`, from the image
      `img` after that frame's write-back and the pixels `row` and green
      signal s that row `frame as u32` had before it: the image drawn with
      that row as it was and the marker row in red, the purple and yellow
      spectra of s composited over it, then the level bar of the marker row
      of `img`. */
  function ShownCell(row: seq<Rgba>, s: seq<Byte>, stage: FloatStage, img: array2<Rgba>, frame: nat, x: nat, y: nat): Word
    requires |row| == img.Length0
    reads img
  {
    var drawn := if x < img.Length0 && y < img.Length1
      then MarkedPixel(if y == AsU32(frame) then row[x] else img[x, y], MarkerRow(frame), y)
      else 0;
    var spectra := FreqCell(FreqCell(drawn, stage.forward(s), PURPLE, x, y), stage.filtered(s), YELLOW, x, y);
    LevelCell(spectra, img, MarkerRow(frame), x, y)
  }

  /** One iteration of the frame loop. The image has row `frame as u32`
      replaced by its gray reconstruction. The buffer ends up as the image
      drawn before that write-back (the image as it is now, except that row,
      as it was) with its marker row, the two spectra of row `frame as u32`
      composited over it and the green levels of the marker row of the
      written-back image composited over that. */
  method Tick(buffer: array<Word>, img: array2<Rgba>, frame: nat, stage: FloatStage) returns (next: nat)
    requires buffer.Length == SIZE
    requires stage.Valid()
    modifies buffer, img
    ensures next == frame + 1
    ensures forall x, y :: 0 <= x < img.Length0 && 0 <= y < img.Length1 ==>
      img[x, y] == WrittenBack(old(img[x, y]), frame, stage.inverse(old(RowSignal(img, frame))), x, y)
    ensures forall k :: 0 <= k < SIZE ==>
      buffer[k] == ShownCell(old(RowPixels(img, frame)), old(RowSignal(img, frame)), stage, img, frame, ColOf(k), RowOf(k))
  {
    ClearBuf(buffer);
    DrawImg(buffer, img, frame % HEIGHT);
    Fft(buffer, img, frame, stage);
    DrawLevels(buffer, img, frame % HEIGHT);
    next := frame + 1;
    forall k | 0 <= k < SIZE
      ensures buffer[k] == ShownCell(old(RowPixels(img, frame)), old(RowSignal(img, frame)), stage, img, frame, ColOf(k), RowOf(k))
    {
      var x, y := ColOf(k), RowOf(k);
      if x < img.Length0 && y < img.Length1 && y != AsU32(frame) {
        assert img[x, y] == old(img[x, y]);
      }
    }
  }

  /** The marker row and the scanned row are the same row only while the
      frame counter is below the buffer height. In the next HEIGHT frames the
      marker starts again from the top, while the spectrum is taken of row
      `frame` itself; once that row is past the bottom of the image the
      signal is all zero and the write-back changes nothing. */
  lemma MarkerAndScan(img: array2<Rgba>, frame: nat, levels: seq<Byte>, p: Rgba, x: nat, y: nat)
    requires x < |levels|
    ensures frame < HEIGHT ==> MarkerRow(frame) == AsU32(frame) == frame
    ensures HEIGHT <= frame < 2 * HEIGHT ==> MarkerRow(frame) == frame - HEIGHT && AsU32(frame) == frame
    ensures AsU32(frame) >= img.Length1 ==>
      (forall i :: 0 <= i < img.Length0 ==> RowSignal(img, frame)[i] == 0) &&
      (y < img.Length1 ==> WrittenBack(p, frame, levels, x, y) == p)
  {
    if AsU32(frame) >= img.Length1 {
      RowSignalFacts(img, frame);
    }
  }

  /** Pixel (x, y) of the image after n frames, from its original value p
      and the signal s of its original row: a row above n holds the gray
      reconstruction of its own original signal, any other row is untouched. */
  function ScannedPixel(p: Rgba, s: seq<Byte>, stage: FloatStage, n: nat, x: nat, y: nat): Rgba
    requires x < |stage.inverse(s)|
  {
    if y < n then Gray(stage.inverse(s)[x]) else p
  }

  /** The image as a value, row by row: the pixels of every row. */
  function ImageRows(img: array2<Rgba>): seq<seq<Rgba>>
    reads img
  {
    seq(img.Length1, y requires 0 <= y < img.Length1 reads img => RowPixels(img, y))
  }

  /** The green signal of every row of the image. */
  function ImageSignals(img: array2<Rgba>): seq<seq<Byte>>
    reads img
  {
    seq(img.Length1, y requires 0 <= y < img.Length1 reads img => RowSignal(img, y))
  }

  /** Row f of a snapshot `width` pixels wide; a row below the image reads
      as transparent black, as `RowPixels` reads it. */
  function SnapRow(rows: seq<seq<Rgba>>, width: nat, f: nat): seq<Rgba>
  {
    if f < |rows| then rows[f] else seq(width, _ => Rgba(0, 0, 0, 0))
  }

  /** The signal of row f of a snapshot; a row below the image gives the
      zero signal, as `RowSignal` gives it. */
  function SnapSignal(sigs: seq<seq<Byte>>, width: nat, f: nat): seq<Byte>
  {
    if f < |sigs| then sigs[f] else seq(width, _ => 0)
  }

  /** The image after the scan has covered the rows above n, against a
      snapshot of the image before the scan: `rows[y]` holds the pixels of
      row y and `sigs[y]` their green signal. */
  ghost predicate ScannedTo(img: array2<Rgba>, rows: seq<seq<Rgba>>, sigs: seq<seq<Byte>>, stage: FloatStage, n: nat)
    reads img
  {
    stage.Valid() && |rows| == |sigs| == img.Length1 &&
    (forall y :: 0 <= y < img.Length1 ==> |rows[y]| == |sigs[y]| == img.Length0) &&
    (forall x, y :: 0 <= x < img.Length0 && 0 <= y < img.Length1 ==>
      sigs[y][x] == rows[y][x].g && img[x, y] == ScannedPixel(rows[y][x], sigs[y], stage, n, x, y))
  }

  /** A snapshot of an image is a scan that has covered no row yet; it holds
      every pixel and every row signal, and reads row f (for any f below
      2^32) as `RowPixels` and `RowSignal` do. */
  lemma ScanStart(img: array2<Rgba>, stage: FloatStage, f: nat)
    requires IsImage(img) && stage.Valid() && f < U32_MODULUS
    ensures ScannedTo(img, ImageRows(img), ImageSignals(img), stage, 0)
    ensures forall x, y :: 0 <= x < img.Length0 && 0 <= y < img.Length1 ==> ImageRows(img)[y][x] == img[x, y]
    ensures forall y :: 0 <= y < img.Length1 ==> ImageSignals(img)[y] == RowSignal(img, y)
    ensures RowPixels(img, f) == SnapRow(ImageRows(img), img.Length0, f)
    ensures RowSignal(img, f) == SnapSignal(ImageSignals(img), img.Length0, f)
  {
    var rows, sigs := ImageRows(img), ImageSignals(img);
    forall x, y | 0 <= x < img.Length0 && 0 <= y < img.Length1
      ensures rows[y][x] == img[x, y] && sigs[y][x] == rows[y][x].g
    {
      assert AsU32(y) == y;
    }
    assert RowPixels(img, f) == SnapRow(rows, img.Length0, f) by {
      assert forall i :: 0 <= i < img.Length0 ==> RowPixels(img, f)[i] == SnapRow(rows, img.Length0, f)[i];
    }
    assert RowSignal(img, f) == SnapSignal(sigs, img.Length0, f) by {
      assert forall i :: 0 <= i < img.Length0 ==> RowSignal(img, f)[i] == SnapSignal(sigs, img.Length0, f)[i];
    }
  }

  /** One iteration of the frame loop seen from the start of the scan: the
      row it scans still has the pixels and the signal of the snapshot, and
      afterwards the scan covers one more row. */
  method ScanStep(buffer: array<Word>, img: array2<Rgba>, frame: nat, stage: FloatStage,
                  ghost rows: seq<seq<Rgba>>, ghost sigs: seq<seq<Byte>>) returns (next: nat)
    requires buffer.Length == SIZE
    requires frame < U32_MODULUS
    requires ScannedTo(img, rows, sigs, stage, frame)
    modifies buffer, img
    ensures next == frame + 1
    ensures ScannedTo(img, rows, sigs, stage, next)
    ensures old(RowPixels(img, frame)) == SnapRow(rows, img.Length0, frame)
    ensures old(RowSignal(img, frame)) == SnapSignal(sigs, img.Length0, frame)
    ensures forall k :: 0 <= k < SIZE ==>
      buffer[k] == ShownCell(old(RowPixels(img, frame)), old(RowSignal(img, frame)), stage, img, frame, ColOf(k), RowOf(k))
  {
    assert AsU32(frame) == frame;
    assert RowPixels(img, frame) == SnapRow(rows, img.Length0, frame) by {
      assert forall i :: 0 <= i < img.Length0 ==> RowPixels(img, frame)[i] == SnapRow(rows, img.Length0, frame)[i];
    }
    assert RowSignal(img, frame) == SnapSignal(sigs, img.Length0, frame) by {
      assert forall i :: 0 <= i < img.Length0 ==> RowSignal(img, frame)[i] == SnapSignal(sigs, img.Length0, frame)[i];
    }
    next := Tick(buffer, img, frame, stage);
    forall x, y | 0 <= x < img.Length0 && 0 <= y < img.Length1
      ensures img[x, y] == ScannedPixel(rows[y][x], sigs[y], stage, next, x, y)
    {
      assert old(img[x, y]) == ScannedPixel(rows[y][x], sigs[y], stage, frame, x, y);
    }
  }

  /** The frame loop run for `frames` iterations, fewer than the 2^32 at
      which `frame as u32` would wrap. The scan walks down the image one row
      per frame: after it, each row above `frames` holds the gray
      reconstruction of its own original signal and every other row is as it
      was. The buffer shows the last frame: the image as it is now with the
      last scanned row as it was originally, the marker of that frame, both
      spectra of the last scanned row's original signal and the level overlay. */
  method FrameLoop(buffer: array<Word>, img: array2<Rgba>, stage: FloatStage, frames: nat) returns (frame: nat)
    requires buffer.Length == SIZE
    requires IsImage(img)
    requires stage.Valid()
    requires frames <= U32_MODULUS
    modifies buffer, img
    ensures frame == frames
    ensures forall x, y :: 0 <= x < img.Length0 && 0 <= y < img.Length1 ==>
      img[x, y] == ScannedPixel(old(img[x, y]), old(RowSignal(img, y)), stage, frame, x, y)
    ensures frames > 0 ==> forall k :: 0 <= k < SIZE ==>
      buffer[k] == ShownCell(old(RowPixels(img, frames - 1)), old(RowSignal(img, frames - 1)), stage, img, frames - 1, ColOf(k), RowOf(k))
  {
    ghost var rows, sigs := ImageRows(img), ImageSignals(img);
    ghost var last := if frames > 0 then frames - 1 else 0;
    ScanStart(img, stage, last);
    frame := 0;
    ghost var scanned := 0;
    while frame < frames
      invariant frame <= frames
      invariant ScannedTo(img, rows, sigs, stage, frame)
      invariant frame > 0 ==> scanned == frame - 1 && forall k :: 0 <= k < SIZE ==>
        buffer[k] == ShownCell(SnapRow(rows, img.Length0, scanned), SnapSignal(sigs, img.Length0, scanned),
                               stage, img, scanned, ColOf(k), RowOf(k))
    {
      scanned := frame;
      frame := ScanStep(buffer, img, frame, stage, rows, sigs);
    }
    if frames > 0 {
      assert scanned == last == frames - 1;
    }
  }
}
