/** `draw_freqs`: one 4-pixel-wide vertical bar per spectrum coefficient,
    composited into the framebuffer above or below a fixed baseline. The
    floating-point step `((re * 0.02) as i32)` is done by the caller: the
    bars are drawn from the resulting signed magnitudes. */
module SpectrumBars {
  import opened Bitwise
  import opened Colors
  import opened Framebuffer

  const I32_MIN: int := -0x8000_0000
  const I32_MAX: int := 0x7FFF_FFFF
  const U64_MODULUS: int := 0x1_0000_0000_0000_0000

  /** Baseline row of every bar: `HEIGHT as i32 - 400`. */
  const BASELINE: int := HEIGHT - 400

  /** An `i32` other than `i32::MIN`, so that `mag.abs()` does not overflow. */
  predicate IsMagnitude(mag: int) { I32_MIN < mag <= I32_MAX }

  function Abs(n: int): nat { if n < 0 then -n else n }

  /** `i32::signum`. */
  function Sign(n: int): int { if n > 0 then 1 else if n < 0 then -1 else 0 }

  /** Wrapping `i32` arithmetic: the result is the i32 congruent to v, and
      v itself when v is already an i32. */
  function WrapI32(v: int): (r: int)
    ensures I32_MIN <= r <= I32_MAX
    ensures (r - v) % 0x1_0000_0000 == 0
    ensures I32_MIN <= v <= I32_MAX ==> r == v
  {
    (v - I32_MIN) % 0x1_0000_0000 + I32_MIN
  }

  /** `v as usize` for an `i32` on a 64-bit target: a negative value is
      sign-extended and becomes a number far beyond any buffer row. */
  function UsizeOf(v: int): nat
    requires I32_MIN <= v <= I32_MAX
  {
    if v < 0 then v + U64_MODULUS else v
  }

  /** The row that step m of a bar aims at, before any i32 or usize conversion. */
  function Aim(m: int, mag: int): int { BASELINE - m * Sign(mag) }

  /** The row written at step m of a bar: `((HEIGHT as i32) - 400 - m * mag.signum()) as usize`. */
  function BarRow(m: int, mag: int): nat
  {
    UsizeOf(WrapI32(Aim(m, mag)))
  }

  /** The rows covered by the first `steps` steps of a bar: upwards from the
      baseline for a positive magnitude, downwards for a negative one. */
  predicate InBarPrefix(mag: int, steps: int, y: int)
  {
    if mag > 0 then BASELINE - steps < y <= BASELINE
    else if mag < 0 then BASELINE <= y < BASELINE + steps
    else false
  }

  /** One more step adds exactly the row that step aims at. */
  lemma PrefixGrows(mag: int, m: nat, y: int)
    ensures InBarPrefix(mag, m + 1, y) <==> InBarPrefix(mag, m, y) || (mag != 0 && y == Aim(m, mag))
    ensures InBarPrefix(mag, m, Aim(m, mag)) == false
  {
  }

  /** The rows of a whole bar: `|mag|` rows from the baseline, none when mag is 0. */
  predicate InBar(mag: int, y: int) { InBarPrefix(mag, Abs(mag), y) }

  /** Step m writes a buffer row exactly when the row it aims at,
      baseline - m * sign(mag), is one; a row above the top becomes a huge
      usize and one past the i32 range wraps to a negative i32 — both are
      clipped by the bounds check. */
  lemma StepRow(m: int, mag: int)
    requires IsMagnitude(mag) && 0 <= m < Abs(mag)
    ensures BarRow(m, mag) < HEIGHT <==> 0 <= Aim(m, mag) < HEIGHT
    ensures BarRow(m, mag) < HEIGHT ==> BarRow(m, mag) == Aim(m, mag)
  {
    var v := Aim(m, mag);
    if mag > 0 {
      assert v == BASELINE - m;
    } else {
      assert v == BASELINE + m;
      if v > I32_MAX {
        assert WrapI32(v) == v - 0x1_0000_0000;
      }
    }
  }

  /** A bar of magnitude mag touches exactly the rows baseline - m * sign(mag)
      for 0 <= m < |mag| that lie in the buffer. */
  lemma BarRows(mag: int, y: nat)
    requires IsMagnitude(mag) && y < HEIGHT
    ensures (exists m :: 0 <= m < Abs(mag) && BarRow(m, mag) == y) <==> InBar(mag, y)
  {
    if m :| 0 <= m < Abs(mag) && BarRow(m, mag) == y {
      StepRow(m, mag);
    }
    if InBar(mag, y) {
      var m := if mag > 0 then BASELINE - y else y - BASELINE;
      StepRow(m, mag);
      assert BarRow(m, mag) == y;
    }
  }

  /** The enumeration index i of `freqs.iter().skip(1)` (coefficient i + 1)
      is drawn when it exists and the loop has not stopped at `i * 2 >= len`. */
  predicate Drawn(len: nat, i: nat) { i + 1 < len && 2 * i < len }

  /** The coefficients drawn are 1 up to ceil(len / 2): the DC term is
      skipped and so is the upper half. */
  lemma DrawnCoefficients(len: nat, i: nat)
    requires len >= 2
    ensures Drawn(len, i) <==> 1 <= i + 1 <= (len + 1) / 2
  {
  }

  /** Pixel (x, y) lies in the bar of one of the first `done` drawn coefficients. */
  predicate BarCovers(mags: seq<int>, done: nat, x: nat, y: nat)
  {
    var i := x / 4;
    i < done && Drawn(|mags|, i) && InBar(mags[i + 1], y)
  }

  /** A cell after `draw_freqs`: the colour composited in where a bar covers it. */
  function FreqCell(v: Word, mags: seq<int>, c: FTypes, x: nat, y: nat): Word
  {
    if BarCovers(mags, |mags|, x, y) then Composite(v, Pack(c)) else v
  }

  /** Drawing the spectrum only ORs: no bit of a cell is ever cleared. */
  lemma FreqCellKeepsBits(v: Word, mags: seq<int>, c: FTypes, x: nat, y: nat, b: nat)
    requires Bit(v, b)
    ensures Bit(FreqCell(v, mags, c, x, y), b)
  {
    CompositeLaws(v, Pack(c), Pack(c));
  }

  /** A cell that changes lies in column 4i .. 4i + 3 of a drawn coefficient
      i + 1 >= 1 whose magnitude is not 0, and only the magnitudes of drawn
      coefficients matter: the DC term and the upper half are never read. */
  lemma FreqCellOwner(v: Word, mags: seq<int>, mags': seq<int>, c: FTypes, x: nat, y: nat)
    requires |mags'| == |mags|
    requires forall i :: Drawn(|mags|, i) ==> mags'[i + 1] == mags[i + 1]
    ensures FreqCell(v, mags, c, x, y) != v ==>
      var i := x / 4; 4 * i <= x < 4 * i + 4 && Drawn(|mags|, i) && mags[i + 1] != 0
    ensures FreqCell(v, mags, c, x, y) == FreqCell(v, mags', c, x, y)
  {
  }

  /** The body of the inner loop of `draw_freqs`: step m of the bar of
      enumeration index i composites the colour into the four columns
      4i .. 4i + 3 of the row that step aims at, when that row is on screen. */
  method AddBarStep(buffer: array<Word>, i: nat, m: int, mag: int, c: FTypes)
    requires buffer.Length == SIZE
    requires IsMagnitude(mag) && 0 <= m < Abs(mag)
    modifies buffer
    ensures forall k :: 0 <= k < SIZE ==>
      buffer[k] == if ColOf(k) / 4 == i && RowOf(k) == Aim(m, mag) then Composite(old(buffer[k]), Pack(c)) else old(buffer[k])
  {
    StepRow(m, mag);
    AddPixel(buffer, 4 * i + 0, BarRow(m, mag), c);
    AddPixel(buffer, 4 * i + 1, BarRow(m, mag), c);
    AddPixel(buffer, 4 * i + 2, BarRow(m, mag), c);
    AddPixel(buffer, 4 * i + 3, BarRow(m, mag), c);
  }

  /** `draw_freqs`: after the call every cell holds its old value, with the
      colour composited in exactly where a bar of a drawn coefficient covers it. */
  method DrawFreqs(buffer: array<Word>, mags: seq<int>, c: FTypes)
    requires buffer.Length == SIZE
    requires forall i :: Drawn(|mags|, i) ==> IsMagnitude(mags[i + 1])
    modifies buffer
    ensures forall k :: 0 <= k < SIZE ==>
      buffer[k] == FreqCell(old(buffer[k]), mags, c, ColOf(k), RowOf(k))
  {
    var i: nat := 0;
    while i + 1 < |mags|
      invariant forall k :: 0 <= k < SIZE ==>
        buffer[k] == if BarCovers(mags, i, ColOf(k), RowOf(k)) then Composite(old(buffer[k]), Pack(c)) else old(buffer[k])
    {
      if i * 2 >= |mags| {
        break;
      }
      assert Drawn(|mags|, i);
      var mag := mags[i + 1];
      var m := 0;
      while m < Abs(mag)
        invariant 0 <= m <= Abs(mag)
        invariant forall k :: 0 <= k < SIZE ==>
          buffer[k] == if BarCovers(mags, i, ColOf(k), RowOf(k)) || (ColOf(k) / 4 == i && InBarPrefix(mag, m, RowOf(k)))
                       then Composite(old(buffer[k]), Pack(c)) else old(buffer[k])
      {
        AddBarStep(buffer, i, m, mag, c);
        forall y: int {
          PrefixGrows(mag, m, y);
        }
        m := m + 1;
      }
      i := i + 1;
    }
  }
}
