/** The output raster: a flat, row-major buffer of WIDTH * HEIGHT packed
    words, with bounds-checked pixel writes that silently clip. */
module Framebuffer {
  import opened Bitwise
  import opened Colors

  const WIDTH: nat := 1500
  const HEIGHT: nat := 800
  /** Length of the buffer allocated once as `vec![0; WIDTH * HEIGHT]`. */
  const SIZE: nat := WIDTH * HEIGHT

  predicate InBounds(x: nat, y: nat) { x < WIDTH && y < HEIGHT }

  /** Row-major cell of pixel (x, y). */
  function Index(x: nat, y: nat): nat { x + y * WIDTH }

  /** Column and row of cell k. */
  function ColOf(k: nat): nat { k % WIDTH }
  function RowOf(k: nat): nat { k / WIDTH }

  /** Every pixel in bounds has exactly one cell, and every cell is a pixel in bounds. */
  lemma IndexOf(x: nat, y: nat)
    requires InBounds(x, y)
    ensures Index(x, y) < SIZE
    ensures ColOf(Index(x, y)) == x && RowOf(Index(x, y)) == y
  {
  }

  lemma CellOf(k: nat)
    requires k < SIZE
    ensures InBounds(ColOf(k), RowOf(k)) && Index(ColOf(k), RowOf(k)) == k
  {
  }

  /** The pixel (x, y) of a buffer, 0 out of range. */
  function PixelAt(s: seq<Word>, x: nat, y: nat): Word
    requires |s| == SIZE
  {
    if InBounds(x, y) then s[Index(x, y)] else 0
  }

  /** The buffer after `buffer[x + y * WIDTH] = w` when (x, y) is in range. */
  function Written(s: seq<Word>, x: nat, y: nat, w: Word): seq<Word>
    requires |s| == SIZE
  {
    if InBounds(x, y) then s[Index(x, y) := w] else s
  }

  /** Additive compositing of one cell: `cell |= w`, which stays a `u32`. */
  function Composite(cell: Word, w: Word): Word
  {
    Pow2Values();
    OrBelow(cell, w, 32);
    Or(cell, w)
  }

  /** Compositing keeps every bit already set, adding a colour twice adds it
      once, and the order of two colours does not matter. */
  lemma CompositeLaws(a: Word, w1: Word, w2: Word)
    ensures forall i: nat :: Bit(a, i) ==> Bit(Composite(a, w1), i)
    ensures Composite(Composite(a, w1), w1) == Composite(a, w1)
    ensures Composite(Composite(a, w1), w2) == Composite(Composite(a, w2), w1)
  {
    forall i: nat ensures Bit(a, i) ==> Bit(Composite(a, w1), i) {
      OrBit(a, w1, i);
    }
    OrAssoc(a, w1, w1);
    OrSelf(w1);
    OrAssoc(a, w1, w2);
    OrAssoc(a, w2, w1);
    OrComm(w1, w2);
  }

  /** The buffer after `buffer[x + y * WIDTH] |= w` when (x, y) is in range. */
  function Added(s: seq<Word>, x: nat, y: nat, w: Word): seq<Word>
    requires |s| == SIZE
  {
    if InBounds(x, y) then s[Index(x, y) := Composite(s[Index(x, y)], w)] else s
  }

  /** A write in range sets pixel (x, y) and only that pixel; out of range it changes nothing. */
  lemma WrittenPixels(s: seq<Word>, x: nat, y: nat, w: Word, x': nat, y': nat)
    requires |s| == SIZE
    ensures |Written(s, x, y, w)| == SIZE
    ensures PixelAt(Written(s, x, y, w), x', y') ==
      if InBounds(x, y) && x' == x && y' == y then w else PixelAt(s, x', y')
  {
    if InBounds(x, y) && InBounds(x', y') && (x', y') != (x, y) {
      IndexOf(x, y);
      IndexOf(x', y');
    }
  }

  /** Compositing ORs the colour into pixel (x, y) and only that pixel, never
      clears a bit, and changes nothing out of range. */
  lemma AddedPixels(s: seq<Word>, x: nat, y: nat, w: Word, x': nat, y': nat)
    requires |s| == SIZE
    ensures |Added(s, x, y, w)| == SIZE
    ensures PixelAt(Added(s, x, y, w), x', y') ==
      if InBounds(x, y) && x' == x && y' == y then Composite(PixelAt(s, x', y'), w) else PixelAt(s, x', y')
    ensures forall i: nat :: Bit(PixelAt(s, x', y'), i) ==> Bit(PixelAt(Added(s, x, y, w), x', y'), i)
  {
    var before := PixelAt(s, x', y');
    if InBounds(x, y) && InBounds(x', y') && (x', y') != (x, y) {
      IndexOf(x, y);
      IndexOf(x', y');
    }
    CompositeLaws(before, w, w);
  }

  /** Compositing the same colour twice is compositing it once. */
  lemma AddedIdempotent(s: seq<Word>, x: nat, y: nat, w: Word)
    requires |s| == SIZE
    ensures Added(Added(s, x, y, w), x, y, w) == Added(s, x, y, w)
  {
    if InBounds(x, y) {
      CompositeLaws(s[Index(x, y)], w, w);
    }
  }

  /** Two compositing writes commute, at the same pixel or at different ones. */
  lemma AddedCommute(s: seq<Word>, x1: nat, y1: nat, w1: Word, x2: nat, y2: nat, w2: Word)
    requires |s| == SIZE
    ensures Added(Added(s, x1, y1, w1), x2, y2, w2) == Added(Added(s, x2, y2, w2), x1, y1, w1)
  {
    if InBounds(x1, y1) && InBounds(x2, y2) {
      IndexOf(x1, y1);
      IndexOf(x2, y2);
      var i, j := Index(x1, y1), Index(x2, y2);
      if i == j {
        CompositeLaws(s[i], w1, w2);
      }
    }
  }

  /** The cell view of Written and Added: only the cell whose column and row are (x, y) changes. */
  lemma WrittenCells(s: seq<Word>, x: nat, y: nat, w: Word)
    requires |s| == SIZE
    ensures |Written(s, x, y, w)| == SIZE
    ensures forall k :: 0 <= k < SIZE ==>
      Written(s, x, y, w)[k] == if ColOf(k) == x && RowOf(k) == y then w else s[k]
  {
    forall k | 0 <= k < SIZE
      ensures Written(s, x, y, w)[k] == if ColOf(k) == x && RowOf(k) == y then w else s[k]
    {
      CellOf(k);
    }
  }

  lemma AddedCells(s: seq<Word>, x: nat, y: nat, w: Word)
    requires |s| == SIZE
    ensures |Added(s, x, y, w)| == SIZE
    ensures forall k :: 0 <= k < SIZE ==>
      Added(s, x, y, w)[k] == if ColOf(k) == x && RowOf(k) == y then Composite(s[k], w) else s[k]
  {
    forall k | 0 <= k < SIZE
      ensures Added(s, x, y, w)[k] == if ColOf(k) == x && RowOf(k) == y then Composite(s[k], w) else s[k]
    {
      CellOf(k);
    }
  }

  /** `set_pixel`: overwrites the cell of (x, y) with the packed colour when in range. */
  method SetPixel(buffer: array<Word>, x: nat, y: nat, pixel: FTypes)
    requires buffer.Length == SIZE
    modifies buffer
    ensures buffer[..] == Written(old(buffer[..]), x, y, Pack(pixel))
    ensures forall k :: 0 <= k < SIZE ==>
      buffer[k] == if ColOf(k) == x && RowOf(k) == y then Pack(pixel) else old(buffer[k])
  {
    ghost var before := buffer[..];
    var w := Pack(pixel);
    if x < WIDTH && y < HEIGHT {
      buffer[x + y * WIDTH] := w;
    }
    assert buffer[..] == Written(before, x, y, w);
    WrittenCells(before, x, y, w);
  }

  /** `add_pixel`: ORs the packed colour into the cell of (x, y) when in range. */
  method AddPixel(buffer: array<Word>, x: nat, y: nat, pixel: FTypes)
    requires buffer.Length == SIZE
    modifies buffer
    ensures buffer[..] == Added(old(buffer[..]), x, y, Pack(pixel))
    ensures forall k :: 0 <= k < SIZE ==>
      buffer[k] == if ColOf(k) == x && RowOf(k) == y then Composite(old(buffer[k]), Pack(pixel)) else old(buffer[k])
  {
    ghost var before := buffer[..];
    var w := Pack(pixel);
    if x < WIDTH && y < HEIGHT {
      buffer[x + y * WIDTH] := Composite(buffer[x + y * WIDTH], w);
    }
    assert buffer[..] == Added(before, x, y, w);
    AddedCells(before, x, y, w);
  }

  /** `get_pixel`: the cell of (x, y) in range, 0 otherwise; the buffer is not changed. */
  method GetPixel(buffer: array<Word>, x: nat, y: nat) returns (p: Word)
    requires buffer.Length == SIZE
    ensures p == PixelAt(buffer[..], x, y)
    ensures InBounds(x, y) ==> p == buffer[x + y * WIDTH]
    ensures !InBounds(x, y) ==> p == 0
  {
    if x < WIDTH && y < HEIGHT {
      p := buffer[x + y * WIDTH];
    } else {
      p := 0;
    }
  }

  /** `clear_buf`: every cell becomes 0, whatever it held before. */
  method ClearBuf(buffer: array<Word>)
    modifies buffer
    ensures forall k :: 0 <= k < buffer.Length ==> buffer[k] == 0
  {
    for k := 0 to buffer.Length
      invariant forall j :: 0 <= j < k ==> buffer[j] == 0
    {
      buffer[k] := 0;
    }
  }
}
