/** Colour values of the viewer: the RGB triple used for every drawing call,
    its packing into a framebuffer word, and its conversion to an image pixel. */
module Colors {
  import opened Bitwise

  /** A `u8`. */
  type Byte = x: nat | x < 0x100

  /** A `u32`: the type of a framebuffer cell. */
  type Word = w: nat | w < 0x1_0000_0000

  /** The single-variant colour enumeration `FTypes::RGB(r, g, b)`. */
  datatype FTypes = RGB(r: Byte, g: Byte, b: Byte)

  /** An `image::Rgba<u8>` pixel: red, green, blue and alpha. */
  datatype Rgba = Rgba(r: Byte, g: Byte, b: Byte, a: Byte)

  /** The channels of a packed word, `(w >> 16) & 0xFF`, `(w >> 8) & 0xFF` and `w & 0xFF`. */
  function RedOf(w: Word): Byte { (w / 0x1_0000) % 0x100 }
  function GreenOf(w: Word): Byte { (w / 0x100) % 0x100 }
  function BlueOf(w: Word): Byte { w % 0x100 }

  /** `Into<u32>`: `(r << 16) | (g << 8) | b`. The three bit fields do not
      overlap, so the word is r * 2^16 + g * 2^8 + b, below 2^24, and each
      channel reads back exactly from its field. */
  function Pack(c: FTypes): (w: Word)
    ensures w == c.r * 0x1_0000 + c.g * 0x100 + c.b
    ensures w < 0x100_0000
    ensures RedOf(w) == c.r && GreenOf(w) == c.g && BlueOf(w) == c.b
  {
    PackedFields(c.r, c.g, c.b);
    FieldsReadBack(c.r, c.g, c.b);
    Or(Or(Shl(c.r, 16), Shl(c.g, 8)), c.b)
  }

  lemma FieldsReadBack(r: Byte, g: Byte, b: Byte)
    ensures var w := r * 0x1_0000 + g * 0x100 + b;
      w < 0x100_0000 && RedOf(w) == r && GreenOf(w) == g && BlueOf(w) == b
  {
    var w := r * 0x1_0000 + g * 0x100 + b;
    assert w / 0x1_0000 == r;
    assert w / 0x100 == r * 0x100 + g;
    assert w % 0x100 == b;
  }

  lemma PackedFields(r: Byte, g: Byte, b: Byte)
    ensures Or(Or(Shl(r, 16), Shl(g, 8)), b) == r * 0x1_0000 + g * 0x100 + b
  {
    Pow2Values();
    assert Shl(r, 16) == r * 0x1_0000;
    assert Shl(g, 8) == g * 0x100;
    OrDisjoint(r, Shl(g, 8), 16);
    var hi := r * 0x100 + g;
    assert Shl(hi, 8) == hi * 0x100 == r * 0x1_0000 + g * 0x100;
    OrDisjoint(hi, b, 8);
  }

  /** Two colours pack to the same word exactly when they are the same colour. */
  lemma PackInjective(c: FTypes, d: FTypes)
    ensures Pack(c) == Pack(d) <==> c == d
  {
    if Pack(c) == Pack(d) {
      assert c.r == RedOf(Pack(c)) == RedOf(Pack(d)) == d.r;
    }
  }

  /** Dropping the alpha channel: `let [r, g, b, _] = p; RGB(r, g, b)`. */
  function RgbOf(p: Rgba): FTypes { RGB(p.r, p.g, p.b) }

  /** `Into<Rgba<u8>>`: the same three channels, fully opaque. */
  function ToRgba(c: FTypes): (p: Rgba)
    ensures p.a == 255
    ensures RgbOf(p) == c
  {
    Rgba(c.r, c.g, c.b, 255)
  }

  /** The two conversions agree: the channels of the image pixel are the
      channels that the packed word carries. */
  lemma ConversionsAgree(c: FTypes)
    ensures var p, w := ToRgba(c), Pack(c);
      p.r == RedOf(w) && p.g == GreenOf(w) && p.b == BlueOf(w)
  {
  }

  /** A grayscale, opaque pixel. */
  predicate IsGray(p: Rgba) { p.r == p.g == p.b && p.a == 255 }

  /** The pixel `RGB(g, g, g).into()` that the row reconstruction writes. */
  function Gray(g: Byte): (p: Rgba)
    ensures IsGray(p) && p.g == g
  {
    ToRgba(RGB(g, g, g))
  }
}
