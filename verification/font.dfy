/**
 * The fonts both OLED drivers draw with. The glyph tables themselves live in
 * a header that is not part of this model, so they are an abstract value of
 * the right shape: one glyph per printable ASCII character ' ' to '~', each
 * glyph stored page by page, `width` bytes per page.
 */
module Font {
  import opened Ssd1306

  /** OLED_FontSize; `OtherFont` stands for any other value the enum can hold. */
  datatype FontSize = Font6X8 | Font6X12 | Font8X16 | Font12X24 | OtherFont

  /** Number of glyphs in each table: the printable characters ' ' to '~'. */
  const GlyphCount: nat := 95

  /** The tables asc2_0806, asc2_1206, asc2_1608 and asc2_2412. */
  datatype FontTables = FontTables(
    asc0806: seq<seq<byte>>,
    asc1206: seq<seq<byte>>,
    asc1608: seq<seq<byte>>,
    asc2412: seq<seq<byte>>)

  predicate TableShape(table: seq<seq<byte>>, glyphBytes: nat)
  {
    |table| == GlyphCount && forall g :: g in table ==> |g| == glyphBytes
  }

  /** Every table has a glyph per printable character, of width * pages bytes. */
  predicate WellFormed(t: FontTables)
  {
    TableShape(t.asc0806, 6 * 1) &&
    TableShape(t.asc1206, 6 * 2) &&
    TableShape(t.asc1608, 8 * 2) &&
    TableShape(t.asc2412, 12 * 3)
  }

  /** A looked-up glyph: its bytes and its size in columns and pages. */
  datatype Glyph = Glyph(bytes: seq<byte>, width: nat, pages: nat)

  predicate GlyphShape(g: Glyph)
  {
    |g.bytes| == g.width * g.pages
  }

  /** Glyph width in columns and height in pages of each font of the tables. */
  function Dimensions(font: FontSize): (d: (nat, nat))
    requires font != OtherFont
    ensures 6 <= d.0 <= 12 && 1 <= d.1 <= 3
  {
    match font
    case Font6X8 => (6, 1)
    case Font6X12 => (6, 2)
    case Font8X16 => (8, 2)
    case Font12X24 => (12, 3)
  }

  function Table(t: FontTables, font: FontSize): seq<seq<byte>>
    requires font != OtherFont
  {
    match font
    case Font6X8 => t.asc0806
    case Font6X12 => t.asc1206
    case Font8X16 => t.asc1608
    case Font12X24 => t.asc2412
  }

  /** The printable character a table index stands for. */
  function GlyphChar(i: nat): char
    requires i < GlyphCount
  {
    (i + 32) as char
  }

  /**
   * The table index of c: c - ' ' for a printable character, which is the
   * index whose character is c, and `fallback` for any other character.
   */
  function GlyphIndex(c: char, fallback: nat): (i: nat)
    requires fallback < GlyphCount
    ensures i < GlyphCount
    ensures ' ' <= c <= '~' ==> GlyphChar(i) == c
    ensures !(' ' <= c <= '~') ==> i == fallback
  {
    if c < ' ' || c > '~' then fallback else c as nat - ' ' as nat
  }

  /** The glyph of c in `font`: its table entry and the font's dimensions. */
  function Lookup(c: char, font: FontSize, t: FontTables, fallback: nat): (g: Glyph)
    requires WellFormed(t) && font != OtherFont && fallback < GlyphCount
    ensures GlyphShape(g) && (g.width, g.pages) == Dimensions(font)
  {
    var table := Table(t, font);
    var i := GlyphIndex(c, fallback);
    assert table[i] in table;
    Glyph(table[i], Dimensions(font).0, Dimensions(font).1)
  }

  /** Page p of a glyph: the `width` bytes at offset p * width (glyph + p * width). */
  function Row(g: Glyph, p: nat): (r: seq<byte>)
    requires GlyphShape(g) && p < g.pages
    ensures |r| == g.width
  {
    assert (p + 1) * g.width <= g.pages * g.width;
    g.bytes[p * g.width..(p + 1) * g.width]
  }
}
