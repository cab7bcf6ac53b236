/**
 * The hardware-I2C SSD1306 driver. Every bus access is one HAL call, recorded
 * in the returned trace: a cursor move is a single four-byte
 * HAL_I2C_Master_Transmit (control byte 0x00, then the three cursor
 * commands), and data goes out as HAL_I2C_Mem_Write with memory address
 * 0x40 (the data control byte).
 */
module Oled {
  import Seqs
  import opened Ssd1306
  import opened Font
  import opened Drawing
  import opened TextLayout

  /** One HAL call: HAL_I2C_Mem_Write with an 8-bit memory address, or HAL_I2C_Master_Transmit. */
  datatype I2cTransfer =
    | MemWrite(device: byte, memAddress: byte, data: seq<byte>)
    | MasterTransmit(device: byte, data: seq<byte>)

  /** Unknown font values fall into the 6x8 case (`case OLED_FONT_6X8: default:`). */
  function Effective(font: FontSize): (f: FontSize)
    ensures f != OtherFont && (font != OtherFont ==> f == font)
    ensures font == OtherFont ==> f == Font6X8
  {
    if font == OtherFont then Font6X8 else font
  }

  /** Characters outside ' '..'~' are drawn as '?'. */
  const QuestionMark: nat := '?' as nat - ' ' as nat

  /**
   * OLED_GetAsciiGlyph: the glyph of c, or of '?' when c is not printable,
   * in the font (6x8 for an unknown font value), with that font's width and
   * height, which do not depend on c.
   */
  function GetAsciiGlyph(c: char, font: FontSize, t: FontTables): (g: Glyph)
    requires WellFormed(t)
    ensures GlyphShape(g) && (g.width, g.pages) == Dimensions(Effective(font))
    ensures g.bytes == Table(t, Effective(font))[GlyphIndex(c, QuestionMark)]
    ensures GlyphChar(GlyphIndex(c, QuestionMark)) == if ' ' <= c <= '~' then c else '?'
  {
    Lookup(c, Effective(font), t, QuestionMark)
  }

  /** OLED_SetCursor's single transfer: control byte 0x00, then the three cursor commands. */
  function CursorPacket(x: nat, page: nat): (t: I2cTransfer)
    ensures t.MasterTransmit? && t.device == Address && |t.data| == 4 && t.data[0] == CommandMode
  {
    MasterTransmit(Address, [CommandMode] + CursorCommands(x, page))
  }

  /**
   * The cursor packet is four bytes to the display, a command control byte
   * followed by commands that leave the controller's write pointer at the
   * clamped column and page.
   */
  lemma CursorPacketLands(ptr: Pointer, x: nat, page: nat)
    ensures var t := CursorPacket(x, page);
      t.device == Address && |t.data| == 4 && t.data[0] == CommandMode &&
      Execute(ptr, t.data[1..]) == Pointer(ClampColumn(x) as byte, ClampPage(page) as byte)
  {
    assert CursorPacket(x, page).data[1..] == CursorCommands(x, page);
    CursorLands(ptr, x, page);
  }

  /** OLED_WriteData's single transfer. */
  function DataWrite(bytes: seq<byte>): (t: I2cTransfer)
    ensures t.MemWrite? && t.device == Address && t.memAddress == DataMode && t.data == bytes
  {
    MemWrite(Address, DataMode, bytes)
  }

  function Encode(op: DisplayOp): I2cTransfer
  {
    match op
    case SetCursor(x, page) => CursorPacket(x, page)
    case WriteData(bytes) => DataWrite(bytes)
  }

  /** The HAL calls that carry out the requests, one call per request, in order. */
  function Transfers(ops: seq<DisplayOp>): (r: seq<I2cTransfer>)
    ensures |r| == |ops|
  {
    if ops == [] then [] else [Encode(ops[0])] + Transfers(ops[1..])
  }

  lemma TransfersPair(a: DisplayOp, b: DisplayOp, rest: seq<DisplayOp>)
    ensures Transfers([a, b] + rest) == [Encode(a), Encode(b)] + Transfers(rest)
  {
    assert ([a, b] + rest)[1..] == [b] + rest;
    assert ([b] + rest)[1..] == rest;
  }

  /** OLED_Clear: for each page 0..7 the cursor at (0, page), then 128 zero bytes. */
  method Clear() returns (trace: seq<I2cTransfer>)
    ensures trace == Transfers(ClearOps(TopPage))
  {
    var zeroBuf := Zeros(Columns);
    trace := [];
    var i := TopPage;
    ghost var total := Transfers(ClearOps(i));
    while i < PageCount
      invariant i <= PageCount
      invariant trace + Transfers(ClearOps(i)) == total
    {
      trace := ClearPage(i, zeroBuf, trace, total);
      i := i + 1;
    }
  }

  /** One pass of OLED_Clear's loop: the cursor at (0, page), then the row of zeros. */
  method ClearPage(page: nat, zeroBuf: seq<byte>, before: seq<I2cTransfer>, ghost total: seq<I2cTransfer>)
    returns (trace: seq<I2cTransfer>)
    requires page < PageCount && zeroBuf == Zeros(Columns)
    requires before + Transfers(ClearOps(page)) == total
    ensures trace + Transfers(ClearOps(page + 1)) == total
  {
    TransfersPair(SetCursor(0, page), WriteData(zeroBuf), ClearOps(page + 1));
    var cleared := [CursorPacket(0, page), DataWrite(zeroBuf)];
    Seqs.Associate(before, cleared, Transfers(ClearOps(page + 1)));
    trace := before + cleared;
  }

  /**
   * OLED_ShowChar: nothing when the glyph would cross the right edge or the
   * bottom; otherwise, for each page p of the glyph, the cursor at
   * (x, page + p) and then row p of the glyph.
   */
  method ShowChar(x: Uint8, page: Uint8, c: char, font: FontSize, t: FontTables) returns (trace: seq<I2cTransfer>)
    requires WellFormed(t)
    ensures trace == Transfers(CharOps(x, page, GetAsciiGlyph(c, font, t)))
  {
    var g := GetAsciiGlyph(c, font, t);
    trace := [];
    if x + g.width > 128 {
      return;
    }
    if page + g.pages > 8 {
      return;
    }
    trace := DrawRows(x, page, g);
  }

  /** The page loop of OLED_ShowChar, for a glyph that fits. */
  method DrawRows(x: Uint8, page: Uint8, g: Glyph) returns (trace: seq<I2cTransfer>)
    requires GlyphShape(g)
    ensures trace == Transfers(RowOps(x, page, g, 0))
  {
    trace := [];
    var p := 0;
    while p < g.pages
      invariant p <= g.pages
      invariant trace + Transfers(RowOps(x, page, g, p)) == Transfers(RowOps(x, page, g, 0))
    {
      trace := DrawRow(x, page, g, p, trace, Transfers(RowOps(x, page, g, 0)));
      p := p + 1;
    }
  }

  /** One pass of the page loop: the cursor at (x, page + p), then row p of the glyph. */
  method DrawRow(x: Uint8, page: Uint8, g: Glyph, p: nat, before: seq<I2cTransfer>, ghost total: seq<I2cTransfer>)
    returns (trace: seq<I2cTransfer>)
    requires GlyphShape(g) && p < g.pages
    requires before + Transfers(RowOps(x, page, g, p)) == total
    ensures trace + Transfers(RowOps(x, page, g, p + 1)) == total
  {
    TransfersPair(SetCursor(x, page + p), WriteData(Row(g, p)), RowOps(x, page, g, p + 1));
    var drawn := [CursorPacket(x, page + p), DataWrite(Row(g, p))];
    Seqs.Associate(before, drawn, Transfers(RowOps(x, page, g, p + 1)));
    trace := before + drawn;
  }

  lemma {:induction false} TransfersAppend(a: seq<DisplayOp>, b: seq<DisplayOp>)
    ensures Transfers(a + b) == Transfers(a) + Transfers(b)
    decreases |a|
  {
    if a == [] {
      Seqs.EmptyAppend(a, b);
      Seqs.EmptyAppend(Transfers(a), Transfers(b));
    } else {
      Seqs.TailOfAppend(a, b);
      TransfersAppend(a[1..], b);
      Seqs.Associate([Encode(a[0])], Transfers(a[1..]), Transfers(b));
    }
  }

  /** ShowString's requests for the placed characters, in font f. */
  function StringTransfers(ps: seq<Placement>, f: FontSize, t: FontTables): seq<I2cTransfer>
    requires WellFormed(t) && f != OtherFont
  {
    Transfers(StringOps(ps, f, t, QuestionMark))
  }

  /** Drawing one more placed character appends ShowChar's transfers for it. */
  lemma StringTransfersSnoc(ps: seq<Placement>, p: Placement, f: FontSize, t: FontTables)
    requires WellFormed(t) && f != OtherFont
    ensures StringTransfers(ps + [p], f, t) ==
      StringTransfers(ps, f, t) + Transfers(CharOps(p.x, p.page, Lookup(p.c, f, t, QuestionMark)))
  {
    StringOpsSnoc(ps, p, f, t, QuestionMark);
    TransfersAppend(StringOps(ps, f, t, QuestionMark), CharOps(p.x, p.page, Lookup(p.c, f, t, QuestionMark)));
  }

  /**
   * OLED_ShowString: the glyph size comes from the glyph of 'A'; newlines,
   * wrapping at the right edge and the stop at the bottom follow `Layout`,
   * and each placed character is drawn by ShowChar.
   */
  method ShowString(x: Uint8, page: Uint8, s: seq<char>, font: FontSize, t: FontTables) returns (trace: seq<I2cTransfer>)
    requires WellFormed(t)
    ensures var (w, h) := Dimensions(Effective(font));
      trace == StringTransfers(Layout(x, page, s, w, h), Effective(font), t)
  {
    var metrics := GetAsciiGlyph('A', font, t);
    trace := PlaceString(x, page, s, font, metrics.width, metrics.pages, t);
  }

  /**
   * The drawing step of OLED_ShowString: ShowChar at (x, page), appended to
   * what was sent for the characters placed before.
   */
  method DrawNext(ghost placed: seq<Placement>, x: Uint8, page: Uint8, c: char, font: FontSize, t: FontTables,
                  before: seq<I2cTransfer>) returns (trace: seq<I2cTransfer>)
    requires WellFormed(t)
    requires before == StringTransfers(placed, Effective(font), t)
    ensures trace == StringTransfers(placed + [Placement(x, page, c)], Effective(font), t)
  {
    var drawn := ShowChar(x, page, c, font, t);
    StringTransfersSnoc(placed, Placement(x, page, c), Effective(font), t);
    trace := before + drawn;
  }

  /** ShowString's character loop, given the glyph width and height in pages. */
  method PlaceString(x: Uint8, page: Uint8, s: seq<char>, font: FontSize, w: Uint8, h: Uint8, t: FontTables)
    returns (trace: seq<I2cTransfer>)
    requires WellFormed(t) && (w, h) == Dimensions(Effective(font))
    ensures trace == StringTransfers(Layout(x, page, s, w, h), Effective(font), t)
  {
    ghost var f := Effective(font);
    ghost var placed: seq<Placement> := [];
    ghost var all := Layout(x, page, s, w, h);
    var cx: Uint8, cp: Uint8 := x, page;
    trace := [];
    var i := 0;
    while i < |s| && s[i] != '\0'
      invariant i <= |s|
      invariant placed + Layout(cx, cp, s[i..], w, h) == all
      invariant trace == StringTransfers(placed, f, t)
    {
      if s[i] == '\n' {
        ResumeNewline(placed, cx, cp, s, i, w, h, all);
        cx := 0;
        cp := NextLine(cp, h);
        i := i + 1;
        continue;
      }
      if cx + w > 128 {
        ResumeWrap(placed, cx, cp, s, i, w, h, all);
        cx := 0;
        cp := NextLine(cp, h);
      }
      if cp + h > 8 {
        ResumeStop(placed, cx, cp, s, i, w, h, all);
        break;
      }
      trace, placed, cx := PlaceNext(placed, cx, cp, s, i, font, w, h, t, all, trace);
      i := i + 1;
    }
    if i == |s| || s[i] == '\0' {
      ResumeAtEnd(placed, cx, cp, s, i, w, h, all);
    }
  }

  /** The drawing pass of OLED_ShowString's loop: ShowChar at (x, page), then x advances by the width. */
  method PlaceNext(ghost placed: seq<Placement>, x: Uint8, page: Uint8, s: seq<char>, i: nat, font: FontSize,
                   w: Uint8, h: Uint8, t: FontTables, ghost all: seq<Placement>, before: seq<I2cTransfer>)
    returns (trace: seq<I2cTransfer>, ghost placed': seq<Placement>, x': Uint8)
    requires WellFormed(t) && (w, h) == Dimensions(Effective(font))
    requires i < |s| && s[i] != '\0' && s[i] != '\n'
    requires x + w <= Columns && page + h <= PageCount
    requires placed + Layout(x, page, s[i..], w, h) == all
    requires before == StringTransfers(placed, Effective(font), t)
    ensures x' == (x + w) % 256 && placed' == placed + [Placement(x, page, s[i])]
    ensures placed' + Layout(x', page, s[i + 1..], w, h) == all
    ensures trace == StringTransfers(placed', Effective(font), t)
  {
    trace := DrawNext(placed, x, page, s[i], font, t, before);
    ResumeDraw(placed, x, page, s, i, w, h, all);
    placed' := placed + [Placement(x, page, s[i])];
    x' := (x + w) % 256;
  }

  /**
   * Every character ShowString places is drawn in full, all pages of its
   * glyph, and what it writes as data is the glyphs of the placed
   * characters in order, which are a prefix of the string's non-newline
   * characters before its NUL.
   */
  lemma ShowStringDrawsWholeGlyphs(x: Uint8, page: Uint8, s: seq<char>, font: FontSize, t: FontTables)
    requires WellFormed(t)
    ensures var (w, h) := Dimensions(Effective(font));
      var ps := Layout(x, page, s, w, h);
      var ops := StringOps(ps, Effective(font), t, QuestionMark);
      StringTransfers(ps, Effective(font), t) == Transfers(ops) &&
      |ops| == |ps| * (2 * h) &&
      Payload(ops) == GlyphBytes(Chars(ps), Effective(font), t, QuestionMark) &&
      Chars(ps) <= Visible(s)
  {
    var (w, h) := Dimensions(Effective(font));
    LayoutInBounds(x, page, s, w, h);
    LayoutDrawsVisiblePrefix(x, page, s, w, h);
    StringOpsUnclipped(Layout(x, page, s, w, h), Effective(font), t, QuestionMark);
  }
}
