/**
 * The bit-banged SSD1306 driver. Every command byte travels in a transaction
 * of its own (address 0x78, control byte 0x00, the command), and data travels
 * as one transaction per block (address 0x78, control byte 0x40, the bytes).
 * A method's result is the sequence of pin writes it makes; what a display on
 * the bus receives follows from SoftI2c.WireDelivers.
 */
module SoftOled {
  import Seqs
  import opened Ssd1306
  import opened Font
  import opened Drawing
  import opened TextLayout
  import SoftI2c
  import Oled

  /** Index of ' ' in the font tables, drawn for characters outside ' '..'~'. */
  const Blank: nat := 0

  /** The transaction that carries one command byte. */
  function CommandFrame(cmd: byte): (f: seq<byte>)
  {
    [Address, CommandMode, cmd]
  }

  /** The transaction that carries a block of display data. */
  function DataFrame(bytes: seq<byte>): (f: seq<byte>)
  {
    [Address, DataMode] + bytes
  }

  /**
   * What a receiver on an idle bus decodes from each kind of transaction:
   * the display address, the control byte, then the command or the data bytes.
   */
  lemma FramesReceived(cmd: byte, bytes: seq<byte>)
    ensures SoftI2c.Run(SoftI2c.Idle([]), SoftI2c.FrameWrites(CommandFrame(cmd))) ==
      SoftI2c.Idle([[Address, CommandMode, cmd]])
    ensures SoftI2c.Run(SoftI2c.Idle([]), SoftI2c.FrameWrites(DataFrame(bytes))) ==
      SoftI2c.Idle([[Address, DataMode] + bytes])
  {
    SoftI2c.RunFrame([], CommandFrame(cmd));
    SoftI2c.RunFrame([], DataFrame(bytes));
    assert [] + [CommandFrame(cmd)] == [[Address, CommandMode, cmd]];
    assert [] + [DataFrame(bytes)] == [[Address, DataMode] + bytes];
  }

  /** The transactions that carry one display request: three for a cursor move, one for a data write. */
  function OpFrames(op: DisplayOp): seq<seq<byte>>
  {
    match op
    case SetCursor(x, page) =>
      var cmds := CursorCommands(x, page);
      [CommandFrame(cmds[0]), CommandFrame(cmds[1]), CommandFrame(cmds[2])]
    case WriteData(bytes) => [DataFrame(bytes)]
  }

  function Frames(ops: seq<DisplayOp>): seq<seq<byte>>
  {
    if ops == [] then [] else OpFrames(ops[0]) + Frames(ops[1..])
  }

  /** The pin writes that carry one request: a transaction per frame. */
  function OpTransmission(op: DisplayOp): seq<SoftI2c.PinWrite>
  {
    match op
    case SetCursor(x, page) =>
      var cmds := CursorCommands(x, page);
      SoftI2c.FrameWrites(CommandFrame(cmds[0])) + SoftI2c.FrameWrites(CommandFrame(cmds[1])) +
      SoftI2c.FrameWrites(CommandFrame(cmds[2]))
    case WriteData(bytes) => SoftI2c.FrameWrites(DataFrame(bytes))
  }

  /** The pin writes that carry the requests, one request after another. */
  function Transmission(ops: seq<DisplayOp>): seq<SoftI2c.PinWrite>
  {
    if ops == [] then [] else OpTransmission(ops[0]) + Transmission(ops[1..])
  }

  /** The pin writes of one request are its frames, each sent as one transaction. */
  lemma OpTransmissionIsWire(op: DisplayOp)
    ensures OpTransmission(op) == SoftI2c.Wire(OpFrames(op))
  {
    match op
    case SetCursor(x, page) =>
      var cmds := CursorCommands(x, page);
      SoftI2c.WireThree(CommandFrame(cmds[0]), CommandFrame(cmds[1]), CommandFrame(cmds[2]));
    case WriteData(bytes) =>
      SoftI2c.WireSingle(DataFrame(bytes));
  }

  /** The pin writes of the requests are their frames, each sent as one transaction. */
  lemma {:induction false} TransmissionIsWire(ops: seq<DisplayOp>)
    ensures Transmission(ops) == SoftI2c.Wire(Frames(ops))
    decreases |ops|
  {
    if ops != [] {
      TransmissionIsWire(ops[1..]);
      OpTransmissionIsWire(ops[0]);
      SoftI2c.WireAppend(OpFrames(ops[0]), Frames(ops[1..]));
    }
  }

  lemma {:induction false} TransmissionAppend(a: seq<DisplayOp>, b: seq<DisplayOp>)
    ensures Transmission(a + b) == Transmission(a) + Transmission(b)
    decreases |a|
  {
    if a == [] {
      Seqs.EmptyAppend(a, b);
      Seqs.EmptyAppend(Transmission(a), Transmission(b));
    } else {
      Seqs.TailOfAppend(a, b);
      TransmissionAppend(a[1..], b);
      Seqs.Associate(OpTransmission(a[0]), Transmission(a[1..]), Transmission(b));
    }
  }

  /** Two requests followed by more: the transmission of each, in order. */
  lemma TransmissionPair(a: DisplayOp, b: DisplayOp, rest: seq<DisplayOp>)
    ensures Transmission([a, b] + rest) == OpTransmission(a) + OpTransmission(b) + Transmission(rest)
  {
    var ops := [a, b] + rest;
    assert ops[1..] == [b] + rest;
    assert ops[1..][1..] == rest;
  }

  /** One page of Clear: the cursor move, then the block of zeros, then the remaining pages. */
  lemma ClearStep(page: nat)
    requires page < PageCount
    ensures Transmission(ClearOps(page)) ==
      OpTransmission(DisplayOp.SetCursor(0, page)) + SoftI2c.FrameWrites(DataFrame(Zeros(Columns))) +
      Transmission(ClearOps(page + 1))
  {
    TransmissionPair(DisplayOp.SetCursor(0, page), DisplayOp.WriteData(Zeros(Columns)), ClearOps(page + 1));
  }

  /** One page of a glyph: the cursor move, then the row as one block, then the remaining pages. */
  lemma RowStep(x: nat, page: nat, g: Glyph, p: nat)
    requires GlyphShape(g) && p < g.pages
    ensures Transmission(RowOps(x, page, g, p)) ==
      OpTransmission(DisplayOp.SetCursor(x, page + p)) + SoftI2c.FrameWrites(DataFrame(Row(g, p))) +
      Transmission(RowOps(x, page, g, p + 1))
  {
    TransmissionPair(DisplayOp.SetCursor(x, page + p), DisplayOp.WriteData(Row(g, p)), RowOps(x, page, g, p + 1));
  }

  /** SoftOLED_WriteCmd: one transaction of address, command control byte and the command. */
  method WriteCmd(cmd: byte) returns (writes: seq<SoftI2c.PinWrite>)
    ensures writes == SoftI2c.FrameWrites(CommandFrame(cmd))
  {
    writes := SoftI2c.StartWrites();
    var a := SoftI2c.SendByte(Address);
    var m := SoftI2c.SendByte(CommandMode);
    var c := SoftI2c.SendByte(cmd);
    writes := writes + (a + m + c) + SoftI2c.StopWrites();
    SoftI2c.FrameOfThree(Address, CommandMode, cmd, a, m, c);
  }

  /** SoftOLED_WriteData: one transaction of address, data control byte and one data byte. */
  method WriteData(data: byte) returns (writes: seq<SoftI2c.PinWrite>)
    ensures writes == SoftI2c.FrameWrites(DataFrame([data]))
  {
    writes := SoftI2c.StartWrites();
    var a := SoftI2c.SendByte(Address);
    var m := SoftI2c.SendByte(DataMode);
    var d := SoftI2c.SendByte(data);
    writes := writes + (a + m + d) + SoftI2c.StopWrites();
    SoftI2c.FrameOfThree(Address, DataMode, data, a, m, d);
    assert DataFrame([data]) == [Address, DataMode, data];
  }

  /** SoftOLED_WriteDataBlock: one transaction for the whole block; `len` is a uint16_t. */
  method WriteDataBlock(data: seq<byte>) returns (writes: seq<SoftI2c.PinWrite>)
    requires |data| < 0x1_0000
    ensures writes == SoftI2c.FrameWrites(DataFrame(data))
  {
    writes := SoftI2c.StartWrites();
    var a := SoftI2c.SendByte(Address);
    var m := SoftI2c.SendByte(DataMode);
    BlockHeader(writes, data);
    writes := writes + a + m;
    var i := 0;
    while i < |data|
      invariant i <= |data|
      invariant writes == SoftI2c.StartWrites() + SoftI2c.BytesWrites(DataFrame(data[..i]))
    {
      var d := SoftI2c.SendByte(data[i]);
      BlockStep(data, i);
      writes := writes + d;
      i := i + 1;
    }
    assert data[..i] == data;
    writes := writes + SoftI2c.StopWrites();
  }

  /** Sending the address and the data control byte is sending the block with no data yet. */
  lemma BlockHeader(start: seq<SoftI2c.PinWrite>, data: seq<byte>)
    ensures start + SoftI2c.BytesWrites(DataFrame(data[..0])) ==
      start + SoftI2c.ByteWrites(Address) + SoftI2c.ByteWrites(DataMode)
  {
    assert DataFrame(data[..0]) == [Address, DataMode];
    assert [Address, DataMode][1..] == [DataMode];
    assert [DataMode][1..] == [];
    assert SoftI2c.BytesWrites([DataMode]) == SoftI2c.ByteWrites(DataMode) + [];
  }

  /** One pass of the data loop: the next byte extends the block sent so far. */
  lemma BlockStep(data: seq<byte>, i: nat)
    requires i < |data|
    ensures SoftI2c.StartWrites() + SoftI2c.BytesWrites(DataFrame(data[..i + 1])) ==
      SoftI2c.StartWrites() + SoftI2c.BytesWrites(DataFrame(data[..i])) + SoftI2c.ByteWrites(data[i])
  {
    assert DataFrame(data[..i + 1]) == DataFrame(data[..i]) + [data[i]];
    SoftI2c.BytesWritesSnoc(DataFrame(data[..i]), data[i]);
  }

  /** The bytes SoftOLED_SetCursor computes from the clamped page and column are the cursor commands. */
  lemma ClampedCommands(x: nat, page: nat, p: nat, c: nat)
    requires p == ClampPage(page) && c == ClampColumn(x)
    ensures CursorCommands(x, page) == [0xB0 | p as byte, 0x00 | (c as byte & 0x0F), 0x10 | ((c as byte >> 4) & 0x0F)]
  {
  }

  /** Three command transactions carrying the cursor commands, in order, are the cursor move. */
  lemma CursorWrites(x: nat, page: nat, cmds: seq<byte>, w1: seq<SoftI2c.PinWrite>, w2: seq<SoftI2c.PinWrite>,
                     w3: seq<SoftI2c.PinWrite>)
    requires cmds == CursorCommands(x, page)
    requires w1 == SoftI2c.FrameWrites(CommandFrame(cmds[0]))
    requires w2 == SoftI2c.FrameWrites(CommandFrame(cmds[1]))
    requires w3 == SoftI2c.FrameWrites(CommandFrame(cmds[2]))
    ensures w1 + w2 + w3 == OpTransmission(DisplayOp.SetCursor(x, page))
  {
  }

  /**
   * SoftOLED_SetCursor: page and column clamped to 7 and 127, then page
   * start, low nibble and high nibble, each its own transaction; the bytes
   * are the cursor commands of the hardware driver.
   */
  method SetCursor(x: Uint8, page: Uint8) returns (writes: seq<SoftI2c.PinWrite>)
    ensures writes == OpTransmission(DisplayOp.SetCursor(x, page))
  {
    var p := page;
    var c := x;
    if p > 7 {
      p := 7;
    }
    if c > 127 {
      c := 127;
    }
    var w1 := WriteCmd(0xB0 | p as byte);
    var w2 := WriteCmd(0x00 | (c as byte & 0x0F));
    var w3 := WriteCmd(0x10 | ((c as byte >> 4) & 0x0F));
    writes := w1 + w2 + w3;
    ClampedCommands(x, page, p, c);
    CursorWrites(x, page, CursorCommands(x, page), w1, w2, w3);
  }

  /** SoftOLED_Clear: for each page 0..7 the cursor at (0, page), then one block of 128 zero bytes. */
  method Clear() returns (writes: seq<SoftI2c.PinWrite>)
    ensures writes == Transmission(ClearOps(TopPage))
  {
    var zeroBuf := Zeros(Columns);
    writes := [];
    var i := TopPage;
    ghost var total := Transmission(ClearOps(i));
    while i < PageCount
      invariant i <= PageCount
      invariant writes + Transmission(ClearOps(i)) == total
    {
      writes := ClearPage(i, zeroBuf, writes, total);
      i := i + 1;
    }
  }

  /** One pass of SoftOLED_Clear's page loop: the cursor at (0, page), then the zero buffer as one block. */
  method ClearPage(page: nat, zeroBuf: seq<byte>, before: seq<SoftI2c.PinWrite>, ghost total: seq<SoftI2c.PinWrite>)
    returns (writes: seq<SoftI2c.PinWrite>)
    requires page < PageCount && zeroBuf == Zeros(Columns)
    requires before + Transmission(ClearOps(page)) == total
    ensures writes + Transmission(ClearOps(page + 1)) == total
  {
    var cursor := SetCursor(0, page);
    var block := WriteDataBlock(zeroBuf);
    ClearStep(page);
    Seqs.Associate(before, cursor + block, Transmission(ClearOps(page + 1)));
    writes := before + (cursor + block);
  }

  /**
   * The glyph SoftOLED_ShowChar draws: that of c, or of ' ' (index 0) when c
   * is not printable.
   */
  function SoftGlyph(c: char, font: FontSize, t: FontTables): (g: Glyph)
    requires WellFormed(t) && font != OtherFont
    ensures GlyphShape(g) && (g.width, g.pages) == Dimensions(font)
    ensures g.bytes == Table(t, font)[GlyphIndex(c, Blank)]
    ensures GlyphChar(GlyphIndex(c, Blank)) == if ' ' <= c <= '~' then c else ' '
  {
    Lookup(c, font, t, Blank)
  }

  /**
   * SoftOLED_ShowChar: nothing for an unknown font value; otherwise nothing
   * when the glyph would cross the right edge or the bottom, and else, for
   * each page p of the glyph, the cursor at (x, page + p) and then row p.
   */
  method ShowChar(x: Uint8, page: Uint8, c: char, font: FontSize, t: FontTables) returns (writes: seq<SoftI2c.PinWrite>)
    requires WellFormed(t)
    ensures font == OtherFont ==> writes == []
    ensures font != OtherFont ==> writes == Transmission(CharOps(x, page, SoftGlyph(c, font, t)))
  {
    writes := [];
    if font == OtherFont {
      return;
    }
    var g := SoftGlyph(c, font, t);
    if x + g.width > 128 {
      return;
    }
    if page + g.pages > 8 {
      return;
    }
    writes := DrawRows(x, page, g);
  }

  /** The page loop of SoftOLED_ShowChar, for a glyph that fits. */
  method DrawRows(x: Uint8, page: Uint8, g: Glyph) returns (writes: seq<SoftI2c.PinWrite>)
    requires GlyphShape(g) && Fits(x, page, g)
    ensures writes == Transmission(RowOps(x, page, g, 0))
  {
    ghost var total := Transmission(RowOps(x, page, g, 0));
    writes := [];
    var p := 0;
    while p < g.pages
      invariant p <= g.pages
      invariant writes + Transmission(RowOps(x, page, g, p)) == total
    {
      writes := DrawRow(x, page, g, p, writes, total);
      p := p + 1;
    }
  }

  /** One pass of SoftOLED_ShowChar's page loop: the cursor at (x, page + p), then row p as one block. */
  method DrawRow(x: Uint8, page: Uint8, g: Glyph, p: nat, before: seq<SoftI2c.PinWrite>, ghost total: seq<SoftI2c.PinWrite>)
    returns (writes: seq<SoftI2c.PinWrite>)
    requires GlyphShape(g) && Fits(x, page, g) && p < g.pages
    requires before + Transmission(RowOps(x, page, g, p)) == total
    ensures writes + Transmission(RowOps(x, page, g, p + 1)) == total
  {
    var row := Row(g, p);
    assert |row| == g.width <= Columns;
    var cursor := SetCursor(x, page + p);
    var block := WriteDataBlock(row);
    RowStep(x, page, g, p);
    Seqs.Associate(before, cursor + block, Transmission(RowOps(x, page, g, p + 1)));
    writes := before + (cursor + block);
  }

  /** SoftOLED_ShowString's pin writes for the placed characters, in font f. */
  function StringTransmission(ps: seq<Placement>, f: FontSize, t: FontTables): seq<SoftI2c.PinWrite>
    requires WellFormed(t) && f != OtherFont
  {
    Transmission(StringOps(ps, f, t, Blank))
  }

  lemma StringTransmissionSnoc(ps: seq<Placement>, p: Placement, f: FontSize, t: FontTables)
    requires WellFormed(t) && f != OtherFont
    ensures StringTransmission(ps + [p], f, t) ==
      StringTransmission(ps, f, t) + Transmission(CharOps(p.x, p.page, Lookup(p.c, f, t, Blank)))
  {
    StringOpsSnoc(ps, p, f, t, Blank);
    TransmissionAppend(StringOps(ps, f, t, Blank), CharOps(p.x, p.page, Lookup(p.c, f, t, Blank)));
  }

  /**
   * The drawing step of SoftOLED_ShowString: ShowChar at (x, page), appended
   * to what was sent for the characters placed before.
   */
  method DrawNext(ghost placed: seq<Placement>, x: Uint8, page: Uint8, c: char, font: FontSize, t: FontTables,
                  before: seq<SoftI2c.PinWrite>) returns (writes: seq<SoftI2c.PinWrite>)
    requires WellFormed(t) && font != OtherFont
    requires before == StringTransmission(placed, font, t)
    ensures writes == StringTransmission(placed + [Placement(x, page, c)], font, t)
  {
    var drawn := ShowChar(x, page, c, font, t);
    StringTransmissionSnoc(placed, Placement(x, page, c), font, t);
    writes := before + drawn;
  }

  /**
   * SoftOLED_ShowString: nothing for an unknown font value; otherwise the
   * font's width and height in pages, newlines, wrapping at the right edge
   * and the stop at the bottom follow `Layout`, and each placed character is
   * drawn by ShowChar.
   */
  method ShowString(x: Uint8, page: Uint8, s: seq<char>, font: FontSize, t: FontTables) returns (writes: seq<SoftI2c.PinWrite>)
    requires WellFormed(t)
    ensures font == OtherFont ==> writes == []
    ensures font != OtherFont ==>
      writes == StringTransmission(Layout(x, page, s, Dimensions(font).0, Dimensions(font).1), font, t)
  {
    var w: Uint8, h: Uint8;
    match font {
      case Font6X8 => w, h := 6, 1;
      case Font6X12 => w, h := 6, 2;
      case Font8X16 => w, h := 8, 2;
      case Font12X24 => w, h := 12, 3;
      case OtherFont => return [];
    }
    writes := PlaceString(x, page, s, font, w, h, t);
  }

  /** SoftOLED_ShowString's character loop, given the font's width and height in pages. */
  method PlaceString(x: Uint8, page: Uint8, s: seq<char>, font: FontSize, w: Uint8, h: Uint8, t: FontTables)
    returns (writes: seq<SoftI2c.PinWrite>)
    requires WellFormed(t) && font != OtherFont && (w, h) == Dimensions(font)
    ensures writes == StringTransmission(Layout(x, page, s, w, h), font, t)
  {
    ghost var placed: seq<Placement> := [];
    ghost var all := Layout(x, page, s, w, h);
    ghost var stopped := false;
    var cx: Uint8, cp: Uint8 := x, page;
    writes := [];
    var i := 0;
    while i < |s| && s[i] != '\0'
      invariant i <= |s| && !stopped
      invariant placed + Layout(cx, cp, s[i..], w, h) == all
      invariant writes == StringTransmission(placed, font, t)
    {
      var stop: bool;
      stop, writes, placed, cx, cp, i := LoopPass(placed, cx, cp, s, i, font, w, h, t, all, writes);
      if stop {
        stopped := true;
        break;
      }
    }
    if !stopped {
      ResumeAtEnd(placed, cx, cp, s, i, w, h, all);
    }
  }

  /**
   * One pass of SoftOLED_ShowString's loop at character i: a newline moves
   * down a text line (`continue`); otherwise a wrap if the character would
   * cross the right edge, then either the stop at the bottom (`break`,
   * reported as `stop`) or the drawing pass.
   */
  method LoopPass(ghost placed: seq<Placement>, x: Uint8, page: Uint8, s: seq<char>, i: nat, font: FontSize,
                  w: Uint8, h: Uint8, t: FontTables, ghost all: seq<Placement>, before: seq<SoftI2c.PinWrite>)
    returns (stop: bool, writes: seq<SoftI2c.PinWrite>, ghost placed': seq<Placement>, x': Uint8, page': Uint8, i': nat)
    requires WellFormed(t) && font != OtherFont && (w, h) == Dimensions(font)
    requires i < |s| && s[i] != '\0'
    requires placed + Layout(x, page, s[i..], w, h) == all
    requires before == StringTransmission(placed, font, t)
    ensures writes == StringTransmission(placed', font, t)
    ensures stop ==> placed' == all
    ensures !stop ==> i' == i + 1 && placed' + Layout(x', page', s[i'..], w, h) == all
  {
    if s[i] == '\n' {
      ResumeNewline(placed, x, page, s, i, w, h, all);
      return false, before, placed, 0, NextLine(page, h), i + 1;
    }
    var cx, cp := x, page;
    if cx + w > 128 {
      ResumeWrap(placed, cx, cp, s, i, w, h, all);
      cx := 0;
      cp := NextLine(cp, h);
    }
    if cp + h > 8 {
      ResumeStop(placed, cx, cp, s, i, w, h, all);
      return true, before, placed, cx, cp, i;
    }
    writes, placed', x' := PlaceNext(placed, cx, cp, s, i, font, w, h, t, all, before);
    stop, page', i' := false, cp, i + 1;
  }

  /** The drawing pass of SoftOLED_ShowString's loop: ShowChar at (x, page), then x advances by the width. */
  method PlaceNext(ghost placed: seq<Placement>, x: Uint8, page: Uint8, s: seq<char>, i: nat, font: FontSize,
                   w: Uint8, h: Uint8, t: FontTables, ghost all: seq<Placement>, before: seq<SoftI2c.PinWrite>)
    returns (writes: seq<SoftI2c.PinWrite>, ghost placed': seq<Placement>, x': Uint8)
    requires WellFormed(t) && font != OtherFont && (w, h) == Dimensions(font)
    requires i < |s| && s[i] != '\0' && s[i] != '\n'
    requires x + w <= Columns && page + h <= PageCount
    requires placed + Layout(x, page, s[i..], w, h) == all
    requires before == StringTransmission(placed, font, t)
    ensures x' == (x + w) % 256 && placed' == placed + [Placement(x, page, s[i])]
    ensures placed' + Layout(x', page, s[i + 1..], w, h) == all
    ensures writes == StringTransmission(placed', font, t)
  {
    writes := DrawNext(placed, x, page, s[i], font, t, before);
    ResumeDraw(placed, x, page, s, i, w, h, all);
    placed' := placed + [Placement(x, page, s[i])];
    x' := (x + w) % 256;
  }

  /** A display on an idle bus receives exactly the transactions of the requests, in order. */
  lemma DisplayReceives(ops: seq<DisplayOp>)
    ensures SoftI2c.Run(SoftI2c.Idle([]), Transmission(ops)) == SoftI2c.Idle(Frames(ops))
  {
    TransmissionIsWire(ops);
    SoftI2c.WireDelivers([], Frames(ops));
    assert [] + Frames(ops) == Frames(ops);
  }

  /**
   * A cursor move arrives as three one-command transactions whose commands,
   * executed in order, leave the write position at the clamped column and
   * page whatever it was before.
   */
  lemma CursorFramesLand(ptr: Pointer, x: nat, page: nat)
    ensures var f := OpFrames(DisplayOp.SetCursor(x, page));
      |f| == 3 &&
      (forall i :: 0 <= i < 3 ==> |f[i]| == 3 && f[i][0] == Address && f[i][1] == CommandMode) &&
      Execute(ptr, [f[0][2], f[1][2], f[2][2]]) == Pointer(ClampColumn(x) as byte, ClampPage(page) as byte)
  {
    var cmds := CursorCommands(x, page);
    assert [cmds[0], cmds[1], cmds[2]] == cmds;
    CursorLands(ptr, x, page);
  }

  /** The glyph chosen for a printable character does not depend on the fallback index. */
  lemma {:induction false} FallbackUnused(ps: seq<Placement>, f: FontSize, t: FontTables, fallback1: nat, fallback2: nat)
    requires WellFormed(t) && f != OtherFont && fallback1 < GlyphCount && fallback2 < GlyphCount
    requires forall i :: 0 <= i < |ps| ==> ' ' <= ps[i].c <= '~'
    ensures StringOps(ps, f, t, fallback1) == StringOps(ps, f, t, fallback2)
    decreases |ps|
  {
    if ps != [] {
      assert GlyphIndex(ps[0].c, fallback1) == GlyphIndex(ps[0].c, fallback2);
      FallbackUnused(ps[1..], f, t, fallback1, fallback2);
    }
  }

  /**
   * For a known font and a string whose characters before the NUL are all
   * printable or newlines, both drivers place the same characters at the
   * same positions and ask the display for the same cursor moves and data;
   * they differ only in the transport and, for other characters, in the
   * replacement glyph ('?' for the hardware driver, ' ' here).
   */
  lemma DriversAgree(x: Uint8, page: Uint8, s: seq<char>, font: FontSize, t: FontTables)
    requires WellFormed(t) && font != OtherFont
    requires forall i :: 0 <= i < |Visible(s)| ==> ' ' <= Visible(s)[i] <= '~'
    ensures var (w, h) := Dimensions(font);
      var ps := Layout(x, page, s, w, h);
      StringOps(ps, font, t, Blank) == StringOps(ps, Oled.Effective(font), t, Oled.QuestionMark)
  {
    var (w, h) := Dimensions(font);
    var ps := Layout(x, page, s, w, h);
    LayoutDrawsVisiblePrefix(x, page, s, w, h);
    forall i | 0 <= i < |ps|
      ensures ' ' <= ps[i].c <= '~'
    {
      CharsAt(ps, i);
      assert Visible(s)[i] == ps[i].c;
    }
    FallbackUnused(ps, font, t, Blank, Oled.QuestionMark);
  }
}
