/**
 * The SSD1306 controller as both OLED drivers address it: its 8-bit I2C
 * address, the control bytes that tell commands from display data, and the
 * three page-addressing-mode commands that place the GDDRAM write pointer
 * (SSD1306 datasheet, section 10.1: 0x00-0x0F lower column nibble, 0x10-0x1F
 * higher column nibble, 0xB0-0xB7 page). `Execute` is the controller's side
 * of those commands; `CursorCommands` is the drivers' side.
 */
module Ssd1306 {

  type byte = bv8

  /** A uint8_t coordinate or count. */
  type Uint8 = n: nat | n < 256

  /** 8-bit I2C address of the display (0x3C shifted left by one). */
  const Address: byte := 0x78
  /** Control byte: the bytes that follow are commands. */
  const CommandMode: byte := 0x00
  /** Control byte: the bytes that follow are GDDRAM data. */
  const DataMode: byte := 0x40

  /** The panel is 128 columns by 8 pages of 8 pixel rows. */
  const Columns: nat := 128
  const PageCount: nat := 8
  const TopPage: nat := 0

  /** The command bytes the controller gives meaning to here; every other byte is some other command. */
  datatype Command =
    | SetLowColumn(nibble: byte)
    | SetHighColumn(nibble: byte)
    | SetPageStart(page: byte)
    | OtherCommand(code: byte)

  function DecodeCommand(b: byte): Command
  {
    if b <= 0x0F then SetLowColumn(b)
    else if b <= 0x1F then SetHighColumn(b & 0x0F)
    else if 0xB0 <= b <= 0xB7 then SetPageStart(b & 0x07)
    else OtherCommand(b)
  }

  /** The controller's GDDRAM write position in page addressing mode. */
  datatype Pointer = Pointer(column: byte, page: byte)

  /** The write position after the controller has executed one command byte. */
  function Apply(ptr: Pointer, cmd: byte): Pointer
  {
    match DecodeCommand(cmd)
    case SetLowColumn(n) => ptr.(column := (ptr.column & 0xF0) | n)
    case SetHighColumn(n) => ptr.(column := (n << 4) | (ptr.column & 0x0F))
    case SetPageStart(p) => ptr.(page := p)
    case OtherCommand(_) => ptr
  }

  /** The write position after the controller has executed `cmds` in order. */
  function Execute(ptr: Pointer, cmds: seq<byte>): Pointer
    decreases |cmds|
  {
    if cmds == [] then ptr else Execute(Apply(ptr, cmds[0]), cmds[1..])
  }

  /** The last column and the last page of the panel: larger requests are clamped to them. */
  function ClampColumn(x: nat): (c: nat)
    ensures c < Columns && (x < Columns ==> c == x)
  {
    if x > 127 then 127 else x
  }

  function ClampPage(page: nat): (p: nat)
    ensures p < PageCount && (page < PageCount ==> p == page)
  {
    if page > 7 then 7 else page
  }

  /** The page start command, then the lower and the higher nibble of the column. */
  function CursorBytes(p: byte, c: byte): (cmds: seq<byte>)
    ensures |cmds| == 3
  {
    [0xB0 | p, 0x00 | (c & 0x0F), 0x10 | ((c >> 4) & 0x0F)]
  }

  /** The three commands both drivers send to set the cursor, after clamping. */
  function CursorCommands(x: nat, page: nat): (cmds: seq<byte>)
    ensures |cmds| == 3
    ensures 0xB0 <= cmds[0] <= 0xB7 && cmds[1] <= 0x0F && 0x10 <= cmds[2] <= 0x1F
  {
    var p := ClampPage(page) as byte;
    CommandRanges(p, ClampColumn(x) as byte);
    CursorBytes(p, ClampColumn(x) as byte)
  }

  /** The three cursor bytes fall in the page, low-column and high-column command ranges. */
  lemma CommandRanges(p: byte, c: byte)
    requires p <= 7
    ensures var cmds := CursorBytes(p, c);
      0xB0 <= cmds[0] <= 0xB7 && cmds[1] <= 0x0F && 0x10 <= cmds[2] <= 0x1F
  {
  }

  /** A page start command for a page below 8 moves the write pointer to that page. */
  lemma PageCommand(ptr: Pointer, p: byte)
    requires p <= 7
    ensures Apply(ptr, 0xB0 | p) == ptr.(page := p)
  {
    assert DecodeCommand(0xB0 | p) == SetPageStart(p);
  }

  /** The lower-nibble command replaces the lower four bits of the column. */
  lemma LowColumnCommand(ptr: Pointer, c: byte)
    ensures Apply(ptr, 0x00 | (c & 0x0F)) == ptr.(column := (ptr.column & 0xF0) | (c & 0x0F))
  {
    assert DecodeCommand(0x00 | (c & 0x0F)) == SetLowColumn(c & 0x0F);
  }

  /** After the lower nibble of c is in place, the higher-nibble command completes the column. */
  lemma HighColumnCommand(ptr: Pointer, c: byte)
    requires ptr.column & 0x0F == c & 0x0F
    ensures Apply(ptr, 0x10 | ((c >> 4) & 0x0F)) == ptr.(column := c)
  {
    assert DecodeCommand(0x10 | ((c >> 4) & 0x0F)) == SetHighColumn((c >> 4) & 0x0F);
    assert (((c >> 4) & 0x0F) << 4) | (ptr.column & 0x0F) == c;
  }

  /** The three cursor commands for page p and column c, executed in order. */
  lemma ExecuteCursor(ptr: Pointer, p: byte, c: byte)
    requires p <= 7
    ensures Execute(ptr, CursorBytes(p, c)) == Pointer(c, p)
  {
    var cmds := CursorBytes(p, c);
    var p1 := Apply(ptr, cmds[0]);
    var p2 := Apply(p1, cmds[1]);
    PageCommand(ptr, p);
    LowColumnCommand(p1, c);
    HighColumnCommand(p2, c);
    assert Execute(ptr, cmds) == Execute(p1, cmds[1..]);
    assert Execute(p1, cmds[1..]) == Execute(p2, cmds[2..]);
    assert Execute(p2, cmds[2..]) == Execute(Apply(p2, cmds[2]), []);
  }

  /**
   * Whatever the write position was, the cursor commands leave it at the
   * clamped column and page: the two nibbles recombine to the column.
   */
  lemma CursorLands(ptr: Pointer, x: nat, page: nat)
    ensures Execute(ptr, CursorCommands(x, page)) == Pointer(ClampColumn(x) as byte, ClampPage(page) as byte)
  {
    var p := ClampPage(page) as byte;
    var c := ClampColumn(x) as byte;
    assert p <= 7;
    ExecuteCursor(ptr, p, c);
  }
}
