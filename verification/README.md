# MCU-Driver-Hub: DMA printf ring buffer and SSD1306 OLED drivers, in Dafny

This project models two pieces of an STM32 driver collection.

**The DMA transmit engine behind printf** (`dma_fifo_print.c`). A handle
holds a 1024-byte buffer, a write cursor `head`, a read cursor `tail` and a
busy flag.
- `DMA_Printf_Push` copies bytes in. It keeps one slot free and drops what
  does not fit.
- `DMA_Try_Transmit` starts one DMA transfer over the contiguous unread span
  at `tail`.
- The transfer-complete callback advances `tail` by the reported length,
  clears busy and tries again.

The handle is the class `DmaFifoPrint.DmaPrint`. Its buffer is an `array`,
and `Push`, `CopyIn`, `TryTransmit` and `TxCpltCallback` update it in place.
The UART is an oracle class, `Uart`, that logs every
`HAL_UART_Transmit_DMA` request and accepts or rejects it. The cursor
arithmetic (unread count, free room, span length, which bytes are unread)
lives in the pure module `RingSpan`. Ghost fields record every accepted
byte and every byte whose transfer has completed. The invariant
`Consistent` says that everything accepted has been sent or is still
unread, in order, and that a transfer in flight reads the oldest unread
bytes without crossing the end of the buffer.

**The SSD1306 OLED drivers** (`Oled.c` over hardware I2C, `soft_oled.c`
over bit-banged I2C). Both drivers share the following models:
- `Ssd1306`: the controller's cursor commands (0xB0–0xB7 page, 0x00–0x0F
  low and 0x10–0x1F high column nibble, section 10.1 of the SSD1306
  datasheet) and their effect on the GDDRAM write pointer;
- `Font`: the fonts as abstract tables of the right shape;
- `TextLayout`: where ShowString places each character (newline, wrap at
  the right edge, stop at the bottom, uint8_t page wrap-around);
- `Drawing`: the display requests (cursor moves and data blocks) that
  Clear, ShowChar and ShowString make.

`Oled` turns those requests into HAL I2C calls. `SoftOled` turns them into
pin writes through `SoftI2c`, which models `I2C_SendByte`, START, STOP and
the acknowledge clock. `SoftI2c` also has a receiver that samples SDA on
SCL rising edges, and the model proves that this receiver gets back
exactly the transactions sent. The drivers' loops (`I2C_SendByte`,
`SoftOLED_WriteDataBlock`, the page loops of Clear and ShowChar, and the
character loop of ShowString) are methods with loop invariants. Each is
proved against the pure function that specifies its output.

Where the two drivers differ, the model follows each one's code:
- Out-of-range characters: `Oled.c` draws `'?'` and `soft_oled.c` draws `' '`.
- Unknown font value: `Oled.c` falls back to 6x8, while `soft_oled.c` draws nothing.
- Cursor packets: `Oled.c` sends one four-byte packet, while `soft_oled.c`
  sends three separate command transactions.

`page += h` in ShowString is uint8_t arithmetic and wraps modulo 256. The
model keeps that wrap and has no precondition on it.

The buffer comment in `dma_fifo_print.h` asks for a power-of-two size. The
code only uses `%`, so the model relies on nothing but the constant 1024.

## Model

| member | source | states |
|---|---|---|
| RingSpan.Count | dma_fifo_print/dma_fifo_print.c:33-35 | the unread count is below the buffer size and is zero exactly when head == tail |
| RingSpan.CountReachesHead | dma_fifo_print/dma_fifo_print.c:93 | advancing tail by the unread count lands on head |
| RingSpan.Room | dma_fifo_print/dma_fifo_print.c:67-71 | free room plus unread count is SIZE-1 (one slot reserved); room is zero exactly when the next head would equal tail |
| RingSpan.SpanLength | dma_fifo_print/dma_fifo_print.c:37-47 | the transfer length is positive, at most the unread count, never crosses the buffer end, and covers all unread bytes exactly when they do not wrap |
| RingSpan.UnreadAppend | dma_fifo_print/dma_fifo_print.c:71-73 | storing a byte at head and advancing head appends exactly that byte to the unread bytes |
| RingSpan.SpanIsOldest | dma_fifo_print/dma_fifo_print.c:53-55 | the bytes a transfer reads from tail are the oldest unread bytes |
| RingSpan.AdvanceConsumes | dma_fifo_print/dma_fifo_print.c:93 | advancing tail by n drops exactly the oldest n unread bytes |
| RingSpan.DrainDeliversUnread | dma_fifo_print/dma_fifo_print.c:87-101 | with completions reporting the requested length, draining takes at most two transfers (two exactly when the data wraps), none crosses the end, and they read exactly the unread bytes in order |
| DmaFifoPrint.Uart.TransmitDma | dma_fifo_print/dma_fifo_print.c:53-55 | a DMA start is logged as (offset, length, accepted) and, when accepted, moves buf[offset..offset+length] |
| DmaFifoPrint.BookkeptAppend | dma_fifo_print/dma_fifo_print.c:64-82 | adding bytes to both the accepted and unread bytes keeps the sent/unread/in-flight bookkeeping |
| DmaFifoPrint.CompletionKeepsBookkeeping | dma_fifo_print/dma_fifo_print.c:87-101 | a completion reporting the in-flight length moves exactly the in-flight bytes from unread to sent |
| DmaFifoPrint.DmaPrint.Init | dma_fifo_print/dma_fifo_print.c:15-20 | after init head == tail == 0, not busy, no unread bytes, bookkeeping consistent |
| DmaFifoPrint.DmaPrint.TryTransmit | dma_fifo_print/dma_fifo_print.c:26-59 | busy or empty: no request and no change; otherwise one request at tail of SpanLength bytes, busy exactly when accepted; bookkeeping preserved |
| DmaFifoPrint.DmaPrint.CopyIn | dma_fifo_print/dma_fifo_print.c:64-78 | the copy loop stores the first min(len, room) bytes in order after the unread ones, moves head by that many, leaves tail alone |
| DmaFifoPrint.DmaPrint.StoreByte | dma_fifo_print/dma_fifo_print.c:68-73 | one byte stored at head, head advanced mod SIZE, room down by one, unread bytes extended by that byte |
| DmaFifoPrint.DmaPrint.Push | dma_fifo_print/dma_fifo_print.c:64-82 | stores the in-order prefix that fits and drops the rest, leaves tail and the sent bytes alone, then behaves as TryTransmit; preserves the bookkeeping |
| DmaFifoPrint.DmaPrint.TxCpltCallback | dma_fifo_print/dma_fifo_print.c:87-101 | no change when idle; otherwise tail advanced by the reported length mod SIZE, the in-flight bytes counted as sent, then TryTransmit; when the length matches the request the bookkeeping holds and the unread bytes lose exactly that many from the front |
| DmaFifoPrint.Write | dma_fifo_print/dma_fifo_print.c:122-125 | _write pushes len mod 65536 bytes (uint16_t narrowing) and returns the full len |
| Ssd1306.ClampColumn | OLED/Oled.c:69 | the column is below 128 and unchanged when already below 128 |
| Ssd1306.ClampPage | OLED/Oled.c:68 | the page is below 8 and unchanged when already below 8 |
| Ssd1306.CursorCommands | OLED/Oled.c:68-80 | the cursor is three command bytes computed from the clamped page and column: a page command 0xB0-0xB7, a low-column command 0x00-0x0F and a high-column command 0x10-0x1F (CursorLands gives their effect) |
| Ssd1306.CommandRanges | OLED/Oled.c:78-80 | for a page below 8, the three bytes fall in the page, low-column and high-column command ranges |
| Ssd1306.PageCommand | OLED/Oled.c:78 | 0xB0 \| p sets the controller's page to p |
| Ssd1306.LowColumnCommand | OLED/Oled.c:79 | x & 0x0F replaces the low nibble of the column |
| Ssd1306.HighColumnCommand | OLED/Oled.c:80 | 0x10 \| (x >> 4 & 0x0F) supplies the high nibble, so both nibbles recombine to x |
| Ssd1306.ExecuteCursor | OLED/Oled.c:76-80 | the three cursor bytes put the write pointer at (column, page) from any start |
| Ssd1306.CursorLands | OLED/Oled.c:66-84 | the cursor commands leave the pointer at the clamped column and page |
| Font.Dimensions | OLED/soft_oled.c:233-238 | each font's width is 6..12 columns and its height 1..3 pages; the (width, pages) pairs are those of both drivers' font switches, and SoftOled.ShowString's contract checks its own switch against them |
| Font.GlyphIndex | OLED/Oled.c:40-43 | a printable character maps to the index of that character, anything else to the fallback index |
| Font.Lookup | OLED/soft_oled.c:201-213 | the looked-up glyph has the font's width and height and width * pages bytes |
| Font.Row | OLED/Oled.c:152 | row p of a glyph is width bytes long |
| TextLayout.Layout | OLED/Oled.c:167-188 | the placements ShowString's loop hands to ShowChar; never more than the characters of the string (the lemmas below give bounds, order, spacing and newline behaviour) |
| TextLayout.ResumeAtEnd | OLED/Oled.c:167 | ShowString's loop ends at the NUL or the end of the string with every placement made |
| TextLayout.ResumeNewline | OLED/Oled.c:169-174 | a newline places nothing and continues at column 0 one text line down |
| TextLayout.ResumeWrap | OLED/Oled.c:177-180 | a character crossing the right edge continues at column 0 one text line down |
| TextLayout.ResumeStop | OLED/Oled.c:183 | a character whose line crosses the bottom ends the layout |
| TextLayout.ResumeDraw | OLED/Oled.c:185-187 | a character that fits is placed and x advances by the width (mod 256) |
| TextLayout.LayoutPlaces | OLED/Oled.c:176-187 | a printable character after wrapping (if needed) and fitting is the next placement |
| TextLayout.LayoutInBounds | OLED/Oled.c:177-183 | every character handed to ShowChar fits: x + w <= 128 and page + h <= 8 |
| TextLayout.LayoutDrawsVisiblePrefix | OLED/Oled.c:167-188 | the placed characters are a prefix of the non-newline characters before the NUL, so at most strlen many |
| TextLayout.LayoutSpacing | OLED/Oled.c:177-187 | the first character is at the start position or at x == 0; each later one is exactly w to the right of the one before on the same page, or is at column x == 0 |
| TextLayout.LayoutSingleLine | OLED/Oled.c:185-187 | a newline-free string that fits on one line is placed at x, x+w, x+2w, ... on the starting page |
| TextLayout.LinesDownWraps | OLED/Oled.c:171 | n line steps move the page by n * h modulo 256 |
| TextLayout.NewlinesMoveDown | OLED/Oled.c:169-173 | n newlines draw nothing and move to column 0, n text lines down |
| TextLayout.NewlinesAdvancePage | OLED/Oled.c:169-173 | a run of n newlines sets x = 0 and the page to (page + n*h) mod 256, without any check |
| Drawing.RowOps | OLED/Oled.c:147-153 | the page loop from page p on makes two requests per remaining page of the glyph |
| Drawing.CharOps | OLED/Oled.c:143-153 | ShowChar makes 2 * pages requests when the glyph fits and none otherwise |
| Drawing.ClearOps | OLED/Oled.c:91-95 | Clear from a page on makes two requests per remaining page, none past the last page |
| Drawing.StringOps | OLED/Oled.c:185 | ShowString's requests are ShowChar's for each placement in turn, at most six (two per page of a glyph of at most three pages) per placement |
| Drawing.RowOpsShape | OLED/Oled.c:147-153 | the page loop alternates cursor (x, page + p) and data row p, two requests per page |
| Drawing.RowOpsPayload | OLED/Oled.c:147-153 | the data rows from page p on are exactly the glyph bytes from p * width on |
| Drawing.CharOpsShape | OLED/Oled.c:143-153 | ShowChar requests nothing when the glyph crosses the right edge or bottom; otherwise the alternating cursor/row requests |
| Drawing.CharOpsFull | OLED/Oled.c:143-153 | a glyph that fits is sent whole: 2 * pages requests whose data is the glyph bytes |
| Drawing.ClearOpsShape | OLED/Oled.c:86-96 | Clear alternates cursor (0, page) and 128 zero bytes for each remaining page |
| Drawing.ClearOpAt | OLED/Oled.c:86-96 | request k of Clear from a page on is the cursor (0, page + k / 2) for even k and a row of 128 zero bytes for odd k |
| Drawing.ClearOpsPayload | OLED/Oled.c:88-95 | Clear writes 128 zero bytes per remaining page and nothing else |
| Drawing.StringOpsSnoc | OLED/Oled.c:185 | placing one more character appends ShowChar's requests for it |
| Drawing.StringOpsCount | OLED/Oled.c:143-153 | when every placement fits, ShowString makes 2 * h requests per character |
| Drawing.StringOpsPayload | OLED/Oled.c:143-153 | when every placement fits, the data written is the glyphs of the placed characters in order |
| Drawing.StringOpsUnclipped | OLED/Oled.c:183-186 | no placed character is clipped: request count and data as above |
| Oled.Effective | OLED/Oled.c:55-56 | an unknown font value is treated as 6x8; known fonts are kept |
| Oled.GetAsciiGlyph | OLED/Oled.c:38-60 | the glyph is the table entry of c or of '?' for non-printables, with the effective font's width and height |
| Oled.CursorPacket | OLED/Oled.c:76-83 | OLED_SetCursor's call is one HAL_I2C_Master_Transmit to the display of four bytes, the first the command control byte 0x00 |
| Oled.DataWrite | OLED/Oled.c:26-33 | OLED_WriteData's call is one HAL_I2C_Mem_Write to the display at memory address 0x40 carrying exactly the given bytes |
| Oled.CursorPacketLands | OLED/Oled.c:66-84 | OLED_SetCursor sends one 4-byte packet: control byte 0x00 then commands that put the pointer at the clamped column and page |
| Oled.Clear | OLED/Oled.c:86-96 | the HAL calls are the clear requests' packets, in order |
| Oled.ClearPage | OLED/Oled.c:92-94 | one loop pass sends the cursor packet for (0, page) and the 128 zero bytes, the next part of Clear's calls |
| Oled.ShowChar | OLED/Oled.c:133-154 | the HAL calls are ShowChar's requests for the glyph, nothing when it does not fit |
| Oled.DrawRows | OLED/Oled.c:147-153 | the page loop's HAL calls are the row requests of the glyph |
| Oled.DrawRow | OLED/Oled.c:148-152 | one loop pass sends the cursor packet for (x, page + p) and row p, the next part of the page loop's calls |
| Oled.StringTransfersSnoc | OLED/Oled.c:185 | drawing one more character appends ShowChar's HAL calls |
| Oled.DrawNext | OLED/Oled.c:185-187 | one drawing step appends ShowChar's HAL calls for the placed character |
| Oled.ShowString | OLED/Oled.c:159-189 | the HAL calls are those for Layout with the metrics of the effective font |
| Oled.PlaceString | OLED/Oled.c:167-188 | ShowString's loop sends exactly the HAL calls for the layout of the string |
| Oled.PlaceNext | OLED/Oled.c:185-187 | the drawing pass of the loop: ShowChar's calls for the character appended, the character placed at (x, page), x advanced by the width mod 256 |
| Oled.ShowStringDrawsWholeGlyphs | OLED/Oled.c:159-189 | every placed character is drawn whole, data is the placed characters' glyphs in order, and those characters are a prefix of the visible ones |
| SoftI2c.SendBitStep | OLED/soft_oled.c:71-80 | one loop pass adds the writes of the next bit MSB first |
| SoftI2c.ShiftedLeftIsShift | OLED/soft_oled.c:76 | after i passes the working byte is b << i |
| SoftI2c.TopBit | OLED/soft_oled.c:71 | bit 7 of the shifted byte is bit 7 - i of the original |
| SoftI2c.SendByte | OLED/soft_oled.c:66-83 | the pin writes are the 8 bits MSB first, one SCL pulse each, then the acknowledge clock |
| SoftI2c.FrameOfThree | OLED/soft_oled.c:90-97 | START, three bytes and STOP form the frame of those three bytes |
| SoftI2c.ShiftInPrefix | OLED/soft_oled.c:66-83 | shifting in all eight bits equals shifting in the rest after the register already holds the first k |
| SoftI2c.ShiftInByteBits | OLED/soft_oled.c:66-83 | shifting in the 8 sent bits reassembles the byte |
| SoftI2c.ReceivedAll | OLED/soft_oled.c:66-83 | after all eight bits the receiver's shift register holds the byte sent |
| SoftI2c.BytesOfSampled | OLED/soft_oled.c:66-83 | grouping sampled bits by 9 (8 data, 1 acknowledge) recovers the bytes sent |
| SoftI2c.RunBit | OLED/soft_oled.c:71-80 | a receiver samples exactly one bit, the SDA value, per bit sent |
| SoftI2c.RunBits | OLED/soft_oled.c:69-81 | the receiver samples the bits sent, in order |
| SoftI2c.RunByte | OLED/soft_oled.c:53-83 | a byte yields its 8 bits and the released acknowledge bit |
| SoftI2c.RunBytes | OLED/soft_oled.c:120-122 | a run of bytes yields 9 sampled bits per byte |
| SoftI2c.RunStart | OLED/soft_oled.c:27-35 | START from an idle bus opens a frame with SCL held low |
| SoftI2c.RunStop | OLED/soft_oled.c:40-47 | STOP closes the frame and leaves the bus idle |
| SoftI2c.RunFrame | OLED/soft_oled.c:115-124 | a START, bytes, STOP transaction delivers exactly those bytes as one frame |
| SoftI2c.WireDelivers | OLED/soft_oled.c:90-124 | a receiver gets back exactly the frames sent, in order |
| SoftOled.WriteCmd | OLED/soft_oled.c:90-97 | the writes are the frame 0x78, 0x00, cmd |
| SoftOled.WriteData | OLED/soft_oled.c:102-109 | the writes are the frame 0x78, 0x40, data |
| SoftOled.WriteDataBlock | OLED/soft_oled.c:115-124 | the writes are one frame 0x78, 0x40, then the len data bytes in order |
| SoftOled.FramesReceived | OLED/soft_oled.c:90-124 | a receiver decodes a command transaction as 0x78, 0x00, cmd and a data transaction as 0x78, 0x40, then the data bytes |
| SoftOled.BlockHeader | OLED/soft_oled.c:117-119 | START, address and control byte are the block's frame up to its data |
| SoftOled.BlockStep | OLED/soft_oled.c:120-122 | each data byte sent extends the block frame by that byte |
| SoftOled.ClampedCommands | OLED/soft_oled.c:174-179 | the three commands come from the clamped page and column |
| SoftOled.CursorWrites | OLED/soft_oled.c:177-179 | three one-command frames make up the cursor request's transmission |
| SoftOled.SetCursor | OLED/soft_oled.c:172-180 | the writes are three command frames with the clamped cursor commands |
| SoftOled.CursorFramesLand | OLED/soft_oled.c:172-180 | the three frames are addressed command frames whose commands put the pointer at the clamped column and page |
| SoftOled.OpTransmissionIsWire | OLED/soft_oled.c:172-189 | a request's writes are the bus transactions of its frames |
| SoftOled.TransmissionIsWire | OLED/soft_oled.c:182-189 | a request sequence's writes are the transactions of all its frames |
| SoftOled.DisplayReceives | OLED/soft_oled.c:90-124 | a display on an idle bus receives exactly the requests' frames in order |
| SoftOled.ClearStep | OLED/soft_oled.c:185-188 | each page's cursor and data writes come first in the clear transmission |
| SoftOled.ClearPage | OLED/soft_oled.c:186-187 | one loop pass sends the cursor and 128 zero bytes for its page |
| SoftOled.Clear | OLED/soft_oled.c:182-189 | the writes are the clear requests' transmission |
| SoftOled.SoftGlyph | OLED/soft_oled.c:196-213 | the glyph is the entry of c, or of ' ' for non-printables, with the font's width and height |
| SoftOled.RowStep | OLED/soft_oled.c:222-226 | each glyph page's cursor and data writes come first in the row transmission |
| SoftOled.DrawRow | OLED/soft_oled.c:223-225 | one loop pass sends the cursor (x, page + p) and row p |
| SoftOled.DrawRows | OLED/soft_oled.c:222-226 | the page loop sends the glyph's row requests |
| SoftOled.ShowChar | OLED/soft_oled.c:191-227 | nothing for an unknown font; otherwise ShowChar's requests for the glyph, nothing when it does not fit |
| SoftOled.StringTransmissionSnoc | OLED/soft_oled.c:256 | drawing one more character appends ShowChar's writes |
| SoftOled.DrawNext | OLED/soft_oled.c:256-258 | one drawing step appends ShowChar's writes for the placed character |
| SoftOled.ShowString | OLED/soft_oled.c:229-260 | nothing for an unknown font; otherwise the writes for Layout with the font's metrics |
| SoftOled.PlaceString | OLED/soft_oled.c:241-259 | the character loop sends exactly the writes for the layout of the string |
| SoftOled.LoopPass | OLED/soft_oled.c:242-258 | one pass of the loop: a newline, a wrap, the stop at the bottom (reported as stop, with every placement made) or the drawing pass; the writes so far are always those of the placements so far, and without a stop the rest of the string lays out to the same placements |
| SoftOled.PlaceNext | OLED/soft_oled.c:256-258 | the drawing pass of the loop: ShowChar's writes for the character appended, the character placed at (x, page), x advanced by the width mod 256 |
| SoftOled.FallbackUnused | OLED/soft_oled.c:197-198 | for printable characters the replacement glyph index makes no difference |
| SoftOled.DriversAgree | OLED/soft_oled.c:229-260 | for a known font and printable text, both drivers make the same cursor and data requests |

## Left out

- Interrupts: on hardware the callback can preempt Push. Here Push, TryTransmit and the callback are atomic steps, and `volatile` is not modelled.
- HAL calls become trace values or the `Uart` oracle. Their timeouts and return values are not modelled, except the HAL_OK test in `DMA_Try_Transmit`. The I2C HAL results are ignored by the source too.
- `DMA_Printf_TxCpltCallback`'s `sent_len` (huart->TxXferSize) is a parameter.
- DmaFifoPrint.DmaPrint.TxCpltCallback: the bookkeeping is proved to hold only when the reported length equals the requested one. For any other length, only the cursor bounds are proved.
- Printf redirection: `fputc` (the Keil branch) and the global `g_dma_print_handle` are not modelled. Of `_write`, the length narrowing and the return value are kept.
- `OLED_Init`, `SoftOLED_Init` and `OLED_WriteCommand` (used only by `OLED_Init`) are left out. They send fixed power-on command lists with GPIO and delay set-up, and there is nothing to prove about them.
- `OLED_Printf` and `SoftOLED_Printf` are left out, because they depend on libc `vsnprintf`. Only the resulting string reaches ShowString, which is modelled.
- The contents of the glyph tables are abstract. `font.h` is not part of this model: each table is any sequence of 95 glyphs of the right size.
- Oled.ShowChar: the `if (!glyph) return;` guard is not modelled, because a table lookup always yields a glyph.
- `delay_us` and `HAL_Delay` are left out: the soft driver's waits between pin writes are timing, not logic. `Delay_us/delay_us.c` is not part of this model.
- SoftI2c.SendByte: the acknowledge bit is clocked but never read, as in `I2C_WaitAck`. The receiver model samples it and ignores it.
- A C string is a `seq<char>` that ends at its first NUL or at the end of the sequence. Each Dafny `char` stands for one C `char`, that is one byte with a code below 256, so the printable range test gives the same answer whether C's `char` is signed or unsigned. A code point above 0xFF has no C counterpart: in C such a character arrives as several bytes, each drawn as its own fallback glyph.
