# Interrupt-driven parts of a Nios II web server, verified

A Dafny model of six stateful parts of the web server and its board support
package. In each of them something fast, interrupt-driven or 32 bits wide has to
agree with a simple ideal, and the theorems here say how far it does.

`dafny verify dfyconfig.toml` checks everything.

| files | component | ideal |
|---|---|---|
| `LcdTerminal`, `LcdStreams`, `LcdScroll`, `LcdDriver`, `LcdPanel` | LCD panel driver | a terminal that reads one byte at a time, lines of text, and a panel repainted in full |
| `JtagUart` | JTAG UART rings | two FIFO streams |
| `Alarms`, `AlarmTraps` | alarm service | an unbounded clock |
| `TcpChecksum`, `TcpPacket`, `TcpReceive`, `TcpModel`, `TcpIsolation`, `TcpServer` | hand-written TCP server | a protocol machine and receivers that verify checksums |
| `FdPool` | file descriptor pool | a table scanned in full |
| `LogPrintf`, `TimeOfDay` | integer formatter, time of day | parsing, and elapsed microseconds |
| `Words`, `Division` | machine words, division lemmas | |

Code that updates state in place is a class whose methods are proved against
functions on values; the laws are lemmas about those functions and over whole
runs of them. Unsigned types of the source are subset types, and every
wrap-around is written out.

**Interrupts.** A `Preempt` method stands for any number of interrupts at one
point of the foreground code. It is called between the steps at which shared
state is read or written: between the bytes of a memcpy into the ring, between
moving an index and setting an enable bit, between an address command and the
data that follows it.

**Hardware** is extra state beside the source's fields: the LCD controller's memory and address counter
(a panel may stop answering at any access), the UART's FIFOs and what the host
sent and collected, and the frames handed to the Ethernet MAC. The UART is
assumed to raise a read interrupt only when enabled and holding a character, a
write interrupt only when enabled and with space, both at moments of its own
choice, and to report no remaining characters when it had none to give.

**Spin loops** on hardware get a `patience` bound and report when it runs out;
nothing is claimed about how long the hardware takes.

## Where the code does not do what one would expect

Each of these is proved, with the exact condition where there is one.

- `alt_fd_lock` is documented to refuse a lock when another descriptor refers to
  the device. Its scan stops one short of the high-water mark, so it misses
  exactly the descriptor at the mark (`LockGrant`, `LockMissesTopDescriptor`).
  What its documentation says about later opens does hold (`LockExcludesOpens`).
- An alarm started with the longest interval, 2^32 - 1, fires on the next tick
  unless the counter is at its last value (`StartedAlarmIsExact`).
- `settimeofday` multiplies in 32 bits. Its header comment promises that an
  immediate `gettimeofday` returns the time set; that holds if and only if the
  overflow of the product is a multiple of 15625 (`RoundTripExactly`). Tick rates
  that do not divide 10^6 show a wrong time (`RateMustDivide`).
- The page has an odd length of 619 bytes, so its checksum covers one byte past
  the data. That byte of the transmit buffer is never written and is 0, and only
  because of that do the page's frames verify (`FrameVerifies`, `EveryFrameVerifies`).
- The server acknowledges a bare acknowledgement one too high, and a segment
  with both data and FIN one too low (`AnswerAcknowledges`), in FIN_WAIT too
  (`FinWaitAck`). The FIN of an idle connection acknowledges the last data twice
  over, less one (`IdleFin`).
- All frames pass through one receive buffer that nothing clears, and the handler
  reads from it without asking how long the frame was. Frames that are not the
  peer's change nothing about a connection if each of the peer's segments brings
  64 bytes after its fixed TCP header (`ForeignFramesAreInvisible`). They show in
  the copied bytes of the record for every shorter request (`RecordShowsBuffer`,
  `ShortRequestShowsStray`), and decide whether the page is sent when a segment
  brings only a beginning of GET and announces more (`StrayDecides`); with any
  other segments they decide nothing (`ForeignFramesShowOnlyInPayload`). The
  answer to a SYN, too, repeats up to twelve such bytes (`SynShowsBuffer`).
- The page and every acknowledgement of an established connection are sent with
  the sequence number already used by the SYN; only a FIN that answers a FIN
  carries the next one (`AnswerSequence`, `RunNumbers`, `PageRepeatsSynNumber`).
- The receive handler sets a global restart flag while the timer reads a field of
  its own record, so traffic never restarts the seconds (`TrafficKeepsSeconds`).
  The timer compares for equality, so a state entered with its limit already
  passed is never ended by it (`SilenceCloses`): a connection established in the
  tenth second or later is not closed for idleness, and if it asks for the page
  after a minute the server stays in FIN_WAIT (`LateRequestBlocks`).
- The erase sequence writes to the line below the last one when the cursor is
  parked there. Streams that do this are excluded by `SafeFeed`, and
  `OneUnsafeStream` is one of them.
- The LCD cursor column is eight bits wide and comes round after 256 characters
  (`ColumnWraps`).
- The end of a repaint pass compares scroll positions, which misses whole cycles
  of callbacks (`MissedExactlyWholeCycles`), and every scrolling text has a
  position where that leaves a wrong picture (`OverlookedCycle`); hence the
  condition on `Write`.
- A UART write of zero bytes returns an error code, in either mode (`Write`).
- `fcntl` sets flags on descriptors that are not open. They are lost when the
  entry is claimed, even by an open that fails (`OpenSpec`, `LeftFlagsAreLost`).
- Starting an alarm that is already in the list cuts the list off from its head,
  so that the next tick does not end (`LoopAfterRestart`), and a callback that
  stops the alarm that comes next has the same effect on the tick under way,
  since a stopped alarm points at itself (`LoopOnStopped`), unless a callback
  opens the loop again; `StopInTrap` and `StartInTrap` say exactly which stops and
  starts do. `Tick` is about ticks without either.

## Model

| member | source | states |
|---|---|---|
| `LcdDriver.Lcd.Write` | tcp_webserver/software/tcp_webserver_bsp/drivers/src/altera_avalon_lcd_16207.c:349-520 | for every interleaving with the timer callback: the terminal ends up as the character-by-character semantics says, the scrolling parameters are those of the resulting text, and a finished write during whose last pass fewer than `scrollmax` callbacks came leaves every visible cell equal to the rendering at the current scroll position; as long as the panel answers, the controller's own memory displays the text: rows at 0x00 and 0x40, a line that fits as it stands, a longer one turned, with one blank, by half the scroll position if it is the longest |
| `LcdDriver.Lcd.RepaintScreen` | tcp_webserver/software/tcp_webserver_bsp/drivers/src/altera_avalon_lcd_16207.c:227-265 | the differential repaint equals a full repaint: afterwards each cell holds the rendering at the position read at the start, and the driver's copy of the panel and of its address counter is still exact, in spite of skipped cells, skipped address commands and a panel that may stop answering |
| `LcdDriver.Lcd.PaintRow` | tcp_webserver/software/tcp_webserver_bsp/drivers/src/altera_avalon_lcd_16207.c:240-263 | one row of the above; the other rows keep what they showed |
| `LcdDriver.Lcd.PaintCell` | tcp_webserver/software/tcp_webserver_bsp/drivers/src/altera_avalon_lcd_16207.c:250-262 | the cell shows `c`, all others are untouched, and copy and panel agree again |
| `LcdDriver.Lcd.PointAt` | tcp_webserver/software/tcp_webserver_bsp/drivers/src/altera_avalon_lcd_16207.c:252-258 | afterwards the controller's counter is at the target, whether or not a command was needed; no character changes |
| `LcdDriver.Lcd.WriteCommand` | tcp_webserver/software/tcp_webserver_bsp/drivers/src/altera_avalon_lcd_16207.c:137-167 | the controller executes the command, or the driver marks the panel broken and the controller sees nothing; broken is for ever |
| `LcdDriver.Lcd.WriteData` | tcp_webserver/software/tcp_webserver_bsp/drivers/src/altera_avalon_lcd_16207.c:171-203 | the character goes to the counter's cell and the mirrored address moves with the counter, or the panel is marked broken and neither changes |
| `LcdDriver.Lcd.Timeout` | tcp_webserver/software/tcp_webserver_bsp/drivers/src/altera_avalon_lcd_16207.c:531-546 | the position moves round its cycle; while the foreground is active the panel, its copy and its address are untouched; otherwise the controller's memory displays the text at the new position |
| `LcdDriver.Lcd.Preempt` | tcp_webserver/software/tcp_webserver_bsp/drivers/src/altera_avalon_lcd_16207.c:541-543 | any number of callbacks at one point: invisible to an active foreground, and a display that was up to date stays up to date when it is not active |
| `LcdDriver.Lcd.RepaintPass` | tcp_webserver/software/tcp_webserver_bsp/drivers/src/altera_avalon_lcd_16207.c:494-511 | if the pass ends with the position it began with and fewer than a cycle of callbacks came, the display is up to date and the timer has the display back |
| `LcdDriver.Lcd.RepaintUntilQuiet` | tcp_webserver/software/tcp_webserver_bsp/drivers/src/altera_avalon_lcd_16207.c:490-511 | passes repeat until one ends quietly; `active` is cleared exactly then |
| `LcdDriver.WriteInParts` | tcp_webserver/software/tcp_webserver_bsp/drivers/src/altera_avalon_lcd_16207.c:349-430 | two drivers in the same terminal state, one written a and then b, the other a + b, end with the same text, cursor, escape state, widths, speeds and `scrollmax`, for every split and whatever callbacks fall in each |
| `LcdDriver.OverlookedCycle` | tcp_webserver/software/tcp_webserver_bsp/drivers/src/altera_avalon_lcd_16207.c:494-511 | every text that scrolls has a position from which a pass goes wrong unnoticed: with one callback of a cycle before the repaint reads the position and the others after it, the final comparison sees the saved position and the panel shows another picture, so the bound of `Write` is needed |
| `LcdDriver.LastCellMatters` | tcp_webserver/software/tcp_webserver_bsp/drivers/src/altera_avalon_lcd_16207.c:494-511 | that position is the one where the longest line is about to show its trailing blank |
| `LcdDriver.OneCallbackEarly` | tcp_webserver/software/tcp_webserver_bsp/drivers/src/altera_avalon_lcd_16207.c:494-511 | for any position within its cycle: one callback before the position is read and all but one of a cycle after it lead back to the saved position |
| `LcdDriver.MissedExactlyWholeCycles` | tcp_webserver/software/tcp_webserver_bsp/drivers/src/altera_avalon_lcd_16207.c:505-506 | for any starting position, including a stale one beyond `scrollmax`, the comparison of positions overlooks callbacks if and only if a whole number of cycles passed |
| `LcdDriver.NextNIs` | tcp_webserver/software/tcp_webserver_bsp/drivers/src/altera_avalon_lcd_16207.c:536-539 | k callbacks move the position by k modulo `scrollmax`; a stale position restarts the cycle at 0 |
| `LcdDriver.Lcd.StillScreen` | tcp_webserver/software/tcp_webserver_bsp/drivers/src/altera_avalon_lcd_16207.c:456-457 | with nothing to scroll every position gives the same picture |
| `LcdDriver.Lcd.PanelShows` | tcp_webserver/software/tcp_webserver_bsp/drivers/src/altera_avalon_lcd_16207.c:243-262 | a correct copy that shows the rendering means that the controller's memory holds it |
| `LcdDriver.RowsAreDisplayed` | tcp_webserver/software/tcp_webserver_bsp/drivers/src/altera_avalon_lcd_16207.c:240-263 | what the repaint leaves in the controller's memory, told in characters of the text and addresses of the panel: each row is the beginning of a line that fits, or a longer line turned by k cells with one blank added, where k is half the position for the longest line |
| `LcdDriver.MovingRow` | tcp_webserver/software/tcp_webserver_bsp/drivers/src/altera_avalon_lcd_16207.c:240-248 | a line that has to scroll is turned by its share of the longest line's turn, to within two cells |
| `LcdDriver.Lcd.InView` | tcp_webserver/software/tcp_webserver_bsp/drivers/src/altera_avalon_lcd_16207.c:240-263 | the same for the panel of a driver, as long as it answers |
| `LcdPanel.ShowLines` | tcp_webserver/software/tcp_webserver_bsp/drivers/src/altera_avalon_lcd_16207.c:349-520 | lines of text written to a fresh display: after the write has come to rest, the panel's two rows hold the last two lines, padded with blanks, when these fit |
| `LcdDriver.Lcd.Recalculate` | tcp_webserver/software/tcp_webserver_bsp/drivers/src/altera_avalon_lcd_16207.c:432-488 | the scrolling parameters are the function of the text alone that the layout lemmas are about, and every one fits its 8-bit field |
| `LcdDriver.Lcd.SetSpeeds` | tcp_webserver/software/tcp_webserver_bsp/drivers/src/altera_avalon_lcd_16207.c:456-488 | speeds for the longest width, and no scrolling when everything fits |
| `LcdDriver.Lcd.MeasureLines` | tcp_webserver/software/tcp_webserver_bsp/drivers/src/altera_avalon_lcd_16207.c:433-454 | both widths, and the larger of them and the panel's |
| `LcdDriver.Lcd.MeasureLine` | tcp_webserver/software/tcp_webserver_bsp/drivers/src/altera_avalon_lcd_16207.c:436-450 | the width of a line as the layout defines it |
| `LcdDriver.Lcd.UsedWidth` | tcp_webserver/software/tcp_webserver_bsp/drivers/src/altera_avalon_lcd_16207.c:437-439 | the scan from the right finds the last non-blank cell |
| `LcdDriver.Lcd.PutAll` | tcp_webserver/software/tcp_webserver_bsp/drivers/src/altera_avalon_lcd_16207.c:367-430 | a stream leaves the terminal of the pure semantics, whatever callbacks come between its characters |
| `LcdDriver.Lcd.PutChar` | tcp_webserver/software/tcp_webserver_bsp/drivers/src/altera_avalon_lcd_16207.c:371-429 | one character refines one step of the pure terminal and keeps the mirror of the panel |
| `LcdDriver.Lcd.PutEscape` | tcp_webserver/software/tcp_webserver_bsp/drivers/src/altera_avalon_lcd_16207.c:371-393 | the collecting and terminating branches of the escape parser, inside the eight-byte buffer |
| `LcdDriver.Lcd.PutPrintable` | tcp_webserver/software/tcp_webserver_bsp/drivers/src/altera_avalon_lcd_16207.c:418-429 | a printable character refines the pure step, scrolling first when the cursor is parked below |
| `LcdDriver.Lcd.HandleEscape` | tcp_webserver/software/tcp_webserver_bsp/drivers/src/altera_avalon_lcd_16207.c:286-345 | a complete sequence has its one effect and never reads past the terminator in the buffer |
| `LcdDriver.Lcd.ReadParms` | tcp_webserver/software/tcp_webserver_bsp/drivers/src/altera_avalon_lcd_16207.c:288-304 | the two digit loops compute the two parameters of the pure parser |
| `LcdDriver.Lcd.MoveCursor` | tcp_webserver/software/tcp_webserver_bsp/drivers/src/altera_avalon_lcd_16207.c:310-320 | cursor motion with its clamp and scrolling loop |
| `LcdDriver.Lcd.EraseToEnd` | tcp_webserver/software/tcp_webserver_bsp/drivers/src/altera_avalon_lcd_16207.c:338-342 | only the cells from the cursor to column 79 of the cursor's line become blank |
| `LcdDriver.Lcd.ScrollUp` | tcp_webserver/software/tcp_webserver_bsp/drivers/src/altera_avalon_lcd_16207.c:269-282 | 80 columns move up one row, the last row is blank, the spare column of each line stays |
| `LcdDriver.Lcd.ClearScreen` | tcp_webserver/software/tcp_webserver_bsp/drivers/src/altera_avalon_lcd_16207.c:207-223 | text, copy and controller are blank and agree, from any earlier state of the controller |
| `LcdDriver.Lcd.constructor` | tcp_webserver/software/tcp_webserver_bsp/drivers/src/altera_avalon_lcd_16207.c:553-605 | after initialisation the invariant holds and the blank terminal is shown |
| `LcdScroll.OffsetStaysInside` | tcp_webserver/software/tcp_webserver_bsp/drivers/src/altera_avalon_lcd_16207.c:241-243 | within a cycle the fixed-point offset of a scrolling line is below its width, so the guard against larger ones never acts |
| `LcdScroll.LongestLineTwice` | tcp_webserver/software/tcp_webserver_bsp/drivers/src/altera_avalon_lcd_16207.c:241 | the longest line shows offset k at exactly the two positions 2k and 2k+1 of its cycle |
| `LcdScroll.CycleEnd` | tcp_webserver/software/tcp_webserver_bsp/drivers/src/altera_avalon_lcd_16207.c:474 | every scrolling line ends the cycle one or two cells short of a full turn |
| `LcdScroll.OffsetTracks` | tcp_webserver/software/tcp_webserver_bsp/drivers/src/altera_avalon_lcd_16207.c:464-474 | in 8-bit fixed point, the offset of every scrolling line is its exact share of the cycle to within two cells |
| `LcdScroll.FieldsFit` | tcp_webserver/software/tcp_webserver_bsp/drivers/src/altera_avalon_lcd_16207.c:450-474 | widths, speeds and `scrollmax` of any text fit their 8-bit fields |
| `LcdScroll.Width` | tcp_webserver/software/tcp_webserver_bsp/drivers/src/altera_avalon_lcd_16207.c:436-448 | a width is 16 or 18 to 81, never 0 or 17, and a line that scrolls ends in a blank column when the spare column is blank |
| `LcdScroll.Used` | tcp_webserver/software/tcp_webserver_bsp/drivers/src/altera_avalon_lcd_16207.c:437-439 | all cells beyond the used length are blank and the one before its end is not |
| `LcdTerminal.Step` | tcp_webserver/software/tcp_webserver_bsp/drivers/src/altera_avalon_lcd_16207.c:365-430 | after every character the cursor is on a line or just below the last, the escape count stays within its buffer and the spare column stays blank |
| `LcdTerminal.SplitIsInvisible` | tcp_webserver/software/tcp_webserver_bsp/drivers/src/altera_avalon_lcd_16207.c:367-393 | a stream is safe if and only if its two parts are, one after the other, and the parts leave what the whole leaves, even when the cut falls inside an escape sequence; `WriteInParts` carries this to the driver |
| `LcdTerminal.SequenceActsOnce` | tcp_webserver/software/tcp_webserver_bsp/drivers/src/altera_avalon_lcd_16207.c:371-393 | an escape sequence changes nothing but its own buffer until its last character, then acts once on the parameters spelled by the first seven characters kept |
| `LcdTerminal.MoveSequenceMoves` | tcp_webserver/software/tcp_webserver_bsp/drivers/src/altera_avalon_lcd_16207.c:286-320 | printing `ESC [ row ; column H`, or `f`, has the effect of the two numbers, for all digit strings that fit the buffer |
| `LcdTerminal.CursorPosition` | tcp_webserver/software/tcp_webserver_bsp/drivers/src/altera_avalon_lcd_16207.c:286-320 | rows 1 to 3 and columns 1 to 256 put the cursor at (row-1, column-1) and leave the text alone |
| `LcdTerminal.NumberReads` | tcp_webserver/software/tcp_webserver_bsp/drivers/src/altera_avalon_lcd_16207.c:293-301 | the digit loop reads exactly the decimal value of the digits up to the first other character |
| `LcdTerminal.PrintedRun` | tcp_webserver/software/tcp_webserver_bsp/drivers/src/altera_avalon_lcd_16207.c:418-429 | printable text of any length, from any cursor position: a parked cursor scrolls first, the cursor moves by the length modulo 256, each of the 80 columns holds the last character that reached it, and columns not reached keep theirs |
| `LcdTerminal.ColumnWraps` | tcp_webserver/software/tcp_webserver_bsp/drivers/src/altera_avalon_lcd_16207.c:425-428 | the 8-bit column comes round: the 257th character of a line overwrites its first and leaves the others |
| `LcdTerminal.SafeWithoutErase` | tcp_webserver/software/tcp_webserver_bsp/drivers/src/altera_avalon_lcd_16207.c:367-430 | a stream without an erase sequence never leaves the line buffers |
| `LcdTerminal.OneUnsafeStream` | tcp_webserver/software/tcp_webserver_bsp/drivers/src/altera_avalon_lcd_16207.c:338-341 | two line feeds and `ESC K` do leave them: the erase indexes the line below the last one |
| `LcdStreams.LastTwoLines` | tcp_webserver/software/tcp_webserver_bsp/drivers/src/altera_avalon_lcd_16207.c:367-430 | any number of lines of printable text, separated by line feeds and written to a blank terminal, leave the last two on the panel, padded with blanks, and the cursor after the last; after a final line feed the text has not moved yet and the cursor waits below it |
| `LcdStreams.LineFeedShows` | tcp_webserver/software/tcp_webserver_bsp/drivers/src/altera_avalon_lcd_16207.c:402-412 | the step of the above: from the second row on, a line feed parks the cursor or moves the text up |
| `LcdStreams.PrintsAt` | tcp_webserver/software/tcp_webserver_bsp/drivers/src/altera_avalon_lcd_16207.c:418-429 | text that fits replaces exactly the cells from the cursor on and moves the cursor behind it |
| `LcdStreams.CarriageReturn` | tcp_webserver/software/tcp_webserver_bsp/drivers/src/altera_avalon_lcd_16207.c:398-401 | a carriage return and more text: the new text stands over the beginning of the line and the rest of the line stays |
| `LcdStreams.Backspace` | tcp_webserver/software/tcp_webserver_bsp/drivers/src/altera_avalon_lcd_16207.c:413-417 | one cell back, and not beyond the left edge; no cell changes |
| `LcdStreams.BackspaceReplaces` | tcp_webserver/software/tcp_webserver_bsp/drivers/src/altera_avalon_lcd_16207.c:413-429 | a character, a backspace and another character leave what the other alone would have left |
| `LcdStreams.ClearSequence` | tcp_webserver/software/tcp_webserver_bsp/drivers/src/altera_avalon_lcd_16207.c:322-331 | `ESC [ 2 J` leaves both lines blank and the cursor at their beginning; with any other number only the parser's buffer changes |
| `LcdStreams.EraseSequence` | tcp_webserver/software/tcp_webserver_bsp/drivers/src/altera_avalon_lcd_16207.c:333-344 | `ESC [ K` and `ESC [ 0 K` leave blanks from the cursor to the end of its line and nothing else changed, any other number changes nothing; the stream stays inside the lines if and only if nothing is erased or the cursor is on a line |
| `LcdStreams.ShortSequence` | tcp_webserver/software/tcp_webserver_bsp/drivers/src/altera_avalon_lcd_16207.c:379-387 | of the sequences without a bracket only `ESC K` acts, as `ESC [ K` does |
| `LcdStreams.MoveSequenceCells` | tcp_webserver/software/tcp_webserver_bsp/drivers/src/altera_avalon_lcd_16207.c:308-320 | the cell and the text after `ESC [ row ; column H`, or `f`, for all numbers: both count from one modulo 256, zero leaves its coordinate alone, the fourth row moves the text up by one line and any later one by two |
| `JtagUart.Uart.Write` | tcp_webserver/software/tcp_webserver_bsp/drivers/src/altera_avalon_jtag_uart_write.c:83-215 | with the interrupt handler at every step in between: a positive result is the length of exactly the accepted prefix; the call accepts everything or at least as much as there was room for when it began; a finished call returns an error if and only if nothing was accepted, which a write of zero bytes always does; a short count means non-blocking mode or a host that was inactive at the last look; transmission is enabled on return while the ring holds anything |
| `JtagUart.Uart.Fill` | tcp_webserver/software/tcp_webserver_bsp/drivers/src/altera_avalon_jtag_uart_write.c:102-127 | the copying loop accepts a prefix, all of it or at least as much as there was room for, and stops early only when the ring is full as of its last look at `out` |
| `JtagUart.Uart.FillAndEnable` | tcp_webserver/software/tcp_webserver_bsp/drivers/src/altera_avalon_jtag_uart_write.c:102-139 | after copying, and an interruption before the enable bit is set, no accepted byte is lost and none waits without an interrupt; a short count still means a ring that was seen full |
| `JtagUart.Uart.CopyIn` | tcp_webserver/software/tcp_webserver_bsp/drivers/src/altera_avalon_jtag_uart_write.c:122-126 | a run placed by memcpy and published becomes the end of the queue, byte for byte, although the handler advances `out` meanwhile |
| `JtagUart.Uart.PutByte` | tcp_webserver/software/tcp_webserver_bsp/drivers/src/altera_avalon_jtag_uart_write.c:122 | copying into the gap never disturbs a queued byte |
| `JtagUart.Uart.MoveTxIn` | tcp_webserver/software/tcp_webserver_bsp/drivers/src/altera_avalon_jtag_uart_write.c:126 | publishing the index accepts exactly the bytes just copied |
| `JtagUart.Uart.EnableTransmit` | tcp_webserver/software/tcp_webserver_bsp/drivers/src/altera_avalon_jtag_uart_write.c:136-139 | closes the window in which a non-empty ring has no interrupt enabled |
| `JtagUart.Uart.AwaitDrain` | tcp_webserver/software/tcp_webserver_bsp/drivers/src/altera_avalon_jtag_uart_write.c:183-184 | the spin loop ends with space or with the host timed out |
| `Ring.WriterRoom` | tcp_webserver/software/tcp_webserver_bsp/drivers/src/altera_avalon_jtag_uart_write.c:109-114 | the writer's three-way computation never exceeds the free space or the end of the buffer, and is zero only when the ring is full |
| `Ring.Publish` | tcp_webserver/software/tcp_webserver_bsp/drivers/src/altera_avalon_jtag_uart_write.c:122-126 | advancing `in` over a filled run appends exactly that run to the queue |
| `Ring.FreeSlotIsNotQueued` | tcp_webserver/software/tcp_webserver_bsp/drivers/src/altera_avalon_jtag_uart_write.c:122 | writing an unoccupied slot leaves the queue unchanged |
| `Ring.RunIsFree` | tcp_webserver/software/tcp_webserver_bsp/drivers/src/altera_avalon_jtag_uart_write.c:106-122 | the slots the writer is about to fill are unoccupied |
| `JtagUart.Uart.Read` | tcp_webserver/software/tcp_webserver_bsp/drivers/src/altera_avalon_jtag_uart_read.c:100-203 | with the interrupt handler at every step in between: the bytes returned are the next ones of the stream, in order and without loss, and they are at least everything that was queued when the call began, or fill the buffer; the result is their number or the documented error; an empty blocking result means a host timed out; reception is enabled again on return |
| `JtagUart.Uart.Drain` | tcp_webserver/software/tcp_webserver_bsp/drivers/src/altera_avalon_jtag_uart_read.c:120-142 | the copying loop reads as much as there is: the whole queue as it was at the start, and what came in meanwhile until the ring is seen empty, or up to `space` |
| `JtagUart.Uart.CopyOut` | tcp_webserver/software/tcp_webserver_bsp/drivers/src/altera_avalon_jtag_uart_read.c:136-140 | a run copied out is the oldest part of the queue although the handler appends meanwhile, and the queue loses nothing else |
| `JtagUart.Uart.MoveRxOut` | tcp_webserver/software/tcp_webserver_bsp/drivers/src/altera_avalon_jtag_uart_read.c:140 | publishing the index removes exactly the oldest bytes |
| `JtagUart.Uart.EnableReceive` | tcp_webserver/software/tcp_webserver_bsp/drivers/src/altera_avalon_jtag_uart_read.c:191-194 | closes the window in which the ring has room and no interrupt is enabled |
| `JtagUart.Uart.AwaitArrival` | tcp_webserver/software/tcp_webserver_bsp/drivers/src/altera_avalon_jtag_uart_read.c:173-174 | the spin loop ends with a new character or with the host timed out |
| `Ring.ReaderRun` | tcp_webserver/software/tcp_webserver_bsp/drivers/src/altera_avalon_jtag_uart_read.c:125-128 | the reader's run is contiguous, queued, and zero only when the ring is empty |
| `Ring.Consume` | tcp_webserver/software/tcp_webserver_bsp/drivers/src/altera_avalon_jtag_uart_read.c:136-140 | advancing `out` over a run removes exactly that run from the front of the queue |
| `Ring.RunIsQueued` | tcp_webserver/software/tcp_webserver_bsp/drivers/src/altera_avalon_jtag_uart_read.c:136 | each slot the reader copies holds the queued byte of that rank |
| `JtagUart.Uart.Irq` | tcp_webserver/software/tcp_webserver_bsp/drivers/src/altera_avalon_jtag_uart_init.c:106-197 | the handler goes on until the device asks for no enabled interrupt that it has cause for, ends, keeps both streams lossless and in order, and leaves each interrupt enabled while there is work for it |
| `JtagUart.Uart.Receive` | tcp_webserver/software/tcp_webserver_bsp/drivers/src/altera_avalon_jtag_uart_init.c:125-167 | characters move from the device to the end of the ring until the device has none, which leaves reception on, or the ring is full, which turns it off |
| `JtagUart.Uart.TakeArrived` | tcp_webserver/software/tcp_webserver_bsp/drivers/src/altera_avalon_jtag_uart_init.c:137-150 | a character is only taken from the device when it can be stored, and then it is stored |
| `JtagUart.Uart.StoreReceived` | tcp_webserver/software/tcp_webserver_bsp/drivers/src/altera_avalon_jtag_uart_init.c:149-150 | the character becomes the end of the receive queue |
| `JtagUart.Uart.Transmit` | tcp_webserver/software/tcp_webserver_bsp/drivers/src/altera_avalon_jtag_uart_init.c:169-195 | exactly as many of the oldest characters go to the device as it has space for or the ring holds; transmission goes off if and only if space was left |
| `JtagUart.Uart.SendOne` | tcp_webserver/software/tcp_webserver_bsp/drivers/src/altera_avalon_jtag_uart_init.c:176-183 | exactly the oldest queued character goes to the device |
| `JtagUart.Uart.TakeForDevice` | tcp_webserver/software/tcp_webserver_bsp/drivers/src/altera_avalon_jtag_uart_init.c:176-178 | the oldest character leaves the ring |
| `JtagUart.Uart.Preempt` | tcp_webserver/software/tcp_webserver_bsp/drivers/src/altera_avalon_jtag_uart_init.c:106-225 | an interruption at any point of the foreground code keeps the whole invariant, sends only queued bytes and only appends to the receive queue |
| `JtagUart.Uart.constructor` | tcp_webserver/software/tcp_webserver_bsp/drivers/src/altera_avalon_jtag_uart_init.c:66-100 | after initialisation nothing is queued, reception is on and transmission off |
| `JtagUart.Uart.QueueLengths` | tcp_webserver/software/tcp_webserver_bsp/drivers/src/altera_avalon_jtag_uart_init.c:137-139 | at most LEN-1 characters are ever queued in either ring |
| `AlarmService.Service.Tick` | tcp_webserver/software/tcp_webserver_bsp/HAL/src/alt_tick.c:87-141 | callbacks may start any alarm that is not listed but their own and stop any, their own included, but the one that comes next: every alarm of the old list that is still in its place has been visited exactly once, newly started ones stand at the front and wait for the next tick, the rest keep their order, nothing else leaves the list than alarms whose callback returned zero or that were stopped, and every member is on its exact schedule |
| `AlarmService.Service.Walk` | tcp_webserver/software/tcp_webserver_bsp/HAL/src/alt_tick.c:100-141 | the loop ends at the head, from any list, whatever callbacks do to it |
| `AlarmService.Service.CountTick` | tcp_webserver/software/tcp_webserver_bsp/HAL/src/alt_tick.c:90-96 | the counter moves by one, modulo 2^32, and the loop begins at the first alarm |
| `AlarmService.Service.VisitNext` | tcp_webserver/software/tcp_webserver_bsp/HAL/src/alt_tick.c:100-141 | one turn leaves the loop at the first alarm that is still listed and was not yet visited |
| `AlarmService.Service.Callback` | tcp_webserver/software/tcp_webserver_bsp/HAL/src/alt_tick.c:117 | any number of actions of a callback keep the list linked, the order of what stays, and the schedule of every alarm they do not start |
| `AlarmService.Service.Act` | tcp_webserver/software/tcp_webserver_bsp/HAL/src/alt_tick.c:117 | one such action; a callback may stop its own alarm and still return a period |
| `AlarmService.Service.Fire` | tcp_webserver/software/tcp_webserver_bsp/HAL/src/alt_tick.c:109-139 | polling the alarm and running its callback |
| `AlarmService.Service.Visit` | tcp_webserver/software/tcp_webserver_bsp/HAL/src/alt_tick.c:102-138 | the successor is fetched first and is still in the list afterwards; the alarm is on schedule for the new tick, and listed if and only if its callback neither returned zero nor stopped it; the list stays well linked |
| `AlarmService.Alarm.Poll` | tcp_webserver/software/tcp_webserver_bsp/HAL/src/alt_tick.c:109-139 | the in-place update of time and rollover keeps the alarm's firing history equal to the run of the wrapping arithmetic, on every tick of an alarm that is on schedule |
| `AlarmService.Alarm.Update` | tcp_webserver/software/tcp_webserver_bsp/HAL/src/alt_tick.c:109-139 | the update itself, whatever the record holds: one visit of the wrapping clock |
| `AlarmTraps.TurnInTrap` | tcp_webserver/software/tcp_webserver_bsp/HAL/src/alt_tick.c:102-140 | from any links at all: if the alarm belongs to a set that is closed under `next` and does not contain the head, a turn of the loop, its removal of the alarm and any actions of the callback that keep the set closed included, goes on to an alarm of the set |
| `AlarmTraps.NeverEnds` | tcp_webserver/software/tcp_webserver_bsp/HAL/src/alt_tick.c:100-141 | so no number of turns brings the loop to the head, where it would end |
| `AlarmTraps.LoopOnStopped` | tcp_webserver/software/tcp_webserver_bsp/HAL/src/alt_tick.c:102-140 | when a callback stops the alarm that comes next, every later turn of the loop is on that alarm, unless a callback puts it back |
| `AlarmTraps.TickInTrap` | tcp_webserver/software/tcp_webserver_bsp/HAL/src/alt_tick.c:87-141 | the same for a whole tick whose list begins in such a set |
| `AlarmTraps.StopInTrap` | tcp_webserver/software/tcp_webserver_bsp/HAL/src/alt_tick.c:66-73 | stopping an alarm keeps such a set closed if and only if the alarm is in it, its predecessor is not, or its successor is |
| `AlarmService.Service.Stop` | tcp_webserver/software/tcp_webserver_bsp/HAL/src/alt_tick.c:66-73 | the alarm leaves the doubly linked list and then points at itself; stopping an unlinked one is harmless |
| `WrappingClock.VisitRepresents` | tcp_webserver/software/tcp_webserver_bsp/HAL/src/alt_tick.c:109-139 | one tick of the 32-bit arithmetic is one tick of the unbounded clock: it fires if and only if the ideal deadline has come, and then represents deadline plus period |
| `WrappingClock.RunRefinesIdeal` | tcp_webserver/software/tcp_webserver_bsp/HAL/src/alt_tick.c:87-141 | over any number of ticks and any sequence of returned periods, the firing times of the wrapping counter and rollover bit are those of the unbounded clock: none early, late or twice |
| `WrappingClock.UnlistedNeverFires` | tcp_webserver/software/tcp_webserver_bsp/HAL/src/alt_tick.c:119-124 | an alarm whose callback returned zero never fires again |
| `WrappingClock.OneMoreTick` | tcp_webserver/software/tcp_webserver_bsp/HAL/src/alt_tick.c:87-141 | runs extend tick by tick at their end, which ties the handler's history to them |
| `WrappingClock.KthFiring` | tcp_webserver/software/tcp_webserver_bsp/HAL/src/alt_tick.c:117-127 | the k-th firing comes at the first deadline plus the sum of the periods returned before it |
| `AlarmService.ScheduleIsIdeal` | tcp_webserver/software/tcp_webserver_bsp/HAL/src/alt_tick.c:87-141 | the recorded firings of any alarm in the list are the ideal ones when its start was representable |
| `AlarmService.Service.Start` | tcp_webserver/software/tcp_webserver_bsp/HAL/src/alt_alarm_start.c:64-112 | the three outcomes with their codes; on success an unlisted alarm is first in the list and due `nticks` + 1 ticks from now; starting an alarm that is already listed, which nothing checks, leaves a list that leads from its head into the alarms up to that one and never back |
| `AlarmTraps.LoopAfterRestart` | tcp_webserver/software/tcp_webserver_bsp/HAL/src/alt_alarm_start.c:64-112 | starting an alarm that is already listed and then the next tick: after any number of turns its loop is still among the alarms up to the restarted one, whatever trap-keeping actions their callbacks take |
| `AlarmTraps.StartInTrap` | tcp_webserver/software/tcp_webserver_bsp/HAL/src/alt_alarm_start.c:64-112 | starting an alarm, listed or not, keeps a set closed under `next` closed if and only if the alarm is outside it or the head leads into it |
| `AlarmService.Alarm.Arm` | tcp_webserver/software/tcp_webserver_bsp/HAL/src/alt_alarm_start.c:75-96 | the record of a fresh alarm is on schedule, whatever it held before |
| `WrappingClock.StartRepresents` | tcp_webserver/software/tcp_webserver_bsp/HAL/src/alt_alarm_start.c:82-96 | deadline and rollover represent now + nticks + 1 if and only if nticks <= 2^32 - 2 |
| `WrappingClock.StartedAlarmIsExact` | tcp_webserver/software/tcp_webserver_bsp/HAL/src/alt_alarm_start.c:82-96 | a started alarm fires exactly on the unbounded schedule if and only if nticks <= 2^32 - 2 or the counter is at its last value |
| `WrappingClock.LongestIntervalFiresAtOnce` | tcp_webserver/software/tcp_webserver_bsp/HAL/src/alt_alarm_start.c:82-96 | in every other case the longest interval fires on the very next tick |
| `WrappingClock.StartableIsExact` | tcp_webserver/software/tcp_webserver_bsp/HAL/src/alt_alarm_start.c:82-96 | the sufficient half of the condition, for every run length |
| `AlarmService.Service.Insert` | tcp_webserver/software/tcp_webserver_bsp/HAL/inc/sys/alt_llist.h:90-98 | puts an unlisted entry right after the head of a well-linked ring; a listed one closes a loop of the entries up to it, which the head leads into and is not part of |
| `AlarmService.Alarm.LinkAfter` | tcp_webserver/software/tcp_webserver_bsp/HAL/inc/sys/alt_llist.h:90-98 | the four pointer writes, from any links |
| `AlarmService.Alarm.Unlink` | tcp_webserver/software/tcp_webserver_bsp/HAL/inc/sys/alt_llist.h:105-117 | the four pointer writes of a removal, from any links: the neighbours point past the entry and the entry points at itself |
| `AlarmService.Service.constructor` | tcp_webserver/software/tcp_webserver_bsp/HAL/inc/sys/alt_llist.h:75 | the list starts as the head alone |
| `Checksum.ComplementVerifies` | tcp_webserver/software/tcp_webserver/tcp_socket.c:467-470 | the stored complement makes the receiver's folded sum 0xFFFF if and only if the byte summed past the data is 0 (section 1 of RFC 1071) |
| `Checksum.FoldsTo` | tcp_webserver/software/tcp_webserver/tcp_socket.c:467-468 | the fold is the one residue of the sum modulo 0xFFFF between 1 and 0xFFFF |
| `Checksum.WordSumAppend` | tcp_webserver/software/tcp_webserver/tcp_socket.c:456-460 | sums of adjacent even-length pieces add up |
| `Checksum.WordSumBound` | tcp_webserver/software/tcp_webserver/tcp_socket.c:490-494 | the sum of any frame is at most 0xFFFF per word, so the 32-bit accumulator cannot overflow |
| `Checksum.SumWords` | tcp_webserver/software/tcp_webserver/tcp_socket.c:490-494 | the loop computes the 16-bit word sum of the range, including the byte after an odd length, without wrapping |
| `Checksum.FoldSum` | tcp_webserver/software/tcp_webserver/tcp_socket.c:467-468 | the folding loop ends and computes the one's-complement fold |
| `Checksum.Ipv4Checksum` | tcp_webserver/software/tcp_webserver/tcp_socket.c:451-472 | the header checksum in the byte order in which it is stored |
| `Checksum.TcpChecksum` | tcp_webserver/software/tcp_webserver/tcp_socket.c:473-506 | the checksum over pseudo-header and segment in the byte order in which it is stored |
| `TcpFrame.FrameVerifies` | tcp_webserver/software/tcp_webserver/tcp_socket.c:551-555 | a receiver that sums the header, and the twelve bytes of the pseudo-header as it takes them from the frame with the segment, accepts the IPv4 header always, and the TCP segment if and only if its payload has even length or the byte left after it in the buffer is 0 |
| `TcpFrame.PseudoSumIs` | tcp_webserver/software/tcp_webserver/tcp_socket.c:473-488 | the sender's sum is that of both addresses, a zero byte, protocol 6 and the length as bytes (section 3.1 of RFC 9293) |
| `TcpFrame.SameSum` | tcp_webserver/software/tcp_webserver/tcp_socket.c:554-555 | what a receiver sums over the frame is what the sender summed |
| `TcpFrame.FrameFields` | tcp_webserver/software/tcp_webserver/tcp_socket.c:510-549 | every field of the frame by its place and value, lengths and numbers in network byte order |
| `TcpFrame.FieldSum` | tcp_webserver/software/tcp_webserver/tcp_socket.c:552-555 | filling in a checksum adds exactly its value to the sum taken with the field at zero |
| `TcpFrame.IpFieldSum` | tcp_webserver/software/tcp_webserver/tcp_socket.c:552-553 | the same for the IPv4 header, whose sum is never zero |
| `TcpFrame.SegmentFieldSum` | tcp_webserver/software/tcp_webserver/tcp_socket.c:554-555 | the same for the TCP segment |
| `TcpFrame.OddTail` | tcp_webserver/software/tcp_webserver/tcp_socket.c:490-494 | for an odd length the byte past the data enters the sum as a low byte |
| `TransmitBuffer.TxBuffer.CreateTcpPkt` | tcp_webserver/software/tcp_webserver/tcp_socket.c:510-557 | every byte of the frame is rewritten to the frame of the packet, from any earlier contents of the buffer, and no byte beyond it changes |
| `TransmitBuffer.TxBuffer.FinishIp` | tcp_webserver/software/tcp_webserver/tcp_socket.c:552-553 | the header in the buffer is completed and the rest of the frame kept |
| `TransmitBuffer.TxBuffer.FinishTcp` | tcp_webserver/software/tcp_webserver/tcp_socket.c:554-555 | the segment in the buffer is completed and the rest of the frame kept |
| `TransmitBuffer.TxBuffer.PutIpFields` | tcp_webserver/software/tcp_webserver/tcp_socket.c:514-525 | all header fields but the checksum; the two bytes copied beyond the sender address are overwritten before the end |
| `TransmitBuffer.TxBuffer.PutTcpFields` | tcp_webserver/software/tcp_webserver/tcp_socket.c:528-548 | all segment fields but the checksum, in network byte order |
| `TcpServer.Connection.constructor` | tcp_webserver/software/tcp_webserver/tcp_socket.c:217-217 | the server starts listening with nothing sent, clear buffers and the timer's restart flag clear |
| `TcpServer.Connection.EveryFrameVerifies` | tcp_webserver/software/tcp_webserver/tcp_socket.c:551-555 | every TCP frame of every run carries checksums that a receiver accepts, the odd-length page included |
| `TcpServer.Connection.CreateTcpPkt` | tcp_webserver/software/tcp_webserver/tcp_socket.c:510-557 | for every payload up to the page's length, the record's acknowledgement number moves and the buffer holds the packet made of the record's numbers, with the byte left after an odd payload in its checksum |
| `TcpServer.Connection.Transmit` | tcp_webserver/software/tcp_webserver/tcp_socket.c:267-269 | what goes on the wire is exactly that frame |
| `TcpServer.Connection.CheckAck` | tcp_webserver/software/tcp_webserver/tcp_socket.c:197-211 | refines the acknowledgement check, modulo 2^32 |
| `TcpServer.Connection.RestartSeconds` | tcp_webserver/software/tcp_webserver/tcp_socket.c:395-398 | only the timer's own flag clears the seconds |
| `TcpServer.Connection.Interrupt` | tcp_webserver/software/tcp_webserver/tcp_socket.c:219-443 | each interrupt, the frame's arrival in the receive buffer included, is one step of the protocol machine, so the theorems over runs are about sequences of these calls |
| `TcpServer.Connection.AcceptSyn` | tcp_webserver/software/tcp_webserver/tcp_socket.c:258-270 | the record takes the peer's numbers and its SYN is answered |
| `TcpServer.Connection.SendPage` | tcp_webserver/software/tcp_webserver/tcp_socket.c:302-308 | the page goes out with a FIN, and the record expects both to be acknowledged |
| `TcpServer.Connection.SendFin` | tcp_webserver/software/tcp_webserver/tcp_socket.c:314-317 | a FIN answers the peer's FIN |
| `TcpServer.Connection.SendAck` | tcp_webserver/software/tcp_webserver/tcp_socket.c:320-322 | an acknowledgement without data |
| `TcpServer.Connection.OnTcp` | tcp_webserver/software/tcp_webserver/tcp_socket.c:247-374 | the handler refines one step of the protocol machine in every state and keeps the wire invariant |
| `TcpServer.Connection.OnListen` | tcp_webserver/software/tcp_webserver/tcp_socket.c:256-274 | refines the step that latches a peer and answers its SYN |
| `TcpServer.Connection.OnSynReceived` | tcp_webserver/software/tcp_webserver/tcp_socket.c:275-287 | refines the step that completes the handshake |
| `TcpServer.Connection.OnEstablished` | tcp_webserver/software/tcp_webserver/tcp_socket.c:288-331 | refines the step that accepts data from the peer |
| `TcpServer.Connection.AnswerSegment` | tcp_webserver/software/tcp_webserver/tcp_socket.c:297-323 | refines the choice between page, FIN and acknowledgement |
| `TcpServer.Connection.OnFinWait` | tcp_webserver/software/tcp_webserver/tcp_socket.c:332-349 | refines the step that ends an active close |
| `TcpServer.Connection.OnLastAck` | tcp_webserver/software/tcp_webserver/tcp_socket.c:356-369 | refines the step that ends a passive close |
| `TcpServer.Connection.OnArp` | tcp_webserver/software/tcp_webserver/tcp_socket.c:223-245 | a request for this server's address is answered in the shared transmit buffer, and the connection and the checksum invariant are left alone |
| `TcpServer.Connection.Deliver` | tcp_webserver/software/tcp_webserver/tcp_socket.c:150-152 | a frame overwrites the front of the receive buffer and nothing clears the rest |
| `TcpServer.Connection.RxEthernetIsr` | tcp_webserver/software/tcp_webserver/tcp_socket.c:219-378 | the handler, on whatever the buffer then holds |
| `TcpReceive.BuiltFrameReads` | tcp_webserver/software/tcp_webserver/tcp_socket.c:169-193 | parsing undoes building: what the receive handler reads from a frame that the server built are the fields of its packet, whatever the buffer held |
| `TcpReceive.PlainView` | tcp_webserver/software/tcp_webserver/tcp_socket.c:247-252 | without IPv4 options, the fields are at the places of section 3.1 of RFC 9293, in network byte order |
| `TcpReceive.ArpReplyFields` | tcp_webserver/software/tcp_webserver/tcp_socket.c:225-242 | the reply's fields by their places: addressed to the asker, this server's addresses as the sender's and the asker's as the target's |
| `TcpServer.Connection.TimeoutIsr` | tcp_webserver/software/tcp_webserver/tcp_socket.c:389-443 | refines the timer step in every valid state, the timer's own restart flag never being set |
| `TcpModel.RunKeepsInv` | tcp_webserver/software/tcp_webserver/tcp_socket.c:197-443 | in every reachable state the pair of sequence number and sent length is the one its state prescribes, and a closing connection has just sent the FIN that must be acknowledged |
| `TcpModel.StepKeepsInv` | tcp_webserver/software/tcp_webserver/tcp_socket.c:219-443 | each event keeps that invariant |
| `TcpModel.ListenKeepsInv` | tcp_webserver/software/tcp_webserver/tcp_socket.c:256-274 | accepting a SYN establishes the numbers of a half-open connection |
| `TcpModel.SynReceivedKeepsInv` | tcp_webserver/software/tcp_webserver/tcp_socket.c:275-287 | the handshake completes if and only if the peer acknowledges the initial number plus one |
| `TcpModel.EstablishedKeepsInv` | tcp_webserver/software/tcp_webserver/tcp_socket.c:288-331 | page, FIN and acknowledgement leave the numbers of their target states |
| `TcpModel.FinWaitKeepsInv` | tcp_webserver/software/tcp_webserver/tcp_socket.c:332-349 | a rejected closing segment leaves the numbers in place |
| `TcpModel.LastAckKeepsInv` | tcp_webserver/software/tcp_webserver/tcp_socket.c:356-369 | so does a rejected last acknowledgement |
| `TcpModel.TimeoutKeepsInv` | tcp_webserver/software/tcp_webserver/tcp_socket.c:400-440 | the idle FIN leaves the numbers of a closing connection |
| `TcpModel.ClosingAck` | tcp_webserver/software/tcp_webserver/tcp_socket.c:332-369 | after any run, a closing acknowledgement is accepted if and only if it covers everything up to the FIN, and the final acknowledgement carries exactly that number as its own (section 3.4 of RFC 9293) |
| `TcpModel.FinWaitAck` | tcp_webserver/software/tcp_webserver/tcp_socket.c:332-349 | the active-close half of the above; the final acknowledgement acknowledges the peer's FIN if and only if no data came with it, and otherwise one too little |
| `TcpModel.LastAckAck` | tcp_webserver/software/tcp_webserver/tcp_socket.c:356-369 | the passive-close half of the above |
| `TcpModel.HandshakeAck` | tcp_webserver/software/tcp_webserver/tcp_socket.c:275-287 | after any run, a half-open connection is established by exactly one acknowledgement number |
| `TcpModel.AnswerAcknowledges` | tcp_webserver/software/tcp_webserver/tcp_socket.c:536 | the answer acknowledges the length of the data, or one when there is none: rightly if and only if the segment carried data or a FIN but not both, one too high for a bare acknowledgement, one too low for a FIN after data |
| `TcpModel.AnswerSequence` | tcp_webserver/software/tcp_webserver/tcp_socket.c:303-322 | an answer carries the number after the SYN if and only if it is the FIN for a FIN without a request; the page and every acknowledgement repeat the number of the SYN, where a receiver expects data to start one later (section 3.4 of RFC 9293) |
| `TcpModel.SynSequence` | tcp_webserver/software/tcp_webserver/tcp_socket.c:258-270 | the sender of the SYN becomes the peer and is answered with the initial number; the SYN is acknowledged with its length, or one, and so correctly if and only if it carries at most one byte |
| `TcpModel.IdleFin` | tcp_webserver/software/tcp_webserver/tcp_socket.c:400-411 | the FIN of an idle connection carries the number after the SYN and acknowledges what was last noted of the peer: what it has already acknowledged if and only if the segment noted brought at most one byte |
| `TcpModel.RejectedIsNoted` | tcp_webserver/software/tcp_webserver/tcp_socket.c:288-369 | a segment of the peer that acknowledges another number is not answered, but an established or closing connection notes its number and length |
| `TcpModel.FlaglessIsIgnored` | tcp_webserver/software/tcp_webserver/tcp_socket.c:256-369 | a segment without the flags that its state looks for changes nothing, but that a listening server forgets that it closed for idleness |
| `TcpModel.ClosingRestartsSeconds` | tcp_webserver/software/tcp_webserver/tcp_socket.c:414-439 | a connection that the timer closes leaves the seconds at zero |
| `TcpModel.StepSendsToPeer` | tcp_webserver/software/tcp_webserver/tcp_socket.c:219-443 | each event appends at most one packet, addressed to the latched peer: a SYN with twelve bytes of options, a FIN with or without the page, or a bare acknowledgement |
| `TcpModel.RunIsWellFormed` | tcp_webserver/software/tcp_webserver/tcp_socket.c:219-443 | over every run the server sends nothing else |
| `TcpModel.SentFrameReads` | tcp_webserver/software/tcp_webserver/tcp_socket.c:510-549 | a receiver with this server's parser reads each such packet with its numbers, with exactly the flags meant, and with the length of its data, which is 0 for the SYN |
| `TcpModel.RunNumbers` | tcp_webserver/software/tcp_webserver/tcp_socket.c:531-534 | over every run, the sequence number of each packet sent is determined by its flags, its payload and the packet before it: the page and every acknowledgement of an established connection repeat the SYN's number, a FIN without data has the next one, and the acknowledgement that ends a connection follows the FIN sent before it |
| `TcpModel.StepNumbers` | tcp_webserver/software/tcp_webserver/tcp_socket.c:219-443 | each event appends at most one packet, with that number |
| `TcpModel.PageRepeatsSynNumber` | tcp_webserver/software/tcp_webserver/tcp_socket.c:254-311 | three frames that the server sees as SYN, acknowledgement and request of one peer: two packets are sent and both start at the initial number |
| `TcpModel.TrafficKeepsSeconds` | tcp_webserver/software/tcp_webserver/tcp_socket.c:254-369 | no segment changes the seconds, and segments take a connection only onwards through its states |
| `TcpModel.RankFalls` | tcp_webserver/software/tcp_webserver/tcp_socket.c:400-440 | a rank over state and seconds falls with every timer tick and never rises, unless the handshake completes late |
| `TcpModel.RankBoundsRun` | tcp_webserver/software/tcp_webserver/tcp_socket.c:389-441 | over any run the ticks are paid for by the rank |
| `TcpModel.BoundedLifetime` | tcp_webserver/software/tcp_webserver/tcp_socket.c:389-441 | from a SYN with a fresh timer, 70 ticks bring the server back to listening, or the handshake completed at 10 seconds or later, whatever segments arrive |
| `TcpModel.SilenceCloses` | tcp_webserver/software/tcp_webserver/tcp_socket.c:400-434 | in every connected state, a silent connection is ever closed if and only if its seconds are still below that state's limit |
| `TcpModel.IdleCloses` | tcp_webserver/software/tcp_webserver/tcp_socket.c:402-409 | for an established connection that limit is the tenth second |
| `TcpModel.LateRequestBlocks` | tcp_webserver/software/tcp_webserver/tcp_socket.c:303-306 | a request on a connection that the timer has missed for a minute leaves the server in FIN_WAIT, which no number of ticks ends |
| `TcpModel.LateConnectionStays` | tcp_webserver/software/tcp_webserver/tcp_socket.c:402-403 | past its limit a silent connection stays in its state for ever, whichever state that is |
| `TcpIsolation.PeerStaysLatched` | tcp_webserver/software/tcp_webserver/tcp_socket.c:275-369 | the peer of a connection never changes, and a frame that is not the peer's changes nothing but the receive buffer |
| `TcpIsolation.ForeignFramesAreInvisible` | tcp_webserver/software/tcp_webserver/tcp_socket.c:277-278 | two runs, one without the frames that are not the peer's and from any contents of the receive buffer: if every segment of the peer brings the 64 bytes that may be copied, then record, timer and packets are the same up to the return to listening |
| `TcpIsolation.ForeignFramesShowOnlyInPayload` | tcp_webserver/software/tcp_webserver/tcp_socket.c:297-323 | the same two runs: if every segment of the peer brings enough to tell whether it is a request, then all is the same except for the copied bytes of the record |
| `TcpIsolation.RecordShowsBuffer` | tcp_webserver/software/tcp_webserver/tcp_socket.c:307-309 | for each accepted request that brings the three tested bytes: the two records agree if and only if the buffers agree in the bytes that the request does not bring, and in all else they agree anyway |
| `TcpIsolation.ShortRequestShowsStray` | tcp_webserver/software/tcp_webserver/tcp_socket.c:309 | for every accepted request that brings fewer than 64 bytes there is a frame of another sender that makes the record's last byte come out different |
| `TcpIsolation.StrayDecides` | tcp_webserver/software/tcp_webserver/tcp_socket.c:297-322 | for every accepted segment that announces two bytes or more and brings only a beginning of GET, there is a frame of another sender after which the page is sent, and one after which it is not |
| `TcpIsolation.RequestDecided` | tcp_webserver/software/tcp_webserver/tcp_socket.c:297-301 | whether a segment is taken for a request depends on the buffer only when it is of that kind, and then on the missing letters alone |
| `TcpIsolation.SegmentBlind` | tcp_webserver/software/tcp_webserver/tcp_socket.c:254-369 | no other decision of the handler depends on the copied bytes |
| `TcpIsolation.Leftovers` | tcp_webserver/software/tcp_webserver/tcp_socket.c:35 | a frame of another sender can leave any bytes in the buffer that the next frame does not overwrite |
| `TcpIsolation.SynShowsBuffer` | tcp_webserver/software/tcp_webserver/tcp_socket.c:266-269 | the answers to a SYN seen over two buffers agree if and only if the buffers agree in those of the twelve bytes after the fixed header that the SYN does not bring, and the records if and only if they agree in those of twenty-four |
| `TcpReceive.HeaderArrives` | tcp_webserver/software/tcp_webserver/tcp_socket.c:49-52 | a frame that brings its headers determines every field, over any buffer |
| `TcpReceive.BodyArrives` | tcp_webserver/software/tcp_webserver/tcp_socket.c:49-52 | what follows the headers is the frame's as far as it goes and the buffer's after that |
| `TcpReceive.WholeArrives` | tcp_webserver/software/tcp_webserver/tcp_socket.c:49-52 | a frame that brings 64 bytes after its headers is seen alike over every buffer |
| `FdModel.OpenSpec` | tcp_webserver/software/tcp_webserver_bsp/HAL/src/alt_open.c:105-171 | open returns the lowest free index if and only if the device exists, a descriptor is free, the device is not locked and its driver agrees, and the entry then holds what the driver left in it; a failed open restores every device and flag word if and only if the entry it had claimed held no flags, and either raises the high-water mark |
| `FdModel.BoundedScanIsWhole` | tcp_webserver/software/tcp_webserver_bsp/HAL/src/alt_open.c:79-87 | scanning up to the high-water mark finds a lock if and only if the whole table holds one |
| `FdModel.OpenFlags` | tcp_webserver/software/tcp_webserver_bsp/HAL/src/alt_open.c:72-139 | a caller cannot set the lock or device bit through open, and all its other bits arrive |
| `FdPool.FileTable.OpenFile` | tcp_webserver/software/tcp_webserver_bsp/HAL/src/alt_open.c:105-171 | refines the pure open, with the error code in errno |
| `FdPool.FileTable.FileLocked` | tcp_webserver/software/tcp_webserver_bsp/HAL/src/alt_open.c:64-92 | the scan loop finds a lock on the same device other than the descriptor's own |
| `FdPool.FileTable.GetFd` | tcp_webserver/software/tcp_webserver_bsp/HAL/src/alt_get_fd.c:54-101 | claims the lowest free entry and raises the high-water mark, or reports a full table |
| `FdModel.LowestFree` | tcp_webserver/software/tcp_webserver_bsp/HAL/src/alt_get_fd.c:77-89 | the entry found is free and all before it are taken |
| `FdModel.LockGrant` | tcp_webserver/software/tcp_webserver_bsp/HAL/src/alt_fd_lock.c:54-75 | a granted lock means no other descriptor of the device, except if and only if that other one is the one at the high-water mark; a refusal means there is one and changes nothing |
| `FdModel.LockMissesTopDescriptor` | tcp_webserver/software/tcp_webserver_bsp/HAL/src/alt_fd_lock.c:61 | two opens of one device and a lock on the first: granted, although the second is open |
| `FdModel.LockSurvivesStep` | tcp_webserver/software/tcp_webserver_bsp/HAL/src/alt_fd_lock.c:61-69 | no operation but its own unlock, close or redirection ends a lock, and no open or redirection of the device succeeds meanwhile |
| `FdModel.LockExcludesOpens` | tcp_webserver/software/tcp_webserver_bsp/HAL/src/alt_fd_lock.c:54-69 | over any run: while the lock is held, the device is never opened again and no further descriptor comes to share it |
| `FdModel.WithLock` | tcp_webserver/software/tcp_webserver_bsp/HAL/src/alt_fd_lock.c:69 | setting the lock bit keeps all other bits |
| `FdPool.FileTable.FdLock` | tcp_webserver/software/tcp_webserver_bsp/HAL/src/alt_fd_lock.c:54-75 | refines the pure lock |
| `FdModel.UnlockUndoesLock` | tcp_webserver/software/tcp_webserver_bsp/HAL/src/alt_fd_unlock.c:52-56 | unlocking after a granted lock restores the whole table |
| `FdModel.WithoutLock` | tcp_webserver/software/tcp_webserver_bsp/HAL/src/alt_fd_unlock.c:54 | clearing the lock bit keeps all other bits |
| `FdPool.FileTable.FdUnlock` | tcp_webserver/software/tcp_webserver_bsp/HAL/src/alt_fd_unlock.c:52-56 | refines the pure unlock, which always succeeds |
| `FdPool.FileTable.IoctlFile` | tcp_webserver/software/tcp_webserver_bsp/HAL/src/alt_ioctl.c:106-168 | lock requests on devices go to the lock, all others to the driver; a lock is refused exactly when the scan finds another descriptor; every effect, result and errno |
| `FdModel.IoctlSpec` | tcp_webserver/software/tcp_webserver_bsp/HAL/src/alt_ioctl.c:122-160 | a granted lock request sets the lock bit and a refused one changes nothing, after an unlock request the bit is clear, and no other entry, field or bit ever changes |
| `FdModel.UnlockedOpens` | tcp_webserver/software/tcp_webserver_bsp/HAL/src/alt_ioctl.c:132-137 | after an unlock request on the only lock of a device, an open of the device succeeds if and only if a descriptor is free and the driver agrees |
| `FdModel.IoctlKeepsInv` | tcp_webserver/software/tcp_webserver_bsp/HAL/src/alt_ioctl.c:127-139 | no request breaks the pool's invariant |
| `FdModel.RedirectSpec` | tcp_webserver/software/tcp_webserver_bsp/HAL/src/alt_io_redirect.c:58-72 | redirection changes exactly the target entry when the open succeeds, which takes device, flags and private word, and no entry otherwise, but for flags left on the lowest free one; no descriptor leaks |
| `FdPool.FileTable.OpenFd` | tcp_webserver/software/tcp_webserver_bsp/HAL/src/alt_io_redirect.c:58-72 | refines the pure redirection |
| `FdPool.FileTable.IoRedirect` | tcp_webserver/software/tcp_webserver_bsp/HAL/src/alt_io_redirect.c:85-94 | the three redirections in the source's order are a legal run, and no device and no open descriptor above 2 is changed, nor any flags if none were left on a free one |
| `FdModel.CloseUndoesOpen` | tcp_webserver/software/tcp_webserver_bsp/HAL/src/alt_close.c:64-101 | closing what open returned restores every device and flag word if and only if the entry held no flags before |
| `FdPool.FileTable.CloseFile` | tcp_webserver/software/tcp_webserver_bsp/HAL/src/alt_close.c:64-101 | the descriptor is freed whatever the driver answers; results and errno |
| `FdModel.ReleaseKeepsInv` | tcp_webserver/software/tcp_webserver_bsp/HAL/src/alt_release_fd.c:44-51 | releasing any descriptor keeps the pool's invariant, in particular the three standard ones stay open |
| `FdPool.FileTable.ReleaseFd` | tcp_webserver/software/tcp_webserver_bsp/HAL/src/alt_release_fd.c:44-51 | refines the pure release |
| `FdModel.FcntlKeepsLocks` | tcp_webserver/software/tcp_webserver_bsp/HAL/src/alt_fcntl.c:88-90 | setting flags on any descriptor, open or not, keeps every device, lock and device bit of the table |
| `FdModel.RunKeepsTidy` | tcp_webserver/software/tcp_webserver_bsp/HAL/src/alt_fcntl.c:88-90 | over any run in which flags are only set on open descriptors, free entries hold none, so that failed opens restore everything |
| `FdModel.StepKeepsTidy` | tcp_webserver/software/tcp_webserver_bsp/HAL/src/alt_fcntl.c:88-90 | no other call leaves flags on a free entry |
| `FdModel.LeftFlagsAreLost` | tcp_webserver/software/tcp_webserver_bsp/HAL/src/alt_fcntl.c:89-90 | flags set on the free descriptor 3 are gone after a failed open |
| `FdModel.WithUserFlags` | tcp_webserver/software/tcp_webserver_bsp/HAL/src/alt_fcntl.c:89-90 | exactly the two updatable bits are replaced |
| `FdModel.UserFlags` | tcp_webserver/software/tcp_webserver_bsp/HAL/src/alt_fcntl.c:85 | the flags reported never include the lock or device bit, and lack no other |
| `FdPool.FileTable.FcntlFile` | tcp_webserver/software/tcp_webserver_bsp/HAL/src/alt_fcntl.c:66-101 | F_SETFL refines the pure update on any descriptor, F_GETFL reads, every other command and every negative descriptor is refused with its own code |
| `FdModel.InitialInv` | tcp_webserver/software/tcp_webserver_bsp/HAL/src/alt_dev.c:118-149 | the initial table and mark satisfy the invariant of all runs |
| `FdPool.FileTable.constructor` | tcp_webserver/software/tcp_webserver_bsp/HAL/src/alt_dev.c:131-149 | the table starts in that state |
| `LogPrintf.PrintedTextParses` | tcp_webserver/software/tcp_webserver_bsp/HAL/src/alt_log_printf.c:206-297 | for every 32-bit word, base, sign, width and zero flag, the printed text parses back to the value |
| `LogPrintf.PrintedTextLength` | tcp_webserver/software/tcp_webserver_bsp/HAL/src/alt_log_printf.c:257-279 | its length is the field width or the digits with the sign, whichever is more |
| `LogPrintf.PrintedLead` | tcp_webserver/software/tcp_webserver_bsp/HAL/src/alt_log_printf.c:257-279 | before the digits there are only zeros after the sign, or only spaces before it, as the format asks |
| `LogPrintf.DigitsByName` | tcp_webserver/software/tcp_webserver_bsp/HAL/src/alt_log_printf.c:280-292 | the sixteen digits of either case by name |
| `LogPrintf.PrintedDigitsAreTight` | tcp_webserver/software/tcp_webserver_bsp/HAL/src/alt_log_printf.c:247-297 | the digits start with 0 only for the value zero, which is one digit |
| `LogPrintf.PrintInteger` | tcp_webserver/software/tcp_webserver_bsp/HAL/src/alt_log_printf.c:206-297 | the conversion emits exactly the text that these lemmas are about |
| `LogPrintf.CountDigits` | tcp_webserver/software/tcp_webserver_bsp/HAL/src/alt_log_printf.c:247-255 | the loop finds the number of digits and the place value base^(digits-1), which never wraps |
| `LogPrintf.PrintDigits` | tcp_webserver/software/tcp_webserver_bsp/HAL/src/alt_log_printf.c:281-296 | the loop emits the digits most significant first and ends with place value 0 |
| `LogPrintf.EmitDigit` | tcp_webserver/software/tcp_webserver_bsp/HAL/src/alt_log_printf.c:286-291 | the character of a digit, in the requested case, in 8-bit arithmetic |
| `LogPrintf.RepChar` | tcp_webserver/software/tcp_webserver_bsp/HAL/src/alt_log_printf.c:106-110 | a negative or zero count prints nothing |
| `LogPrintf.ParseChars` | tcp_webserver/software/tcp_webserver_bsp/HAL/src/alt_log_printf.c:281-296 | digit characters of either case read back as the number they spell |
| `LogPrintf.PaddedDigits` | tcp_webserver/software/tcp_webserver_bsp/HAL/src/alt_log_printf.c:266 | zero padding does not change the number read |
| `LogPrintf.SkipSpaces` | tcp_webserver/software/tcp_webserver_bsp/HAL/src/alt_log_printf.c:274 | neither does blank padding |
| `LogPrintf.ParseSigned` | tcp_webserver/software/tcp_webserver_bsp/HAL/src/alt_log_printf.c:261-278 | nor does the sign in front of zeros or digits, which negates it |
| `Numerals.NumeralIsExact` | tcp_webserver/software/tcp_webserver_bsp/HAL/src/alt_log_printf.c:247-296 | the digit string denotes the value, each digit is below the base, and there is no superfluous leading zero |
| `Numerals.FixedFromTop` | tcp_webserver/software/tcp_webserver_bsp/HAL/src/alt_log_printf.c:286-295 | dividing by the place value yields the leading digit and a remainder with one digit less |
| `Numerals.CountBound` | tcp_webserver/software/tcp_webserver_bsp/HAL/src/alt_log_printf.c:247-255 | the value is below base^digits |
| `Numerals.ZeroIsOneDigit` | tcp_webserver/software/tcp_webserver_bsp/HAL/src/alt_log_printf.c:248-250 | zero, and only zero, is written as the digit 0 |
| `ClockArithmetic.SetThenGet` | tcp_webserver/software/tcp_webserver_bsp/HAL/src/alt_gettod.c:89-112 | a clock set at tick n0 and read at tick n1 shows exactly the set time plus the elapsed ticks in microseconds, normalised, when the rate divides 10^6 and the set was faithful |
| `ClockArithmetic.RoundTripExactly` | tcp_webserver/software/tcp_webserver_bsp/HAL/src/alt_gettod.c:89-112 | that holds for all times and all later ticks if and only if the overflow of the 32-bit product at set time is a multiple of 15625 |
| `ClockArithmetic.RateMustDivide` | tcp_webserver/software/tcp_webserver_bsp/HAL/src/alt_gettod.c:91-93 | elapsed ticks are shown exactly for all tick counts if and only if the rate divides 10^6 |
| `ClockArithmetic.DividingRateIsExact` | tcp_webserver/software/tcp_webserver_bsp/HAL/src/alt_gettod.c:91-93 | the sufficient half: the 64-bit product never loses anything |
| `ClockArithmetic.OtherRateIsWrong` | tcp_webserver/software/tcp_webserver_bsp/HAL/src/alt_gettod.c:91-93 | for any other rate, the tick count at which the time shown is wrong |
| `ClockArithmetic.NormaliseKeeps` | tcp_webserver/software/tcp_webserver_bsp/HAL/src/alt_gettod.c:95-112 | the two loops keep the time, normalise it and never reach the clamp for times from 0 on |
| `ClockArithmetic.TicksSplit` | tcp_webserver/software/tcp_webserver_bsp/HAL/src/alt_gettod.c:91-93 | whole seconds and the fraction shown add up to the elapsed ticks |
| `TimeOfDay.Clock.GetTimeOfDay` | tcp_webserver/software/tcp_webserver_bsp/HAL/src/alt_gettod.c:71-124 | the loops compute the normalised time; without a clock the error code |
| `ClockArithmetic.StoredFraction` | tcp_webserver/software/tcp_webserver_bsp/HAL/src/alt_settod.c:83-84 | the truncated 32-bit product gives the right fraction if and only if its overflow is a multiple of 15625 |
| `ClockArithmetic.UnfaithfulSetIsSeen` | tcp_webserver/software/tcp_webserver_bsp/HAL/src/alt_settod.c:82-84 | after any other set, even an immediate read shows a wrong time |
| `TimeOfDay.Clock.SetTimeOfDay` | tcp_webserver/software/tcp_webserver_bsp/HAL/src/alt_settod.c:72-96 | stores the offset and the zone; without a clock nothing changes and errno is set |

## Left out

- Register access, busy waiting, delays and reset sequences of all devices: only their effect on the hardware's visible state is modelled.
- The SGDMA driver, `tse_init` and `altera_avalon_tse.c`: PHY and DMA plumbing; sending appends to a ghost trace.
- The re-arming of the receive descriptor, and the data cache: a frame is in the buffer, as far as it goes, when its interrupt runs. ARP replies are written but not traced.
- The two bytes sent beyond the end of each TCP frame and the link layer's padding.
- `tcp_webserver.c`, the main loop and its form decoder: input and output around a 64-byte buffer.
- States of the TCP enumeration that no code enters, and packets longer than the page: nothing creates them.
- TcpServer.Connection.CreateTcpPkt: the connection's 64-byte payload buffer is a sequence, because only whole-prefix copies touch it; updates in place are not captured.
- TcpModel.BoundedLifetime: does not model the overflow of the `int` seconds counter, which a connection established late would reach after 68 years.
- LcdDriver.Lcd.Write: takes the length as the stream itself and returns whether repainting came to rest instead of `len`; termination of the repaint loop is not claimed because callbacks may keep coming.
- LcdDriver.Lcd.Timeout: returns no period; the alarm service that calls it is modelled separately.
- AlarmService.Service.Tick: callbacks that start an alarm already listed or stop the one that comes next (see `AlarmTraps`), and those that stop their own alarm and start it again before they return, whose period is then added to the new time.
- JtagUart.Uart.Write: semaphores are no-ops in this build, so there is one writer and one reader; the close routine and the ioctl timeout are not modelled.
- JtagUart.Uart.Read: the comparison of indices after its spin loop is one step with the loop's exit, so a character or host activity exactly between the two is seen one round earlier.
- FdPool.FileTable.OpenFile: the search for a device by name is a parameter, and so is the driver's answer; `O_APPEND` and `O_NONBLOCK` are the C library's values, which this repository does not contain.
- LogPrintf.PrintInteger: the state machine that reads the format string, and `%c`, `%s` and `%%`; the format record it fills in is a parameter.
- TimeOfDay.Clock.GetTimeOfDay: concurrent calls to the setting function, which the source's own comment excludes.
- Small and direct driver variants, the operating-system branches and the variant that resets a full UART FIFO: compiled out.
- Stubs and one-branch wrappers of the C library interface.
