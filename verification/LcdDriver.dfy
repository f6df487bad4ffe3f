/** The LCD driver: the terminal, its differential repaint of the panel, and the
    flag it shares with the timer callback that scrolls the lines. */

module LcdDriver {
  import opened Division
  import opened LcdScroll
  import opened LcdTerminal
  import opened Words

  const LCD_CMD_CLEAR := 0x01
  const LCD_CMD_MODE_INC := 0x06
  const LCD_CMD_DISPLAY_OFF := 0x08
  const LCD_CMD_DISPLAY_ON := 0x0C
  const LCD_CMD_TWO_LINE := 0x38
  const LCD_CMD_WRITE_DATA := 0x80
  const RAM_SIZE := 128

  // ------------------------------------------------------------ the controller

  /** Character memory and the address counter of the panel's controller. */
  datatype Controller = Controller(ram: seq<byte>, ac: nat)

  ghost predicate ControllerOk(h: Controller) {
    |h.ram| == RAM_SIZE && h.ac < RAM_SIZE
  }

  /** The counter steps through the two 40-character lines of the memory. */
  function NextAddress(ac: nat): nat
    requires ac < RAM_SIZE
  {
    if ac == 0x27 then 0x40 else if ac >= 0x67 then 0 else ac + 1
  }

  function Commanded(h: Controller, command: byte): (r: Controller)
    requires ControllerOk(h)
    ensures ControllerOk(r)
  {
    if command >= LCD_CMD_WRITE_DATA then h.(ac := command - LCD_CMD_WRITE_DATA)
    else if command == LCD_CMD_CLEAR then Controller(seq(RAM_SIZE, _ => BLANK), 0)
    else h
  }

  function Stored(h: Controller, c: byte): (r: Controller)
    requires ControllerOk(h)
    ensures ControllerOk(r)
  {
    Controller(h.ram[h.ac := c], NextAddress(h.ac))
  }

  function ColStart(y: nat): (r: nat)
    requires y < ALT_LCD_HEIGHT
  {
    if y == 0 then 0x00 else 0x40
  }

  // ------------------------------------------------------------ scroll positions

  /** The scroll position after one callback. */
  function Next(p: nat, m: nat): nat {
    if p + 1 >= m then 0 else p + 1
  }

  function NextN(p: nat, m: nat, k: nat): nat {
    if k == 0 then p else Next(NextN(p, m, k - 1), m)
  }

  lemma {:induction false} NextNIs(p: nat, m: nat, k: nat)
    requires m > 0
    ensures p < m ==> NextN(p, m, k) == Rem(p + k, m)
    ensures p >= m && k > 0 ==> NextN(p, m, k) == Rem(k - 1, m)
  {
    if k > 0 {
      NextNIs(p, m, k - 1);
      if p < m {
        StepsRound(p + k - 1, m);
      } else if k > 1 {
        StepsRound(k - 2, m);
      }
    }
  }

  lemma StepsRound(n: nat, m: nat)
    requires m > 0
    ensures Next(Rem(n, m), m) == Rem(n + 1, m)
  {
    Divided(n, m);
    var q, r := Quo(n, m), Rem(n, m);
    hide Quo, Rem;
    if r + 1 == m {
      Distribute(m, q + 1, 1);
      Quotient(n + 1, m, q + 1, 0);
    } else {
      Quotient(n + 1, m, q, r + 1);
    }
  }

  /** The comparison at the end of a pass misses callbacks exactly when a whole
      number of scroll cycles went by. */
  lemma MissedExactlyWholeCycles(p: nat, m: nat, k: nat)
    requires m > 0
    ensures NextN(p, m, k) == p <==> k == 0 || (p < m && Rem(k, m) == 0)
  {
    NextNIs(p, m, k);
    Divided(k, m);
    var q, r := Quo(k, m), Rem(k, m);
    hide Quo, Rem;
    if p < m {
      if p + r < m {
        Quotient(p + k, m, q, p + r);
      } else {
        Distribute(m, q + 1, 1);
        Quotient(p + k, m, q + 1, p + r - m);
      }
    }
  }

  // --------------------------------------------------------------- the rendering

  predicate LayoutOk(layout: Layout) {
    |layout.widths| == |layout.speeds| == ALT_LCD_HEIGHT && layout.widths[0] <= 81 && layout.widths[1] <= 81
  }

  /** What the panel should show in row `y`, column `x`. */
  function Rendering(text: seq<Line>, layout: Layout, scrollpos: nat, y: nat, x: nat): byte
    requires |text| == ALT_LCD_HEIGHT && LayoutOk(layout)
    requires y < ALT_LCD_HEIGHT && x < ALT_LCD_WIDTH
  {
    var width := layout.widths[y];
    if width == 0 then text[y][x]
    else text[y][(x + Offset(width, layout.speeds[y], scrollpos)) % width]
  }

  const NO_LAYOUT := Layout([0, 0], [0, 0], 0)

  /** Where the longest line is about to leave the first cell: the next position
      shows another picture. */
  function LastCell(width: nat): nat
    requires width > ALT_LCD_WIDTH
  {
    2 * (width - 2) + 1
  }

  lemma LongestLineParameters(text: seq<Line>, y: nat)
    requires |text| == ALT_LCD_HEIGHT && y < ALT_LCD_HEIGHT && text[y][ALT_LCD_VIRTUAL_WIDTH] == BLANK
    requires ALT_LCD_WIDTH < Width(text[y]) == WidthMax(text)
    ensures var l, w := LayoutOf(text), Width(text[y]);
            && LayoutOk(l) && l.scrollMax == 2 * w && l.widths[y] == w && l.speeds[y] == Speed(w, 2 * w)
            && ALT_LCD_WIDTH + 2 <= w <= ALT_LCD_VIRTUAL_WIDTH + 1
            && text[y][w - 2] != BLANK && text[y][w - 1] == BLANK
  {
    hide Speed;
  }

  /** From there a whole cycle of callbacks leads back, so that nothing seems to
      be missed, while after the first of them the panel should have shown
      something else. */
  lemma LastCellMatters(text: seq<Line>, y: nat)
    requires |text| == ALT_LCD_HEIGHT && y < ALT_LCD_HEIGHT && text[y][ALT_LCD_VIRTUAL_WIDTH] == BLANK
    requires ALT_LCD_WIDTH < Width(text[y]) == WidthMax(text)
    ensures LayoutOk(LayoutOf(text))
    ensures var l, p := LayoutOf(text), LastCell(Width(text[y]));
            && p < l.scrollMax && NextN(p, l.scrollMax, l.scrollMax) == p
            && Rendering(text, l, Next(p, l.scrollMax), y, 0) != Rendering(text, l, p, y, 0)
  {
    LongestLineParameters(text, y);
    var w := Width(text[y]);
    var l, p := LayoutOf(text), LastCell(w);
    hide LayoutOf, Width, WidthMax, Quo, Rem, Speed;
    Quotient(l.scrollMax, l.scrollMax, 1, 0);
    MissedExactlyWholeCycles(p, l.scrollMax, l.scrollMax);
    LongestLineTwice(w, p, w - 2);
    LongestLineTwice(w, p + 1, w - 1);
    hide Offset, NextN;
    FirstCell(text, l, p, y);
    FirstCell(text, l, p + 1, y);
    hide Rendering;
  }

  lemma FirstCell(text: seq<Line>, layout: Layout, p: nat, y: nat)
    requires |text| == ALT_LCD_HEIGHT && LayoutOk(layout) && y < ALT_LCD_HEIGHT && layout.widths[y] > 0
    ensures var k := Offset(layout.widths[y], layout.speeds[y], p);
            k < layout.widths[y] && Rendering(text, layout, p, y, 0) == text[y][k]
  {
    hide Offset;
    var w := layout.widths[y];
    var k := Offset(w, layout.speeds[y], p);
    Quotient(0 + k, w, 0, k);
    assert (0 + k) % w == Rem(0 + k, w);
  }

  /** From the next position, one callback less than a cycle leads back. */
  lemma RoundTheRest(p: nat, m: nat)
    requires p < m
    ensures NextN(Next(p, m), m, m - 1) == p
  {
    hide NextN, Rem, Quo;
    NextNIs(Next(p, m), m, m - 1);
    if p + 1 == m {
      Quotient(m - 1, m, 0, m - 1);
    } else {
      Quotient(m + p, m, 1, p);
    }
  }

  /** A pass saves `p`; one callback of a cycle comes before its repaint reads the
      position and the others after it: it paints `Next(p, m)`, and the final
      comparison sees `p` again. */
  lemma OneCallbackEarly(p: nat, m: nat)
    requires p < m
    ensures NextN(p, m, 1) == Next(p, m) && NextN(NextN(p, m, 1), m, m - 1) == p
  {
    assert NextN(p, m, 1) == Next(NextN(p, m, 0), m) == Next(p, m);
    RoundTheRest(p, m);
  }

  /** Every text that scrolls has such a position: with one callback of a cycle
      before the position is read and the others after it, the pass paints a
      picture that is not the one due at its end, and sees nothing amiss. */
  lemma OverlookedCycle(text: seq<Line>)
    requires |text| == ALT_LCD_HEIGHT && ScrollMax(text) > 0
    requires text[0][ALT_LCD_VIRTUAL_WIDTH] == BLANK && text[1][ALT_LCD_VIRTUAL_WIDTH] == BLANK
    ensures LayoutOk(LayoutOf(text))
    ensures var l := LayoutOf(text);
            exists p: nat, y: nat ::
              && p < l.scrollMax && y < ALT_LCD_HEIGHT
              && var painted := NextN(p, l.scrollMax, 1);
                 && NextN(painted, l.scrollMax, l.scrollMax - 1) == p
                 && Rendering(text, l, painted, y, 0) != Rendering(text, l, p, y, 0)
  {
    var y := if Width(text[0]) == WidthMax(text) then 0 else 1;
    LastCellMatters(text, y);
    OneCallbackEarly(LastCell(Width(text[y])), LayoutOf(text).scrollMax);
    hide LayoutOf, LastCell, Rendering, NextN;
  }

  // --------------------------------------------------------------- what is seen

  /** Sixteen cells show the first `w` cells of a line from the k-th on, and
      after them the same cells again from the first on. */
  ghost predicate Turned(cells: seq<byte>, line: Line, w: nat, k: nat)
    requires |cells| == ALT_LCD_WIDTH && ALT_LCD_WIDTH <= w <= 81 && k < w
  {
    forall x :: 0 <= x < ALT_LCD_WIDTH ==> cells[x] == line[if k + x < w then k + x else k + x - w]
  }

  /** A line of which `n` cells are used shows turned by `k`, one blank added. At
      position `p` the longest line has turned by p / 2 cells, and every other
      line by its share of that, to within two cells. */
  ghost predicate TurnedAt(cells: seq<byte>, line: Line, n: nat, longest: nat, p: nat, k: nat)
    requires |cells| == ALT_LCD_WIDTH < n <= longest <= ALT_LCD_VIRTUAL_WIDTH
  {
    && k <= n && Turned(cells, line, n + 1, k)
    && (p < 2 * (longest + 1) ==> k * (2 * (longest + 1)) <= p * (n + 1) < (k + 2) * (2 * (longest + 1)))
    && (n == longest ==> k == if p / 2 <= n then p / 2 else 0)
  }

  /** A line shows as it stands if it fits. */
  ghost predicate RowDisplays(cells: seq<byte>, line: Line, n: nat, longest: nat, p: nat)
    requires |cells| == ALT_LCD_WIDTH && n <= longest <= ALT_LCD_VIRTUAL_WIDTH
  {
    if n <= ALT_LCD_WIDTH then cells == line[..ALT_LCD_WIDTH]
    else exists k: nat :: TurnedAt(cells, line, n, longest, p, k)
  }

  /** The controller's memory holds what a viewer of `text` should see. */
  ghost predicate Displays(ram: seq<byte>, text: seq<Line>, p: nat)
    requires |ram| == RAM_SIZE && |text| == ALT_LCD_HEIGHT
  {
    var n, m := Used(text[0], ALT_LCD_VIRTUAL_WIDTH), Used(text[1], ALT_LCD_VIRTUAL_WIDTH);
    && RowDisplays(ram[0x00..0x10], text[0], n, Max(n, m), p)
    && RowDisplays(ram[0x40..0x50], text[1], m, Max(n, m), p)
  }

  lemma StillRow(text: seq<Line>, y: nat, p: nat, cells: seq<byte>)
    requires |text| == ALT_LCD_HEIGHT && y < ALT_LCD_HEIGHT && |cells| == ALT_LCD_WIDTH
    requires Width(text[y]) == ALT_LCD_WIDTH && LayoutOk(LayoutOf(text))
    requires forall x :: 0 <= x < ALT_LCD_WIDTH ==> cells[x] == Rendering(text, LayoutOf(text), p, y, x)
    ensures cells == text[y][..ALT_LCD_WIDTH]
  {
    var l := LayoutOf(text);
    assert l.widths[y] == ALT_LCD_WIDTH && l.speeds[y] == 0;
    assert Offset(ALT_LCD_WIDTH, 0, p) == 0;
    hide LayoutOf, Offset;
    assert forall x :: 0 <= x < ALT_LCD_WIDTH ==> Rendering(text, l, p, y, x) == text[y][(x + 0) % ALT_LCD_WIDTH];
  }

  lemma TurnedRow(text: seq<Line>, layout: Layout, y: nat, p: nat, cells: seq<byte>)
    requires |text| == ALT_LCD_HEIGHT && y < ALT_LCD_HEIGHT && |cells| == ALT_LCD_WIDTH && LayoutOk(layout)
    requires ALT_LCD_WIDTH <= layout.widths[y] <= 81
    requires forall x :: 0 <= x < ALT_LCD_WIDTH ==> cells[x] == Rendering(text, layout, p, y, x)
    ensures var w := layout.widths[y]; Turned(cells, text[y], w, Offset(w, layout.speeds[y], p))
  {
    var w := layout.widths[y];
    var k := Offset(w, layout.speeds[y], p);
    hide Offset;
    forall x | 0 <= x < ALT_LCD_WIDTH
      ensures cells[x] == text[y][if k + x < w then k + x else k + x - w]
    {
      Quotient(x + k, w, if k + x < w then 0 else 1, if k + x < w then k + x else k + x - w);
      assert (x + k) % w == Rem(x + k, w);
    }
  }

  lemma MovingRow(text: seq<Line>, y: nat, p: nat, cells: seq<byte>, n: nat, longest: nat)
    requires |text| == ALT_LCD_HEIGHT && y < ALT_LCD_HEIGHT && |cells| == ALT_LCD_WIDTH && LayoutOk(LayoutOf(text))
    requires ALT_LCD_WIDTH < n <= longest <= ALT_LCD_VIRTUAL_WIDTH
    requires Width(text[y]) == n + 1 && WidthMax(text) == longest + 1
    requires forall x :: 0 <= x < ALT_LCD_WIDTH ==> cells[x] == Rendering(text, LayoutOf(text), p, y, x)
    ensures RowDisplays(cells, text[y], n, longest, p)
  {
    var w, l := n + 1, longest + 1;
    var layout := LayoutOf(text);
    assert layout.widths[y] == w && layout.speeds[y] == Speed(w, 2 * l);
    hide LayoutOf, Width, WidthMax;
    TurnedRow(text, layout, y, p, cells);
    hide Turned, Rendering;
    SpeedBounds(w, l);
    assert w == l ==> Speed(w, 2 * l) == 128;
    if p < 2 * l {
      OffsetTracks(w, l, p);
    }
    assert Offset(w, 128, p) == if p / 2 < w then p / 2 else 0;
    hide Quo, Speed;
    var k := Offset(w, layout.speeds[y], p);
    hide Offset;
    assert TurnedAt(cells, text[y], n, longest, p, k);
  }

  lemma RowIsDisplayed(text: seq<Line>, y: nat, p: nat, cells: seq<byte>)
    requires |text| == ALT_LCD_HEIGHT && y < ALT_LCD_HEIGHT && |cells| == ALT_LCD_WIDTH && LayoutOk(LayoutOf(text))
    requires forall x :: 0 <= x < ALT_LCD_WIDTH ==> cells[x] == Rendering(text, LayoutOf(text), p, y, x)
    ensures var n, m := Used(text[0], ALT_LCD_VIRTUAL_WIDTH), Used(text[1], ALT_LCD_VIRTUAL_WIDTH);
            RowDisplays(cells, text[y], if y == 0 then n else m, Max(n, m), p)
  {
    var n, m := Used(text[0], ALT_LCD_VIRTUAL_WIDTH), Used(text[1], ALT_LCD_VIRTUAL_WIDTH);
    hide Rendering, LayoutOf, Used, TurnedAt;
    if (if y == 0 then n else m) <= ALT_LCD_WIDTH {
      StillRow(text, y, p, cells);
    } else {
      MovingRow(text, y, p, cells, if y == 0 then n else m, Max(n, m));
    }
  }

  /** What the repaint leaves on the panel, told without its arithmetic. */
  lemma RowsAreDisplayed(ram: seq<byte>, text: seq<Line>, p: nat)
    requires |ram| == RAM_SIZE && |text| == ALT_LCD_HEIGHT && LayoutOk(LayoutOf(text))
    requires forall y, x :: 0 <= y < ALT_LCD_HEIGHT && 0 <= x < ALT_LCD_WIDTH ==>
               ram[ColStart(y) + x] == Rendering(text, LayoutOf(text), p, y, x)
    ensures Displays(ram, text, p)
  {
    hide LayoutOf, Rendering, Used, RowDisplays;
    var top, bottom := ram[0x00..0x10], ram[0x40..0x50];
    assert forall x :: 0 <= x < ALT_LCD_WIDTH ==> top[x] == ram[ColStart(0) + x] && bottom[x] == ram[ColStart(1) + x];
    RowIsDisplayed(text, 0, p, top);
    RowIsDisplayed(text, 1, p, bottom);
  }

  type PerLine = s: seq<nat> | |s| == ALT_LCD_HEIGHT witness [0, 0]

  class Lcd {
    const data: array2<byte>
    const visible: array2<byte>
    const escape: array<byte>
    var x: byte
    var y: byte
    var esccount: int
    var address: int
    var width: PerLine
    var speed: PerLine
    var scrollpos: byte
    var scrollmax: byte
    var active: bool
    var broken: bool
    /** The panel itself, and how often the timer has called back since the
        scroll position was `origin`. */
    ghost var panel: Controller
    ghost var origin: nat
    ghost var ticks: nat

    ghost predicate Buffers() {
      && data.Length0 == ALT_LCD_HEIGHT && data.Length1 == ALT_LCD_VIRTUAL_WIDTH + 1
      && visible.Length0 == ALT_LCD_HEIGHT && visible.Length1 == ALT_LCD_WIDTH
      && data != visible
      && escape.Length == ESCAPE_SIZE
    }

    ghost function Text(): (r: seq<Line>)
      requires Buffers()
      reads data
      ensures |r| == ALT_LCD_HEIGHT
      ensures forall j, i :: 0 <= j < ALT_LCD_HEIGHT && 0 <= i < 81 ==> r[j][i] == data[j, i]
    {
      [seq(81, i requires 0 <= i < 81 reads data => data[0, i]),
       seq(81, i requires 0 <= i < 81 reads data => data[1, i])]
    }

    /** The terminal that the driver implements. */
    ghost function Terminal(): Term
      requires Buffers()
      reads data, escape, `x, `y, `esccount
    {
      Term(x, y, esccount, escape[..], Text())
    }

    ghost function Scrolling(): Layout
      reads `width, `speed, `scrollmax
    {
      Layout(width, speed, scrollmax)
    }

    ghost predicate LayoutReady()
      requires Buffers()
      reads data, `width, `speed, `scrollmax
    {
      Scrolling() == LayoutOf(Text()) || Scrolling() == NO_LAYOUT
    }

    /** While the panel answers, the driver's copy of it is exact. */
    ghost predicate Mirrors()
      requires Buffers()
      reads visible, `address, `broken, `panel
    {
      && ControllerOk(panel)
      && (!broken ==>
            && panel.ac == address
            && forall j, i :: 0 <= j < ALT_LCD_HEIGHT && 0 <= i < ALT_LCD_WIDTH ==>
                 panel.ram[ColStart(j) + i] == visible[j, i])
    }

    ghost predicate Shows(p: nat)
      requires Buffers() && LayoutReady()
      reads data, visible, `width, `speed, `scrollmax
    {
      forall j, i :: 0 <= j < ALT_LCD_HEIGHT && 0 <= i < ALT_LCD_WIDTH ==>
        visible[j, i] == Rendering(Text(), Scrolling(), p, j, i)
    }

    /** What holds whenever the foreground is not writing. */
    ghost predicate Valid()
      reads data, visible, escape, `x, `y, `esccount, `address, `width, `speed, `scrollpos, `scrollmax,
            `active, `broken, `panel, `origin, `ticks
    {
      && Buffers() && TermOk(Terminal())
      && Mirrors() && LayoutReady() && Tracked() && !active
    }

    constructor (ghost controller: Controller)
      requires ControllerOk(controller)
      ensures Valid() && Shows(scrollpos) && fresh(data) && fresh(visible) && fresh(escape)
      ensures Terminal() == Term(0, 0, -1, seq(ESCAPE_SIZE, _ => NUL), BlankText())
    {
      data := new byte[ALT_LCD_HEIGHT, ALT_LCD_VIRTUAL_WIDTH + 1];
      visible := new byte[ALT_LCD_HEIGHT, ALT_LCD_WIDTH];
      escape := new byte[ESCAPE_SIZE];
      broken, panel := false, controller;
      speed := [0, 0];
      new;
      Initialise();
    }

    method Initialise()
      requires Buffers() && ControllerOk(panel) && speed == [0, 0]
      modifies data, visible, escape, `x, `y, `esccount, `address, `width, `scrollpos, `scrollmax,
               `active, `broken, `panel, `origin, `ticks
      ensures Valid() && Shows(scrollpos)
      ensures Terminal() == Term(0, 0, -1, seq(ESCAPE_SIZE, _ => NUL), BlankText())
    {
      ClearPanel();
      hide Mirrors, Shows, Tracked, LayoutReady, TermOk;
      Settle();
    }

    method Settle()
      requires Buffers() && Mirrors() && x == 0 && y == 0 && width == [0, 0] && speed == [0, 0]
      requires Text() == BlankText()
      requires forall j, i :: 0 <= j < ALT_LCD_HEIGHT && 0 <= i < ALT_LCD_WIDTH ==> visible[j, i] == BLANK
      modifies escape, `esccount, `scrollpos, `scrollmax, `active, `origin, `ticks
      ensures Valid() && Shows(scrollpos)
      ensures Terminal() == Term(0, 0, -1, seq(ESCAPE_SIZE, _ => NUL), BlankText())
    {
      hide LayoutOf, Mirrors, Shows;
      ResetEscape();
      scrollpos, scrollmax, active := 0, 0, false;
      origin, ticks := 0, 0;
      BlankScreen();
      assert TermOk(Terminal());
      hide TermOk;
    }

    method ResetEscape()
      requires escape.Length == ESCAPE_SIZE
      modifies `esccount, escape
      ensures esccount == -1 && escape[..] == seq(ESCAPE_SIZE, _ => NUL)
    {
      esccount := -1;
      forall i | 0 <= i < ESCAPE_SIZE {
        escape[i] := NUL;
      }
    }

    lemma BlankScreen()
      requires Buffers() && Scrolling() == NO_LAYOUT && Text() == BlankText()
      requires forall j, i :: 0 <= j < ALT_LCD_HEIGHT && 0 <= i < ALT_LCD_WIDTH ==> visible[j, i] == BLANK
      ensures Shows(0)
    {
      hide LayoutOf;
      assert forall j, i :: 0 <= j < ALT_LCD_HEIGHT && 0 <= i < 81 ==> Text()[j][i] == BLANK;
    }

    method ClearPanel()
      requires Buffers() && ControllerOk(panel)
      modifies `x, `y, `address, `width, `broken, `panel, data, visible
      ensures x == 0 && y == 0 && width == [0, 0] && Text() == BlankText() && Mirrors()
      ensures forall j, i :: 0 <= j < ALT_LCD_HEIGHT && 0 <= i < ALT_LCD_WIDTH ==> visible[j, i] == BLANK
    {
      WriteCommand(LCD_CMD_TWO_LINE);
      WriteCommand(LCD_CMD_DISPLAY_OFF);
      ClearScreen();
      hide Mirrors;
      TurnOn();
    }

    /** The closing commands leave the characters alone. */
    method TurnOn()
      requires Buffers() && Mirrors()
      modifies `broken, `panel
      ensures Mirrors()
    {
      WriteCommand(LCD_CMD_MODE_INC);
      WriteCommand(LCD_CMD_DISPLAY_ON);
    }

    /** The characters in the panel itself, as long as it answers. */
    ghost predicate OnPanel(p: nat)
      requires Buffers() && LayoutReady() && ControllerOk(panel)
      reads data, `width, `speed, `scrollmax, `broken, `panel
    {
      !broken ==>
        forall j, i :: 0 <= j < ALT_LCD_HEIGHT && 0 <= i < ALT_LCD_WIDTH ==>
          panel.ram[ColStart(j) + i] == Rendering(Text(), Scrolling(), p, j, i)
    }

    /** A panel that answers shows the text as a viewer should see it at `p`. */
    lemma InView(p: nat)
      requires Buffers() && Mirrors() && Scrolling() == LayoutOf(Text()) && LayoutReady() && Shows(p)
      ensures !broken ==> Displays(panel.ram, Text(), p)
    {
      FieldsFit(Text());
      hide LayoutOf, Rendering, Displays;
      if !broken {
        RowsAreDisplayed(panel.ram, Text(), p);
      }
    }

    // --------------------------------------------------------------- the panel

    method WriteCommand(command: byte)
      requires ControllerOk(panel)
      modifies `broken, `panel
      ensures ControllerOk(panel)
      ensures old(broken) ==> broken
      ensures panel == if broken then old(panel) else Commanded(old(panel), command)
    {
      if broken { return; }
      var staysBusy: bool := *;
      if staysBusy {
        broken := true;
        return;
      }
      panel := Commanded(panel, command);
    }

    method WriteData(c: byte)
      requires ControllerOk(panel)
      modifies `broken, `panel, `address
      ensures ControllerOk(panel)
      ensures old(broken) ==> broken
      ensures panel == if broken then old(panel) else Stored(old(panel), c)
      ensures address == if broken then old(address) else old(address) + 1
    {
      if broken { return; }
      var staysBusy: bool := *;
      if staysBusy {
        broken := true;
        return;
      }
      panel := Stored(panel, c);
      address := address + 1;
    }

    // ------------------------------------------------------------ the repaint

    /** The scroll position is where the callbacks since `origin` put it. */
    ghost predicate Tracked()
      reads `scrollpos, `scrollmax, `origin, `ticks
    {
      scrollpos == NextN(origin, scrollmax, ticks)
    }

    ghost predicate SameDisplay(wasBroken: bool, was: Controller, wasAddress: int)
      reads `broken, `panel, `address
    {
      broken == wasBroken && panel == was && address == wasAddress
    }

    /** Points the panel at the cell with address `target`. */
    method PointAt(foreground: bool, target: nat)
      requires Buffers() && Mirrors() && active == foreground && Tracked() && target < RAM_SIZE
      modifies `broken, `panel, `address, `scrollpos, `ticks, visible
      ensures Mirrors() && (!broken ==> address == target) && unchanged(visible)
      ensures Tracked() && ticks >= old(ticks) && (foreground || ticks == old(ticks))
      decreases if foreground then 8 else 1
    {
      hide Tracked;
      if target != address {
        WriteCommand(LCD_CMD_WRITE_DATA + target);
        Pause(foreground);
        address := target;
      }
      Pause(foreground);
    }

    /** Brings one cell up to date, with the panel traffic this needs. */
    method PaintCell(foreground: bool, row: nat, column: nat, c: byte)
      requires Buffers() && Mirrors() && active == foreground && Tracked()
      requires row < ALT_LCD_HEIGHT && column < ALT_LCD_WIDTH
      modifies `broken, `panel, `address, `scrollpos, `ticks, visible
      ensures Mirrors() && visible[row, column] == c
      ensures forall j, i :: 0 <= j < ALT_LCD_HEIGHT && 0 <= i < ALT_LCD_WIDTH && (j != row || i != column) ==>
                visible[j, i] == old(visible[j, i])
      ensures Tracked() && ticks >= old(ticks) && (foreground || ticks == old(ticks))
      decreases if foreground then 9 else 2
    {
      hide Tracked;
      if visible[row, column] != c {
        var target := column + ColStart(row);
        PointAt(foreground, target);
        WriteData(c);
        Pause(foreground);
        visible[row, column] := c;
      }
    }

    method PaintRow(foreground: bool, position: nat, row: nat)
      requires Buffers() && Mirrors() && Scrolling() == LayoutOf(Text()) && active == foreground && Tracked()
      requires row < ALT_LCD_HEIGHT
      modifies `broken, `panel, `address, `scrollpos, `ticks, visible
      ensures Mirrors() && Tracked() && ticks >= old(ticks) && (foreground || ticks == old(ticks))
      ensures forall i :: 0 <= i < ALT_LCD_WIDTH ==> visible[row, i] == Rendering(Text(), Scrolling(), position, row, i)
      ensures forall j, i :: 0 <= j < ALT_LCD_HEIGHT && 0 <= i < ALT_LCD_WIDTH && j != row ==>
                visible[j, i] == old(visible[j, i])
      decreases if foreground then 10 else 3
    {
      var w := width[row];
      var offset := position * speed[row] / 256;
      if offset >= w {
        offset := 0;
      }
      assert offset == Offset(w, speed[row], position);
      for column := 0 to ALT_LCD_WIDTH
        invariant Mirrors() && Tracked() && ticks >= old(ticks) && (foreground || ticks == old(ticks))
        invariant forall i :: 0 <= i < column ==> visible[row, i] == Rendering(Text(), Scrolling(), position, row, i)
        invariant forall j, i :: 0 <= j < ALT_LCD_HEIGHT && 0 <= i < ALT_LCD_WIDTH && j != row ==>
                    visible[j, i] == old(visible[j, i])
      {
        var c := data[row, (column + offset) % w];
        assert c == Rendering(Text(), Scrolling(), position, row, column);
        hide Rendering, Offset;
        PaintCell(foreground, row, column, c);
      }
    }

    method RepaintScreen(foreground: bool) returns (position: nat)
      requires Buffers() && Mirrors() && Scrolling() == LayoutOf(Text()) && active == foreground && Tracked()
      modifies `broken, `panel, `address, `scrollpos, `ticks, visible
      ensures Mirrors() && Shows(position)
      ensures Tracked() && ticks >= old(ticks) && (foreground || ticks == old(ticks))
      ensures ticks == old(ticks) ==> position == old(scrollpos)
      decreases if foreground then 11 else 4
    {
      assert LayoutOk(Scrolling());
      hide LayoutOf, LayoutOk, Rendering;
      Pause(foreground);
      position := scrollpos;
      for row := 0 to ALT_LCD_HEIGHT
        invariant Mirrors() && Tracked() && ticks >= old(ticks) && (foreground || ticks == old(ticks))
        invariant ticks == old(ticks) ==> position == old(scrollpos)
        invariant forall j, i :: 0 <= j < row && 0 <= i < ALT_LCD_WIDTH ==>
                    visible[j, i] == Rendering(Text(), Scrolling(), position, j, i)
      {
        PaintRow(foreground, position, row);
      }
    }

    /** The panel moves on with the scroll position. */
    method Follow()
      requires Buffers() && Tracked() && !active && scrollmax > 0 && LayoutReady() && Mirrors()
      modifies `broken, `panel, `address, `scrollpos, `ticks, visible
      ensures Tracked() && Mirrors() && ticks == old(ticks) && scrollpos == old(scrollpos) && Shows(scrollpos)
      ensures !broken ==> Displays(panel.ram, Text(), scrollpos)
      decreases 5, 0
    {
      hide Displays;
      var position := RepaintScreen(false);
      InView(scrollpos);
    }

    /** The timer callback. */
    method Timeout()
      requires Buffers() && Tracked() && (!active ==> LayoutReady() && Mirrors())
      modifies `broken, `panel, `address, `scrollpos, `ticks, visible
      ensures ticks == old(ticks) + 1 && scrollpos == Next(old(scrollpos), scrollmax) && Tracked()
      ensures active || scrollmax == 0 ==> SameDisplay(old(broken), old(panel), old(address)) && unchanged(visible)
      ensures !active ==> Mirrors()
      ensures !active && scrollmax > 0 ==> Shows(scrollpos)
      ensures !active && scrollmax > 0 && !broken ==> Displays(panel.ram, Text(), scrollpos)
      decreases 5
    {
      hide Displays;
      if scrollpos + 1 >= scrollmax {
        scrollpos := 0;
      } else {
        scrollpos := scrollpos + 1;
      }
      ticks := ticks + 1;
      if scrollmax > 0 && !active {
        Follow();
      }
    }

    /** Any number of callbacks between two steps of the foreground code. */
    method Preempt()
      requires Buffers() && Tracked() && (!active ==> LayoutReady() && Mirrors())
      modifies `broken, `panel, `address, `scrollpos, `ticks, visible
      ensures Tracked() && ticks >= old(ticks)
      ensures active ==> SameDisplay(old(broken), old(panel), old(address)) && unchanged(visible)
      ensures ticks == old(ticks) ==> scrollpos == old(scrollpos)
      ensures ticks == old(ticks) || scrollmax == 0 ==> unchanged(visible)
      ensures !active ==> Mirrors()
      ensures !active && old(Shows(scrollpos)) ==> Shows(scrollpos)
      ensures !active && scrollmax > 0 && ticks > old(ticks) ==> Shows(scrollpos)
      decreases 6
    {
      var rounds: int :| 0 <= rounds;
      for n := 0 to rounds
        invariant Tracked() && ticks == old(ticks) + n
        invariant active || scrollmax == 0 ==> SameDisplay(old(broken), old(panel), old(address)) && unchanged(visible)
        invariant n == 0 ==> unchanged(visible) && scrollpos == old(scrollpos)
        invariant !active ==> Mirrors()
        invariant !active && scrollmax > 0 && n > 0 ==> Shows(scrollpos)
      {
        Timeout();
      }
      if scrollmax == 0 && !active {
        StillScreen(old(scrollpos), scrollpos);
      }
    }

    /** With nothing to scroll the position does not matter. */
    lemma StillScreen(p: nat, q: nat)
      requires Buffers() && LayoutReady() && scrollmax == 0
      ensures Shows(p) <==> Shows(q)
    {
      assert speed[0] == speed[1] == 0;
      assert forall w: nat :: Offset(w, 0, p) == Offset(w, 0, q);
      hide Offset, LayoutOf;
    }

    /** A point of the foreground code where the timer may interrupt. */
    method Pause(foreground: bool)
      requires Buffers() && Tracked() && active == foreground
      modifies `broken, `panel, `address, `scrollpos, `ticks, visible
      ensures SameDisplay(old(broken), old(panel), old(address)) && unchanged(visible)
      ensures Tracked() && ticks >= old(ticks) && (foreground || ticks == old(ticks))
      ensures ticks == old(ticks) ==> scrollpos == old(scrollpos)
      decreases if foreground then 7 else 0
    {
      if foreground {
        Preempt();
      }
    }

    // ------------------------------------------------------------- the terminal

    lemma TextIs(text: seq<Line>)
      requires Buffers() && |text| == ALT_LCD_HEIGHT
      requires forall j, i :: 0 <= j < ALT_LCD_HEIGHT && 0 <= i < 81 ==> data[j, i] == text[j][i]
      ensures Text() == text
    {
      assert Text()[0] == text[0] && Text()[1] == text[1];
    }

    method ScrollUp()
      requires Buffers() && y > 0
      modifies `y, data
      ensures y == old(y) - 1 && Text() == ScrolledUp(old(Text()))
    {
      ghost var was := Text();
      for j := 0 to ALT_LCD_HEIGHT
        invariant forall k, i :: 0 <= k < j && 0 <= i < 81 ==> data[k, i] == ScrolledUp(was)[k][i]
        invariant forall k, i :: j <= k < ALT_LCD_HEIGHT && 0 <= i < 81 ==> data[k, i] == was[k][i]
        modifies data
      {
        if j < ALT_LCD_HEIGHT - 1 {
          forall i | 0 <= i < ALT_LCD_VIRTUAL_WIDTH {
            data[j, i] := data[j + 1, i];
          }
        } else {
          forall i | 0 <= i < ALT_LCD_VIRTUAL_WIDTH {
            data[j, i] := BLANK;
          }
        }
      }
      y := y - 1;
      TextIs(ScrolledUp(was));
    }

    method ClearScreen()
      requires Buffers() && ControllerOk(panel)
      modifies `x, `y, `address, `width, `broken, `panel, data, visible
      ensures x == 0 && y == 0 && width == [0, 0] && Text() == BlankText() && Mirrors()
      ensures forall j, i :: 0 <= j < ALT_LCD_HEIGHT && 0 <= i < ALT_LCD_WIDTH ==> visible[j, i] == BLANK
    {
      WriteCommand(LCD_CMD_CLEAR);
      x, y, address := 0, 0, 0;
      width := [0, 0];
      for j := 0 to ALT_LCD_HEIGHT
        invariant forall k, i :: 0 <= k < j && 0 <= i < 81 ==> data[k, i] == BLANK
        invariant forall k, i :: 0 <= k < j && 0 <= i < ALT_LCD_WIDTH ==> visible[k, i] == BLANK
        modifies data, visible
      {
        forall i | 0 <= i < ALT_LCD_VIRTUAL_WIDTH + 1 {
          data[j, i] := BLANK;
        }
        forall i | 0 <= i < ALT_LCD_WIDTH {
          visible[j, i] := BLANK;
        }
      }
      TextIs(BlankText());
    }

    /** One decimal parameter, up to the first character that is no digit. */
    method ReadNumber(start: nat, ghost nul: nat) returns (value: nat, next: nat)
      requires escape.Length == ESCAPE_SIZE && start <= nul < ESCAPE_SIZE && escape[nul] == NUL
      ensures (value, next) == Number(escape[..], start, 0) && next <= nul
    {
      value, next := 0, start;
      while IsDigit(escape[next])
        invariant start <= next <= nul
        invariant Number(escape[..], next, value) == Number(escape[..], start, 0)
        decreases nul - next
      {
        value, next := value * 10 + (escape[next] - 48), next + 1;
      }
    }

    method ReadParms() returns (parm1: int, parm2: nat)
      requires escape.Length == ESCAPE_SIZE && 0 <= esccount < ESCAPE_SIZE && escape[esccount] == NUL
      ensures (parm1, parm2) == Parms(escape[..])
    {
      parm1, parm2 := 0, 0;
      if escape[0] == BRACKET {
        var next;
        parm1, next := ReadNumber(1, esccount);
        if escape[next] == SEMICOLON {
          parm2, next := ReadNumber(next + 1, esccount);
        }
      } else {
        parm1 := -1;
      }
    }

    method MoveCursor(parm1: int, parm2: nat)
      requires Buffers() && TermOk(Terminal())
      modifies `x, `y, data
      ensures Terminal() == MovedTo(old(Terminal()), parm1, parm2)
    {
      if parm2 > 0 {
        x := (parm2 - 1) % 256;
      }
      if parm1 > 0 {
        y := (parm1 - 1) % 256;
        if y > ALT_LCD_HEIGHT * 2 {
          y := ALT_LCD_HEIGHT * 2;
        }
        ghost var lines := if y > ALT_LCD_HEIGHT then y - ALT_LCD_HEIGHT else 0;
        while y > ALT_LCD_HEIGHT
          invariant lines > 0 ==> y >= ALT_LCD_HEIGHT
          invariant lines == 0 ==> y == (parm1 - 1) % 256
          invariant ScrolledBy(Text(), if y > ALT_LCD_HEIGHT then y - ALT_LCD_HEIGHT else 0) ==
                    ScrolledBy(old(Text()), lines)
          modifies `y, data
        {
          ScrollUp();
        }
      }
    }

    method EraseToEnd()
      requires Buffers() && y < ALT_LCD_HEIGHT && x < ALT_LCD_VIRTUAL_WIDTH
      modifies data
      ensures Text() == old(Text())[y := Erased(old(Text())[y], x)]
    {
      ghost var was := Text();
      forall i | x <= i < ALT_LCD_VIRTUAL_WIDTH {
        data[y, i] := BLANK;
      }
      TextIs(was[y := Erased(was[y], x)]);
    }

    method HandleEscape(c: byte)
      requires Buffers() && Mirrors() && TermOk(Terminal())
      requires esccount >= 0 && escape[esccount] == NUL && !ErasesBelow(Terminal(), Parms(escape[..]).0, c)
      modifies `x, `y, `address, `width, `broken, `panel, data, visible
      ensures Mirrors() && Terminal() == Execute(old(Terminal()), Parms(escape[..]), c)
    {
      var parm1, parm2 := ReadParms();
      hide Parms;
      if c == UPPER_H || c == LOWER_F {
        MoveCursor(parm1, parm2);
      } else if c == UPPER_J {
        if parm1 == 2 {
          ClearScreen();
        }
      } else if c == UPPER_K {
        if parm1 < 1 {
          if x < ALT_LCD_VIRTUAL_WIDTH {
            EraseToEnd();
          }
        }
      }
    }

    method PutPrintable(c: byte)
      requires Buffers() && TermOk(Terminal())
      modifies `x, `y, data
      ensures Terminal() == StepPrint(old(Terminal()), c)
    {
      if y >= ALT_LCD_HEIGHT {
        ScrollUp();
      }
      if x < ALT_LCD_VIRTUAL_WIDTH {
        ghost var was := Text();
        data[y, x] := c;
        TextIs(was[y := was[y][x := c]]);
      }
      x := (x + 1) % 256;
    }

    method PutEscape(c: byte)
      requires Buffers() && Mirrors() && TermOk(Terminal()) && Safe(Terminal(), c) && esccount >= 0
      modifies `x, `y, `esccount, `address, `width, `broken, `panel, data, visible, escape
      ensures Mirrors() && Terminal() == StepEscape(old(Terminal()), c)
    {
      if (esccount == 0 && c != BRACKET) || (esccount > 0 && !IsDigit(c) && c != SEMICOLON) {
        escape[esccount] := NUL;
        HandleEscape(c);
        esccount := -1;
      } else if esccount < ESCAPE_SIZE - 1 {
        escape[esccount] := c;
        esccount := esccount + 1;
      }
    }

    method PutChar(c: byte)
      requires Buffers() && Mirrors() && TermOk(Terminal()) && Safe(Terminal(), c)
      modifies `x, `y, `esccount, `address, `width, `broken, `panel, data, visible, escape
      ensures Mirrors() && Terminal() == Step(old(Terminal()), c)
    {
      if esccount >= 0 {
        PutEscape(c);
      } else if c == ESC {
        esccount := 0;
      } else if c == CR {
        x := 0;
      } else if c == LF {
        x := 0;
        y := y + 1;
        if y > ALT_LCD_HEIGHT {
          ScrollUp();
        }
      } else if c == BS {
        if x > 0 {
          x := x - 1;
        }
      } else if IsPrint(c) {
        PutPrintable(c);
      }
    }

    // ------------------------------------------------- the scrolling parameters

    method UsedWidth(row: nat) returns (n: nat)
      requires Buffers() && row < ALT_LCD_HEIGHT
      ensures n == Used(Text()[row], ALT_LCD_VIRTUAL_WIDTH)
    {
      n := ALT_LCD_VIRTUAL_WIDTH;
      while n > 0
        invariant n <= ALT_LCD_VIRTUAL_WIDTH
        invariant Used(Text()[row], n) == Used(Text()[row], ALT_LCD_VIRTUAL_WIDTH)
      {
        if data[row, n - 1] != BLANK { break; }
        n := n - 1;
      }
    }

    /** Sets widths and speeds for the text; every value fits its 8-bit field. */
    method Recalculate()
      requires Buffers()
      modifies `width, `speed, `scrollmax
      ensures Scrolling() == LayoutOf(Text())
      ensures scrollmax <= 162 && forall j :: 0 <= j < ALT_LCD_HEIGHT ==> width[j] <= 81 && speed[j] <= 128
    {
      FieldsFit(Text());
      WidestLine(Text());
      var widthmax := MeasureLines();
      hide Width, WidthMax, Speed;
      SetSpeeds(widthmax);
    }

    lemma WidestLine(text: seq<Line>)
      requires |text| == ALT_LCD_HEIGHT
      ensures ALT_LCD_WIDTH <= WidthMax(text) <= ALT_LCD_VIRTUAL_WIDTH + 1
    {
    }

    method MeasureLines() returns (widthmax: nat)
      requires Buffers()
      modifies `width, `speed
      ensures width == [Width(Text()[0]), Width(Text()[1])] && speed == [0, 0]
      ensures widthmax == WidthMax(Text())
    {
      hide Width;
      widthmax := ALT_LCD_WIDTH;
      for j := 0 to ALT_LCD_HEIGHT
        invariant forall k :: 0 <= k < j ==> width[k] == Width(Text()[k]) && speed[k] == 0
        invariant widthmax == if j == 0 then ALT_LCD_WIDTH
                              else if j == 1 then Max(ALT_LCD_WIDTH, Width(Text()[0]))
                              else WidthMax(Text())
        modifies `width, `speed
      {
        var w := MeasureLine(j);
        width := width[j := w];
        if widthmax < w {
          widthmax := w;
        }
        speed := speed[j := 0];
      }
    }

    /** All lines finish their turn together; lines that fit do not scroll. */
    method SetSpeeds(widthmax: nat)
      requires ALT_LCD_WIDTH <= widthmax <= ALT_LCD_VIRTUAL_WIDTH + 1 && speed == [0, 0]
      modifies `speed, `scrollmax
      ensures scrollmax == if widthmax <= ALT_LCD_WIDTH then 0 else 2 * widthmax
      ensures speed == [Speed(width[0], scrollmax), Speed(width[1], scrollmax)]
    {
      if widthmax <= ALT_LCD_WIDTH {
        scrollmax := 0;
      } else {
        scrollmax := widthmax * 2;
        for j := 0 to ALT_LCD_HEIGHT
          invariant forall k :: 0 <= k < ALT_LCD_HEIGHT ==>
                      speed[k] == if k < j then Speed(width[k], scrollmax) else 0
          modifies `speed
        {
          if width[j] > ALT_LCD_WIDTH {
            speed := speed[j := Quo(256 * width[j], scrollmax)];
          }
        }
      }
    }

    method MeasureLine(row: nat) returns (w: nat)
      requires Buffers() && row < ALT_LCD_HEIGHT
      ensures w == Width(Text()[row])
    {
      w := UsedWidth(row);
      if w <= ALT_LCD_WIDTH {
        w := ALT_LCD_WIDTH;
      } else {
        w := w + 1;
      }
    }

    // --------------------------------------------------------------- the write

    /** Fewer callbacks than positions in a scroll cycle since the pass began. */
    ghost predicate Unhurried()
      reads `scrollmax, `ticks
    {
      scrollmax == 0 || ticks < scrollmax
    }

    /** Repaints until no callback was missed, or `patience` runs out. */
    method RepaintUntilQuiet(patience: nat) returns (done: bool)
      requires Buffers() && Mirrors() && Scrolling() == LayoutOf(Text()) && active && Tracked()
      modifies `broken, `panel, `address, `scrollpos, `origin, `ticks, `active, visible
      ensures Mirrors() && Tracked() && active == !done
      ensures done && Unhurried() ==> Shows(scrollpos)
    {
      done := false;
      for pass := 0 to patience
        invariant Mirrors() && Tracked() && active
      {
        done := RepaintPass();
        if done { return; }
        Preempt();
        active := true;
      }
    }

    /** One pass; `done` when the scroll position is what it was before it. */
    method RepaintPass() returns (done: bool)
      requires Buffers() && Mirrors() && Scrolling() == LayoutOf(Text()) && active
      modifies `broken, `panel, `address, `scrollpos, `origin, `ticks, `active, visible
      ensures Mirrors() && Tracked() && !active
      ensures done && Unhurried() ==> Shows(scrollpos)
    {
      hide LayoutOf, Rendering;
      origin, ticks := scrollpos, 0;
      var oldScrollpos := scrollpos;
      var position := RepaintScreen(true);
      Preempt();
      active := false;
      Preempt();
      done := scrollpos == oldScrollpos;
      if scrollmax == 0 {
        StillScreen(position, scrollpos);
      } else if done && Unhurried() {
        MissedExactlyWholeCycles(origin, scrollmax, ticks);
      }
    }

    method Write(ptr: seq<byte>, patience: nat) returns (done: bool)
      requires Valid() && SafeFeed(Terminal(), ptr)
      modifies data, visible, escape, `x, `y, `esccount, `address, `width, `speed, `scrollpos, `scrollmax,
               `active, `broken, `panel, `origin, `ticks
      ensures Buffers() && Terminal() == Feed(old(Terminal()), ptr)
      ensures Scrolling() == LayoutOf(Text())
      ensures active == !done && (done ==> Valid())
      ensures done && Unhurried() ==> Shows(scrollpos) && OnPanel(scrollpos)
      ensures done && Unhurried() && !broken ==> Displays(panel.ram, Text(), scrollpos)
    {
      hide LayoutOf, Rendering, Feed, SafeFeed, Mirrors, Tracked, TermOk, Shows, OnPanel, Displays;
      active := true;
      PutAll(ptr);
      Preempt();
      done := Refresh(patience);
    }

    /** New scrolling parameters, then repaints. */
    method Refresh(patience: nat) returns (done: bool)
      requires Buffers() && Mirrors() && active
      modifies visible, `address, `width, `speed, `scrollpos, `scrollmax, `active, `broken, `panel, `origin, `ticks
      ensures Scrolling() == LayoutOf(Text()) && Mirrors() && ControllerOk(panel) && Tracked() && active == !done
      ensures done && Unhurried() ==> Shows(scrollpos) && OnPanel(scrollpos)
      ensures done && Unhurried() && !broken ==> Displays(panel.ram, Text(), scrollpos)
    {
      hide LayoutOf, Rendering, Mirrors, Tracked, Shows, OnPanel, Displays;
      Recalculate();
      RestartCount();
      Preempt();
      done := RepaintUntilQuiet(patience);
      if done && Unhurried() {
        PanelShows(scrollpos);
        InView(scrollpos);
      }
    }

    ghost method RestartCount()
      modifies `origin, `ticks
      ensures Tracked()
    {
      origin, ticks := scrollpos, 0;
    }

    lemma PanelShows(p: nat)
      requires Buffers() && LayoutReady() && Mirrors() && Shows(p)
      ensures OnPanel(p)
    {
    }

    method PutAll(ptr: seq<byte>)
      requires Buffers() && Mirrors() && TermOk(Terminal()) && SafeFeed(Terminal(), ptr)
      requires Tracked() && active
      modifies data, visible, escape, `x, `y, `esccount, `address, `width, `scrollpos,
               `broken, `panel, `ticks
      ensures Mirrors() && Tracked() && Terminal() == Feed(old(Terminal()), ptr)
    {
      hide Step, TermOk, Safe;
      assert ptr[0..] == ptr;
      for n := 0 to |ptr|
        invariant Mirrors() && Tracked() && TermOk(Terminal())
        invariant SafeFeed(Terminal(), ptr[n..])
        invariant Feed(Terminal(), ptr[n..]) == Feed(old(Terminal()), ptr)
      {
        Preempt();
        assert ptr[n..][0] == ptr[n] && ptr[n..][1..] == ptr[n + 1..];
        PutChar(ptr[n]);
      }
    }
  }

  /** Two drivers in the same terminal state, one given `a` and then `b`, the
      other everything at once, end with the same text, cursor, escape state and
      scrolling parameters, however callbacks and repaints fall in each. The
      second write of the pair needs the first to have come to rest. */
  method WriteInParts(parts: Lcd, whole: Lcd, a: seq<byte>, b: seq<byte>, patience: nat) returns (done: bool)
    requires parts.Valid() && whole.Valid() && parts.Terminal() == whole.Terminal()
    requires parts != whole && {parts.data, parts.visible} !! {whole.data, whole.visible}
    requires parts.escape != whole.escape
    requires SafeFeed(whole.Terminal(), a + b)
    modifies parts, parts.data, parts.visible, parts.escape, whole, whole.data, whole.visible, whole.escape
    ensures !done ==>
              && parts.active && parts.Buffers() && SafeFeed(old(parts.Terminal()), a)
              && parts.Terminal() == Feed(old(parts.Terminal()), a)
    ensures done ==>
              && parts.Buffers() && whole.Buffers()
              && parts.Terminal() == whole.Terminal() && parts.Scrolling() == whole.Scrolling()
  {
    SplitIsInvisible(whole.Terminal(), a, b);
    hide Lcd.LayoutReady, Lcd.Mirrors, Lcd.Tracked, TermOk, Feed, SafeFeed, LayoutOf;
    done := parts.Write(a, patience);
    if done {
      var rest := parts.Write(b, patience);
      rest := whole.Write(a + b, patience);
    }
  }
}
