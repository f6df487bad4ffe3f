/** The driver from end to end: what is written and what the panel shows. */
module LcdPanel {
  import opened LcdDriver
  import opened LcdScroll
  import opened LcdStreams
  import opened LcdTerminal
  import opened Words

  /** Sixteen cells with `s` at the front. */
  function Row(s: Printing): seq<byte>
    requires |s| <= 16
  {
    s + Spaces(16 - |s|)
  }

  /** Lines of text written to a fresh display: once the write has come to rest,
      a panel that answers shows the last two of them, if they fit, at the
      addresses of its two rows. */
  method ShowLines(lcd: Lcd, lines: seq<Printing>, patience: nat) returns (done: bool)
    requires lcd.Valid() && lcd.Terminal() == Term(0, 0, -1, lcd.escape[..], BlankText())
    requires |lines| >= 2 && lines[|lines| - 1] != [] && |lines[|lines| - 1]| <= 16 && |lines[|lines| - 2]| <= 16
    modifies lcd, lcd.data, lcd.visible, lcd.escape
    ensures done && !lcd.broken ==>
              && |lcd.panel.ram| == RAM_SIZE
              && lcd.panel.ram[0x00..0x10] == Row(lines[|lines| - 2])
              && lcd.panel.ram[0x40..0x50] == Row(lines[|lines| - 1])
  {
    hide Lcd.LayoutReady, Lcd.Tracked, TermOk, Feed, SafeFeed, LayoutOf, Lcd.Shows, Lcd.OnPanel, Displays;
    FreshIsBlank();
    LastTwoLines(lines, lcd.escape[..]);
    done := lcd.Write(Join(lines), patience);
    if done && !lcd.broken {
      ShortLinesFit(lcd.panel.ram, lcd.Text(), lcd.scrollpos, lines[|lines| - 2], lines[|lines| - 1]);
    }
  }

  lemma FreshIsBlank()
    ensures BlankText() == [Padded([]), Padded([])]
  {
    assert Blanks(81) == Padded([]);
  }

  lemma ShortLinesFit(ram: seq<byte>, text: seq<Line>, p: nat, a: Printing, b: Printing)
    requires |ram| == RAM_SIZE && text == [Padded(a), Padded(b)] && |a| <= 16 && |b| <= 16
    ensures LayoutOf(text).scrollMax == 0
    ensures Displays(ram, text, p) ==> ram[0x00..0x10] == Row(a) && ram[0x40..0x50] == Row(b)
  {
    UsedShort(a);
    UsedShort(b);
    assert Padded(a)[..16] == Row(a) && Padded(b)[..16] == Row(b);
  }

  lemma UsedShort(a: Printing)
    ensures Used(Padded(a), 80) <= |a|
  {
    assert forall i :: |a| <= i < 81 ==> Padded(a)[i] == 32;
    hide Used;
  }
}
