/** Horizontal scrolling in 8-bit fixed point: every line goes round once while
    the longest line goes round once. */

module LcdScroll {
  import opened Division
  import opened Words

  const ALT_LCD_HEIGHT := 2
  const ALT_LCD_WIDTH := 16
  const ALT_LCD_VIRTUAL_WIDTH := 80
  const BLANK := 32

  type Line = s: seq<byte> | |s| == 81 witness seq(81, _ => 32)

  /** The used length of the first `n` cells. */
  function Used(line: Line, n: nat): (r: nat)
    requires n <= ALT_LCD_VIRTUAL_WIDTH
    ensures r <= n
    ensures forall i :: r <= i < n ==> line[i] == BLANK
    ensures r > 0 ==> line[r - 1] != BLANK
  {
    if n == 0 then 0 else if line[n - 1] != BLANK then n else Used(line, n - 1)
  }

  /** At least the panel; one extra blank cell once the line has to scroll. */
  function Width(line: Line): (w: nat)
    ensures w == ALT_LCD_WIDTH || ALT_LCD_WIDTH + 2 <= w <= ALT_LCD_VIRTUAL_WIDTH + 1
    ensures w > ALT_LCD_WIDTH && line[80] == BLANK ==> line[w - 1] == BLANK
  {
    var n := Used(line, ALT_LCD_VIRTUAL_WIDTH);
    if n <= ALT_LCD_WIDTH then ALT_LCD_WIDTH else n + 1
  }

  function Max(a: nat, b: nat): nat {
    if a < b then b else a
  }

  function WidthMax(text: seq<Line>): nat
    requires |text| == ALT_LCD_HEIGHT
  {
    Max(Max(ALT_LCD_WIDTH, Width(text[0])), Width(text[1]))
  }

  function ScrollMax(text: seq<Line>): nat
    requires |text| == ALT_LCD_HEIGHT
  {
    if WidthMax(text) <= ALT_LCD_WIDTH then 0 else 2 * WidthMax(text)
  }

  function Speed(width: nat, scrollMax: nat): nat {
    if scrollMax == 0 || width <= ALT_LCD_WIDTH then 0 else Quo(256 * width, scrollMax)
  }

  /** The scrolling parameters, a function of the text alone. */
  datatype Layout = Layout(widths: seq<nat>, speeds: seq<nat>, scrollMax: nat)

  function LayoutOf(text: seq<Line>): Layout
    requires |text| == ALT_LCD_HEIGHT
  {
    var m := ScrollMax(text);
    Layout([Width(text[0]), Width(text[1])], [Speed(Width(text[0]), m), Speed(Width(text[1]), m)], m)
  }

  /** How far a line has moved at `scrollpos`. */
  function Offset(width: nat, speed: nat, scrollpos: nat): (r: nat)
    ensures width > 0 ==> r < width
  {
    var offset := scrollpos * speed / 256;
    if offset >= width then 0 else offset
  }

  // ------------------------------------------------------------ the arithmetic

  predicate Scrolling(width: nat, longest: nat) {
    ALT_LCD_WIDTH < width <= longest <= ALT_LCD_VIRTUAL_WIDTH + 1
  }

  /** Everything fits the 8-bit fields it is stored in. */
  lemma FieldsFit(text: seq<Line>)
    requires |text| == ALT_LCD_HEIGHT
    ensures var l := LayoutOf(text);
            && l.scrollMax <= 162
            && (forall y :: 0 <= y < ALT_LCD_HEIGHT ==> l.widths[y] <= 81 && l.speeds[y] <= 128)
  {
    var m := ScrollMax(text);
    if m > 0 {
      SpeedBounds(Width(text[0]), WidthMax(text));
      SpeedBounds(Width(text[1]), WidthMax(text));
    }
  }

  lemma SpeedBounds(width: nat, longest: nat)
    requires 0 < width <= longest
    ensures var s := Quo(256 * width, 2 * longest);
            && longest * s <= 128 * width < longest * (s + 1)
            && s <= 128
            && (width == longest ==> s == 128)
  {
    var s := Quo(256 * width, 2 * longest);
    Divided(256 * width, 2 * longest);
    hide Quo, Rem;
    assert 2 * longest * s == 2 * (longest * s);
    assert longest * (s + 1) == longest * s + longest;
    if s > 128 {
      MulMonotone(longest, 129, s);
    }
    if width == longest && s < 128 {
      MulMonotone(longest, s + 1, 128);
    }
  }

  /** A scrolling line never runs past its own width within a cycle. */
  lemma OffsetStaysInside(width: nat, longest: nat, scrollpos: nat)
    requires Scrolling(width, longest) && scrollpos < 2 * longest
    ensures var speed := Speed(width, 2 * longest);
            scrollpos * speed / 256 < width && Offset(width, speed, scrollpos) == scrollpos * speed / 256
  {
    var s := Speed(width, 2 * longest);
    SpeedBounds(width, longest);
    hide Quo;
    MulMonotone(s, scrollpos, 2 * longest - 1);
    assert s * (2 * longest - 1) == 2 * (longest * s) - s;
    assert scrollpos * s == s * scrollpos <= 256 * width - s;
    assert s >= 1 by {
      assert 128 * width < longest * (s + 1);
    }
  }

  /** The longest line shows every offset for exactly two positions of the cycle. */
  lemma LongestLineTwice(longest: nat, scrollpos: nat, k: nat)
    requires Scrolling(longest, longest) && scrollpos < 2 * longest
    ensures Offset(longest, Speed(longest, 2 * longest), scrollpos) == k <==>
              scrollpos == 2 * k || scrollpos == 2 * k + 1
  {
    SpeedBounds(longest, longest);
    OffsetStaysInside(longest, longest, scrollpos);
  }

  /** Every other line ends the cycle one or two cells short of a full turn. */
  lemma CycleEnd(width: nat, longest: nat)
    requires Scrolling(width, longest)
    ensures var last := Offset(width, Speed(width, 2 * longest), 2 * longest - 1);
            last == width - 1 || last == width - 2
  {
    var s := Speed(width, 2 * longest);
    SpeedBounds(width, longest);
    OffsetStaysInside(width, longest, 2 * longest - 1);
    hide Quo;
    assert longest * (s + 1) == longest * s + longest;
    assert (2 * longest - 1) * s == 2 * (longest * s) - s;
    assert (2 * longest - 1) * s > 256 * width - 2 * longest - s;
  }

  /** Every line keeps up with its own full turn to within two cells. */
  lemma OffsetTracks(width: nat, longest: nat, scrollpos: nat)
    requires Scrolling(width, longest) && scrollpos < 2 * longest
    ensures var k := Offset(width, Speed(width, 2 * longest), scrollpos);
            k * (2 * longest) <= scrollpos * width < (k + 2) * (2 * longest)
  {
    var s := Speed(width, 2 * longest);
    var k := Offset(width, s, scrollpos);
    SpeedBounds(width, longest);
    OffsetStaysInside(width, longest, scrollpos);
    hide Quo, Speed, Offset;
    Tracks(width, longest, scrollpos, s, k);
  }

  lemma Tracks(w: nat, l: nat, p: nat, s: nat, k: nat)
    requires 256 * k <= p * s < 256 * (k + 1) && p < 256
    requires l > 0 && l * s <= 128 * w && 128 * w <= l * (s + 1)
    ensures k * (2 * l) <= p * w < (k + 2) * (2 * l)
  {
    var ps := p * s;
    assert l * (256 * k) <= l * ps <= l * (256 * k + 255) by {
      MulMonotone(l, 256 * k, ps);
      MulMonotone(l, ps, 256 * k + 255);
    }
    assert p * (l * s) <= p * (128 * w) <= p * (l * s + l) by {
      assert l * (s + 1) == l * s + l;
      MulMonotone(p, l * s, 128 * w);
      MulMonotone(p, 128 * w, l * s + l);
    }
    assert l * p <= l * 255 by {
      MulMonotone(l, p, 255);
    }
    Shuffled(w, l, p, s, k);
    TracksLinear(l * k, l * ps, p * w, l * p, l);
  }

  lemma Shuffled(w: nat, l: nat, p: nat, s: nat, k: nat)
    ensures l * (256 * k) == 256 * (l * k) && l * (256 * k + 255) == 256 * (l * k) + 255 * l
    ensures p * (l * s) == l * (p * s) && p * (128 * w) == 128 * (p * w) && p * (l * s + l) == l * (p * s) + l * p
    ensures k * (2 * l) == 2 * (l * k) && (k + 2) * (2 * l) == 2 * (l * k) + 4 * l
  {
  }

  lemma TracksLinear(lk: int, lps: int, pw: int, lp: int, l: int)
    requires 256 * lk <= lps <= 256 * lk + 255 * l && lps <= 128 * pw <= lps + lp && lp <= 255 * l && l > 0
    ensures 2 * lk <= pw < 2 * lk + 4 * l
  {
  }
}
