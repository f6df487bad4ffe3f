/** The byte-stream terminal behind the LCD panel: a cursor, two virtual lines
    of 80 characters and an escape parser that can stop after any byte. */

module LcdTerminal {
  import opened LcdScroll
  import opened Words

  const NUL := 0
  const BS := 8
  const LF := 10
  const CR := 13
  const ESC := 27
  const SEMICOLON := 59
  const UPPER_H := 72
  const UPPER_J := 74
  const UPPER_K := 75
  const BRACKET := 91
  const LOWER_F := 102
  const ESCAPE_SIZE := 8

  datatype Term = Term(x: byte, y: byte, esccount: int, escape: seq<byte>, text: seq<Line>)

  predicate IsDigit(c: byte) {
    48 <= c <= 57
  }

  predicate IsPrint(c: byte) {
    32 <= c <= 126
  }

  function Blanks(n: nat): seq<byte> {
    seq(n, _ => BLANK)
  }

  function BlankText(): (r: seq<Line>) {
    [Blanks(81), Blanks(81)]
  }

  /** What holds after every character: the cursor is on a line or just below
      the last one, the escape buffer has room for its terminator, and the
      spare 81st column is blank. */
  predicate TermOk(t: Term) {
    && t.y <= ALT_LCD_HEIGHT
    && -1 <= t.esccount < ESCAPE_SIZE
    && |t.escape| == ESCAPE_SIZE
    && |t.text| == ALT_LCD_HEIGHT
    && t.text[0][80] == BLANK && t.text[1][80] == BLANK
  }

  // ---------------------------------------------------------------- the text

  function ScrolledUp(text: seq<Line>): (r: seq<Line>)
    requires |text| == ALT_LCD_HEIGHT
    ensures |r| == ALT_LCD_HEIGHT && r[0][80] == text[0][80] && r[1][80] == text[1][80]
  {
    [text[1][..80] + text[0][80..], Blanks(80) + text[1][80..]]
  }

  function ScrolledBy(text: seq<Line>, n: nat): (r: seq<Line>)
    requires |text| == ALT_LCD_HEIGHT
    ensures |r| == ALT_LCD_HEIGHT && r[0][80] == text[0][80] && r[1][80] == text[1][80]
    decreases n
  {
    if n == 0 then text else ScrolledBy(ScrolledUp(text), n - 1)
  }

  function Erased(line: Line, x: nat): (r: Line)
    requires x <= ALT_LCD_VIRTUAL_WIDTH
    ensures r[80] == line[80]
  {
    line[..x] + Blanks(80 - x) + line[80..]
  }

  // --------------------------------------------------------- escape sequences

  /** The number that starts at `i`, added to the digits read so far, and where
      it ends. */
  function Number(s: seq<byte>, i: nat, value: nat): (r: (nat, nat))
    requires i <= |s|
    ensures i <= r.1 <= |s|
    decreases |s| - i
  {
    if i < |s| && IsDigit(s[i]) then Number(s, i + 1, value * 10 + (s[i] - 48)) else (value, i)
  }

  /** The two parameters of a collected sequence; -1 when it has no bracket. */
  function Parms(escape: seq<byte>): (int, nat)
    requires |escape| == ESCAPE_SIZE
  {
    if escape[0] != BRACKET then (-1, 0)
    else
      var first := Number(escape, 1, 0);
      if first.1 < |escape| && escape[first.1] == SEMICOLON
      then (first.0, Number(escape, first.1 + 1, 0).0)
      else (first.0, 0)
  }

  function Cleared(t: Term): Term {
    t.(x := 0, y := 0, text := BlankText())
  }

  function MovedTo(t: Term, row: int, column: nat): (r: Term)
    requires TermOk(t)
    ensures TermOk(r) && r.escape == t.escape && r.esccount == t.esccount
  {
    var u := if column > 0 then t.(x := (column - 1) % 256) else t;
    if row > 0 then
      var wanted := (row - 1) % 256;
      var y := if wanted > 2 * ALT_LCD_HEIGHT then 2 * ALT_LCD_HEIGHT else wanted;
      if y > ALT_LCD_HEIGHT
      then u.(y := ALT_LCD_HEIGHT, text := ScrolledBy(u.text, y - ALT_LCD_HEIGHT))
      else u.(y := y)
    else u
  }

  predicate ErasesBelow(t: Term, parm1: int, c: byte) {
    c == UPPER_K && parm1 < 1 && t.x < ALT_LCD_VIRTUAL_WIDTH && t.y >= ALT_LCD_HEIGHT
  }

  /** The effect of a complete sequence ended by `c`. */
  function Execute(t: Term, parms: (int, nat), c: byte): (r: Term)
    requires TermOk(t) && !ErasesBelow(t, parms.0, c)
    ensures TermOk(r)
  {
    if c == UPPER_H || c == LOWER_F then MovedTo(t, parms.0, parms.1)
    else if c == UPPER_J && parms.0 == 2 then Cleared(t)
    else if c == UPPER_K && parms.0 < 1 && t.x < ALT_LCD_VIRTUAL_WIDTH
    then t.(text := t.text[t.y := Erased(t.text[t.y], t.x)])
    else t
  }

  predicate EndsEscape(esccount: nat, c: byte) {
    if esccount == 0 then c != BRACKET else !IsDigit(c) && c != SEMICOLON
  }

  // ------------------------------------------------------------ one character

  /** Writing `c` stays inside the line buffers. */
  predicate Safe(t: Term, c: byte)
    requires TermOk(t)
  {
    t.esccount >= 0 && EndsEscape(t.esccount, c) ==>
      !ErasesBelow(t, Parms(t.escape[t.esccount := NUL]).0, c)
  }

  function StepEscape(t: Term, c: byte): (r: Term)
    requires TermOk(t) && Safe(t, c) && t.esccount >= 0
    ensures TermOk(r)
  {
    if EndsEscape(t.esccount, c) then
      var e := t.escape[t.esccount := NUL];
      Execute(t.(escape := e, esccount := -1), Parms(e), c)
    else if t.esccount < ESCAPE_SIZE - 1 then
      t.(escape := t.escape[t.esccount := c], esccount := t.esccount + 1)
    else t
  }

  function StepPrint(t: Term, c: byte): (r: Term)
    requires TermOk(t)
    ensures TermOk(r)
  {
    var u := if t.y >= ALT_LCD_HEIGHT then t.(y := t.y - 1, text := ScrolledUp(t.text)) else t;
    var text := if u.x < ALT_LCD_VIRTUAL_WIDTH then u.text[u.y := u.text[u.y][u.x := c]] else u.text;
    u.(text := text, x := (u.x + 1) % 256)
  }

  function Step(t: Term, c: byte): (r: Term)
    requires TermOk(t) && Safe(t, c)
    ensures TermOk(r)
  {
    if t.esccount >= 0 then StepEscape(t, c)
    else if c == ESC then t.(esccount := 0)
    else if c == CR then t.(x := 0)
    else if c == LF then
      if t.y + 1 > ALT_LCD_HEIGHT then t.(x := 0, text := ScrolledUp(t.text)) else t.(x := 0, y := t.y + 1)
    else if c == BS then (if t.x > 0 then t.(x := t.x - 1) else t)
    else if IsPrint(c) then StepPrint(t, c)
    else t
  }

  // ----------------------------------------------------------- whole streams

  predicate SafeFeed(t: Term, s: seq<byte>)
    requires TermOk(t)
    decreases |s|
  {
    s == [] || (Safe(t, s[0]) && SafeFeed(Step(t, s[0]), s[1..]))
  }

  function Feed(t: Term, s: seq<byte>): (r: Term)
    requires TermOk(t) && SafeFeed(t, s)
    ensures TermOk(r)
    decreases |s|
  {
    if s == [] then t else Feed(Step(t, s[0]), s[1..])
  }

  /** Where a stream is cut into writes does not matter, even inside an escape
      sequence. */
  lemma {:induction false} SplitIsInvisible(t: Term, a: seq<byte>, b: seq<byte>)
    requires TermOk(t)
    ensures SafeFeed(t, a + b) <==> SafeFeed(t, a) && SafeFeed(Feed(t, a), b)
    ensures SafeFeed(t, a + b) ==> Feed(t, a + b) == Feed(Feed(t, a), b)
    ensures SafeFeed(t, a + b) ==> LayoutOf(Feed(t, a + b).text) == LayoutOf(Feed(Feed(t, a), b).text)
    decreases |a|
  {
    if a == [] {
      assert a + b == b;
    } else {
      assert (a + b)[0] == a[0] && (a + b)[1..] == a[1..] + b;
      if Safe(t, a[0]) {
        SplitIsInvisible(Step(t, a[0]), a[1..], b);
      }
    }
  }

  /** The erase sequence is the only way out of the line buffers, and a stream
      that reaches it exists: two line feeds park the cursor below the panel. */
  lemma OneUnsafeStream(t: Term)
    requires TermOk(t) && t.x < 80 && t.y == 0 && t.esccount == -1
    ensures SafeFeed(t, [LF, LF, ESC]) && !SafeFeed(t, [LF, LF, ESC] + [UPPER_K])
  {
    var t1 := Step(t, LF);
    var t2 := Step(t1, LF);
    var t3 := Step(t2, ESC);
    var s := [LF, LF, ESC];
    assert s[1..] == [LF, ESC] && [LF, ESC][1..] == [ESC] && [ESC][1..] == [];
    assert SafeFeed(t3, []) && SafeFeed(t2, [ESC]) && SafeFeed(t1, [LF, ESC]);
    assert Feed(t3, []) == t3 && Feed(t2, [ESC]) == t3 && Feed(t1, [LF, ESC]) == t3 && Feed(t, s) == t3;
    assert !Safe(t3, UPPER_K) && [UPPER_K][0] == UPPER_K;
    SplitIsInvisible(t, s, [UPPER_K]);
  }

  /** Every stream without an erase sequence stays inside the line buffers. */
  lemma {:induction false} SafeWithoutErase(t: Term, s: seq<byte>)
    requires TermOk(t) && UPPER_K !in s
    ensures SafeFeed(t, s)
    decreases |s|
  {
    if s != [] {
      assert s[0] in s && s[0] != UPPER_K;
      hide Step;
      SafeWithoutErase(Step(t, s[0]), s[1..]);
    }
  }

  /** Where the cursor is after `j` characters from column `x`. */
  function ColumnAt(x: byte, j: nat): byte {
    (x + j) % 256
  }

  /** `after` is `before` with `s` printed over it from column `x`: the last
      character to reach each of the 80 columns stays, untouched columns keep
      what they held, and the spare column is never reached. */
  ghost predicate Printed(before: Line, x: byte, s: seq<byte>, after: Line) {
    && (forall j {:trigger s[j]} :: 0 <= j < |s| && |s| - j <= 256 && ColumnAt(x, j) < ALT_LCD_VIRTUAL_WIDTH ==>
          after[ColumnAt(x, j)] == s[j])
    && (forall i :: 0 <= i < ALT_LCD_VIRTUAL_WIDTH && (forall j :: 0 <= j < |s| ==> ColumnAt(x, j) != i) ==>
          after[i] == before[i])
    && after[ALT_LCD_VIRTUAL_WIDTH] == before[ALT_LCD_VIRTUAL_WIDTH]
  }

  lemma ColumnsDiffer(x: byte, j: nat, k: nat)
    requires j < k < j + 256
    ensures ColumnAt(x, j) != ColumnAt(x, k)
  {
  }

  lemma PrintedMore(before: Line, x: byte, s: seq<byte>, after: Line, c: byte)
    requires Printed(before, x, s, after)
    ensures var k := ColumnAt(x, |s|);
            Printed(before, x, s + [c], if k < ALT_LCD_VIRTUAL_WIDTH then after[k := c] else after)
  {
    var k, s' := ColumnAt(x, |s|), s + [c];
    var now: Line := if k < ALT_LCD_VIRTUAL_WIDTH then after[k := c] else after;
    forall j | 0 <= j < |s'| && |s'| - j <= 256 && ColumnAt(x, j) < ALT_LCD_VIRTUAL_WIDTH
      ensures now[ColumnAt(x, j)] == s'[j]
    {
      if j < |s| {
        ColumnsDiffer(x, j, |s|);
        assert s'[j] == s[j];
      }
    }
    hide ColumnAt;
    forall i | 0 <= i < ALT_LCD_VIRTUAL_WIDTH && forall j :: 0 <= j < |s'| ==> ColumnAt(x, j) != i
      ensures now[i] == before[i]
    {
      assert forall j :: 0 <= j < |s| ==> ColumnAt(x, j) != i;
      assert ColumnAt(x, |s|) != i;
    }
  }

  /** A cursor parked below the panel makes room before the first character. */
  function Landed(t: Term): (r: Term)
    requires TermOk(t)
    ensures TermOk(r) && r.y < ALT_LCD_HEIGHT && r.x == t.x && r.esccount == t.esccount
  {
    if t.y >= ALT_LCD_HEIGHT then t.(y := t.y - 1, text := ScrolledUp(t.text)) else t
  }

  lemma PrintsOne(t: Term, c: byte)
    requires TermOk(t) && t.esccount == -1 && IsPrint(c)
    ensures Safe(t, c)
    ensures var u, r := Landed(t), Step(t, c);
            && r == u.(x := ColumnAt(t.x, 1), text := u.text[u.y := r.text[u.y]])
            && r.text[u.y] == if t.x < ALT_LCD_VIRTUAL_WIDTH then u.text[u.y][t.x := c] else u.text[u.y]
  {
    var u := Landed(t);
    hide Landed, ScrolledUp, StepEscape;
    assert Step(t, c) == StepPrint(t, c);
    assert u.text == u.text[u.y := u.text[u.y]];
  }

  /** `r` is the terminal `t` after printing `s`. */
  ghost predicate PrintedTo(t: Term, s: seq<byte>, r: Term)
    requires TermOk(t) && TermOk(r)
  {
    var u := Landed(t);
    && r == u.(x := ColumnAt(t.x, |s|), text := u.text[u.y := r.text[u.y]])
    && Printed(u.text[u.y], t.x, s, r.text[u.y])
  }

  lemma PrintedFirst(t: Term, c: byte)
    requires TermOk(t) && t.esccount == -1 && IsPrint(c)
    ensures Safe(t, c) && PrintedTo(t, [c], Step(t, c))
  {
    PrintsOne(t, c);
    var u := Landed(t);
    hide Step, Safe, Landed;
    assert Printed(u.text[u.y], t.x, [], u.text[u.y]);
    assert ColumnAt(t.x, 0) == t.x && [] + [c] == [c];
    hide Printed, ColumnAt;
    PrintedMore(u.text[u.y], t.x, [], u.text[u.y], c);
  }

  lemma PrintedNext(t: Term, s: seq<byte>, v: Term, c: byte)
    requires TermOk(t) && TermOk(v) && t.esccount == -1 && IsPrint(c) && PrintedTo(t, s, v)
    ensures Safe(v, c) && PrintedTo(t, s + [c], Step(v, c))
  {
    PrintsOne(v, c);
    var u := Landed(t);
    assert u.y < ALT_LCD_HEIGHT && Landed(v) == v;
    assert ColumnAt(v.x, 1) == ColumnAt(t.x, |s + [c]|);
    PrintedMore(u.text[u.y], t.x, s, v.text[u.y], c);
    hide Step, Safe, Printed, Landed, ColumnAt;
  }

  /** Printing text of any length from any cursor position. */
  lemma {:induction false} PrintedRun(t: Term, s: seq<byte>)
    requires TermOk(t) && t.esccount == -1 && s != [] && forall i :: 0 <= i < |s| ==> IsPrint(s[i])
    ensures SafeFeed(t, s) && PrintedTo(t, s, Feed(t, s))
    decreases |s|
  {
    var front, c := s[..|s| - 1], s[|s| - 1];
    assert s == front + [c] && IsPrint(c);
    SplitIsInvisible(t, front, [c]);
    hide Step, Safe, PrintedTo, IsPrint;
    if front == [] {
      PrintedFirst(t, c);
      OneCharacter(t, c);
    } else {
      PrintedRun(t, front);
      PrintedNext(t, front, Feed(t, front), c);
      OneCharacter(Feed(t, front), c);
    }
  }

  lemma OneCharacter(t: Term, c: byte)
    requires TermOk(t)
    ensures SafeFeed(t, [c]) <==> Safe(t, c)
    ensures Safe(t, c) ==> Feed(t, [c]) == Step(t, c)
  {
    assert [c][0] == c && [c][1..] == [];
    if Safe(t, c) {
      assert Feed(Step(t, c), []) == Step(t, c);
    }
  }

  /** The column is eight bits wide: the 257th character of a line overwrites
      its first. */
  lemma ColumnWraps(t: Term, s: seq<byte>)
    requires TermOk(t) && t.esccount == -1 && t.y < ALT_LCD_HEIGHT && t.x == 0
    requires |s| == 257 && forall i :: 0 <= i < |s| ==> IsPrint(s[i])
    ensures SafeFeed(t, s)
    ensures var r := Feed(t, s);
            r == t.(x := 1, text := t.text[t.y := [s[256]] + s[1..80] + [t.text[t.y][80]]])
  {
    PrintedRun(t, s);
    assert ColumnAt(0, 257) == 1;
    var after := Feed(t, s).text[t.y];
    hide SafeFeed, Feed, Step, Printed, ColumnAt;
    WrappedLine(t.text[t.y], s, after);
  }

  lemma WrappedLine(before: Line, s: seq<byte>, after: Line)
    requires |s| == 257 && Printed(before, 0, s, after)
    ensures after == [s[256]] + s[1..80] + [before[80]]
  {
    forall i | 0 <= i < ALT_LCD_VIRTUAL_WIDTH
      ensures after[i] == if i == 0 then s[256] else s[i]
    {
      var j := if i == 0 then 256 else i;
      assert ColumnAt(0, j) == i && after[ColumnAt(0, j)] == s[j];
    }
    hide Printed;
  }

  // ------------------------------------------------- what a sequence amounts to

  predicate Collectable(w: seq<byte>) {
    forall i :: 0 <= i < |w| ==> IsDigit(w[i]) || w[i] == SEMICOLON
  }

  /** Characters that do not fit are dropped. */
  function Kept(used: nat, w: seq<byte>): (r: seq<byte>)
    requires 1 <= used < ESCAPE_SIZE
  {
    if |w| <= ESCAPE_SIZE - 1 - used then w else w[..ESCAPE_SIZE - 1 - used]
  }

  /** The parser after collecting `w`. */
  function AfterCollecting(t: Term, w: seq<byte>): (r: Term)
    requires TermOk(t) && t.esccount >= 1
    ensures TermOk(r)
  {
    var kept := Kept(t.esccount, w);
    t.(esccount := t.esccount + |kept|,
       escape := t.escape[..t.esccount] + kept + t.escape[t.esccount + |kept|..])
  }

  lemma Spliced(e: seq<byte>, n: nat, w: seq<byte>)
    requires |e| == ESCAPE_SIZE && 1 <= n < ESCAPE_SIZE - 1 && w != []
    ensures var kept, rest := Kept(n, w), Kept(n + 1, w[1..]);
            var f := e[n := w[0]];
            && |kept| == 1 + |rest|
            && e[..n] + kept + e[n + |kept|..] == f[..n + 1] + rest + f[n + 1 + |rest|..]
  {
    var kept, rest := Kept(n, w), Kept(n + 1, w[1..]);
    var f := e[n := w[0]];
    assert kept == [w[0]] + rest;
    assert f[..n + 1] == e[..n] + [w[0]];
    assert f[n + |kept|..] == e[n + |kept|..];
  }

  lemma CollectsOne(t: Term, w: seq<byte>)
    requires TermOk(t) && t.esccount >= 1 && w != [] && (IsDigit(w[0]) || w[0] == SEMICOLON)
    ensures Safe(t, w[0]) && Step(t, w[0]).esccount >= 1
    ensures AfterCollecting(Step(t, w[0]), w[1..]) == AfterCollecting(t, w)
  {
    hide Execute, StepPrint, Parms;
    if t.esccount < ESCAPE_SIZE - 1 {
      Spliced(t.escape, t.esccount, w);
      hide Kept;
      var u := t.(escape := t.escape[t.esccount := w[0]], esccount := t.esccount + 1);
      assert Step(t, w[0]) == u;
      hide Step;
      assert AfterCollecting(u, w[1..]) == AfterCollecting(t, w);
    } else {
      assert Kept(t.esccount, w) == [] == Kept(t.esccount, w[1..]);
      assert Step(t, w[0]) == t;
    }
  }

  lemma {:induction false} Collects(t: Term, w: seq<byte>)
    requires TermOk(t) && t.esccount >= 1 && Collectable(w)
    ensures SafeFeed(t, w) && Feed(t, w) == AfterCollecting(t, w)
    decreases |w|
  {
    if w == [] {
      assert t.escape == t.escape[..t.esccount] + [] + t.escape[t.esccount..];
    } else {
      assert IsDigit(w[0]) || w[0] == SEMICOLON;
      CollectsOne(t, w);
      hide Step, AfterCollecting, Safe, IsDigit;
      Collects(Step(t, w[0]), w[1..]);
    }
  }

  /** The buffer a bracketed sequence leaves behind. */
  function Collected(escape: seq<byte>, w: seq<byte>): (r: seq<byte>)
    requires |escape| == ESCAPE_SIZE
    ensures |r| == ESCAPE_SIZE
  {
    var kept := Kept(1, w);
    [BRACKET] + kept + [NUL] + escape[|kept| + 2..]
  }

  /** An escape sequence acts once, when its last character arrives, on the
      parameters its first seven characters spell; before that it only
      remembers. */
  lemma SequenceActsOnce(t: Term, w: seq<byte>, c: byte)
    requires TermOk(t) && t.esccount == -1 && Collectable(w) && !IsDigit(c) && c != SEMICOLON
    ensures SafeFeed(t, [ESC, BRACKET] + w)
    ensures var u := Feed(t, [ESC, BRACKET] + w); u == t.(esccount := u.esccount, escape := u.escape)
    ensures var e := Collected(t.escape, w);
            && (SafeFeed(t, [ESC, BRACKET] + w + [c]) <==> !ErasesBelow(t, Parms(e).0, c))
            && (SafeFeed(t, [ESC, BRACKET] + w + [c]) ==>
                  Feed(t, [ESC, BRACKET] + w + [c]) == Execute(t.(escape := e), Parms(e), c))
  {
    Introduces(t);
    var t2 := t.(esccount := 1, escape := t.escape[0 := BRACKET]);
    hide Step;
    Collects(t2, w);
    SplitIsInvisible(t, [ESC, BRACKET], w);
    var u := AfterCollecting(t2, w);
    assert u == Feed(t, [ESC, BRACKET] + w);
    CollectedIs(t, w);
    hide AfterCollecting, Collected, Kept;
    Finishes(u, c);
    SplitIsInvisible(t, [ESC, BRACKET] + w, [c]);
  }

  lemma Introduces(t: Term)
    requires TermOk(t) && t.esccount == -1
    ensures SafeFeed(t, [ESC, BRACKET])
    ensures Feed(t, [ESC, BRACKET]) == t.(esccount := 1, escape := t.escape[0 := BRACKET])
  {
    var t1 := Step(t, ESC);
    var t2 := Step(t1, BRACKET);
    hide Step;
    assert [ESC, BRACKET][1..] == [BRACKET] && [BRACKET][1..] == [];
    assert SafeFeed(t2, []) && SafeFeed(t1, [BRACKET]);
    assert Feed(t2, []) == t2 && Feed(t1, [BRACKET]) == t2;
  }

  lemma CollectedIs(t: Term, w: seq<byte>)
    requires TermOk(t)
    ensures var t2 := t.(esccount := 1, escape := t.escape[0 := BRACKET]);
            var u := AfterCollecting(t2, w);
            u.escape[u.esccount := NUL] == Collected(t.escape, w)
  {
    var t2 := t.(esccount := 1, escape := t.escape[0 := BRACKET]);
    var kept := Kept(1, w);
    assert t2.escape[..1] == [BRACKET] && t2.escape[|kept| + 1..] == t.escape[|kept| + 1..];
  }

  lemma Finishes(u: Term, c: byte)
    requires TermOk(u) && u.esccount >= 1 && !IsDigit(c) && c != SEMICOLON
    ensures var e := u.escape[u.esccount := NUL];
            && (SafeFeed(u, [c]) <==> !ErasesBelow(u, Parms(e).0, c))
            && (SafeFeed(u, [c]) ==>
                  Feed(u, [c]) == Execute(u.(escape := e, esccount := -1), Parms(e), c))
  {
    hide Execute, Parms;
    assert [c][0] == c && [c][1..] == [];
    if Safe(u, c) {
      assert Feed(Step(u, c), []) == Step(u, c);
    }
  }

  // ------------------------------------------------------------- decimal numbers

  predicate AllDigits(d: seq<byte>) {
    forall i :: 0 <= i < |d| ==> IsDigit(d[i])
  }

  /** The value of a digit string, most significant digit first. */
  function Value(d: seq<byte>): nat
    requires AllDigits(d)
  {
    if d == [] then 0 else 10 * Value(d[..|d| - 1]) + (d[|d| - 1] - 48)
  }

  lemma DigitsPrefix(s: seq<byte>, start: int, i: int, stop: int)
    requires 0 <= start <= i <= stop <= |s| && AllDigits(s[start..stop])
    ensures AllDigits(s[start..i])
  {
    forall k | 0 <= k < i - start ensures IsDigit(s[start..i][k]) {
      assert s[start..i][k] == s[start..stop][k];
    }
  }

  lemma {:induction false} NumberReads(s: seq<byte>, start: int, i: int, stop: int)
    requires 0 <= start <= i <= stop < |s| && AllDigits(s[start..stop]) && !IsDigit(s[stop])
    ensures AllDigits(s[start..i])
    ensures Number(s, i, Value(s[start..i])) == (Value(s[start..stop]), stop)
    decreases stop - i
  {
    DigitsPrefix(s, start, i, stop);
    if i < stop {
      DigitsPrefix(s, start, i + 1, stop);
      assert IsDigit(s[start..stop][i - start]) && IsDigit(s[i]);
      assert s[start..i + 1][..|s[start..i + 1]| - 1] == s[start..i];
      NumberReads(s, start, i + 1, stop);
    }
  }

  lemma WholeNumber(s: seq<byte>, start: int, stop: int)
    requires 0 <= start <= stop < |s| && AllDigits(s[start..stop]) && !IsDigit(s[stop])
    ensures Number(s, start, 0) == (Value(s[start..stop]), stop)
  {
    NumberReads(s, start, start, stop);
    hide AllDigits, Number;
    assert s[start..start] == [];
  }

  function MoveSequence(row: seq<byte>, column: seq<byte>, c: byte): seq<byte> {
    [ESC, BRACKET] + (row + [SEMICOLON] + column) + [c]
  }

  /** Printing `ESC [ row ; column H`, or `f`, moves the cursor by the two numbers. */
  lemma MoveSequenceMoves(t: Term, row: seq<byte>, column: seq<byte>, c: byte)
    requires TermOk(t) && t.esccount == -1 && (c == UPPER_H || c == LOWER_F)
    requires AllDigits(row) && AllDigits(column) && |row| + |column| <= 5
    ensures SafeFeed(t, MoveSequence(row, column, c))
    ensures var r := Feed(t, MoveSequence(row, column, c));
            r == MovedTo(t.(escape := r.escape), Value(row), Value(column))
  {
    var w := row + [SEMICOLON] + column;
    var e := Collected(t.escape, w);
    CollectableParts(row, column);
    SequenceActsOnce(t, w, c);
    ParmsRead(t.escape, row, column);
    hide SafeFeed, Feed, Parms, Collected, Value, AllDigits, Collectable;
    assert !ErasesBelow(t, Parms(e).0, c);
    var s := MoveSequence(row, column, c);
    assert SafeFeed(t, s) && Feed(t, s) == Execute(t.(escape := e), Parms(e), c);
    hide MovedTo, MoveSequence;
    assert Feed(t, s) == MovedTo(t.(escape := e), Value(row), Value(column));
  }

  /** Inside the panel, rows and columns count from one and the text stays. */
  lemma CursorPosition(t: Term, row: seq<byte>, column: seq<byte>, c: byte)
    requires TermOk(t) && t.esccount == -1 && (c == UPPER_H || c == LOWER_F)
    requires AllDigits(row) && AllDigits(column) && |row| + |column| <= 5
    requires 1 <= Value(row) <= ALT_LCD_HEIGHT + 1 && 1 <= Value(column) <= 256
    ensures SafeFeed(t, MoveSequence(row, column, c))
    ensures var r := Feed(t, MoveSequence(row, column, c));
            r == t.(x := Value(column) - 1, y := Value(row) - 1, escape := r.escape)
  {
    MoveSequenceMoves(t, row, column, c);
    var r := Feed(t, MoveSequence(row, column, c));
    hide SafeFeed, Feed, MoveSequence;
    MovedInside(t.(escape := r.escape), Value(row), Value(column));
  }

  lemma MovedInside(t: Term, row: int, column: nat)
    requires TermOk(t) && 1 <= row <= 3 && 1 <= column <= 256
    ensures MovedTo(t, row, column) == t.(x := column - 1, y := row - 1)
  {
    assert (row - 1) % 256 == row - 1;
  }

  lemma CollectableParts(row: seq<byte>, column: seq<byte>)
    requires AllDigits(row) && AllDigits(column)
    ensures Collectable(row + [SEMICOLON] + column)
  {
  }

  lemma CollectedParts(escape: seq<byte>, row: seq<byte>, column: seq<byte>)
    requires |escape| == ESCAPE_SIZE && |row| + |column| <= 5
    ensures var e := Collected(escape, row + [SEMICOLON] + column);
            var middle := 1 + |row|;
            var end := middle + 1 + |column|;
            && e[0] == BRACKET && e[1..middle] == row && e[middle] == SEMICOLON
            && e[middle + 1..end] == column && e[end] == NUL
  {
    var w := row + [SEMICOLON] + column;
    var e := Collected(escape, w);
    assert Kept(1, w) == w && e == [BRACKET] + w + [NUL] + escape[|w| + 2..];
    assert forall i :: 0 <= i < |w| ==> e[1 + i] == w[i];
  }

  lemma ParmsRead(escape: seq<byte>, row: seq<byte>, column: seq<byte>)
    requires |escape| == ESCAPE_SIZE && AllDigits(row) && AllDigits(column) && |row| + |column| <= 5
    ensures Parms(Collected(escape, row + [SEMICOLON] + column)) == (Value(row), Value(column))
  {
    CollectedParts(escape, row, column);
    var e := Collected(escape, row + [SEMICOLON] + column);
    hide Collected, AllDigits, Parms, Value;
    ParmsOf(e, row, column);
  }

  lemma ParmsOf(e: seq<byte>, row: seq<byte>, column: seq<byte>)
    requires |e| == ESCAPE_SIZE && |row| + |column| <= 5 && AllDigits(row) && AllDigits(column)
    requires e[0] == BRACKET && e[1..1 + |row|] == row && e[1 + |row|] == SEMICOLON
    requires e[2 + |row|..2 + |row| + |column|] == column && e[2 + |row| + |column|] == NUL
    ensures Parms(e) == (Value(row), Value(column))
  {
    hide AllDigits, Number, Value;
    WholeNumber(e, 1, 1 + |row|);
    WholeNumber(e, 2 + |row|, 2 + |row| + |column|);
  }
}
