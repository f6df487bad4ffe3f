/** What whole streams do to the terminal, told in cells and cursor positions. */

module LcdStreams {
  import opened LcdScroll
  import opened LcdTerminal
  import opened Words

  type Printing = s: seq<byte> | |s| <= 80 && forall i :: 0 <= i < |s| ==> 32 <= s[i] <= 126

  function Spaces(n: nat): (s: seq<byte>)
    ensures |s| == n
  {
    seq(n, _ => 32)
  }

  /** A line of 80 cells and its spare one, with `s` at the front. */
  function Padded(s: Printing): Line {
    s + Spaces(81 - |s|)
  }

  function Join(lines: seq<Printing>): seq<byte>
    requires lines != []
  {
    if |lines| == 1 then lines[0] else Join(lines[..|lines| - 1]) + ['\n' as int] + lines[|lines| - 1]
  }

  // ------------------------------------------------------------ printing

  lemma PrintedCells(before: Line, x: byte, s: seq<byte>, after: Line)
    requires x + |s| <= 80 && Printed(before, x, s, after)
    ensures after == before[..x] + s + before[x + |s|..]
  {
    forall i | 0 <= i < 80 ensures after[i] == (before[..x] + s + before[x + |s|..])[i] {
      if x <= i < x + |s| {
        assert ColumnAt(x, i - x) == i && s[i - x] == after[ColumnAt(x, i - x)];
      } else {
        assert forall j :: 0 <= j < |s| ==> ColumnAt(x, j) == x + j != i;
      }
    }
  }

  /** Text that fits the line replaces the cells from the cursor on. */
  lemma PrintsAt(t: Term, s: seq<byte>)
    requires TermOk(t) && t.esccount == -1 && t.y < 2 && s != [] && t.x + |s| <= 80
    requires forall i :: 0 <= i < |s| ==> 32 <= s[i] <= 126
    ensures SafeFeed(t, s)
    ensures var line := t.text[t.y];
            Feed(t, s) == t.(x := t.x + |s|, text := t.text[t.y := line[..t.x] + s + line[t.x + |s|..]])
  {
    hide Feed, SafeFeed, PrintedTo;
    PrintedRun(t, s);
    PrintedInLine(t, s, Feed(t, s));
  }

  lemma PrintedInLine(t: Term, s: seq<byte>, r: Term)
    requires TermOk(t) && TermOk(r) && t.y < 2 && t.x + |s| <= 80 && PrintedTo(t, s, r)
    ensures var line := t.text[t.y];
            r == t.(x := t.x + |s|, text := t.text[t.y := line[..t.x] + s + line[t.x + |s|..]])
  {
    assert Landed(t) == t;
    hide Landed;
    PrintedCells(t.text[t.y], t.x, s, r.text[t.y]);
    hide Printed;
    assert ColumnAt(t.x, |s|) == t.x + |s|;
  }

  /** Scrolling moves the lower line up and blanks it. */
  lemma MovesUp(t: Term)
    requires TermOk(t)
    ensures ScrolledUp(t.text) == [t.text[1], Spaces(81)]
    ensures ScrolledUp(ScrolledUp(t.text)) == [Spaces(81), Spaces(81)]
  {
    assert t.text[1][..80] + t.text[0][80..] == t.text[1];
    assert Blanks(80) + t.text[1][80..] == Spaces(81);
  }

  // ------------------------------------------------------------ lines of text

  /** The cursor after the last of `lines` and the last two lines on the panel;
      after a line feed the cursor waits below them, and only the next
      character makes room. */
  ghost predicate Showing(r: Term, lines: seq<Printing>, escape: seq<byte>)
    requires lines != []
  {
    var n := |lines|;
    var last := lines[n - 1];
    && r.esccount == -1 && r.escape == escape && r.x == |last|
    && if n == 1 then r.y == 0 && r.text == [Padded(last), Padded([])]
       else if n == 2 || last != [] then r.y == 1 && r.text == [Padded(lines[n - 2]), Padded(last)]
       else r.y == 2 && r.text == [Padded(lines[n - 3]), Padded(lines[n - 2])]
  }

  function Blank(escape: seq<byte>): Term {
    Term(0, 0, -1, escape, [Padded([]), Padded([])])
  }

  lemma LineFeedShows(r: Term, lines: seq<Printing>, escape: seq<byte>)
    requires lines != [] && TermOk(r) && Showing(r, lines, escape)
    ensures Safe(r, LF) && Showing(Step(r, LF), lines + [[]], escape)
  {
    MovesUp(r);
    var more := lines + [[]];
    assert more[|more| - 1] == [] && more[|more| - 2] == lines[|lines| - 1];
    assert |lines| >= 2 ==> more[|more| - 3] == lines[|lines| - 2];
    assert Padded([]) == Spaces(81);
    hide ScrolledUp, Padded, Spaces;
  }

  lemma PrintsOnLast(t: Term, lines: seq<Printing>, last: Printing, escape: seq<byte>)
    requires TermOk(t) && lines != [] && lines[|lines| - 1] == [] && last != [] && Showing(t, lines, escape)
    ensures SafeFeed(t, last) && Showing(Feed(t, last), lines[..|lines| - 1] + [last], escape)
  {
    hide Feed, SafeFeed, PrintedTo;
    assert t.esccount == -1;
    hide Showing;
    PrintedRun(t, last);
    PrintedOnLast(t, lines, last, escape, Feed(t, last));
  }

  lemma PrintedOnLast(t: Term, lines: seq<Printing>, last: Printing, escape: seq<byte>, r: Term)
    requires TermOk(t) && lines != [] && lines[|lines| - 1] == [] && last != [] && Showing(t, lines, escape)
    requires TermOk(r) && PrintedTo(t, last, r)
    ensures Showing(r, lines[..|lines| - 1] + [last], escape)
  {
    var u := Landed(t);
    MovesUp(t);
    assert Padded([]) == Spaces(81);
    hide ScrolledUp;
    var more := lines[..|lines| - 1] + [last];
    assert more[|more| - 1] == last && (|more| >= 2 ==> more[|more| - 2] == lines[|lines| - 2]);
    assert u.text[u.y] == Spaces(81) && u.x == 0;
    PrintedOnBlank(last, r.text[u.y]);
    hide Printed, Padded, Spaces;
    assert ColumnAt(0, |last|) == |last|;
  }

  lemma PrintedOnBlank(last: Printing, after: Line)
    requires Printed(Spaces(81), 0, last, after)
    ensures after == Padded(last)
  {
    PrintedCells(Spaces(81), 0, last, after);
    assert Spaces(81)[..0] + last + Spaces(81)[|last|..] == Padded(last);
  }

  /** Any number of lines, from a blank terminal: the last two are left, with
      the cursor after the last. */
  lemma {:induction false} LastTwoLines(lines: seq<Printing>, escape: seq<byte>)
    requires lines != [] && |escape| == ESCAPE_SIZE
    ensures TermOk(Blank(escape)) && SafeFeed(Blank(escape), Join(lines))
    ensures Showing(Feed(Blank(escape), Join(lines)), lines, escape)
  {
    var t, n := Blank(escape), |lines|;
    var front, last := lines[..n - 1], lines[n - 1];
    if n == 1 {
      assert Showing(t, [[]], escape) && lines == [last];
      if last != [] {
        PrintsOnLast(t, [[]], last, escape);
        assert [[]][..0] + [last] == lines;
      }
    } else {
      LastTwoLines(front, escape);
      hide Showing;
      OneMoreLine(t, Join(front), front, last, escape);
      assert lines == front + [last];
    }
  }

  lemma OneMoreLine(t: Term, s: seq<byte>, front: seq<Printing>, last: Printing, escape: seq<byte>)
    requires TermOk(t) && SafeFeed(t, s) && front != [] && Showing(Feed(t, s), front, escape)
    ensures SafeFeed(t, s + [LF] + last) && Showing(Feed(t, s + [LF] + last), front + [last], escape)
  {
    var r := Feed(t, s);
    LineFeedShows(r, front, escape);
    OneCharacter(r, LF);
    SplitIsInvisible(t, s, [LF]);
    var v := Step(r, LF);
    SplitIsInvisible(t, s + [LF], last);
    if last != [] {
      hide Step, Safe, Showing, SafeFeed, Feed;
      PrintsOnLast(v, front + [[]], last, escape);
      assert (front + [[]])[..|front|] == front;
    } else {
      hide Step, Safe, Showing;
      assert SafeFeed(v, []) && Feed(v, []) == v;
    }
  }

  // ------------------------------------------------------------ control characters

  lemma FromTheLeft(line: Line, s: seq<byte>)
    requires |s| <= 80
    ensures line[..0] + s + line[0 + |s|..] == s + line[|s|..]
  {
  }

  lemma Returned(t: Term) returns (u: Term)
    requires TermOk(t) && t.esccount == -1
    ensures SafeFeed(t, [CR]) && u == Feed(t, [CR]) == t.(x := 0) && TermOk(u)
  {
    u := Step(t, CR);
    OneCharacter(t, CR);
  }

  /** A carriage return and more text: the new text over the beginning of the line. */
  lemma CarriageReturn(t: Term, s: seq<byte>)
    requires TermOk(t) && t.esccount == -1 && t.y < 2 && s != [] && |s| <= 80
    requires forall i :: 0 <= i < |s| ==> 32 <= s[i] <= 126
    ensures SafeFeed(t, ['\r' as int] + s)
    ensures Feed(t, ['\r' as int] + s) == t.(x := |s|, text := t.text[t.y := s + t.text[t.y][|s|..]])
  {
    var u := Returned(t);
    hide Feed, SafeFeed;
    SplitIsInvisible(t, [CR], s);
    PrintsAt(u, s);
    FromTheLeft(t.text[t.y], s);
  }

  /** A backspace steps back over what was printed, and stops at the left edge. */
  lemma Backspace(t: Term)
    requires TermOk(t) && t.esccount == -1
    ensures SafeFeed(t, [8])
    ensures Feed(t, [8]) == t.(x := if t.x == 0 then 0 else t.x - 1)
  {
    OneCharacter(t, BS);
  }

  lemma BackspaceReplaces(t: Term, s: seq<byte>, c: byte)
    requires TermOk(t) && t.esccount == -1 && t.y < 2 && t.x + |s| < 80 && 32 <= c <= 126
    requires forall i :: 0 <= i < |s| ==> 32 <= s[i] <= 126
    ensures forall d: byte :: 32 <= d <= 126 ==>
              && SafeFeed(t, s + [d] + [8, c]) && SafeFeed(t, s + [c])
              && Feed(t, s + [d] + [8, c]) == Feed(t, s + [c])
  {
    forall d: byte | 32 <= d <= 126
      ensures SafeFeed(t, s + [d] + [8, c]) && SafeFeed(t, s + [c])
      ensures Feed(t, s + [d] + [8, c]) == Feed(t, s + [c])
    {
      Replaced(t, s, d, c);
    }
  }

  lemma Replaced(t: Term, s: seq<byte>, d: byte, c: byte)
    requires TermOk(t) && t.esccount == -1 && t.y < 2 && t.x + |s| < 80 && 32 <= c <= 126 && 32 <= d <= 126
    requires forall i :: 0 <= i < |s| ==> 32 <= s[i] <= 126
    ensures SafeFeed(t, s + [d] + [8, c]) && SafeFeed(t, s + [c])
    ensures Feed(t, s + [d] + [8, c]) == Feed(t, s + [c])
  {
    hide Feed, SafeFeed, Step;
    PrintsAt(t, s + [d]);
    PrintsAt(t, s + [c]);
    var u := Feed(t, s + [d]);
    Backspace(u);
    var v := u.(x := u.x - 1);
    SplitIsInvisible(u, [BS], [c]);
    assert [BS] + [c] == [8, c];
    PrintsAt(v, [c]);
    SplitIsInvisible(t, s + [d], [8, c]);
    SecondThoughts(t.text[t.y], t.x, s, d, c);
  }

  lemma SecondThoughts(line: Line, x: nat, s: seq<byte>, d: byte, c: byte)
    requires x + |s| < 80
    ensures var k, first := x + |s|, line[..x] + (s + [d]) + line[x + |s| + 1..];
            && |first| == 81 && first[..k] + [c] + first[k + 1..] == line[..x] + (s + [c]) + line[k + 1..]
  {
    var k, first := x + |s|, line[..x] + (s + [d]) + line[x + |s| + 1..];
    assert first[..k] == line[..x] + s && first[k + 1..] == line[k + 1..];
  }

  // ------------------------------------------------------------ escape sequences

  /** Nothing but the parser's own buffer differs. */
  function Like(t: Term, r: Term): Term {
    t.(esccount := -1, escape := r.escape)
  }

  lemma OneParameter(escape: seq<byte>, d: seq<byte>)
    requires |escape| == ESCAPE_SIZE && AllDigits(d) && |d| <= 6
    ensures Collectable(d) && Parms(Collected(escape, d)) == (Value(d), 0)
  {
    var e := Collected(escape, d);
    CollectedOne(escape, d);
    assert Collectable(d);
    hide Collected, Number, Value, Collectable, AllDigits;
    assert e[1..1 + |d|] == d;
    WholeNumber(e, 1, 1 + |d|);
  }

  lemma CollectedOne(escape: seq<byte>, d: seq<byte>)
    requires |escape| == ESCAPE_SIZE && |d| <= 6
    ensures var e := Collected(escape, d); e[0] == BRACKET && e[1..1 + |d|] == d && e[1 + |d|] == NUL
  {
    assert Kept(1, d) == d;
    assert Collected(escape, d) == [BRACKET] + d + [NUL] + escape[|d| + 2..];
  }

  function Sequence(d: seq<byte>, c: char): seq<byte>
    requires c as int < 256
  {
    [27, '[' as int] + d + [c as int]
  }

  /** `ESC [ 2 J` blanks both lines and puts the cursor at their beginning; with
      any other number it does nothing. */
  lemma ClearSequence(t: Term, d: seq<byte>)
    requires TermOk(t) && t.esccount == -1 && AllDigits(d) && |d| <= 6
    ensures SafeFeed(t, Sequence(d, 'J'))
    ensures var r := Feed(t, Sequence(d, 'J'));
            r == if Value(d) == 2 then Like(t, r).(x := 0, y := 0, text := [Spaces(81), Spaces(81)]) else Like(t, r)
  {
    OneParameter(t.escape, d);
    SequenceActsOnce(t, d, UPPER_J);
    hide Feed, SafeFeed, Collected, Parms, Value, AllDigits;
    assert BlankText() == [Spaces(81), Spaces(81)];
  }

  /** The line of the cursor, blank from the cursor on. */
  function BlankedFrom(t: Term): Term
    requires TermOk(t) && t.y < 2 && t.x <= 80
  {
    t.(text := t.text[t.y := t.text[t.y][..t.x] + Spaces(81 - t.x)])
  }

  lemma Erases(t: Term, parm: int)
    requires TermOk(t) && !ErasesBelow(t, parm, UPPER_K)
    ensures Execute(t, (parm, 0), UPPER_K) == if parm < 1 && t.x < 80 then BlankedFrom(t) else t
  {
    if parm < 1 && t.x < 80 {
      assert Erased(t.text[t.y], t.x) == t.text[t.y][..t.x] + Spaces(81 - t.x);
    }
  }

  /** `ESC [ K` and `ESC [ 0 K` blank the line from the cursor on; with any other
      number they do nothing, and with the cursor below the panel they write
      outside the lines. */
  lemma EraseSequence(t: Term, d: seq<byte>)
    requires TermOk(t) && t.esccount == -1 && AllDigits(d) && |d| <= 6
    ensures SafeFeed(t, Sequence(d, 'K')) <==> Value(d) > 0 || t.x >= 80 || t.y < 2
    ensures SafeFeed(t, Sequence(d, 'K')) ==>
              var r := Feed(t, Sequence(d, 'K'));
              r == if Value(d) > 0 || t.x >= 80 then Like(t, r) else BlankedFrom(Like(t, r))
  {
    OneParameter(t.escape, d);
    SequenceActsOnce(t, d, UPPER_K);
    hide Feed, SafeFeed, Collected, Parms, Value, AllDigits;
    var u := t.(escape := Collected(t.escape, d));
    if SafeFeed(t, Sequence(d, 'K')) {
      Erases(u, Value(d));
    }
    hide Execute;
  }

  /** Without a bracket only `ESC K` does anything. */
  lemma ShortSequence(t: Term, c: byte)
    requires TermOk(t) && t.esccount == -1 && c != '[' as int
    ensures SafeFeed(t, [27, c]) <==> c != 'K' as int || t.x >= 80 || t.y < 2
    ensures SafeFeed(t, [27, c]) ==>
              var r := Feed(t, [27, c]);
              r == if c == 'K' as int && t.x < 80 then BlankedFrom(Like(t, r)) else Like(t, r)
  {
    OneCharacter(t, ESC);
    var u := t.(esccount := 0);
    assert Step(t, ESC) == u;
    SplitIsInvisible(t, [ESC], [c]);
    assert [ESC] + [c] == [ESC, c];
    OneCharacter(u, c);
    hide Feed, SafeFeed;
    var v := t.(escape := t.escape[0 := NUL]);
    assert Parms(v.escape) == (-1, 0);
    hide Parms;
    assert Safe(u, c) <==> !ErasesBelow(v, -1, c);
    if Safe(u, c) {
      assert Step(u, c) == Execute(v, (-1, 0), c);
      hide Step;
      ShortActs(v, c);
    }
  }

  lemma ShortActs(t: Term, c: byte)
    requires TermOk(t) && !ErasesBelow(t, -1, c)
    ensures Execute(t, (-1, 0), c) == if c == UPPER_K && t.x < 80 then BlankedFrom(t) else t
  {
    if c == UPPER_K {
      Erases(t, -1);
    }
  }

  /** `ESC [ row ; column H`, or `f`: the column counts from one modulo 256, the
      row too; below the third row the text moves up by as many lines, at most two. */
  lemma MoveSequenceCells(t: Term, row: seq<byte>, column: seq<byte>, c: char)
    requires TermOk(t) && t.esccount == -1 && (c == 'H' || c == 'f')
    requires AllDigits(row) && AllDigits(column) && |row| + |column| <= 5
    ensures var s := Sequence(row + [';' as int] + column, c);
            && SafeFeed(t, s)
            && var r := Feed(t, s);
               r == AtRow(Like(t, r), Value(row)).(x := if Value(column) == 0 then t.x else (Value(column) - 1) % 256)
  {
    var s := MoveSequence(row, column, c as int);
    assert s == Sequence(row + [';' as int] + column, c);
    MoveSequenceMoves(t, row, column, c as int);
    var r := Feed(t, s);
    hide Feed, SafeFeed, Value, MoveSequence;
    MovedCells(Like(t, r), Value(row), Value(column));
    hide MovedTo, AtRow;
  }

  function AtRow(t: Term, row: nat): Term
    requires TermOk(t)
  {
    var down := (row - 1) % 256;
    if row == 0 then t
    else if down <= 2 then t.(y := down)
    else t.(y := 2, text := [if down == 3 then t.text[1] else Spaces(81), Spaces(81)])
  }

  lemma MovedCells(t: Term, row: nat, column: nat)
    requires TermOk(t)
    ensures MovedTo(t, row, column) == AtRow(t, row).(x := if column == 0 then t.x else (column - 1) % 256)
  {
    MovesUp(t);
    hide ScrolledUp;
    assert ScrolledBy(t.text, 1) == ScrolledBy(ScrolledUp(t.text), 0) == ScrolledUp(t.text);
    assert ScrolledBy(t.text, 2) == ScrolledBy(ScrolledUp(t.text), 1);
    assert ScrolledBy(ScrolledUp(t.text), 1) == ScrolledBy(ScrolledUp(ScrolledUp(t.text)), 0);
    assert ScrolledBy(t.text, 2) == ScrolledUp(ScrolledUp(t.text));
    hide ScrolledBy;
  }
}
