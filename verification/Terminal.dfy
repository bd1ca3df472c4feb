/** The shell's scrollback: per-terminal cell buffers, and the log each one is a window over. */
module Terminal {
  import opened Words

  const WIDTH: int := 80
  const TERMINALS: int := 10
  const CELLS: int := 3000
  const FIRST_ROW: int := 2
  const LAST_ROW: int := 23
  const NEWLINE: byte := 10
  const SPACE: byte := 32
  /** Columns a line uses before it wraps onto itself. */
  const COLUMNS: int := 79

  type Cell = int

  /** `VGA::setColorContent`: character below, colour above. */
  function Paint(ch: byte, color: byte): Cell {
    ch + 256 * color
  }

  function BlankRow(blank: Cell): (r: seq<Cell>)
    ensures |r| == WIDTH && forall c :: 0 <= c < WIDTH ==> r[c] == blank
  {
    seq(WIDTH, _ => blank)
  }

  /** The row a segment leaves behind, written character by character into a blank row. */
  function RowOf(segment: seq<byte>, color: byte, blank: Cell): (r: seq<Cell>)
    ensures |r| == WIDTH
  {
    if segment == [] then BlankRow(blank)
    else
      var n := |segment| - 1;
      RowOf(segment[..n], color, blank)[n % COLUMNS := Paint(segment[n], color)]
  }

  /** A segment of at most 79 characters is shown as it is, padded with blanks. */
  lemma {:induction false} ShortRow(segment: seq<byte>, color: byte, blank: Cell)
    requires |segment| <= COLUMNS
    ensures forall c :: 0 <= c < WIDTH ==>
              RowOf(segment, color, blank)[c] == if c < |segment| then Paint(segment[c], color) else blank
  {
    if segment != [] {
      ShortRow(segment[..|segment| - 1], color, blank);
    }
  }

  /** A longer one wraps within its row: column c shows the last character k with k % 79 == c. */
  lemma {:induction false} AnyRow(segment: seq<byte>, color: byte, blank: Cell, k: int)
    requires 0 <= k < |segment| <= k + COLUMNS
    ensures RowOf(segment, color, blank)[k % COLUMNS] == Paint(segment[k], color)
    decreases |segment|
  {
    var n := |segment| - 1;
    if k < n {
      AnyRow(segment[..n], color, blank, k);
      assert n % COLUMNS != k % COLUMNS by {
        assert 0 < n - k < COLUMNS;
      }
    }
  }

  /** The segments of a text: what lies between newlines. */
  function Segments(data: seq<byte>): (r: seq<seq<byte>>)
    ensures |r| > 0
  {
    if data == [] then [[]]
    else
      var n := |data| - 1;
      var s := Segments(data[..n]);
      if data[n] == NEWLINE then s + [[]] else s[..|s| - 1] + [s[|s| - 1] + [data[n]]]
  }

  /** The rows a write adds to a log. */
  function Rows(segments: seq<seq<byte>>, color: byte, blank: Cell): (r: seq<seq<Cell>>)
    ensures |r| == |segments| && forall i :: 0 <= i < |r| ==> r[i] == RowOf(segments[i], color, blank)
  {
    seq(|segments|, i requires 0 <= i < |segments| => RowOf(segments[i], color, blank))
  }

  /** Row r of the window: rows 2 to 22 show the last 21 rows of the log, the newest at the bottom. */
  function WindowRow(log: seq<seq<Cell>>, r: int, blank: Cell): seq<Cell> {
    var i := |log| - LAST_ROW + r;
    if 0 <= i < |log| then log[i] else BlankRow(blank)
  }

  class Shell {
    const screens: array2<Cell>
    const terminalColor: byte
    const echoColor: byte
    var current: int
    var x: int

    /** One log of rows per terminal. */
    ghost var logs: seq<seq<seq<Cell>>>

    ghost function Blank(): Cell {
      Paint(SPACE, terminalColor)
    }

    ghost predicate Wired()
      reads this
    {
      && screens.Length0 == TERMINALS && screens.Length1 == CELLS
      && 1 <= current <= 5 && |logs| == TERMINALS
      && forall t, i :: 0 <= t < TERMINALS && 0 <= i < |logs[t]| ==> |logs[t][i]| == WIDTH
    }

    /** Terminal t shows the window over `log` with `last` in row 23. */
    ghost predicate Shows(t: int, log: seq<seq<Cell>>, last: seq<Cell>)
      reads this, screens
      requires screens.Length0 == TERMINALS && screens.Length1 == CELLS && 0 <= t < TERMINALS
    {
      && |last| == WIDTH && (forall i :: 0 <= i < |log| ==> |log[i]| == WIDTH)
      && (forall r, c :: FIRST_ROW <= r < LAST_ROW && 0 <= c < WIDTH ==>
            screens[t, r * WIDTH + c] == WindowRow(log, r, Blank())[c])
      && (forall c :: 0 <= c < WIDTH ==> screens[t, LAST_ROW * WIDTH + c] == last[c])
    }

    ghost predicate Valid()
      reads this, screens
    {
      && Wired() && x == 0
      && forall t :: 1 <= t <= 5 ==> Shows(t, logs[t], BlankRow(Blank()))
    }

    constructor (terminalColor: byte, echoColor: byte)
      ensures Valid() && current == 1 && this.terminalColor == terminalColor && this.echoColor == echoColor
      ensures forall t :: 0 <= t < TERMINALS ==> logs[t] == []
      ensures forall t, i :: 1 <= t <= 5 && 160 <= i < 1920 ==> screens[t, i] == 32 + 256 * terminalColor
      ensures fresh(screens)
    {
      this.terminalColor, this.echoColor := terminalColor, echoColor;
      screens := new Cell[TERMINALS, CELLS]((t, i) => 0);
      current, x := 1, 0;
      logs := seq(TERMINALS, _ => []);
      new;
      hide Shows, Blank, BlankRow;
      StartTerminal(1);
      StartTerminal(2);
      StartTerminal(3);
      StartTerminal(4);
      StartTerminal(5);
      hide Valid;
      AllBlank();
    }

    /** An empty log shows as blanks. */
    lemma AllBlank()
      requires screens.Length0 == TERMINALS && screens.Length1 == CELLS && 1 <= current <= 5 && x == 0
      requires |logs| == TERMINALS && forall t :: 0 <= t < TERMINALS ==> logs[t] == []
      requires Shows(1, [], BlankRow(Blank())) && Shows(2, [], BlankRow(Blank())) && Shows(3, [], BlankRow(Blank()))
      requires Shows(4, [], BlankRow(Blank())) && Shows(5, [], BlankRow(Blank()))
      ensures Valid()
    {
      hide Shows, Blank, BlankRow;
    }

    /** Blanks the 22 content rows of one terminal. */
    method StartTerminal(t: int)
      requires screens.Length0 == TERMINALS && screens.Length1 == CELLS && 0 <= t < TERMINALS
      modifies screens
      ensures Shows(t, [], BlankRow(Blank()))
      ensures forall u, i :: 0 <= u < TERMINALS && 0 <= i < CELLS && u != t ==> screens[u, i] == old(screens[u, i])
      ensures forall i :: 160 <= i < 1920 ==> screens[t, i] == 32 + 256 * terminalColor
      ensures forall u, log, last :: 0 <= u < TERMINALS && u != t && old(Shows(u, log, last)) ==> Shows(u, log, last)
    {
      var pos := FIRST_ROW * WIDTH;
      while pos < (LAST_ROW + 1) * WIDTH
        invariant FIRST_ROW * WIDTH <= pos <= (LAST_ROW + 1) * WIDTH
        invariant forall i :: FIRST_ROW * WIDTH <= i < pos ==> screens[t, i] == Blank()
        invariant forall u, i :: 0 <= u < TERMINALS && 0 <= i < CELLS && u != t ==> screens[u, i] == old(screens[u, i])
      {
        screens[t, pos] := Paint(SPACE, terminalColor);
        pos := pos + 1;
      }
    }

    /** Empties a terminal and its log. */
    method ClearTerminal(t: int)
      requires Valid() && 1 <= t <= 5
      modifies this, screens
      ensures Valid() && current == old(current)
      ensures logs == old(logs)[t := []]
      ensures forall i :: 160 <= i < 1920 ==> screens[t, i] == 32 + 256 * terminalColor
      ensures forall u, i :: 0 <= u < 10 && 0 <= i < 3000 && u != t ==> screens[u, i] == old(screens[u, i])
    {
      StartTerminal(t);
      x := 0;
      logs := logs[t := []];
    }

    /** F1 to F5. */
    method Switch(t: int)
      requires Valid() && 1 <= t <= 5
      modifies this
      ensures Valid() && current == t && logs == old(logs)
    {
      current := t;
    }

    /** Clears row 23 of the current terminal. */
    method BlankLastRow()
      requires screens.Length0 == TERMINALS && screens.Length1 == CELLS && 0 <= current < TERMINALS
      modifies screens
      ensures forall u, i :: 0 <= u < TERMINALS && 0 <= i < CELLS ==>
                screens[u, i] == if u == current && LAST_ROW * WIDTH <= i < (LAST_ROW + 1) * WIDTH
                                 then Blank() else old(screens[u, i])
    {
      var col := 0;
      while col < WIDTH
        invariant 0 <= col <= WIDTH
        invariant forall u, i :: 0 <= u < TERMINALS && 0 <= i < CELLS ==>
                    screens[u, i] == if u == current && LAST_ROW * WIDTH <= i < LAST_ROW * WIDTH + col
                                     then Blank() else old(screens[u, i])
      {
        screens[current, LAST_ROW * WIDTH + col] := Paint(SPACE, terminalColor);
        col := col + 1;
      }
    }

    /** Moves every content row of the current terminal up by one and blanks the last. */
    method Scroll(ghost log: seq<seq<Cell>>, ghost last: seq<Cell>)
      requires screens.Length0 == TERMINALS && screens.Length1 == CELLS && 0 <= current < TERMINALS
      requires Shows(current, log, last)
      modifies `x, screens
      ensures Shows(current, log + [last], BlankRow(Blank())) && x == 0
      ensures forall u, i :: 0 <= u < TERMINALS && 0 <= i < CELLS && u != current ==>
              screens[u, i] == old(screens[u, i])
    {
      var row := FIRST_ROW;
      while row < LAST_ROW
        invariant FIRST_ROW <= row <= LAST_ROW
        invariant forall u, i :: 0 <= u < TERMINALS && 0 <= i < CELLS ==>
                    screens[u, i] == if u == current && FIRST_ROW * WIDTH <= i < row * WIDTH
                                     then old(screens[u, i + WIDTH]) else old(screens[u, i])
      {
        var col := 0;
        while col < WIDTH
          invariant 0 <= col <= WIDTH
          invariant forall u, i :: 0 <= u < TERMINALS && 0 <= i < CELLS ==>
                      screens[u, i] == if u == current && FIRST_ROW * WIDTH <= i < row * WIDTH + col
                                       then old(screens[u, i + WIDTH]) else old(screens[u, i])
        {
          screens[current, row * WIDTH + col] := screens[current, (row + 1) * WIDTH + col];
          col := col + 1;
        }
        row := row + 1;
      }
      BlankLastRow();
      x := 0;
      forall r, c | FIRST_ROW <= r < LAST_ROW && 0 <= c < WIDTH
        ensures screens[current, r * WIDTH + c] == WindowRow(log + [last], r, Blank())[c]
      {
        WindowSlides(log, last, r, Blank());
        assert screens[current, r * WIDTH + c] == old(screens[current, (r + 1) * WIDTH + c]);
      }
      forall c | 0 <= c < WIDTH
        ensures screens[current, LAST_ROW * WIDTH + c] == BlankRow(Blank())[c]
      {
      }
    }

    /** Writes into row 23 of the current terminal; a newline scrolls. `limit` is two cells short
        of the end of the content, so column 78 is the last one used before wrapping. */
    method WriteCColored(data: seq<byte>, color: byte, ghost log: seq<seq<Cell>>)
      requires screens.Length0 == TERMINALS && screens.Length1 == CELLS && 0 <= current < TERMINALS
      requires Shows(current, log, BlankRow(Blank())) && x == 0
      modifies `x, screens
      ensures Shows(current, log + Rows(Finished(data), color, Blank()), RowOf(Unfinished(data), color, Blank()))
      ensures forall u, i :: 0 <= u < TERMINALS && 0 <= i < CELLS && u != current ==>
              screens[u, i] == old(screens[u, i])
    {
      hide Segments, RowOf, Rows, Finished, Unfinished, WindowRow;
      var lastLine := LAST_ROW * WIDTH;
      var limit := (LAST_ROW + 1) * WIDTH - 2;
      var gi := 0;
      var i := 0;
      NoSegments(color, Blank(), log);
      while i < |data|
        invariant 0 <= i <= |data| && 0 <= gi < (LAST_ROW + 1) * WIDTH
        invariant Shows(current, log + Rows(Finished(data[..i]), color, Blank()),
                  RowOf(Unfinished(data[..i]), color, Blank()))
        invariant var n := |Unfinished(data[..i])|;
                  if n == 0 then x == 0 else gi == lastLine + (n - 1) % COLUMNS && x == (n - 1) % COLUMNS + 1
        invariant forall u, i :: 0 <= u < TERMINALS && 0 <= i < CELLS && u != current ==>
                  screens[u, i] == old(screens[u, i])
      {
        ghost var n, log' := |Unfinished(data[..i])|, log + Rows(Finished(data[..i]), color, Blank());
        ghost var last := RowOf(Unfinished(data[..i]), color, Blank());
        SegmentsSnoc(data, i, color, Blank());
        if data[i] == NEWLINE {
          Scroll(log', last);
          assert log' + [last] == log + Rows(Finished(data[..i + 1]), color, Blank());
          NoRow(color, Blank());
        } else {
          if n > 0 { NextColumn(n); }
          if gi >= limit { x := 0; }
          gi := lastLine + x;
          PutCell(gi, Paint(data[i], color), log', last);
          x := x + 1;
        }
        i := i + 1;
      }
      assert data[..i] == data;
    }

    /** One cell of row 23. */
    method PutCell(gi: int, cell: Cell, ghost log: seq<seq<Cell>>, ghost last: seq<Cell>)
      requires screens.Length0 == TERMINALS && screens.Length1 == CELLS && 0 <= current < TERMINALS
      requires Shows(current, log, last) && LAST_ROW * WIDTH <= gi < (LAST_ROW + 1) * WIDTH
      modifies screens
      ensures Shows(current, log, last[gi - LAST_ROW * WIDTH := cell])
      ensures forall u, i :: 0 <= u < TERMINALS && 0 <= i < CELLS && u != current ==>
              screens[u, i] == old(screens[u, i])
    {
      hide WindowRow;
      screens[current, gi] := cell;
    }

    /** Adds the segments of a text to the current terminal's log and touches no other terminal. */
    method WriteC(data: seq<byte>)
      requires Valid()
      modifies this, screens
      ensures Valid() && current == old(current)
      ensures logs == old(logs)[current := old(logs)[current] + Rows(Segments(data), terminalColor, Blank())]
      ensures |data| <= 79 && 10 !in data ==> forall i :: 1760 <= i < 1840 ==>
                && screens[current, i] % 256 == (if i - 1760 < |data| then data[i - 1760] else 32)
                && screens[current, i] / 256 == terminalColor
      ensures |data| <= 79 && 10 !in data ==> forall i :: 160 <= i < 1760 ==>
                screens[current, i] == old(screens[current, i + 80])
      ensures forall i :: 1840 <= i < 1920 ==> screens[current, i] == 32 + 256 * terminalColor
      ensures forall t, i :: 0 <= t < 10 && 0 <= i < 3000 && t != current ==> screens[t, i] == old(screens[t, i])
    {
      WriteIn(data, terminalColor);
    }

    /** The same in the colour of typed commands. */
    method WriteCEcho(data: seq<byte>)
      requires Valid()
      modifies this, screens
      ensures Valid() && current == old(current)
      ensures logs == old(logs)[current := old(logs)[current] + Rows(Segments(data), echoColor, Blank())]
      ensures |data| <= 79 && 10 !in data ==> forall i :: 1760 <= i < 1840 ==>
                && screens[current, i] % 256 == (if i - 1760 < |data| then data[i - 1760] else 32)
                && screens[current, i] / 256 == (if i - 1760 < |data| then echoColor else terminalColor)
      ensures |data| <= 79 && 10 !in data ==> forall i :: 160 <= i < 1760 ==>
                screens[current, i] == old(screens[current, i + 80])
      ensures forall i :: 1840 <= i < 1920 ==> screens[current, i] == 32 + 256 * terminalColor
      ensures forall t, i :: 0 <= t < 10 && 0 <= i < 3000 && t != current ==> screens[t, i] == old(screens[t, i])
    {
      WriteIn(data, echoColor);
    }

    method WriteIn(data: seq<byte>, color: byte)
      requires Valid()
      modifies this, screens
      ensures Valid() && current == old(current)
      ensures logs == old(logs)[current := old(logs)[current] + Rows(Segments(data), color, Blank())]
      ensures |data| <= 79 && 10 !in data ==> forall i :: 1760 <= i < 1840 ==>
                && screens[current, i] % 256 == (if i - 1760 < |data| then data[i - 1760] else 32)
                && screens[current, i] / 256 == (if i - 1760 < |data| then color else terminalColor)
      ensures |data| <= 79 && 10 !in data ==> forall i :: 160 <= i < 1760 ==>
                screens[current, i] == old(screens[current, i + 80])
      ensures forall i :: 1840 <= i < 1920 ==> screens[current, i] == 32 + 256 * terminalColor
      ensures forall t, i :: 0 <= t < 10 && 0 <= i < 3000 && t != current ==> screens[t, i] == old(screens[t, i])
    {
      hide Segments, RowOf, Rows, Finished, Unfinished, WindowRow;
      ghost var log := logs[current];
      ShownCells(current, log, BlankRow(Blank()));
      WriteCColored(data, color, log);
      Scroll(log + Rows(Finished(data), color, Blank()), RowOf(Unfinished(data), color, Blank()));
      RowsJoin(data, color, Blank());
      assert log + Rows(Finished(data), color, Blank()) + [RowOf(Unfinished(data), color, Blank())] ==
             log + Rows(Segments(data), color, Blank());
      logs := logs[current := log + Rows(Segments(data), color, Blank())];
      BlankBytes(terminalColor);
      ShownCells(current, logs[current], BlankRow(Blank()));
      if |data| <= 79 && 10 !in data {
        NewestRow(data, color, terminalColor, log);
      }
    }

    /** A short line that is the newest of the current terminal's log is in row 22, byte by byte. */
    lemma NewestCells(data: seq<byte>, log: seq<seq<Cell>>)
      requires Valid() && |data| <= 79 && 10 !in data
      requires logs[current] == log + Rows(Segments(data), terminalColor, Blank())
      ensures forall i :: 1760 <= i < 1840 ==>
                && screens[current, i] % 256 == (if i - 1760 < |data| then data[i - 1760] else 32)
                && screens[current, i] / 256 == terminalColor
    {
      hide Segments, RowOf, Rows, WindowRow, CellOf;
      ShownCells(current, logs[current], BlankRow(Blank()));
      NewestRow(data, terminalColor, terminalColor, log);
    }

    /** The cells of a terminal that shows a window, by their index. */
    lemma ShownCells(t: int, log: seq<seq<Cell>>, last: seq<Cell>)
      requires screens.Length0 == TERMINALS && screens.Length1 == CELLS && 0 <= t < TERMINALS
      requires Shows(t, log, last)
      ensures forall i :: 160 <= i < 1840 ==> screens[t, i] == CellOf(log, i, Blank())
      ensures forall i :: 1840 <= i < 1920 ==> screens[t, i] == last[i - 1840]
    {
      forall i | 160 <= i < 1840
        ensures screens[t, i] == CellOf(log, i, Blank())
      {
        var r, c := i / 80, i % 80;
        assert i == r * 80 + c;
        assert screens[t, r * 80 + c] == WindowRow(log, r, Blank())[c];
      }
      forall i | 1840 <= i < 1920
        ensures screens[t, i] == last[i - 1840]
      {
        assert screens[t, 23 * 80 + (i - 1840)] == last[i - 1840];
      }
    }

    /** Writes to the debug terminal, number 5, whatever the current one is. */
    method WriteD(data: seq<byte>)
      requires Valid()
      modifies this, screens
      ensures Valid() && current == old(current)
      ensures logs == old(logs)[5 := old(logs)[5] + Rows(Segments(data), terminalColor, Blank())]
      ensures |data| <= 79 && 10 !in data ==> forall i :: 1760 <= i < 1840 ==>
                && screens[5, i] % 256 == (if i - 1760 < |data| then data[i - 1760] else 32)
                && screens[5, i] / 256 == terminalColor
      ensures |data| <= 79 && 10 !in data ==> forall i :: 160 <= i < 1760 ==>
                screens[5, i] == old(screens[5, i + 80])
      ensures forall i :: 1840 <= i < 1920 ==> screens[5, i] == 32 + 256 * terminalColor
      ensures forall t, i :: 0 <= t < 10 && 0 <= i < 3000 && t != 5 ==> screens[t, i] == old(screens[t, i])
    {
      var active := current;
      current := 5;
      WriteC(data);
      current := active;
    }
  }

  lemma BlankBytes(color: byte)
    ensures forall c :: 0 <= c < WIDTH ==> BlankRow(Paint(SPACE, color))[c] == 32 + 256 * color
  {
  }

  lemma PaintBytes(ch: byte, color: byte)
    ensures Paint(ch, color) % 256 == ch && Paint(ch, color) / 256 == color
  {
  }

  /** A text without newlines is one segment. */
  lemma {:induction false} OneSegment(s: seq<byte>)
    requires NEWLINE !in s
    ensures Segments(s) == [s]
  {
    if s != [] {
      var n := |s| - 1;
      OneSegment(s[..n]);
      assert s[..n] + [s[n]] == s;
    }
  }

  /** A newline separates the segments before it from those after it. */
  lemma {:induction false} SegmentsJoin(a: seq<byte>, b: seq<byte>)
    ensures Segments(a + [10] + b) == Segments(a) + Segments(b)
    decreases |b|
  {
    hide Segments;
    var s := a + [10] + b;
    SegmentsLast(s);
    if b == [] {
      assert s[..|s| - 1] == a;
    } else {
      var n := |b| - 1;
      SegmentsJoin(a, b[..n]);
      SegmentsLast(b);
      assert s[..|s| - 1] == a + [10] + b[..n] && s[|s| - 1] == b[n];
      var x, y := Segments(a), Segments(b[..n]);
      LastOf(x, y);
      if b[n] == 10 {
        assert (x + y) + [[]] == x + (y + [[]]);
      } else {
        var z := [y[|y| - 1] + [b[n]]];
        assert x + y[..|y| - 1] + z == x + (y[..|y| - 1] + z);
      }
    }
  }

  lemma LastOf(x: seq<seq<byte>>, y: seq<seq<byte>>)
    requires y != []
    ensures (x + y)[..|x + y| - 1] == x + y[..|y| - 1] && (x + y)[|x + y| - 1] == y[|y| - 1]
  {
  }

  lemma SegmentsLast(s: seq<byte>)
    ensures Segments([]) == [[]]
    ensures s != [] ==>
              var n := |s| - 1; var t := Segments(s[..n]);
              Segments(s) == if s[n] == 10 then t + [[]] else t[..|t| - 1] + [t[|t| - 1] + [s[n]]]
  {
  }

  /** Cell i of a screen that shows a window over a log. */
  ghost function CellOf(log: seq<seq<Cell>>, i: int, blank: Cell): Cell {
    var row, c := WindowRow(log, i / 80, blank), i % 80;
    if 0 <= c < |row| then row[c] else blank
  }

  /** One short line more: it is the newest row, byte by byte, and every other row moves up. */
  lemma NewestRow(data: seq<byte>, color: byte, blankColor: byte, log: seq<seq<Cell>>)
    requires |data| <= 79 && 10 !in data
    ensures var blank := Paint(SPACE, blankColor); var after := log + Rows(Segments(data), color, blank);
            && (forall i :: 1760 <= i < 1840 ==>
                  && CellOf(after, i, blank) % 256 == (if i - 1760 < |data| then data[i - 1760] else 32)
                  && CellOf(after, i, blank) / 256 == (if i - 1760 < |data| then color else blankColor))
            && (forall i :: 160 <= i < 1760 ==> CellOf(after, i, blank) == CellOf(log, i + 80, blank))
  {
    hide RowOf, Segments, Rows, Paint, WindowRow;
    var blank := Paint(SPACE, blankColor);
    OneSegment(data);
    ShortRow(data, color, blank);
    var last := RowOf(data, color, blank);
    var after := log + [last];
    assert Rows(Segments(data), color, blank) == [last];
    forall i | 1760 <= i < 1840
      ensures CellOf(after, i, blank) % 256 == (if i - 1760 < |data| then data[i - 1760] else 32)
      ensures CellOf(after, i, blank) / 256 == (if i - 1760 < |data| then color else blankColor)
    {
      WindowSlides(log, last, 22, blank);
      RowAndColumn(i, 22);
      if i - 1760 < |data| { PaintBytes(data[i - 1760], color); } else { PaintBytes(32, blankColor); }
    }
    forall i | 160 <= i < 1760
      ensures CellOf(after, i, blank) == CellOf(log, i + 80, blank)
    {
      WindowSlides(log, last, i / 80, blank);
      RowAndColumn(i, i / 80);
      RowAndColumn(i + 80, i / 80 + 1);
    }
  }

  lemma RowAndColumn(i: int, r: int)
    requires r * 80 <= i < r * 80 + 80
    ensures i / 80 == r && i % 80 == i - r * 80
  {
  }

  lemma NextColumn(n: int)
    requires n >= 1
    ensures n % COLUMNS == if (n - 1) % COLUMNS == COLUMNS - 1 then 0 else (n - 1) % COLUMNS + 1
  {
  }

  lemma NoRow(color: byte, blank: Cell)
    ensures RowOf([], color, blank) == BlankRow(blank)
  {
  }

  lemma NoSegments(color: byte, blank: Cell, log: seq<seq<Cell>>)
    ensures Finished([]) == [] && Unfinished([]) == []
    ensures log + Rows(Finished([]), color, blank) == log
    ensures RowOf(Unfinished([]), color, blank) == BlankRow(blank)
  {
  }

  /** The segments before the unfinished one, and that one. */
  function Finished(data: seq<byte>): seq<seq<byte>> {
    Segments(data)[..|Segments(data)| - 1]
  }

  function Unfinished(data: seq<byte>): seq<byte> {
    Segments(data)[|Segments(data)| - 1]
  }

  lemma SegmentsSnoc(data: seq<byte>, i: int, color: byte, blank: Cell)
    requires 0 <= i < |data|
    ensures var a, b := data[..i], data[..i + 1];
            if data[i] == NEWLINE then
              && Unfinished(b) == []
              && Rows(Finished(b), color, blank) == Rows(Finished(a), color,
                 blank) + [RowOf(Unfinished(a), color, blank)]
            else
              && Finished(b) == Finished(a) && |Unfinished(b)| == |Unfinished(a)| + 1
              && RowOf(Unfinished(b), color, blank) ==
                   RowOf(Unfinished(a), color, blank)[|Unfinished(a)| % COLUMNS := Paint(data[i], color)]
  {
    var a, b := data[..i], data[..i + 1];
    assert b[..i] == a;
    var s := Segments(a);
    if data[i] == NEWLINE {
      assert Finished(b) == s && s == Finished(a) + [Unfinished(a)];
    } else {
      assert Segments(b) == s[..|s| - 1] + [s[|s| - 1] + [data[i]]];
      assert Unfinished(b)[..|Unfinished(a)|] == Unfinished(a);
    }
  }

  lemma RowsJoin(data: seq<byte>, color: byte, blank: Cell)
    ensures Rows(Segments(data), color, blank) ==
              Rows(Finished(data), color, blank) + [RowOf(Unfinished(data), color, blank)]
  {
    assert Segments(data) == Finished(data) + [Unfinished(data)];
  }

  /** One row more in the log moves every row of the window up by one. */
  lemma WindowSlides(log: seq<seq<Cell>>, last: seq<Cell>, r: int, blank: Cell)
    requires FIRST_ROW <= r < LAST_ROW
    ensures WindowRow(log + [last], r, blank) == if r == LAST_ROW - 1 then last else WindowRow(log, r + 1, blank)
  {
  }
}
