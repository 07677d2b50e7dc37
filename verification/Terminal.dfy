/**
  The text side of display/terminal.c: a ring of the last lines, and the window of it that is
  shown.  The ring is proved to hold the end of a log of everything ever printed.
 */
module Terminal {
  import opened CStrings
  import opened Rings

  const SCROLLBACK_LINES: nat := 20
  const MAX_LINE_LENGTH: nat := 160

  const BACKSPACE: Byte := 8
  const LINE_FEED: Byte := 10
  const CARRIAGE_RETURN: Byte := 13

  // ---------- the unbounded log ----------

  /** All MAX_LINE_LENGTH bytes of a line. */
  type Line = s: seq<Byte> | |s| == MAX_LINE_LENGTH witness Zeros(MAX_LINE_LENGTH)

  const EMPTY: Line := Zeros(MAX_LINE_LENGTH)

  /** Everything printed since the last clear, and the cursor in the last line. */
  datatype Log = Log(lines: seq<Line>, col: nat)

  predicate InLine(log: Log, cols: nat) {
    log.col < cols || log.col == 0
  }

  function Started(log: Log): Log {
    if log.lines == [] then log.(lines := [EMPTY]) else log
  }

  /** One byte of the last line is written. */
  function Stored(log: Log, col: nat, c: Byte): (r: Log)
    requires log.lines != [] && col < MAX_LINE_LENGTH
    ensures |r.lines| == |log.lines| && r.col == log.col
  {
    var n := |log.lines| - 1;
    log.(lines := log.lines[n := log.lines[n][col := c]])
  }

  function Broken(log: Log): Log {
    Log(log.lines + [EMPTY], 0)
  }

  function Erased(log: Log, cols: nat): (r: Log)
    requires InLine(log, cols) && cols <= MAX_LINE_LENGTH
  {
    if log.col == 0 then log
    else
      var l := log.(col := log.col - 1);
      if l.lines == [] then l else Stored(l, l.col, NUL)
  }

  /** The log after printing c on a terminal of the given width. */
  function Printed(log: Log, c: Byte, cols: nat): Log
    requires InLine(log, cols) && cols <= MAX_LINE_LENGTH
  {
    var l := Started(log);
    if c == BACKSPACE then Erased(l, cols)
    else if c == LINE_FEED then Broken(l)
    else if c == CARRIAGE_RETURN then l.(col := 0)
    else
      var s := if l.col < cols then Stored(l, l.col, c) else l;
      if s.col + 1 >= cols then Broken(s) else s.(col := s.col + 1)
  }

  function Min(a: nat, b: nat): nat {
    if a < b then a else b
  }

  /** The text of a line as drawn: up to the width or the first NUL. */
  function Text(line: Line, cols: nat): seq<Byte>
    requires cols <= MAX_LINE_LENGTH
  {
    CString(line[..cols])
  }

  /** The lines to see when scrolled up: they end `offset` lines above the newest. */
  function Window(lines: seq<Line>, offset: nat, rows: nat): (w: seq<Line>)
    requires offset + Min(Min(|lines|, SCROLLBACK_LINES), rows) <= |lines|
  {
    var end := |lines| - offset;
    lines[end - Min(Min(|lines|, SCROLLBACK_LINES), rows)..end]
  }

  function Texts(lines: seq<Line>, cols: nat): (t: seq<seq<Byte>>)
    requires cols <= MAX_LINE_LENGTH
    ensures |t| == |lines|
  {
    seq(|lines|, i requires 0 <= i < |lines| => Text(lines[i], cols))
  }

  // ---------- printing ----------

  /** Line feed starts an empty line, carriage return goes back to column 0, and a backspace there does nothing. */
  lemma ControlCharacters(log: Log, cols: nat)
    requires InLine(log, cols) && cols <= MAX_LINE_LENGTH
    ensures var lines := if log.lines == [] then [EMPTY] else log.lines;
            && Printed(log, 10, cols) == Log(lines + [EMPTY], 0)
            && Printed(log, 13, cols) == Log(lines, 0)
            && (log.col == 0 ==> Printed(log, 8, cols) == Log(lines, 0))
  {
  }

  /** Any other character is stored at the cursor, which moves on, to a new line behind the last column. */
  lemma PlainCharacters(log: Log, c: Byte, cols: nat)
    requires 0 < cols <= 160 && log.lines != [] && log.col < cols && c !in {8, 10, 13}
    ensures var n := |log.lines| - 1;
            var stored := log.lines[n := log.lines[n][log.col := c]];
            Printed(log, c, cols) ==
            if log.col + 1 < cols then Log(stored, log.col + 1) else Log(stored + [EMPTY], 0)
  {
  }

  /** A backspace goes back one column and clears it. */
  lemma Backspaced(log: Log, cols: nat)
    requires 0 < log.col < cols <= 160 && log.lines != []
    ensures var n := |log.lines| - 1;
            Printed(log, 8, cols) == Log(log.lines[n := log.lines[n][log.col - 1 := NUL]], log.col - 1)
  {
  }

  predicate Plain(c: Byte) {
    c !in {BACKSPACE, LINE_FEED, CARRIAGE_RETURN}
  }

  /** A backspace takes back the character printed before it, unless that filled the line. */
  lemma BackspaceUndoes(log: Log, c: Byte, cols: nat)
    requires log.lines != [] && log.col + 1 < cols <= MAX_LINE_LENGTH && Plain(c)
    requires log.lines[|log.lines| - 1][log.col] == NUL
    ensures Printed(Printed(log, c, cols), BACKSPACE, cols) == log
  {
    var n := |log.lines| - 1;
    assert log.lines[n][log.col := c][log.col := NUL] == log.lines[n];
  }

  function PrintedAll(log: Log, s: seq<Byte>, cols: nat): (r: Log)
    requires InLine(log, cols) && cols <= MAX_LINE_LENGTH
    ensures InLine(r, cols)
  {
    if s == [] then log else Printed(PrintedAll(log, s[..|s| - 1], cols), s[|s| - 1], cols)
  }

  /** All characters up to the cursor, line after line. */
  function Content(log: Log, cols: nat): seq<Byte>
    requires InLine(log, cols) && cols <= MAX_LINE_LENGTH
  {
    if log.lines == [] then []
    else Full(log.lines[..|log.lines| - 1], cols) + log.lines[|log.lines| - 1][..log.col]
  }

  function Full(lines: seq<Line>, cols: nat): seq<Byte>
    requires cols <= MAX_LINE_LENGTH
  {
    if lines == [] then [] else Full(lines[..|lines| - 1], cols) + lines[|lines| - 1][..cols]
  }

  /** Wrapping loses nothing: the log holds exactly the text printed, cut into lines of the screen's width. */
  lemma {:induction false} NothingLost(s: seq<Byte>, cols: nat)
    requires 0 < cols <= MAX_LINE_LENGTH && forall c | c in s :: Plain(c)
    ensures Content(PrintedAll(Log([], 0), s, cols), cols) == s
    ensures s != [] ==> PrintedAll(Log([], 0), s, cols).lines != []
  {
    hide Printed;
    hide Full;
    if s != [] {
      var before := s[..|s| - 1];
      NothingLost(before, cols);
      OneMore(PrintedAll(Log([], 0), before, cols), s[|s| - 1], cols);
    }
  }

  lemma OneMore(log: Log, c: Byte, cols: nat)
    requires 0 < cols <= MAX_LINE_LENGTH && InLine(log, cols) && Plain(c) && (log.lines == [] ==> log.col == 0)
    ensures Content(Printed(log, c, cols), cols) == Content(log, cols) + [c] && Printed(log, c, cols).lines != []
  {
    hide Full;
    var l := Started(log);
    var n := |l.lines| - 1;
    var t := Stored(l, l.col, c);
    ContentSoFar(log, cols);
    assert t.lines[..n] == l.lines[..n];
    assert t.lines[n][..l.col + 1] == l.lines[n][..l.col] + [c];
    if l.col + 1 >= cols {
      assert Broken(t).lines[..n + 1] == t.lines && EMPTY[..0] == [];
      FullStep(t.lines, cols);
    }
  }

  lemma ContentSoFar(log: Log, cols: nat)
    requires InLine(log, cols) && cols <= MAX_LINE_LENGTH && (log.lines == [] ==> log.col == 0)
    ensures var l := Started(log);
            var n := |l.lines| - 1;
            Content(log, cols) == Full(l.lines[..n], cols) + l.lines[n][..l.col]
  {
    assert Full([], cols) == [];
  }

  lemma FullStep(lines: seq<Line>, cols: nat)
    requires lines != [] && cols <= MAX_LINE_LENGTH
    ensures Full(lines, cols) == Full(lines[..|lines| - 1], cols) + lines[|lines| - 1][..cols]
  {
  }

  // ---------- the ring ----------

  /** `get_line`: the slot, as the source computes it. */
  method LineSlot(start: nat, index: nat) returns (slot: nat)
    requires start < SCROLLBACK_LINES && index < SCROLLBACK_LINES
    ensures slot == Slot(SCROLLBACK_LINES, start, index)
  {
    SlotIsRemainder(SCROLLBACK_LINES, start, index);
    slot := (start + index) % SCROLLBACK_LINES;
  }

  class Screen {
    /** `line_buffer`, `buffer_start`, `buffer_count` */
    const buffer: array2<Byte>
    var start: nat
    var count: nat

    /** `terminal_row`, `terminal_col`, `scroll_offset`, `max_cols`, `max_rows` */
    var row: nat
    var col: nat
    var offset: nat
    const cols: nat
    const rows: nat

    ghost var lines: seq<Line>

    ghost predicate Valid()
      reads this, buffer
    {
      Ring() && RowFollows()
    }

    /** The ring holds the last lines of the log. */
    ghost predicate Ring()
      reads this, buffer
    {
      && Sizes()
      && forall k: nat | k < count :: Holds(Slot(SCROLLBACK_LINES, start, k), lines[|lines| - count + k])
    }

    ghost predicate Sizes()
      reads this
    {
      && buffer.Length0 == SCROLLBACK_LINES && buffer.Length1 == MAX_LINE_LENGTH
      && cols <= MAX_LINE_LENGTH && rows > 0
      && start < SCROLLBACK_LINES && count == Min(|lines|, SCROLLBACK_LINES)
      && InLine(View(), cols)
      && offset + Min(count, rows) <= count
    }

    /** The row counter follows the newest line until that reaches the bottom of the screen. */
    ghost predicate RowFollows()
      reads this
    {
      if lines == [] then row == 0
      else if |lines| <= rows then row == |lines| - 1
      else row + 1 >= rows
    }

    ghost predicate Holds(slot: nat, line: Line)
      requires slot < buffer.Length0 && buffer.Length1 == MAX_LINE_LENGTH
      reads buffer
    {
      forall c | 0 <= c < MAX_LINE_LENGTH :: buffer[slot, c] == line[c]
    }

    ghost function View(): Log
      reads this
    {
      Log(lines, col)
    }

    /** Where a character of the newest line is drawn. */
    function ScreenRow(): nat
      requires rows > 0
      reads this
    {
      if row < rows then row else rows - 1
    }

    /** `terminal_init` on a screen of this many characters. */
    constructor (width: nat, height: nat)
      requires height > 0
      ensures Valid() && View() == Log([EMPTY], 0) && offset == 0 && rows == height
      ensures cols == (if width < 160 then width else 160) && fresh(buffer) && buffer.Length0 == 20
    {
      buffer := new Byte[SCROLLBACK_LINES, MAX_LINE_LENGTH];
      cols := if width > MAX_LINE_LENGTH then MAX_LINE_LENGTH else width;
      rows := height;
      start, count, row, col, offset := 0, 1, 0, 0, 0;
      lines := [EMPTY];
      new;
      ClearAll();
    }

    /** `memset(line_buffer, 0, sizeof(line_buffer))` */
    method ClearAll()
      requires buffer.Length0 == SCROLLBACK_LINES && buffer.Length1 == MAX_LINE_LENGTH
      modifies buffer
      ensures forall r: nat | r < SCROLLBACK_LINES :: Holds(r, EMPTY)
    {
      for i := 0 to SCROLLBACK_LINES
        invariant forall r: nat, c: nat | r < i && c < MAX_LINE_LENGTH :: buffer[r, c] == NUL
      {
        ClearSlot(i);
        assert forall c: nat | c < MAX_LINE_LENGTH :: buffer[i, c] == EMPTY[c];
      }
    }

    /** `memset(line, 0, MAX_LINE_LENGTH)` */
    method ClearSlot(slot: nat)
      requires slot < buffer.Length0 && buffer.Length1 == MAX_LINE_LENGTH
      modifies buffer
      ensures Holds(slot, EMPTY)
      ensures forall r, c | 0 <= r < buffer.Length0 && r != slot && 0 <= c < MAX_LINE_LENGTH ::
                buffer[r, c] == old(buffer[r, c])
    {
      for i := 0 to MAX_LINE_LENGTH
        invariant forall c | 0 <= c < i :: buffer[slot, c] == NUL
        invariant forall r, c | 0 <= r < buffer.Length0 && r != slot && 0 <= c < MAX_LINE_LENGTH ::
                    buffer[r, c] == old(buffer[r, c])
      {
        buffer[slot, i] := NUL;
      }
    }

    /** The first half of `add_new_line`: the slot for the next line, which after 20 lines is that of the oldest. */
    method NextSlot() returns (slot: nat)
      requires Ring()
      modifies this`start, this`count
      ensures start < SCROLLBACK_LINES && count == Min(|lines| + 1, SCROLLBACK_LINES)
      ensures slot == Slot(SCROLLBACK_LINES, start, count - 1)
      ensures forall k: nat | k < count - 1 ::
                Holds(Slot(SCROLLBACK_LINES, start, k), lines[|lines| - (count - 1) + k])
    {
      hide Slot;
      ghost var start0 := start;
      if count < SCROLLBACK_LINES {
        count := count + 1;
      } else {
        SlotIsRemainder(SCROLLBACK_LINES, start, 1);
        start := (start + 1) % SCROLLBACK_LINES;
      }
      forall k: nat | k < count - 1
        ensures Holds(Slot(SCROLLBACK_LINES, start, k), lines[|lines| - (count - 1) + k])
      {
        SlotMoves(SCROLLBACK_LINES, start0, k);
      }
      slot := LineSlot(start, count - 1);
    }

    /** `add_new_line` */
    method AddNewLine()
      requires Ring()
      modifies this`start, this`count, this`lines, buffer
      ensures Ring() && lines == old(lines) + [EMPTY]
    {
      hide Slot;
      var slot := NextSlot();
      ClearSlot(slot);
      lines := lines + [EMPTY];
      forall k: nat | k < count
        ensures Holds(Slot(SCROLLBACK_LINES, start, k), lines[|lines| - count + k])
      {
        if k < count - 1 {
          SlotsApart(SCROLLBACK_LINES, start, k, count - 1);
        }
      }
    }

    /** A new line, and the row it is drawn in. */
    method NewLine()
      requires Valid() && lines != []
      modifies this`start, this`count, this`row, this`col, this`lines, buffer
      ensures Valid() && View() == Broken(old(View()))
    {
      col := 0;
      row := row + 1;
      AddNewLine();
      if row >= rows && offset == 0 {
        row := rows - 1;
      }
    }

    /** A store to the newest line. */
    method StoreInLine(c: Byte, at: nat)
      requires Valid() && lines != [] && at < MAX_LINE_LENGTH
      modifies this`lines, buffer
      ensures Valid() && View() == Stored(old(View()), at, c)
    {
      hide Slot;
      var slot := LineSlot(start, count - 1);
      buffer[slot, at] := c;
      ghost var before := lines;
      lines := Stored(View(), at, c).lines;
      forall k: nat | k < count
        ensures Holds(Slot(SCROLLBACK_LINES, start, k), lines[|lines| - count + k])
      {
        if k < count - 1 {
          SlotsApart(SCROLLBACK_LINES, start, k, count - 1);
        }
      }
    }

    /** `terminal_backspace`, except for what it draws */
    method Backspace()
      requires Valid()
      modifies this`col, this`lines, buffer
      ensures Valid() && View() == Erased(old(View()), cols)
    {
      if col > 0 {
        col := col - 1;
        if count > 0 && col < MAX_LINE_LENGTH {
          StoreInLine(NUL, col);
        }
      }
    }

    /** `terminal_putchar`, except for what it draws */
    method PutChar(c: Byte)
      requires Valid()
      modifies this`start, this`count, this`row, this`col, this`lines, buffer
      ensures Valid() && View() == Printed(old(View()), c, cols)
      ensures c == 10 ==> lines == (if old(lines) == [] then [EMPTY] else old(lines)) + [EMPTY] && col == 0
      ensures c == 13 ==> lines == (if old(lines) == [] then [EMPTY] else old(lines)) && col == 0
      ensures c == 8 && old(col) == 0 ==> lines == (if old(lines) == [] then [EMPTY] else old(lines)) && col == 0
    {
      hide Slot;
      hide Screen.Holds;
      hide Stored;
      ghost var log := View();
      ControlCharacters(log, cols);
      if count == 0 {
        AddNewLine();
      }
      assert View() == Started(old(View()));
      if c == BACKSPACE {
        Backspace();
        return;
      }
      if c == LINE_FEED {
        NewLine();
        return;
      }
      if c == CARRIAGE_RETURN {
        col := 0;
        return;
      }
      if col < cols && col < MAX_LINE_LENGTH {
        StoreInLine(c, col);
      }
      if col + 1 >= cols {
        NewLine();
      } else {
        col := col + 1;
      }
    }

    /** `terminal_clear` */
    method Clear()
      requires Valid()
      modifies this`start, this`count, this`row, this`col, this`offset, this`lines, buffer
      ensures Valid() && View() == Log([EMPTY], 0) && offset == 0
    {
      row, col, offset, count, start := 0, 0, 0, 0, 0;
      lines := [];
      ClearAll();
      AddNewLine();
    }

    // ---------- scrolling ----------

    /** What the scroll functions draw: the window, if the view has moved, and only on a screen of fewer rows than lines. */
    ghost predicate Redrawn(redraws: bool, drawn: seq<seq<Byte>>)
      requires Valid()
      reads this, buffer
    {
      redraws ==> rows < count && drawn == Texts(Window(lines, offset, rows), cols)
    }

    /** The newest line is drawn in the row in which the next character will be drawn. */
    ghost predicate NewestInPlace(drawn: seq<seq<Byte>>)
      requires Valid()
      reads this, buffer
    {
      lines != [] && ScreenRow() == |drawn| - 1 && drawn[ScreenRow()] == Text(lines[|lines| - 1], cols)
    }

    /** `terminal_scroll_up`: possible exactly while an older line is above the window. */
    method ScrollUp() returns (redraws: bool, drawn: seq<seq<Byte>>)
      requires Valid()
      modifies this`offset
      ensures Valid() && Redrawn(redraws, drawn) && (redraws <==> offset != old(offset))
      ensures offset == old(offset) + if old(offset) + rows < |lines| && old(offset) + rows < 20 then 1 else 0
    {
      hide Slot;
      hide Screen.Holds;
      hide Texts;
      if count <= rows || offset >= count - rows {
        return false, [];
      }
      offset := offset + 1;
      drawn := Redraw();
      redraws := true;
    }

    /** `terminal_scroll_down` */
    method ScrollDown() returns (redraws: bool, drawn: seq<seq<Byte>>)
      requires Valid()
      modifies this`offset
      ensures Valid() && Redrawn(redraws, drawn) && (redraws <==> offset != old(offset))
      ensures offset == if old(offset) == 0 then 0 else old(offset) - 1
      ensures redraws && offset == 0 ==> NewestInPlace(drawn)
    {
      hide Slot;
      hide Screen.Holds;
      hide Texts;
      hide Window;
      hide Screen.NewestInPlace;
      if offset == 0 {
        return false, [];
      }
      offset := offset - 1;
      drawn := Redraw();
      if offset == 0 {
        RedrawnInPlace(drawn);
      }
      redraws := true;
    }

    /** `terminal_scroll_to_bottom` */
    method ScrollToBottom() returns (redraws: bool, drawn: seq<seq<Byte>>)
      requires Valid()
      modifies this`offset
      ensures Valid() && offset == 0 && Redrawn(redraws, drawn) && (redraws <==> offset != old(offset))
      ensures redraws ==> NewestInPlace(drawn)
    {
      hide Slot;
      hide Screen.Holds;
      hide Texts;
      hide Window;
      hide Screen.NewestInPlace;
      if offset == 0 {
        return false, [];
      }
      offset := 0;
      drawn := Redraw();
      RedrawnInPlace(drawn);
      redraws := true;
    }

    lemma RedrawnInPlace(drawn: seq<seq<Byte>>)
      requires Valid() && offset == 0 && rows < count && drawn == Texts(Window(lines, 0, rows), cols)
      ensures NewestInPlace(drawn)
    {
      hide Slot;
      hide Screen.Holds;
      hide Text;
      DrawnWhereShown();
    }

    /**
      `redraw_screen`: the texts of the rows, from the top.  No subtraction goes below 0, and the
      window never ends behind the newest line, so that neither its correction nor the guards in
      the loop ever apply.
     */
    method Redraw() returns (drawn: seq<seq<Byte>>)
      requires Valid()
      ensures drawn == Texts(Window(lines, offset, rows), cols)
      ensures |drawn| == Min(Min(|lines|, 20), rows) && offset + |drawn| <= |lines|
      ensures forall i | 0 <= i < |drawn| :: drawn[i] == CString(lines[|lines| - offset - |drawn| + i][..cols])
    {
      DrawTexts();
      drawn := RedrawTexts();
    }

    lemma DrawTexts()
      requires Valid()
      ensures var w := Texts(Window(lines, offset, rows), cols);
              && |w| == Min(Min(|lines|, 20), rows) && offset + |w| <= |lines|
              && forall i | 0 <= i < |w| :: w[i] == CString(lines[|lines| - offset - |w| + i][..cols])
    {
    }

    method RedrawTexts() returns (drawn: seq<seq<Byte>>)
      requires Valid()
      ensures drawn == Texts(Window(lines, offset, rows), cols)
    {
      hide Slot;
      hide Screen.Holds;
      hide Text;
      hide Window;
      hide Screen.Ring;
      drawn := [];
      WindowFacts(0);
      ghost var window := Window(lines, offset, rows);
      if count == 0 {
        return;
      }
      var visible := if count < rows then count else rows;
      var first: nat := if count > rows then count - rows - offset else 0;
      if first + visible > count {
        assert false;
      }
      for i := 0 to visible
        invariant |drawn| == i && forall j | 0 <= j < i :: drawn[j] == Text(window[j], cols)
      {
        WindowFacts(i);
        if first + i >= count {
          assert false;
        }
        var slot := LineSlot(start, first + i);
        var text := DrawLine(slot, window[i]);
        drawn := drawn + [text];
      }
    }

    /** Row i of the window is in the ring, `first` slots further on. */
    lemma WindowFacts(i: nat)
      requires Valid()
      ensures Sizes() && |Window(lines, offset, rows)| == Min(count, rows)
      ensures var first := if count > rows then count - rows - offset else 0;
              first >= 0 && (i < Min(count, rows) ==> Holds(Slot(SCROLLBACK_LINES, start, first + i), Window(lines, offset, rows)[i]))
    {
      var first: nat := if count > rows then count - rows - offset else 0;
      if i < Min(count, rows) {
        assert Window(lines, offset, rows)[i] == lines[|lines| - count + (first + i)];
      }
    }

    /** The inner loop of `redraw_screen`. */
    method DrawLine(slot: nat, ghost line: Line) returns (text: seq<Byte>)
      requires Sizes() && slot < SCROLLBACK_LINES && Holds(slot, line)
      ensures text == Text(line, cols)
    {
      text := [];
      var c := 0;
      while c < cols && buffer[slot, c] != NUL
        invariant 0 <= c <= cols && text == line[..c] && NUL !in text
      {
        text := text + [buffer[slot, c]];
        c := c + 1;
      }
      CStringIs(line[..cols], text);
    }

    /**
      At the bottom, the row of the next character is that of the newest line in the window, unless
      the screen has room for more lines than the ring; such a screen is never redrawn.
     */
    lemma DrawnWhereShown()
      requires Valid() && lines != [] && offset == 0
      ensures ScreenRow() == |Window(lines, 0, rows)| - 1 <==> rows <= SCROLLBACK_LINES || |lines| <= SCROLLBACK_LINES
      ensures rows < count ==> rows <= SCROLLBACK_LINES
      ensures Window(lines, 0, rows)[|Window(lines, 0, rows)| - 1] == lines[|lines| - 1]
    {
    }

    /** With 20 rows or more on the screen there is nothing to scroll. */
    lemma NothingToScroll()
      requires Valid() && rows >= SCROLLBACK_LINES
      ensures offset == 0
    {
    }
  }
}
