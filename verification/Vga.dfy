// vga_driver.c: the 80 by 25 text screen, two bytes a cell, and the cursor in it.
module Vga {
  import opened CString

  const COLS := 80
  const ROWS := 25
  const CELLS := ROWS * COLS
  const BYTES := CELLS * 2
  const TAB_LENGTH := 4

  const BS: Byte := 8
  const TAB: Byte := 9
  const LF: Byte := 10
  const CR: Byte := 13
  const ESC: Byte := 27
  const SPACE: Byte := 32
  const DEL: Byte := 127
  const DEFAULT_ATTR: Byte := 15    // white on black

  /** What the driver prints for an escape: "Escape sequences are not yet supported! :(" and a newline. */
  const ESC_MESSAGE: seq<Byte> :=
    [69, 115, 99, 97, 112, 101, 32, 115, 101, 113, 117, 101, 110, 99, 101, 115, 32, 97, 114, 101, 32, 110, 111, 116, 32,
     121, 101, 116, 32, 115, 117, 112, 112, 111, 114, 116, 101, 100, 33, 32, 58, 40, 10]

  // ---------- The screen as a value ----------

  datatype Screen = Screen(cells: seq<Byte>, row: nat, col: nat)

  predicate Sized(cells: seq<Byte>) { |cells| == BYTES }

  /** The cursor is on the screen. */
  predicate Ok(s: Screen) { Sized(s.cells) && s.row < ROWS && s.col < COLS }

  function Pos(row: nat, col: nat): nat { row * COLS + col }

  function Ch(cells: seq<Byte>, p: nat): Byte
    requires Sized(cells) && p < CELLS
  {
    cells[2 * p]
  }

  function Put(s: Screen, ch: Byte, attr: Byte): (t: Screen)
    requires Ok(s)
    ensures Ok(t) && t.row == s.row && t.col == s.col
  {
    var p := Pos(s.row, s.col);
    s.(cells := s.cells[2 * p := ch][2 * p + 1 := attr])
  }

  const BLANK := Screen(Zeros(BYTES), 0, 0)

  function Scrolled(s: Screen, lines: nat): (t: Screen)
    requires Sized(s.cells)
    ensures Sized(t.cells)
  {
    if lines == 0 then s
    else if lines >= ROWS then BLANK
    else
      var n := lines * COLS * 2;
      Screen(s.cells[n..] + Zeros(n), if s.row > lines then s.row - lines else 0, s.col)
  }

  /** To the next line when the column is past the last, scrolling at the bottom. */
  function Wrapped(s: Screen): (t: Screen)
    requires Sized(s.cells) && s.row < ROWS && s.col <= COLS
    ensures Ok(t)
  {
    if s.col < COLS then s
    else if s.row + 1 < ROWS then s.(row := s.row + 1, col := 0)
    else Scrolled(s.(row := s.row + 1, col := 0), 1).(row := ROWS - 1)
  }

  /** Back from a column to the last character before it, or to the first column. */
  function LastBefore(cells: seq<Byte>, row: nat, col: nat): (c: nat)
    requires Sized(cells) && row < ROWS && 0 < col <= COLS
    ensures c < col
    ensures forall k | c < k < col :: Ch(cells, Pos(row, k)) == NUL
    ensures c == 0 || Ch(cells, Pos(row, c)) != NUL
    decreases col
  {
    if Ch(cells, Pos(row, col - 1)) == NUL && col - 1 > 0 then LastBefore(cells, row, col - 1) else col - 1
  }

  /** The search back from a column has come to another one without an end. */
  ghost predicate Leads(cells: seq<Byte>, row: nat, from: nat, col: nat)
    requires Sized(cells) && row < ROWS && 0 < from <= COLS && col < from
  {
    LastBefore(cells, row, from) == LastBefore(cells, row, col + 1)
  }

  lemma LeadsOn(cells: seq<Byte>, row: nat, from: nat, col: nat)
    requires Sized(cells) && row < ROWS && 0 < from <= COLS && col < from
    ensures Leads(cells, row, from, from - 1)
    ensures Leads(cells, row, from, col) ==>
              if cells[2 * (row * COLS + col)] == NUL && col > 0 then Leads(cells, row, from, col - 1)
              else LastBefore(cells, row, from) == col
  {
  }

  function Backspaced(s: Screen): (t: Screen)
    requires Ok(s)
    ensures Ok(t)
  {
    if s.col == 0 && s.row == 0 then s
    else
      var (row, col) := if s.col == 0 then (s.row - 1, COLS) else (s.row, s.col);
      Put(s.(row := row, col := LastBefore(s.cells, row, col)), NUL, DEFAULT_ATTR)
  }

  /** The cursor is at the start of a line and the line above is full. */
  predicate AfterFullLine(s: Screen)
    requires Ok(s)
  {
    s.col == 0 && s.row > 0 && Ch(s.cells, Pos(s.row - 1, COLS - 1)) !in [NUL, LF]
  }

  function TabStop(col: nat): nat { (col + TAB_LENGTH - 1) / TAB_LENGTH * TAB_LENGTH }

  /** Any character but an escape, with the cursor perhaps just past the end of its line. */
  function Placed(s: Screen, c: Byte, attr: Byte): (t: Screen)
    requires Ok(s)
    ensures Sized(t.cells) && t.row < ROWS && t.col <= COLS
  {
    if c == CR then Put(s, SPACE, attr).(col := 0)
    else if c == LF then
      if AfterFullLine(s) then s else Put(s, SPACE, attr).(col := COLS)
    else if c == TAB then Put(s, SPACE, attr).(col := TabStop(s.col))
    else if c == BS || c == DEL then Backspaced(s)
    else Put(s, c, attr).(col := s.col + 1)
  }

  function Plain(s: Screen, c: Byte, attr: Byte): (t: Screen)
    requires Ok(s)
    ensures Ok(t)
  {
    Wrapped(Placed(s, c, attr))
  }

  function Plains(s: Screen, text: seq<Byte>, attr: Byte): (t: Screen)
    requires Ok(s)
    ensures Ok(t)
  {
    if text == [] then s else Plain(Plains(s, text[..|text| - 1], attr), text[|text| - 1], attr)
  }

  /** VGA_display_attr_char, for every character. */
  function Char(s: Screen, c: Byte, attr: Byte): (t: Screen)
    requires Ok(s)
    ensures Ok(t)
  {
    if c == ESC then Plains(Put(s, NUL, DEFAULT_ATTR), ESC_MESSAGE, DEFAULT_ATTR) else Plain(s, c, attr)
  }

  function Chars(s: Screen, text: seq<Byte>, attr: Byte): (t: Screen)
    requires Ok(s)
    ensures Ok(t)
  {
    if text == [] then s else Char(Chars(s, text[..|text| - 1], attr), text[|text| - 1], attr)
  }

  /** VGA_display_attr_str: hiding the cursor blanks its cell first. */
  function Shown(s: Screen, text: seq<Byte>, attr: Byte): (t: Screen)
    requires Ok(s)
    ensures Ok(t)
  {
    Chars(Put(s, NUL, DEFAULT_ATTR), text, attr)
  }

  lemma {:induction false} CharsArePlain(s: Screen, text: seq<Byte>, attr: Byte)
    requires Ok(s) && ESC !in text
    ensures Chars(s, text, attr) == Plains(s, text, attr)
  {
    if text != [] { CharsArePlain(s, text[..|text| - 1], attr); }
  }

  // ---------- The screen as a window on the text ----------

  predicate Ordinary(c: Byte) { c !in [CR, LF, TAB, BS, DEL, ESC] }

  function TopLine(n: nat): nat { if n / COLS > ROWS - 1 then n / COLS - (ROWS - 1) else 0 }

  /** The screen shows the last lines of a text, and the cursor stands behind it. */
  ghost predicate Window(s: Screen, text: seq<Byte>) {
    var top := TopLine(|text|);
    && Ok(s) && s.row == |text| / COLS - top && s.col == |text| % COLS
    && forall p | 0 <= p < CELLS :: Ch(s.cells, p) == if p + top * COLS < |text| then text[p + top * COLS] else NUL
  }

  lemma BlankWindow()
    ensures Window(BLANK, [])
  {
  }

  lemma PutCells(s: Screen, ch: Byte, attr: Byte, p: nat)
    requires Ok(s) && p < CELLS
    ensures Ch(Put(s, ch, attr).cells, p) == if p == Pos(s.row, s.col) then ch else Ch(s.cells, p)
  {
  }

  lemma ScrolledCells(s: Screen, p: nat)
    requires Sized(s.cells) && p < CELLS
    ensures Ch(Scrolled(s, 1).cells, p) == if p + COLS < CELLS then Ch(s.cells, p + COLS) else NUL
  {
  }

  lemma TopLineStep(n: nat)
    ensures var top := TopLine(n);
            && n / COLS - top < ROWS && Pos(n / COLS - top, n % COLS) + top * COLS == n
            && (n % COLS + 1 < COLS ==> (n + 1) / COLS == n / COLS && (n + 1) % COLS == n % COLS + 1)
            && (n % COLS + 1 == COLS ==> (n + 1) / COLS == n / COLS + 1 && (n + 1) % COLS == 0)
  {
    assert n == n / COLS * COLS + n % COLS;
  }

  lemma WindowGrows(s: Screen, text: seq<Byte>, c: Byte, attr: Byte)
    requires Window(s, text) && Ordinary(c)
    ensures Window(Plain(s, c, attr), text + [c])
  {
    var n, top := |text|, TopLine(|text|);
    var t, u := Put(s, c, attr), Plain(s, c, attr);
    TopLineStep(n);
    hide Put, Ch, Scrolled, Zeros;
    var wrapped := t.(col := s.col + 1);
    forall p | 0 <= p < CELLS
      ensures var top' := TopLine(n + 1);
              Ch(u.cells, p) == if p + top' * COLS < n + 1 then (text + [c])[p + top' * COLS] else NUL
    {
      PutCells(s, c, attr, p);
      if s.col + 1 == COLS && s.row + 1 == ROWS {
        ScrolledCells(wrapped.(row := s.row + 1, col := 0), p);
        if p + COLS < CELLS { PutCells(s, c, attr, p + COLS); }
      }
    }
  }

  lemma {:induction false} WindowOfPlains(s: Screen, text: seq<Byte>, more: seq<Byte>, attr: Byte)
    requires Window(s, text) && forall c | c in more :: Ordinary(c)
    ensures Window(Plains(s, more, attr), text + more)
  {
    if more == [] {
      assert text + more == text;
    } else {
      var front, c := more[..|more| - 1], more[|more| - 1];
      WindowOfPlains(s, text, front, attr);
      WindowGrows(Plains(s, front, attr), text + front, c, attr);
      assert (text + front) + [c] == text + more;
    }
  }

  lemma BlankedWindow(s: Screen, text: seq<Byte>)
    requires Window(s, text)
    ensures Window(Put(s, NUL, DEFAULT_ATTR), text)
  {
    hide Ch;
    TopLineStep(|text|);
    forall p | 0 <= p < CELLS ensures Ch(Put(s, NUL, DEFAULT_ATTR).cells, p) == Ch(s.cells, p) {
      PutCells(s, NUL, DEFAULT_ATTR, p);
    }
  }

  function AllShown(s: Screen, strings: seq<seq<Byte>>, attr: Byte): (t: Screen)
    requires Ok(s)
    ensures Ok(t)
  {
    if strings == [] then s else Shown(AllShown(s, strings[..|strings| - 1], attr), strings[|strings| - 1], attr)
  }

  function Joined(strings: seq<seq<Byte>>): seq<Byte> {
    if strings == [] then [] else Joined(strings[..|strings| - 1]) + strings[|strings| - 1]
  }

  /**
   * After a clear, strings of ordinary characters leave the screen showing the last lines of all of them put together.
   */
  lemma {:induction false} ShownWindow(strings: seq<seq<Byte>>, attr: Byte)
    requires forall t, c | t in strings && c in t :: Ordinary(c)
    ensures Window(AllShown(BLANK, strings, attr), Joined(strings))
  {
    if strings == [] {
      BlankWindow();
    } else {
      var front, last := strings[..|strings| - 1], strings[|strings| - 1];
      assert last in strings && forall t | t in front :: t in strings;
      ShownWindow(front, attr);
      var s := AllShown(BLANK, front, attr);
      BlankedWindow(s, Joined(front));
      var t := Put(s, NUL, DEFAULT_ATTR);
      assert ESC !in last;
      CharsArePlain(t, last, attr);
      WindowOfPlains(t, Joined(front), last, attr);
    }
  }

  /** The same by row and column: cell (r, c) shows character (r + S) * 80 + c, with S = max(0, N / 80 - 24). */
  lemma WindowCell(s: Screen, text: seq<Byte>, r: nat, c: nat)
    requires Window(s, text) && r < ROWS && c < COLS
    ensures var i := (r + TopLine(|text|)) * COLS + c;
            Ch(s.cells, Pos(r, c)) == if i < |text| then text[i] else NUL
  {
    assert Pos(r, c) + TopLine(|text|) * COLS == (r + TopLine(|text|)) * COLS + c;
  }

  // ---------- Special characters ----------

  /** How far typing at the end of the screen moves everything up. */
  function Lift(s: Screen): nat { if s.col + 1 == COLS && s.row + 1 == ROWS then 1 else 0 }

  lemma TypedCells(s: Screen, c: Byte, attr: Byte, p: nat)
    requires Ok(s) && Ordinary(c) && p < CELLS
    ensures Ch(Plain(s, c, attr).cells, p) ==
            if p + Lift(s) * COLS == Pos(s.row, s.col) then c
            else if p + Lift(s) * COLS < CELLS then Ch(s.cells, p + Lift(s) * COLS) else NUL
  {
    hide Put, Ch, Scrolled, Zeros;
    PutCells(s, c, attr, p);
    if Lift(s) == 1 {
      ScrolledCells(Put(s, c, attr).(row := s.row + 1, col := 0), p);
      if p + COLS < CELLS { PutCells(s, c, attr, p + COLS); }
    }
  }

  /** The character just typed has the attributes it was typed with. */
  lemma TypedAttr(s: Screen, c: Byte, attr: Byte)
    requires Ok(s) && Ordinary(c)
    ensures Plain(s, c, attr).cells[2 * Pos(s.row - Lift(s), s.col) + 1] == attr
  {
  }

  lemma TypedCursor(s: Screen, c: Byte, attr: Byte)
    requires Ok(s) && Ordinary(c)
    ensures var t := Plain(s, c, attr);
            if s.col + 1 < COLS then t.row == s.row && t.col == s.col + 1
            else t.row == s.row + 1 - Lift(s) && t.col == 0
  {
  }

  /**
   * A backspace right after a visible character takes the cursor back to it
   * and blanks it, across line ends and scrolling too.
   */
  lemma BackspaceUndoes(s: Screen, c: Byte, attr: Byte)
    requires Ok(s) && Ordinary(c) && c != NUL
    ensures var t := Plain(Plain(s, c, attr), BS, attr);
            && t.col == s.col && t.row == s.row - Lift(s)
            && forall p | 0 <= p < CELLS :: Ch(t.cells, p) ==
                 if p + Lift(s) * COLS == Pos(s.row, s.col) then NUL
                 else if p + Lift(s) * COLS < CELLS then Ch(s.cells, p + Lift(s) * COLS) else NUL
  {
    var typed, t := Plain(s, c, attr), Plain(Plain(s, c, attr), BS, attr);
    assert t == Backspaced(typed);
    TypedCursor(s, c, attr);
    hide Put, Ch, Scrolled, Zeros, Plain;
    var home := typed.(row := s.row - Lift(s), col := s.col);
    TypedCells(s, c, attr, Pos(home.row, home.col));
    assert t.cells == Put(home, NUL, DEFAULT_ATTR).cells && t.row == home.row && t.col == home.col;
    forall p | 0 <= p < CELLS ensures Ch(t.cells, p) ==
        if p + Lift(s) * COLS == Pos(s.row, s.col) then NUL
        else if p + Lift(s) * COLS < CELLS then Ch(s.cells, p + Lift(s) * COLS) else NUL
    {
      TypedCells(s, c, attr, p);
      PutCells(home, NUL, DEFAULT_ATTR, p);
    }
  }

  /**
   * A newline goes to the start of the next line, unless the text above has just filled its line: then it is ignored.
   */
  lemma Newline(s: Screen, attr: Byte)
    requires Ok(s)
    ensures var t := Plain(s, LF, attr);
            if AfterFullLine(s) then t == s else t.col == 0 && t.row == if s.row + 1 < ROWS then s.row + 1 else ROWS - 1
  {
  }

  /** So after a text that fills its last line, any number of newlines is lost. */
  lemma {:induction false} NewlinesLost(s: Screen, text: seq<Byte>, n: nat, attr: Byte)
    requires Window(s, text) && |text| > 0 && |text| % COLS == 0 && text[|text| - 1] !in [NUL, LF]
    ensures Plains(s, seq(n, _ => LF), attr) == s
  {
    if n > 0 {
      NewlinesLost(s, text, n - 1, attr);
      TopLineStep(|text|);
      assert seq(n, _ => LF)[..n - 1] == seq(n - 1, _ => LF);
      FullLine(s, text);
      Newline(s, attr);
    }
  }

  lemma FullLine(s: Screen, text: seq<Byte>)
    requires Window(s, text) && |text| > 0 && |text| % COLS == 0 && text[|text| - 1] !in [NUL, LF]
    ensures AfterFullLine(s)
  {
    WindowCell(s, text, s.row - 1, COLS - 1);
  }

  /** A tab ends on a tab stop, or at the start of the next line, and does not leave the stop it is on. */
  lemma TabStops(s: Screen, attr: Byte)
    requires Ok(s)
    ensures var t := Plain(s, TAB, attr);
            && t.col % TAB_LENGTH == 0 && (s.col % TAB_LENGTH == 0 ==> t.col == s.col && t.row == s.row)
            && (t.col == TabStop(s.col) || (TabStop(s.col) == COLS && t.col == 0))
            && s.col <= TabStop(s.col) < s.col + TAB_LENGTH
  {
  }

  /** So any number of tabs takes the cursor no further than one. */
  lemma {:induction false} TabsStay(s: Screen, n: nat, attr: Byte)
    requires Ok(s) && n > 0
    ensures var t, u := Plains(s, seq(n, _ => TAB), attr), Plain(s, TAB, attr);
            t.row == u.row && t.col == u.col && t.col % TAB_LENGTH == 0
  {
    hide Plain, Plains;
    var m := n - 1;
    assert seq(n, _ => TAB)[..m] == seq(m, _ => TAB);
    PlainsNext(s, seq(n, _ => TAB), attr);
    if m == 0 {
      PlainsNone(s, attr);
      TabStops(s, attr);
    } else {
      TabsStay(s, m, attr);
      TabStops(Plains(s, seq(m, _ => TAB), attr), attr);
    }
  }

  lemma PlainsNext(s: Screen, text: seq<Byte>, attr: Byte)
    requires Ok(s) && text != []
    ensures Plains(s, text, attr) == Plain(Plains(s, text[..|text| - 1], attr), text[|text| - 1], attr)
  {
  }

  lemma PlainsNone(s: Screen, attr: Byte)
    requires Ok(s)
    ensures Plains(s, seq(0, _ => TAB), attr) == s
  {
  }

  // ---------- The screen in memory ----------

  lemma ScrollBytes(was: seq<Byte>, mid: seq<Byte>, n: nat, now: seq<Byte>)
    requires Sized(was) && n <= BYTES && mid == Copied(was, 0, n, BYTES - n)
    requires now == mid[..BYTES - n] + seq(n, _ => NUL) + mid[BYTES..]
    ensures now == was[n..] + Zeros(n)
  {
    CopiedMeaning(was, 0, n, BYTES - n);
    assert mid[..BYTES - n] == was[n..];
  }

  class Vga {
    var buffer: array<Byte>
    var row: nat
    var col: nat

    ghost predicate Valid()
      reads this, buffer
    {
      Ok(State())
    }

    ghost function State(): Screen
      reads this, buffer
    {
      Screen(buffer[..], row, col)
    }

    constructor ()
      ensures Valid() && fresh(buffer) && State() == BLANK
    {
      buffer := new Byte[BYTES](_ => NUL);
      row, col := 0, 0;
      new;
      assert buffer[..] == Zeros(BYTES);
    }

    method Clear()
      requires Sized(buffer[..])
      modifies this`row, this`col, buffer
      ensures State() == BLANK
    {
      MemSet(buffer, 0, NUL, BYTES);
      assert buffer[..] == Zeros(BYTES);
      row, col := 0, 0;
    }

    method Putc(ch: Byte, attr: Byte)
      requires Valid()
      modifies buffer
      ensures State() == Put(old(State()), ch, attr)
    {
      var p := row * COLS + col;
      buffer[2 * p] := ch;
      buffer[2 * p + 1] := attr;
    }

    method Scroll(lines: nat)
      requires Sized(buffer[..])
      modifies this`row, this`col, buffer
      ensures State() == Scrolled(old(State()), lines)
    {
      if lines == 0 {
        return;
      }
      if lines >= ROWS {
        Clear();
        return;
      }
      ghost var was := buffer[..];
      MemCpy(buffer, 0, lines * COLS * 2, (CELLS - lines * COLS) * 2);
      ghost var mid := buffer[..];
      MemSet(buffer, (ROWS - lines) * COLS * 2, NUL, lines * COLS * 2);
      ScrollBytes(was, mid, lines * COLS * 2, buffer[..]);
      row := if row > lines then row - lines else 0;
    }

    method ProcessBackspace()
      requires Valid()
      modifies this`row, this`col, buffer
      ensures State() == Backspaced(old(State()))
    {
      if col == 0 {
        if row == 0 {
          return;
        }
        row := row - 1;
        col := COLS;
      }
      StepBack();
      Putc(NUL, DEFAULT_ATTR);
    }

    // The loop that looks for the last character of the line.
    method StepBack()
      requires Sized(buffer[..]) && row < ROWS && 0 < col <= COLS
      modifies this`col
      ensures col == LastBefore(buffer[..], row, old(col))
    {
      hide Leads;
      ghost var from, cells := col, buffer[..];
      col := col - 1;
      LeadsOn(cells, row, from, col);
      while buffer[2 * (row * COLS + col)] == NUL && col > 0
        invariant col < from && Leads(cells, row, from, col)
      {
        LeadsOn(cells, row, from, col);
        col := col - 1;
      }
      LeadsOn(cells, row, from, col);
    }

    // VGA_display_attr_char, and the string that it prints for an escape.
    method DisplayAttrChar(c: Byte, attr: Byte)
      requires Valid()
      modifies this`row, this`col, buffer
      ensures Valid() && State() == Char(old(State()), c, attr)
      decreases if c == ESC then 2 else 0
    {
      hide Placed, Wrapped, Plains, Chars;
      if c == ESC {
        MessagePlain();
        PlainShown(State(), ESC_MESSAGE, DEFAULT_ATTR);
        DisplayAttrStr(ESC_MESSAGE, DEFAULT_ATTR);
        return;
      }
      Place(c, attr);
      NextLine();
    }

    // The switch of VGA_display_attr_char.
    method Place(c: Byte, attr: Byte)
      requires Valid() && c != ESC
      modifies this`row, this`col, buffer
      ensures State() == Placed(old(State()), c, attr)
    {
      hide Put, Backspaced, TabStop;
      match c {
        case 13 =>
          Putc(SPACE, attr);
          col := 0;
        case 10 =>
          if col == 0 && row > 0 && buffer[2 * ((row - 1) * COLS + COLS - 1)] != NUL
             && buffer[2 * ((row - 1) * COLS + COLS - 1)] != LF {
            return;
          }
          Putc(SPACE, attr);
          col := COLS;
        case 9 =>
          Putc(SPACE, attr);
          StepTab();
        case 8 => ProcessBackspace();
        case 127 => ProcessBackspace();
        case _ =>
          Putc(c, attr);
          col := col + 1;
      }
    }

    // To the next tab stop.
    method StepTab()
      requires col < COLS
      modifies this`col
      ensures col == TabStop(old(col)) <= COLS
    {
      ghost var from := col;
      while col % TAB_LENGTH != 0
        invariant from <= col <= TabStop(from) <= COLS
        decreases COLS - col
      {
        col := col + 1;
      }
    }

    // The end of VGA_display_attr_char.
    method NextLine()
      requires Sized(buffer[..]) && row < ROWS && col <= COLS
      modifies this`row, this`col, buffer
      ensures State() == Wrapped(old(State()))
    {
      hide Scrolled;
      if col >= COLS {
        col := 0;
        row := row + 1;
        if row >= ROWS {
          Scroll(1);
          row := ROWS - 1;
        }
      }
    }

    method DisplayAttrStr(s: seq<Byte>, attr: Byte)
      requires Valid() && NoNul(s)
      modifies this`row, this`col, buffer
      ensures Valid() && State() == Shown(old(State()), s[..Min(|s|, MAX_STR_LEN)], attr)
      decreases if ESC in s then 3 else 1
    {
      LengthIs(s + [NUL], |s|);
      assert (s + [NUL])[|s|] == NUL;
      var len := StrNLen(s + [NUL], MAX_STR_LEN);
      Putc(NUL, DEFAULT_ATTR);
      hide Chars, Char;
      ghost var start := State();
      var i := 0;
      CharsNext(start, s, 0, attr);
      while i < len
        invariant i <= len && Valid() && State() == Chars(start, s[..i], attr)
      {
        CharsNext(start, s, i, attr);
        DisplayAttrChar(s[i], attr);
        i := i + 1;
      }
    }
  }

  lemma CharsNext(s: Screen, text: seq<Byte>, i: nat, attr: Byte)
    requires Ok(s) && i <= |text|
    ensures Chars(s, text[..0], attr) == s
    ensures i < |text| ==> Chars(s, text[..i + 1], attr) == Char(Chars(s, text[..i], attr), text[i], attr)
  {
    if i < |text| { assert text[..i + 1][..i] == text[..i]; }
  }

  lemma MessagePlain()
    ensures ESC !in ESC_MESSAGE && NoNul(ESC_MESSAGE) && |ESC_MESSAGE| == 43
  {
  }

  lemma PlainShown(s: Screen, text: seq<Byte>, attr: Byte)
    requires Ok(s) && ESC !in text && |text| <= MAX_STR_LEN
    ensures Shown(s, text[..Min(|text|, MAX_STR_LEN)], attr) == Plains(Put(s, NUL, DEFAULT_ATTR), text, attr)
  {
    assert text[..|text|] == text;
    CharsArePlain(Put(s, NUL, DEFAULT_ATTR), text, attr);
  }
}
