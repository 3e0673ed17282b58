// What each character does to the 4000 bytes of the screen, and where it leaves the cursor.
module VgaCells {
  import opened CString
  import opened Vga

  /**
   * All has moved up by some lines, with blank ones below, and the cell where the cursor was shows a character with
   * its attributes; nothing else has changed.
   */
  ghost predicate Wrote(s: Screen, t: Screen, lines: nat, ch: Byte, attr: Byte) {
    && Ok(s) && Ok(t)
    && forall k | 0 <= k < 4000 :: t.cells[k] == ByteAfter(s, k + 160 * lines, ch, attr)
  }

  function ByteAfter(s: Screen, j: nat, ch: Byte, attr: Byte): Byte
    requires Ok(s)
  {
    if j == 2 * (80 * s.row + s.col) then ch
    else if j == 2 * (80 * s.row + s.col) + 1 then attr
    else if j < 4000 then s.cells[j] else 0
  }

  /** To the start of the next line, or of the last one. */
  predicate NextLineOf(s: Screen, t: Screen) { t.col == 0 && t.row == if s.row < 24 then s.row + 1 else 24 }

  function LinesUp(s: Screen): nat { if s.row < 24 then 0 else 1 }

  lemma PutWrites(s: Screen, ch: Byte, attr: Byte, col: nat)
    requires Ok(s) && col < 80
    ensures Wrote(s, Put(s, ch, attr).(col := col), 0, ch, attr)
  {
  }

  lemma WrapWrites(s: Screen, ch: Byte, attr: Byte)
    requires Ok(s)
    ensures var t := Wrapped(Put(s, ch, attr).(col := 80)); Wrote(s, t, LinesUp(s), ch, attr) && NextLineOf(s, t)
  {
    var u, t := Put(s, ch, attr).(col := 80), Wrapped(Put(s, ch, attr).(col := 80));
    if s.row == 24 { assert t.cells == u.cells[160..] + Zeros(160); }
  }

  /** The character at a row and a column. */
  function CharAt(s: Screen, row: nat, col: nat): Byte
    requires Ok(s) && row < 25 && col < 80
  {
    s.cells[2 * (80 * row + col)]
  }

  /** Scrolling by any number of lines: all moves up with the cursor, which stops at the top; past 24 all is blank. */
  lemma ScrolledBytes(s: Screen, lines: nat)
    requires Ok(s)
    ensures var t := Scrolled(s, lines);
            && |t.cells| == 4000
            && (forall k | 0 <= k < 4000 ::
                  t.cells[k] == if k + 160 * lines < 4000 then s.cells[k + 160 * lines] else 0)
            && t.row == (if lines < 25 && s.row > lines then s.row - lines else if lines == 0 then s.row else 0)
            && t.col == if lines < 25 then s.col else 0
  {
    if 0 < lines < 25 { assert Scrolled(s, lines).cells == s.cells[160 * lines..] + Zeros(160 * lines); }
  }

  /** The line above has just been filled by text. */
  predicate JustFilled(s: Screen)
    requires Ok(s)
  {
    s.col == 0 && s.row > 0 && CharAt(s, s.row - 1, 79) !in [0, 10]
  }

  /** A newline: a space in the cell of the cursor, and on to the next line; right after a full line nothing at all. */
  lemma NewlineCells(s: Screen, attr: Byte)
    requires Ok(s)
    ensures var t := Char(s, 10, attr);
            if JustFilled(s) then t == s else Wrote(s, t, LinesUp(s), 32, attr) && NextLineOf(s, t)
  {
    if !JustFilled(s) { WrapWrites(s, 32, attr); }
  }

  /** A carriage return: a space in the cell of the cursor, and back to the start of the line. */
  lemma ReturnCells(s: Screen, attr: Byte)
    requires Ok(s)
    ensures var t := Char(s, 13, attr); Wrote(s, t, 0, 32, attr) && t.row == s.row && t.col == 0
  {
    PutWrites(s, 32, attr, 0);
  }

  /** A tab: a space in the cell of the cursor, and on to the next multiple of 4, from the last one to the next line. */
  lemma TabCells(s: Screen, attr: Byte, stop: nat)
    requires Ok(s) && stop % 4 == 0 && s.col <= stop < s.col + 4
    ensures var t := Char(s, 9, attr);
            if stop < 80 then Wrote(s, t, 0, 32, attr) && t.row == s.row && t.col == stop
            else Wrote(s, t, LinesUp(s), 32, attr) && NextLineOf(s, t)
  {
    assert TabStop(s.col) == stop;
    if stop < 80 { PutWrites(s, 32, attr, stop); } else { WrapWrites(s, 32, attr); }
  }

  /** Any other character that is no backspace, delete or escape: it appears, and the cursor moves on by one. */
  lemma TypedBytes(s: Screen, c: Byte, attr: Byte)
    requires Ok(s) && c !in [8, 9, 10, 13, 27, 127]
    ensures var t := Char(s, c, attr);
            if s.col < 79 then Wrote(s, t, 0, c, attr) && t.row == s.row && t.col == s.col + 1
            else Wrote(s, t, LinesUp(s), c, attr) && NextLineOf(s, t)
  {
    if s.col < 79 { PutWrites(s, c, attr, s.col + 1); } else { WrapWrites(s, c, attr); }
  }

  /** The search for a character to delete goes back from here: from a line start to the line above. */
  predicate Behind(s: Screen, row: nat, col: nat) {
    if s.col > 0 then row == s.row && col < s.col else row == s.row - 1 && col < 80
  }

  /**
   * Backspace and delete: nothing at the top left; else the nearest character before the cursor in its line, or at a
   * line start in the line above, is blanked with white on black, or the first cell if that line has none; and the
   * cursor is there.
   */
  lemma BackspaceCells(s: Screen, c: Byte, attr: Byte)
    requires Ok(s) && c in [8, 127]
    ensures var t := Char(s, c, attr);
            if s.row == 0 && s.col == 0 then t == s
            else
              && Behind(s, t.row, t.col) && Wrote(s.(row := t.row, col := t.col), t, 0, 0, 15)
              && (t.col > 0 ==> CharAt(s, t.row, t.col) != 0)
              && forall k | t.col < k < (if s.col == 0 then 80 else s.col) :: CharAt(s, t.row, k) == 0
  {
    hide Put, LastBefore, Wrote, CharAt;
    StaysPut(s, c, attr);
    if s.row > 0 || s.col > 0 {
      var (row, col) := if s.col == 0 then (s.row - 1, 80) else (s.row, s.col);
      var last := Nearest(s, row, col);
      PutWrites(s.(row := row, col := last), 0, 15, last);
    }
  }

  lemma StaysPut(s: Screen, c: Byte, attr: Byte)
    requires Ok(s) && c in [8, 127]
    ensures Char(s, c, attr) == Backspaced(s)
  {
    hide Backspaced;
  }

  lemma Nearest(s: Screen, row: nat, col: nat) returns (last: nat)
    requires Ok(s) && row < 25 && 0 < col <= 80
    ensures last == LastBefore(s.cells, row, col) < col
    ensures (last > 0 ==> CharAt(s, row, last) != 0) && forall k | last < k < col :: CharAt(s, row, k) == 0
  {
    last := LastBefore(s.cells, row, col);
    forall k | last < k < col ensures CharAt(s, row, k) == 0 {
      assert Ch(s.cells, Pos(row, k)) == NUL;
    }
  }

  /** An escape prints a message in white on black, which takes the cursor's cell first. */
  lemma EscapeCells(s: Screen, attr: Byte)
    requires Ok(s)
    ensures Char(s, 27, attr) == Shown(s, ESC_MESSAGE, 15)
  {
    MessagePlain();
    CharsArePlain(Put(s, NUL, DEFAULT_ATTR), ESC_MESSAGE, DEFAULT_ATTR);
  }

  /**
   * A string: the cell of the cursor is blanked in white on black, and then its characters come one after the other.
   */
  lemma StringCells(s: Screen, text: seq<Byte>, c: Byte, attr: Byte)
    requires Ok(s)
    ensures Wrote(s, Shown(s, [], attr), 0, 0, 15) && Shown(s, [], attr).row == s.row && Shown(s, [], attr).col == s.col
    ensures Shown(s, text + [c], attr) == Char(Shown(s, text, attr), c, attr)
  {
    PutWrites(s, 0, 15, s.col);
    assert (text + [c])[..|text|] == text;
  }
}
