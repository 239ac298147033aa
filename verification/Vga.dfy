/**
 The 80x25 text screen, and the unbounded tape it is a window of.

 On the tape there are no rows and no scrolling: the cursor is one position, printing writes
 there and moves on, newline, tab, carriage return and backspace only move. The screen is the
 2000 cells from the start of row `top`; moving past them blanks a fresh row and drops the
 first one from view.
 */
module Vga {
  import opened Machine

  const COLS := 80
  const ROWS := 25
  const CELLS := 2000

  const BACKSPACE: byte := 8
  const TAB: byte := 9
  const NEWLINE: byte := 10
  const RETURN: byte := 13
  const SPACE: byte := 32

  /**
   `(uint16_t)c | (color << 8)` for a signed `char`: from 0x80 on the sign extension sets the
   whole colour byte.
   */
  function Entry(c: byte, color: byte): u16 {
    if c < 0x80 then c + 0x100 * color else 0xFF00 + c
  }

  /** The character is in the low byte; the colour is the one asked for exactly for ASCII, or white on white. */
  lemma EntryColour(c: byte, color: byte)
    ensures Entry(c, color) % 0x100 == c
    ensures Entry(c, color) / 0x100 == color <==> c < 0x80 || color == 0xFF
  {
    if c < 0x80 {
      assert Entry(c, color) / 0x100 == color;
    } else {
      assert Entry(c, color) / 0x100 == 0xFF;
    }
  }

  function Blanks(n: nat, color: byte): (r: seq<u16>)
    ensures |r| == n
    ensures forall i :: 0 <= i < n ==> r[i] == Entry(SPACE, color)
  {
    seq(n, _ => Entry(SPACE, color))
  }

  /** Row starts and tab stops around a position in the window are in the window, or just past it. */
  lemma StopsInWindow(pos: nat, top: nat)
    requires top * COLS <= pos < top * COLS + CELLS
    ensures top * COLS <= pos / COLS * COLS <= pos < (pos / COLS + 1) * COLS <= top * COLS + CELLS
    ensures pos < (pos / 4 + 1) * 4 <= top * COLS + CELLS
  {
    assert top <= pos / COLS < top + ROWS;
    assert pos / 4 < 20 * top + 500;
  }

  datatype Tape = Tape(cells: seq<u16>, pos: nat, top: nat) {
    predicate Valid() {
      |cells| == top * COLS + CELLS && top * COLS <= pos < top * COLS + CELLS
    }

    /** What the screen shows. */
    function Screen(): seq<u16>
      requires Valid()
    {
      cells[top * COLS..]
    }

    /** The cursor moved to `p`; just past the last row, the screen moves down by a blank row. */
    function MoveTo(p: nat, color: byte): (t: Tape)
      requires Valid() && top * COLS <= p <= top * COLS + CELLS
      ensures t.Valid() && t.pos == p
      ensures top <= t.top && cells <= t.cells
    {
      if p < top * COLS + CELLS then Tape(cells, p, top)
      else Tape(cells + Blanks(COLS, color), p, top + 1)
    }

    function Put(c: byte, color: byte): (t: Tape)
      requires Valid()
      ensures t.Valid()
    {
      StopsInWindow(pos, top);
      if c == NEWLINE then MoveTo((pos / COLS + 1) * COLS, color)
      else if c == RETURN then MoveTo(pos / COLS * COLS, color)
      else if c == TAB then MoveTo((pos / 4 + 1) * 4, color)
      else if c == BACKSPACE then MoveTo(if pos > top * COLS then pos - 1 else pos, color)
      else Tape(cells[pos := Entry(c, color)], pos, top).MoveTo(pos + 1, color)
    }

    function PutAll(s: seq<byte>, color: byte): (t: Tape)
      requires Valid()
      ensures t.Valid()
      decreases |s|
    {
      if s == [] then this else PutAll(s[..|s| - 1], color).Put(s[|s| - 1], color)
    }
  }

  /** A cleared screen. */
  function Cleared(color: byte): (t: Tape)
    ensures t.Valid()
  {
    Tape(Blanks(CELLS, color), 0, 0)
  }

  /** A cleared screen: 2000 spaces in the colour, the cursor on the first of them. */
  lemma ClearedIs(color: byte)
    ensures var t := Cleared(color);
            t.pos == 0 && t.top == 0 && |t.cells| == 2000 && forall i :: 0 <= i < 2000 ==> t.cells[i] == 0x20 + 0x100 * color
  {
  }

  /** Where each character takes the cursor, by its code. */
  lemma PutMoves(t: Tape, c: byte, color: byte)
    requires t.Valid()
    ensures var p, q := t.pos, t.Put(c, color).pos;
            && (c == 0x0A ==> p < q <= p + 80 && q % 80 == 0)
            && (c == 0x0D ==> q <= p < q + 80 && q % 80 == 0)
            && (c == 0x09 ==> p < q <= p + 4 && q % 4 == 0)
            && (c == 0x08 ==> q == if p > 80 * t.top then p - 1 else p)
            && (c != 0x08 && c != 0x09 && c != 0x0A && c != 0x0D ==> q == p + 1)
  {
    hide Entry, Blanks;
    StopsInWindow(t.pos, t.top);
  }

  /** Only a printing character writes, under the cursor; past the last row, one row of blanks comes up. */
  lemma PutWrites(t: Tape, c: byte, color: byte)
    requires t.Valid()
    ensures var r, prints := t.Put(c, color), c != 0x08 && c != 0x09 && c != 0x0A && c != 0x0D;
            && r.top == (if r.pos == 80 * t.top + 2000 then t.top + 1 else t.top)
            && |r.cells| == 80 * r.top + 2000
            && (forall i :: 0 <= i < |t.cells| && !(prints && i == t.pos) ==> r.cells[i] == t.cells[i])
            && (prints ==> r.cells[t.pos] == (if c < 0x80 then 0x100 * color else 0xFF00) + c)
            && (forall i :: |t.cells| <= i < |r.cells| ==> r.cells[i] == 0x20 + 0x100 * color)
  {
    StopsInWindow(t.pos, t.top);
  }

  /** The tape with the character written, if it is one that writes. */
  function PutCells(t: Tape, c: byte, color: byte): (r: Tape)
    requires t.Valid()
    ensures r.Valid() && r.top == t.top
  {
    if c == NEWLINE || c == RETURN || c == TAB || c == BACKSPACE then t
    else Tape(t.cells[t.pos := Entry(c, color)], t.pos, t.top)
  }

  /** Where the cursor at (row, col) of the window goes. */
  function PutPosition(t: Tape, row: nat, col: nat, c: byte): int {
    t.top * COLS +
    if c == NEWLINE then (row + 1) * COLS
    else if c == RETURN then row * COLS
    else if c == TAB then row * COLS + (col + 4) / 4 * 4
    else if c == BACKSPACE then
      if col > 0 then row * COLS + (col - 1) else if row > 0 then (row - 1) * COLS + (COLS - 1) else 0
    else row * COLS + (col + 1)
  }

  /**
   A character on the tape, in rows and columns: 4 divides the width, so tab stops line up, and
   backspace at the start of a row goes to the end of the one above unless that has scrolled off.
   */
  lemma PutInRows(t: Tape, row: nat, col: nat, c: byte, color: byte)
    requires t.Valid() && row < ROWS && col < COLS && t.pos == t.top * COLS + (row * COLS + col)
    ensures t.top * COLS <= PutPosition(t, row, col, c) <= t.top * COLS + CELLS
    ensures t.Put(c, color) == PutCells(t, c, color).MoveTo(PutPosition(t, row, col, c), color)
  {
    var p := t.pos;
    assert p / COLS == t.top + row;
    assert p == 4 * (20 * t.top + 20 * row) + col;
    assert p / 4 == 20 * t.top + 20 * row + col / 4;
  }

  /** Moving just past the window shifts the screen up by one row and blanks the last. */
  lemma ScrolledScreen(t: Tape, color: byte)
    requires t.Valid()
    ensures t.MoveTo(t.top * COLS + CELLS, color).Screen() == t.Screen()[COLS..] + Blanks(COLS, color)
  {
  }

  /** Writing the tape cell under the cursor writes the screen cell under it. */
  lemma WriteShows(t: Tape, e: u16, at: nat)
    requires t.Valid() && t.pos == t.top * COLS + at
    ensures Tape(t.cells[t.pos := e], t.pos, t.top).Screen() == t.Screen()[at := e]
  {
  }

  class Screen {
    const buffer: array<u16>
    var row: int
    var col: int
    var color: byte
    /** The position last sent to the display controller. */
    var shownCursor: u16
    ghost var tape: Tape

    ghost predicate Valid()
      reads this, buffer
    {
      && buffer.Length == CELLS
      && 0 <= row < ROWS && 0 <= col < COLS
      && tape.Valid()
      && tape.pos == tape.top * COLS + (row * COLS + col)
      && buffer[..] == tape.Screen()
      && shownCursor == row * COLS + col
    }

    /** `vga_init`: white on black. */
    constructor ()
      ensures Valid() && fresh(buffer) && color == 15 && tape == Cleared(15)
    {
      buffer := new u16[CELLS];
      row, col, color, shownCursor := 0, 0, 15, 0;
      tape := Cleared(15);
      new;
      Clear();
    }

    method Clear()
      requires buffer.Length == CELLS
      modifies this`row, this`col, this`shownCursor, this`tape, buffer
      ensures Valid() && tape == Cleared(color)
    {
      for r := 0 to ROWS
        invariant forall i :: 0 <= i < r * COLS ==> buffer[i] == Entry(SPACE, color)
      {
        for c := 0 to COLS
          invariant forall i :: 0 <= i < r * COLS + c ==> buffer[i] == Entry(SPACE, color)
        {
          buffer[r * COLS + c] := Entry(SPACE, color);
        }
      }
      row, col := 0, 0;
      shownCursor := row * COLS + col;
      tape := Cleared(color);
    }

    /** Row `r` copied over the row above it. */
    method MoveRowUp(r: int)
      requires buffer.Length == CELLS && 1 <= r < ROWS
      modifies buffer
      ensures forall i :: (r - 1) * COLS <= i < r * COLS ==> buffer[i] == old(buffer[i + COLS])
      ensures forall i :: 0 <= i < CELLS && !((r - 1) * COLS <= i < r * COLS) ==> buffer[i] == old(buffer[i])
    {
      for c := 0 to COLS
        invariant forall i :: (r - 1) * COLS <= i < (r - 1) * COLS + c ==> buffer[i] == old(buffer[i + COLS])
        invariant forall i :: 0 <= i < CELLS && !((r - 1) * COLS <= i < (r - 1) * COLS + c) ==> buffer[i] == old(buffer[i])
      {
        buffer[(r - 1) * COLS + c] := buffer[r * COLS + c];
      }
    }

    /** The last row blanked. */
    method BlankLastRow()
      requires buffer.Length == CELLS
      modifies buffer
      ensures forall i :: 0 <= i < CELLS - COLS ==> buffer[i] == old(buffer[i])
      ensures forall i :: CELLS - COLS <= i < CELLS ==> buffer[i] == Entry(SPACE, color)
    {
      for c := 0 to COLS
        invariant forall i :: 0 <= i < CELLS - COLS ==> buffer[i] == old(buffer[i])
        invariant forall i :: CELLS - COLS <= i < CELLS - COLS + c ==> buffer[i] == Entry(SPACE, color)
      {
        buffer[(ROWS - 1) * COLS + c] := Entry(SPACE, color);
      }
    }

    method Scroll()
      requires buffer.Length == CELLS
      modifies this`row, buffer
      ensures row == ROWS - 1
      ensures buffer[..] == old(buffer[..])[COLS..] + Blanks(COLS, color)
    {
      ghost var was := buffer[..];
      for r := 1 to ROWS
        invariant forall i :: 0 <= i < (r - 1) * COLS ==> buffer[i] == was[i + COLS]
        invariant forall i :: (r - 1) * COLS <= i < CELLS ==> buffer[i] == was[i]
      {
        MoveRowUp(r);
      }
      BlankLastRow();
      row := ROWS - 1;
    }

    method PutChar(c: byte)
      requires Valid()
      modifies this`row, this`col, this`shownCursor, this`tape, buffer
      ensures Valid() && tape == old(tape).Put(c, color)
    {
      hide Tape.MoveTo, Tape.Put, Entry;
      ghost var t := tape;
      ghost var p := PutPosition(t, row, col, c);
      PutInRows(t, row, col, c, color);
      if c == NEWLINE {
        col := 0;
        row := row + 1;
      } else if c == RETURN {
        col := 0;
      } else if c == TAB {
        col := (col + 4) / 4 * 4;
      } else if c == BACKSPACE {
        if col > 0 {
          col := col - 1;
        } else if row > 0 {
          row := row - 1;
          col := COLS - 1;
        }
      } else {
        WriteShows(t, Entry(c, color), row * COLS + col);
        buffer[row * COLS + col] := Entry(c, color);
        col := col + 1;
      }
      Settle(PutCells(t, c, color), p);
    }

    /** The end of every character: wrap at the right edge, scroll at the bottom, move the cursor. */
    method Settle(ghost t: Tape, ghost p: nat)
      requires t.Valid() && buffer.Length == CELLS && buffer[..] == t.Screen()
      requires 0 <= row <= ROWS && 0 <= col <= COLS && row * COLS + col <= CELLS
      requires p == t.top * COLS + (row * COLS + col)
      modifies this`row, this`col, this`shownCursor, this`tape, buffer
      ensures Valid() && tape == t.MoveTo(p, color)
    {
      tape := t.MoveTo(p, color);
      if col >= COLS {
        col := 0;
        row := row + 1;
      }
      if row >= ROWS {
        Scroll();
        ScrolledScreen(t, color);
      }
      shownCursor := row * COLS + col;
    }

    method Print(s: seq<byte>)
      requires Valid()
      modifies this`row, this`col, this`shownCursor, this`tape, buffer
      ensures Valid() && tape == old(tape).PutAll(s, color)
    {
      for i := 0 to |s|
        invariant Valid() && tape == old(tape).PutAll(s[..i], color)
      {
        PutChar(s[i]);
        assert s[..i + 1][..i] == s[..i];
      }
      assert s[..|s|] == s;
    }
  }

  /* Whole runs. */

  lemma {:induction false} PutAllAppend(t: Tape, a: seq<byte>, b: seq<byte>, color: byte)
    requires t.Valid()
    ensures t.PutAll(a + b, color) == t.PutAll(a, color).PutAll(b, color)
    decreases |b|
  {
    if b == [] {
      assert a + b == a;
    } else {
      var k := |b| - 1;
      PutAllAppend(t, a, b[..k], color);
      assert (a + b)[..|a + b| - 1] == a + b[..k];
    }
  }

  /**
   Rows that have scrolled off never change again, the window never moves back, and the
   cursor never leaves it -- whatever is printed.
   */
  lemma {:induction false} ScrolledRowsAreFrozen(t: Tape, s: seq<byte>, color: byte)
    requires t.Valid()
    ensures var t' := t.PutAll(s, color);
            && t.top <= t'.top && t'.top * COLS <= t'.pos < t'.top * COLS + CELLS
            && t'.cells[..t.top * COLS] == t.cells[..t.top * COLS]
    decreases |s|
  {
    if s == [] {
    } else {
      ScrolledRowsAreFrozen(t, s[..|s| - 1], color);
    }
  }
}
