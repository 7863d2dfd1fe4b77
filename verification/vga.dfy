/**
 * The text-mode VGA driver of src/drivers/vga.c: an 80x25 array of 16-bit
 * cells (attribute byte, then character byte) and the cursor (vga_x,
 * vga_y), written character by character with wrap-around at the end of a
 * row and scrolling at the bottom of the screen.
 */
module Vga {
  import opened Base
  import KLib

  const VGA_WIDTH: int := 80
  const VGA_HEIGHT: int := 25
  const SIZE: int := VGA_WIDTH * VGA_HEIGHT

  /** A blank: a space, light grey on black. */
  const BLANK: int := 0x0720

  /**
   * The cell `(0x07 << 8) | c` for a one-byte C `char`.  The char is
   * signed, so a byte from 0x80 up is sign-extended before the `|` and its
   * attribute byte comes out 0xFF instead of 0x07.
   */
  function Entry(c: char): (e: int)
    requires c as int < 256
    ensures 0 <= e < 0x1_0000 && e % 256 == c as int
    ensures e / 256 == if c as int < 0x80 then 0x07 else 0xFF
  {
    if c as int < 0x80 then 0x0700 + c as int else 0xFF00 + c as int
  }

  /** The cells of the screen, row after row, and the cursor. */
  datatype Screen = Screen(cells: seq<int>, x: int, y: int)

  /** The cursor is on the screen. */
  predicate Inv(d: Screen) {
    |d.cells| == SIZE && 0 <= d.x < VGA_WIDTH && 0 <= d.y < VGA_HEIGHT
  }

  /** The index of the cell under the cursor. */
  function Pos(d: Screen): int {
    d.y * VGA_WIDTH + d.x
  }

  /** Two screens whose cursors are on the screen at the same index have the same cursor. */
  lemma PosUnique(a: Screen, b: Screen)
    requires Inv(a) && Inv(b) && Pos(a) == Pos(b)
    ensures a.x == b.x && a.y == b.y
  {
  }

  /** A narrow string: every character fits in a C `char`. */
  predicate Narrow(s: seq<char>) {
    forall k | 0 <= k < |s| :: s[k] as int < 256
  }

  /** The screen after vga_clear. */
  function Cleared(): (d: Screen)
    ensures Inv(d) && Pos(d) == 0
    ensures forall k | 0 <= k < SIZE :: d.cells[k] == BLANK
  {
    Screen(seq(SIZE, _ => BLANK), 0, 0)
  }

  /** The cells after scrolling up one row: the first row is gone and a blank row comes in at the bottom. */
  function Scrolled(cells: seq<int>): (r: seq<int>)
    requires |cells| == SIZE
    ensures |r| == SIZE
    ensures forall k | 0 <= k < SIZE - VGA_WIDTH :: r[k] == cells[k + VGA_WIDTH]
    ensures forall k | SIZE - VGA_WIDTH <= k < SIZE :: r[k] == BLANK
  {
    cells[VGA_WIDTH..] + seq(VGA_WIDTH, _ => BLANK)
  }

  /** The screen after vga_putc(c). */
  function PutChar(d: Screen, c: char): (r: Screen)
    requires Inv(d) && c as int < 256
    ensures Inv(r)
  {
    var d1 :=
      if c == '\n' then Screen(d.cells, 0, d.y + 1)
      else if c == BS then
        var (x, y) := if d.x > 0 then (d.x - 1, d.y) else if d.y > 0 then (VGA_WIDTH - 1, d.y - 1) else (d.x, d.y);
        Screen(d.cells[y * VGA_WIDTH + x := BLANK], x, y)
      else Screen(d.cells[Pos(d) := Entry(c)], d.x + 1, d.y);
    var d2 := if d1.x >= VGA_WIDTH then d1.(x := 0, y := d1.y + 1) else d1;
    if d2.y >= VGA_HEIGHT then Screen(Scrolled(d2.cells), d2.x, VGA_HEIGHT - 1) else d2
  }

  /**
   * An ordinary character goes into the cell under the cursor and the
   * cursor moves to the next cell; from the last cell of the screen the
   * screen scrolls and the cursor goes to the start of the bottom row.
   */
  lemma PutCharPrints(d: Screen, c: char)
    requires Inv(d) && c as int < 256 && c != '\n' && c != BS
    ensures var r := PutChar(d, c);
      if Pos(d) < SIZE - 1 then r.cells == d.cells[Pos(d) := Entry(c)] && Pos(r) == Pos(d) + 1
      else r.cells == Scrolled(d.cells[Pos(d) := Entry(c)]) && Pos(r) == SIZE - VGA_WIDTH
  {
  }

  /** A newline moves to the start of the next row, scrolling when the cursor is on the bottom row. */
  lemma PutCharNewline(d: Screen)
    requires Inv(d)
    ensures var r := PutChar(d, '\n');
      if d.y < VGA_HEIGHT - 1 then r.cells == d.cells && r.x == 0 && r.y == d.y + 1
      else r.cells == Scrolled(d.cells) && r.x == 0 && r.y == VGA_HEIGHT - 1
  {
  }

  /** A backspace moves back one cell, to the previous row if need be but never before the first cell, and blanks it. */
  lemma PutCharBackspace(d: Screen)
    requires Inv(d)
    ensures var r := PutChar(d, BS);
      var p := if Pos(d) > 0 then Pos(d) - 1 else 0;
      r.cells == d.cells[p := BLANK] && Pos(r) == p
  {
  }

  /**
   * A backspace undoes an ordinary character, leaving a blank where it was,
   * unless the character filled the last cell and scrolled the screen.
   */
  lemma PutCharThenBackspace(d: Screen, c: char)
    requires Inv(d) && c as int < 256 && c != '\n' && c != BS && Pos(d) < SIZE - 1
    ensures PutChar(PutChar(d, c), BS) == d.(cells := d.cells[Pos(d) := BLANK])
  {
    PutCharPrints(d, c);
    var r := PutChar(d, c);
    PutCharBackspace(r);
    var e := d.(cells := d.cells[Pos(d) := BLANK]);
    PosUnique(PutChar(r, BS), e);
  }

  /** The screen after vga_puts(s) for the text s before the NUL. */
  function PutString(d: Screen, s: seq<char>): (r: Screen)
    requires Inv(d) && Narrow(s)
    ensures Inv(r)
    decreases |s|
  {
    if s == [] then d else PutString(PutChar(d, s[0]), s[1..])
  }

  /** Writing two strings one after the other is writing their concatenation. */
  lemma {:induction false} PutStringAppend(d: Screen, s: seq<char>, t: seq<char>)
    requires Inv(d) && Narrow(s) && Narrow(t)
    ensures PutString(d, s + t) == PutString(PutString(d, s), t)
    decreases |s|
  {
    if s != [] {
      assert (s + t)[0] == s[0] && (s + t)[1..] == s[1..] + t;
      PutStringAppend(PutChar(d, s[0]), s[1..], t);
    } else {
      assert s + t == t;
    }
  }

  /** A plain character: neither a newline nor a backspace. */
  predicate Plain(s: seq<char>) {
    forall k | 0 <= k < |s| :: s[k] != '\n' && s[k] != BS
  }

  /**
   * A string of plain characters that fits before the last cell is laid out
   * cell after cell from the cursor, wrapping at the end of each row,
   * leaving every other cell as it was, and the cursor ends just after it.
   */
  lemma {:induction false} PutStringLaysOut(d: Screen, s: seq<char>)
    requires Inv(d) && Narrow(s) && Plain(s) && Pos(d) + |s| < SIZE
    ensures var r := PutString(d, s);
      && Pos(r) == Pos(d) + |s|
      && (forall k | 0 <= k < |s| :: r.cells[Pos(d) + k] == Entry(s[k]))
      && (forall k | 0 <= k < SIZE && !(Pos(d) <= k < Pos(d) + |s|) :: r.cells[k] == d.cells[k])
    decreases |s|
  {
    if s != [] {
      PutCharPrints(d, s[0]);
      var d1 := PutChar(d, s[0]);
      PutStringLaysOut(d1, s[1..]);
      var r := PutString(d1, s[1..]);
      forall k | 0 <= k < |s|
        ensures r.cells[Pos(d) + k] == Entry(s[k])
      {
        if k > 0 {
          assert s[1..][k - 1] == s[k];
        }
      }
    }
  }

  /** The screen after vga_putc_at(x, y, c): the cell at (x, y) when it is on the screen, and nothing else. */
  function PutAt(d: Screen, x: int, y: int, c: char): (r: Screen)
    requires Inv(d) && c as int < 256
    ensures Inv(r) && r.x == d.x && r.y == d.y
    ensures 0 <= x < VGA_WIDTH && 0 <= y < VGA_HEIGHT ==> r.cells == d.cells[y * VGA_WIDTH + x := Entry(c)]
    ensures !(0 <= x < VGA_WIDTH && 0 <= y < VGA_HEIGHT) ==> r == d
  {
    if 0 <= x < VGA_WIDTH && 0 <= y < VGA_HEIGHT then d.(cells := d.cells[y * VGA_WIDTH + x := Entry(c)]) else d
  }

  /** The driver's globals: the memory-mapped buffer at 0xB8000 and the cursor. */
  class Display {
    const buffer: array<int>
    var x: int
    var y: int

    ghost function Model(): Screen
      reads this, buffer
    {
      Screen(buffer[..], x, y)
    }

    ghost predicate Valid()
      reads this, buffer
    {
      buffer.Length == SIZE && Inv(Model())
    }

    /** The screen as the machine starts: whatever the video memory holds, and the cursor at (0, 0). */
    constructor (cells: seq<int>)
      requires |cells| == SIZE
      ensures Valid() && Model() == Screen(cells, 0, 0)
    {
      buffer := new int[SIZE](i requires 0 <= i < SIZE => cells[i]);
      x, y := 0, 0;
    }

    /** vga_clear: every cell blank, the cursor home. */
    method Clear()
      requires buffer.Length == SIZE
      modifies this, buffer
      ensures Valid() && Model() == Cleared()
    {
      var i := 0;
      while i < SIZE
        invariant 0 <= i <= SIZE
        invariant forall k | 0 <= k < i :: buffer[k] == BLANK
      {
        buffer[i] := BLANK;
        i := i + 1;
      }
      x, y := 0, 0;
      assert buffer[..] == Cleared().cells;
    }

    /** The scroll of vga_putc: every row moves up one and the bottom row is blanked. */
    method Scroll()
      requires buffer.Length == SIZE
      modifies buffer
      ensures buffer[..] == Scrolled(old(buffer[..]))
    {
      var i := 0;
      while i < SIZE - VGA_WIDTH
        invariant 0 <= i <= SIZE - VGA_WIDTH
        invariant forall k | 0 <= k < i :: buffer[k] == old(buffer[k + VGA_WIDTH])
        invariant forall k | i <= k < SIZE :: buffer[k] == old(buffer[k])
      {
        buffer[i] := buffer[i + VGA_WIDTH];
        i := i + 1;
      }
      while i < SIZE
        invariant SIZE - VGA_WIDTH <= i <= SIZE
        invariant forall k | 0 <= k < SIZE - VGA_WIDTH :: buffer[k] == old(buffer[k + VGA_WIDTH])
        invariant forall k | SIZE - VGA_WIDTH <= k < i :: buffer[k] == BLANK
      {
        buffer[i] := BLANK;
        i := i + 1;
      }
      assert buffer[..] == Scrolled(old(buffer[..]));
    }

    /** vga_putc(c). */
    method Putc(c: char)
      requires Valid() && c as int < 256
      modifies this, buffer
      ensures Valid() && Model() == PutChar(old(Model()), c)
    {
      if c == '\n' {
        x := 0;
        y := y + 1;
      } else if c == BS {
        if x > 0 {
          x := x - 1;
        } else if y > 0 {
          y := y - 1;
          x := VGA_WIDTH - 1;
        }
        buffer[y * VGA_WIDTH + x] := BLANK;
      } else {
        buffer[y * VGA_WIDTH + x] := Entry(c);
        x := x + 1;
      }
      if x >= VGA_WIDTH {
        x := 0;
        y := y + 1;
      }
      if y >= VGA_HEIGHT {
        Scroll();
        y := VGA_HEIGHT - 1;
      }
    }

    /** vga_putc_at(x, y, c): writes one cell when (x, y) is on the screen, and does not move the cursor. */
    method PutcAt(px: int, py: int, c: char)
      requires Valid() && c as int < 256
      modifies buffer
      ensures Valid() && Model() == PutAt(old(Model()), px, py, c)
    {
      if px >= 0 && px < VGA_WIDTH && py >= 0 && py < VGA_HEIGHT {
        buffer[py * VGA_WIDTH + px] := Entry(c);
      }
    }

    /** vga_puts(s): vga_putc for each character before the NUL. */
    method Puts(s: seq<char>)
      requires Valid() && '\0' in s && Narrow(s)
      modifies this, buffer
      ensures Valid() && Model() == PutString(old(Model()), KLib.CStr(s))
    {
      ghost var d := Model();
      var i := 0;
      while s[i] != '\0'
        invariant 0 <= i <= KLib.CLen(s) && Valid()
        invariant Model() == PutString(d, s[..i])
        decreases KLib.CLen(s) - i
      {
        PutStringAppend(d, s[..i], [s[i]]);
        assert s[..i + 1] == s[..i] + [s[i]];
        Putc(s[i]);
        i := i + 1;
      }
    }
  }
}
