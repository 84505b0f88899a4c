/** The VGA text console as it runs: 2000 cells overwritten in place, and a cursor. */
module Console {
  import opened Machine
  import opened Terminal

  class Screen {
    const vga: array<Cell>
    var row: nat
    var column: nat
    var color: Byte
    /** The endless terminal that the screen shows the end of. */
    ghost var term: Term

    ghost predicate Valid()
      reads this, vga
    {
      && vga.Length == SCREEN
      && row < HEIGHT
      && column < WIDTH
      && Proper(term)
      && row * WIDTH + column == term.pos - (|term.cells| - SCREEN)
      && vga[..] == Window(term)
    }

    constructor ()
      ensures Valid() && fresh(vga)
    {
      vga := new Cell[SCREEN](i => 0);
      row, column, color := 0, 0, 0x07;
      term := Term(seq(SCREEN, i => 0), 0);
    }

    /** The inner loop of scrolling: copy row r + 1 over row r. */
    method CopyRowUp(r: nat)
      requires vga.Length == SCREEN && r < HEIGHT - 1
      modifies vga
      ensures forall k :: r * WIDTH <= k < r * WIDTH + WIDTH ==> vga[k] == old(vga[k + WIDTH])
      ensures forall k :: 0 <= k < SCREEN && !(r * WIDTH <= k < r * WIDTH + WIDTH) ==> vga[k] == old(vga[k])
    {
      var base := r * WIDTH;
      for c := 0 to WIDTH
        invariant forall k :: base <= k < base + c ==> vga[k] == old(vga[k + WIDTH])
        invariant forall k :: 0 <= k < SCREEN && !(base <= k < base + c) ==> vga[k] == old(vga[k])
      {
        vga[base + c] := vga[base + WIDTH + c];
      }
    }

    method BlankLastRow()
      requires vga.Length == SCREEN
      modifies vga
      ensures vga[..] == old(vga[..])[..SCREEN - WIDTH] + Blanks(WIDTH, color)
    {
      for c := 0 to WIDTH
        invariant forall k :: 0 <= k < SCREEN - WIDTH ==> vga[k] == old(vga[k])
        invariant forall k :: SCREEN - WIDTH <= k < SCREEN - WIDTH + c ==> vga[k] == Entry(SPACE, color)
      {
        vga[(HEIGHT - 1) * WIDTH + c] := Entry(SPACE, color);
      }
    }

    /** Move all rows up by one, in place, and blank the last. */
    method Scroll()
      requires vga.Length == SCREEN
      modifies `row, `column, vga
      ensures row == HEIGHT - 1 && column == 0
      ensures vga[..] == old(vga[..])[WIDTH..] + Blanks(WIDTH, color)
    {
      for r := 0 to HEIGHT - 1
        invariant forall k :: 0 <= k < r * WIDTH ==> vga[k] == old(vga[k + WIDTH])
        invariant forall k :: r * WIDTH <= k < SCREEN ==> vga[k] == old(vga[k])
      {
        CopyRowUp(r);
      }
      assert vga[..SCREEN - WIDTH] == old(vga[..])[WIDTH..];
      BlankLastRow();
      row := HEIGHT - 1;
      column := 0;
    }

    /** Go to the start of the next row, scrolling when there is none. */
    method NextRow()
      requires vga.Length == SCREEN && row < HEIGHT
      modifies `row, `column, vga
      ensures row == (if old(row) + 1 == HEIGHT then HEIGHT - 1 else old(row) + 1) && column == 0
      ensures vga[..] == if old(row) + 1 == HEIGHT then old(vga[..])[WIDTH..] + Blanks(WIDTH, color) else old(vga[..])
    {
      column := 0;
      row := row + 1;
      if row == HEIGHT {
        Scroll();
      }
    }

    /** Put a character in the cell at column x of row y. */
    method PutCharAt(c: Byte, x: nat, y: nat)
      requires vga.Length == SCREEN && x < WIDTH && y < HEIGHT
      modifies vga
      ensures vga[..] == old(vga[..])[y * WIDTH + x := Entry(c, color)]
    {
      vga[y * WIDTH + x] := Entry(c, color);
    }

    method NewLine()
      requires Valid()
      modifies `row, `column, `term, vga
      ensures Valid() && term == MoveTo(old(term), RowStart(old(term).pos) + WIDTH, color)
    {
      hide Blanks, Window;
      NewRowWindow(term, color);
      ScreenPosition(term, row, column);
      NextRow();
      term := MoveTo(term, RowStart(term.pos) + WIDTH, color);
    }

    method PutChar(c: Byte)
      requires Valid()
      modifies `row, `column, `term, vga
      ensures Valid() && term == Put(old(term), c, color)
    {
      hide Blanks, Window;
      PutProper(term, c, color);
      ScreenPosition(term, row, column);
      if c == NEWLINE {
        NewLine();
      } else if c == RETURN {
        SameWindow(term, RowStart(term.pos));
        column := 0;
        term := term.(pos := RowStart(term.pos));
      } else if c == TAB {
        if (column + 8) / 8 * 8 >= WIDTH {
          NewLine();
        } else {
          column := (column + 8) / 8 * 8;
          SameWindow(term, RowStart(term.pos) + column);
          term := term.(pos := RowStart(term.pos) + column);
        }
      } else {
        PutCell(c);
        SameWindow(term, term.pos + 1);
        if column + 1 == WIDTH {
          NewLine();
        } else {
          column := column + 1;
          term := term.(pos := term.pos + 1);
        }
      }
    }

    /** Put a character under the cursor and leave the cursor there. */
    method PutCell(c: Byte)
      requires Valid()
      modifies `term, vga
      ensures Valid() && term == old(term).(cells := old(term).cells[old(term).pos := Entry(c, color)])
    {
      hide Window;
      CellWindow(term, Entry(c, color), term.pos);
      PutCharAt(c, column, row);
      term := term.(cells := term.cells[term.pos := Entry(c, color)]);
    }

    method Backspace()
      requires Valid()
      modifies `row, `column, `term, vga
      ensures Valid() && term == Back(old(term), color)
    {
      hide Window;
      BackProper(term, color);
      ScreenPosition(term, row, column);
      if column > 0 {
        column := column - 1;
        SameWindow(term, term.pos - 1);
        term := term.(pos := term.pos - 1);
        PutCell(SPACE);
      } else if row > 0 {
        row := row - 1;
        column := WIDTH - 1;
        SameWindow(term, term.pos - 1);
        term := term.(pos := term.pos - 1);
        PutCell(SPACE);
      }
    }

    method Clear()
      requires vga.Length == SCREEN
      modifies `row, `column, `term, vga
      ensures Valid() && term == Cleared(color)
    {
      for y := 0 to HEIGHT
        invariant forall k :: 0 <= k < y * WIDTH ==> vga[k] == Entry(SPACE, color)
      {
        for x := 0 to WIDTH
          invariant forall k :: 0 <= k < y * WIDTH + x ==> vga[k] == Entry(SPACE, color)
        {
          PutCharAt(SPACE, x, y);
        }
      }
      row := 0;
      column := 0;
      term := Cleared(color);
    }

    method SetColor(c: Byte)
      requires Valid()
      modifies `color
      ensures Valid() && color == c
    {
      color := c;
    }

    /** Print a run of characters. */
    method Write(data: seq<Byte>)
      requires Valid()
      modifies `row, `column, `term, vga
      ensures Valid() && term == TypeAll(old(term), Keys(data, color))
    {
      hide Put, Back, Window;
      ghost var ks, t := Keys(data, color), term;
      assert ks[0..] == ks;
      for i := 0 to |data|
        invariant Valid() && TypeAll(term, ks[i..]) == TypeAll(t, ks)
      {
        TypeNext(term, ks, i);
        PutChar(data[i]);
      }
    }
  }

  /** Row and column of the cursor in terms of its position on the strip. */
  lemma ScreenPosition(t: Term, row: nat, column: nat)
    requires Proper(t) && row < HEIGHT && column < WIDTH && row * WIDTH + column == t.pos - (|t.cells| - SCREEN)
    ensures column == t.pos % WIDTH && RowStart(t.pos) == t.pos - column
    ensures row + 1 == HEIGHT <==> RowStart(t.pos) + WIDTH == |t.cells|
    ensures 0 < row || 0 < column <==> |t.cells| - SCREEN < t.pos
  {
  }

  lemma SameWindow(t: Term, pos: nat)
    requires SCREEN <= |t.cells|
    ensures Window(t.(pos := pos)) == Window(t)
  {
  }

  /** Scrolling the screen is sliding the window over one more row. */
  lemma NewRowWindow(t: Term, color: Byte)
    requires Proper(t)
    ensures var r := MoveTo(t, RowStart(t.pos) + WIDTH, color);
            Window(r) == if RowStart(t.pos) + WIDTH == |t.cells| then Window(t)[WIDTH..] + Blanks(WIDTH, color)
              else Window(t)
  {
  }

  /** A store in the window is a store in the strip. */
  lemma CellWindow(t: Term, e: Cell, pos: nat)
    requires SCREEN <= |t.cells| && |t.cells| - SCREEN <= pos < |t.cells|
    ensures Window(t.(cells := t.cells[pos := e])) == Window(t)[pos - (|t.cells| - SCREEN) := e]
  {
  }
}
