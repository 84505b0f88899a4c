/** The text console as a terminal without end: one strip of cells, 80 to a row, that only
    ever grows.  The screen is a window on its last 25 rows. */
module Terminal {
  import opened Machine

  const WIDTH: nat := 80
  const HEIGHT: nat := 25
  const SCREEN: nat := 2000

  type Cell = x: int | 0 <= x < 0x1_0000

  const TAB: Byte := 9
  const RETURN: Byte := 13
  const SPACE: Byte := 32

  /** The cells printed so far, and the position of the cursor among them. */
  datatype Term = Term(cells: seq<Cell>, pos: nat)

  function Entry(c: Byte, color: Byte): Cell {
    c + 256 * color
  }

  function Blanks(n: nat, color: Byte): (s: seq<Cell>)
    ensures |s| == n && forall i :: 0 <= i < n ==> s[i] == Entry(SPACE, color)
  {
    seq(n, i => Entry(SPACE, color))
  }

  /** Whole rows, at least a screenful, and the cursor inside the last screenful. */
  ghost predicate Proper(t: Term) {
    && |t.cells| % WIDTH == 0
    && SCREEN <= |t.cells|
    && |t.cells| - SCREEN <= t.pos < |t.cells|
  }

  /** The last 25 rows. */
  function Window(t: Term): seq<Cell>
    requires SCREEN <= |t.cells|
  {
    t.cells[|t.cells| - SCREEN..]
  }

  function Cleared(color: Byte): Term {
    Term(Blanks(SCREEN, color), 0)
  }

  /** Move the cursor to a position, adding a blank row when it has left the last one. */
  function MoveTo(t: Term, pos: nat, color: Byte): Term {
    Term(if pos == |t.cells| then t.cells + Blanks(WIDTH, color) else t.cells, pos)
  }

  function RowStart(pos: nat): nat {
    pos / WIDTH * WIDTH
  }

  function Put(t: Term, c: Byte, color: Byte): Term {
    if c == NEWLINE then MoveTo(t, RowStart(t.pos) + WIDTH, color)
    else if c == RETURN then t.(pos := RowStart(t.pos))
    else if c == TAB then
      var col := (t.pos % WIDTH + 8) / 8 * 8;
      if col >= WIDTH then MoveTo(t, RowStart(t.pos) + WIDTH, color) else t.(pos := RowStart(t.pos) + col)
    else if t.pos < |t.cells| then MoveTo(t.(cells := t.cells[t.pos := Entry(c, color)]), t.pos + 1, color)
    else t
  }

  /** Step back and blank the cell there, but never above the window. */
  function Back(t: Term, color: Byte): Term {
    if SCREEN <= |t.cells| && |t.cells| - SCREEN < t.pos <= |t.cells|
    then Term(t.cells[t.pos - 1 := Entry(SPACE, color)], t.pos - 1)
    else t
  }

  datatype Key = Char(c: Byte, color: Byte) | Erase(color: Byte)

  function Type(t: Term, k: Key): Term {
    match k
    case Char(c, color) => Put(t, c, color)
    case Erase(color) => Back(t, color)
  }

  function TypeAll(t: Term, ks: seq<Key>): Term
    decreases |ks|
  {
    if ks == [] then t else TypeAll(Type(t, ks[0]), ks[1..])
  }

  // ---------------------------------------------------------------- properties

  lemma TypeNext(t: Term, ks: seq<Key>, i: nat)
    requires i < |ks|
    ensures TypeAll(t, ks[i..]) == TypeAll(Type(t, ks[i]), ks[i + 1..])
  {
    assert ks[i..][1..] == ks[i + 1..];
  }

  lemma PutProper(t: Term, c: Byte, color: Byte)
    requires Proper(t)
    ensures Proper(Put(t, c, color))
  {
  }

  /** The cursor stays on the screen over any run of characters and erasures. */
  lemma {:induction false} TypeAllProper(t: Term, ks: seq<Key>)
    requires Proper(t)
    ensures Proper(TypeAll(t, ks))
    decreases |ks|
  {
    hide Proper, Put, Back;
    if ks != [] {
      match ks[0] {
        case Char(c, color) => PutProper(t, c, color);
        case Erase(color) => BackProper(t, color);
      }
      TypeAllProper(Type(t, ks[0]), ks[1..]);
    }
  }

  lemma BackProper(t: Term, color: Byte)
    requires Proper(t)
    ensures Proper(Back(t, color))
  {
  }

  /** Nothing printed before the cursor's row is ever changed by printing more. */
  lemma PutKeepsHistory(t: Term, c: Byte, color: Byte)
    requires Proper(t)
    ensures var r := Put(t, c, color);
            && |t.cells| <= |r.cells|
            && (forall k :: 0 <= k < |t.cells| && k != t.pos ==> r.cells[k] == t.cells[k])
            && RowStart(t.pos) <= r.pos
  {
  }

  predicate Plain(c: Byte) {
    c != NEWLINE && c != RETURN && c != TAB
  }

  ghost function Keys(cs: seq<Byte>, color: Byte): (ks: seq<Key>)
    ensures |ks| == |cs| && forall i :: 0 <= i < |cs| ==> ks[i] == Char(cs[i], color)
  {
    seq(|cs|, i requires 0 <= i < |cs| => Char(cs[i], color))
  }

  /** A text of plain characters appears cell by cell from the cursor on, wrapping into as
      many rows as it needs, however often the screen scrolls meanwhile. */
  lemma {:induction false} PlainText(t: Term, cs: seq<Byte>, color: Byte)
    requires Proper(t) && forall i :: 0 <= i < |cs| ==> Plain(cs[i])
    ensures var r := TypeAll(t, Keys(cs, color));
            && r.pos == t.pos + |cs| && |t.cells| <= |r.cells|
            && t.pos + |cs| <= |r.cells|
            && (forall i :: 0 <= i < |cs| ==> r.cells[t.pos + i] == Entry(cs[i], color))
            && (forall k :: 0 <= k < t.pos ==> r.cells[k] == t.cells[k])
    decreases |cs|
  {
    if cs != [] {
      var u := Put(t, cs[0], color);
      PutProper(t, cs[0], color);
      PlainText(u, cs[1..], color);
      assert Keys(cs, color)[1..] == Keys(cs[1..], color);
      var r := TypeAll(u, Keys(cs[1..], color));
      forall i | 0 <= i < |cs|
        ensures r.cells[t.pos + i] == Entry(cs[i], color)
      {
        if 0 < i {
          assert r.cells[u.pos + (i - 1)] == Entry(cs[1..][i - 1], color);
        }
      }
    }
  }

  /** Erasing right after a plain character puts the cursor back and leaves a blank there. */
  lemma BackUndoesPut(t: Term, c: Byte, color: Byte)
    requires Proper(t) && Plain(c)
    ensures var r := Back(Put(t, c, color), color);
            && r.pos == t.pos && |t.cells| <= |r.cells|
            && r.cells[t.pos] == Entry(SPACE, color)
            && (forall k :: 0 <= k < |t.cells| && k != t.pos ==> r.cells[k] == t.cells[k])
  {
  }

  // ---------------------------------------------------------------- what each key does

  /** A cell is the character in the low byte and the colour in the high byte. */
  lemma CellBytes(c: Byte, color: Byte)
    ensures Entry(c, color) % 256 == c && Entry(c, color) / 256 == color
  {
  }

  /** A cleared terminal is 2000 blanks in the given colour, the cursor at the first. */
  lemma ClearedEffect(color: Byte)
    ensures var t := Cleared(color);
            Proper(t) && t.pos == 0 && |t.cells| == 2000 && forall k :: 0 <= k < 2000 ==> t.cells[k] == 32 + 256 * color
  {
  }

  /** The strip has grown by one blank row exactly if grown is true, and otherwise changed at
      position at only, where it has the given cell. */
  ghost predicate Grown(t: Term, r: Term, grown: bool, at: nat, e: Cell, color: Byte) {
    && |r.cells| == |t.cells| + (if grown then 80 else 0)
    && (forall k :: 0 <= k < |t.cells| && k != at ==> r.cells[k] == t.cells[k])
    && (at < |t.cells| ==> r.cells[at] == e)
    && (forall k :: |t.cells| <= k < |r.cells| ==> r.cells[k] == 32 + 256 * color)
  }

  /** A newline goes to the start of the next row, which is added if there is none. */
  lemma NewlineEffect(t: Term, color: Byte)
    requires Proper(t)
    ensures var r := Put(t, 10, color);
            && r.pos == (t.pos / 80 + 1) * 80
            && Grown(t, r, (t.pos / 80 + 1) * 80 == |t.cells|, |t.cells|, 0, color)
  {
  }

  /** A carriage return goes to the start of the row. */
  lemma ReturnEffect(t: Term, color: Byte)
    requires Proper(t)
    ensures var r := Put(t, 13, color);
            r.pos == t.pos / 80 * 80 && r.cells == t.cells
  {
  }

  /** A tab goes to the next column that is a multiple of 8; after the last of them it does
      what a newline does. */
  lemma TabEffect(t: Term, color: Byte)
    requires Proper(t)
    ensures var r, col := Put(t, 9, color), t.pos % 80;
            && (col < 72 ==>
                  && r.cells == t.cells && r.pos / 80 == t.pos / 80
                  && r.pos % 80 % 8 == 0 && col < r.pos % 80 <= col + 8)
            && (72 <= col ==> r == Put(t, 10, color))
  {
    var col, row := t.pos % 80, t.pos / 80;
    assert t.pos == 80 * row + col;
    if col < 72 {
      var next := (col + 8) / 8 * 8;
      assert col < next <= col + 8 && next % 8 == 0 && next < 80;
      assert (80 * row + next) / 80 == row && (80 * row + next) % 80 == next;
    }
  }

  /** Any other character stands where the cursor was, which moves on, into a new row if
      there is none left. */
  lemma PlainEffect(t: Term, c: Byte, color: Byte)
    requires Proper(t) && c != 10 && c != 13 && c != 9
    ensures var r := Put(t, c, color);
            && r.pos == t.pos + 1
            && Grown(t, r, t.pos + 1 == |t.cells|, t.pos, c + 256 * color, color)
  {
  }

  /** Erasing steps back one cell, across the start of a row too, and blanks it; in the first
      cell of the window it does nothing. */
  lemma BackEffect(t: Term, color: Byte)
    requires Proper(t)
    ensures t.pos == |t.cells| - 2000 ==> Back(t, color) == t
    ensures t.pos > |t.cells| - 2000 ==>
              var r := Back(t, color);
              r.pos == t.pos - 1 && Grown(t, r, false, t.pos - 1, 32 + 256 * color, color)
  {
  }

  // ---------------------------------------------------------------- texts of several lines

  /** The characters of lines, a newline behind each. */
  function Unlines(lines: seq<seq<Byte>>): seq<Byte> {
    if lines == [] then [] else lines[0] + [10] + Unlines(lines[1..])
  }

  /** Where line i begins if the first begins at pos: at the start of the row after the one in
      which the cursor is when line i - 1 has been printed. */
  function LineStart(pos: nat, lines: seq<seq<Byte>>, i: nat): nat
    requires i <= |lines|
  {
    if i == 0 then pos else ((LineStart(pos, lines, i - 1) + |lines[i - 1]|) / 80 + 1) * 80
  }

  ghost predicate PlainLines(lines: seq<seq<Byte>>) {
    forall i, j :: 0 <= i < |lines| && 0 <= j < |lines[i]| ==> Plain(lines[i][j])
  }

  /** Character j of line i stands j cells behind the start of line i. */
  ghost predicate Placed(r: Term, pos: nat, lines: seq<seq<Byte>>, color: Byte, i: nat, j: nat)
    requires i < |lines| && j < |lines[i]|
  {
    var k := LineStart(pos, lines, i) + j;
    k < |r.cells| && r.cells[k] == lines[i][j] + 256 * color
  }

  lemma {:induction false} TypeConcat(t: Term, ks: seq<Key>, ls: seq<Key>)
    ensures TypeAll(t, ks + ls) == TypeAll(TypeAll(t, ks), ls)
    decreases |ks|
  {
    if ks == [] {
      assert ks + ls == ls;
    } else {
      assert (ks + ls)[1..] == ks[1..] + ls;
      TypeConcat(Type(t, ks[0]), ks[1..], ls);
    }
  }

  lemma KeysConcat(cs: seq<Byte>, ds: seq<Byte>, color: Byte)
    ensures Keys(cs + ds, color) == Keys(cs, color) + Keys(ds, color)
  {
  }

  lemma {:induction false} LineStartBehind(pos: nat, lines: seq<seq<Byte>>, i: nat)
    requires i + 1 <= |lines|
    ensures LineStart(((pos + |lines[0]|) / 80 + 1) * 80, lines[1..], i) == LineStart(pos, lines, i + 1)
  {
    if 0 < i {
      LineStartBehind(pos, lines, i - 1);
    }
  }

  /** After line 0 and its newline. */
  lemma OneLine(t: Term, line: seq<Byte>, color: Byte)
    requires Proper(t) && forall j :: 0 <= j < |line| ==> Plain(line[j])
    ensures var r := TypeAll(t, Keys(line + [10], color));
            && Proper(r) && r.pos == ((t.pos + |line|) / 80 + 1) * 80 && t.pos + |line| <= r.pos
            && |t.cells| <= |r.cells| && t.pos + |line| <= |r.cells|
            && (forall j :: 0 <= j < |line| ==> r.cells[t.pos + j] == line[j] + 256 * color)
            && (forall k :: 0 <= k < t.pos ==> r.cells[k] == t.cells[k])
  {
    PlainText(t, line, color);
    TypeAllProper(t, Keys(line, color));
    var u := TypeAll(t, Keys(line, color));
    KeysConcat(line, [10], color);
    TypeConcat(t, Keys(line, color), Keys([10], color));
    TypeOne(u, 10, color);
    NewlineEffect(u, color);
    PutProper(u, 10, color);
    hide Put, TypeAll, Proper;
    forall j | 0 <= j < |line|
      ensures Put(u, 10, color).cells[t.pos + j] == line[j] + 256 * color
    {
      assert u.cells[t.pos + j] == Entry(line[j], color);
    }
  }

  lemma TypeOne(t: Term, c: Byte, color: Byte)
    ensures TypeAll(t, Keys([c], color)) == Put(t, c, color)
  {
    var ks := Keys([c], color);
    assert ks[0] == Char(c, color) && ks[1..] == [];
    assert TypeAll(t, ks) == TypeAll(Type(t, ks[0]), ks[1..]);
  }

  /** Several lines of any length, each wrapped into as many rows as it needs: character j of
      line i stands j cells behind the start of line i, whatever scrolls away meanwhile, and
      nothing before is changed. */
  lemma {:induction false} LinesText(t: Term, lines: seq<seq<Byte>>, color: Byte)
    requires Proper(t) && PlainLines(lines)
    ensures var r := TypeAll(t, Keys(Unlines(lines), color));
            && Proper(r) && r.pos == LineStart(t.pos, lines, |lines|) && t.pos <= r.pos && |t.cells| <= |r.cells|
            && (forall k :: 0 <= k < t.pos ==> r.cells[k] == t.cells[k])
            && (forall i, j :: 0 <= i < |lines| && 0 <= j < |lines[i]| ==> Placed(r, t.pos, lines, color, i, j))
    decreases |lines|
  {
    hide Put, Back;
    if lines == [] {
      assert Keys([], color) == [];
    } else {
      var u := TypeAll(t, Keys(lines[0] + [10], color));
      var r := TypeAll(t, Keys(Unlines(lines), color));
      OneLine(t, lines[0], color);
      LinesText(u, lines[1..], color);
      KeysConcat(lines[0] + [10], Unlines(lines[1..]), color);
      TypeConcat(t, Keys(lines[0] + [10], color), Keys(Unlines(lines[1..]), color));
      LineStartBehind(t.pos, lines, |lines| - 1);
      hide TypeAll, Proper, LineStart;
      forall i, j | 0 <= i < |lines| && 0 <= j < |lines[i]|
        ensures Placed(r, t.pos, lines, color, i, j)
      {
        if 0 < i {
          assert lines[1..][i - 1] == lines[i];
          assert Placed(r, u.pos, lines[1..], color, i - 1, j);
        }
        LinePlaced(t, u, r, lines, color, i, j);
      }
    }
  }

  lemma LinePlaced(t: Term, u: Term, r: Term, lines: seq<seq<Byte>>, color: Byte, i: nat, j: nat)
    requires i < |lines| && j < |lines[i]|
    requires |u.cells| <= |r.cells| && u.pos == ((t.pos + |lines[0]|) / 80 + 1) * 80 && t.pos + |lines[0]| <= |u.cells|
    requires forall k :: 0 <= k < |lines[0]| ==> u.cells[t.pos + k] == lines[0][k] + 256 * color
    requires forall k :: 0 <= k < u.pos && k < |u.cells| ==> r.cells[k] == u.cells[k]
    requires 0 < i ==> lines[1..][i - 1] == lines[i] && Placed(r, u.pos, lines[1..], color, i - 1, j)
    ensures Placed(r, t.pos, lines, color, i, j)
  {
    if i == 0 {
      assert u.cells[t.pos + j] == lines[0][j] + 256 * color;
    } else {
      LineStartBehind(t.pos, lines, i - 1);
    }
  }

  /** Lines shorter than a row, printed from the start of a row, stand in consecutive rows:
      character j of line i in row i below the first, column j. */
  lemma {:induction false} ShortLinesInRows(pos: nat, lines: seq<seq<Byte>>, i: nat)
    requires pos % 80 == 0 && i <= |lines| && forall k :: 0 <= k < |lines| ==> |lines[k]| < 80
    ensures LineStart(pos, lines, i) == pos + 80 * i
  {
    if 0 < i {
      ShortLinesInRows(pos, lines, i - 1);
    }
  }

  /** The screen shows the last 25 rows of 80 cells. */
  lemma WindowShowsEnd(t: Term, row: nat, column: nat)
    requires Proper(t) && row < 25 && column < 80
    ensures |Window(t)| == 2000
    ensures Window(t)[80 * row + column] == t.cells[|t.cells| - 2000 + 80 * row + column]
  {
  }
}
