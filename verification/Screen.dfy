/** A terminal's screen: 80 columns and 25 rows of characters that wrap, scroll and can be
    erased, as a window on a sheet of text without end. */
module Screen {
  import opened Bytes

  const ATTRIB: Byte := 7

  // ----- the grid -----

  /** Rows of 80 characters one after the other, and the cursor. */
  datatype Grid = Grid(cells: seq<Byte>, x: nat, y: nat)

  ghost predicate GridOk(g: Grid) {
    |g.cells| == 2000 && g.x < 80 && g.y < 25
  }

  ghost function Scrolled(cells: seq<Byte>): (r: seq<Byte>)
    requires |cells| == 2000
    ensures |r| == 2000
  {
    seq(2000, i requires 0 <= i < 2000 => if i < 1920 then cells[i + 80] else SPACE)
  }

  /** The cursor goes down one row, at the bottom by scrolling. */
  ghost function NextRow(g: Grid): (r: Grid)
    requires GridOk(g)
    ensures GridOk(r)
  {
    if g.y == 24 then g.(cells := Scrolled(g.cells)) else g.(y := g.y + 1)
  }

  ghost predicate Breaks(c: Byte) {
    c == NEWLINE || c == RETURN
  }

  ghost function Put(g: Grid, c: Byte): (r: Grid)
    requires GridOk(g)
    ensures GridOk(r)
  {
    if Breaks(c) then NextRow(g.(x := 0))
    else
      var cells := g.cells[80 * g.y + g.x := c];
      if g.x == 79 then NextRow(Grid(cells, 0, g.y)) else Grid(cells, g.x + 1, g.y)
  }

  ghost predicate AtOrigin(g: Grid) {
    g.x == 0 && g.y == 0
  }

  ghost function Backspaced(g: Grid): (r: Grid)
    requires GridOk(g) && !AtOrigin(g)
    ensures GridOk(r)
  {
    Grid(g.cells[80 * g.y + g.x - 1 := SPACE], if g.x == 0 then 79 else g.x - 1, if g.x == 0 then g.y - 1 else g.y)
  }

  ghost function Blank(): (g: Grid)
    ensures GridOk(g)
  {
    Grid(seq(2000, _ => SPACE), 0, 0)
  }

  // ----- the sheet -----

  /** Rows of text, 80 wide, from the first ever shown to the lowest reached, and the place
      of the next character. */
  datatype Sheet = Sheet(rows: seq<seq<Byte>>, row: nat, col: nat)

  /** How many rows have gone off the top of the screen. */
  ghost function Gone(s: Sheet): int {
    |s.rows| - 25
  }

  ghost predicate SheetOk(s: Sheet) {
    && 0 <= Gone(s) <= s.row < |s.rows| && s.col < 80
    && forall i :: 0 <= i < |s.rows| ==> |s.rows[i]| == 80
  }

  ghost function BlankRow(): (r: seq<Byte>)
    ensures |r| == 80
  {
    seq(80, _ => SPACE)
  }

  ghost function Changed(row: seq<Byte>, j: nat, c: Byte): (r: seq<Byte>)
    requires j < |row|
    ensures |r| == |row|
  {
    row[j := c]
  }

  /** The sheet with character c at row i, column j. */
  ghost function Written(s: Sheet, i: nat, j: nat, c: Byte): (r: Sheet)
    requires SheetOk(s) && i < |s.rows| && j < 80
    ensures SheetOk(r) && Gone(r) == Gone(s)
  {
    s.(rows := s.rows[i := Changed(s.rows[i], j, c)])
  }

  /** To the start of the row below, which is new if there was none. */
  ghost function Down(s: Sheet): Sheet {
    Sheet(if s.row + 1 < |s.rows| then s.rows else s.rows + [BlankRow()], s.row + 1, 0)
  }

  ghost function Typed(s: Sheet, c: Byte): (r: Sheet)
    requires SheetOk(s)
    ensures SheetOk(r)
  {
    if Breaks(c) then Down(s)
    else
      var written := Written(s, s.row, s.col, c);
      if s.col == 79 then Down(written) else written.(col := s.col + 1)
  }

  /** Back one place, also to the end of the row above, and that place is blank. */
  ghost function Erased(s: Sheet): (r: Sheet)
    requires SheetOk(s) && !(s.col == 0 && s.row == Gone(s))
    ensures SheetOk(r)
  {
    var row := if s.col == 0 then s.row - 1 else s.row;
    var col := if s.col == 0 then 79 else s.col - 1;
    Written(s, row, col, SPACE).(row := row, col := col)
  }

  /** A character and then a backspace: the same place of the sheet, now blank, and nothing
      else different but for a blank row that may have come at the bottom. */
  lemma TypedThenErased(s: Sheet, c: Byte)
    requires SheetOk(s) && !Breaks(c)
    ensures var t := Typed(s, c);
            !(t.col == 0 && t.row == Gone(t)) && Erased(t).row == s.row && Erased(t).col == s.col
            && Erased(t).rows[..|s.rows|] == Written(s, s.row, s.col, SPACE).rows
            && (Erased(t).rows[|s.rows|..] == [] || Erased(t).rows[|s.rows|..] == [BlankRow()])
  {
    assert Changed(Changed(s.rows[s.row], s.col, c), s.col, SPACE) == Changed(s.rows[s.row], s.col, SPACE);
  }

  // ----- the grid is the sheet's window -----

  ghost predicate SameCell(g: Grid, s: Sheet, i: nat, j: nat)
    requires GridOk(g) && SheetOk(s) && i < 25 && j < 80
  {
    g.cells[80 * i + j] == s.rows[Gone(s) + i][j]
  }

  /** The grid is the last 25 rows of the sheet. */
  ghost predicate Shows(g: Grid, s: Sheet) {
    && GridOk(g) && SheetOk(s)
    && g.x == s.col && g.y == s.row - Gone(s)
    && forall i, j :: 0 <= i < 25 && 0 <= j < 80 ==> SameCell(g, s, i, j)
  }

  lemma OtherCell(i: nat, j: nat, y: nat, x: nat)
    requires j < 80 && x < 80
    ensures 80 * i + j == 80 * y + x <==> i == y && j == x
  {
  }

  /** Storing a character in the grid and on the sheet. */
  lemma WriteShows(g: Grid, s: Sheet, y: nat, x: nat, c: Byte)
    requires Shows(g, s) && y < 25 && x < 80
    ensures Shows(g.(cells := g.cells[80 * y + x := c]), Written(s, Gone(s) + y, x, c))
  {
    var g', s' := g.(cells := g.cells[80 * y + x := c]), Written(s, Gone(s) + y, x, c);
    forall i, j | 0 <= i < 25 && 0 <= j < 80
      ensures SameCell(g', s', i, j)
    {
      assert SameCell(g, s, i, j);
      OtherCell(i, j, y, x);
    }
  }

  lemma NextRowShows(g: Grid, s: Sheet)
    requires Shows(g, s)
    ensures Shows(NextRow(g.(x := 0)), Down(s))
  {
    var g', s' := NextRow(g.(x := 0)), Down(s);
    forall i, j | 0 <= i < 25 && 0 <= j < 80
      ensures SameCell(g', s', i, j)
    {
      if g.y < 24 {
        assert SameCell(g, s, i, j);
      } else if i < 24 {
        assert SameCell(g, s, i + 1, j);
      }
    }
  }

  lemma PutShows(g: Grid, s: Sheet, c: Byte)
    requires Shows(g, s)
    ensures Shows(Put(g, c), Typed(s, c))
  {
    if Breaks(c) {
      NextRowShows(g, s);
    } else {
      WriteShows(g, s, g.y, g.x, c);
      var g', s' := g.(cells := g.cells[80 * g.y + g.x := c]), Written(s, s.row, s.col, c);
      if g.x == 79 {
        NextRowShows(g', s');
      } else {
        MoveShows(g', s', g.x + 1, g.y);
      }
    }
  }

  lemma MoveShows(g: Grid, s: Sheet, x: nat, y: nat)
    requires Shows(g, s) && x < 80 && y < 25
    ensures Shows(g.(x := x, y := y), s.(col := x, row := Gone(s) + y))
  {
    var g', s' := g.(x := x, y := y), s.(col := x, row := Gone(s) + y);
    forall i, j | 0 <= i < 25 && 0 <= j < 80
      ensures SameCell(g', s', i, j)
    {
      assert SameCell(g, s, i, j);
    }
  }

  lemma BackspaceShows(g: Grid, s: Sheet)
    requires Shows(g, s) && !AtOrigin(g)
    ensures !(s.col == 0 && s.row == Gone(s)) && Shows(Backspaced(g), Erased(s))
  {
    var x: nat := if g.x == 0 then 79 else g.x - 1;
    var y: nat := if g.x == 0 then g.y - 1 else g.y;
    WriteShows(g, s, y, x, SPACE);
    MoveShows(g.(cells := g.cells[80 * y + x := SPACE]), Written(s, Gone(s) + y, x, SPACE), x, y);
  }

  /** On the screen: the same cell is blank again, one row higher when the character made
      the screen scroll. */
  lemma PutThenBackspace(g: Grid, c: Byte)
    requires GridOk(g) && !Breaks(c)
    ensures !AtOrigin(Put(g, c))
    ensures Backspaced(Put(g, c)) ==
            if g.x == 79 && g.y == 24 then Grid(Scrolled(g.cells)[1919 := SPACE], 79, 23)
            else g.(cells := g.cells[80 * g.y + g.x := SPACE])
  {
    var cells := g.cells[80 * g.y + g.x := c];
    if g.x == 79 && g.y == 24 {
      assert Scrolled(cells)[1919 := SPACE] == Scrolled(g.cells)[1919 := SPACE];
    } else {
      assert cells[80 * g.y + g.x := SPACE] == g.cells[80 * g.y + g.x := SPACE];
    }
  }

  /** A sheet with nothing on it yet. */
  ghost function BlankSheet(): (s: Sheet)
    ensures SheetOk(s)
  {
    Sheet(seq(25, _ => BlankRow()), 0, 0)
  }

  lemma BlankShows()
    ensures Shows(Blank(), BlankSheet())
  {
  }

  /** The place of the cursor on the screen. */
  ghost function Pos(g: Grid): nat {
    80 * g.y + g.x
  }

  ghost function PutAll(g: Grid, s: seq<Byte>): (r: Grid)
    requires GridOk(g)
    ensures GridOk(r)
  {
    if s == [] then g else Put(PutAll(g, s[..|s| - 1]), s[|s| - 1])
  }

  /** Every character moves the cursor on, or the screen has scrolled. */
  lemma {:induction false} PutAllMovesOn(g: Grid, s: seq<Byte>)
    requires GridOk(g)
    ensures Pos(PutAll(g, s)) >= Min(Pos(g) + |s|, 1920)
  {
    if s != [] { PutAllMovesOn(g, s[..|s| - 1]); }
  }

  datatype Stroke = Char(c: Byte) | Back

  ghost function AfterStroke(g: Grid, k: Stroke): (r: Grid)
    requires GridOk(g) && (k.Back? ==> !AtOrigin(g))
    ensures GridOk(r)
  {
    if k.Back? then Backspaced(g) else Put(g, k.c)
  }

  /** gs are the grids before, between and after the strokes; no backspace at the origin. */
  ghost predicate GridRun(gs: seq<Grid>, keys: seq<Stroke>) {
    && |gs| == |keys| + 1
    && forall i :: 0 <= i < |keys| ==>
         GridOk(gs[i]) && (keys[i].Back? ==> !AtOrigin(gs[i])) && gs[i + 1] == AfterStroke(gs[i], keys[i])
  }

  ghost function SheetAfter(s: Sheet, keys: seq<Stroke>): (r: Sheet)
    requires SheetOk(s)
    ensures SheetOk(r)
    decreases |keys|
  {
    if keys == [] then s
    else
      var last, before := keys[|keys| - 1], SheetAfter(s, keys[..|keys| - 1]);
      if last.Char? then Typed(before, last.c)
      else if before.col == 0 && before.row == Gone(before) then before
      else Erased(before)
  }

  /** Whatever is typed and erased, the screen is a window on the sheet. */
  lemma {:induction false} RunsShow(gs: seq<Grid>, keys: seq<Stroke>, s: Sheet)
    requires GridRun(gs, keys) && SheetOk(s) && Shows(gs[0], s)
    ensures Shows(gs[|keys|], SheetAfter(s, keys))
    decreases |keys|
  {
    hide Shows, Typed, Erased, Put, Backspaced;
    if keys != [] {
      var n := |keys| - 1;
      var before := SheetAfter(s, keys[..n]);
      RunsShow(gs[..n + 1], keys[..n], s);
      if keys[n].Back? { BackspaceShows(gs[n], before); } else { PutShows(gs[n], before, keys[n].c); }
    }
  }

  /** So from a cleared screen on it shows the last 25 rows of all that was typed. */
  lemma ClearedRunsShow(gs: seq<Grid>, keys: seq<Stroke>)
    requires GridRun(gs, keys) && gs[0] == Blank()
    ensures Shows(gs[|keys|], SheetAfter(BlankSheet(), keys))
  {
    BlankShows();
    RunsShow(gs, keys, BlankSheet());
  }

  // ----- the sheet is the text, cut into rows -----

  ghost predicate Ends(c: Byte) {
    c == 10 || c == 13
  }

  /** Where the first row of a text ends: before its first newline or carriage return. */
  ghost function RowLength(text: seq<Byte>): (n: nat)
    ensures n <= |text|
    ensures forall i :: 0 <= i < n ==> !Ends(text[i])
    ensures n < |text| ==> Ends(text[n])
  {
    if text == [] || Ends(text[0]) then 0 else 1 + RowLength(text[1..])
  }

  /** The text cut at each of these and after every 80 characters; the last row may be empty. */
  ghost function Cut(text: seq<Byte>): (rows: seq<seq<Byte>>)
    ensures rows != [] && |rows[|rows| - 1]| < 80
    ensures forall i :: 0 <= i < |rows| ==> |rows[i]| <= 80
    decreases |text|
  {
    var n := RowLength(text);
    if n >= 80 then [text[..80]] + Cut(text[80..])
    else if n < |text| then [text[..n]] + Cut(text[n + 1..])
    else [text]
  }

  ghost function Strokes(text: seq<Byte>): (keys: seq<Stroke>)
    ensures |keys| == |text|
  {
    seq(|text|, i requires 0 <= i < |text| => Char(text[i]))
  }

  /** A row filled up with blanks. */
  ghost function Filled(row: seq<Byte>): (r: seq<Byte>)
    requires |row| <= 80
    ensures |r| == 80
  {
    row + seq(80 - |row|, _ => 32)
  }

  ghost predicate RowIs(s: Sheet, rows: seq<seq<Byte>>, i: nat)
    requires i < |s.rows|
  {
    if i < |rows| then |rows[i]| <= 80 && s.rows[i] == Filled(rows[i]) else s.rows[i] == Filled([])
  }

  /** The sheet has these rows, blank ones up to 25, and its cursor after the last. */
  ghost predicate Holds(s: Sheet, rows: seq<seq<Byte>>) {
    && rows != [] && |s.rows| == (if |rows| < 25 then 25 else |rows|)
    && s.row == |rows| - 1 && s.col == |rows[|rows| - 1]| < 80
    && forall i :: 0 <= i < |s.rows| ==> RowIs(s, rows, i)
  }

  /** One character more, at the end of the rows. */
  ghost function Longer(rows: seq<seq<Byte>>, c: Byte): seq<seq<Byte>>
    requires rows != []
  {
    var n := |rows| - 1;
    if Ends(c) then rows + [[]]
    else if |rows[n]| == 79 then rows[..n] + [rows[n] + [c], []]
    else rows[..n] + [rows[n] + [c]]
  }

  lemma {:induction false} RowLengthIs(text: seq<Byte>, n: nat)
    requires n <= |text| && (forall i :: 0 <= i < n ==> !Ends(text[i])) && (n < |text| ==> Ends(text[n]))
    ensures RowLength(text) == n
  {
    if n > 0 { RowLengthIs(text[1..], n - 1); }
  }

  lemma LongerTail(row: seq<Byte>, rows: seq<seq<Byte>>, c: Byte)
    requires rows != []
    ensures Longer([row] + rows, c) == [row] + Longer(rows, c)
  {
    var n := |rows| - 1;
    assert ([row] + rows)[..n + 1] == [row] + rows[..n];
  }

  lemma {:induction false} CutLonger(text: seq<Byte>, c: Byte)
    ensures Cut(text + [c]) == Longer(Cut(text), c)
    decreases |text|
  {
    var n, more := RowLength(text), text + [c];
    if n >= 80 {
      LongRow(text, c);
      CutLonger(text[80..], c);
      LongerTail(text[..80], Cut(text[80..]), c);
    } else if n < |text| {
      RowLengthIs(more, n);
      assert more[..n] == text[..n] && more[n + 1..] == text[n + 1..] + [c];
      CutLonger(text[n + 1..], c);
      LongerTail(text[..n], Cut(text[n + 1..]), c);
    } else {
      LastRow(text, c);
    }
  }

  lemma {:induction false} LongRow(text: seq<Byte>, c: Byte)
    requires RowLength(text) >= 80
    ensures Cut(text + [c]) == [text[..80]] + Cut(text[80..] + [c])
  {
    var n, more := RowLength(text), text + [c];
    RowLengthIs(more, if n < |text| || Ends(c) then n else n + 1);
    assert more[..80] == text[..80] && more[80..] == text[80..] + [c];
  }

  lemma {:induction false} CutShort(text: seq<Byte>)
    requires RowLength(text) == |text| < 80
    ensures Cut(text) == [text]
  {
    hide RowLength;
  }

  lemma {:induction false} CutAt(text: seq<Byte>, n: nat)
    requires RowLength(text) == n < |text| && n < 80
    ensures Cut(text) == [text[..n]] + Cut(text[n + 1..])
  {
    hide RowLength;
  }

  lemma {:induction false} CutFull(text: seq<Byte>)
    requires RowLength(text) == |text| == 80
    ensures Cut(text) == [text, []]
  {
    assert text[..80] == text && text[80..] == [];
    CutShort([]);
  }

  lemma {:induction false} LastRow(text: seq<Byte>, c: Byte)
    requires RowLength(text) == |text| < 80
    ensures Cut(text + [c]) == Longer([text], c)
  {
    hide Cut, RowLength;
    var more, n := text + [c], |text|;
    forall i | 0 <= i < n
      ensures !Ends(more[i])
    {
      assert more[i] == text[i];
    }
    if Ends(c) {
      RowLengthIs(more, n);
      CutAt(more, n);
      assert more[..n] == text && more[n + 1..] == [];
      RowLengthIs([], 0);
      CutShort([]);
    } else {
      RowLengthIs(more, n + 1);
      if n == 79 { CutFull(more); } else { CutShort(more); }
      assert [text][..0] == [];
    }
  }

  lemma TypedHolds(s: Sheet, rows: seq<seq<Byte>>, c: Byte)
    requires SheetOk(s) && Holds(s, rows)
    ensures Holds(Typed(s, c), Longer(rows, c))
  {
    var s', rows' := Typed(s, c), Longer(rows, c);
    var n := |rows| - 1;
    assert RowIs(s, rows, n);
    assert BlankRow() == Filled([]);
    if !Ends(c) { assert Changed(s.rows[n], |rows[n]|, c) == Filled(rows[n] + [c]); }
    forall i | 0 <= i < |s'.rows|
      ensures RowIs(s', rows', i)
    {
      if i < |s.rows| { assert RowIs(s, rows, i); }
    }
  }

  /** What is typed from a cleared screen on is that text, cut into rows. */
  lemma {:induction false} SheetIsText(text: seq<Byte>)
    ensures Holds(SheetAfter(BlankSheet(), Strokes(text)), Cut(text))
  {
    if text == [] {
      assert BlankRow() == Filled([]);
    } else {
      var n := |text| - 1;
      SheetIsText(text[..n]);
      assert Strokes(text)[..n] == Strokes(text[..n]) && text[..n] + [text[n]] == text;
      CutLonger(text[..n], text[n]);
      TypedHolds(SheetAfter(BlankSheet(), Strokes(text[..n])), Cut(text[..n]), text[n]);
    }
  }

  /** So text printed on a cleared screen shows its last 25 rows. */
  lemma {:induction false} TextShows(text: seq<Byte>)
    ensures Shows(PutAll(Blank(), text), SheetAfter(BlankSheet(), Strokes(text)))
  {
    if text == [] {
      BlankShows();
    } else {
      var n := |text| - 1;
      TextShows(text[..n]);
      assert Strokes(text)[..n] == Strokes(text[..n]);
      PutShows(PutAll(Blank(), text[..n]), SheetAfter(BlankSheet(), Strokes(text[..n])), text[n]);
    }
  }

  /** A newline or a carriage return: column 0 of the next row, and no cell changes but that
      the bottom row scrolls in blank. */
  lemma BreakGoesDown(g: Grid, c: Byte)
    requires GridOk(g) && (c == 10 || c == 13)
    ensures Put(g, c).x == 0 && Put(g, c).y == (if g.y < 24 then g.y + 1 else 24)
    ensures g.y < 24 ==> Put(g, c).cells == g.cells
    ensures g.y == 24 ==> forall i :: 0 <= i < 2000 ==> Put(g, c).cells[i] == if i < 1920 then g.cells[i + 80] else 32
  {
  }

  // ----- the screen in video memory -----

  /** Two bytes of memory for each character: the character and its colours. */
  class Screen {
    const mem: array<Byte>
    var x: int
    var y: int

    ghost predicate Valid()
      reads this
    {
      mem.Length == 4000 && 0 <= x < 80 && 0 <= y < 25
    }

    ghost function Ch(i: nat): Byte
      reads mem
      requires mem.Length == 4000 && i < 2000
    {
      mem[2 * i]
    }

    ghost function Colour(i: nat): Byte
      reads mem
      requires mem.Length == 4000 && i < 2000
    {
      mem[2 * i + 1]
    }

    ghost function Chars(): (r: seq<Byte>)
      reads mem
      requires mem.Length == 4000
      ensures |r| == 2000
    {
      seq(2000, i requires 0 <= i < 2000 reads mem requires mem.Length == 4000 => Ch(i))
    }

    ghost function View(): (g: Grid)
      reads this, mem
      requires Valid()
      ensures GridOk(g)
    {
      Grid(Chars(), x, y)
    }

    /** Every cell has the standard colours. */
    ghost predicate Coloured()
      reads mem
      requires mem.Length == 4000
    {
      forall i :: 0 <= i < 2000 ==> Colour(i) == 7
    }

    constructor (page: array<Byte>)
      requires page.Length == 4000
      ensures mem == page && Valid() && x == 0 && y == 0
    {
      mem, x, y := page, 0, 0;
    }

    method SetCell(i: nat, c: Byte)
      requires mem.Length == 4000 && i < 2000
      modifies mem
      ensures Ch(i) == c && Colour(i) == ATTRIB
      ensures forall j :: 0 <= j < 2000 && j != i ==> Ch(j) == old(Ch(j)) && Colour(j) == old(Colour(j))
    {
      mem[2 * i] := c;
      mem[2 * i + 1] := ATTRIB;
    }

    method ClearTerminal()
      requires Valid()
      modifies this, mem
      ensures Valid() && View() == Blank() && Coloured()
    {
      var i := 0;
      while i < 2000
        invariant 0 <= i <= 2000
        invariant forall j :: 0 <= j < i ==> Ch(j) == SPACE && Colour(j) == ATTRIB
      {
        SetCell(i, SPACE);
        i := i + 1;
      }
      x, y := 0, 0;
    }

    method VertScroll()
      requires Valid()
      modifies mem
      ensures Valid() && Chars() == Scrolled(old(Chars())) && Coloured()
    {
      var i := 0;
      while i < 1920
        invariant 0 <= i <= 1920
        invariant forall j :: 0 <= j < i ==> Ch(j) == old(Ch(j + 80)) && Colour(j) == ATTRIB
        invariant forall j :: i <= j < 2000 ==> Ch(j) == old(Ch(j))
      {
        SetCell(i, mem[2 * (i + 80)]);
        i := i + 1;
      }
      while i < 2000
        invariant 1920 <= i <= 2000
        invariant forall j :: 0 <= j < 1920 ==> Ch(j) == old(Ch(j + 80)) && Colour(j) == ATTRIB
        invariant forall j :: 1920 <= j < i ==> Ch(j) == SPACE && Colour(j) == ATTRIB
      {
        SetCell(i, SPACE);
        i := i + 1;
      }
    }

    method Putc(c: Byte)
      requires Valid()
      modifies this, mem
      ensures Valid() && View() == Put(old(View()), c) && (old(Coloured()) ==> Coloured())
    {
      if c == NEWLINE || c == RETURN {
        y := y + 1;
        x := 0;
        if y > 24 {
          y := 24;
          VertScroll();
        }
      } else {
        SetCell(80 * y + x, c);
        assert Chars() == old(Chars())[80 * y + x := c];
        var increment := if x + 1 > 79 then 1 else 0;
        x := (x + 1) % 80;
        if y + increment + x / 80 > 24 {
          VertScroll();
          y := 24;
        } else {
          y := (y + increment + x / 80) % 25;
        }
      }
    }

    method Backspace()
      requires Valid() && !AtOrigin(View())
      modifies this, mem
      ensures Valid() && View() == Backspaced(old(View())) && (old(Coloured()) ==> Coloured())
    {
      if x == 0 {
        x := 79;
        y := y - 1;
        Putc(SPACE);
        x := 79;
        y := y - 1;
      } else {
        x := x - 1;
        Putc(SPACE);
        x := x - 1;
      }
    }
  }
}
