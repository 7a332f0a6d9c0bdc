/** The scrolling text screen of vga.c, and the line layout it shows. */
module Screen {
  import opened Bits

  const ROWS: nat := 25
  const COLS: nat := 80
  const COLOUR: Byte := 7  // LIGHT_GRAY on BLACK
  const NEWLINE: Byte := 10
  const RETURN: Byte := 13

  datatype Cell = Cell(character: Byte, colour: Byte)

  type Row = r: seq<Cell> | |r| == COLS ghost witness seq(COLS, _ => BLANK)

  const BLANK: Cell := Cell(32, COLOUR)

  function BlankRow(): Row { seq(COLS, _ => BLANK) }

  // ---- The layout ----

  /** All rows written so far, the last one being the row of the cursor. */
  datatype Page = Page(rows: seq<Row>, column: nat) {
    predicate Valid() { rows != [] && column <= COLS }
  }

  function Start(): (p: Page)
    ensures p.Valid()
  {
    Page([BlankRow()], 0)
  }

  function Put(p: Page, c: Byte): (r: Page)
    requires p.Valid()
    ensures r.Valid()
  {
    if p.column >= COLS || c == NEWLINE then Page(p.rows + [BlankRow()], 0)
    else if c == RETURN then p.(column := 0)
    else
      var last := |p.rows| - 1;
      Page(p.rows[last := p.rows[last][p.column := Cell(c, COLOUR)]], p.column + 1)
  }

  function Layout(text: seq<Byte>): (p: Page)
    ensures p.Valid()
  {
    if text == [] then Start() else Put(Layout(text[..|text| - 1]), text[|text| - 1])
  }

  // Row i of the screen: the last row of the page is at the bottom.
  function Visible(p: Page, i: nat): Row
    requires i < ROWS
  {
    if |p.rows| + i >= ROWS then p.rows[|p.rows| + i - ROWS] else BlankRow()
  }

  // ---- vga.c ----

  class Display {
    const buffer: array<Cell>
    var column: nat

    ghost predicate Valid()
      reads this
    {
      buffer.Length == ROWS * COLS && column <= COLS
    }

    /** The buffer holds the last 25 rows of the page, and the cursor is at its column. */
    ghost predicate Shows(p: Page)
      reads this, buffer
    {
      && Valid() && p.Valid() && column == p.column
      && forall i, j | 0 <= i < ROWS && 0 <= j < COLS :: buffer[COLS * i + j] == Visible(p, i)[j]
    }

    method ClearScreen()
      requires Valid()
      modifies buffer
      ensures forall k | 0 <= k < ROWS * COLS :: buffer[k] == BLANK
    {
      for i := 0 to ROWS
        invariant forall k | 0 <= k < COLS * i :: buffer[k] == BLANK
      {
        for j := 0 to COLS
          invariant forall k | 0 <= k < COLS * i + j :: buffer[k] == BLANK
        {
          buffer[COLS * i + j] := BLANK;
        }
      }
    }

    // Every row moves up by one and the last one becomes blank.
    method Newline()
      requires Valid()
      modifies this`column, buffer
      ensures Valid() && column == 0
      ensures forall k | 0 <= k < ROWS * COLS ::
                buffer[k] == if k < (ROWS - 1) * COLS then old(buffer[k + COLS]) else BLANK
    {
      column := 0;
      for i := 1 to ROWS
        invariant column == 0
        invariant forall k | 0 <= k < ROWS * COLS ::
                    buffer[k] == if k < (i - 1) * COLS then old(buffer[k + COLS]) else old(buffer[k])
      {
        for j := 0 to COLS
          invariant column == 0
          invariant forall k | 0 <= k < ROWS * COLS ::
                      buffer[k] == if k < (i - 1) * COLS + j then old(buffer[k + COLS]) else old(buffer[k])
        {
          buffer[COLS * (i - 1) + j] := buffer[COLS * i + j];
        }
      }
      for j := 0 to COLS
        invariant column == 0
        invariant forall k | 0 <= k < ROWS * COLS ::
                    buffer[k] == if k < (ROWS - 1) * COLS then old(buffer[k + COLS])
                                 else if k < (ROWS - 1) * COLS + j then BLANK else old(buffer[k])
      {
        buffer[COLS * (ROWS - 1) + j] := BLANK;
      }
    }

    // newline() as a step of the layout
    method Scroll(c: Byte, ghost p: Page)
      requires Shows(p) && (p.column >= COLS || c == NEWLINE)
      modifies this`column, buffer
      ensures Shows(Put(p, c))
    {
      ghost var before := buffer[..];
      Newline();
      forall i, j | 0 <= i < ROWS && 0 <= j < COLS
        ensures buffer[COLS * i + j] == Visible(Put(p, c), i)[j]
      {
        var k := COLS * i + j;
        if i < ROWS - 1 {
          assert buffer[k] == before[k + COLS] == before[COLS * (i + 1) + j] == Visible(p, i + 1)[j];
        }
      }
    }

    method DrawChar(c: Byte, ghost p: Page)
      requires Shows(p)
      modifies this`column, buffer
      ensures Shows(Put(p, c))
    {
      if column >= COLS {
        Scroll(c, p);
      } else if c == NEWLINE {
        Scroll(c, p);
      } else if c == RETURN {
        column := 0;
        forall i, j | 0 <= i < ROWS && 0 <= j < COLS
          ensures buffer[COLS * i + j] == Visible(Put(p, c), i)[j]
        {
          assert Visible(Put(p, c), i) == Visible(p, i);
          assert buffer[COLS * i + j] == Visible(p, i)[j];
        }
      } else {
        ghost var before := buffer[..];
        buffer[COLS * 24 + column] := Cell(c, COLOUR);
        column := column + 1;
        forall i, j | 0 <= i < ROWS && 0 <= j < COLS
          ensures buffer[COLS * i + j] == Visible(Put(p, c), i)[j]
        {
          var k := COLS * i + j;
          assert before[k] == Visible(p, i)[j];
          assert k == COLS * 24 + p.column <==> i == 24 && j == p.column;
        }
      }
    }

    /** From a cleared screen, after any characters, the buffer holds the last 25 rows of their
        layout. */
    method DrawText(text: seq<Byte>)
      requires Valid() && column == 0 && forall k | 0 <= k < ROWS * COLS :: buffer[k] == BLANK
      modifies this`column, buffer
      ensures Shows(Layout(text))
    {
      for n := 0 to |text|
        invariant Shows(Layout(text[..n]))
      {
        assert text[..n + 1][..n] == text[..n];
        DrawChar(text[n], Layout(text[..n]));
      }
      assert text[..|text|] == text;
    }
  }

  // ---- What the layout looks like ----

  // Character n of plain text stands at column n % 81 of row n / 81.
  function PlainCell(text: seq<Byte>, r: nat, q: nat): Cell {
    if 81 * r + q < |text| then Cell(text[81 * r + q], COLOUR) else BLANK
  }

  ghost predicate Plain(p: Page, text: seq<Byte>) {
    && |p.rows| == |text| / 81 + 1 && p.column == |text| % 81
    && forall r, q | 0 <= r < |p.rows| && 0 <= q < COLS :: p.rows[r][q] == PlainCell(text, r, q)
  }

  lemma NextPlace(n: nat)
    ensures if n % 81 < COLS then (n + 1) / 81 == n / 81 && (n + 1) % 81 == n % 81 + 1
            else (n + 1) / 81 == n / 81 + 1 && (n + 1) % 81 == 0
  {
  }

  lemma PlaceOf(r: nat, q: nat, n: nat)
    requires q < COLS
    ensures 81 * r + q == n <==> r == n / 81 && q == n % 81
    ensures r > n / 81 ==> 81 * r + q > n
  {
  }

  // One more character of plain text.
  lemma PlainStep(p: Page, text: seq<Byte>, c: Byte)
    requires p.Valid() && Plain(p, text) && c != NEWLINE && c != RETURN
    ensures Plain(Put(p, c), text + [c])
  {
    var n, p' := |text|, Put(p, c);
    NextPlace(n);
    forall r, q | 0 <= r < |p'.rows| && 0 <= q < COLS
      ensures p'.rows[r][q] == PlainCell(text + [c], r, q)
    {
      PlaceOf(r, q, n);
    }
  }

  /** Text without control characters fills rows of 80 columns and loses every 81st character, the one
      that forces the scroll. */
  lemma {:induction false} PlainText(text: seq<Byte>)
    requires NEWLINE !in text && RETURN !in text
    ensures var p := Layout(text);
            && |p.rows| == |text| / 81 + 1 && p.column == |text| % 81
            && forall r, q | 0 <= r < |p.rows| && 0 <= q < COLS :: p.rows[r][q] == PlainCell(text, r, q)
  {
    if text != [] {
      hide PlainCell, Put;
      var n := |text| - 1;
      assert text[..n] + [text[n]] == text;
      PlainText(text[..n]);
      PlainStep(Layout(text[..n]), text[..n], text[n]);
    }
  }

  // ---- Control characters ----

  // One more character, at the end of a text in three parts.
  lemma NextCharacter(a: seq<Byte>, code: Byte, b: seq<Byte>)
    ensures b == [] ==> Layout(a + [code] + b) == Put(Layout(a), code)
    ensures b != [] ==> Layout(a + [code] + b) == Put(Layout(a + [code] + b[..|b| - 1]), b[|b| - 1])
    ensures b != [] ==> Layout(b) == Put(Layout(b[..|b| - 1]), b[|b| - 1])
  {
    hide Put;
    var text := a + [code] + b;
    if b == [] {
      assert text[..|text| - 1] == a && text[|text| - 1] == code;
    } else {
      assert text[..|text| - 1] == a + [code] + b[..|b| - 1] && text[|text| - 1] == b[|b| - 1];
    }
  }

  /** What follows a newline is laid out by itself, below all that came before: whatever the two texts
      are, and wherever the cursor was. */
  lemma {:induction false} NewlineSplits(a: seq<Byte>, b: seq<Byte>)
    ensures var p := Layout(a + [10] + b);
            p.rows == Layout(a).rows + Layout(b).rows && p.column == Layout(b).column
    decreases |b|
  {
    hide Put, Layout;
    NextCharacter(a, 10, b);
    if b == [] {
      NewlineOpensRow(Layout(a));
    } else {
      var n := |b| - 1;
      NewlineSplits(a, b[..n]);
      PutBelow(Layout(a).rows, Layout(b[..n]), b[n]);
    }
  }

  lemma NewlineOpensRow(p: Page)
    requires p.Valid()
    ensures Put(p, 10) == Page(p.rows + Layout([]).rows, Layout([]).column)
  {
  }

  // A character changes nothing above the last row.
  lemma PutBelow(above: seq<Row>, p: Page, c: Byte)
    requires p.Valid()
    ensures Put(Page(above + p.rows, p.column), c) == Page(above + Put(p, c).rows, Put(p, c).column)
  {
    var whole := Page(above + p.rows, p.column);
    assert whole.rows[|whole.rows| - 1] == p.rows[|p.rows| - 1];
  }

  predicate PlainLine(line: seq<Byte>) { 10 !in line && 13 !in line && |line| <= 80 }

  // The lines of a text, each but the last ended by a newline.
  function Joined(lines: seq<seq<Byte>>): seq<Byte> {
    if lines == [] then [] else if |lines| == 1 then lines[0]
    else Joined(lines[..|lines| - 1]) + [10] + lines[|lines| - 1]
  }

  // The row that a line leaves on a blank one.
  predicate RowShows(row: Row, line: seq<Byte>) {
    forall q | 0 <= q < 80 :: row[q] == if q < |line| then Cell(line[q], 0x7) else Cell(' ' as int, 0x7)
  }

  /** Lines of at most 80 plain characters, joined by newlines, stand in rows of their own, each filled up
      with spaces, all in light gray on black. */
  lemma {:induction false} LinesInRows(lines: seq<seq<Byte>>)
    requires lines != [] && forall line | line in lines :: PlainLine(line)
    ensures var p := Layout(Joined(lines));
            && |p.rows| == |lines| && p.column == |lines[|lines| - 1]|
            && forall k | 0 <= k < |lines| :: RowShows(p.rows[k], lines[k])
  {
    hide Layout, RowShows, PlainLine;
    var n := |lines| - 1;
    OneRow(lines[n]);
    if n > 0 {
      var front := lines[..n];
      assert forall line | line in front :: line in lines;
      LinesInRows(front);
      NewlineSplits(Joined(front), lines[n]);
    }
  }

  lemma OneRow(line: seq<Byte>)
    requires PlainLine(line)
    ensures var p := Layout(line); |p.rows| == 1 && p.column == |line| && RowShows(p.rows[0], line)
  {
    hide Layout;
    PlainText(line);
  }

  /** The row b written over another from its start. */
  predicate Overwrites(p: Page, b: seq<Byte>, r: Page) {
    var last := |p.rows| - 1;
    && p.Valid() && |r.rows| == |p.rows| && r.rows[..last] == p.rows[..last] && r.column == |b|
    && forall q | 0 <= q < 80 :: r.rows[last][q] == if q < |b| then Cell(b[q], 0x7) else p.rows[last][q]
  }

  lemma ReturnStarts(p: Page)
    requires p.Valid() && p.column < 80
    ensures Overwrites(p, [], Put(p, 13))
  {
  }

  lemma OverwriteStep(p: Page, b: seq<Byte>, r: Page, c: Byte)
    requires Overwrites(p, b, r) && |b| < 80 && c != 10 && c != 13
    ensures r.Valid() && Overwrites(p, b + [c], Put(r, c))
  {
  }

  /** After a carriage return before the right margin, plain text overwrites the row from its start, and
      nothing else changes. */
  lemma {:induction false} ReturnOverwrites(a: seq<Byte>, b: seq<Byte>)
    requires Layout(a).column < 80 && PlainLine(b)
    ensures Overwrites(Layout(a), b, Layout(a + [13] + b))
    decreases |b|
  {
    hide Layout, Put, Overwrites;
    NextCharacter(a, 13, b);
    if b == [] {
      ReturnStarts(Layout(a));
    } else {
      var n := |b| - 1;
      assert b[n] in b && forall c | c in b[..n] :: c in b;
      assert b[..n] + [b[n]] == b;
      ReturnOverwrites(a, b[..n]);
      OverwriteStep(Layout(a), b[..n], Layout(a + [13] + b[..n]), b[n]);
    }
  }

  /** At the right margin, after 80 characters of a row, either code is lost, like any other character:
      it only forces the scroll. */
  lemma {:induction false} MarginDropsCode(a: seq<Byte>, code: Byte, b: seq<Byte>)
    requires Layout(a).column == 80
    ensures Layout(a + [code] + b) == Layout(a + [10] + b)
    decreases |b|
  {
    hide Layout;
    NextCharacter(a, code, b);
    NextCharacter(a, 10, b);
    if b != [] {
      MarginDropsCode(a, code, b[..|b| - 1]);
    }
  }
}
