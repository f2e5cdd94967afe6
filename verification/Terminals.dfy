/** What one terminal's screen is, on its own: a page of character cells and a
    cursor, and what printing a character or clearing does to them. */
module Terminals {
  import opened Bytes

  const FOUR_KB: int := 4096
  const NUM_COLS: int := 80
  const NUM_ROWS: int := 25
  const ATTRIB: byte := 7
  const BLANK: byte := 32
  const RETURN: byte := 13
  const PROMPT: seq<byte> := [51, 57, 49, 79, 83, 62, 32]

  datatype Term = Term(page: seq<byte>, x: int, y: int)

  predicate Ok(t: Term) {
    |t.page| == FOUR_KB && 0 <= t.x < NUM_COLS && 0 <= t.y < NUM_ROWS
  }

  /** The character and its attribute in a cell. */
  function Cell(page: seq<byte>, row: int, col: int): (byte, byte)
    requires |page| == FOUR_KB && 0 <= row < NUM_ROWS && 0 <= col < NUM_COLS
  {
    (page[2 * (80 * row + col)], page[2 * (80 * row + col) + 1])
  }

  function Blanks(i: int): byte {
    if i % 2 == 0 then BLANK else ATTRIB
  }

  /** The page one row up, with a blank last row. */
  function Scrolled(page: seq<byte>): (r: seq<byte>)
    requires |page| == FOUR_KB
    ensures |r| == FOUR_KB
  {
    seq(FOUR_KB, i requires 0 <= i < FOUR_KB =>
      if i < 3840 then page[i + 160] else if i < 4000 then Blanks(i) else page[i])
  }

  predicate LineBreak(c: byte) {
    c == NEWLINE || c == RETURN
  }

  /** Printing one character. The column wraps to 0 without a new row. */
  function Put(t: Term, c: byte): (r: Term)
    requires Ok(t)
    ensures Ok(r)
  {
    if LineBreak(c) then
      if t.y + 1 >= NUM_ROWS then Term(Scrolled(t.page), 0, NUM_ROWS - 1) else Term(t.page, 0, t.y + 1)
    else
      var at := 2 * (80 * t.y + t.x);
      Term(t.page[at := c][at + 1 := ATTRIB], (t.x + 1) % NUM_COLS, t.y)
  }

  function PutAll(t: Term, s: seq<byte>): (r: Term)
    requires Ok(t)
    ensures Ok(r)
    decreases |s|
  {
    if s == [] then t else PutAll(Put(t, s[0]), s[1..])
  }

  /** Bytes as a program's output shows them: a tab is one space. */
  function Spaced(s: seq<byte>): (r: seq<byte>)
    ensures |r| == |s| && forall i :: 0 <= i < |s| ==> r[i] == if s[i] == 9 then 32 else s[i]
  {
    seq(|s|, i requires 0 <= i < |s| => if s[i] == 9 then BLANK else s[i])
  }

  lemma {:induction false} PutAllSplits(t: Term, a: seq<byte>, b: seq<byte>)
    requires Ok(t)
    ensures PutAll(t, a + b) == PutAll(PutAll(t, a), b)
    decreases |a|
  {
    if a == [] {
      assert a + b == b;
    } else {
      assert (a + b)[1..] == a[1..] + b;
      PutAllSplits(Put(t, a[0]), a[1..], b);
    }
  }

  lemma PutOne(t: Term, c: byte)
    requires Ok(t)
    ensures PutAll(t, [c]) == Put(t, c)
  {
    assert [c][1..] == [];
  }

  lemma PutNothing(t: Term, s: seq<byte>)
    requires Ok(t)
    ensures PutAll(t, s[..0]) == t
  {
  }

  lemma PutOneMore(t: Term, s: seq<byte>, i: nat)
    requires Ok(t) && i < |s|
    ensures PutAll(t, s[..i + 1]) == Put(PutAll(t, s[..i]), s[i])
  {
    assert s[..i + 1] == s[..i] + [s[i]];
    PutAllSplits(t, s[..i], [s[i]]);
    PutOne(PutAll(t, s[..i]), s[i]);
  }

  /** An empty screen, and the prompt when a base shell is running. */
  function Wiped(t: Term, shell: bool): (r: Term)
    requires Ok(t)
    ensures Ok(r)
  {
    var blank := Term(seq(FOUR_KB, i requires 0 <= i < FOUR_KB => if i < 4000 then Blanks(i) else t.page[i]), 0, 0);
    if shell then PutAll(blank, PROMPT) else blank
  }

  datatype Action = PutChar(c: byte) | Wipe(shell: bool)

  function Act(t: Term, a: Action): (r: Term)
    requires Ok(t)
    ensures Ok(r)
  {
    match a
    case PutChar(c) => Put(t, c)
    case Wipe(shell) => Wiped(t, shell)
  }

  /** The screen after its own actions, in order. */
  function Fold(t: Term, actions: seq<Action>): (r: Term)
    requires Ok(t)
    ensures Ok(r)
    decreases |actions|
  {
    if actions == [] then t else Fold(Act(t, actions[0]), actions[1..])
  }

  lemma {:induction false} FoldSplits(t: Term, a: seq<Action>, b: seq<Action>)
    requires Ok(t)
    ensures Fold(t, a + b) == Fold(Fold(t, a), b)
    decreases |a|
  {
    if a == [] {
      assert a + b == b;
    } else {
      assert (a + b)[1..] == a[1..] + b;
      FoldSplits(Act(t, a[0]), a[1..], b);
    }
  }

  // ------------------------------------------------------------------
  // In terms of cells
  // ------------------------------------------------------------------

  lemma CellDistinct(row: int, col: int, row2: int, col2: int)
    requires 0 <= col < NUM_COLS && 0 <= col2 < NUM_COLS
    ensures 80 * row + col == 80 * row2 + col2 <==> row == row2 && col == col2
  {
  }

  /** Printing, cell by cell, with characters by their codes: a printable character
      changes the cell under the cursor and no other; a line feed or carriage
      return goes one row down, and on the last row drops the first row, moves
      every other row up and blanks the last. */
  lemma PutByCells(t: Term, c: byte, row: int, col: int)
    requires Ok(t) && 0 <= row < 25 && 0 <= col < 80
    ensures Cell(Put(t, c).page, row, col)
         == if c != 10 && c != 13 then (if row == t.y && col == t.x then (c, 7) else Cell(t.page, row, col))
            else if t.y < 24 then Cell(t.page, row, col)
            else if row == 24 then (32, 7)
            else Cell(t.page, row + 1, col)
    ensures Put(t, c).x == if c == 10 || c == 13 || t.x == 79 then 0 else t.x + 1
    ensures Put(t, c).y == if (c == 10 || c == 13) && t.y < 24 then t.y + 1 else t.y
  {
    CellDistinct(row, col, t.y, t.x);
    var i := 2 * (80 * row + col);
    assert i % 2 == 0 && (i + 1) % 2 == 1;
  }

  /** Clearing, cell by cell: everything is blank but, for a terminal's own shell,
      the prompt "391OS> " at the top left, with the cursor behind it. */
  lemma WipedByCells(t: Term, shell: bool, row: int, col: int)
    requires Ok(t) && 0 <= row < 25 && 0 <= col < 80
    ensures Cell(Wiped(t, shell).page, row, col)
         == if shell && row == 0 && col < 7 then ([51, 57, 49, 79, 83, 62, 32][col], 7) else (32, 7)
    ensures Wiped(t, shell).y == 0 && Wiped(t, shell).x == if shell then 7 else 0
  {
    var blank := Wiped(t, false);
    var i := 2 * (80 * row + col);
    assert i % 2 == 0 && (i + 1) % 2 == 1;
    if shell {
      PutAllOnRow(blank, PROMPT, row, col);
    }
  }

  /** Printable text that fits on the row, cell by cell. */
  lemma {:induction false} PutAllOnRow(t: Term, s: seq<byte>, row: int, col: int)
    requires Ok(t) && 0 <= row < 25 && 0 <= col < 80 && t.x + |s| < 80
    requires forall i :: 0 <= i < |s| ==> s[i] != 10 && s[i] != 13
    ensures Cell(PutAll(t, s).page, row, col)
         == if row == t.y && t.x <= col < t.x + |s| then (s[col - t.x], 7) else Cell(t.page, row, col)
    ensures PutAll(t, s).y == t.y && PutAll(t, s).x == t.x + |s|
    decreases |s|
  {
    if s != [] {
      PutByCells(t, s[0], row, col);
      PutAllOnRow(Put(t, s[0]), s[1..], row, col);
    }
  }

  // ------------------------------------------------------------------
  // What backspace does
  // ------------------------------------------------------------------

  /** The cell before the cursor is emptied, and the cursor goes there. */
  function RubbedOut(t: Term, n: nat): (r: Term)
    requires Ok(t) && n <= t.x
    ensures Ok(r) && r.y == t.y && r.x == t.x - n
    decreases n
  {
    if n == 0 then t
    else
      var at := 2 * (80 * t.y + t.x - 1);
      RubbedOut(Term(t.page[at := NUL][at + 1 := ATTRIB], t.x - 1, t.y), n - 1)
  }

  lemma RubStep(t: Term, n: nat)
    requires Ok(t) && 0 < n <= t.x
    ensures RubbedOut(t, n) == RubbedOut(RubbedOut(t, 1), n - 1)
  {
  }

  lemma RubNothing(t: Term)
    requires Ok(t)
    ensures RubbedOut(t, 0) == t
  {
  }

  /** The cursor goes to column 72 of the row above, and that cell is emptied. */
  function Joined(t: Term): (r: Term)
    requires Ok(t) && t.y > 0
    ensures Ok(r)
  {
    var at := 2 * (80 * (t.y - 1) + 72);
    Term(t.page[at := NUL][at + 1 := ATTRIB], 72, t.y - 1)
  }

  /** Rubbing out empties exactly the last cells before the cursor. */
  lemma {:induction false} RubbedOutByCells(t: Term, n: nat, row: int, col: int)
    requires Ok(t) && n <= t.x && 0 <= row < NUM_ROWS && 0 <= col < NUM_COLS
    ensures Cell(RubbedOut(t, n).page, row, col)
         == if row == t.y && t.x - n <= col < t.x then (NUL, ATTRIB) else Cell(t.page, row, col)
    decreases n
  {
    if n > 0 {
      RubOneCell(t, row, col);
      RubStep(t, n);
      hide RubbedOut, Cell;
      RubbedOutByCells(RubbedOut(t, 1), n - 1, row, col);
    } else {
      RubNothing(t);
    }
  }

  lemma RubOneCell(t: Term, row: int, col: int)
    requires Ok(t) && 0 < t.x && 0 <= row < NUM_ROWS && 0 <= col < NUM_COLS
    ensures Cell(RubbedOut(t, 1).page, row, col)
         == if row == t.y && col == t.x - 1 then (NUL, ATTRIB) else Cell(t.page, row, col)
  {
    CellDistinct(row, col, t.y, t.x - 1);
    var at := 2 * (80 * t.y + t.x - 1);
    RubNothing(Term(t.page[at := NUL][at + 1 := ATTRIB], t.x - 1, t.y));
  }

  /** Joining rows, cell by cell. */
  lemma JoinedByCells(t: Term, row: int, col: int)
    requires Ok(t) && t.y > 0 && 0 <= row < 25 && 0 <= col < 80
    ensures Cell(Joined(t).page, row, col) == if row == t.y - 1 && col == 72 then (0, 7) else Cell(t.page, row, col)
    ensures Joined(t).x == 72 && Joined(t).y == t.y - 1
  {
    CellDistinct(row, col, t.y - 1, 72);
  }

  /** Rubbing out what was just printed on the row puts the cursor back and empties
      exactly the cells that were printed. */
  lemma RubOutUndoesPut(t: Term, s: seq<byte>, row: int, col: int)
    requires Ok(t) && 0 <= row < 25 && 0 <= col < 80 && t.x + |s| < 80
    requires forall i :: 0 <= i < |s| ==> s[i] != 10 && s[i] != 13
    ensures PutAll(t, s).x >= |s|
    ensures var r := RubbedOut(PutAll(t, s), |s|);
            && r.x == t.x && r.y == t.y
            && Cell(r.page, row, col) == if row == t.y && t.x <= col < t.x + |s| then (0, 7) else Cell(t.page, row, col)
  {
    PutAllOnRow(t, s, row, col);
    RubbedOutByCells(PutAll(t, s), |s|, row, col);
  }

  /** Text wraps onto its own row: after a full row of printable characters the
      cursor is where it was, and the next character overwrites. */
  lemma {:induction false} TextWrapsOnItsRow(t: Term, s: seq<byte>)
    requires Ok(t) && forall i :: 0 <= i < |s| ==> !LineBreak(s[i])
    ensures PutAll(t, s).y == t.y && PutAll(t, s).x == (t.x + |s|) % NUM_COLS
    decreases |s|
  {
    if s != [] {
      TextWrapsOnItsRow(Put(t, s[0]), s[1..]);
    }
  }
}
