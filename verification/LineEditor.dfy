/** The keyboard's line editor as a user sees it: a line is a sequence of typed
    characters, tabs and soft line breaks, and keys append to it or erase from
    its end. The byte buffer behind it is in module Keyboard. */
module LineEditor {
  import opened Bytes
  import opened Terminals

  const TAB_BYTE: byte := 9
  const MAX_LINE: int := 73
  const TAB_SPACE: int := 4
  const BUFFER_SIZE: int := 127

  /** A tab normally fills four bytes; erasing may leave fewer of them. */
  datatype Token = Char(c: byte) | Break | Tab(width: int)

  type Line = seq<Token>

  function Spelled(t: Token): seq<byte> {
    match t
    case Char(c) => [c]
    case Break => [NEWLINE]
    case Tab(width) => if width <= 0 then [] else seq(width, _ => TAB_BYTE)
  }

  predicate TokenOk(t: Token) {
    match t
    case Char(c) => c != TAB_BYTE && c != NEWLINE
    case Break => true
    case Tab(width) => 1 <= width <= TAB_SPACE
  }

  /** All tokens but the last. */
  function Init(l: Line): Line
    requires l != []
  {
    l[..|l| - 1]
  }

  function Last(l: Line): Token
    requires l != []
  {
    l[|l| - 1]
  }

  /** The bytes a line stands for in the keyboard buffer. */
  function Text(l: Line): seq<byte> {
    if l == [] then [] else Text(Init(l)) + Spelled(Last(l))
  }

  function Len(l: Line): nat {
    |Text(l)|
  }

  function Tabs(l: Line): nat {
    if l == [] then 0 else Tabs(Init(l)) + if Last(l).Tab? then 1 else 0
  }

  /** Up to every token, the line is at least four bytes long for each tab in
      it: bytes missing from tabs are made up for by ordinary characters. A
      soft break is always byte number 73. */
  predicate Sound(l: Line) {
    l == [] ||
    (&& Sound(Init(l)) && TokenOk(Last(l))
     && Len(l) >= TAB_SPACE * Tabs(l)
     && (Last(l).Break? ==> Len(Init(l)) == MAX_LINE))
  }

  // ------------------------------------------------------------------
  // Editing
  // ------------------------------------------------------------------

  /** Four bytes are written while at least three remain free. */
  function TabWidth(len: nat): int
    requires len + TAB_SPACE < BUFFER_SIZE
  {
    if len == 122 then 3 else 4
  }

  /** The line without its last `n` bytes. */
  function Drop(l: Line, n: nat): Line
    decreases n
  {
    if n == 0 || l == [] then l
    else if Last(l).Tab? && Last(l).width > 1 then Drop(Init(l) + [Tab(Last(l).width - 1)], n - 1)
    else Drop(Init(l), n - 1)
  }

  /** Backspace: a tab takes four bytes with it, a fresh soft break the
      character before it as well. */
  function Erase(l: Line, newline: bool): Line {
    if l == [] then l
    else if newline && Last(l).Break? then Drop(l, 2)
    else if Last(l).Tab? then Drop(l, 4)
    else Init(l)
  }

  /** The same line with its first byte overwritten by NUL. */
  function ZeroFirst(l: Line): Line {
    if l == [] then l
    else if |l| > 1 then ZeroFirst(Init(l)) + [Last(l)]
    else if l[0].Tab? then [Char(NUL), Tab(l[0].width - 1)]
    else [Char(NUL)]
  }

  lemma Snoc(l: Line, t: Token)
    ensures Init(l + [t]) == l && Last(l + [t]) == t
    ensures Text(l + [t]) == Text(l) + Spelled(t)
    ensures Tabs(l + [t]) == Tabs(l) + if t.Tab? then 1 else 0
    ensures (Sound(l) && TokenOk(t) && Len(l) + |Spelled(t)| >= TAB_SPACE * Tabs(l + [t])
             && (t.Break? ==> Len(l) == MAX_LINE)) ==> Sound(l + [t])
  {
    assert Init(l + [t]) == l;
  }

  lemma ShorterTab(l: Line)
    requires Sound(l) && l != [] && Last(l).Tab? && Last(l).width > 1
    ensures var shorter := Init(l) + [Tab(Last(l).width - 1)];
            && Text(shorter) == Text(l)[..Len(l) - 1] && Tabs(shorter) == Tabs(l)
            && (Len(l) - 1 >= TAB_SPACE * Tabs(l) ==> Sound(shorter))
  {
    var tab := Tab(Last(l).width - 1);
    Snoc(Init(l), tab);
    assert Spelled(Last(l))[..tab.width] == Spelled(tab);
  }

  lemma DropLast(l: Line)
    requires Sound(l) && l != [] && !(Last(l).Tab? && Last(l).width > 1)
    ensures Len(l) >= 1 && Text(Init(l)) == Text(l)[..Len(l) - 1]
    ensures Sound(Init(l)) && Tabs(Init(l)) == Tabs(l) - if Last(l).Tab? then 1 else 0
  {
  }

  lemma EmptyLine()
    ensures Text([]) == [] && Tabs([]) == 0 && Sound([])
  {
  }

  /** Dropping bytes cuts the text, and keeps the line sound as long as enough
      bytes remain for the tabs. */
  lemma {:induction false} DropCuts(l: Line, n: nat)
    requires Sound(l) && TAB_SPACE * Tabs(l) + n <= Len(l)
    ensures Sound(Drop(l, n)) && Text(Drop(l, n)) == Text(l)[..Len(l) - n]
    ensures Tabs(Drop(l, n)) <= Tabs(l)
    decreases n
  {
    hide Sound, Text, Tabs;
    if l == [] {
      EmptyLine();
    } else if n > 0 {
      var text := Text(l);
      if Last(l).Tab? && Last(l).width > 1 {
        var shorter := Init(l) + [Tab(Last(l).width - 1)];
        ShorterTab(l);
        DropCuts(shorter, n - 1);
        assert text[..Len(l) - 1][..Len(l) - n] == text[..Len(l) - n];
      } else {
        DropLast(l);
        DropCuts(Init(l), n - 1);
        assert text[..Len(l) - 1][..Len(l) - n] == text[..Len(l) - n];
      }
    }
  }

  /** A tab's four-byte deletion never reaches below the line: it takes the
      missing bytes of a narrow tab from what comes before. */
  lemma DropTab(l: Line)
    requires Sound(l) && l != [] && Last(l).Tab?
    ensures Sound(Drop(l, 4)) && 4 <= Len(l) && Text(Drop(l, 4)) == Text(l)[..Len(l) - 4]
  {
    var w := Last(l).width;
    TabDropped(l, w);
    DropCuts(Init(l), 4 - w);
    DropTogether(l, w, 4 - w);
  }

  /** Dropping all the bytes a tab has left drops the tab. */
  lemma {:induction false} TabDropped(l: Line, w: nat)
    requires l != [] && Last(l) == Tab(w) && 1 <= w
    ensures Drop(l, w) == Init(l)
    decreases w
  {
    if w > 1 {
      var shorter := Init(l) + [Tab(w - 1)];
      assert Init(shorter) == Init(l);
      TabDropped(shorter, w - 1);
    }
  }

  lemma {:induction false} DropTogether(l: Line, a: nat, b: nat)
    ensures Drop(Drop(l, a), b) == Drop(l, a + b)
    decreases a
  {
    if a > 0 && l != [] {
      if Last(l).Tab? && Last(l).width > 1 {
        DropTogether(Init(l) + [Tab(Last(l).width - 1)], a - 1, b);
      } else {
        DropTogether(Init(l), a - 1, b);
      }
    }
  }

  /** Erasing keeps the line sound and shortens its text by one, two or four. */
  lemma EraseCuts(l: Line, newline: bool)
    requires Sound(l) && l != []
    ensures var n := if newline && Last(l).Break? then 2 else if Last(l).Tab? then 4 else 1;
            n <= Len(l) && Sound(Erase(l, newline)) && Text(Erase(l, newline)) == Text(l)[..Len(l) - n]
  {
    if newline && Last(l).Break? {
      DropBreak(l);
    } else if Last(l).Tab? {
      DropTab(l);
    } else {
      DropOne(l);
    }
  }

  lemma DropOne(l: Line)
    requires Sound(l) && l != [] && !Last(l).Tab?
    ensures 1 <= Len(l) && Text(Init(l)) == Text(l)[..Len(l) - 1]
  {
  }

  /** The break is byte 73 and 73 is not a multiple of four, so the byte before
      it can go even when it belongs to a tab. */
  lemma DropBreak(l: Line)
    requires Sound(l) && l != [] && Last(l).Break?
    ensures Len(l) == MAX_LINE + 1
    ensures Sound(Drop(l, 2)) && Text(Drop(l, 2)) == Text(l)[..Len(l) - 2]
  {
    DropOne(l);
    SoundLength(Init(l));
    DropCuts(Init(l), 1);
    assert Drop(l, 2) == Drop(Init(l), 1);
  }

  lemma SoundLength(l: Line)
    requires Sound(l)
    ensures Len(l) >= TAB_SPACE * Tabs(l)
  {
  }

  lemma {:induction false} ZeroFirstText(l: Line)
    requires Sound(l) && l != []
    ensures Len(l) > 0 && Sound(ZeroFirst(l)) && Text(ZeroFirst(l)) == Text(l)[0 := NUL]
    ensures Tabs(ZeroFirst(l)) == Tabs(l)
  {
    if |l| > 1 {
      ZeroFirstText(Init(l));
      Snoc(ZeroFirst(Init(l)), Last(l));
    } else {
      ZeroFirstToken(l[0]);
      assert l == [l[0]];
    }
  }

  lemma OneToken(t: Token)
    ensures Text([t]) == Spelled(t) && Tabs([t]) == if t.Tab? then 1 else 0
    ensures Sound([t]) <==> TokenOk(t) && !t.Break? && (t.Tab? ==> t.width == TAB_SPACE)
  {
    EmptyLine();
    Snoc([], t);
    assert [] + [t] == [t];
  }

  lemma ZeroFirstToken(t: Token)
    requires Sound([t])
    ensures Len([t]) > 0 && Sound(ZeroFirst([t])) && Text(ZeroFirst([t])) == Text([t])[0 := NUL]
    ensures Tabs(ZeroFirst([t])) == Tabs([t])
  {
    hide Sound, Text, Tabs;
    OneToken(t);
    OneToken(Char(NUL));
    if t.Tab? {
      Snoc([Char(NUL)], Tab(3));
      assert [Char(NUL)] + [Tab(3)] == [Char(NUL), Tab(3)];
      assert Spelled(Char(NUL)) + Spelled(Tab(3)) == Spelled(t)[0 := NUL];
    }
  }

  // ------------------------------------------------------------------
  // Key presses
  // ------------------------------------------------------------------

  const LEFT_SHIFT: int := 0x2A
  const RIGHT_SHIFT: int := 0x36
  const LEFT_SHIFT_REL: int := 0xAA
  const RIGHT_SHIFT_REL: int := 0xB6
  const CAPS_LOCK: int := 0x3A
  const TAB: int := 0x0F
  const CTRL: int := 0x1D
  const CTRL_REL: int := 0x9D
  const L: int := 0x26
  const ENTER: int := 0x1C
  const BACKSPACE: int := 0x0E
  const ALT: int := 0x38
  const ALT_REL: int := 0xB8
  const F1: int := 0x3B
  const F3: int := 0x3D
  const F_OFFSET: int := 0x3A

  /** One row of keys: the scan code of its first key and what the keys type
      plainly, with shift, and with caps lock. */
  datatype Row = Row(first: int, plain: string, shifted: string, caps: string)

  const DIGITS: Row := Row(2, "1234567890-=", "!@#$%^&*()_+", "1234567890-=")
  const UPPER: Row := Row(16, "qwertyuiop[]", "QWERTYUIOP{}", "QWERTYUIOP[]")
  const MIDDLE: Row := Row(30, "asdfghjkl;'`", "ASDFGHJKL:\"~", "ASDFGHJKL;'`")
  const LOWER: Row := Row(43, "\\zxcvbnm,./", "|ZXCVBNM<>?", "\\ZXCVBNM,./")
  const SPACE: Row := Row(57, " ", " ", " ")

  predicate OnRow(row: Row, scan: int) {
    row.first <= scan < row.first + |row.plain| && |row.shifted| == |row.caps| == |row.plain|
  }

  /** The modifier keys, and whether a soft break was the last thing inserted. */
  datatype Keys = Keys(shift: bool, caps: bool, ctrl: bool, alt: bool, newline: bool)

  /** Modifiers, the three terminals' lines, and the terminal displayed. */
  datatype Board = Board(keys: Keys, lines: seq<Line>, cur: int)

  predicate BoardOk(b: Board) {
    |b.lines| == 3 && 1 <= b.cur <= 3
    && forall t :: 0 <= t < 3 ==> Sound(b.lines[t]) && Len(b.lines[t]) < BUFFER_SIZE
  }

  function ByteOf(c: char): byte {
    c as int % 256
  }

  function OnKey(row: Row, k: Keys, scan: int): byte
    requires OnRow(row, scan)
  {
    var i := scan - row.first;
    ByteOf(if k.shift && !k.caps then row.shifted[i] else if k.caps && !k.shift then row.caps[i] else row.plain[i])
  }

  /** The byte a key types under the modifiers, NUL for none. */
  function Typed(k: Keys, scan: int): byte {
    if k.ctrl || k.alt then NUL
    else if OnRow(DIGITS, scan) then OnKey(DIGITS, k, scan)
    else if OnRow(UPPER, scan) then OnKey(UPPER, k, scan)
    else if OnRow(MIDDLE, scan) then OnKey(MIDDLE, k, scan)
    else if OnRow(LOWER, scan) then OnKey(LOWER, k, scan)
    else if OnRow(SPACE, scan) then OnKey(SPACE, k, scan)
    else NUL
  }

  /** All keys of a row type printable characters. */
  predicate Printable(s: string) {
    forall i :: 0 <= i < |s| ==> ' ' <= s[i] <= '~'
  }

  predicate RowPrintable(row: Row) {
    Printable(row.plain) && Printable(row.shifted) && Printable(row.caps)
  }

  lemma RowsPrintable()
    ensures RowPrintable(DIGITS) && RowPrintable(UPPER)
  {
  }

  lemma MoreRowsPrintable()
    ensures RowPrintable(MIDDLE) && RowPrintable(LOWER) && RowPrintable(SPACE)
  {
  }

  lemma KeyPrintable(row: Row, k: Keys, scan: int)
    requires RowPrintable(row) && OnRow(row, scan)
    ensures 32 <= OnKey(row, k, scan) <= 126
  {
  }

  /** No key types a tab or a line feed. */
  lemma TypedIsOrdinary(k: Keys, scan: int)
    ensures Typed(k, scan) == NUL || 32 <= Typed(k, scan) <= 126
  {
    hide OnRow, OnKey, RowPrintable, DIGITS, UPPER, MIDDLE, LOWER, SPACE;
    RowsPrintable();
    MoreRowsPrintable();
    forall row | RowPrintable(row) && OnRow(row, scan)
      ensures 32 <= OnKey(row, k, scan) <= 126
    {
      KeyPrintable(row, k, scan);
    }
  }

  // ------------------------------------------------------------------
  // One scan code
  // ------------------------------------------------------------------

  function Modified(k: Keys, scan: int): Keys {
    Keys(if scan in {LEFT_SHIFT, RIGHT_SHIFT} then true
         else if scan in {LEFT_SHIFT_REL, RIGHT_SHIFT_REL} then false else k.shift,
         if scan == CAPS_LOCK then !k.caps else k.caps,
         if scan == CTRL then true else if scan == CTRL_REL then false else k.ctrl,
         if scan == ALT then true else if scan == ALT_REL then false else k.alt,
         k.newline)
  }

  function Current(b: Board): Line
    requires BoardOk(b)
  {
    b.lines[b.cur - 1]
  }

  function WithLine(b: Board, l: Line): Board
    requires BoardOk(b)
  {
    b.(lines := b.lines[b.cur - 1 := l])
  }

  /** Enter hands the line over and starts an empty one. On a full line the
      terminator lands on the first byte of the next terminal's line. */
  function Entered(b: Board): Board
    requires BoardOk(b)
  {
    var full := Len(Current(b)) == BUFFER_SIZE - 1;
    var b' := WithLine(b, []);
    if full && b.cur < 3 then b'.(lines := b'.lines[b.cur := ZeroFirst(b'.lines[b.cur])]) else b'
  }

  /** A line of 73 bytes is broken as soon as any key moves. */
  function Wrapped(b: Board): Board
    requires BoardOk(b)
  {
    if Len(Current(b)) == MAX_LINE then WithLine(b, Current(b) + [Break]).(keys := b.keys.(newline := true)) else b
  }

  function Tabbed(b: Board, columnFits: bool): Board
    requires BoardOk(b)
  {
    var len := Len(Current(b));
    if len + TAB_SPACE < BUFFER_SIZE && columnFits then WithLine(b, Current(b) + [Tab(TabWidth(len))]) else b
  }

  function Erased(b: Board): Board
    requires BoardOk(b)
  {
    var l := Current(b);
    if l == [] then b
    else
      var justBroken := b.keys.newline && Last(l).Break?;
      WithLine(b, Erase(l, b.keys.newline)).(keys := b.keys.(newline := b.keys.newline && !justBroken))
  }

  function Appended(b: Board, c: byte): Board
    requires BoardOk(b)
  {
    if c != NUL && Len(Current(b)) < BUFFER_SIZE - 1 then WithLine(b, Current(b) + [Char(c)]) else b
  }

  lemma WithLineOk(b: Board, l: Line)
    requires BoardOk(b) && Sound(l) && Len(l) < BUFFER_SIZE
    ensures BoardOk(WithLine(b, l)) && Current(WithLine(b, l)) == l
  {
  }

  lemma EnteredOk(b: Board)
    requires BoardOk(b)
    ensures BoardOk(Entered(b)) && Current(Entered(b)) == []
  {
    var b' := WithLine(b, []);
    if b.cur < 3 && b'.lines[b.cur] != [] {
      ZeroFirstText(b'.lines[b.cur]);
    }
  }

  lemma WrappedOk(b: Board)
    requires BoardOk(b)
    ensures BoardOk(Wrapped(b)) && Len(Current(Wrapped(b))) != MAX_LINE
  {
    Snoc(Current(b), Break);
    SoundLength(Current(b));
    if Len(Current(b)) == MAX_LINE {
      WithLineOk(b, Current(b) + [Break]);
    }
  }

  /** At byte 122 only three bytes of a tab fit; 122 is two more than a multiple
      of four, so the ordinary characters still make up for it. */
  lemma TabbedOk(b: Board, columnFits: bool)
    requires BoardOk(b)
    ensures BoardOk(Tabbed(b, columnFits))
  {
    var l := Current(b);
    SoundLength(l);
    if Len(l) + TAB_SPACE < BUFFER_SIZE {
      Snoc(l, Tab(TabWidth(Len(l))));
      WithLineOk(b, l + [Tab(TabWidth(Len(l)))]);
    }
  }

  lemma ErasedOk(b: Board)
    requires BoardOk(b)
    ensures BoardOk(Erased(b))
  {
    if Current(b) != [] {
      EraseCuts(Current(b), b.keys.newline);
      WithLineOk(b, Erase(Current(b), b.keys.newline));
    }
  }

  lemma AppendedOk(b: Board, c: byte)
    requires BoardOk(b) && c != TAB_BYTE && c != NEWLINE
    ensures BoardOk(Appended(b, c))
  {
    Snoc(Current(b), Char(c));
    SoundLength(Current(b));
    if c != NUL && Len(Current(b)) < BUFFER_SIZE - 1 {
      WithLineOk(b, Current(b) + [Char(c)]);
    }
  }

  /** The part of a key press before the tab key: modifiers, Enter, the soft
      break, and clearing. */
  function Started(b: Board, scan: int): (r: Board)
    requires BoardOk(b)
    ensures BoardOk(r)
  {
    var b0 := b.(keys := Modified(b.keys, scan));
    EnteredOk(b0);
    var b1 := if scan == ENTER then Entered(b0) else b0;
    WrappedOk(b1);
    var b2 := Wrapped(b1);
    WithLineOk(b2, []);
    if b2.keys.ctrl && scan == L then WithLine(b2, []) else b2
  }

  /** Then the tab key and backspace. */
  function Edited(b: Board, scan: int, columnFits: bool): (r: Board)
    requires BoardOk(b)
    ensures BoardOk(r)
  {
    TabbedOk(b, columnFits);
    var b4 := if scan == TAB then Tabbed(b, columnFits) else b;
    ErasedOk(b4);
    if scan == BACKSPACE then Erased(b4) else b4
  }

  /** Then the character typed, and the terminal selected. */
  function Finished(b: Board, scan: int, columnFits: bool): (r: Board)
    requires BoardOk(b)
    ensures BoardOk(r)
  {
    var b5 := Edited(b, scan, columnFits);
    TypedIsOrdinary(b5.keys, scan);
    AppendedOk(b5, Typed(b5.keys, scan));
    var b6 := Appended(b5, Typed(b5.keys, scan));
    if b6.keys.alt && F1 <= scan <= F3 then b6.(cur := scan - F_OFFSET) else b6
  }

  /** One scan code; `columnFits` is whether a tab fits on the screen row. */
  function Press(b: Board, scan: int, columnFits: bool): (r: Board)
    requires BoardOk(b)
    ensures BoardOk(r)
  {
    Finished(Started(b, scan), scan, columnFits)
  }

  /** What the keyboard prints on the displayed terminal up to the tab key. On
      Ctrl-L `shell` tells whether a terminal's own shell is running. */
  function FirstEcho(b: Board, scan: int, shell: bool): seq<Action>
    requires BoardOk(b)
  {
    var b0 := b.(keys := Modified(b.keys, scan));
    EnteredOk(b0);
    var b1 := if scan == ENTER then Entered(b0) else b0;
    (if scan == ENTER then [PutChar(NEWLINE)] else [])
    + (if Len(Current(b1)) == MAX_LINE then [PutChar(NEWLINE)] else [])
    + (if b0.keys.ctrl && scan == L then [Wipe(shell)] else [])
  }

  /** And after it, on a board that has come so far: spaces for a tab, or the
      character typed. */
  function LaterEcho(b: Board, scan: int, columnFits: bool): seq<Action>
    requires BoardOk(b)
  {
    var tabs := if scan == TAB && Len(Current(b)) + TAB_SPACE < BUFFER_SIZE && columnFits then TabWidth(Len(Current(b))) else 0;
    var b5 := Edited(b, scan, columnFits);
    var c := Typed(b5.keys, scan);
    seq(tabs, _ => PutChar(BLANK)) + (if c != NUL && Len(Current(b5)) < BUFFER_SIZE - 1 then [PutChar(c)] else [])
  }

  /** What backspace does on the screen: nothing, so many characters rubbed out,
      or the row joined again with the one above. */
  datatype Erasure = NoErasure | RubOut(n: int) | JoinRows

  function ErasureOf(b: Board): Erasure
    requires BoardOk(b)
  {
    var l := Current(b);
    if l == [] then NoErasure
    else if b.keys.newline && Last(l).Break? then JoinRows
    else if Last(l).Tab? then RubOut(4)
    else RubOut(1)
  }

  /** Any sequence of scan codes: no line ever outgrows its buffer, whatever is
      erased, and every line stays sound. */
  function PressAll(b: Board, scans: seq<(int, bool)>): (r: Board)
    requires BoardOk(b)
    ensures BoardOk(r)
    decreases |scans|
  {
    if scans == [] then b else PressAll(Press(b, scans[0].0, scans[0].1), scans[1..])
  }

  // ------------------------------------------------------------------
  // What backspace undoes
  // ------------------------------------------------------------------

  /** A key that types `c` on a line not at its break, seen on that line. */
  lemma PressTypes(b: Board, scan: int, fits: bool)
    requires BoardOk(b) && Typed(b.keys, scan) != NUL && Modified(b.keys, scan) == b.keys
    requires scan !in {ENTER, TAB, BACKSPACE} && !(F1 <= scan <= F3)
    requires Len(Current(b)) < BUFFER_SIZE - 1
    ensures var l := Current(b);
            var r := Press(b, scan, fits);
            && r.cur == b.cur && !r.keys.ctrl && !r.keys.alt && (Len(l) != MAX_LINE ==> r.keys == b.keys)
            && Current(r) == (if Len(l) == MAX_LINE then l + [Break] else l) + [Char(Typed(b.keys, scan))]
  {
    Snoc(Current(b), Break);
  }

  /** Backspace, seen on the line. */
  lemma PressErases(b: Board, fits: bool)
    requires BoardOk(b) && !b.keys.ctrl && !b.keys.alt
    ensures var l := Current(b);
            var r := Press(b, BACKSPACE, fits);
            && r.cur == b.cur
            && Current(r) == if Len(l) == MAX_LINE then Drop(l + [Break], 2) else Erase(l, b.keys.newline)
  {
    var b0 := b.(keys := Modified(b.keys, BACKSPACE));
    assert b0 == b;
    Snoc(Current(b), Break);
    WrappedOk(b);
    NothingTyped(b.keys);
    NothingTyped(Wrapped(b).keys);
    NothingTyped(Edited(Started(b, BACKSPACE), BACKSPACE, fits).keys);
  }

  lemma NothingTyped(k: Keys)
    ensures Typed(k, BACKSPACE) == NUL && Typed(k, TAB) == NUL
  {
  }

  /** Backspace takes back a typed character exactly unless the line was at its
      73rd byte, where the soft break that came with the character stays. */
  lemma BackspaceUndoesCharacter(b: Board, scan: int, fits: bool, fitsToo: bool)
    requires BoardOk(b) && Typed(b.keys, scan) != NUL && Modified(b.keys, scan) == b.keys
    requires scan !in {ENTER, TAB, BACKSPACE} && !(F1 <= scan <= F3)
    requires Len(Current(b)) < BUFFER_SIZE - 1
    ensures Current(Press(Press(b, scan, fits), BACKSPACE, fitsToo)) == Current(b) <==> Len(Current(b)) != MAX_LINE
  {
    var l, c := Current(b), Char(Typed(b.keys, scan));
    var typed := Press(b, scan, fits);
    PressTypes(b, scan, fits);
    PressErases(typed, fitsToo);
    Snoc(l, c);
    Snoc(l, Break);
    Snoc(l + [c], Break);
    Snoc(l + [Break], c);
    assert Drop(l + [c] + [Break], 2) == Drop(l + [c], 1) == Drop(l, 0);
  }

  /** The tab key, seen on the line. */
  lemma PressTabs(b: Board)
    requires BoardOk(b) && !b.keys.ctrl && !b.keys.alt
    ensures var l := if Len(Current(b)) == MAX_LINE then Current(b) + [Break] else Current(b);
            var r := Press(b, TAB, true);
            && r.cur == b.cur && !r.keys.ctrl && !r.keys.alt
            && Current(r) == if Len(l) + TAB_SPACE < BUFFER_SIZE then l + [Tab(TabWidth(Len(l)))] else l
  {
    assert b.(keys := Modified(b.keys, TAB)) == b;
    WrappedOk(b);
    NothingTyped(Edited(Started(b, TAB), TAB, true).keys);
  }

  /** Backspace takes back a tab exactly when the tab got all its four bytes
      and no soft break came with or after it: not at byte 69, 73 or 122. */
  lemma BackspaceUndoesTab(b: Board, fits: bool)
    requires BoardOk(b) && !b.keys.ctrl && !b.keys.alt && Len(Current(b)) + TAB_SPACE < BUFFER_SIZE
    ensures Current(Press(Press(b, TAB, true), BACKSPACE, fits)) == Current(b)
            <==> Len(Current(b)) !in {69, 73, 122}
  {
    var l := Current(b);
    var l1 := if Len(l) == MAX_LINE then l + [Break] else l;
    Snoc(l, Break);
    PressTabs(b);
    var tab := Tab(TabWidth(Len(l1)));
    var l2 := l1 + [tab];
    Snoc(l1, tab);
    PressErases(Press(b, TAB, true), fits);
    if Len(l) == 69 {
      Snoc(l2, Break);
      Snoc(l, Tab(3));
      assert Drop(l2 + [Break], 2) == Drop(l2, 1) == Drop(l + [Tab(3)], 0);
    } else if Len(l) == 122 {
      EraseCuts(l2, Press(b, TAB, true).keys.newline);
    } else {
      TabDropped(l2, 4);
    }
  }

  // ------------------------------------------------------------------
  // Presses that backspace does not undo
  // ------------------------------------------------------------------

  const NO_KEYS: Keys := Keys(false, false, false, false, false)
  const EMPTY_BOARD: Board := Board(NO_KEYS, [[], [], []], 1)
  const KEY_A: int := 30

  /** The board after `n` presses of the A key. */
  function Typing(b: Board, n: nat): (r: Board)
    requires BoardOk(b)
    ensures BoardOk(r)
  {
    PressAll(b, seq(n, _ => (KEY_A, true)))
  }

  predicate NoModifiers(b: Board) {
    !b.keys.ctrl && !b.keys.alt
  }

  lemma KeyATypes(k: Keys)
    requires !k.ctrl && !k.alt
    ensures Typed(k, KEY_A) != NUL && Modified(k, KEY_A) == k
  {
    hide DIGITS, UPPER, LOWER, SPACE;
    KeyRows();
    RowsPrintable();
    MoreRowsPrintable();
    KeyPrintable(MIDDLE, k, KEY_A);
  }

  lemma KeyRows()
    ensures !OnRow(DIGITS, KEY_A) && !OnRow(UPPER, KEY_A) && OnRow(MIDDLE, KEY_A)
  {
  }

  /** Every press adds a byte, and one more for the soft break at byte 73. */
  lemma {:induction false} TypingGrows(b: Board, n: nat)
    requires BoardOk(b) && NoModifiers(b)
    requires Len(Current(b)) + n + (if Len(Current(b)) <= MAX_LINE then 1 else 0) < BUFFER_SIZE - 1
    ensures var len, r := Len(Current(b)), Typing(b, n);
            && NoModifiers(r)
            && Len(Current(r)) == if len <= MAX_LINE < len + n then len + n + 1 else len + n
    decreases n
  {
    hide Typed, Modified, Press, BoardOk;
    if n > 0 {
      var first := Press(b, KEY_A, true);
      KeyATypes(b.keys);
      PressTypes(b, KEY_A, true);
      Snoc(Current(b), Break);
      Snoc(Current(b), Char(Typed(b.keys, KEY_A)));
      Snoc(Current(b) + [Break], Char(Typed(b.keys, KEY_A)));
      assert seq(n, _ => (KEY_A, true))[1..] == seq(n - 1, _ => (KEY_A, true));
      TypingGrows(first, n - 1);
    }
  }

  /** After 73 presses backspace does not take back the next character. */
  lemma CharacterStays()
    ensures var b := Typing(EMPTY_BOARD, 73);
            Current(Press(Press(b, KEY_A, true), BACKSPACE, true)) != Current(b)
  {
    TypingGrows(EMPTY_BOARD, 73);
    var b := Typing(EMPTY_BOARD, 73);
    KeyATypes(b.keys);
    BackspaceUndoesCharacter(b, KEY_A, true, true);
  }

  /** After 69, 73 or 121 presses the line has 69, 73 or 122 bytes, and
      backspace does not take back a tab. */
  lemma TabStays(n: nat)
    requires n in {69, 73, 121}
    ensures var b := Typing(EMPTY_BOARD, n);
            && Len(Current(b)) == (if n == 121 then 122 else n)
            && Current(Press(Press(b, TAB, true), BACKSPACE, true)) != Current(b)
  {
    TypingGrows(EMPTY_BOARD, n);
    BackspaceUndoesTab(Typing(EMPTY_BOARD, n), true);
  }
}
