/** The keyboard interrupt handler: modifier flags, and for each terminal a row
    of the line buffer with its index, edited in place one scan code at a time.
    It is proved to be the line editor of module LineEditor. */
module Keyboard {
  import opened Bytes
  import opened LineEditor
  import opened Terminals

  const NUM_TERMINALS: int := 3

  /** Three rows of the buffer, and the one byte after it that a full third row
      can overwrite. */
  const BUFFER_BYTES: int := NUM_TERMINALS * BUFFER_SIZE + 1

  /** Each row starts with the text of its line, as long as its index says. */
  ghost predicate RowsOk(buf: seq<byte>, index: seq<int>, lines: seq<Line>) {
    && |buf| == BUFFER_BYTES && |index| == NUM_TERMINALS && |lines| == NUM_TERMINALS
    && forall t :: 0 <= t < NUM_TERMINALS ==> RowOk(buf, index[t], lines[t], t)
  }

  ghost predicate RowOk(buf: seq<byte>, index: int, line: Line, t: int)
    requires |buf| == BUFFER_BYTES && 0 <= t < NUM_TERMINALS
  {
    Sound(line) && index == Len(line) < BUFFER_SIZE && buf[BUFFER_SIZE * t..BUFFER_SIZE * t + Len(line)] == Text(line)
  }

  /** Nothing changed outside row `t`. */
  ghost predicate OnlyRow(buf: seq<byte>, buf': seq<byte>, t: int) {
    && |buf| == |buf'|
    && forall j :: 0 <= j < |buf| && !(BUFFER_SIZE * t <= j < BUFFER_SIZE * t + BUFFER_SIZE) ==> buf'[j] == buf[j]
  }

  lemma RowChanges(buf: seq<byte>, buf': seq<byte>, index: seq<int>, lines: seq<Line>, t: int, l: Line)
    requires RowsOk(buf, index, lines) && 0 <= t < NUM_TERMINALS && OnlyRow(buf, buf', t)
    requires RowOk(buf', Len(l), l, t)
    ensures RowsOk(buf', index[t := Len(l)], lines[t := l])
  {
    var index', lines' := index[t := Len(l)], lines[t := l];
    forall u | 0 <= u < NUM_TERMINALS
      ensures RowOk(buf', index'[u], lines'[u], u)
    {
      if u != t {
        assert RowOk(buf, index[u], lines[u], u);
        SameRow(buf, buf', u, Len(lines[u]), t);
      }
    }
  }

  lemma RowFacts(buf: seq<byte>, index: seq<int>, lines: seq<Line>, t: int)
    requires RowsOk(buf, index, lines) && 0 <= t < NUM_TERMINALS
    ensures |buf| == BUFFER_BYTES && |index| == NUM_TERMINALS && |lines| == NUM_TERMINALS
    ensures Sound(lines[t]) && index[t] == Len(lines[t]) < BUFFER_SIZE
  {
    assert RowOk(buf, index[t], lines[t], t);
  }

  /** One more byte in row `t`. */
  lemma RowGrows(buf: seq<byte>, index: seq<int>, lines: seq<Line>, t: int, l: Line, b: byte)
    requires RowsOk(buf, index, lines) && 0 <= t < NUM_TERMINALS
    requires Sound(l) && Text(l) == Text(lines[t]) + [b] && Len(l) < BUFFER_SIZE
    ensures 0 <= BUFFER_SIZE * t + index[t] < BUFFER_BYTES
    ensures RowsOk(buf[BUFFER_SIZE * t + index[t] := b], index[t := index[t] + 1], lines[t := l])
  {
    assert RowOk(buf, index[t], lines[t], t);
    var buf' := buf[BUFFER_SIZE * t + index[t] := b];
    assert buf'[BUFFER_SIZE * t..BUFFER_SIZE * t + Len(l)] == Text(lines[t]) + [b];
    RowChanges(buf, buf', index, lines, t, l);
  }

  lemma SameRow(buf: seq<byte>, buf': seq<byte>, u: int, n: nat, t: int)
    requires |buf| == BUFFER_BYTES && OnlyRow(buf, buf', t) && n < BUFFER_SIZE
    requires 0 <= u < NUM_TERMINALS && 0 <= t < NUM_TERMINALS && u != t
    ensures buf'[BUFFER_SIZE * u..BUFFER_SIZE * u + n] == buf[BUFFER_SIZE * u..BUFFER_SIZE * u + n]
  {
    assert u < t ==> BUFFER_SIZE * u + BUFFER_SIZE <= BUFFER_SIZE * t;
    assert t < u ==> BUFFER_SIZE * t + BUFFER_SIZE <= BUFFER_SIZE * u;
  }

  /** What the last byte of a line tells. */
  lemma LastByte(l: Line)
    requires Sound(l)
    ensures Len(l) == 0 <==> l == []
    ensures l != [] ==> (Text(l)[Len(l) - 1] == NEWLINE <==> Last(l).Break?)
    ensures l != [] ==> (Text(l)[Len(l) - 1] == TAB_BYTE <==> Last(l).Tab?)
  {
  }

  /** The terminator of a full line falls on the next row's first byte. */
  lemma NextRowZeroed(buf: seq<byte>, index: seq<int>, lines: seq<Line>, t: int)
    requires RowsOk(buf, index, lines) && 0 <= t < NUM_TERMINALS
    ensures BUFFER_SIZE * t < BUFFER_BYTES
    ensures RowsOk(buf[BUFFER_SIZE * t := NUL], index, lines[t := ZeroFirst(lines[t])])
  {
    var buf' := buf[BUFFER_SIZE * t := NUL];
    var l, l' := lines[t], ZeroFirst(lines[t]);
    assert RowOk(buf, index[t], l, t);
    if l != [] {
      ZeroFirstText(l);
      assert buf'[BUFFER_SIZE * t..BUFFER_SIZE * t + Len(l)] == Text(l)[0 := NUL];
    }
    assert OnlyRow(buf, buf', t) && RowOk(buf', Len(l'), l', t);
    RowChanges(buf, buf', index, lines, t, l');
    assert index[t := Len(l')] == index;
  }

  class Handler {
    const keyboardBuffer: array<byte>
    const keyboardIndex: array<int>
    const enterFlag: array<bool>
    var shiftFlag: bool
    var capsLockFlag: bool
    var ctrlFlag: bool
    var altFlag: bool
    var newlineFlag: bool
    var curTerminal: int
    ghost var lines: seq<Line>

    ghost predicate Valid()
      reads this, keyboardBuffer, keyboardIndex
    {
      1 <= curTerminal <= 3 && enterFlag.Length == 3 && RowsOk(keyboardBuffer[..], keyboardIndex[..], lines)
    }

    /** Modifiers, lines and displayed terminal. */
    ghost function View(): (b: Board)
      requires Valid()
      reads this, keyboardBuffer, keyboardIndex
      ensures BoardOk(b)
    {
      assert forall t :: 0 <= t < 3 ==> RowOk(keyboardBuffer[..], keyboardIndex[..][t], lines[t], t);
      Board(Keys(shiftFlag, capsLockFlag, ctrlFlag, altFlag, newlineFlag), lines, curTerminal)
    }

    constructor ()
      ensures Valid() && View() == Board(Keys(false, false, false, false, false), [[], [], []], 1)
      ensures fresh(keyboardBuffer) && fresh(keyboardIndex) && fresh(enterFlag)
    {
      keyboardBuffer := new byte[BUFFER_BYTES](_ => 0);
      keyboardIndex := new int[3](_ => 0);
      enterFlag := new bool[3](_ => false);
      shiftFlag, capsLockFlag, ctrlFlag, altFlag, newlineFlag := false, false, false, false, false;
      curTerminal := 1;
      lines := [[], [], []];
      new;
      assert keyboardIndex[..] == [0, 0, 0];
    }

    /** Writes one byte at the end of the displayed terminal's row. */
    method PutByte(b: byte)
      requires 1 <= curTerminal <= 3 && keyboardIndex.Length == 3 && keyboardBuffer.Length == BUFFER_BYTES
      requires 0 <= keyboardIndex[curTerminal - 1] < BUFFER_SIZE - 1
      modifies keyboardBuffer, keyboardIndex
      ensures keyboardIndex[..] == old(keyboardIndex[..])[curTerminal - 1 := old(keyboardIndex[curTerminal - 1]) + 1]
      ensures keyboardBuffer[..]
           == old(keyboardBuffer[..])[BUFFER_SIZE * (curTerminal - 1) + old(keyboardIndex[curTerminal - 1]) := b]
    {
      keyboardBuffer[BUFFER_SIZE * (curTerminal - 1) + keyboardIndex[curTerminal - 1]] := b;
      keyboardIndex[curTerminal - 1] := keyboardIndex[curTerminal - 1] + 1;
    }

    /** Appends a one-byte token to the displayed terminal's line. */
    method Append(ghost token: Token, b: byte)
      requires Valid() && Spelled(token) == [b] && Len(Current(View())) < BUFFER_SIZE - 1
      requires Sound(Current(View()) + [token])
      modifies this`lines, keyboardBuffer, keyboardIndex
      ensures Valid() && View() == WithLine(old(View()), old(Current(View())) + [token])
    {
      hide RowsOk, BoardOk, Text, Sound, Tabs, Spelled, TokenOk;
      ghost var t, l := curTerminal - 1, Current(View());
      ghost var buf, index := keyboardBuffer[..], keyboardIndex[..];
      RowFacts(buf, index, lines, t);
      Snoc(l, token);
      RowGrows(buf, index, lines, t, l + [token], b);
      PutByte(b);
      lines := lines[t := l + [token]];
      assert RowsOk(keyboardBuffer[..], keyboardIndex[..], lines);
    }

    /** Enter: the line is terminated and handed over, and the row starts over. */
    method EnterLine()
      requires Valid()
      modifies this`lines, keyboardBuffer, keyboardIndex, enterFlag
      ensures Valid() && View() == Entered(old(View())) && Current(View()) == []
      ensures enterFlag[curTerminal - 1]
      ensures Delivered(old(Current(View())), curTerminal - 1)
    {
      hide RowsOk, BoardOk, Text, Sound;
      ghost var t, l := curTerminal - 1, Current(View());
      RowFacts(keyboardBuffer[..], keyboardIndex[..], lines, t);
      LineHandedOver(keyboardBuffer[..], keyboardIndex[..], lines, t);
      enterFlag[curTerminal - 1] := true;
      keyboardBuffer[BUFFER_SIZE * (curTerminal - 1) + keyboardIndex[curTerminal - 1]] := NEWLINE;
      keyboardIndex[curTerminal - 1] := keyboardIndex[curTerminal - 1] + 1;
      keyboardBuffer[BUFFER_SIZE * (curTerminal - 1) + keyboardIndex[curTerminal - 1]] := NUL;
      keyboardIndex[curTerminal - 1] := 0;
      assert keyboardIndex[..] == old(keyboardIndex[..])[t := 0];
      lines := Entered(old(View())).lines;
    }

    /** The row of terminal `t` holds this line, a newline and a terminator. */
    ghost predicate Delivered(l: Line, t: int)
      requires Valid() && 0 <= t < NUM_TERMINALS && Len(l) < BUFFER_SIZE
      reads this, keyboardBuffer, keyboardIndex
    {
      HandedOver(keyboardBuffer[..], l, t)
    }

    /** A line of 73 bytes is broken. */
    method WrapLine() returns (wrapped: bool)
      requires Valid()
      modifies this`lines, this`newlineFlag, keyboardBuffer, keyboardIndex
      ensures Valid() && View() == Wrapped(old(View()))
      ensures wrapped <==> Len(old(Current(View()))) == MAX_LINE
      ensures old(Current(View())) == [] ==> keyboardBuffer[..] == old(keyboardBuffer[..])
    {
      hide Sound;
      ghost var t, l := curTerminal - 1, Current(View());
      RowFacts(keyboardBuffer[..], keyboardIndex[..], lines, t);
      WrappedOk(View());
      wrapped := false;
      if keyboardIndex[curTerminal - 1] == MAX_LINE && keyboardIndex[curTerminal - 1] + 1 < BUFFER_SIZE {
        BreakSound(l);
        Append(Break, NEWLINE);
        newlineFlag := true;
        wrapped := true;
      }
    }

    /** Ctrl-L: the row is zeroed. */
    method ClearLine()
      requires Valid()
      modifies this`lines, keyboardBuffer, keyboardIndex
      ensures Valid() && View() == WithLine(old(View()), [])
    {
      hide Text, Sound, RowsOk, BoardOk;
      ghost var t, was, index := curTerminal - 1, keyboardBuffer[..], keyboardIndex[..];
      RowFacts(was, index, lines, t);
      var i := 0;
      while i < BUFFER_SIZE
        invariant 0 <= i <= BUFFER_SIZE && OnlyRow(was, keyboardBuffer[..], t)
        modifies keyboardBuffer
      {
        keyboardBuffer[BUFFER_SIZE * (curTerminal - 1) + i] := NUL;
        i := i + 1;
      }
      RowEmptied(was, keyboardBuffer[..], index, lines, t);
      keyboardIndex[curTerminal - 1] := 0;
      assert keyboardIndex[..] == index[t := 0];
      lines := lines[t := []];
    }

    /** One of the four bytes of a tab, if there is room. */
    method TabByte() returns (written: bool)
      requires 1 <= curTerminal <= 3 && keyboardIndex.Length == 3 && keyboardBuffer.Length == BUFFER_BYTES
      requires 0 <= keyboardIndex[curTerminal - 1] < BUFFER_SIZE
      modifies keyboardBuffer, keyboardIndex
      ensures written <==> old(keyboardIndex[curTerminal - 1]) + 2 < BUFFER_SIZE
      ensures var n := old(keyboardIndex[curTerminal - 1]);
              if n + 2 < BUFFER_SIZE then
                && keyboardIndex[..] == old(keyboardIndex[..])[curTerminal - 1 := n + 1]
                && keyboardBuffer[..] == old(keyboardBuffer[..])[BUFFER_SIZE * (curTerminal - 1) + n := TAB_BYTE]
              else
                keyboardIndex[..] == old(keyboardIndex[..]) && keyboardBuffer[..] == old(keyboardBuffer[..])
    {
      written := false;
      if keyboardIndex[curTerminal - 1] + 2 < BUFFER_SIZE {
        PutByte(TAB_BYTE);
        written := true;
      }
    }

    /** The tab key. It prints a space for every byte. */
    method InsertTab(screenX: int) returns (spaces: nat)
      requires Valid()
      modifies this`lines, keyboardBuffer, keyboardIndex
      ensures Valid() && View() == Tabbed(old(View()), screenX + TAB_SPACE < MAX_LINE)
      ensures var len := Len(old(Current(View())));
              spaces == if len + TAB_SPACE < BUFFER_SIZE && screenX + TAB_SPACE < MAX_LINE then TabWidth(len) else 0
    {
      hide Text, Sound, RowsOk, BoardOk;
      ghost var t, l := curTerminal - 1, Current(View());
      RowFacts(keyboardBuffer[..], keyboardIndex[..], lines, t);
      spaces := 0;
      if keyboardIndex[curTerminal - 1] + TAB_SPACE < BUFFER_SIZE && screenX + TAB_SPACE < MAX_LINE {
        ghost var index := keyboardIndex[..];
        TabGrows(keyboardBuffer[..], index, lines, t);
        var first := TabByte();
        var second := TabByte();
        var third := TabByte();
        var fourth := TabByte();
        spaces := (if first then 1 else 0) + (if second then 1 else 0) + (if third then 1 else 0) + if fourth then 1 else 0;
        assert keyboardIndex[..] == index[t := index[t] + TabWidth(index[t])];
        lines := lines[t := l + [Tab(TabWidth(Len(l)))]];
      }
    }

    /** Takes the last byte of the displayed terminal's row. */
    method EraseByte()
      requires 1 <= curTerminal <= 3 && keyboardIndex.Length == 3 && keyboardBuffer.Length == BUFFER_BYTES
      requires 0 < keyboardIndex[curTerminal - 1] < BUFFER_SIZE
      modifies keyboardBuffer, keyboardIndex
      ensures var n := old(keyboardIndex[curTerminal - 1]);
              && keyboardIndex[..] == old(keyboardIndex[..])[curTerminal - 1 := n - 1]
              && keyboardBuffer[..] == old(keyboardBuffer[..])[BUFFER_SIZE * (curTerminal - 1) + n - 1 := NUL]
    {
      keyboardBuffer[BUFFER_SIZE * (curTerminal - 1) + keyboardIndex[curTerminal - 1] - 1] := NUL;
      keyboardIndex[curTerminal - 1] := keyboardIndex[curTerminal - 1] - 1;
    }

    /** The backspace key, and what it is to do on the screen. */
    method Backspace() returns (erasure: Erasure)
      requires Valid()
      modifies this`lines, this`newlineFlag, keyboardBuffer, keyboardIndex
      ensures Valid() && View() == Erased(old(View()))
      ensures erasure == ErasureOf(old(View()))
    {
      hide Text, Sound, RowsOk, BoardOk, Erase;
      ghost var t, l := curTerminal - 1, Current(View());
      ghost var was, index := keyboardBuffer[..], keyboardIndex[..];
      RowFacts(was, index, lines, t);
      LastByte(l);
      erasure := NoErasure;
      if keyboardIndex[curTerminal - 1] > 0 && keyboardIndex[curTerminal - 1] <= BUFFER_SIZE - 1 {
        LastOfRow(was, index, lines, t);
        RowShrinks(was, index, lines, t, newlineFlag);
        var last := keyboardBuffer[BUFFER_SIZE * (curTerminal - 1) + keyboardIndex[curTerminal - 1] - 1];
        lines := lines[t := Erase(l, newlineFlag)];
        if newlineFlag && last == NEWLINE {
          EraseByte();
          EraseByte();
          assert keyboardIndex[..] == index[t := index[t] - 2];
          newlineFlag := false;
          erasure := JoinRows;
        } else if last == TAB_BYTE {
          EraseByte();
          EraseByte();
          EraseByte();
          EraseByte();
          assert keyboardIndex[..] == index[t := index[t] - 4];
          assert keyboardBuffer[..] == ZeroedBelow(was, BUFFER_SIZE * t + index[t], 4);
          erasure := RubOut(4);
        } else {
          EraseByte();
          erasure := RubOut(1);
        }
      }
    }

    /** A key that types a character: the one appended, NUL for none. */
    method TypeKey(scanCode: int) returns (typed: byte)
      requires Valid()
      modifies this`lines, keyboardBuffer, keyboardIndex
      ensures typed == if Len(old(Current(View()))) < BUFFER_SIZE - 1 then Typed(old(View()).keys, scanCode) else NUL
      ensures Valid() && View() == Appended(old(View()), Typed(old(View()).keys, scanCode))
      ensures Typed(old(View()).keys, scanCode) == NUL ==> keyboardBuffer[..] == old(keyboardBuffer[..])
    {
      hide Text, Sound, Typed;
      ghost var t, l := curTerminal - 1, Current(View());
      RowFacts(keyboardBuffer[..], keyboardIndex[..], lines, t);
      var c := Typed(Keys(shiftFlag, capsLockFlag, ctrlFlag, altFlag, newlineFlag), scanCode);
      TypedIsOrdinary(View().keys, scanCode);
      typed := NUL;
      if c != NUL && keyboardIndex[curTerminal - 1] < BUFFER_SIZE - 1 {
        CharSound(l, c);
        Append(Char(c), c);
        typed := c;
      }
    }

    /** The shift, caps lock, control and alt flags. */
    method UpdateModifiers(scanCode: int)
      requires Valid()
      modifies this`shiftFlag, this`capsLockFlag, this`ctrlFlag, this`altFlag
      ensures Valid() && View() == old(View()).(keys := Modified(old(View()).keys, scanCode))
    {
      hide RowsOk, BoardOk;
      if scanCode == LEFT_SHIFT || scanCode == RIGHT_SHIFT {
        shiftFlag := true;
      } else if scanCode == LEFT_SHIFT_REL || scanCode == RIGHT_SHIFT_REL {
        shiftFlag := false;
      }
      if scanCode == CAPS_LOCK && !capsLockFlag {
        capsLockFlag := true;
      } else if scanCode == CAPS_LOCK && capsLockFlag {
        capsLockFlag := false;
      }
      if scanCode == CTRL {
        ctrlFlag := true;
      } else if scanCode == CTRL_REL {
        ctrlFlag := false;
      }
      if scanCode == ALT {
        altFlag := true;
      } else if scanCode == ALT_REL {
        altFlag := false;
      }
    }

    /** The interrupt up to the tab key. `echo` is what it prints; `shell` tells
        whether a terminal's own shell is running. */
    method StartKey(scanCode: int, shell: bool) returns (echo: seq<Action>)
      requires Valid()
      modifies this, keyboardBuffer, keyboardIndex, enterFlag
      ensures Valid() && View() == Started(old(View()), scanCode) && curTerminal == old(curTerminal)
      ensures echo == FirstEcho(old(View()), scanCode, shell)
      ensures scanCode == ENTER ==>
                Delivered(old(Current(View())), curTerminal - 1) && enterFlag[curTerminal - 1]
    {
      hide Text, Sound, RowsOk, BoardOk, Entered, Wrapped, Modified, HandedOver;
      echo := [];
      UpdateModifiers(scanCode);
      if scanCode == ENTER {
        EnterLine();
        echo := echo + [PutChar(NEWLINE)];
      }
      var wrapped := WrapLine();
      if wrapped {
        echo := echo + [PutChar(NEWLINE)];
      }
      if ctrlFlag && scanCode == L {
        ClearLine();
        echo := echo + [Wipe(shell)];
      }
    }

    /** The rest of the interrupt. `screenX` is the displayed terminal's column. The
        results are the terminal to display when the key selects one, 0 otherwise;
        what to erase on the screen; and then what to print. */
    method FinishKey(scanCode: int, screenX: int) returns (selected: int, erasure: Erasure, echo: seq<Action>)
      requires Valid()
      modifies this, keyboardBuffer, keyboardIndex
      ensures Valid() && View() == Finished(old(View()), scanCode, screenX + TAB_SPACE < MAX_LINE)
      ensures echo == LaterEcho(old(View()), scanCode, screenX + TAB_SPACE < MAX_LINE)
      ensures erasure == if scanCode == BACKSPACE then ErasureOf(old(View())) else NoErasure
      ensures selected == if old(altFlag) && F1 <= scanCode <= F3 then scanCode - F_OFFSET else 0
      ensures curTerminal == if selected != 0 then selected else old(curTerminal)
      ensures scanCode == ENTER ==> keyboardBuffer[..] == old(keyboardBuffer[..])
    {
      hide Text, Sound, RowsOk, BoardOk, Tabbed, Erased, Appended, Typed, HandedOver;
      EnterTypesNothing(scanCode);
      var spaces := 0;
      if scanCode == TAB {
        spaces := InsertTab(screenX);
      }
      erasure := NoErasure;
      if scanCode == BACKSPACE {
        erasure := Backspace();
      }
      var typed := TypeKey(scanCode);
      echo := seq(spaces, _ => PutChar(BLANK)) + if typed != NUL then [PutChar(typed)] else [];
      selected := 0;
      if altFlag && (scanCode == F1 || scanCode == F1 + 1 || scanCode == F3) {
        selected := scanCode - F_OFFSET;
        curTerminal := selected;
      }
    }

    /** One keyboard interrupt on the line buffer. The column test of the tab key
        comes after what was printed first. */
    method KeyboardHandler(scanCode: int, shell: bool, screenX: int)
      returns (selected: int, firstEcho: seq<Action>, erasure: Erasure, laterEcho: seq<Action>)
      requires Valid()
      modifies this, keyboardBuffer, keyboardIndex, enterFlag
      ensures Valid() && View() == Press(old(View()), scanCode, screenX + TAB_SPACE < MAX_LINE)
      ensures firstEcho == FirstEcho(old(View()), scanCode, shell)
      ensures laterEcho == LaterEcho(Started(old(View()), scanCode), scanCode, screenX + TAB_SPACE < MAX_LINE)
      ensures erasure == if scanCode == BACKSPACE then ErasureOf(Started(old(View()), scanCode)) else NoErasure
      ensures selected == if Started(old(View()), scanCode).keys.alt && F1 <= scanCode <= F3 then scanCode - F_OFFSET else 0
      ensures curTerminal == if selected != 0 then selected else old(curTerminal)
      ensures scanCode == ENTER ==> Delivered(old(Current(View())), old(curTerminal) - 1) && enterFlag[old(curTerminal) - 1]
    {
      hide RowsOk, BoardOk, Started, Finished, FirstEcho, LaterEcho, HandedOver;
      firstEcho := StartKey(scanCode, shell);
      selected, erasure, laterEcho := FinishKey(scanCode, screenX);
    }
  }

  // ------------------------------------------------------------------
  // What each edit does to the rows
  // ------------------------------------------------------------------

  ghost predicate HandedOver(buf: seq<byte>, l: Line, t: int)
    requires |buf| == BUFFER_BYTES && 0 <= t < NUM_TERMINALS && Len(l) < BUFFER_SIZE
  {
    var row := BUFFER_SIZE * t;
    buf[row..row + Len(l)] == Text(l) && buf[row + Len(l)] == NEWLINE && buf[row + Len(l) + 1] == NUL
  }

  /** Byte by byte: from the start of row `t` the line, a line feed and a zero. */
  lemma HandedOverBytes(buf: seq<byte>, l: Line, t: int)
    requires |buf| == BUFFER_BYTES && 0 <= t < 3 && Len(l) < BUFFER_SIZE && HandedOver(buf, l, t)
    ensures 127 * t + Len(l) + 1 < |buf|
    ensures buf[127 * t..127 * t + Len(l) + 2] == Text(l) + [10, 0]
  {
  }

  lemma EnterTypesNothing(scanCode: int)
    ensures scanCode == ENTER ==> forall k' :: Typed(k', scanCode) == NUL
  {
  }

  lemma BreakSound(l: Line)
    requires Sound(l) && Len(l) == MAX_LINE
    ensures Sound(l + [Break]) && Spelled(Break) == [NEWLINE]
  {
    Snoc(l, Break);
    SoundLength(l);
  }

  lemma CharSound(l: Line, c: byte)
    requires Sound(l) && c != TAB_BYTE && c != NEWLINE
    ensures Sound(l + [Char(c)]) && Spelled(Char(c)) == [c]
  {
    Snoc(l, Char(c));
    SoundLength(l);
  }

  /** The rows after Enter. */
  lemma LineHandedOver(buf: seq<byte>, index: seq<int>, lines: seq<Line>, t: int)
    requires RowsOk(buf, index, lines) && 0 <= t < NUM_TERMINALS
    ensures |buf| == BUFFER_BYTES && 0 <= BUFFER_SIZE * t + index[t] && BUFFER_SIZE * t + index[t] + 1 < BUFFER_BYTES
    ensures var at := BUFFER_SIZE * t + index[t];
            var buf' := buf[at := NEWLINE][at + 1 := NUL];
            var lines' := lines[t := []];
            && HandedOver(buf', lines[t], t)
            && RowsOk(buf', index[t := 0],
                      if index[t] == BUFFER_SIZE - 1 && t < 2 then lines'[t + 1 := ZeroFirst(lines'[t + 1])] else lines')
  {
    assert RowOk(buf, index[t], lines[t], t);
    var at := BUFFER_SIZE * t + index[t];
    var buf1 := buf[at := NEWLINE];
    var lines' := lines[t := []];
    assert OnlyRow(buf, buf1, t) && RowOk(buf1, 0, [], t);
    RowChanges(buf, buf1, index, lines, t, []);
    var buf' := buf1[at + 1 := NUL];
    if index[t] == BUFFER_SIZE - 1 && t < 2 {
      NextRowZeroed(buf1, index[t := 0], lines', t + 1);
    } else {
      assert t < 2 ==> OnlyRow(buf1, buf', t);
      LastRow(buf1, buf', index[t := 0], lines', t);
    }
  }

  /** A byte in the unused part of row `t`, or after the last row, is no matter. */
  lemma LastRow(buf: seq<byte>, buf': seq<byte>, index: seq<int>, lines: seq<Line>, t: int)
    requires RowsOk(buf, index, lines) && 0 <= t < NUM_TERMINALS && lines[t] == [] && |buf'| == |buf|
    requires forall j :: 0 <= j < |buf| && j < BUFFER_SIZE * t ==> buf'[j] == buf[j]
    requires t < 2 ==> OnlyRow(buf, buf', t)
    ensures RowsOk(buf', index, lines)
  {
    forall u | 0 <= u < NUM_TERMINALS
      ensures RowOk(buf', index[u], lines[u], u)
    {
      assert RowOk(buf, index[u], lines[u], u);
      var row, n := BUFFER_SIZE * u, Len(lines[u]);
      if u != t {
        assert t == 2 ==> row + BUFFER_SIZE <= BUFFER_SIZE * t;
        if t < 2 {
          SameRow(buf, buf', u, n, t);
        } else {
          assert buf'[row..row + n] == buf[row..row + n];
        }
      }
    }
  }

  lemma RowEmptied(buf: seq<byte>, buf': seq<byte>, index: seq<int>, lines: seq<Line>, t: int)
    requires RowsOk(buf, index, lines) && 0 <= t < NUM_TERMINALS && OnlyRow(buf, buf', t)
    ensures RowsOk(buf', index[t := 0], lines[t := []])
  {
    assert RowOk(buf', 0, [], t);
    RowChanges(buf, buf', index, lines, t, []);
  }

  /** The rows after a tab: three or four bytes more. */
  lemma TabGrows(buf: seq<byte>, index: seq<int>, lines: seq<Line>, t: int)
    requires RowsOk(buf, index, lines) && 0 <= t < NUM_TERMINALS && index[t] + TAB_SPACE < BUFFER_SIZE
    ensures |buf| == BUFFER_BYTES && 0 <= index[t] && BUFFER_SIZE * t + index[t] + TAB_SPACE < BUFFER_BYTES
    ensures var at := BUFFER_SIZE * t + index[t];
            var three := buf[at := TAB_BYTE][at + 1 := TAB_BYTE][at + 2 := TAB_BYTE];
            var buf' := if index[t] == 122 then three else three[at + 3 := TAB_BYTE];
            RowsOk(buf', index[t := index[t] + TabWidth(index[t])], lines[t := lines[t] + [Tab(TabWidth(index[t]))]])
  {
    hide Sound, Text, Tabs;
    assert RowOk(buf, index[t], lines[t], t);
    var l, n, row := lines[t], index[t], BUFFER_SIZE * t;
    var at, w := row + n, TabWidth(n);
    var three := buf[at := TAB_BYTE][at + 1 := TAB_BYTE][at + 2 := TAB_BYTE];
    var buf' := if n == 122 then three else three[at + 3 := TAB_BYTE];
    Snoc(l, Tab(w));
    SoundLength(l);
    assert buf'[row..row + n + w] == buf[row..row + n] + Spelled(Tab(w));
    assert OnlyRow(buf, buf', t);
    RowChanges(buf, buf', index, lines, t, l + [Tab(w)]);
  }

  /** The last byte of a row is the last byte of its line. */
  lemma LastOfRow(buf: seq<byte>, index: seq<int>, lines: seq<Line>, t: int)
    requires RowsOk(buf, index, lines) && 0 <= t < NUM_TERMINALS && index[t] > 0
    ensures |buf| == BUFFER_BYTES && Len(lines[t]) == index[t] < BUFFER_SIZE
    ensures buf[BUFFER_SIZE * t + index[t] - 1] == Text(lines[t])[index[t] - 1]
  {
    assert RowOk(buf, index[t], lines[t], t);
    var row := BUFFER_SIZE * t;
    assert buf[row..row + Len(lines[t])][index[t] - 1] == buf[row + index[t] - 1];
  }

  /** The rows after backspace: one, two or four bytes zeroed and dropped. */
  lemma RowShrinks(buf: seq<byte>, index: seq<int>, lines: seq<Line>, t: int, newline: bool)
    requires RowsOk(buf, index, lines) && 0 <= t < NUM_TERMINALS && lines[t] != []
    ensures |buf| == BUFFER_BYTES && index[t] < BUFFER_SIZE
    ensures var l := lines[t];
            var n := if newline && Last(l).Break? then 2 else if Last(l).Tab? then 4 else 1;
            && n <= index[t]
            && RowsOk(ZeroedBelow(buf, BUFFER_SIZE * t + index[t], n), index[t := index[t] - n],
                      lines[t := Erase(l, newline)])
  {
    hide Text, Sound, Erase;
    assert RowOk(buf, index[t], lines[t], t);
    hide RowsOk, OnlyRow;
    var l, row := lines[t], BUFFER_SIZE * t;
    var n := if newline && Last(l).Break? then 2 else if Last(l).Tab? then 4 else 1;
    EraseCuts(l, newline);
    var buf' := ZeroedBelow(buf, row + index[t], n);
    ZeroedRow(buf, t, index[t], n);
    RowChanges(buf, buf', index, lines, t, Erase(l, newline));
  }

  lemma ZeroedRow(buf: seq<byte>, t: int, len: int, n: int)
    requires n in {1, 2, 4} && n <= len < BUFFER_SIZE && |buf| == BUFFER_BYTES && 0 <= t < NUM_TERMINALS
    ensures var row := BUFFER_SIZE * t;
            var buf' := ZeroedBelow(buf, row + len, n);
            buf'[row..row + len - n] == buf[row..row + len][..len - n] && OnlyRow(buf, buf', t)
  {
  }

  /** The `n` bytes before position `end` zeroed, from the last one down. */
  function ZeroedBelow(buf: seq<byte>, end: int, n: int): (r: seq<byte>)
    requires 0 <= n <= end <= |buf| && n in {1, 2, 4}
    ensures |r| == |buf|
    ensures forall j :: 0 <= j < |buf| ==> r[j] == if end - n <= j < end then NUL else buf[j]
  {
    var one := buf[end - 1 := NUL];
    if n == 1 then one
    else
      var two := one[end - 2 := NUL];
      if n == 2 then two else two[end - 3 := NUL][end - 4 := NUL]
  }
}
