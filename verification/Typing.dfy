/** What the keys do, said with scan codes and characters: which byte each key
    types, what the modifier keys keep track of, what each kind of key does to
    the line, and that the screen echoes what the line got. */
module Typing {
  import opened Bytes
  import opened Terminals
  import opened LineEditor

  // ------------------------------------------------------------------
  // Which byte a key types
  // ------------------------------------------------------------------

  /** The keys with the 26 letters. */
  predicate IsLetter(scan: int) {
    16 <= scan <= 25 || 30 <= scan <= 38 || 44 <= scan <= 50
  }

  predicate Plain(k: Keys) {
    !k.ctrl && !k.alt
  }

  /** The row a key is on. */
  lemma OnItsRow(k: Keys, scan: int)
    requires Plain(k)
    ensures 2 <= scan <= 13 ==> OnRow(DIGITS, scan) && Typed(k, scan) == OnKey(DIGITS, k, scan)
    ensures 16 <= scan <= 27 ==> OnRow(UPPER, scan) && Typed(k, scan) == OnKey(UPPER, k, scan)
    ensures 30 <= scan <= 41 ==> OnRow(MIDDLE, scan) && Typed(k, scan) == OnKey(MIDDLE, k, scan)
    ensures 43 <= scan <= 53 ==> OnRow(LOWER, scan) && Typed(k, scan) == OnKey(LOWER, k, scan)
    ensures scan == 57 ==> OnRow(SPACE, scan) && Typed(k, scan) == OnKey(SPACE, k, scan)
    ensures scan < 2 || scan in {14, 15, 28, 29, 42, 54, 55, 56} || scan > 57 ==> Typed(k, scan) == NUL
  {
    hide OnKey;
  }

  /** The letters of a row: `count` of them from key `from` on. */
  predicate LettersAt(row: Row, from: nat, count: nat) {
    && from + count <= |row.plain| && |row.shifted| == |row.caps| == |row.plain|
    && forall i :: from <= i < from + count ==>
                     'a' <= row.plain[i] <= 'z' && row.shifted[i] as int == row.plain[i] as int - 32
                     && row.caps[i] == row.shifted[i]
  }

  lemma UpperLetters()
    ensures LettersAt(UPPER, 0, 10) && UPPER.first == 16
  {
  }

  lemma MiddleLetters()
    ensures LettersAt(MIDDLE, 0, 9) && MIDDLE.first == 30
  {
  }

  lemma LowerLetters()
    ensures LettersAt(LOWER, 1, 7) && LOWER.first == 43
  {
  }

  lemma LetterOnRow(row: Row, from: nat, count: nat, k: Keys, scan: int)
    requires LettersAt(row, from, count) && row.first + from <= scan < row.first + from + count
    ensures OnRow(row, scan)
    ensures 97 <= OnKey(row, NO_KEYS, scan) <= 122
    ensures OnKey(row, k, scan) == OnKey(row, NO_KEYS, scan) - if k.shift != k.caps then 32 else 0
  {
  }

  /** A letter key types a lower-case letter with neither or both of shift and caps
      lock, and the same letter in upper case with exactly one of them. */
  lemma LettersFollowShiftAndCaps(k: Keys, scan: int)
    requires !k.ctrl && !k.alt && IsLetter(scan)
    ensures 97 <= Typed(NO_KEYS, scan) <= 122
    ensures Typed(k, scan) == if k.shift == k.caps then Typed(NO_KEYS, scan) else Typed(NO_KEYS, scan) - 32
  {
    hide OnKey, LettersAt, UPPER, MIDDLE, LOWER, DIGITS, SPACE, Typed, OnRow;
    OnItsRow(k, scan);
    OnItsRow(NO_KEYS, scan);
    UpperLetters();
    MiddleLetters();
    LowerLetters();
    if scan <= 25 {
      LetterOnRow(UPPER, 0, 10, k, scan);
    } else if scan <= 38 {
      LetterOnRow(MIDDLE, 0, 9, k, scan);
    } else {
      LetterOnRow(LOWER, 1, 7, k, scan);
    }
  }

  /** Caps lock leaves the other keys of a row alone. */
  predicate CapsLeaves(row: Row, from: nat, count: nat) {
    && |row.shifted| == |row.caps| == |row.plain|
    && forall i :: 0 <= i < |row.plain| && !(from <= i < from + count) ==> row.caps[i] == row.plain[i]
  }

  lemma CapsLeavesRows()
    ensures CapsLeaves(DIGITS, 0, 0) && CapsLeaves(UPPER, 0, 10) && CapsLeaves(MIDDLE, 0, 9)
    ensures CapsLeaves(LOWER, 1, 7) && CapsLeaves(SPACE, 0, 0)
  {
  }

  lemma CapsOnRow(row: Row, from: nat, count: nat, k: Keys, k': Keys, scan: int)
    requires CapsLeaves(row, from, count) && OnRow(row, scan)
    requires !(row.first + from <= scan < row.first + from + count) && !k.shift && !k'.shift
    ensures OnKey(row, k, scan) == OnKey(row, k', scan)
  {
  }

  /** On every other key caps lock alone changes nothing. */
  lemma CapsIsForLetters(k: Keys, scan: int)
    requires !k.ctrl && !k.alt && !k.shift && !IsLetter(scan)
    ensures Typed(k.(caps := true), scan) == Typed(k.(caps := false), scan)
  {
    var on, off := k.(caps := true), k.(caps := false);
    RowStarts();
    hide OnKey, CapsLeaves, UPPER, MIDDLE, LOWER, DIGITS, SPACE, Typed, OnRow;
    OnItsRow(on, scan);
    OnItsRow(off, scan);
    CapsLeavesRows();
    if 2 <= scan <= 13 {
      CapsOnRow(DIGITS, 0, 0, on, off, scan);
    } else if 16 <= scan <= 27 {
      CapsOnRow(UPPER, 0, 10, on, off, scan);
    } else if 30 <= scan <= 41 {
      CapsOnRow(MIDDLE, 0, 9, on, off, scan);
    } else if 43 <= scan <= 53 {
      CapsOnRow(LOWER, 1, 7, on, off, scan);
    } else if scan == 57 {
      CapsOnRow(SPACE, 0, 0, on, off, scan);
    }
  }

  lemma RowStarts()
    ensures DIGITS.first == 2 && UPPER.first == 16 && MIDDLE.first == 30 && LOWER.first == 43 && SPACE.first == 57
  {
  }

  // ------------------------------------------------------------------
  // The rows, pressed in order
  // ------------------------------------------------------------------

  /** The bytes of a string. */
  function Ascii(s: string): (r: seq<byte>)
    ensures |r| == |s| && forall i :: 0 <= i < |s| ==> r[i] == s[i] as int % 256
  {
    seq(|s|, i requires 0 <= i < |s| => s[i] as int % 256)
  }

  /** Keys from `first` on type this string. */
  predicate Types(k: Keys, first: int, s: string) {
    forall i :: 0 <= i < |s| ==> Typed(k, first + i) == s[i] as int % 256 != NUL
  }

  lemma DigitRow(k: Keys)
    requires Plain(k) && !k.caps
    ensures Types(k, 2, if k.shift then "!@#$%^&*()_+" else "1234567890-=")
  {
    var s := if k.shift then "!@#$%^&*()_+" else "1234567890-=";
    forall i | 0 <= i < |s|
      ensures Typed(k, 2 + i) == s[i] as int % 256 != NUL
    {
      OnItsRow(k, 2 + i);
    }
  }

  lemma UpperRow(k: Keys)
    requires Plain(k) && !k.caps
    ensures Types(k, 16, if k.shift then "QWERTYUIOP{}" else "qwertyuiop[]")
  {
    var s := if k.shift then "QWERTYUIOP{}" else "qwertyuiop[]";
    forall i | 0 <= i < |s|
      ensures Typed(k, 16 + i) == s[i] as int % 256 != NUL
    {
      OnItsRow(k, 16 + i);
    }
  }

  lemma MiddleRow(k: Keys)
    requires Plain(k) && !k.caps
    ensures Types(k, 30, if k.shift then "ASDFGHJKL:\"~" else "asdfghjkl;'`")
  {
    var s := if k.shift then "ASDFGHJKL:\"~" else "asdfghjkl;'`";
    forall i | 0 <= i < |s|
      ensures Typed(k, 30 + i) == s[i] as int % 256 != NUL
    {
      OnItsRow(k, 30 + i);
    }
  }

  lemma LowerRow(k: Keys)
    requires Plain(k) && !k.caps
    ensures Types(k, 43, if k.shift then "|ZXCVBNM<>?" else "\\zxcvbnm,./")
  {
    var s := if k.shift then "|ZXCVBNM<>?" else "\\zxcvbnm,./";
    forall i | 0 <= i < |s|
      ensures Typed(k, 43 + i) == s[i] as int % 256 != NUL
    {
      OnItsRow(k, 43 + i);
    }
  }

  lemma SpaceBar(k: Keys)
    requires Plain(k)
    ensures Types(k, 57, " ")
  {
    OnItsRow(k, 57);
  }

  /** `n` keys, one after the other. */
  function KeysFrom(first: int, n: nat): seq<(int, bool)> {
    seq(n, i => (first + i, true))
  }

  /** Pressing such keys appends the string to a line that stays short. */
  lemma {:induction false} PressingTypes(b: Board, first: int, s: string)
    requires BoardOk(b) && Plain(b.keys) && Types(b.keys, first, s) && Len(Current(b)) + |s| <= MAX_LINE
    requires forall scan :: first <= scan < first + |s| ==> OrdinaryKey(scan)
    ensures var r := PressAll(b, KeysFrom(first, |s|));
            r.keys == b.keys && r.cur == b.cur && Text(Current(r)) == Text(Current(b)) + Ascii(s)
    decreases |s|
  {
    hide Press, Typed, Modified, BoardOk, Sound, OrdinaryKey, Text, Types, Ascii;
    if s == "" {
      NoKeys(b, first);
    } else {
      var c := Ascii(s)[0];
      FirstOf(b.keys, first, s);
      PressingOne(b, first, c);
      var keys := KeysFrom(first, |s|);
      assert keys[0] == (first, true) && keys[1..] == KeysFrom(first + 1, |s| - 1);
      PressingTypes(Press(b, first, true), first + 1, s[1..]);
      Regrouped(Text(Current(b)), [c], Ascii(s[1..]));
    }
  }

  lemma NoKeys(b: Board, first: int)
    requires BoardOk(b)
    ensures PressAll(b, KeysFrom(first, 0)) == b && Ascii("") == []
  {
    assert KeysFrom(first, 0) == [];
  }

  lemma Regrouped(a: seq<byte>, b: seq<byte>, c: seq<byte>)
    ensures (a + b) + c == a + (b + c)
  {
  }

  lemma FirstOf(k: Keys, first: int, s: string)
    requires s != "" && Types(k, first, s)
    ensures Types(k, first + 1, s[1..])
    ensures Typed(k, first) == Ascii(s)[0] != NUL && Ascii(s) == [Ascii(s)[0]] + Ascii(s[1..])
  {
    TypesRest(k, first, s);
    assert Typed(k, first + 0) == s[0] as int % 256 != NUL;
  }

  lemma PressingOne(b: Board, scan: int, c: byte)
    requires BoardOk(b) && Plain(b.keys) && OrdinaryKey(scan) && Typed(b.keys, scan) == c != NUL
    requires Len(Current(b)) < MAX_LINE
    ensures var r := Press(b, scan, true);
            r.keys == b.keys && r.cur == b.cur && Text(Current(r)) == Text(Current(b)) + [c]
  {
    hide Press, Typed, Modified, BoardOk, Sound, Text;
    OrdinaryKeys(b.keys, scan);
    PressTypes(b, scan, true);
    Snoc(Current(b), Char(c));
  }

  lemma TypesRest(k: Keys, first: int, s: string)
    requires s != "" && Types(k, first, s)
    ensures Types(k, first + 1, s[1..])
  {
    forall i | 0 <= i < |s[1..]|
      ensures Typed(k, first + 1 + i) == s[1..][i] as int % 256 != NUL
    {
      assert s[1..][i] == s[i + 1];
      assert Typed(k, first + (i + 1)) == s[i + 1] as int % 256 != NUL;
    }
  }

  predicate OrdinaryKey(scan: int) {
    2 <= scan <= 13 || 16 <= scan <= 27 || 30 <= scan <= 41 || 43 <= scan <= 53 || scan == 57
  }

  lemma OrdinaryKeys(k: Keys, scan: int)
    requires OrdinaryKey(scan)
    ensures Modified(k, scan) == k && scan !in {ENTER, TAB, BACKSPACE} && !(F1 <= scan <= F3)
  {
  }

  /** All keys that type something, in the order of their scan codes. */
  function AllKeys(): seq<(int, bool)> {
    KeysFrom(2, 12) + KeysFrom(16, 12) + KeysFrom(30, 12) + KeysFrom(43, 11) + KeysFrom(57, 1)
  }

  lemma {:induction false} PressAllSplits(b: Board, x: seq<(int, bool)>, y: seq<(int, bool)>)
    requires BoardOk(b)
    ensures PressAll(b, x + y) == PressAll(PressAll(b, x), y)
    decreases |x|
  {
    hide Press, BoardOk;
    if x == [] {
      assert x + y == y;
    } else {
      assert (x + y)[1..] == x[1..] + y;
      PressAllSplits(Press(b, x[0].0, x[0].1), x[1..], y);
    }
  }

  lemma PressingRows(b: Board, s1: string, s2: string, s3: string, s4: string, s5: string)
    requires BoardOk(b) && Plain(b.keys) && Text(Current(b)) == []
    requires Types(b.keys, 2, s1) && Types(b.keys, 16, s2) && Types(b.keys, 30, s3) && Types(b.keys, 43, s4)
    requires Types(b.keys, 57, s5) && |s1| == |s2| == |s3| == 12 && |s4| == 11 && |s5| == 1
    ensures Text(Current(PressAll(b, AllKeys()))) == Ascii(s1) + Ascii(s2) + Ascii(s3) + Ascii(s4) + Ascii(s5)
  {
    hide Types, Typed, PressAll, KeysFrom, Sound, Text, BoardOk;
    var r1, r2, r3, r4, r5 := KeysFrom(2, 12), KeysFrom(16, 12), KeysFrom(30, 12), KeysFrom(43, 11), KeysFrom(57, 1);
    PressingTypes(b, 2, s1);
    var b1 := PressAll(b, r1);
    assert Text(Current(b1)) == Ascii(s1);
    PressingTypes(b1, 16, s2);
    var b2 := PressAll(b1, r2);
    PressingTypes(b2, 30, s3);
    var b3 := PressAll(b2, r3);
    PressingTypes(b3, 43, s4);
    var b4 := PressAll(b3, r4);
    PressingTypes(b4, 57, s5);
    PressAllSplits(b, r1, r2);
    PressAllSplits(b, r1 + r2, r3);
    PressAllSplits(b, r1 + r2 + r3, r4);
    PressAllSplits(b, r1 + r2 + r3 + r4, r5);
  }

  /** Pressed on the empty board without modifiers they give this line. */
  lemma AllKeysSpell()
    ensures Text(Current(PressAll(EMPTY_BOARD, AllKeys())))
            == Ascii("1234567890-=") + Ascii("qwertyuiop[]") + Ascii("asdfghjkl;'`") + Ascii("\\zxcvbnm,./") + Ascii(" ")
  {
    DigitRow(NO_KEYS);
    UpperRow(NO_KEYS);
    MiddleRow(NO_KEYS);
    LowerRow(NO_KEYS);
    SpaceBar(NO_KEYS);
    hide Types;
    PressingRows(EMPTY_BOARD, "1234567890-=", "qwertyuiop[]", "asdfghjkl;'`", "\\zxcvbnm,./", " ");
  }

  /** And with shift this one. */
  lemma AllKeysSpellWithShift()
    ensures var b := EMPTY_BOARD.(keys := NO_KEYS.(shift := true));
            BoardOk(b) &&
            Text(Current(PressAll(b, AllKeys())))
            == Ascii("!@#$%^&*()_+") + Ascii("QWERTYUIOP{}") + Ascii("ASDFGHJKL:\"~") + Ascii("|ZXCVBNM<>?") + Ascii(" ")
  {
    var k := NO_KEYS.(shift := true);
    DigitRow(k);
    UpperRow(k);
    MiddleRow(k);
    LowerRow(k);
    SpaceBar(k);
    hide Types;
    PressingRows(EMPTY_BOARD.(keys := k), "!@#$%^&*()_+", "QWERTYUIOP{}", "ASDFGHJKL:\"~", "|ZXCVBNM<>?", " ");
  }

  // ------------------------------------------------------------------
  // What each kind of key does
  // ------------------------------------------------------------------

  /** Shift is held from 2A or 36 to AA or B6, control from 1D to 9D, alt from 38
      to B8, and 3A turns caps lock over. */
  lemma PressModifies(b: Board, scan: int, fits: bool)
    requires BoardOk(b)
    ensures var k, k' := b.keys, Press(b, scan, fits).keys;
            && k'.shift == (scan == 0x2A || scan == 0x36 || (k.shift && scan != 0xAA && scan != 0xB6))
            && k'.caps == (k.caps != (scan == 0x3A))
            && k'.ctrl == (scan == 0x1D || (k.ctrl && scan != 0x9D))
            && k'.alt == (scan == 0x38 || (k.alt && scan != 0xB8))
  {
    hide Typed, Sound, Text;
    StartedKeys(b, scan);
    FinishedKeys(Started(b, scan), scan, fits);
  }

  lemma StartedKeys(b: Board, scan: int)
    requires BoardOk(b)
    ensures Started(b, scan).cur == b.cur
    ensures Started(b, scan).keys.(newline := b.keys.newline) == Modified(b.keys, scan)
  {
  }

  lemma FinishedKeys(b: Board, scan: int, fits: bool)
    requires BoardOk(b)
    ensures Finished(b, scan, fits).keys.(newline := b.keys.newline) == b.keys
  {
    hide Typed;
  }

  /** Alt with 3B, 3C and 3D displays terminals 1, 2 and 3; no other key does. */
  lemma PressSelects(b: Board, scan: int, fits: bool)
    requires BoardOk(b)
    ensures var r := Press(b, scan, fits);
            if (b.keys.alt && scan != 0xB8) && 0x3B <= scan <= 0x3D then
              r.cur == if scan == 0x3B then 1 else if scan == 0x3C then 2 else 3
            else r.cur == b.cur
  {
    hide Typed, Sound, Text;
    StartedKeys(b, scan);
    FinishedKeys(Started(b, scan), scan, fits);
  }

  /** Enter, 1C, empties the line; on a line of 126 bytes it zeroes the first byte
      of the next terminal's line; it changes nothing else. */
  lemma PressEnters(b: Board, fits: bool)
    requires BoardOk(b)
    ensures var r := Press(b, 0x1C, fits);
            && r.lines[b.cur - 1] == []
            && forall t :: 0 <= t < 3 && t != b.cur - 1 ==>
                 if t == b.cur && Len(b.lines[b.cur - 1]) == 126 && b.lines[t] != [] then
                   Len(b.lines[t]) > 0 && Text(r.lines[t]) == Text(b.lines[t])[0 := NUL]
                 else r.lines[t] == b.lines[t]
  {
    hide Text, Sound;
    EmptyLine();
    if b.cur < 3 && b.lines[b.cur] != [] {
      ZeroFirstText(b.lines[b.cur]);
    }
    NoCharacter(b.keys);
  }

  lemma NoCharacter(k: Keys)
    ensures forall k': Keys :: Typed(k', 0x1C) == NUL
    ensures forall k': Keys :: k'.ctrl || k'.alt ==> Typed(k', 0x26) == NUL
  {
  }

  /** Control with 26 empties the line and touches no other. */
  lemma PressClears(b: Board, fits: bool)
    requires BoardOk(b) && b.keys.ctrl
    ensures var r := Press(b, 0x26, fits);
            r.lines[b.cur - 1] == [] && forall t :: 0 <= t < 3 && t != b.cur - 1 ==> r.lines[t] == b.lines[t]
  {
    hide Text, Sound, Typed;
    EmptyLine();
    NoCharacter(b.keys);
  }

  /** Every key but Enter leaves the lines of the other terminals alone. */
  lemma PressKeepsOthers(b: Board, scan: int, fits: bool, t: int)
    requires BoardOk(b) && scan != 0x1C && 0 <= t < 3 && t != b.cur - 1
    ensures Press(b, scan, fits).lines[t] == b.lines[t]
  {
    hide Text, Sound, Typed;
  }

  // ------------------------------------------------------------------
  // The echo
  // ------------------------------------------------------------------

  function Prints(s: seq<byte>): seq<Action> {
    seq(|s|, i requires 0 <= i < |s| => PutChar(s[i]))
  }

  lemma {:induction false} FoldPrints(t: Term, s: seq<byte>)
    requires Ok(t)
    ensures Fold(t, Prints(s)) == PutAll(t, s)
    decreases |s|
  {
    if s != [] {
      assert Prints(s)[1..] == Prints(s[1..]);
      FoldPrints(Put(t, s[0]), s[1..]);
    }
  }

  lemma PrintsAppend(a: seq<byte>, b: seq<byte>)
    ensures Prints(Spaced(a)) + Prints(Spaced(b)) == Prints(Spaced(a + b))
  {
  }

  lemma PrintsOne(c: byte)
    requires c != 9
    ensures Prints(Spaced([c])) == [PutChar(c)] && Prints(Spaced([])) == []
  {
  }

  /** The bytes a key adds to the line of the terminal displayed. */
  ghost predicate Adds(b: Board, scan: int, fits: bool, added: seq<byte>)
    requires BoardOk(b)
  {
    Text(Press(b, scan, fits).lines[b.cur - 1]) == Text(b.lines[b.cur - 1]) + added
  }

  /** But for Enter, backspace and Ctrl-L, what a key adds to the line is what it
      prints: the soft break as a new line, a tab as one space for each byte, a
      character as itself. */
  lemma EchoIsWhatWasAdded(b: Board, scan: int, fits: bool, shell: bool) returns (added: seq<byte>)
    requires BoardOk(b) && scan != 0x1C && scan != 0x0E && (scan == 0x26 ==> !b.keys.ctrl)
    ensures Adds(b, scan, fits, added)
    ensures FirstEcho(b, scan, shell) + LaterEcho(Started(b, scan), scan, fits) == Prints(Spaced(added))
  {
    hide Sound, FirstEcho, LaterEcho, Started, Finished, Text, Prints, Spaced, Typed, Current;
    var l, mid := Current(b), Started(b, scan);
    var first := if Len(l) == MAX_LINE then [NEWLINE] else [];
    StartAdds(b, scan, shell);
    var later := LaterAdds(mid, scan, fits);
    PrintsAppend(first, later);
    added := first + later;
    Regrouped(Text(l), first, later);
    CurrentLine(b);
  }

  lemma CurrentLine(b: Board)
    requires BoardOk(b)
    ensures Current(b) == b.lines[b.cur - 1]
  {
  }

  lemma StartAdds(b: Board, scan: int, shell: bool)
    requires BoardOk(b) && scan != 0x1C && (scan == 0x26 ==> !b.keys.ctrl)
    ensures var first := if Len(Current(b)) == MAX_LINE then [NEWLINE] else [];
            && Text(Current(Started(b, scan))) == Text(Current(b)) + first
            && FirstEcho(b, scan, shell) == Prints(Spaced(first)) && Started(b, scan).cur == b.cur
  {
    hide Sound, Prints, Spaced, Text, FirstEcho, Started;
    PrintsOne(NEWLINE);
    StartedLine(b, scan);
    FirstEchoParts(b, scan, shell);
    Snoc(Current(b), Break);
    assert Text(Current(b)) + [] == Text(Current(b));
  }

  lemma StartedLine(b: Board, scan: int)
    requires BoardOk(b) && scan != 0x1C && (scan == 0x26 ==> !b.keys.ctrl)
    ensures Current(Started(b, scan)) == if Len(Current(b)) == MAX_LINE then Current(b) + [Break] else Current(b)
    ensures Started(b, scan).cur == b.cur
  {
    hide Sound, Text;
  }

  lemma FirstEchoParts(b: Board, scan: int, shell: bool)
    requires BoardOk(b) && scan != 0x1C && (scan == 0x26 ==> !b.keys.ctrl)
    ensures FirstEcho(b, scan, shell) == if Len(Current(b)) == MAX_LINE then [PutChar(NEWLINE)] else []
  {
    hide Sound, Text;
  }

  /** Spaces, then a character. */
  lemma LaterEchoParts(b: Board, scan: int, fits: bool)
    requires BoardOk(b)
    ensures var l, mid := Current(b), Edited(b, scan, fits);
            var tabs: nat := if scan == TAB && Len(l) + TAB_SPACE < BUFFER_SIZE && fits then TabWidth(Len(l)) else 0;
            var c := Typed(mid.keys, scan);
            LaterEcho(b, scan, fits)
            == seq(tabs, _ => PutChar(BLANK)) + if c != NUL && Len(Current(mid)) < BUFFER_SIZE - 1 then [PutChar(c)] else []
  {
    hide Sound, Text, Typed, Edited;
  }

  lemma LaterAdds(b: Board, scan: int, fits: bool) returns (later: seq<byte>)
    requires BoardOk(b) && scan != 0x0E
    ensures Text(Finished(b, scan, fits).lines[b.cur - 1]) == Text(Current(b)) + later
    ensures LaterEcho(b, scan, fits) == Prints(Spaced(later))
  {
    hide Sound, Typed, Prints, Spaced, Text, Edited, Appended, Finished, LaterEcho, BoardOk;
    var l := Current(b);
    var mid := Edited(b, scan, fits);
    var tabs: nat := if scan == TAB && Len(l) + TAB_SPACE < BUFFER_SIZE && fits then TabWidth(Len(l)) else 0;
    var c := Typed(mid.keys, scan);
    TypedIsOrdinary(mid.keys, scan);
    EditedLine(b, scan, fits, tabs);
    FinishedLine(b, scan, fits);
    LaterEchoParts(b, scan, fits);
    later := OneStep(l, Current(mid), tabs, c, Len(Current(mid)) < BUFFER_SIZE - 1);
  }

  /** Tabs and then a character, on the line and on the screen. */
  lemma OneStep(l: Line, mid: Line, tabs: nat, c: byte, room: bool) returns (later: seq<byte>)
    requires Text(mid) == Text(l) + seq(tabs, _ => TAB_BYTE) && c != 9
    ensures Text(if c != NUL && room then mid + [Char(c)] else mid) == Text(l) + later
    ensures seq(tabs, _ => PutChar(BLANK)) + (if c != NUL && room then [PutChar(c)] else []) == Prints(Spaced(later))
  {
    hide Text, Prints, Spaced;
    var first := seq(tabs, _ => TAB_BYTE);
    var second := if c != NUL && room then [c] else [];
    Snoc(mid, Char(c));
    TabEcho(tabs);
    PrintsOne(c);
    PrintsAppend(first, second);
    Regrouped(Text(l), first, second);
    assert Text(mid) + [] == Text(mid);
    later := first + second;
  }

  lemma TabEcho(n: nat)
    ensures seq(n, _ => PutChar(BLANK)) == Prints(Spaced(seq(n, _ => TAB_BYTE)))
  {
  }

  lemma EditedLine(b: Board, scan: int, fits: bool, tabs: nat)
    requires BoardOk(b) && scan != 0x0E
    requires tabs == if scan == TAB && Len(Current(b)) + TAB_SPACE < BUFFER_SIZE && fits then TabWidth(Len(Current(b))) else 0
    ensures var mid := Edited(b, scan, fits);
            Text(Current(mid)) == Text(Current(b)) + seq(tabs, _ => TAB_BYTE) && mid.cur == b.cur && mid.keys == b.keys
  {
    hide Sound;
    Snoc(Current(b), Tab(tabs));
    assert Text(Current(b)) + [] == Text(Current(b));
  }

  lemma FinishedLine(b: Board, scan: int, fits: bool)
    requires BoardOk(b) && scan != 0x0E
    ensures var mid := Edited(b, scan, fits);
            var c := Typed(mid.keys, scan);
            Finished(b, scan, fits).lines[b.cur - 1]
            == if c != NUL && Len(Current(mid)) < BUFFER_SIZE - 1 then Current(mid) + [Char(c)] else Current(mid)
  {
    hide Sound, Typed, Text;
  }

  /** Enter prints a line feed. */
  lemma EnterEcho(b: Board, shell: bool, fits: bool)
    requires BoardOk(b)
    ensures FirstEcho(b, 0x1C, shell) == [PutChar(10)] && LaterEcho(Started(b, 0x1C), 0x1C, fits) == []
  {
    hide Sound, Text, Typed;
    EmptyLine();
    NoCharacter(b.keys);
  }

  /** Ctrl-L clears the screen, after the soft break if there is one. */
  lemma ClearEcho(b: Board, shell: bool, fits: bool)
    requires BoardOk(b) && b.keys.ctrl
    ensures FirstEcho(b, 0x26, shell) == (if Len(Current(b)) == 73 then [PutChar(10)] else []) + [Wipe(shell)]
    ensures LaterEcho(Started(b, 0x26), 0x26, fits) == []
  {
    hide Sound, Text, Typed;
    EmptyLine();
    NoCharacter(b.keys);
  }

  /** What the tab key adds, off the soft break. */
  lemma TabAdds(b: Board, fits: bool)
    requires BoardOk(b) && Plain(b.keys) && Len(Current(b)) != 73
    ensures var len := Len(Current(b));
            Adds(b, 0x0F, fits, if fits && len < 123 then seq(if len == 122 then 3 else 4, _ => 9) else [])
  {
    hide Sound;
    StartedTab(b);
    var l := Current(b);
    var tabs: nat := if Len(l) + TAB_SPACE < BUFFER_SIZE && fits then TabWidth(Len(l)) else 0;
    hide Started, Typed, Text;
    EditedLine(b, 0x0F, fits, tabs);
    NothingTyped(Edited(b, 0x0F, fits).keys);
    FinishedLine(b, 0x0F, fits);
    CurrentLine(b);
    assert seq(0, _ => TAB_BYTE) == [];
    assert seq(3, _ => TAB_BYTE) == seq(3, _ => 9) && seq(4, _ => TAB_BYTE) == seq(4, _ => 9);
  }

  lemma StartedTab(b: Board)
    requires BoardOk(b) && Plain(b.keys) && Len(Current(b)) != 73
    ensures Started(b, 0x0F) == b
  {
    hide Sound, Text;
    assert b.(keys := Modified(b.keys, 0x0F)) == b;
  }

  /** Backspace off the soft break prints nothing, and looks at the line as it is. */
  lemma BackspaceStarts(b: Board, shell: bool)
    requires BoardOk(b) && Plain(b.keys) && Len(Current(b)) != 73
    ensures Started(b, 0x0E) == b && FirstEcho(b, 0x0E, shell) == []
  {
    hide Sound, Text;
    assert b.(keys := Modified(b.keys, 0x0E)) == b;
  }

  lemma BackspaceEchoes(b: Board, fits: bool)
    requires BoardOk(b) && Plain(b.keys)
    ensures LaterEcho(b, 0x0E, fits) == []
  {
    hide Sound, Text, Typed;
    NothingTyped(Edited(b, 0x0E, fits).keys);
  }
}
