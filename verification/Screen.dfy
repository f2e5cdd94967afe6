/** The multi-terminal display: one visible page of video memory, one backing
    page per terminal, and the swap that shows another terminal. Seen through
    `View` it is three independent screens. */
module Screen {
  import opened Bytes
  import opened Terminals
  import opened BlockMoves

  const TERMINALS: set<int> := {1, 2, 3}
  const PAGES: int := 4 * FOUR_KB

  function PageAt(mem: seq<byte>, base: int): seq<byte>
    requires 0 <= base && base + FOUR_KB <= |mem|
  {
    mem[base..base + FOUR_KB]
  }

  function WithPage(mem: seq<byte>, base: int, page: seq<byte>): seq<byte>
    requires 0 <= base && base + FOUR_KB <= |mem| && |page| == FOUR_KB
  {
    mem[..base] + page + mem[base + FOUR_KB..]
  }

  /** Where the page of terminal `t` is while terminal `shown` is displayed. */
  function Base(t: int, shown: int): int {
    if t == shown then 0 else t * FOUR_KB
  }

  // ------------------------------------------------------------------
  // Events, and the three screens they are about
  // ------------------------------------------------------------------

  /** A program of terminal `from` prints; the keyboard echoes on the displayed
      terminal; Ctrl-L clears it; Alt-Fn displays another. */
  datatype Event = Write(terminal: int, c: byte) | Echo(c: byte) | Clear(shell: bool) | Select(terminal: int)

  predicate EventOk(e: Event) {
    (e.Write? || e.Select?) ==> e.terminal in TERMINALS
  }

  function ShownAfter(shown: int, e: Event): int {
    if e.Select? then e.terminal else shown
  }

  /** What event `e` does on terminal `t`, if it is addressed to it. */
  function ActionsFor(e: Event, t: int, shown: int): seq<Action> {
    match e
    case Write(terminal, c) => if terminal == t then [PutChar(c)] else []
    case Echo(c) => if shown == t then [PutChar(c)] else []
    case Clear(shell) => if shown == t then [Wipe(shell)] else []
    case Select(_) => []
  }

  /** The actions of a whole run that are addressed to `t`. */
  function Addressed(events: seq<Event>, t: int, shown: int): seq<Action>
    decreases |events|
  {
    if events == [] then []
    else ActionsFor(events[0], t, shown) + Addressed(events[1..], t, ShownAfter(shown, events[0]))
  }

  function ShownAtEnd(events: seq<Event>, shown: int): int
    decreases |events|
  {
    if events == [] then shown else ShownAtEnd(events[1..], ShownAfter(shown, events[0]))
  }

  lemma {:induction false} AddressedExtends(events: seq<Event>, e: Event, t: int, shown: int)
    ensures Addressed(events + [e], t, shown)
         == Addressed(events, t, shown) + ActionsFor(e, t, ShownAtEnd(events, shown))
    ensures ShownAtEnd(events + [e], shown) == ShownAfter(ShownAtEnd(events, shown), e)
    decreases |events|
  {
    hide ActionsFor, ShownAfter;
    if events == [] {
      assert ([e])[1..] == [] && events + [e] == [e];
      assert Addressed([], t, ShownAfter(shown, e)) == [];
      assert ShownAtEnd([], ShownAfter(shown, e)) == ShownAfter(shown, e);
    } else {
      assert (events + [e])[1..] == events[1..] + [e];
      AddressedExtends(events[1..], e, t, ShownAfter(shown, events[0]));
    }
  }

  // ------------------------------------------------------------------
  // Pages in memory
  // ------------------------------------------------------------------

  /** The first `done` bytes of the page have moved up a row. */
  ghost predicate MovedUp(was: seq<byte>, now: seq<byte>, base: int, done: int)
    requires 0 <= base && base + FOUR_KB <= |was| && |now| == |was| && 0 <= done <= 3840
  {
    && (forall k :: base <= k < base + done ==> now[k] == was[k + 160])
    && (forall k :: 0 <= k < |was| && !(base <= k < base + done) ==> now[k] == was[k])
  }

  ghost predicate Blanked(was: seq<byte>, now: seq<byte>, base: int, done: int)
    requires 0 <= base && base + FOUR_KB <= |was| && |now| == |was| && 0 <= done <= 160
  {
    && (forall k :: base <= k < base + 3840 ==> now[k] == was[k + 160])
    && (forall k :: base + 3840 <= k < base + 3840 + done ==> now[k] == Blanks(k - base))
    && (forall k :: 0 <= k < |was| && !(base <= k < base + 3840 + done) ==> now[k] == was[k])
  }

  lemma ScrollDone(was: seq<byte>, now: seq<byte>, base: int)
    requires 0 <= base && base + FOUR_KB <= |was| && |now| == |was|
    requires Blanked(was, now, base, 160)
    ensures now == WithPage(was, base, Scrolled(PageAt(was, base)))
  {
    var page := Scrolled(PageAt(was, base));
    var expected := WithPage(was, base, page);
    forall k | 0 <= k < |was|
      ensures now[k] == expected[k]
    {
      if base <= k < base + FOUR_KB {
        assert expected[k] == page[k - base];
      }
    }
  }

  /** Scrolls a page in place: every row takes the cells of the next, and the
      last row is blanked. */
  method ScrollPage(mem: array<byte>, base: int)
    requires 0 <= base && base + FOUR_KB <= mem.Length
    modifies mem
    ensures mem[..] == WithPage(old(mem[..]), base, Scrolled(PageAt(old(mem[..]), base)))
  {
    ghost var was := mem[..];
    var row := 1;
    while row < NUM_ROWS
      invariant 1 <= row <= NUM_ROWS && MovedUp(was, mem[..], base, 160 * (row - 1))
    {
      var col := 0;
      while col < NUM_COLS
        invariant 0 <= col <= NUM_COLS && MovedUp(was, mem[..], base, 160 * (row - 1) + 2 * col)
      {
        var src := base + 2 * (NUM_COLS * row + col);
        var dst := base + 2 * (NUM_COLS * (row - 1) + col);
        mem[dst] := mem[src];
        mem[dst + 1] := mem[src + 1];
        col := col + 1;
      }
      row := row + 1;
    }
    BlankLastRow(mem, base, was);
  }

  method BlankLastRow(mem: array<byte>, base: int, ghost was: seq<byte>)
    requires 0 <= base && base + FOUR_KB <= mem.Length && |was| == mem.Length
    requires MovedUp(was, mem[..], base, 3840)
    modifies mem
    ensures mem[..] == WithPage(was, base, Scrolled(PageAt(was, base)))
  {
    var col := 0;
    while col < NUM_COLS
      invariant 0 <= col <= NUM_COLS && Blanked(was, mem[..], base, 2 * col)
    {
      var dst := base + 2 * (NUM_COLS * (NUM_ROWS - 1) + col);
      mem[dst] := BLANK;
      mem[dst + 1] := ATTRIB;
      col := col + 1;
    }
    ScrollDone(was, mem[..], base);
  }

  /** Pages other than the one rewritten keep their bytes. */
  lemma OtherPageKept(mem: seq<byte>, base: int, page: seq<byte>, other: int)
    requires |mem| == PAGES && |page| == FOUR_KB
    requires 0 <= base && base + FOUR_KB <= PAGES && 0 <= other && other + FOUR_KB <= PAGES
    requires base + FOUR_KB <= other || other + FOUR_KB <= base
    ensures PageAt(WithPage(mem, base, page), other) == PageAt(mem, other)
    ensures PageAt(WithPage(mem, base, page), base) == page
  {
  }

  /** A character and its attribute, at an offset in a page. */
  method WriteCell(mem: array<byte>, base: int, at: int, c: byte)
    requires 0 <= base && base + FOUR_KB <= mem.Length && 0 <= at && at + 1 < FOUR_KB
    modifies mem
    ensures mem[..] == WithPage(old(mem[..]), base, PageAt(old(mem[..]), base)[at := c][at + 1 := ATTRIB])
  {
    mem[base + at] := c;
    mem[base + at + 1] := ATTRIB;
  }

  lemma BasesApart(t: int, u: int, shown: int)
    requires t in TERMINALS && u in TERMINALS && shown in TERMINALS
    ensures 0 <= Base(t, shown) && Base(t, shown) + FOUR_KB <= PAGES
    ensures t != u ==> Base(t, shown) + FOUR_KB <= Base(u, shown) || Base(u, shown) + FOUR_KB <= Base(t, shown)
  {
  }

  // ------------------------------------------------------------------
  // The display
  // ------------------------------------------------------------------

  class Display {
    const videoMem: array<byte>
    const screenX: array<int>
    const screenY: array<int>
    var curTerminal: int

    ghost predicate Valid()
      reads this, videoMem, screenX, screenY
    {
      && videoMem.Length == PAGES && screenX.Length == 3 && screenY.Length == 3 && screenX != screenY
      && curTerminal in TERMINALS
      && forall i :: 0 <= i < 3 ==> 0 <= screenX[i] < NUM_COLS && 0 <= screenY[i] < NUM_ROWS
    }

    /** The screen of terminal `t`, wherever its page is. */
    ghost function View(t: int): (r: Term)
      requires Valid() && t in TERMINALS
      reads this, videoMem, screenX, screenY
      ensures Ok(r)
    {
      BasesApart(t, t, curTerminal);
      Term(PageAt(videoMem[..], Base(t, curTerminal)), screenX[t - 1], screenY[t - 1])
    }

    constructor ()
      ensures Valid() && fresh(videoMem) && fresh(screenX) && fresh(screenY)
    {
      videoMem := new byte[PAGES](_ => 0);
      screenX := new int[3](_ => 0);
      screenY := new int[3](_ => 0);
      curTerminal := 1;
    }

    /** Prints one character for the program that belongs to terminal `local`,
        or, for the keyboard, on the displayed terminal. */
    method Putc(c: byte, keyboardPrint: bool, local: int)
      requires Valid() && local in TERMINALS
      modifies videoMem, screenX, screenY
      ensures Valid()
      ensures var target := if keyboardPrint then curTerminal else local;
              View(target) == Put(old(View(target)), c)
              && forall t :: t in TERMINALS && t != target ==> View(t) == old(View(t))
    {
      if curTerminal == local || keyboardPrint {
        var cursorIdx := curTerminal - 1;
        PutAt(0, cursorIdx, c);
      } else {
        var cursorIdx := local - 1;
        PutAt(FOUR_KB * local, cursorIdx, c);
      }
    }

    /** A program of terminal `local` writes bytes: they go to its own screen, tabs
        as spaces, whichever terminal is displayed. */
    method TerminalWrite(input: seq<byte>, local: int) returns (ret: int)
      requires Valid() && local in TERMINALS
      modifies videoMem, screenX, screenY
      ensures Valid()
      ensures View(local) == PutAll(old(View(local)), Spaced(input))
      ensures forall t :: t in TERMINALS && t != local ==> View(t) == old(View(t))
      ensures ret == if input == [] then -1 else |input|
    {
      if input == [] {
        return -1;
      }
      hide PutAll;
      ghost var was, spaced := View(local), Spaced(input);
      var i := 0;
      PutNothing(was, spaced);
      while i < |input|
        invariant i <= |input| && Valid()
        invariant PutAll(was, spaced[..i]) == View(local)
        invariant forall t :: t in TERMINALS && t != local ==> View(t) == old(View(t))
        modifies videoMem, screenX, screenY
      {
        PutOneMore(was, spaced, i);
        if input[i] == 9 {
          Putc(BLANK, false, local);
        } else {
          Putc(input[i], false, local);
        }
        i := i + 1;
      }
      assert spaced[..i] == spaced;
      return |input|;
    }

    /** Prints on the page at `base` with the cursor of index `idx`. */
    method PutAt(base: int, idx: int, c: byte)
      requires Valid() && idx + 1 in TERMINALS && base == Base(idx + 1, curTerminal)
      modifies videoMem, screenX, screenY
      ensures Valid()
      ensures View(idx + 1) == Put(old(View(idx + 1)), c)
      ensures forall t :: t in TERMINALS && t != idx + 1 ==> View(t) == old(View(t))
    {
      hide Put;
      ghost var was, before := videoMem[..], View(idx + 1);
      BasesApart(idx + 1, idx + 1, curTerminal);
      if c == NEWLINE || c == RETURN {
        BreakLine(base, idx, c, before);
      } else {
        PutCell(base, idx, c, before);
      }
      forall t | t in TERMINALS && t != idx + 1
        ensures PageAt(videoMem[..], Base(t, curTerminal)) == PageAt(was, Base(t, curTerminal))
      {
        BasesApart(idx + 1, t, curTerminal);
        OtherPageKept(was, base, Put(before, c).page, Base(t, curTerminal));
      }
      OtherPageKept(was, base, Put(before, c).page, if base == 0 then FOUR_KB else 0);
    }

    /** The line break of `PutAt`. */
    method BreakLine(base: int, idx: int, c: byte, ghost before: Term)
      requires Valid() && 0 <= idx < 3 && 0 <= base && base + FOUR_KB <= PAGES && LineBreak(c)
      requires before == Term(PageAt(videoMem[..], base), screenX[idx], screenY[idx])
      modifies videoMem, screenX, screenY
      ensures videoMem[..] == WithPage(old(videoMem[..]), base, Put(before, c).page)
      ensures screenX[idx] == Put(before, c).x && screenY[idx] == Put(before, c).y
      ensures forall i :: 0 <= i < 3 && i != idx ==> screenX[i] == old(screenX[i]) && screenY[i] == old(screenY[i])
    {
      screenY[idx] := screenY[idx] + 1;
      screenX[idx] := 0;
      if screenY[idx] >= 25 {
        ScrollPage(videoMem, base);
        screenY[idx] := NUM_ROWS - 1;
      } else {
        assert videoMem[..] == WithPage(videoMem[..], base, PageAt(videoMem[..], base));
      }
    }

    /** The printable character of `PutAt`. */
    method PutCell(base: int, idx: int, c: byte, ghost before: Term)
      requires Valid() && 0 <= idx < 3 && 0 <= base && base + FOUR_KB <= PAGES && !LineBreak(c)
      requires before == Term(PageAt(videoMem[..], base), screenX[idx], screenY[idx])
      modifies videoMem, screenX, screenY
      ensures videoMem[..] == WithPage(old(videoMem[..]), base, Put(before, c).page)
      ensures screenX[idx] == Put(before, c).x && screenY[idx] == Put(before, c).y
      ensures forall i :: 0 <= i < 3 && i != idx ==> screenX[i] == old(screenX[i]) && screenY[i] == old(screenY[i])
    {
      WriteCell(videoMem, base, 2 * (NUM_COLS * screenY[idx] + screenX[idx]), c);
      screenX[idx] := screenX[idx] + 1;
      screenX[idx] := screenX[idx] % NUM_COLS;
      screenY[idx] := screenY[idx] + screenX[idx] / NUM_COLS;
    }

    /** Blanks the displayed terminal and, for a base shell, prints its prompt. */
    method ClearScreen(baseShell: bool)
      requires Valid()
      modifies videoMem, screenX, screenY
      ensures Valid()
      ensures View(curTerminal) == Wiped(old(View(curTerminal)), baseShell)
      ensures forall t :: t in TERMINALS && t != curTerminal ==> View(t) == old(View(t))
    {
      BlankPage();
      ghost var blank := View(curTerminal);
      if baseShell {
        var j := 0;
        while j < |PROMPT|
          invariant 0 <= j <= |PROMPT| && Valid()
          invariant PutAll(View(curTerminal), PROMPT[j..]) == PutAll(blank, PROMPT)
          invariant forall t :: t in TERMINALS && t != curTerminal ==> View(t) == old(View(t))
        {
          Putc(PROMPT[j], true, curTerminal);
          assert PROMPT[j..][1..] == PROMPT[j + 1..];
          j := j + 1;
        }
      }
    }

    method BlankPage()
      requires Valid()
      modifies videoMem, screenX, screenY
      ensures Valid()
      ensures View(curTerminal) == Wiped(old(View(curTerminal)), false)
      ensures forall t :: t in TERMINALS && t != curTerminal ==> View(t) == old(View(t))
    {
      ghost var was := videoMem[..];
      ghost var blank := Wiped(View(curTerminal), false);
      var i := 0;
      while i < NUM_ROWS * NUM_COLS
        invariant 0 <= i <= NUM_ROWS * NUM_COLS
        invariant forall k :: 0 <= k < 2 * i ==> videoMem[k] == Blanks(k)
        invariant forall k :: 2 * i <= k < PAGES ==> videoMem[k] == was[k]
        modifies videoMem
      {
        videoMem[2 * i] := BLANK;
        videoMem[2 * i + 1] := ATTRIB;
        i := i + 1;
      }
      assert videoMem[..] == WithPage(was, 0, blank.page);
      var cursorIdx := curTerminal - 1;
      screenY[cursorIdx] := 0;
      screenX[cursorIdx] := 0;
      OtherPageKept(was, 0, blank.page, FOUR_KB);
      assert PageAt(videoMem[..], 0) == blank.page;
      assert View(curTerminal) == blank;
      forall t | t in TERMINALS && t != curTerminal
        ensures View(t) == old(View(t))
      {
        OtherPageKept(was, 0, blank.page, FOUR_KB * t);
        assert PageAt(videoMem[..], Base(t, curTerminal)) == PageAt(was, Base(t, curTerminal));
      }
    }

    /** Backspace over `n` characters: for each the cursor steps back, an empty
        character is printed there, and the cursor steps back again. */
    method RubOut(n: nat)
      requires Valid() && n <= screenX[curTerminal - 1]
      modifies videoMem, screenX, screenY
      ensures Valid()
      ensures View(curTerminal) == RubbedOut(old(View(curTerminal)), n)
      ensures forall t :: t in TERMINALS && t != curTerminal ==> View(t) == old(View(t))
    {
      hide RubbedOut;
      ghost var was := View(curTerminal);
      var i := 0;
      while i < n
        invariant 0 <= i <= n && Valid() && n - i <= View(curTerminal).x
        invariant RubbedOut(View(curTerminal), n - i) == RubbedOut(was, n)
        invariant forall t :: t in TERMINALS && t != curTerminal ==> View(t) == old(View(t))
        modifies videoMem, screenX, screenY
      {
        RubStep(View(curTerminal), n - i);
        RubOne();
        i := i + 1;
      }
      RubNothing(View(curTerminal));
    }

    method RubOne()
      requires Valid() && 0 < screenX[curTerminal - 1]
      modifies videoMem, screenX, screenY
      ensures Valid()
      ensures View(curTerminal) == RubbedOut(old(View(curTerminal)), 1)
      ensures forall t :: t in TERMINALS && t != curTerminal ==> View(t) == old(View(t))
    {
      ghost var was := View(curTerminal);
      screenX[curTerminal - 1] := screenX[curTerminal - 1] - 1;
      assert View(curTerminal) == Term(was.page, was.x - 1, was.y);
      Putc(NUL, true, curTerminal);
      screenX[curTerminal - 1] := screenX[curTerminal - 1] - 1;
      assert View(curTerminal) == RubbedOut(RubbedOut(was, 1), 0);
    }

    /** Backspace over a soft break: the row above is taken to end at column 72. */
    method JoinRows()
      requires Valid() && 0 < screenY[curTerminal - 1]
      modifies videoMem, screenX, screenY
      ensures Valid()
      ensures View(curTerminal) == Joined(old(View(curTerminal)))
      ensures forall t :: t in TERMINALS && t != curTerminal ==> View(t) == old(View(t))
    {
      ghost var was := View(curTerminal);
      screenY[curTerminal - 1] := screenY[curTerminal - 1] - 1;
      var curY := screenY[curTerminal - 1];
      screenX[curTerminal - 1] := 72;
      assert View(curTerminal) == Term(was.page, 72, was.y - 1);
      Putc(NUL, true, curTerminal);
      screenY[curTerminal - 1] := curY;
      screenX[curTerminal - 1] := 72;
    }

    /** Displays another terminal: the visible page is saved behind the old one
        and the page behind the new one is shown. No screen changes. */
    method SelectTerminal(selected: int)
      requires Valid() && selected in TERMINALS
      modifies this, videoMem
      ensures Valid() && curTerminal == selected
      ensures forall t :: t in TERMINALS ==> View(t) == old(View(t))
    {
      ghost var was := videoMem[..];
      Memcpy(videoMem, FOUR_KB * curTerminal, 0, FOUR_KB);
      Memcpy(videoMem, 0, FOUR_KB * selected, FOUR_KB);
      SwapKeepsPages(was, curTerminal, selected);
      curTerminal := selected;
    }
  }

  /** After the swap each terminal's page is where the new selection puts it. */
  lemma SwapKeepsPages(mem: seq<byte>, shown: int, selected: int)
    requires |mem| == PAGES && shown in TERMINALS && selected in TERMINALS
    ensures var swapped := Moved(Moved(mem, FOUR_KB * shown, 0, FOUR_KB), 0, FOUR_KB * selected, FOUR_KB);
            |swapped| == PAGES
            && forall t :: t in TERMINALS ==> PageAt(swapped, Base(t, selected)) == PageAt(mem, Base(t, shown))
  {
    var saved := WithPage(mem, FOUR_KB * shown, PageAt(mem, 0));
    var swapped := WithPage(saved, 0, PageAt(saved, FOUR_KB * selected));
    assert saved == Moved(mem, FOUR_KB * shown, 0, FOUR_KB);
    assert swapped == Moved(saved, 0, FOUR_KB * selected, FOUR_KB);
    forall t | t in TERMINALS
      ensures PageAt(swapped, Base(t, selected)) == PageAt(mem, Base(t, shown))
    {
      OtherPageKept(saved, 0, PageAt(saved, FOUR_KB * selected), FOUR_KB * t);
      if t != shown {
        OtherPageKept(mem, FOUR_KB * shown, PageAt(mem, 0), FOUR_KB * t);
      } else {
        OtherPageKept(mem, FOUR_KB * shown, PageAt(mem, 0), 0);
      }
    }
  }

  // ------------------------------------------------------------------
  // Whole runs
  // ------------------------------------------------------------------

  /** One event on the display. */
  method Show(d: Display, e: Event)
    requires d.Valid() && EventOk(e)
    modifies d, d.videoMem, d.screenX, d.screenY
    ensures d.Valid() && d.curTerminal == ShownAfter(old(d.curTerminal), e)
    ensures forall t :: t in TERMINALS ==>
              d.View(t) == Fold(old(d.View(t)), ActionsFor(e, t, old(d.curTerminal)))
    ensures e.Write? ==>
              d.View(e.terminal) == Put(old(d.View(e.terminal)), e.c)
              && forall t :: t in TERMINALS && t != e.terminal ==> d.View(t) == old(d.View(t))
    ensures e.Echo? || e.Clear? ==>
              d.View(d.curTerminal) == (if e.Echo? then Put(old(d.View(d.curTerminal)), e.c)
                                        else Wiped(old(d.View(d.curTerminal)), e.shell))
              && forall t :: t in TERMINALS && t != d.curTerminal ==> d.View(t) == old(d.View(t))
    ensures d.curTerminal == if e.Select? then e.terminal else old(d.curTerminal)
    ensures e.Select? ==> forall t :: t in TERMINALS ==> d.View(t) == old(d.View(t))
  {
    match e
    case Write(terminal, c) =>
      d.Putc(c, false, terminal);
    case Echo(c) =>
      d.Putc(c, true, d.curTerminal);
    case Clear(shell) =>
      d.ClearScreen(shell);
    case Select(terminal) =>
      d.SelectTerminal(terminal);
  }

  /** The bytes that programs of terminal `u` print in a run. */
  function Printed(events: seq<Event>, u: int): seq<byte>
    decreases |events|
  {
    if events == [] then []
    else (if events[0].Write? && events[0].terminal == u then [events[0].c] else []) + Printed(events[1..], u)
  }

  /** Output of programs reaches their own terminal's screen, all of it and in
      order, whatever is displayed and however often that changes; without echo or
      clear nothing else does. */
  lemma {:induction false} OutputReachesItsTerminal(was: Term, events: seq<Event>, t: int, shown: int)
    requires Ok(was) && forall i :: 0 <= i < |events| ==> events[i].Write? || events[i].Select?
    ensures Fold(was, Addressed(events, t, shown)) == PutAll(was, Printed(events, t))
    decreases |events|
  {
    if events != [] {
      var e := events[0];
      var first := ActionsFor(e, t, shown);
      var next := Fold(was, first);
      FoldSplits(was, first, Addressed(events[1..], t, ShownAfter(shown, e)));
      OutputReachesItsTerminal(next, events[1..], t, ShownAfter(shown, e));
      if e.Write? && e.terminal == t {
        assert next == Put(was, e.c);
        assert Printed(events, t)[0] == e.c && Printed(events, t)[1..] == Printed(events[1..], t);
      } else {
        assert Printed(events, t) == Printed(events[1..], t);
      }
    }
  }

  /** Two neighbouring writes by programs of different terminals may be swapped. */
  lemma WritesCommute(a: seq<Event>, u: int, c: byte, w: int, d: byte, b: seq<Event>, was: Term, t: int, shown: int)
    requires u != w && Ok(was)
    ensures Fold(was, Addressed(a + [Write(u, c)] + [Write(w, d)] + b, t, shown))
         == Fold(was, Addressed(a + [Write(w, d)] + [Write(u, c)] + b, t, shown))
  {
    var x, y := Write(u, c), Write(w, d);
    var first, second := ActionsFor(x, t, ShownAtEnd(a, shown)), ActionsFor(y, t, ShownAtEnd(a, shown));
    assert first == [] || second == [];
    assert first + second == second + first;
    hide Fold, Addressed, ActionsFor, ShownAtEnd;
    AddressedSplits(a, [x] + [y] + b, t, shown);
    AddressedSplits(a, [y] + [x] + b, t, shown);
    assert a + [x] + [y] + b == a + ([x] + [y] + b) && a + [y] + [x] + b == a + ([y] + [x] + b);
    TwoWrites(x, y, b, t, ShownAtEnd(a, shown));
    TwoWrites(y, x, b, t, ShownAtEnd(a, shown));
  }

  lemma TwoWrites(x: Event, y: Event, b: seq<Event>, t: int, shown: int)
    requires x.Write? && y.Write?
    ensures Addressed([x] + [y] + b, t, shown)
         == ActionsFor(x, t, shown) + ActionsFor(y, t, shown) + Addressed(b, t, shown)
  {
    var events := [x] + [y] + b;
    assert events[1..][0] == y && events[1..][1..] == b;
  }

  lemma {:induction false} AddressedSplits(a: seq<Event>, b: seq<Event>, t: int, shown: int)
    ensures Addressed(a + b, t, shown) == Addressed(a, t, shown) + Addressed(b, t, ShownAtEnd(a, shown))
    decreases |a|
  {
    hide ActionsFor, ShownAfter;
    if a == [] {
      assert a + b == b;
    } else {
      assert (a + b)[1..] == a[1..] + b;
      AddressedSplits(a[1..], b, t, ShownAfter(shown, a[0]));
    }
  }

  /** One event more on one terminal's screen. */
  lemma FoldExtends(was: Term, events: seq<Event>, e: Event, t: int, shown: int)
    requires Ok(was)
    ensures Fold(was, Addressed(events + [e], t, shown))
         == Fold(Fold(was, Addressed(events, t, shown)), ActionsFor(e, t, ShownAtEnd(events, shown)))
  {
    AddressedExtends(events, e, t, shown);
    FoldSplits(was, Addressed(events, t, shown), ActionsFor(e, t, ShownAtEnd(events, shown)));
  }

  lemma NothingShown(d: Display, shown: int)
    requires d.Valid()
    ensures ShownAtEnd([], shown) == shown
    ensures forall t :: t in TERMINALS ==> d.View(t) == Fold(d.View(t), Addressed([], t, shown))
  {
  }

  /** Whatever programs print, the keyboard echoes and the user selects, each
      terminal's screen and cursor are what its own events make of them. */
  method ShowAll(d: Display, events: seq<Event>)
    requires d.Valid() && forall i :: 0 <= i < |events| ==> EventOk(events[i])
    modifies d, d.videoMem, d.screenX, d.screenY
    ensures d.Valid() && d.curTerminal == ShownAtEnd(events, old(d.curTerminal))
    ensures forall t :: t in TERMINALS ==>
              d.View(t) == Fold(old(d.View(t)), Addressed(events, t, old(d.curTerminal)))
  {
    hide Fold, Addressed, ActionsFor, ShownAtEnd, ShownAfter;
    ghost var shown := d.curTerminal;
    NothingShown(d, shown);
    assert events[..0] == [];
    var i := 0;
    while i < |events|
      invariant i <= |events| && d.Valid() && d.curTerminal == ShownAtEnd(events[..i], shown)
      invariant forall t :: t in TERMINALS ==> d.View(t) == Fold(old(d.View(t)), Addressed(events[..i], t, shown))
    {
      Show(d, events[i]);
      assert events[..i + 1] == events[..i] + [events[i]];
      forall t | t in TERMINALS
        ensures d.View(t) == Fold(old(d.View(t)), Addressed(events[..i + 1], t, shown))
      {
        FoldExtends(old(d.View(t)), events[..i], events[i], t, shown);
      }
      AddressedExtends(events[..i], events[i], 1, shown);
      i := i + 1;
    }
    assert events[..i] == events;
  }
}
