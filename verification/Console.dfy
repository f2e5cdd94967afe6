/** The keyboard interrupt as the whole system sees it: one key edits a line,
    prints on the displayed terminal and may select another, and the line
    buffers, the display and the process system always agree on which terminal
    is displayed. */
module Console {
  import opened Bytes
  import opened FileSystem
  import opened Terminals
  import L = LineEditor
  import K = Keyboard
  import S = Screen
  import P = Paging
  import C = CallStacks
  import Y = Typing
  import R = Rtc
  import KernelState
  import Kernel

  /** The three parts are in order, share no memory and show the same terminal. */
  ghost predicate Together(keys: K.Handler, display: S.Display, kernel: Kernel.Kernel)
    reads keys, keys.keyboardBuffer, keys.keyboardIndex
    reads display, display.videoMem, display.screenX, display.screenY, kernel, kernel.activeProcesses
  {
    && keys.Valid() && display.Valid() && kernel.Valid()
    && keys.keyboardBuffer != display.videoMem
    && keys.keyboardIndex !in {display.screenX, display.screenY, kernel.activeProcesses}
    && kernel.activeProcesses !in {display.screenX, display.screenY}
    && keys.curTerminal == display.curTerminal == kernel.curTerminal
  }

  /** The terminal a key selects, 0 for none. */
  function Selects(b: L.Board, scanCode: int): int
    requires L.BoardOk(b)
  {
    if L.Started(b, scanCode).keys.alt && L.F1 <= scanCode <= L.F3 then scanCode - L.F_OFFSET else 0
  }

  /** A tab fits on the screen row. */
  predicate ColumnFits(t: Term) {
    t.x + L.TAB_SPACE < L.MAX_LINE
  }

  /** The cursor stays on the screen: backspace does not look at the column. */
  predicate StaysOnScreen(t: Term, e: L.Erasure) {
    match e
    case NoErasure => true
    case RubOut(n) => 0 <= n <= t.x
    case JoinRows => t.y > 0
  }

  function Erased(t: Term, e: L.Erasure): (r: Term)
    requires Ok(t) && StaysOnScreen(t, e)
    ensures Ok(r)
  {
    match e
    case NoErasure => t
    case RubOut(n) => RubbedOut(t, n)
    case JoinRows => Joined(t)
  }

  /** A character typed in the last column, and then backspace: the cursor leaves
      the screen. */
  lemma BackspaceLeavesScreen(t: Term, c: byte)
    requires Ok(t) && t.x == NUM_COLS - 1 && !LineBreak(c)
    ensures !StaysOnScreen(Put(t, c), L.RubOut(1))
  {
  }

  /** Prints on the displayed terminal. */
  method Perform(display: S.Display, echo: seq<Action>)
    requires display.Valid()
    modifies display.videoMem, display.screenX, display.screenY
    ensures display.Valid()
    ensures display.View(display.curTerminal) == Fold(old(display.View(display.curTerminal)), echo)
    ensures forall t :: t in S.TERMINALS && t != display.curTerminal ==> display.View(t) == old(display.View(t))
  {
    ghost var was := display.View(display.curTerminal);
    var i := 0;
    while i < |echo|
      invariant i <= |echo| && display.Valid()
      invariant Fold(display.View(display.curTerminal), echo[i..]) == Fold(was, echo)
      invariant forall t :: t in S.TERMINALS && t != display.curTerminal ==> display.View(t) == old(display.View(t))
      modifies display.videoMem, display.screenX, display.screenY
    {
      assert echo[i..][0] == echo[i] && echo[i..][1..] == echo[i + 1..];
      match echo[i] {
        case PutChar(c) => display.Putc(c, true, display.curTerminal);
        case Wipe(shell) => display.ClearScreen(shell);
      }
      i := i + 1;
    }
  }

  /** Erases on the displayed terminal, unless the cursor would leave the screen. */
  method Erase(display: S.Display, e: L.Erasure) returns (onScreen: bool)
    requires display.Valid() && (e.RubOut? ==> e.n >= 0)
    modifies display.videoMem, display.screenX, display.screenY
    ensures display.Valid()
    ensures onScreen <==> StaysOnScreen(old(display.View(display.curTerminal)), e)
    ensures onScreen ==> display.View(display.curTerminal) == Erased(old(display.View(display.curTerminal)), e)
    ensures forall t :: t in S.TERMINALS && t != display.curTerminal ==> display.View(t) == old(display.View(t))
  {
    match e
    case NoErasure =>
      onScreen := true;
    case RubOut(n) =>
      onScreen := n <= display.screenX[display.curTerminal - 1];
      if onScreen {
        display.RubOut(n);
      }
    case JoinRows =>
      onScreen := 0 < display.screenY[display.curTerminal - 1];
      if onScreen {
        display.JoinRows();
      }
  }

  /** What is left to do on the screen once the line has been edited. */
  method EraseThenPerform(display: S.Display, e: L.Erasure, echo: seq<Action>) returns (onScreen: bool)
    requires display.Valid() && (e.RubOut? ==> e.n >= 0)
    modifies display.videoMem, display.screenX, display.screenY
    ensures display.Valid()
    ensures onScreen <==> StaysOnScreen(old(display.View(display.curTerminal)), e)
    ensures onScreen ==>
              display.View(display.curTerminal) == Fold(Erased(old(display.View(display.curTerminal)), e), echo)
    ensures forall t :: t in S.TERMINALS && t != display.curTerminal ==> display.View(t) == old(display.View(t))
  {
    hide Fold, Erased, StaysOnScreen;
    onScreen := Erase(display, e);
    Perform(display, echo);
  }

  /** The displayed terminal's screen after what is printed first. */
  function FirstScreen(b: L.Board, t: Term, scanCode: int, shell: bool): (r: Term)
    requires L.BoardOk(b) && Ok(t)
    ensures Ok(r)
  {
    Fold(t, L.FirstEcho(b, scanCode, shell))
  }

  /** What backspace is to erase, if the key is backspace. */
  function KeyErasure(b: L.Board, scanCode: int): (e: L.Erasure)
    requires L.BoardOk(b)
    ensures e.RubOut? ==> e.n >= 0
  {
    if scanCode == L.BACKSPACE then L.ErasureOf(L.Started(b, scanCode)) else L.NoErasure
  }

  /** And after the whole key, as long as the cursor stays on the screen. */
  function KeyScreen(b: L.Board, t: Term, scanCode: int, shell: bool): (r: Term)
    requires L.BoardOk(b) && Ok(t)
    requires StaysOnScreen(FirstScreen(b, t, scanCode, shell), KeyErasure(b, scanCode))
    ensures Ok(r)
  {
    var first := FirstScreen(b, t, scanCode, shell);
    Fold(Erased(first, KeyErasure(b, scanCode)), L.LaterEcho(L.Started(b, scanCode), scanCode, ColumnFits(first)))
  }

  /** One keyboard interrupt. The line is edited, with the tab key's test on the
      real column; what the key prints and erases goes to the terminal displayed
      when it is pressed and to no other; and a selected terminal is displayed,
      and booted if it never was. `onScreen` tells whether backspace kept the
      cursor on the screen; if not, nothing is said of that screen. */
  method KeyPressed(keys: K.Handler, display: S.Display, kernel: Kernel.Kernel, scanCode: int,
                    frame: C.Token, entryFrame: C.Token)
    returns (selected: int, onScreen: bool, ghost shell: bool, outcome: C.Outcome)
    requires Together(keys, display, kernel)
    modifies keys, keys.keyboardBuffer, keys.keyboardIndex, keys.enterFlag
    modifies display, display.videoMem, display.screenX, display.screenY, kernel, kernel.activeProcesses
    ensures Together(keys, display, kernel)
    ensures var b, shown := old(keys.View()), old(display.curTerminal);
            var t := old(display.View(display.curTerminal));
            && keys.View() == L.Press(b, scanCode, ColumnFits(FirstScreen(b, t, scanCode, shell)))
            && (onScreen <==> StaysOnScreen(FirstScreen(b, t, scanCode, shell), KeyErasure(b, scanCode)))
            && (onScreen ==> display.View(shown) == KeyScreen(b, t, scanCode, shell))
    ensures forall t :: t in S.TERMINALS && t != old(display.curTerminal) ==> display.View(t) == old(display.View(t))
    ensures var s := old(kernel.sys);
            s.cur in s.stacks && s.stacks[s.cur] != [] && (shell <==> C.Running(s).pid <= 3)
    ensures selected == Selects(old(keys.View()), scanCode)
    ensures if selected == 0 then
              display.curTerminal == old(display.curTerminal) && outcome == C.Undisturbed
              && kernel.Variables() == old(kernel.Variables()) && kernel.sys == old(kernel.sys)
            else
              display.curTerminal == selected
              && (kernel.sys, outcome) == C.Step(kernel.img, old(kernel.sys), C.SelectTerminal(selected, frame, entryFrame))
  {
    hide L.Started, L.Finished, L.FirstEcho, L.LaterEcho, K.RowsOk, C.Step, L.BoardOk;
    hide KernelState.Consistent, WellFormed, IsProgram, P.VideoTable, Fold, Erased, StaysOnScreen;
    var isShell := kernel.RunsShell();
    shell := isShell;
    var firstEcho := keys.StartKey(scanCode, isShell);
    Perform(display, firstEcho);
    var screenX := display.screenX[display.curTerminal - 1];
    var erasure, laterEcho;
    selected, erasure, laterEcho := keys.FinishKey(scanCode, screenX);
    onScreen := EraseThenPerform(display, erasure, laterEcho);
    outcome := C.Undisturbed;
    if selected != 0 {
      outcome := ShowTerminal(display, kernel, selected, frame, entryFrame);
    }
  }

  /** Displays a terminal and boots it if it never was. */
  method ShowTerminal(display: S.Display, kernel: Kernel.Kernel, selected: int, frame: C.Token, entryFrame: C.Token)
    returns (outcome: C.Outcome)
    requires display.Valid() && kernel.Valid() && selected in S.TERMINALS
    requires kernel.activeProcesses !in {display.screenX, display.screenY}
    modifies display, display.videoMem, kernel, kernel.activeProcesses
    ensures display.Valid() && kernel.Valid() && display.curTerminal == kernel.curTerminal == selected
    ensures forall t :: t in S.TERMINALS ==> display.View(t) == old(display.View(t))
    ensures (kernel.sys, outcome) == C.Step(kernel.img, old(kernel.sys), C.SelectTerminal(selected, frame, entryFrame))
  {
    hide C.Step, KernelState.Consistent, WellFormed, IsProgram, P.VideoTable;
    display.SelectTerminal(selected);
    outcome := kernel.SelectTerminal(selected, frame, entryFrame);
  }

  // ------------------------------------------------------------------
  // What a key leaves on the screen
  // ------------------------------------------------------------------

  /** But for Enter, backspace and Ctrl-L, a key puts on the screen what it adds to
      the line, tabs as spaces. */
  lemma KeyPrintsWhatItAdds(b: L.Board, t: Term, scanCode: int, shell: bool) returns (added: seq<byte>)
    requires L.BoardOk(b) && Ok(t) && scanCode != 0x1C && scanCode != 0x0E && (scanCode == 0x26 ==> !b.keys.ctrl)
    ensures Y.Adds(b, scanCode, ColumnFits(FirstScreen(b, t, scanCode, shell)), added)
    ensures StaysOnScreen(FirstScreen(b, t, scanCode, shell), KeyErasure(b, scanCode))
    ensures KeyScreen(b, t, scanCode, shell) == PutAll(t, Spaced(added))
  {
    hide L.Started, L.Finished, L.FirstEcho, L.LaterEcho, L.Text, L.Sound, Fold, PutAll, Y.Prints, Y.Adds;
    var fits := ColumnFits(FirstScreen(b, t, scanCode, shell));
    added := Y.EchoIsWhatWasAdded(b, scanCode, fits, shell);
    FoldSplits(t, L.FirstEcho(b, scanCode, shell), L.LaterEcho(L.Started(b, scanCode), scanCode, fits));
    Y.FoldPrints(t, Spaced(added));
  }

  /** The tab key adds four tab bytes, three on a line of 122, exactly when the
      cursor is left of column 69 and the line is shorter than 123 bytes. */
  lemma TabFollowsColumn(b: L.Board, t: Term, shell: bool)
    requires L.BoardOk(b) && Ok(t) && !b.keys.ctrl && !b.keys.alt && L.Len(L.Current(b)) != 73
    ensures var fits := ColumnFits(FirstScreen(b, t, 0x0F, shell));
            var len := L.Len(L.Current(b));
            Y.Adds(b, 0x0F, fits, if t.x < 69 && len < 123 then seq(if len == 122 then 3 else 4, _ => 9) else [])
  {
    hide L.Sound;
    var fits := ColumnFits(FirstScreen(b, t, 0x0F, shell));
    Y.StartAdds(b, 0x0F, shell);
    assert L.FirstEcho(b, 0x0F, shell) == [];
    L.NothingTyped(b.keys);
    Y.TabAdds(b, fits);
  }

  /** A character typed, and then backspace: the cursor is back, the cell of the
      character is empty and no other has changed. */
  lemma BackspaceTakesCharacterBack(b: L.Board, t: Term, scan: int, c: byte, shell: bool, row: int, col: int)
    requires L.BoardOk(b) && Ok(t) && t.x < 79 && 0 <= row < 25 && 0 <= col < 80
    requires Y.OrdinaryKey(scan) && L.Typed(b.keys, scan) == c != NUL && L.Len(L.Current(b)) < 72
    ensures var b1, t1 := L.Press(b, scan, true), Put(t, c);
            && StaysOnScreen(FirstScreen(b1, t1, 0x0E, shell), KeyErasure(b1, 0x0E))
            && var r := KeyScreen(b1, t1, 0x0E, shell);
               r.x == t.x && r.y == t.y
               && Cell(r.page, row, col) == if row == t.y && col == t.x then (0, 7) else Cell(t.page, row, col)
  {
    hide L.Sound, L.Typed, RubbedOut, PutAll, Cell;
    var b1 := L.Press(b, scan, true);
    Y.OrdinaryKeys(b.keys, scan);
    L.PressTypes(b, scan, true);
    L.TypedIsOrdinary(b.keys, scan);
    L.Snoc(L.Current(b), L.Char(c));
    assert L.Last(L.Current(b1)) == L.Char(c);
    hide L.Press, L.Text;
    PutOne(t, c);
    RubOutUndoesPut(t, [c], row, col);
    BackspaceRubs(b1, Put(t, c), shell, 1);
  }

  /** A tab of four bytes, and then backspace. */
  lemma BackspaceTakesTabBack(b: L.Board, t: Term, shell: bool, row: int, col: int)
    requires L.BoardOk(b) && Ok(t) && t.x < 69 && 0 <= row < 25 && 0 <= col < 80
    requires !b.keys.ctrl && !b.keys.alt && L.Len(L.Current(b)) < 69
    ensures var b1, t1 := L.Press(b, 0x0F, true), PutAll(t, [32, 32, 32, 32]);
            && StaysOnScreen(FirstScreen(b1, t1, 0x0E, shell), KeyErasure(b1, 0x0E))
            && var r := KeyScreen(b1, t1, 0x0E, shell);
               r.x == t.x && r.y == t.y
               && Cell(r.page, row, col) == if row == t.y && t.x <= col < t.x + 4 then (0, 7) else Cell(t.page, row, col)
  {
    hide L.Sound, L.Typed, RubbedOut, PutAll, Cell;
    var b1 := L.Press(b, 0x0F, true);
    L.PressTabs(b);
    L.Snoc(L.Current(b), L.Tab(4));
    assert L.Last(L.Current(b1)) == L.Tab(4);
    hide L.Press, L.Text;
    RubOutUndoesPut(t, [32, 32, 32, 32], row, col);
    BackspaceRubs(b1, PutAll(t, [32, 32, 32, 32]), shell, 4);
  }

  /** Backspace on a line that is not at its break rubs out one character, or four
      for a tab. */
  lemma BackspaceRubs(b: L.Board, t: Term, shell: bool, n: nat)
    requires L.BoardOk(b) && Ok(t) && L.Len(L.Current(b)) != 73 && L.Current(b) != [] && !b.keys.ctrl && !b.keys.alt
    requires n == if L.Last(L.Current(b)).Tab? then 4 else 1
    requires !L.Last(L.Current(b)).Break? && n <= t.x
    ensures StaysOnScreen(FirstScreen(b, t, 0x0E, shell), KeyErasure(b, 0x0E))
    ensures KeyScreen(b, t, 0x0E, shell) == RubbedOut(t, n)
  {
    hide L.Sound, L.Text, L.Typed, RubbedOut;
    L.NothingTyped(b.keys);
    Y.BackspaceStarts(b, shell);
    Y.BackspaceEchoes(b, ColumnFits(FirstScreen(b, t, 0x0E, shell)));
  }

  /** How many terminals share the clock's interrupts: those that are booted. */
  lemma ActiveAreBooted(terminals: set<int>)
    requires terminals <= {1, 2, 3} && 1 in terminals
    ensures R.Active(KernelState.MaskOf(terminals)) == |terminals|
  {
    var mask := KernelState.MaskOf(terminals);
    MaskBits(terminals);
    assert R.Bits(mask, 3) == R.Bits(mask, 2) + if 3 in terminals then 1 else 0;
    assert R.Bits(mask, 2) == R.Bits(mask, 1) + if 2 in terminals then 1 else 0;
    assert terminals == {1} + (if 2 in terminals then {2} else {}) + (if 3 in terminals then {3} else {});
  }

  lemma MaskBits(terminals: set<int>)
    requires terminals <= {1, 2, 3} && 1 in terminals
    ensures var mask := KernelState.MaskOf(terminals);
            ((mask >> 1) & 1 == 1 <==> 2 in terminals) && ((mask >> 2) & 1 == 1 <==> 3 in terminals)
  {
  }

  /** The page that `vidmap` gives a program is the one that holds its terminal's
      screen. */
  lemma OwnPageHoldsScreen(shown: int, t: int)
    ensures P.OwnPage(shown, t) * P.SMALL_PAGE == P.VIDEO_MEM + S.Base(t, shown)
  {
  }
}
