/** The kernel's variables as one value, and when they stand for a state of the
    call-stack model: the shell masks, the slot marks and counter, the linked
    blocks, the page directory and the kernel stack pointer together. */
module KernelState {
  import opened Bytes
  import opened Paging
  import opened FileSystem
  import opened CallStacks
  import opened ControlBlocks
  import D = Descriptors

  /** `1 << (terminal - 1)` */
  function ShellBit(terminal: int): bv8 {
    if terminal == 1 then 1 else if terminal == 2 then 2 else 4
  }

  predicate HasBit(mask: bv8, terminal: int) {
    mask & ShellBit(terminal) != 0
  }

  /** The mask of a set of terminals. */
  function MaskOf(terminals: set<int>): bv8 {
    (if 1 in terminals then 1 else 0) | (if 2 in terminals then 2 else 0) | (if 3 in terminals then 4 else 0)
  }

  lemma MaskMembers(terminals: set<int>, t: int)
    requires t in TERMINALS
    ensures HasBit(MaskOf(terminals), t) <==> t in terminals
    ensures MaskOf(terminals) | ShellBit(t) == MaskOf(terminals + {t})
    ensures t in terminals ==> MaskOf(terminals) & !ShellBit(t) == MaskOf(terminals - {t})
    ensures t in terminals ==> MaskOf(terminals) ^ (MaskOf(terminals) & !ShellBit(t)) == ShellBit(t)
  {
  }

  datatype State = State(aux: int, live: bv8, booted: bv8, shellInitBoot: int, curProcess: int,
                         marks: seq<int>, mem: Memory, pdt: seq<int>, esp0: int)

  /** Slots 1 to 6 are marked exactly while their process lives; the auxiliary
      ones are counted. */
  ghost predicate AllocatorOk(aux: int, marks: seq<int>, s: Sys) {
    && |marks| == LAST_AUX
    && (forall pid :: 1 <= pid <= LAST_AUX ==> marks[pid - 1] == if InUse(s, pid) then 1 else 0)
    && aux == marks[3] + marks[4] + marks[5]
  }

  /** The processor runs the top of the current stack: its kernel stack, its page. */
  ghost predicate RunsTop(k: State, s: Sys)
    requires s.cur in s.stacks && s.stacks[s.cur] != []
  {
    k.curProcess == s.cur && k.esp0 == StackTop(Running(s).pid) && MapsOnly(k.pdt, Running(s).pid)
  }

  ghost predicate Consistent(img: Image, k: State, s: Sys) {
    && Valid(img, s)
    && s.cur in s.stacks && s.stacks[s.cur] != []
    && AllocatorOk(k.aux, k.marks, s)
    && k.booted == k.live == MaskOf(s.stacks.Keys) && k.shellInitBoot == 0
    && Represents(k.mem, s)
    && RunsTop(k, s)
  }

  /** What the invariant says about the running program and the accounts: the
      program sees its own frame, and is isolated exactly when the video entry is
      sealed; masking any stack pointer on its kernel stack finds its block; the
      count is the number of live auxiliary processes, at most three; and both
      masks name exactly the booted terminals. */
  lemma WhatRuns(img: Image, k: State, s: Sys, table: seq<int>, va: int, depth: int)
    requires Consistent(img, k, s) && VideoTable(table) && |k.pdt| == DIRECTORY_SIZE && VideoEntryOk(k.pdt[VIDEO_ENTRY])
    requires 0 <= va < 0x1_0000_0000 && 0 < depth <= PCB_MEM
    ensures s.cur in s.stacks && s.stacks[s.cur] != []
    ensures 0x800_0000 <= va < 0x840_0000 ==>
              UserTranslate(k.pdt, table, va) == Physical((Running(s).pid + 1) * PAGE_SIZE + (va - 0x800_0000))
    ensures Isolated(k.pdt, table, Running(s).pid) <==> Sealed(k.pdt[VIDEO_ENTRY])
    ensures MaskEsp(k.esp0 - depth) == PcbAddr(Running(s).pid)
    ensures k.aux == |set p | FIRST_AUX <= p <= LAST_AUX && InUse(s, p)| <= 3
    ensures k.live == k.booted && forall t :: t in TERMINALS ==> (HasBit(k.booted, t) <==> t in s.stacks)
  {
    UserWindow(k.pdt, table, Running(s).pid, va);
    RunningNumber(img, s);
    IsolatedWhenSealed(k.pdt, table, Running(s).pid);
    MaskFindsPcb(Running(s).pid, depth);
    CountedSlots(k.aux, k.marks, s);
    forall t | t in TERMINALS
      ensures HasBit(k.booted, t) <==> t in s.stacks
    {
      MaskMembers(s.stacks.Keys, t);
    }
  }

  lemma RunningNumber(img: Image, s: Sys)
    requires Valid(img, s)
    ensures s.stacks[s.cur] != [] && 1 <= Running(s).pid <= LAST_AUX
  {
    assert StackOk(img, s.cur, s.stacks[s.cur]);
  }

  lemma CountedSlots(aux: int, marks: seq<int>, s: Sys)
    requires AllocatorOk(aux, marks, s)
    ensures aux == |set p | FIRST_AUX <= p <= LAST_AUX && InUse(s, p)| <= 3
  {
    hide InUse;
    var live := set p | FIRST_AUX <= p <= LAST_AUX && InUse(s, p);
    var four, five, six := InUse(s, 4), InUse(s, 5), InUse(s, 6);
    assert marks[4 - 1] == (if four then 1 else 0) && marks[5 - 1] == (if five then 1 else 0)
        && marks[6 - 1] == if six then 1 else 0;
    assert live == AuxSet(four, five, six);
    AuxSetSize(four, five, six);
  }

  function AuxSet(four: bool, five: bool, six: bool): set<int> {
    (if four then {4} else {}) + (if five then {5} else {}) + (if six then {6} else {})
  }

  lemma AuxSetSize(four: bool, five: bool, six: bool)
    ensures |AuxSet(four, five, six)| == (if four then 1 else 0) + (if five then 1 else 0) + if six then 1 else 0
  {
  }

  // ------------------------------------------------------------------
  // The timer's choice
  // ------------------------------------------------------------------

  /** The rotation as the timer handler computes it from the mask. */
  function NextThread(cur: int, booted: bv8): int {
    var a := if cur + 1 == 4 then 1 else cur + 1;
    var b := if a == 2 && booted & 2 == 0 then a + 1 else a;
    if b == 3 && booted & 4 == 0 then 1 else b
  }

  /** The selected thread is booted, and is then the cyclic successor, exactly
      when terminal 1 is booted or a higher booted terminal is still ahead. With
      terminal 2 running and the only one booted, terminal 1 is selected. */
  lemma NextThreadIsCyclic(cur: int, terminals: set<int>)
    requires cur in TERMINALS && terminals <= TERMINALS
    ensures var next := NextThread(cur, MaskOf(terminals));
            && next in TERMINALS
            && (next in terminals <==> 1 in terminals || exists t :: t in terminals && cur < t)
            && (next in terminals ==> next == CyclicNext(cur, terminals))
    ensures NextThread(2, MaskOf({2})) == 1
  {
    var mask := MaskOf(terminals);
    MaskMembers(terminals, 2);
    MaskMembers(terminals, 3);
    assert forall t :: t in terminals && cur < t ==> t == 2 || t == 3;
  }

  // ------------------------------------------------------------------
  // What `execute` does to the variables
  // ------------------------------------------------------------------

  const AUX_LIMIT: int := 3
  const SHELL: seq<byte> := [115, 104, 101, 108, 108]

  /** The name starts with "shell": what `strncmp(name, "shell", 5) == 0` tests. */
  predicate IsShell(name: seq<byte>) {
    Upto(CString(name), 5) == SHELL
  }

  /** Slot numbers, counters and addresses as `execute` relies on them; `caller`
      is the process whose kernel stack it runs on, 0 before the first boot. */
  ghost predicate Ready(k: State, caller: int) {
    && 0 <= caller <= LAST_AUX && k.esp0 == StackTop(caller)
    && MemoryOk(k.mem) && k.mem[PcbAddr(caller)].processID == caller
    && |k.marks| == LAST_AUX
    && (caller >= FIRST_AUX ==> k.marks[caller - 1] != 0)
    && (forall i :: 3 <= i < 6 ==> k.marks[i] == 0 || k.marks[i] == 1)
    && k.aux == k.marks[3] + k.marks[4] + k.marks[5]
    && 0 <= k.shellInitBoot <= 3 && (k.shellInitBoot == 0 ==> DeadShells(k.booted, k.live) in {0, 1, 2, 4})
    && NoOtherUserPages(k.pdt)
  }

  /** The program about to start is a terminal's own shell. */
  predicate BaseBoot(k: State, shell: bool) {
    shell && (k.shellInitBoot != 0 || k.booted != k.live)
  }

  /** The shells that were booted and do not live. */
  function DeadShells(booted: bv8, live: bv8): bv8 {
    booted ^ live
  }

  lemma MasksEqual(a: bv8, b: bv8)
    ensures a ^ b == 0 <==> a == b
  {
  }

  /** A base boot that boots nothing new has one bit in which the masks differ. */
  lemma ShellChoice(k: State, caller: int)
    requires Ready(k, caller) && BaseBoot(k, true)
    ensures |k.marks| == LAST_AUX && 0 <= k.shellInitBoot <= 3
    ensures k.shellInitBoot == 0 ==> var dead := DeadShells(k.booted, k.live); dead == 1 || dead == 2 || dead == 4
  {
    hide MemoryOk, NoOtherUserPages;
    MasksEqual(k.booted, k.live);
  }

  predicate Full(marks: seq<int>)
    requires |marks| == LAST_AUX
  {
    marks[3] != 0 && marks[4] != 0 && marks[5] != 0
  }

  predicate Refuses(k: State, shell: bool)
    requires |k.marks| == LAST_AUX
  {
    !BaseBoot(k, shell) && Full(k.marks)
  }

  /** How the masks, marks and counter move when `pid` is chosen. */
  predicate Chosen(k: State, k': State, pid: int, base: bool)
    requires |k.marks| == LAST_AUX
  {
    && k' == k.(aux := k'.aux, live := k'.live, booted := k'.booted, shellInitBoot := k'.shellInitBoot, marks := k'.marks)
    && if base then
         && k'.aux == k.aux && k'.shellInitBoot == 0 && k'.live == k'.booted && 1 <= pid <= 3
         && (if k.shellInitBoot != 0 then
               && pid == k.shellInitBoot && k'.booted == k.booted | ShellBit(pid) && k'.marks == k.marks[pid - 1 := 1]
             else
               && ShellBit(pid) == k.booted ^ k.live && k'.booted == k.booted && k'.marks == k.marks)
       else
         && k'.aux == k.aux + 1 && k'.booted == k.booted && k'.live == k.live && k'.shellInitBoot == k.shellInitBoot
         && FIRST_AUX <= pid <= LAST_AUX && k.marks[pid - 1] == 0
         && (forall j :: 3 <= j < pid - 1 ==> k.marks[j] != 0)
         && k'.marks == k.marks[pid - 1 := 1]
  }

  lemma ReadyLimit(k: State, caller: int)
    requires Ready(k, caller)
    ensures |k.marks| == LAST_AUX && k.aux <= AUX_LIMIT
  {
  }

  lemma ShellChosen(k: State, k': State, pid: int)
    requires |k.marks| == LAST_AUX && 0 <= k.shellInitBoot <= 3
    requires if k.shellInitBoot != 0 then
               && pid == k.shellInitBoot
               && k' == k.(booted := k.booted | ShellBit(pid), live := k.booted | ShellBit(pid), shellInitBoot := 0,
                           marks := k.marks[pid - 1 := 1])
             else
               1 <= pid <= 3 && ShellBit(pid) == k.booted ^ k.live && k' == k.(live := k.booted)
    ensures Chosen(k, k', pid, true)
  {
  }

  lemma RebootChosen(k: State, k': State, pid: int, dead: bv8)
    requires |k.marks| == LAST_AUX && k.shellInitBoot == 0
    requires 1 <= pid <= 3 && ShellBit(pid) == dead && dead == DeadShells(k.booted, k.live) && k' == k.(live := k.booted)
    ensures Chosen(k, k', pid, true)
  {
  }

  /** The outcome of `execute`, and the variables afterwards. */
  ghost predicate Executed(k: State, k': State, shell: bool, loadable: bool, frame: Token, caller: int, outcome: Outcome)
    requires |k.marks| == LAST_AUX && PcbAddr(caller) in k.mem
  {
    if loadable && !Refuses(k, shell) then
      && outcome.Started? && 1 <= outcome.pid <= LAST_AUX
      && PcbAddr(outcome.pid) in k.mem && |k.mem[PcbAddr(outcome.pid)].files| == D.MAX_OPEN_FILES
      && Chosen(k, k'.(mem := k.mem, pdt := k.pdt, esp0 := k.esp0), outcome.pid, BaseBoot(k, shell))
      && k'.mem == Linked(k.mem, caller, outcome.pid, BaseBoot(k, shell), frame)
      && k'.esp0 == StackTop(outcome.pid) && MapsOnly(k'.pdt, outcome.pid)
    else
      outcome == Returned(if loadable then 1 else -1) && k' == k
  }

  // ------------------------------------------------------------------
  // Each change of the variables, seen as a step of the model
  // ------------------------------------------------------------------

  /** What every step may rely on. */
  lemma RunningFacts(img: Image, k: State, s: Sys)
    requires Consistent(img, k, s)
    ensures Valid(img, s) && s.cur in s.stacks && s.stacks[s.cur] != [] && Represents(k.mem, s)
    ensures k.booted == k.live == MaskOf(s.stacks.Keys) && k.shellInitBoot == 0 && k.curProcess == s.cur
    ensures s.stacks.Keys <= TERMINALS && s.cur in TERMINALS
    ensures var pid := Running(s).pid;
            && 1 <= pid <= LAST_AUX && |k.marks| == LAST_AUX && k.marks[pid - 1] == 1
            && k.esp0 == StackTop(pid) && PcbAddr(pid) in k.mem && MapsOnly(k.pdt, pid)
            && MemoryOk(k.mem) && k.mem[PcbAddr(pid)].processID == pid
            && k.aux == k.marks[3] + k.marks[4] + k.marks[5]
            && (forall i :: 0 <= i < LAST_AUX ==> k.marks[i] == 0 || k.marks[i] == 1)
  {
    RunningBlock(img, k.mem, s);
    RunningInUse(img, s);
    forall i | 0 <= i < LAST_AUX
      ensures k.marks[i] == 0 || k.marks[i] == 1
    {
      assert k.marks[(i + 1) - 1] == if InUse(s, i + 1) then 1 else 0;
    }
  }

  /** The first unmarked auxiliary slot is the model's choice. */
  lemma FreeSlotIsFreePid(img: Image, k: State, s: Sys, pid: int)
    requires Consistent(img, k, s)
    requires FIRST_AUX <= pid <= LAST_AUX && |k.marks| == LAST_AUX && k.marks[pid - 1] == 0
    requires forall j :: 3 <= j < pid - 1 ==> k.marks[j] != 0
    ensures pid == FreePid(s)
  {
    assert !InUse(s, pid);
    forall p | FIRST_AUX <= p < pid
      ensures InUse(s, p)
    {
      assert k.marks[p - 1] == if InUse(s, p) then 1 else 0;
    }
  }

  lemma AllMarkedIsFull(img: Image, k: State, s: Sys)
    requires Consistent(img, k, s)
    ensures |k.marks| == LAST_AUX
    ensures k.marks[3] != 0 && k.marks[4] != 0 && k.marks[5] != 0 <==> FreePid(s) == LAST_AUX + 1
  {
    assert k.marks[4 - 1] == if InUse(s, 4) then 1 else 0;
    assert k.marks[5 - 1] == if InUse(s, 5) then 1 else 0;
    assert k.marks[6 - 1] == if InUse(s, 6) then 1 else 0;
  }

  /** One slot changes its mark as its process starts or ends. */
  lemma AllocatorMoves(aux: int, marks: seq<int>, s: Sys, s': Sys, pid: int, alive: bool)
    requires AllocatorOk(aux, marks, s) && 1 <= pid <= LAST_AUX && InUse(s, pid) == !alive
    requires forall p :: InUse(s', p) <==> if p == pid then alive else InUse(s, p)
    ensures var mark := if alive then 1 else 0;
            AllocatorOk(if pid < FIRST_AUX then aux else if alive then aux + 1 else aux - 1, marks[pid - 1 := mark], s')
  {
    var marks' := marks[pid - 1 := if alive then 1 else 0];
    assert marks[pid - 1] == if alive then 0 else 1;
    forall p | 1 <= p <= LAST_AUX
      ensures marks'[p - 1] == if InUse(s', p) then 1 else 0
    {
      assert marks[p - 1] == if InUse(s, p) then 1 else 0;
    }
  }

  /** An auxiliary program starts, or is refused. */
  lemma PushConsistent(img: Image, k: State, s: Sys, k': State, name: seq<byte>, junk: seq<byte>, frame: Token,
                       outcome: Outcome)
    requires WellFormed(img) && Consistent(img, k, s)
    requires 1 <= Running(s).pid <= LAST_AUX && Ready(k, Running(s).pid)
    requires Executed(k, k', IsShell(name), Executable(img, CString(name), junk), frame, Running(s).pid, outcome)
    ensures Valid(img, s)
    ensures Consistent(img, k', Step(img, s, Execute(name, junk, frame)).0)
    ensures outcome == Step(img, s, Execute(name, junk, frame)).1
  {
    hide Consistent, Valid, Represents, MemoryOk, NoOtherUserPages, MapsOnly, InUse, WellFormed, Executable, IsShell;
    RunningFacts(img, k, s);
    AllMarkedIsFull(img, k, s);
    if outcome.Started? {
      FreeSlotIsFreePid(img, k, s, outcome.pid);
      PushedConsistent(img, k, s, k', outcome.pid, frame);
    }
  }

  lemma PushedConsistent(img: Image, k: State, s: Sys, k': State, pid: int, frame: Token)
    requires WellFormed(img) && Consistent(img, k, s) && pid == FreePid(s) <= LAST_AUX
    requires PcbAddr(pid) in k.mem && PcbAddr(Running(s).pid) in k.mem && |k.mem[PcbAddr(pid)].files| == 8
    requires |k.marks| == LAST_AUX && MapsOnly(k'.pdt, pid)
    requires k' == k.(aux := k.aux + 1, marks := k.marks[pid - 1 := 1],
                      mem := Linked(k.mem, Running(s).pid, pid, false, frame), pdt := k'.pdt, esp0 := StackTop(pid))
    ensures Consistent(img, k', Pushed(s, pid, frame))
  {
    hide Valid, Represents, MapsOnly;
    PushKeepsValid(img, s, frame);
    PushRepresents(img, k.mem, s, frame);
    PushedProcesses(s, pid, frame);
    AllocatorMoves(k.aux, k.marks, s, Pushed(s, pid, frame), pid, true);
    assert Pushed(s, pid, frame).stacks.Keys == s.stacks.Keys;
  }

  lemma PushedProcesses(s: Sys, pid: int, frame: Token)
    requires s.cur in s.stacks
    ensures forall p :: InUse(Pushed(s, pid, frame), p) <==> InUse(s, p) || p == pid
  {
    var s', n := Pushed(s, pid, frame), |s.stacks[s.cur]|;
    assert At(s', s.cur, n, pid);
    forall p
      ensures InUse(s', p) <==> InUse(s, p) || p == pid
    {
      if InUse(s, p) {
        var t, k :| At(s, t, k, p);
        assert At(s', t, k, p);
      }
      if InUse(s', p) {
        var t, k :| At(s', t, k, p);
        assert At(s, t, k, p) || p == pid;
      }
    }
  }

  /** An auxiliary program ends. */
  lemma PopConsistent(img: Image, k: State, s: Sys, k': State, parent: int, status: int)
    requires WellFormed(img) && Consistent(img, k, s) && |s.stacks[s.cur]| > 1
    requires parent == s.stacks[s.cur][|s.stacks[s.cur]| - 2].pid
    requires PcbAddr(Running(s).pid) in k.mem && PcbAddr(parent) in k.mem
    requires 1 <= Running(s).pid <= LAST_AUX && |k.marks| == LAST_AUX
    requires k'.mem == Unlinked(k.mem, Running(s).pid, parent, status)
    requires k'.marks == k.marks[Running(s).pid - 1 := 0] && k'.aux == k.aux - 1
    requires k'.booted == k.booted && k'.live == k.live && k'.shellInitBoot == 0 && k'.curProcess == k.curProcess
    requires k'.esp0 == StackTop(parent) && MapsOnly(k'.pdt, parent)
    ensures Consistent(img, k', Popped(s))
  {
    hide Valid, Represents;
    RunningFacts(img, k, s);
    PopKeepsValid(img, s);
    PopRepresents(img, k.mem, s, parent, status);
    PopAllocator(img, k, s);
    assert Popped(s).stacks.Keys == s.stacks.Keys;
  }

  lemma PopAllocator(img: Image, k: State, s: Sys)
    requires Consistent(img, k, s) && |s.stacks[s.cur]| > 1
    requires 1 <= Running(s).pid <= LAST_AUX && |k.marks| == LAST_AUX
    ensures AllocatorOk(k.aux - 1, k.marks[Running(s).pid - 1 := 0], Popped(s))
  {
    PoppedOut(img, s);
    RunningInUse(img, s);
    RunningBlock(img, k.mem, s);
    AllocatorMoves(k.aux, k.marks, s, Popped(s), Running(s).pid, false);
  }

  lemma PoppedOut(img: Image, s: Sys)
    requires Valid(img, s) && |s.stacks[s.cur]| > 1
    ensures forall p :: InUse(Popped(s), p) <==> InUse(s, p) && p != Running(s).pid
  {
    var s' := Popped(s);
    assert At(s, s.cur, |s.stacks[s.cur]| - 1, Running(s).pid);
    forall p
      ensures InUse(s', p) <==> InUse(s, p) && p != Running(s).pid
    {
      if p != Running(s).pid {
        PoppedProcesses(img, s, p);
      }
      if InUse(s', p) {
        var t, k :| At(s', t, k, p);
        assert At(s, t, k, p);
      }
    }
  }

  /** The running process's files or block change, nothing else. */
  lemma FilesConsistent(img: Image, k: State, s: Sys, k': State, b: Pcb)
    requires WellFormed(img) && Consistent(img, k, s)
    requires PcbAddr(Running(s).pid) in k.mem && FilesOk(b.files) && D.TableOk(img, ViewFiles(b.files))
    requires b.processID == Running(s).pid && b.child == 0 && b.parent == k.mem[PcbAddr(Running(s).pid)].parent
    requires k'.mem == k.mem[PcbAddr(Running(s).pid) := b]
    requires k'.marks == k.marks && k'.aux == k.aux
    requires k'.booted == k.booted && k'.live == k.live && k'.shellInitBoot == 0 && k'.curProcess == k.curProcess
    requires k'.esp0 == StackTop(Running(s).pid) && MapsOnly(k'.pdt, Running(s).pid)
    ensures Consistent(img, k', Retabled(s, ViewFiles(b.files)))
  {
    hide Valid, Represents, WellFormed, InUse;
    var s' := Retabled(s, ViewFiles(b.files));
    FilesKeepValid(img, s, ViewFiles(b.files));
    RetableRepresents(img, k.mem, s, b);
    SameInUse(s, ViewFiles(b.files));
    assert s'.stacks.Keys == s.stacks.Keys;
  }

  lemma SameInUse(s: Sys, files: D.Table)
    requires s.cur in s.stacks && s.stacks[s.cur] != []
    ensures forall p :: InUse(Retabled(s, files), p) <==> InUse(s, p)
  {
    forall p
      ensures InUse(Retabled(s, files), p) <==> InUse(s, p)
    {
      SameProcesses(s, files, p);
      if InUse(Retabled(s, files), p) {
        var t, k :| At(Retabled(s, files), t, k, p);
        assert At(s, t, k, p);
      }
    }
  }

  /** A base shell that has closed its files may be started over: the masks
      differ in exactly one bit, that of its own terminal. */
  lemma ReadyToReboot(img: Image, k: State, s: Sys, status: int)
    requires WellFormed(img) && Consistent(img, k, s) && Running(s).pid <= 3
    requires PcbAddr(Running(s).pid) in k.mem
    ensures var k1 := k.(mem := Exited(k.mem, Running(s).pid, status), live := k.live & !ShellBit(Running(s).pid));
            Ready(k1, Running(s).pid) && BaseBoot(k1, true)
    ensures Running(s).pid == s.cur && k.booted == k.live
            && DeadShells(k.booted, k.live & !ShellBit(Running(s).pid)) == ShellBit(s.cur)
    ensures Exited(k.mem, Running(s).pid, status)[PcbAddr(Running(s).pid)].processID == Running(s).pid
    ensures |k.marks| == LAST_AUX && Valid(img, s) && s.cur in s.stacks && s.stacks[s.cur] != []
  {
    hide Valid, WellFormed, ViewFiles, InUse, MaskOf, ShellBit, DeadShells;
    RunningFacts(img, k, s);
    RunningBlock(img, k.mem, s);
    ClosedFiles(k.mem[PcbAddr(s.cur)].files);
    HaltClearsOneBit(s.stacks.Keys, s.cur);
  }

  lemma HaltClearsOneBit(terminals: set<int>, t: int)
    requires t in TERMINALS && t in terminals
    ensures var mask := MaskOf(terminals);
            && mask != mask & !ShellBit(t)
            && DeadShells(mask, mask & !ShellBit(t)) == ShellBit(t) && ShellBit(t) in {1, 2, 4}
  {
    MaskMembers(terminals, t);
    BitsDistinct(t, 1);
    MasksEqual(MaskOf(terminals), MaskOf(terminals) & !ShellBit(t));
  }

  lemma BitsDistinct(t: int, u: int)
    requires t in TERMINALS && u in TERMINALS
    ensures ShellBit(t) == ShellBit(u) <==> t == u
    ensures ShellBit(t) in {1, 2, 4}
  {
  }

  /** A base shell ended and the same shell started over in its slot. */
  lemma RebootConsistent(img: Image, k: State, s: Sys, k1: State, k': State, status: nat, frame: Token, outcome: Outcome)
    requires WellFormed(img) && Consistent(img, k, s) && Running(s).pid <= 3
    requires PcbAddr(Running(s).pid) in k.mem && |k.marks| == LAST_AUX
    requires k1 == k.(mem := Exited(k.mem, Running(s).pid, status), live := k.live & !ShellBit(Running(s).pid))
    requires Executed(k1, k', true, true, frame, Running(s).pid, outcome)
    ensures Valid(img, s)
    ensures Consistent(img, k', Step(img, s, Halt(status, frame)).0)
    ensures outcome == Step(img, s, Halt(status, frame)).1
  {
    hide Consistent, Valid, Represents, MemoryOk, NoOtherUserPages, MapsOnly, InUse;
    RunningFacts(img, k, s);
    RunningBlock(img, k.mem, s);
    MaskMembers(s.stacks.Keys, s.cur);
    ReadyToReboot(img, k, s, status);
    BitsDistinct(outcome.pid, s.cur);
    RebootedConsistent(img, k, s, k', status, frame);
  }

  lemma RebootedConsistent(img: Image, k: State, s: Sys, k': State, status: nat, frame: Token)
    requires WellFormed(img) && Consistent(img, k, s) && Running(s).pid == s.cur && |s.stacks[s.cur]| == 1
    requires PcbAddr(s.cur) in k.mem && |k.mem[PcbAddr(s.cur)].files| == D.MAX_OPEN_FILES
    requires MapsOnly(k'.pdt, s.cur)
    requires k' == k.(mem := Linked(Exited(k.mem, s.cur, status), s.cur, s.cur, true, frame), pdt := k'.pdt)
    ensures Consistent(img, k', s.(stacks := s.stacks[s.cur := [Proc(s.cur, None, D.FRESH)]]))
  {
    hide Valid, Represents, MemoryOk, NoOtherUserPages, InUse;
    RunningBlock(img, k.mem, s);
    var b := k'.mem[PcbAddr(s.cur)];
    ClosedFiles(k.mem[PcbAddr(s.cur)].files);
    FreshFiles(AllClosed(k.mem[PcbAddr(s.cur)].files));
    FreshTableOk(img);
    assert k'.mem == k.mem[PcbAddr(s.cur) := b];
    FilesConsistent(img, k, s, k', b);
    BaseHasNoCaller(img, k, s);
    assert s.stacks[s.cur][0 := Proc(s.cur, None, D.FRESH)] == [Proc(s.cur, None, D.FRESH)];
  }

  lemma BaseHasNoCaller(img: Image, k: State, s: Sys)
    requires Consistent(img, k, s)
    ensures s.stacks[s.cur][0].resume == None
  {
    assert StackOk(img, s.cur, s.stacks[s.cur]);
  }

  lemma FreshTableOk(img: Image)
    ensures D.TableOk(img, D.FRESH)
  {
  }

  /** The timer gives the processor to another booted thread. */
  lemma SwitchConsistent(img: Image, k: State, s: Sys, k': State, next: int, frame: Token)
    requires WellFormed(img) && Consistent(img, k, s) && next in s.stacks && next != s.cur
    requires next == CyclicNext(s.cur, s.stacks.Keys)
    requires PcbAddr(Running(s).pid) in k.mem && s.stacks[next] != []
    requires k'.mem == Parked(k.mem, Running(s).pid, frame)
    requires k'.marks == k.marks && k'.aux == k.aux
    requires k'.booted == k.booted && k'.live == k.live && k'.shellInitBoot == 0 && k'.curProcess == next
    requires k'.esp0 == StackTop(Top(s.stacks[next]).pid) && MapsOnly(k'.pdt, Top(s.stacks[next]).pid)
    ensures Consistent(img, k', Sys(s.stacks, next, (s.parked - {next})[s.cur := frame]))
  {
    hide Valid, Represents;
    var s' := Sys(s.stacks, next, (s.parked - {next})[s.cur := frame]);
    StepKeepsValid(img, s, Tick(frame));
    SwitchRepresents(img, k.mem, s, next, frame);
    forall p
      ensures InUse(s', p) <==> InUse(s, p)
    {
      MoreStacks(s, s', p);
      MoreStacks(s', s, p);
    }
  }

  /** The interrupted process is parked and a new terminal is due. */
  lemma ReadyToBootTerminal(img: Image, k: State, s: Sys, t: int, frame: Token)
    requires WellFormed(img) && Consistent(img, k, s) && t in TERMINALS && t !in s.stacks
    requires PcbAddr(Running(s).pid) in k.mem
    ensures var k1 := k.(mem := Parked(k.mem, Running(s).pid, frame), shellInitBoot := t, curProcess := t);
            Ready(k1, Running(s).pid) && BaseBoot(k1, true)
  {
    RunningFacts(img, k, s);
  }

  /** A new terminal boots its shell. */
  lemma TerminalConsistent(img: Image, k: State, s: Sys, k1: State, k': State, t: int, frame: Token, entryFrame: Token,
                           outcome: Outcome)
    requires WellFormed(img) && Consistent(img, k, s) && t in TERMINALS && t !in s.stacks
    requires PcbAddr(Running(s).pid) in k.mem && |k.marks| == LAST_AUX
    requires k1 == k.(mem := Parked(k.mem, Running(s).pid, frame), shellInitBoot := t, curProcess := t)
    requires Executed(k1, k', true, true, entryFrame, Running(s).pid, outcome)
    ensures Valid(img, s)
    ensures Consistent(img, k', Step(img, s, SelectTerminal(t, frame, entryFrame)).0)
    ensures outcome == Step(img, s, SelectTerminal(t, frame, entryFrame)).1
  {
    hide Valid, Represents, MemoryOk, WellFormed, InUse, Linked, ViewFiles, MaskOf, ShellBit;
    var s' := Sys(s.stacks[t := [Proc(t, None, D.FRESH)]], t, s.parked[s.cur := frame]);
    TerminalStep(img, s, t, frame, entryFrame);
    hide Step;
    NotInUse(img, s, t);
    RunningInUse(img, s);
    BootKeepsValid(img, s, t, frame);
    BootRepresents(img, k.mem, s, t, frame, entryFrame);
    BootedProcesses(img, s, s', t);
    MaskMembers(s.stacks.Keys, t);
    assert s'.stacks.Keys == s.stacks.Keys + {t};
    AllocatorMoves(k.aux, k.marks, s, s', t, true);
  }

  lemma TerminalStep(img: Image, s: Sys, t: int, frame: Token, entryFrame: Token)
    requires WellFormed(img) && Valid(img, s) && t in TERMINALS && t !in s.stacks
    ensures Step(img, s, SelectTerminal(t, frame, entryFrame))
            == (Sys(s.stacks[t := [Proc(t, None, D.FRESH)]], t, s.parked[s.cur := frame]), Started(t))
  {
  }

  lemma BootedProcesses(img: Image, s: Sys, s': Sys, t: int)
    requires t !in s.stacks && s'.stacks == s.stacks[t := [Proc(t, None, D.FRESH)]]
    ensures forall p :: InUse(s', p) <==> InUse(s, p) || p == t
  {
    assert At(s', t, 0, t);
    forall p
      ensures InUse(s', p) <==> InUse(s, p) || p == t
    {
      MoreStacks(s, s', p);
      if InUse(s', p) {
        var u, k :| At(s', u, k, p);
        assert At(s, u, k, p) || p == t;
      }
    }
  }

  lemma PoweredUpReady(k: State)
    requires k == State(0, 0, 0, 1, 1, [0, 0, 0, 0, 0, 0], ZeroMemory(), k.pdt, BASE_MEM) && NoOtherUserPages(k.pdt)
    ensures Ready(k, 0) && BaseBoot(k, true)
  {
    PoweredUpMemory(k.mem);
  }

  /** The first shell runs. */
  lemma BootConsistent(img: Image, k: State, k': State, frame: Token, outcome: Outcome)
    requires k == State(0, 0, 0, 1, 1, [0, 0, 0, 0, 0, 0], ZeroMemory(), k.pdt, BASE_MEM)
    requires Executed(k, k', true, true, frame, 0, outcome)
    ensures Consistent(img, k', BOOT_STATE) && outcome == Started(1)
  {
    hide Valid, Represents, WellFormed, MemoryOk, InUse;
    BootStateValid(img);
    BootMemory(frame);
    BootProcesses();
    assert k'.marks == [1, 0, 0, 0, 0, 0];
  }

  lemma PoweredUpMemory(mem: Memory)
    requires mem == ZeroMemory()
    ensures MemoryOk(mem) && forall pid :: 0 <= pid <= LAST_AUX ==> ViewFiles(mem[PcbAddr(pid)].files) == map[]
  {
    assert ViewFiles(ZERO_PCB.files) == map[];
  }

  lemma BootProcesses()
    ensures forall p :: InUse(BOOT_STATE, p) <==> p == 1
  {
    assert At(BOOT_STATE, 1, 0, 1);
  }

  lemma BootMemory(frame: Token)
    requires PcbAddr(0) in ZeroMemory() && PcbAddr(1) in ZeroMemory()
    ensures Represents(Linked(ZeroMemory(), 0, 1, true, frame), BOOT_STATE)
  {
    PoweredUpMemory(ZeroMemory());
    FreshFiles(ZERO_PCB.files);
    BootProcesses();
    var mem := Linked(ZeroMemory(), 0, 1, true, frame);
    assert BlockOk(mem, BOOT_STATE.stacks[1], 0);
    assert StackHeld(mem, BOOT_STATE, 1);
    hide ViewFiles, InUse, At;
  }

  /** Any booted thread, looked at from outside. */
  lemma ThreadFacts(img: Image, k: State, s: Sys, t: int)
    requires Consistent(img, k, s) && t in s.stacks
    ensures var stack := s.stacks[t];
            && stack != [] && stack[0].pid == t && ChainOk(k.mem, stack)
            && (forall i :: 0 <= i < |stack| ==> 0 <= stack[i].pid <= LAST_AUX)
            && 1 <= Top(stack).pid && PcbAddr(Top(stack).pid) in k.mem
            && k.mem[PcbAddr(Top(stack).pid)].processID == Top(stack).pid
            && (t != s.cur ==> Top(stack).pid != Running(s).pid && t in s.parked
                               && k.mem[PcbAddr(Top(stack).pid)].schedEbp == s.parked[t])
  {
    hide InUse, FilesOk, ViewFiles;
    var stack := s.stacks[t];
    assert StackOk(img, t, stack) && StackHeld(k.mem, s, t);
    assert BlockOk(k.mem, stack, |stack| - 1);
    assert At(s, t, |stack| - 1, Top(stack).pid) && At(s, s.cur, |s.stacks[s.cur]| - 1, Running(s).pid);
  }

  lemma ReadyWhenConsistent(img: Image, k: State, s: Sys)
    requires Consistent(img, k, s)
    ensures Valid(img, s) && s.cur in s.stacks && s.stacks[s.cur] != []
    ensures Ready(k, Running(s).pid) && 1 <= Running(s).pid <= LAST_AUX
  {
    RunningFacts(img, k, s);
    MasksEqual(k.booted, k.live);
  }

  /** An exited auxiliary program has a parent to return to. */
  lemma ReadyToReturn(img: Image, k: State, s: Sys, status: int) returns (parent: int)
    requires Consistent(img, k, s) && Running(s).pid > 3 && PcbAddr(Running(s).pid) in k.mem
    ensures Valid(img, s) && |s.stacks[s.cur]| > 1 && s.stacks[s.cur] != []
    ensures parent == s.stacks[s.cur][|s.stacks[s.cur]| - 2].pid
    ensures var exited := Exited(k.mem, Running(s).pid, status);
            && 1 <= parent <= LAST_AUX && parent != Running(s).pid <= LAST_AUX && PcbAddr(parent) in k.mem
            && exited[PcbAddr(Running(s).pid)].parent == PcbAddr(parent)
            && exited[PcbAddr(Running(s).pid)].processID == Running(s).pid
            && exited[PcbAddr(parent)].processID == parent
            && Running(s).resume == Some(exited[PcbAddr(parent)].ebp)
    ensures NoOtherUserPages(k.pdt) && |k.marks| == LAST_AUX && k.shellInitBoot == 0
  {
    RunningFacts(img, k, s);
    RunningBlock(img, k.mem, s);
    ParentOfRunning(img, k.mem, s, status);
    parent := s.stacks[s.cur][|s.stacks[s.cur]| - 2].pid;
  }

  /** The selected thread's chain can be followed to its end. */
  lemma ReadyToSwitch(img: Image, k: State, s: Sys, next: int)
    requires Consistent(img, k, s) && next != s.cur && next == CyclicNext(s.cur, s.stacks.Keys)
    ensures Valid(img, s) && next in s.stacks
    ensures var stack := s.stacks[next];
            && stack != [] && stack[0].pid == next && ChainOk(k.mem, stack)
            && (forall i :: 0 <= i < |stack| ==> 0 <= stack[i].pid <= LAST_AUX)
            && 1 <= Top(stack).pid && PcbAddr(Top(stack).pid) in k.mem
            && k.mem[PcbAddr(Top(stack).pid)].processID == Top(stack).pid
            && Top(stack).pid != Running(s).pid && next in s.parked
            && k.mem[PcbAddr(Top(stack).pid)].schedEbp == s.parked[next]
    ensures PcbAddr(Running(s).pid) in k.mem && NoOtherUserPages(k.pdt) && k.shellInitBoot == 0
  {
    RunningFacts(img, k, s);
    ThreadFacts(img, k, s, next);
  }

  /** A file system call of the running process changes its table only. */
  lemma SyscallConsistent(img: Image, k: State, s: Sys, files: seq<FileDescriptor>, op: D.Op)
    requires WellFormed(img) && Consistent(img, k, s)
    requires PcbAddr(Running(s).pid) in k.mem && FilesOk(files)
    requires D.TableOk(img, Running(s).files) && Valid(img, s)
    requires ViewFiles(files) == D.Step(img, Running(s).files, op).0
    ensures Consistent(img, k.(mem := k.mem[PcbAddr(Running(s).pid) := k.mem[PcbAddr(Running(s).pid)].(files := files)]),
                       Step(img, s, Syscall(op)).0)
  {
    hide Consistent, Represents, WellFormed;
    ShowsRepresented(img, k, s);
    RunningBlock(img, k.mem, s);
    D.StepKeepsTableOk(img, Running(s).files, op);
    var b := k.mem[PcbAddr(Running(s).pid)].(files := files);
    FilesConsistent(img, k, s, k.(mem := k.mem[PcbAddr(Running(s).pid) := b]), b);
  }

  /** Another entry of the page directory, under which the running program still
      has its own page, is no matter. */
  lemma VideoConsistent(img: Image, k: State, s: Sys, pdt: seq<int>)
    requires Consistent(img, k, s) && MapsOnly(pdt, Running(s).pid)
    ensures Consistent(img, k.(pdt := pdt), s)
  {
  }

  lemma RunningPage(img: Image, k: State, s: Sys)
    requires Consistent(img, k, s)
    ensures Valid(img, s) && s.cur in s.stacks && s.stacks[s.cur] != []
    ensures MapsOnly(k.pdt, Running(s).pid) && k.curProcess == s.cur && s.cur in TERMINALS
  {
  }

  /** What `vidmap` answers, in terms of the page directory: an address is accepted
      exactly when it or the byte before it lies in the 4 MB of directory entry
      32, and the machine hangs exactly when one of the four bytes stored faults. */
  lemma VidmapOutcome(img: Image, k: State, s: Sys, table: seq<int>, address: nat, largeBit: Bit)
    requires WellFormed(img) && Consistent(img, k, s) && VideoTable(table) && address < 0x1_0000_0000 - 4
    ensures Valid(img, s) && |k.pdt| == DIRECTORY_SIZE && |table| == DIRECTORY_SIZE
    ensures var outcome := Step(img, s, MapVideo(address, largeBit)).1;
            var accepted := address > 0 && (address / 0x40_0000 == 32 || (address - 1) / 0x40_0000 == 32);
            && (outcome == Returned(-1) <==> !accepted)
            && (outcome == Hung <==> accepted && exists va :: address <= va < address + 4 && UserTranslate(k.pdt, table, va) == Fault)
            && (outcome.Returned? || outcome == Hung) && (outcome.Returned? ==> outcome.code == -1 || outcome.code == 0)
  {
    hide WellFormed, Represents, AllocatorOk, VideoTable;
    RunningPage(img, k, s);
    if VideoRequestOk(address) {
      StoreIsMapped(k.pdt, table, Running(s).pid, address);
    }
    VideoSizes(k.pdt, table, Running(s).pid);
    if VideoRequestOk(address) && !StoreFaults(address) {
      forall va | address <= va < address + 4
        ensures UserTranslate(k.pdt, table, va) != Fault
      {
      }
    } else if VideoRequestOk(address) {
      var va :| address <= va < address + 4 && !UserTranslate(k.pdt, table, va).Physical?;
      assert UserTranslate(k.pdt, table, va) == Fault;
    }
  }

  lemma VideoSizes(directory: seq<int>, table: seq<int>, pid: int)
    requires MapsOnly(directory, pid) && VideoTable(table)
    ensures |directory| == DIRECTORY_SIZE && |table| == DIRECTORY_SIZE
  {
  }

  /** The mask bit of terminal `t` is 1 shifted by `t - 1`. */
  lemma BitsAreShifts()
    ensures ShellBit(1) == 1 && ShellBit(2) == 1 << 1 && ShellBit(3) == 1 << 2
  {
  }

  /** A call that changes no descriptor changes nothing. */
  lemma TableKept(img: Image, s: Sys, op: D.Op)
    requires WellFormed(img) && Valid(img, s) && D.TableOk(img, Running(s).files)
    requires D.Step(img, Running(s).files, op).0 == Running(s).files
    ensures Step(img, s, Syscall(op)).0 == s
  {
    hide WellFormed;
    var stack := s.stacks[s.cur];
    assert stack[|stack| - 1 := Top(stack).(files := Running(s).files)] == stack;
  }

  lemma ShowsRepresented(img: Image, k: State, s: Sys)
    requires Consistent(img, k, s)
    ensures Valid(img, s) && Represents(k.mem, s)
    ensures RunsTop(k, s) && k.booted == k.live && k.shellInitBoot == 0
  {
  }

  lemma SyscallOutcome(img: Image, s: Sys, op: D.Op)
    requires WellFormed(img) && Valid(img, s) && D.TableOk(img, Running(s).files)
    ensures Step(img, s, Syscall(op)).1 == Answered(D.Step(img, Running(s).files, op).1)
  {
  }

  /** What a file system call may rely on. */
  lemma RunningTable(img: Image, k: State, s: Sys)
    requires Consistent(img, k, s)
    ensures Valid(img, s) && s.cur in s.stacks && s.stacks[s.cur] != []
    ensures 1 <= Running(s).pid <= LAST_AUX && PcbAddr(Running(s).pid) in k.mem
    ensures var files := k.mem[PcbAddr(Running(s).pid)].files;
            FilesOk(files) && ViewFiles(files) == Running(s).files && D.TableOk(img, Running(s).files)
    ensures k.esp0 == StackTop(Running(s).pid)
  {
    RunningBlock(img, k.mem, s);
    assert StackOk(img, s.cur, s.stacks[s.cur]);
  }
}
