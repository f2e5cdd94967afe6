/** The reference model of the process system: one call stack per booted
    terminal, one of them running, the others parked at the frame where they
    were switched out. The kernel's linked control blocks, masks and counters
    are proved to implement exactly this. */
module CallStacks {
  import opened Bytes
  import opened FileSystem
  import P = Paging
  import D = Descriptors

  const TERMINALS: set<int> := {1, 2, 3}
  const FIRST_AUX: int := 4
  const LAST_AUX: int := 6
  const USER_STACK: int := 0x840_0000

  /** A saved frame pointer. Nothing but its identity matters. */
  type Token = int

  type Bit = P.Bit

  datatype Option<T> = None | Some(value: T)

  /** A live process. `resume` is the frame its caller saved when it started
      it; the base shell of a terminal has no caller. */
  datatype Proc = Proc(pid: int, resume: Option<Token>, files: D.Table)

  datatype Sys = Sys(stacks: map<int, seq<Proc>>, cur: int, parked: map<int, Token>)

  /** What can enter the kernel. `junk` is what the stack held where `execute`
      puts a file's header, `largeBit` what it held where `vidmap` leaves the
      page-size bit of a directory entry; frames are the interrupted or calling
      code's. */
  datatype Event =
    | Execute(name: seq<byte>, junk: seq<byte>, frame: Token)
    | Halt(status: nat, frame: Token)
    | Tick(frame: Token)
    | SelectTerminal(terminal: int, frame: Token, entryFrame: Token)
    | Syscall(op: D.Op)
    | MapVideo(address: int, largeBit: Bit)

  datatype Outcome =
    | Returned(code: int)                 // back to the caller of the system call
    | Started(pid: int)                   // a program begins in user mode
    | Resumed(frame: Token, code: int)    // a caller goes on with the exit code
    | Switched(frame: Token)              // another thread goes on
    | Undisturbed                         // the interrupted thread goes on
    | Answered(result: D.Result)          // a file system call answers
    | Hung                                // the machine stops for good

  // ------------------------------------------------------------------
  // States
  // ------------------------------------------------------------------

  ghost predicate At(s: Sys, t: int, k: int, pid: int) {
    t in s.stacks && 0 <= k < |s.stacks[t]| && s.stacks[t][k].pid == pid
  }

  ghost predicate InUse(s: Sys, pid: int) {
    exists t, k :: At(s, t, k, pid)
  }

  /** One stack: the terminal's own shell at the bottom, callees above it. */
  ghost predicate StackOk(img: Image, t: int, stack: seq<Proc>) {
    && stack != [] && stack[0].pid == t && stack[0].resume.None?
    && (forall k :: 1 <= k < |stack| ==> FIRST_AUX <= stack[k].pid <= LAST_AUX && stack[k].resume.Some?)
    && (forall k :: 0 <= k < |stack| ==> D.TableOk(img, stack[k].files))
  }

  ghost predicate Valid(img: Image, s: Sys) {
    && s.stacks.Keys <= TERMINALS && 1 in s.stacks && s.cur in s.stacks
    && s.parked.Keys == s.stacks.Keys - {s.cur}
    && (forall t :: t in s.stacks ==> StackOk(img, t, s.stacks[t]))
    && Disjoint(s)
  }

  /** No process is in two places. */
  ghost predicate Disjoint(s: Sys) {
    forall t, k, t', k', pid :: At(s, t, k, pid) && At(s, t', k', pid) ==> t == t' && k == k'
  }

  function Top(stack: seq<Proc>): Proc
    requires stack != []
  {
    stack[|stack| - 1]
  }

  function Running(s: Sys): Proc
    requires s.cur in s.stacks && s.stacks[s.cur] != []
  {
    Top(s.stacks[s.cur])
  }

  const BOOT_STATE: Sys := Sys(map[1 := [Proc(1, None, D.FRESH)]], 1, map[])

  // ------------------------------------------------------------------
  // Steps
  // ------------------------------------------------------------------

  /** The least free auxiliary process number, or 7 when all are taken. */
  ghost function FreePid(s: Sys): (pid: int)
    ensures FIRST_AUX <= pid <= LAST_AUX + 1
    ensures pid <= LAST_AUX ==> !InUse(s, pid)
    ensures forall p :: FIRST_AUX <= p < pid ==> InUse(s, p)
  {
    if !InUse(s, 4) then 4 else if !InUse(s, 5) then 5 else if !InUse(s, 6) then 6 else 7
  }

  function Succ(t: int): int {
    if t == 3 then 1 else t + 1
  }

  /** The next booted terminal after `t`, going round. */
  function CyclicNext(t: int, booted: set<int>): int {
    if Succ(t) in booted then Succ(t) else if Succ(Succ(t)) in booted then Succ(Succ(t)) else t
  }

  function ExitCode(status: nat): nat {
    if status == 256 then 256 else status % 256
  }

  ghost function Step(img: Image, s: Sys, e: Event): (Sys, Outcome)
    requires WellFormed(img) && Valid(img, s)
  {
    var stack := s.stacks[s.cur];
    match e
    case Execute(name, junk, frame) =>
      var pid := FreePid(s);
      if !Executable(img, CString(name), junk) then (s, Returned(-1))
      else if pid > LAST_AUX then (s, Returned(1))
      else (s.(stacks := s.stacks[s.cur := stack + [Proc(pid, Some(frame), D.FRESH)]]), Started(pid))
    case Halt(status, _) =>
      if |stack| == 1 then (s.(stacks := s.stacks[s.cur := [Proc(s.cur, None, D.FRESH)]]), Started(s.cur))
      else (s.(stacks := s.stacks[s.cur := stack[..|stack| - 1]]), Resumed(Top(stack).resume.value, ExitCode(status)))
    case Tick(frame) =>
      var next := CyclicNext(s.cur, s.stacks.Keys);
      if next == s.cur then (s, Undisturbed)
      else (Sys(s.stacks, next, (s.parked - {next})[s.cur := frame]), Switched(s.parked[next]))
    case SelectTerminal(t, frame, _) =>
      if t !in TERMINALS || t in s.stacks then (s, Undisturbed)
      else (Sys(s.stacks[t := [Proc(t, None, D.FRESH)]], t, s.parked[s.cur := frame]), Started(t))
    case Syscall(op) =>
      var step := D.Step(img, Top(stack).files, op);
      (s.(stacks := s.stacks[s.cur := stack[|stack| - 1 := Top(stack).(files := step.0)]]), Answered(step.1))
    case MapVideo(address, _) =>
      (s, if !VideoRequestOk(address) then Returned(-1) else if StoreFaults(address) then Hung else Returned(0))
  }

  /** The code a halt hands to the caller: the status itself up to 256, and the
      status modulo 256 beyond. */
  lemma HaltCode(img: Image, s: Sys, status: nat, frame: Token)
    requires WellFormed(img) && Valid(img, s)
    ensures var outcome := Step(img, s, Halt(status, frame)).1;
            outcome.Resumed? ==>
              && (status <= 256 ==> outcome.code == status)
              && (status > 256 ==> outcome.code == status % 256)
  {
    hide WellFormed;
  }

  /** Where `vidmap` agrees to store the address of the video page: in the
      program's 4 MB or one past their end. */
  predicate VideoRequestOk(address: int) {
    address != 0 && USER_STACK - 0x40_0000 <= address <= USER_STACK
  }

  /** The four bytes stored do not all lie in the program's 4 MB: the kernel takes
      a page fault, and its handler for exceptions never returns. */
  predicate StoreFaults(address: int) {
    address > USER_STACK - 4
  }

  /** At most one place is added, and its process was nowhere. */
  lemma DisjointAfter(s: Sys, s': Sys, t: int, k: int, pid: int)
    requires Disjoint(s) && !InUse(s, pid)
    requires forall u, j, p :: At(s', u, j, p) ==> (u == t && j == k && p == pid) || At(s, u, j, p)
    ensures Disjoint(s')
  {
    forall u, j, u', j', p | At(s', u, j, p) && At(s', u', j', p)
      ensures u == u' && j == j'
    {
      assert p != pid ==> At(s, u, j, p) && At(s, u', j', p);
    }
  }

  lemma PushKeepsValid(img: Image, s: Sys, frame: Token)
    requires WellFormed(img) && Valid(img, s) && FreePid(s) <= LAST_AUX
    ensures Valid(img, s.(stacks := s.stacks[s.cur := s.stacks[s.cur] + [Proc(FreePid(s), Some(frame), D.FRESH)]]))
  {
    hide WellFormed;
    var stack := s.stacks[s.cur];
    var s' := s.(stacks := s.stacks[s.cur := stack + [Proc(FreePid(s), Some(frame), D.FRESH)]]);
    DisjointAfter(s, s', s.cur, |stack|, FreePid(s));
    assert StackOk(img, s.cur, s'.stacks[s.cur]);
  }

  lemma PopKeepsValid(img: Image, s: Sys)
    requires WellFormed(img) && Valid(img, s) && |s.stacks[s.cur]| > 1
    ensures Valid(img, s.(stacks := s.stacks[s.cur := s.stacks[s.cur][..|s.stacks[s.cur]| - 1]]))
  {
    var s' := s.(stacks := s.stacks[s.cur := s.stacks[s.cur][..|s.stacks[s.cur]| - 1]]);
    forall t, k, pid | At(s', t, k, pid)
      ensures At(s, t, k, pid)
    {
    }
    assert StackOk(img, s.cur, s'.stacks[s.cur]);
  }

  /** Replacing the files of the running process, its number kept. */
  lemma FilesKeepValid(img: Image, s: Sys, files: D.Table)
    requires WellFormed(img) && Valid(img, s) && D.TableOk(img, files)
    ensures var stack := s.stacks[s.cur];
            Valid(img, s.(stacks := s.stacks[s.cur := stack[|stack| - 1 := Top(stack).(files := files)]]))
  {
    hide WellFormed, D.TableOk, StackOk;
    var stack := s.stacks[s.cur];
    TopFilesOk(img, s.cur, stack, files);
    var s' := s.(stacks := s.stacks[s.cur := stack[|stack| - 1 := Top(stack).(files := files)]]);
    forall t, k, pid | At(s', t, k, pid)
      ensures At(s, t, k, pid)
    {
    }
  }

  lemma TopFilesOk(img: Image, t: int, stack: seq<Proc>, files: D.Table)
    requires WellFormed(img) && StackOk(img, t, stack) && D.TableOk(img, files)
    ensures stack != [] && StackOk(img, t, stack[|stack| - 1 := Top(stack).(files := files)])
  {
    hide WellFormed, D.TableOk;
  }

  lemma NotInUse(img: Image, s: Sys, t: int)
    requires Valid(img, s) && t in TERMINALS && t !in s.stacks
    ensures !InUse(s, t) && t !in s.parked && t != s.cur
  {
    assert forall u :: u in s.stacks ==> StackOk(img, u, s.stacks[u]);
  }

  lemma NewStackOk(img: Image, t: int)
    ensures StackOk(img, t, [Proc(t, None, D.FRESH)])
  {
  }

  lemma BootKeepsValid(img: Image, s: Sys, t: int, frame: Token)
    requires WellFormed(img) && Valid(img, s) && t in TERMINALS && t !in s.stacks
    ensures Valid(img, Sys(s.stacks[t := [Proc(t, None, D.FRESH)]], t, s.parked[s.cur := frame]))
  {
    hide WellFormed, InUse, StackOk;
    var s' := Sys(s.stacks[t := [Proc(t, None, D.FRESH)]], t, s.parked[s.cur := frame]);
    NotInUse(img, s, t);
    NewStackOk(img, t);
    DisjointAfter(s, s', t, 0, t);
  }

  /** Every step keeps the stacks disjoint, rooted and typed. */
  lemma StepKeepsValid(img: Image, s: Sys, e: Event)
    requires WellFormed(img) && Valid(img, s)
    ensures Valid(img, Step(img, s, e).0)
  {
    match e
    case Execute(name, junk, frame) =>
      if Executable(img, CString(name), junk) && FreePid(s) <= LAST_AUX {
        PushKeepsValid(img, s, frame);
      }
    case Halt(status, _) =>
      assert StackOk(img, s.cur, s.stacks[s.cur]);
      if |s.stacks[s.cur]| == 1 {
        FilesKeepValid(img, s, D.FRESH);
        assert [Proc(s.cur, None, D.FRESH)] == s.stacks[s.cur][0 := s.stacks[s.cur][0].(files := D.FRESH)];
      } else {
        PopKeepsValid(img, s);
      }
    case Tick(frame) =>
      var s' := Step(img, s, e).0;
      assert forall t, k, pid :: At(s', t, k, pid) <==> At(s, t, k, pid);
    case SelectTerminal(t, frame, _) =>
      if t in TERMINALS && t !in s.stacks {
        BootKeepsValid(img, s, t, frame);
      }
    case Syscall(op) =>
      assert StackOk(img, s.cur, s.stacks[s.cur]);
      D.StepKeepsTableOk(img, Running(s).files, op);
      FilesKeepValid(img, s, D.Step(img, Running(s).files, op).0);
    case MapVideo(_, _) =>
  }

  lemma BootStateValid(img: Image)
    ensures Valid(img, BOOT_STATE)
    ensures BOOT_STATE.stacks == map[1 := [Proc(1, None, map[0 := D.Stdin, 1 := D.Stdout])]] && BOOT_STATE.cur == 1
  {
    assert StackOk(img, 1, BOOT_STATE.stacks[1]);
  }
}
