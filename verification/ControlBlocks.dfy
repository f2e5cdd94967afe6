/** The process control blocks in kernel memory, and when linked blocks stand
    for the call stacks of the reference model. */
module ControlBlocks {
  import opened Paging
  import opened FileSystem
  import opened CallStacks
  import D = Descriptors

  datatype Operations = NoOps | StdinOps | StdoutOps | RtcOps | DirOps | FileOps

  datatype FileDescriptor = FileDescriptor(operations: Operations, inode: nat, filePosition: nat, flags: nat)

  /** A process control block; `child` and `parent` are addresses, 0 for none. */
  datatype Pcb = Pcb(processID: int, exitStatus: int, files: seq<FileDescriptor>,
                     child: int, parent: int, ebp: Token, schedEbp: Token)

  type Memory = map<int, Pcb>

  const ZERO_FD: FileDescriptor := FileDescriptor(NoOps, 0, 0, 0)
  const ZERO_PCB: Pcb := Pcb(0, 0, [ZERO_FD, ZERO_FD, ZERO_FD, ZERO_FD, ZERO_FD, ZERO_FD, ZERO_FD, ZERO_FD], 0, 0, 0, 0)

  /** Kernel memory at power-up: seven zeroed blocks, one of them for the
      kernel's own start-up stack. */
  function ZeroMemory(): (mem: Memory)
    ensures forall pid :: 0 <= pid <= LAST_AUX ==> PcbAddr(pid) in mem && mem[PcbAddr(pid)] == ZERO_PCB
  {
    map[PcbAddr(0) := ZERO_PCB, PcbAddr(1) := ZERO_PCB, PcbAddr(2) := ZERO_PCB, PcbAddr(3) := ZERO_PCB,
        PcbAddr(4) := ZERO_PCB, PcbAddr(5) := ZERO_PCB, PcbAddr(6) := ZERO_PCB]
  }

  const STDIN_FD: FileDescriptor := FileDescriptor(StdinOps, 0, 0, 0)
  const STDOUT_FD: FileDescriptor := FileDescriptor(StdoutOps, 0, 0, 0)

  ghost function ViewDesc(f: FileDescriptor): D.Desc {
    match f.operations
    case StdinOps => D.Stdin
    case StdoutOps => D.Stdout
    case DirOps => D.Dir(f.filePosition)
    case FileOps => D.File(f.inode, f.filePosition)
    case _ => D.Rtc
  }

  /** The open streams of a process: the slots whose flags are not zero. */
  ghost function ViewFiles(files: seq<FileDescriptor>): D.Table {
    map fd | 0 <= fd < |files| && files[fd].flags != 0 :: ViewDesc(files[fd])
  }

  ghost predicate FilesOk(files: seq<FileDescriptor>) {
    && |files| == D.MAX_OPEN_FILES
    && forall fd :: 0 <= fd < |files| && files[fd].flags != 0 ==> files[fd].operations != NoOps
  }

  ghost predicate MemoryOk(mem: Memory) {
    forall pid :: 0 <= pid <= LAST_AUX ==> PcbAddr(pid) in mem && FilesOk(mem[PcbAddr(pid)].files)
  }

  /** The block of the process at depth `k` is linked and filled as it should be. */
  ghost predicate BlockOk(mem: Memory, stack: seq<Proc>, k: int)
    requires 0 <= k < |stack|
  {
    PcbAddr(stack[k].pid) in mem &&
    var b := mem[PcbAddr(stack[k].pid)];
    && b.processID == stack[k].pid
    && b.parent == (if k == 0 then 0 else PcbAddr(stack[k - 1].pid))
    && b.child == (if k + 1 == |stack| then 0 else PcbAddr(stack[k + 1].pid))
    && (k + 1 < |stack| ==> stack[k + 1].resume == Some(b.ebp))
    && ViewFiles(b.files) == stack[k].files
  }

  ghost predicate ChainOk(mem: Memory, stack: seq<Proc>) {
    forall k :: 0 <= k < |stack| ==> BlockOk(mem, stack, k)
  }

  /** The stack of `t` is a chain of blocks and remembers where to go on. */
  ghost predicate StackHeld(mem: Memory, s: Sys, t: int)
    requires t in s.stacks
  {
    && ChainOk(mem, s.stacks[t])
    && (t in s.parked && s.stacks[t] != [] ==>
        var top := PcbAddr(Top(s.stacks[t]).pid);
        top in mem && mem[top].schedEbp == s.parked[t])
  }

  /** Kernel memory holds exactly these stacks: every stack is a doubly linked
      chain of blocks, parked threads remember where to go on, and the blocks
      of dead processes have no file open. */
  ghost predicate Represents(mem: Memory, s: Sys) {
    && MemoryOk(mem)
    && (forall t :: t in s.stacks ==> StackHeld(mem, s, t))
    && (forall pid :: 1 <= pid <= LAST_AUX && !InUse(s, pid) ==> ViewFiles(mem[PcbAddr(pid)].files) == map[])
  }

  lemma PcbAddrInjective(p: int, q: int)
    ensures PcbAddr(p) == PcbAddr(q) <==> p == q
  {
  }

  /** Where a live process is. */
  lemma Locate(img: Image, mem: Memory, s: Sys, p: int) returns (t: int, k: int)
    requires Valid(img, s) && Represents(mem, s) && InUse(s, p)
    ensures At(s, t, k, p) && StackOk(img, t, s.stacks[t]) && BlockOk(mem, s.stacks[t], k)
    ensures 1 <= p <= LAST_AUX
  {
    t, k :| At(s, t, k, p);
    assert StackHeld(mem, s, t) && StackOk(img, t, s.stacks[t]);
  }

  /** Parent and child links of live processes are inverse to each other. */
  lemma LinksAreInverse(img: Image, mem: Memory, s: Sys, p: int, q: int)
    requires Valid(img, s) && Represents(mem, s) && InUse(s, p) && InUse(s, q)
    ensures PcbAddr(p) in mem && PcbAddr(q) in mem
    ensures mem[PcbAddr(p)].child == PcbAddr(q) <==> mem[PcbAddr(q)].parent == PcbAddr(p)
  {
    hide Represents, ViewFiles, D.TableOk;
    var t, k := Locate(img, mem, s, p);
    var u, j := Locate(img, mem, s, q);
    if mem[PcbAddr(p)].child == PcbAddr(q) {
      assert At(s, t, k + 1, q);
    }
    if mem[PcbAddr(q)].parent == PcbAddr(p) {
      assert At(s, u, j - 1, p);
    }
  }

  /** The blocks without a parent are the terminals' own shells; those without
      a child are the ends of the stacks, among them the running process. */
  lemma ChainEnds(img: Image, mem: Memory, s: Sys, p: int)
    requires Valid(img, s) && Represents(mem, s) && InUse(s, p)
    ensures PcbAddr(p) in mem
    ensures mem[PcbAddr(p)].parent == 0 <==> p in s.stacks
    ensures mem[PcbAddr(p)].child == 0 <==> exists t :: t in s.stacks && s.stacks[t] != [] && p == Top(s.stacks[t]).pid
  {
    hide ViewFiles, D.TableOk, FilesOk;
    var t, k := Locate(img, mem, s, p);
    forall v | v in s.stacks
      ensures At(s, v, 0, v) && At(s, v, |s.stacks[v]| - 1, Top(s.stacks[v]).pid)
    {
      assert StackOk(img, v, s.stacks[v]);
    }
    if k + 1 == |s.stacks[t]| {
      assert p == Top(s.stacks[t]).pid;
    }
  }

  // ------------------------------------------------------------------
  // What starting and ending a program does to the blocks
  // ------------------------------------------------------------------

  /** The first two descriptors open, the rest of the slot as it was. */
  function WithTerminal(files: seq<FileDescriptor>): seq<FileDescriptor>
    requires |files| == D.MAX_OPEN_FILES
  {
    files[0 := STDIN_FD.(flags := 1)][1 := STDOUT_FD.(flags := 1)]
  }

  lemma FreshFiles(files: seq<FileDescriptor>)
    requires FilesOk(files) && ViewFiles(files) == map[]
    ensures FilesOk(WithTerminal(files)) && ViewFiles(WithTerminal(files)) == D.FRESH
  {
    var started := WithTerminal(files);
    forall fd | 0 <= fd < |files|
      ensures files[fd].flags == 0
    {
      assert fd !in ViewFiles(files);
    }
  }

  /** Memory after a program started as `pid` by the process `caller`. */
  function Linked(mem: Memory, caller: int, pid: int, base: bool, frame: Token): Memory
    requires PcbAddr(pid) in mem && PcbAddr(caller) in mem
    requires |mem[PcbAddr(pid)].files| == D.MAX_OPEN_FILES
  {
    var b := mem[PcbAddr(pid)];
    var started := b.(processID := pid, exitStatus := 0, files := WithTerminal(b.files), child := 0,
                      parent := if base then 0 else PcbAddr(caller));
    var m := mem[PcbAddr(pid) := started];
    if base then m[PcbAddr(caller) := m[PcbAddr(caller)].(ebp := frame)]
    else m[PcbAddr(caller) := m[PcbAddr(caller)].(child := PcbAddr(pid), ebp := frame)]
  }

  /** Only blocks of processes `p` and `q` differ. */
  ghost predicate DiffersAt(mem: Memory, mem': Memory, p: int, q: int) {
    forall pid :: 0 <= pid <= LAST_AUX && pid != p && pid != q ==> SameBlock(mem, mem', pid)
  }

  ghost predicate SameBlock(mem: Memory, mem': Memory, pid: int) {
    PcbAddr(pid) in mem && PcbAddr(pid) in mem' && mem'[PcbAddr(pid)] == mem[PcbAddr(pid)]
  }

  /** A chain none of whose blocks changed is still that chain. */
  lemma ChainUnchanged(mem: Memory, mem': Memory, stack: seq<Proc>)
    requires ChainOk(mem, stack)
    requires forall k :: 0 <= k < |stack| ==> SameBlock(mem, mem', stack[k].pid)
    ensures ChainOk(mem', stack)
  {
    forall k | 0 <= k < |stack|
      ensures BlockOk(mem', stack, k)
    {
      assert BlockOk(mem, stack, k) && SameBlock(mem, mem', stack[k].pid);
    }
  }

  /** A step from `s` to `s'` leaves stack `t` and its blocks alone. */
  ghost predicate Untouched(s: Sys, s': Sys, t: int, p: int, q: int)
    requires t in s'.stacks
  {
    && t in s.stacks && s'.stacks[t] == s.stacks[t]
    && (t in s'.parked ==> t in s.parked && s'.parked[t] == s.parked[t])
    && forall k :: !At(s, t, k, p) && !At(s, t, k, q)
  }

  lemma UntouchedStackHeld(img: Image, mem: Memory, mem': Memory, s: Sys, s': Sys, t: int, p: int, q: int)
    requires Valid(img, s) && Represents(mem, s) && DiffersAt(mem, mem', p, q)
    requires t in s'.stacks && Untouched(s, s', t, p, q)
    ensures StackHeld(mem', s', t)
  {
    hide InUse, ViewFiles, FilesOk, D.TableOk;
    var stack := s.stacks[t];
    assert StackOk(img, t, stack) && StackHeld(mem, s, t);
    forall k | 0 <= k < |stack|
      ensures SameBlock(mem, mem', stack[k].pid)
    {
      assert At(s, t, k, stack[k].pid);
    }
    ChainUnchanged(mem, mem', stack);
    assert SameBlock(mem, mem', stack[|stack| - 1].pid);
  }

  /** A step that rewrites two blocks needs to be checked only where it shows. */
  lemma RepresentsAfter(img: Image, mem: Memory, mem': Memory, s: Sys, s': Sys, p: int, q: int)
    requires Valid(img, s) && Represents(mem, s)
    requires MemoryOk(mem') && DiffersAt(mem, mem', p, q)
    requires forall t :: t in s'.stacks ==> Untouched(s, s', t, p, q) || StackHeld(mem', s', t)
    requires forall pid :: 1 <= pid <= LAST_AUX && !InUse(s', pid) ==>
               (pid != p && pid != q && !InUse(s, pid)) || ViewFiles(mem'[PcbAddr(pid)].files) == map[]
    ensures Represents(mem', s')
  {
    forall t | t in s'.stacks
      ensures StackHeld(mem', s', t)
    {
      if Untouched(s, s', t, p, q) {
        UntouchedStackHeld(img, mem, mem', s, s', t, p, q);
      }
    }
    forall pid | 1 <= pid <= LAST_AUX && !InUse(s', pid)
      ensures ViewFiles(mem'[PcbAddr(pid)].files) == map[]
    {
      if pid != p && pid != q && !InUse(s, pid) {
        assert SameBlock(mem, mem', pid);
      }
    }
  }

  function Pushed(s: Sys, pid: int, frame: Token): Sys
    requires s.cur in s.stacks
  {
    s.(stacks := s.stacks[s.cur := s.stacks[s.cur] + [Proc(pid, Some(frame), D.FRESH)]])
  }

  lemma PushChain(img: Image, mem: Memory, s: Sys, frame: Token)
    requires Valid(img, s) && Represents(mem, s) && FreePid(s) <= LAST_AUX
    requires PcbAddr(FreePid(s)) in mem && PcbAddr(Running(s).pid) in mem
    ensures ChainOk(Linked(mem, Running(s).pid, FreePid(s), false, frame),
                    Pushed(s, FreePid(s), frame).stacks[s.cur])
  {
    hide D.TableOk, ViewFiles, StackOk;
    RunningInUse(img, s);
    var caller, pid := Running(s).pid, FreePid(s);
    var stack, n := s.stacks[s.cur], |s.stacks[s.cur]|;
    var stack' := Pushed(s, pid, frame).stacks[s.cur];
    var mem' := Linked(mem, caller, pid, false, frame);
    assert StackHeld(mem, s, s.cur) && !InUse(s, pid) && At(s, s.cur, n - 1, caller);
    FreshFiles(mem[PcbAddr(pid)].files);
    forall k | 0 <= k < |stack'|
      ensures BlockOk(mem', stack', k)
    {
      if k < n {
        assert BlockOk(mem, stack, k) && At(s, s.cur, k, stack[k].pid);
        assert stack[k].pid != pid && (stack[k].pid == caller ==> k == n - 1);
      }
    }
  }

  /** Starting an auxiliary program pushes it on the running stack. */
  lemma PushRepresents(img: Image, mem: Memory, s: Sys, frame: Token)
    requires Valid(img, s) && Represents(mem, s) && FreePid(s) <= LAST_AUX
    requires PcbAddr(FreePid(s)) in mem && PcbAddr(Running(s).pid) in mem
    ensures Represents(Linked(mem, Running(s).pid, FreePid(s), false, frame), Pushed(s, FreePid(s), frame))
  {
    hide D.TableOk, Valid, ViewFiles;
    RunningInUse(img, s);
    var caller, pid, n := Running(s).pid, FreePid(s), |s.stacks[s.cur]|;
    var s' := Pushed(s, pid, frame);
    var mem' := Linked(mem, caller, pid, false, frame);
    PushChain(img, mem, s, frame);
    FreshFiles(mem[PcbAddr(pid)].files);
    NotParked(img, s);
    assert StackHeld(mem', s', s.cur);
    assert At(s', s.cur, n, pid) && At(s', s.cur, n - 1, caller);
    forall p | InUse(s, p)
      ensures InUse(s', p)
    {
      var t, k :| At(s, t, k, p);
      assert At(s', t, k, p);
    }
    forall u | u in s.stacks && u != s.cur
      ensures Untouched(s, s', u, caller, pid)
    {
      OtherStacksUntouched(img, s, s', u, pid);
    }
    RepresentsAfter(img, mem, mem', s, s', caller, pid);
  }

  lemma NotParked(img: Image, s: Sys)
    requires Valid(img, s)
    ensures s.cur !in s.parked
  {
  }

  /** Slots all closed. */
  function AllClosed(files: seq<FileDescriptor>): seq<FileDescriptor> {
    seq(|files|, fd requires 0 <= fd < |files| => files[fd].(flags := 0))
  }

  lemma ClosedFiles(files: seq<FileDescriptor>)
    requires FilesOk(files)
    ensures FilesOk(AllClosed(files)) && ViewFiles(AllClosed(files)) == map[]
  {
  }

  /** Memory after process `pid` closed its files and recorded its status. */
  function Exited(mem: Memory, pid: int, status: int): Memory
    requires PcbAddr(pid) in mem
  {
    mem[PcbAddr(pid) := mem[PcbAddr(pid)].(files := AllClosed(mem[PcbAddr(pid)].files), exitStatus := status)]
  }

  /** Memory after the auxiliary process `pid` exited and left its parent. */
  function Unlinked(mem: Memory, pid: int, parent: int, status: int): Memory
    requires PcbAddr(pid) in mem && PcbAddr(parent) in mem
  {
    var m := Exited(mem, pid, status);
    m[PcbAddr(parent) := m[PcbAddr(parent)].(child := 0)]
  }

  function Popped(s: Sys): Sys
    requires s.cur in s.stacks && s.stacks[s.cur] != []
  {
    s.(stacks := s.stacks[s.cur := s.stacks[s.cur][..|s.stacks[s.cur]| - 1]])
  }

  /** The links the ending of an auxiliary program follows: its parent is the
      process below it, which remembers the frame to resume. */
  lemma ParentOfRunning(img: Image, mem: Memory, s: Sys, status: int)
    requires Valid(img, s) && Represents(mem, s) && |s.stacks[s.cur]| > 1
    requires PcbAddr(Running(s).pid) in mem
    ensures var parent := s.stacks[s.cur][|s.stacks[s.cur]| - 2].pid;
            var exited := Exited(mem, Running(s).pid, status);
            && parent != Running(s).pid && 1 <= parent <= LAST_AUX
            && PcbAddr(parent) in exited
            && exited[PcbAddr(Running(s).pid)].parent == PcbAddr(parent)
            && exited[PcbAddr(parent)].processID == parent
            && Running(s).resume == Some(exited[PcbAddr(parent)].ebp)
  {
    var stack, n := s.stacks[s.cur], |s.stacks[s.cur]|;
    assert StackOk(img, s.cur, stack) && StackHeld(mem, s, s.cur);
    assert BlockOk(mem, stack, n - 1) && BlockOk(mem, stack, n - 2);
    assert At(s, s.cur, n - 1, stack[n - 1].pid) && At(s, s.cur, n - 2, stack[n - 2].pid);
  }

  lemma PopBlock(img: Image, mem: Memory, s: Sys, parent: int, status: int, k: int)
    requires Valid(img, s) && Represents(mem, s) && |s.stacks[s.cur]| > 1
    requires PcbAddr(Running(s).pid) in mem && PcbAddr(parent) in mem
    requires parent == s.stacks[s.cur][|s.stacks[s.cur]| - 2].pid
    requires 0 <= k < |s.stacks[s.cur]| - 1
    ensures BlockOk(Unlinked(mem, Running(s).pid, parent, status), s.stacks[s.cur][..|s.stacks[s.cur]| - 1], k)
  {
    hide D.TableOk, ViewFiles;
    var stack, n := s.stacks[s.cur], |s.stacks[s.cur]|;
    var pid := stack[n - 1].pid;
    assert At(s, s.cur, n - 1, pid) && At(s, s.cur, n - 2, parent) && At(s, s.cur, k, stack[k].pid);
    assert StackHeld(mem, s, s.cur);
    assert BlockOk(mem, stack, k);
    assert stack[k].pid != pid && (stack[k].pid == parent ==> k == n - 2);
    PcbAddrInjective(stack[k].pid, pid);
    PcbAddrInjective(stack[k].pid, parent);
  }

  lemma PoppedProcesses(img: Image, s: Sys, p: int)
    requires Valid(img, s) && |s.stacks[s.cur]| > 1 && p != Running(s).pid
    ensures InUse(s, p) ==> InUse(Popped(s), p)
  {
    if InUse(s, p) {
      var t, k :| At(s, t, k, p);
      assert At(Popped(s), t, k, p);
    }
  }

  /** Ending an auxiliary program pops it off the running stack. */
  lemma PopRepresents(img: Image, mem: Memory, s: Sys, parent: int, status: int)
    requires Valid(img, s) && Represents(mem, s) && |s.stacks[s.cur]| > 1
    requires PcbAddr(Running(s).pid) in mem && PcbAddr(parent) in mem
    requires parent == s.stacks[s.cur][|s.stacks[s.cur]| - 2].pid
    ensures Represents(Unlinked(mem, Running(s).pid, parent, status), Popped(s))
  {
    hide D.TableOk, WellFormed;
    var n, pid := |s.stacks[s.cur]|, Running(s).pid;
    var s', mem' := Popped(s), Unlinked(mem, pid, parent, status);
    forall k | 0 <= k < n - 1
      ensures BlockOk(mem', s'.stacks[s.cur], k)
    {
      PopBlock(img, mem, s, parent, status, k);
    }
    ParentOfRunning(img, mem, s, status);
    ClosedFiles(mem[PcbAddr(pid)].files);
    assert At(s, s.cur, n - 1, pid) && At(s, s.cur, n - 2, parent);
    forall p | p != pid
      ensures InUse(s, p) ==> InUse(s', p)
    {
      PoppedProcesses(img, s, p);
    }
    assert InUse(s, parent);
    RepresentsAfter(img, mem, mem', s, s', pid, parent);
  }

  /** Giving the running process another table of open files. */
  function Retabled(s: Sys, files: D.Table): Sys
    requires s.cur in s.stacks && s.stacks[s.cur] != []
  {
    var stack := s.stacks[s.cur];
    s.(stacks := s.stacks[s.cur := stack[|stack| - 1 := Proc(Top(stack).pid, Top(stack).resume, files)]])
  }

  lemma SameProcesses(s: Sys, files: D.Table, p: int)
    requires s.cur in s.stacks && s.stacks[s.cur] != []
    ensures InUse(s, p) ==> InUse(Retabled(s, files), p)
  {
    if InUse(s, p) {
      var t, k :| At(s, t, k, p);
      assert At(Retabled(s, files), t, k, p);
    }
  }

  /** Only the running process's files, exit status and saved frame may change. */
  lemma RetableRepresents(img: Image, mem: Memory, s: Sys, b: Pcb)
    requires Valid(img, s) && Represents(mem, s)
    requires PcbAddr(Running(s).pid) in mem && FilesOk(b.files)
    requires b.processID == Running(s).pid && b.child == 0
    requires b.parent == mem[PcbAddr(Running(s).pid)].parent
    ensures Represents(mem[PcbAddr(Running(s).pid) := b], Retabled(s, ViewFiles(b.files)))
  {
    hide D.TableOk, FilesOk, ViewFiles;
    var pid, stack, n := Running(s).pid, s.stacks[s.cur], |s.stacks[s.cur]|;
    var s', mem' := Retabled(s, ViewFiles(b.files)), mem[PcbAddr(Running(s).pid) := b];
    assert StackOk(img, s.cur, stack) && StackHeld(mem, s, s.cur) && At(s, s.cur, n - 1, pid);
    forall k | 0 <= k < n
      ensures BlockOk(mem', s'.stacks[s.cur], k)
    {
      assert BlockOk(mem, stack, k) && At(s, s.cur, k, stack[k].pid);
      assert stack[k].pid == pid ==> k == n - 1;
    }
    forall p
      ensures InUse(s, p) ==> InUse(s', p)
    {
      SameProcesses(s, ViewFiles(b.files), p);
    }
    RepresentsAfter(img, mem, mem', s, s', pid, pid);
  }

  lemma MoreStacks(s: Sys, s': Sys, p: int)
    requires forall t :: t in s.stacks ==> t in s'.stacks && s'.stacks[t] == s.stacks[t]
    ensures InUse(s, p) ==> InUse(s', p)
  {
    if InUse(s, p) {
      var t, k :| At(s, t, k, p);
      assert At(s', t, k, p);
    }
  }

  /** The running process saves where it was interrupted, and another booted
      thread goes on. */
  function Parked(mem: Memory, pid: int, frame: Token): Memory
    requires PcbAddr(pid) in mem
  {
    mem[PcbAddr(pid) := mem[PcbAddr(pid)].(schedEbp := frame)]
  }

  /** The block of the running process may change in its scheduling frame. */
  lemma ParkKeepsRunningChain(img: Image, mem: Memory, s: Sys, frame: Token)
    requires Valid(img, s) && Represents(mem, s) && PcbAddr(Running(s).pid) in mem
    ensures ChainOk(Parked(mem, Running(s).pid, frame), s.stacks[s.cur])
  {
    var mem' := Parked(mem, Running(s).pid, frame);
    assert StackHeld(mem, s, s.cur);
    forall k | 0 <= k < |s.stacks[s.cur]|
      ensures BlockOk(mem', s.stacks[s.cur], k)
    {
      assert BlockOk(mem, s.stacks[s.cur], k);
    }
  }

  lemma SwitchRepresents(img: Image, mem: Memory, s: Sys, next: int, frame: Token)
    requires Valid(img, s) && Represents(mem, s) && PcbAddr(Running(s).pid) in mem
    requires next in s.stacks && next != s.cur
    ensures Represents(Parked(mem, Running(s).pid, frame), Sys(s.stacks, next, (s.parked - {next})[s.cur := frame]))
  {
    hide D.TableOk, ViewFiles, ChainOk, StackOk;
    RunningInUse(img, s);
    var mem' := Parked(mem, Running(s).pid, frame);
    var s' := Sys(s.stacks, next, (s.parked - {next})[s.cur := frame]);
    assert At(s, s.cur, |s.stacks[s.cur]| - 1, Running(s).pid);
    ParkKeepsRunningChain(img, mem, s, frame);
    forall p
      ensures InUse(s, p) ==> InUse(s', p)
    {
      MoreStacks(s, s', p);
    }
    assert StackHeld(mem', s', s.cur);
    forall t | t in s'.stacks && t != s.cur
      ensures Untouched(s, s', t, Running(s).pid, Running(s).pid)
    {
    }
    RepresentsAfter(img, mem, mem', s, s', Running(s).pid, Running(s).pid);
  }

  /** A terminal boots: the interrupted process is parked, its own saved frame
      overwritten by the boot, and a shell without parent starts. */
  lemma BootRepresents(img: Image, mem: Memory, s: Sys, t: int, frame: Token, entryFrame: Token)
    requires Valid(img, s) && Represents(mem, s) && t in TERMINALS && t !in s.stacks
    requires PcbAddr(Running(s).pid) in mem && PcbAddr(t) in mem
    requires Running(s).pid != t
    ensures Represents(Linked(Parked(mem, Running(s).pid, frame), Running(s).pid, t, true, entryFrame),
                       Sys(s.stacks[t := [Proc(t, None, D.FRESH)]], t, s.parked[s.cur := frame]))
  {
    hide D.TableOk, ViewFiles, Valid;
    RunningInUse(img, s);
    var pid := Running(s).pid;
    var mem' := Linked(Parked(mem, pid, frame), pid, t, true, entryFrame);
    var s' := Sys(s.stacks[t := [Proc(t, None, D.FRESH)]], t, s.parked[s.cur := frame]);
    NotInUse(img, s, t);
    FreshFiles(mem[PcbAddr(t)].files);
    assert BlockOk(mem', s'.stacks[t], 0);
    BootKeepsRunningChain(img, mem, s, t, frame, entryFrame);
    assert StackHeld(mem', s', s.cur) && StackHeld(mem', s', t);
    forall p
      ensures InUse(s, p) ==> InUse(s', p)
    {
      MoreStacks(s, s', p);
    }
    assert At(s', t, 0, t);
    forall u | u in s.stacks && u != s.cur && u != t
      ensures Untouched(s, s', u, pid, t)
    {
      OtherStacksUntouched(img, s, s', u, t);
    }
    RepresentsAfter(img, mem, mem', s, s', pid, t);
  }

  lemma OtherStacksUntouched(img: Image, s: Sys, s': Sys, u: int, t: int)
    requires Valid(img, s) && u in s.stacks && u != s.cur && !InUse(s, t)
    requires u in s'.stacks && s'.stacks[u] == s.stacks[u]
    requires u in s'.parked ==> u in s.parked && s'.parked[u] == s.parked[u]
    ensures Untouched(s, s', u, Running(s).pid, t)
  {
    assert At(s, s.cur, |s.stacks[s.cur]| - 1, Running(s).pid);
  }

  lemma BootKeepsRunningChain(img: Image, mem: Memory, s: Sys, t: int, frame: Token, entryFrame: Token)
    requires Valid(img, s) && Represents(mem, s) && t in TERMINALS && t !in s.stacks
    requires PcbAddr(Running(s).pid) in mem && PcbAddr(t) in mem
    ensures ChainOk(Linked(Parked(mem, Running(s).pid, frame), Running(s).pid, t, true, entryFrame), s.stacks[s.cur])
  {
    hide D.TableOk, ViewFiles;
    var pid, stack, n := Running(s).pid, s.stacks[s.cur], |s.stacks[s.cur]|;
    var mem' := Linked(Parked(mem, pid, frame), pid, t, true, entryFrame);
    NotInUse(img, s, t);
    assert StackHeld(mem, s, s.cur) && At(s, s.cur, n - 1, pid);
    forall k | 0 <= k < n
      ensures BlockOk(mem', stack, k)
    {
      assert BlockOk(mem, stack, k) && At(s, s.cur, k, stack[k].pid);
      assert stack[k].pid == pid ==> k == n - 1;
    }
  }

  /** The running process's block ends its chain and carries its number. */
  lemma RunningBlock(img: Image, mem: Memory, s: Sys)
    requires Valid(img, s) && Represents(mem, s)
    ensures 1 <= Running(s).pid <= LAST_AUX && PcbAddr(Running(s).pid) in mem
    ensures var b := mem[PcbAddr(Running(s).pid)];
            && b.processID == Running(s).pid && b.child == 0 && FilesOk(b.files)
            && ViewFiles(b.files) == Running(s).files
    ensures Running(s).pid <= 3 <==> |s.stacks[s.cur]| == 1
    ensures Running(s).pid <= 3 ==> Running(s).pid == s.cur && mem[PcbAddr(Running(s).pid)].parent == 0
  {
    assert StackOk(img, s.cur, s.stacks[s.cur]) && StackHeld(mem, s, s.cur);
    assert BlockOk(mem, s.stacks[s.cur], |s.stacks[s.cur]| - 1);
  }

  lemma RunningInUse(img: Image, s: Sys)
    requires Valid(img, s)
    ensures s.cur in s.stacks && s.stacks[s.cur] != []
    ensures InUse(s, Running(s).pid)
  {
    assert StackOk(img, s.cur, s.stacks[s.cur]);
    assert At(s, s.cur, |s.stacks[s.cur]| - 1, Running(s).pid);
  }

  // ------------------------------------------------------------------
  // Single descriptors
  // ------------------------------------------------------------------

  /** Writing one slot opens, moves or closes that one stream. */
  lemma ViewFilesUpdate(files: seq<FileDescriptor>, fd: int, f: FileDescriptor)
    requires 0 <= fd < |files|
    ensures f.flags != 0 ==> ViewFiles(files[fd := f]) == ViewFiles(files)[fd := ViewDesc(f)]
    ensures f.flags == 0 ==> ViewFiles(files[fd := f]) == ViewFiles(files) - {fd}
  {
  }

  lemma FirstFreeSlot(files: seq<FileDescriptor>, slot: int)
    requires FilesOk(files) && 2 <= slot <= D.MAX_OPEN_FILES
    requires forall k :: 2 <= k < slot ==> files[k].flags != 0
    requires slot < D.MAX_OPEN_FILES ==> files[slot].flags == 0
    ensures D.FreeFrom(ViewFiles(files), 2) == slot
  {
    var t := ViewFiles(files);
    assert forall k :: 2 <= k < slot ==> k in t;
    assert slot < D.MAX_OPEN_FILES ==> slot !in t;
  }
}
