/** The process system as the kernel keeps it: shell masks, slot counters,
    linked control blocks, the page directory and the kernel stack pointer.
    Every entry point is proved to take the call-stack model one step on. */
module Kernel {
  import opened Bytes
  import opened Paging
  import P = Paging
  import opened FileSystem
  import opened CallStacks
  import opened ControlBlocks
  import opened KernelState
  import D = Descriptors
  import Runs = CallStackRuns

  // ------------------------------------------------------------------
  // The kernel
  // ------------------------------------------------------------------

  class Kernel {
    const img: Image
    const activeProcesses: array<int>
    var auxProcesses: int
    var live: bv8
    var booted: bv8
    var shellInitBoot: int
    var curProcess: int
    var mem: Memory
    var pdt: seq<int>
    var esp0: int
    var curTerminal: int
    var ptVidmap: seq<int>
    ghost var sys: Sys

    /** The kernel's variables, as one value. */
    ghost function Variables(): State
      reads this, activeProcesses
    {
      State(auxProcesses, live, booted, shellInitBoot, curProcess, activeProcesses[..], mem, pdt, esp0)
    }

    /** The directory entry for the user video page. */
    ghost function VideoEntry(): int
      reads this`pdt
    {
      if |pdt| == DIRECTORY_SIZE then pdt[VIDEO_ENTRY] else 0
    }

    /** The displayed terminal, the user video page table and its directory entry. */
    ghost function Video(): (int, seq<int>, int)
      reads this`curTerminal, this`ptVidmap, this`pdt
    {
      (curTerminal, ptVidmap, VideoEntry())
    }

    /** The user video page is mapped, to this 4 KB frame. */
    ghost predicate ShowsFrame(frame: int)
      reads this`ptVidmap
    {
      && |ptVidmap| == DIRECTORY_SIZE && Present(ptVidmap[0]) && UserAccess(ptVidmap[0])
      && ptVidmap[0] / SMALL_PAGE == frame
    }

    /** What holds between any two entries into the kernel once it has booted. */
    ghost predicate Valid()
      reads this, activeProcesses
    {
      WellFormed(img) && Equipped() && Consistent(img, Variables(), sys)
    }

    /** The file system has a shell, a terminal is displayed, the user video page
        table maps a video page if any, and its entry is a page table or names the
        kernel's own 4 MB. */
    ghost predicate Equipped()
      requires WellFormed(img)
      reads this`curTerminal, this`ptVidmap, this`pdt
    {
      IsProgram(img, SHELL) && curTerminal in TERMINALS && VideoTable(ptVidmap) && VideoEntryOk(VideoEntry())
    }

    /** Power-up: everything zero but the number of the first shell. */
    ghost predicate PoweredUp()
      reads this, activeProcesses
    {
      && WellFormed(img) && Equipped() && NoOtherUserPages(pdt) && VideoEntry() == 0
      && Variables() == State(0, 0, 0, 1, 1, [0, 0, 0, 0, 0, 0], ZeroMemory(), pdt, BASE_MEM)
    }

    constructor (img: Image, pageTable: nat)
      requires WellFormed(img) && IsProgram(img, SHELL) && pageTable % 0x1000 == 0
      ensures PoweredUp() && this.img == img && fresh(activeProcesses) && curTerminal == 1
    {
      hide NoOtherUserPages, VideoTable, WellFormed, IsProgram;
      this.img := img;
      activeProcesses := new int[6](_ => 0);
      auxProcesses, live, booted, shellInitBoot, curProcess := 0, 0, 0, 1, 1;
      mem := ZeroMemory();
      esp0 := BASE_MEM;
      pdt := [];
      curTerminal := 1;
      ptVidmap := seq(DIRECTORY_SIZE, _ => 0);
      sys := BOOT_STATE;
      new;
      var spare6: Bit, spare8to11: Bits4 := *, *;
      pdt := SetupKernelPaging(seq(DIRECTORY_SIZE, _ => 0), pageTable, spare6, spare8to11);
      NothingForUsers(pdt, ptVidmap);
    }

    /** The running program reaches its own frame and video memory, nothing else. */
    ghost predicate Isolated()
      requires Valid()
      reads this, activeProcesses
    {
      RunningPage(img, Variables(), sys);
      P.Isolated(pdt, ptVidmap, Running(sys).pid)
    }

    lemma IsolatedWhenSealed()
      requires Valid()
      ensures Isolated() <==> Sealed(VideoEntry())
    {
      hide Consistent, CallStacks.Valid, WellFormed, IsProgram;
      RunningPage(img, Variables(), sys);
      RunningNumber(img, sys);
      P.IsolatedWhenSealed(pdt, ptVidmap, Running(sys).pid);
    }

    /** The block of the process whose kernel stack is in use: the stack pointer,
        however deep the stack is, masked to 8 KB. */
    method CurrentPcb(ghost pid: int) returns (pcb: int)
      requires 0 <= pid && esp0 == StackTop(pid)
      ensures pcb == PcbAddr(pid)
    {
      var depth: int :| 0 < depth <= PCB_MEM;
      MaskFindsPcb(pid, depth);
      pcb := MaskEsp(esp0 - depth);
    }

    // ----------------------------------------------------------------
    // Following the links
    // ----------------------------------------------------------------

    /** The end of a chain of blocks. */
    method GetTopProcessPcb(start: int, ghost stack: seq<Proc>, ghost at: nat) returns (pcb: int)
      requires ChainOk(mem, stack) && at < |stack| && start == PcbAddr(stack[at].pid)
      requires forall k :: 0 <= k < |stack| ==> 0 <= stack[k].pid <= LAST_AUX
      ensures pcb == PcbAddr(Top(stack).pid)
    {
      pcb := start;
      ghost var k := at;
      assert BlockOk(mem, stack, k);
      while mem[pcb].child != 0
        invariant at <= k < |stack| && pcb == PcbAddr(stack[k].pid) && BlockOk(mem, stack, k)
        decreases |stack| - k
      {
        pcb := mem[pcb].child;
        k := k + 1;
        assert BlockOk(mem, stack, k);
      }
    }

    /** The start of a chain of blocks. */
    method GetBaseProcessPcb(start: int, ghost stack: seq<Proc>, ghost at: nat) returns (pcb: int)
      requires ChainOk(mem, stack) && at < |stack| && start == PcbAddr(stack[at].pid)
      requires forall k :: 0 <= k < |stack| ==> 0 <= stack[k].pid <= LAST_AUX
      ensures pcb == PcbAddr(stack[0].pid)
    {
      pcb := start;
      ghost var k := at;
      assert BlockOk(mem, stack, k);
      while mem[pcb].parent != 0
        invariant 0 <= k <= at && pcb == PcbAddr(stack[k].pid) && BlockOk(mem, stack, k)
        decreases k
      {
        pcb := mem[pcb].parent;
        k := k - 1;
        assert BlockOk(mem, stack, k);
      }
    }

    /** The terminal the running process belongs to, found through the links. */
    method RunningTerminal() returns (terminal: int)
      requires Valid()
      ensures terminal == curProcess
    {
      hide ViewFiles, D.TableOk, WellFormed;
      ghost var stack := sys.stacks[sys.cur];
      assert StackOk(img, sys.cur, stack) && StackHeld(mem, sys, sys.cur);
      var pcb := CurrentPcb(Running(sys).pid);
      pcb := GetBaseProcessPcb(pcb, stack, |stack| - 1);
      assert BlockOk(mem, stack, 0);
      terminal := mem[pcb].processID;
    }

    /** The interrupted program is a terminal's own shell: what `clear` tests. */
    method RunsShell() returns (shell: bool)
      requires Valid()
      ensures Valid() && sys.cur in sys.stacks && sys.stacks[sys.cur] != []
      ensures shell <==> Running(sys).pid <= 3
    {
      hide Consistent, CallStacks.Valid, WellFormed, IsProgram, VideoTable;
      RunningFacts(img, Variables(), sys);
      var pcb := CurrentPcb(Running(sys).pid);
      var pid := mem[pcb].processID;
      shell := pid == 1 || pid == 2 || pid == 3;
    }

    // ----------------------------------------------------------------
    // execute
    // ----------------------------------------------------------------

    /** Finds a slot for an auxiliary process and counts it. When all three
        slots are taken the number is arbitrary and the count exceeds the limit. */
    method ClaimAuxiliary(ghost caller: int) returns (pid: int)
      requires Ready(Variables(), caller)
      modifies this`auxProcesses, activeProcesses
      ensures Full(old(activeProcesses[..])) ==> Variables() == old(Variables()).(aux := old(auxProcesses) + 1)
      ensures !Full(old(activeProcesses[..])) ==> Chosen(old(Variables()), Variables(), pid, false)
      ensures auxProcesses == old(auxProcesses) + 1 && (auxProcesses > AUX_LIMIT <==> Full(old(activeProcesses[..])))
    {
      hide MemoryOk, NoOtherUserPages;
      ghost var k := Variables();
      var slot: int := *;
      var i := 3;
      while i < 6
        invariant 3 <= i <= 6 && forall j :: 3 <= j < i ==> k.marks[j] != 0
        invariant Variables() == k
      {
        if activeProcesses[i] == 0 {
          slot := i;
          activeProcesses[i] := 1;
          break;
        }
        i := i + 1;
      }
      assert i < 6 ==> slot == i && activeProcesses[..] == k.marks[slot := 1];
      pid := slot + 1;
      auxProcesses := auxProcesses + 1;
    }

    /** The terminal a single mask bit stands for. */
    method NumberOf(shellToReboot: bv8) returns (pid: int)
      requires shellToReboot == 1 || shellToReboot == 2 || shellToReboot == 4
      ensures 1 <= pid <= 3 && ShellBit(pid) == shellToReboot
    {
      if shellToReboot == 1 {
        pid := 1;
      } else if shellToReboot == 2 {
        pid := 2;
      } else {
        pid := 3;
      }
    }

    /** The shell to run again is the one bit in which the masks differ. */
    method ReclaimShell(ghost caller: int) returns (pid: int)
      requires Ready(Variables(), caller) && BaseBoot(Variables(), true) && shellInitBoot == 0
      modifies this`live
      ensures Chosen(old(Variables()), Variables(), pid, true)
    {
      hide Chosen;
      ghost var k := Variables();
      ShellChoice(k, caller);
      hide Ready, BaseBoot, ShellBit;
      var dead := DeadShells(booted, live);
      pid := NumberOf(dead);
      RebootChosen(k, k.(live := k.booted), pid, dead);
      live := booted;
      assert Variables() == k.(live := k.booted);
    }

    /** Takes the number of a terminal's own shell: the one being booted, or the
        one whose bit shows that it has just been halted. */
    method ClaimShell(ghost caller: int) returns (pid: int)
      requires Ready(Variables(), caller) && BaseBoot(Variables(), true)
      modifies this`live, this`booted, this`shellInitBoot, activeProcesses
      ensures Chosen(old(Variables()), Variables(), pid, true) && auxProcesses == old(auxProcesses)
    {
      hide Chosen;
      ghost var k := Variables();
      if shellInitBoot != 0 {
        ShellChoice(k, caller);
        hide Ready, BaseBoot, ShellBit;
        pid := shellInitBoot;
        activeProcesses[shellInitBoot - 1] := 1;
        booted := booted | ShellBit(shellInitBoot);
        live := booted;
        shellInitBoot := 0;
        assert activeProcesses[..] == k.marks[pid - 1 := 1];
        assert Variables() == k.(booted := booted, live := booted, shellInitBoot := 0, marks := k.marks[pid - 1 := 1]);
        ShellChosen(k, Variables(), pid);
      } else {
        pid := ReclaimShell(caller);
      }
    }

    method NamesShell(name: seq<byte>) returns (shell: bool)
      requires NUL in name
      ensures shell == IsShell(name)
    {
      var diff := Strncmp(name, SHELL + [NUL], 5);
      CStringUnique(SHELL + [NUL], SHELL);
      assert Upto(SHELL, 5) == SHELL;
      shell := diff == 0;
    }

    /** Chooses the number of the program about to start, and refuses when that
        would be a fourth auxiliary process; nothing has been claimed then. */
    method ChoosePid(name: seq<byte>, ghost caller: int) returns (pid: int, baseBoot: bool, refused: bool)
      requires Ready(Variables(), caller) && NUL in name
      modifies this`auxProcesses, this`live, this`booted, this`shellInitBoot, activeProcesses
      ensures refused <==> Refuses(old(Variables()), IsShell(name))
      ensures refused ==> Variables() == old(Variables())
      ensures !refused ==> baseBoot == BaseBoot(old(Variables()), IsShell(name))
                           && Chosen(old(Variables()), Variables(), pid, baseBoot)
    {
      hide Chosen, Ready, Full, IsShell;
      ghost var k := Variables();
      baseBoot, refused := false, false;
      ReadyLimit(k, caller);
      var shell := NamesShell(name);
      MasksEqual(booted, live);
      if shell && (shellInitBoot != 0 || booted ^ live != 0) {
        pid := ClaimShell(caller);
        baseBoot := true;
      } else {
        pid := ClaimAuxiliary(caller);
      }
      if auxProcesses > AUX_LIMIT {
        auxProcesses := auxProcesses - 1;
        refused := true;
        assert Variables() == k;
      }
    }

    /** Puts the 4 MB frame of a process into the user window. */
    method MapUserPage(pid: nat)
      requires NoOtherUserPages(pdt) && pid <= LAST_AUX
      modifies this`pdt
      ensures MapsOnly(pdt, pid) && VideoEntry() == old(VideoEntry())
    {
      hide MapsFrame, MapsOnly, NoOtherUserPages;
      var newPage := new PageEntry();
      newPage.Setup(pid + 1, 1);
      PageInstalled(pdt, pid, newPage.Val());
      pdt := pdt[USER_PAGE := newPage.Val()];
    }

    /** Puts a 4 KB frame into the user video page table. */
    method MapVideoPage(frame: int)
      requires VideoTable(ptVidmap) && VideoFrame(frame)
      modifies this`ptVidmap
      ensures VideoTable(ptVidmap) && ShowsFrame(frame)
    {
      var spare: Bits9 := *;
      UserPageInstalled(ptVidmap, frame, spare);
      ptVidmap := ptVidmap[0 := UserPageEntry(frame, spare)];
    }

    /** Gives the new program its page and kernel stack, fills its block, links
        it to its caller's and saves the caller's frame pointer there. */
    method EnterProgram(currentPcb: int, nextPid: int, baseBoot: bool, frame: Token, ghost caller: int)
      requires MemoryOk(mem) && 0 <= caller <= LAST_AUX && 1 <= nextPid <= LAST_AUX
      requires currentPcb == PcbAddr(caller) && mem[currentPcb].processID == caller
      requires NoOtherUserPages(pdt)
      requires caller == nextPid ==> baseBoot
      modifies this`pdt, this`esp0, this`mem
      ensures PcbAddr(nextPid) in old(mem) && mem == Linked(old(mem), caller, nextPid, baseBoot, frame)
      ensures esp0 == StackTop(nextPid) && MapsOnly(pdt, nextPid) && VideoEntry() == old(VideoEntry())
    {
      MapUserPage(nextPid);
      esp0 := BASE_MEM - nextPid * PCB_MEM;
      var newPcb := BASE_MEM - (nextPid + 1) * PCB_MEM;
      FillBlock(newPcb, currentPcb, nextPid, baseBoot, caller);
      if !baseBoot {
        mem := mem[currentPcb := mem[currentPcb].(child := newPcb)];
      }
      mem := mem[newPcb := mem[newPcb].(files := mem[newPcb].files[0 := STDIN_FD.(flags := 1)])];
      mem := mem[newPcb := mem[newPcb].(files := mem[newPcb].files[1 := STDOUT_FD.(flags := 1)])];
      mem := mem[currentPcb := mem[currentPcb].(ebp := frame)];
    }

    /** The scalar fields of a new program's block. */
    method FillBlock(newPcb: int, currentPcb: int, nextPid: int, baseBoot: bool, ghost caller: int)
      requires MemoryOk(mem) && 0 <= caller <= LAST_AUX && 1 <= nextPid <= LAST_AUX
      requires newPcb == PcbAddr(nextPid) && currentPcb == PcbAddr(caller)
      requires mem[currentPcb].processID == caller && (caller == nextPid ==> baseBoot)
      modifies this`mem
      ensures newPcb in old(mem)
      ensures mem == old(mem)[newPcb := old(mem)[newPcb].(processID := nextPid, exitStatus := 0, child := 0,
                                                          parent := if baseBoot then 0 else currentPcb)]
    {
      mem := mem[newPcb := mem[newPcb].(processID := nextPid, exitStatus := 0)];
      var parent := if baseBoot then 0 else BASE_MEM - (mem[currentPcb].processID + 1) * PCB_MEM;
      mem := mem[newPcb := mem[newPcb].(parent := parent, child := 0)];
    }

    /** The header buffer before anything is read into it. */
    method HeaderBuffer() returns (junk: seq<byte>)
      ensures |junk| == HEADER_SIZE
    {
      var metadata := new byte[HEADER_SIZE];
      junk := metadata[..];
    }

    /** Starts a terminal's own shell, which the file system has. */
    method ExecuteShell(frame: Token, ghost caller: int) returns (outcome: Outcome)
      requires Ready(Variables(), caller) && WellFormed(img) && IsProgram(img, SHELL)
      modifies this`auxProcesses, this`live, this`booted, this`shellInitBoot, this`pdt, this`esp0, this`mem
      modifies activeProcesses
      ensures Executed(old(Variables()), Variables(), true, true, frame, caller, outcome)
      ensures VideoEntry() == old(VideoEntry())
    {
      hide WellFormed, Executable, IsProgram, Executed;
      ShellName();
      var junk := HeaderBuffer();
      ProgramsAreExecutable(img, SHELL, junk);
      outcome := Execute(SHELL + [NUL], junk, frame, caller);
    }

    /** Starts the program `name` if there is such a file and it is executable.
        `junk` is what the stack held at the buffer for its header; `frame` is the
        caller's frame pointer. */
    method Execute(name: seq<byte>, junk: seq<byte>, frame: Token, ghost caller: int) returns (outcome: Outcome)
      requires Ready(Variables(), caller) && NUL in name && WellFormed(img) && |junk| == HEADER_SIZE
      modifies this`auxProcesses, this`live, this`booted, this`shellInitBoot, this`pdt, this`esp0, this`mem
      modifies activeProcesses
      ensures Executed(old(Variables()), Variables(), IsShell(name), Executable(img, CString(name), junk), frame, caller,
                       outcome)
      ensures VideoEntry() == old(VideoEntry())
    {
      hide NoOtherUserPages, MapsOnly, WellFormed, Executable;
      var currentPcb := CurrentPcb(caller);
      var loadable := CheckExecutable(img, name, junk);
      if !loadable {
        return Returned(-1);
      }
      var nextPid, baseBoot, refused := ChoosePid(name, caller);
      if refused {
        return Returned(1);
      }
      EnterProgram(currentPcb, nextPid, baseBoot, frame, caller);
      return Started(nextPid);
    }

    // ----------------------------------------------------------------
    // Entry points
    // ----------------------------------------------------------------

    /** The first program, started from the kernel's own stack. */
    method Boot(frame: Token) returns (outcome: Outcome)
      requires PoweredUp()
      modifies this, activeProcesses
      ensures Valid() && sys == BOOT_STATE && outcome == Started(1) && VideoEntry() == 0
    {
      hide IsProgram, VideoTable, WellFormed;
      ghost var k := Variables();
      PoweredUpReady(k);
      outcome := ExecuteShell(frame, 0);
      sys := BOOT_STATE;
      BootConsistent(img, k, Variables(), frame, outcome);
    }

    /** The `execute` system call. */
    method SysExecute(name: seq<byte>, junk: seq<byte>, frame: Token) returns (outcome: Outcome)
      requires Valid() && NUL in name && |junk| == HEADER_SIZE
      modifies this, activeProcesses
      ensures Valid()
      ensures (sys, outcome) == Step(img, old(sys), CallStacks.Execute(name, junk, frame))
      ensures Video() == old(Video())
    {
      hide Consistent, Executed, CallStacks.Valid, Represents, WellFormed, Executable;
      ghost var s, k := sys, Variables();
      ReadyWhenConsistent(img, k, s);
      outcome := Execute(name, junk, frame, Running(s).pid);
      sys := Step(img, s, CallStacks.Execute(name, junk, frame)).0;
      PushConsistent(img, k, s, Variables(), name, junk, frame, outcome);
    }

    /** Closes every open file of a process. */
    method CloseAll(pcb: int)
      requires pcb in mem && |mem[pcb].files| == D.MAX_OPEN_FILES
      modifies this`mem
      ensures mem == old(mem)[pcb := old(mem)[pcb].(files := AllClosed(old(mem)[pcb].files))]
    {
      ghost var before := mem[pcb].files;
      var i := 0;
      while i < 8
        invariant 0 <= i <= 8 && pcb in mem && |mem[pcb].files| == 8
        invariant mem == old(mem)[pcb := old(mem)[pcb].(files := mem[pcb].files)]
        invariant forall k :: 0 <= k < 8 ==> mem[pcb].files[k] == if k < i then before[k].(flags := 0) else before[k]
      {
        if mem[pcb].files[i].flags != 0 {
          mem := mem[pcb := mem[pcb].(files := mem[pcb].files[i := mem[pcb].files[i].(flags := 0)])];
        }
        i := i + 1;
      }
      assert mem[pcb].files == AllClosed(before);
    }

    /** The `halt` system call: a base shell starts over, any other program
        hands its exit code to the process that started it. */
    method Halt(status: nat, frame: Token) returns (outcome: Outcome)
      requires Valid()
      modifies this, activeProcesses
      ensures Valid()
      ensures (sys, outcome) == Step(img, old(sys), CallStacks.Halt(status, frame))
      ensures Video() == old(Video())
      ensures outcome.Resumed? && status <= 256 ==> outcome.code == status
      ensures outcome.Resumed? && status > 256 ==> outcome.code == status % 256
      ensures old(Running(sys).pid) > 3 ==>
                var pcb := PcbAddr(old(Running(sys).pid)); pcb in mem && mem[pcb].exitStatus == status
    {
      hide Consistent, CallStacks.Valid, Represents, IsProgram, VideoTable, WellFormed;
      ghost var s, k := sys, Variables();
      RunningFacts(img, k, s);
      var currentPcb := CurrentPcb(Running(s).pid);
      var returnValue := status % 256;
      if status == 256 {
        returnValue := 0x100;
      }
      CloseAll(currentPcb);
      mem := mem[currentPcb := mem[currentPcb].(exitStatus := status)];
      assert Variables() == k.(mem := Exited(k.mem, Running(s).pid, status));
      if 1 <= mem[currentPcb].processID <= 3 {
        outcome := Reboot(currentPcb, status, frame, s, k);
      } else {
        var parentEbp := ReturnToParent(currentPcb, status, s, k);
        outcome := Resumed(parentEbp, returnValue);
      }
      HaltCode(img, s, status, frame);
    }

    /** Starts a base shell that has just exited over, in its own slot. */
    method Reboot(currentPcb: int, status: nat, frame: Token, ghost s: Sys, ghost k: State) returns (outcome: Outcome)
      requires WellFormed(img) && Equipped() && Consistent(img, k, s) && sys == s
      requires Running(s).pid <= 3 && currentPcb == PcbAddr(Running(s).pid) && currentPcb in k.mem
      requires Variables() == k.(mem := Exited(k.mem, Running(s).pid, status))
      modifies this, activeProcesses
      ensures Valid() && (sys, outcome) == Step(img, s, CallStacks.Halt(status, frame)) && Video() == old(Video())
    {
      hide Consistent, Executed, CallStacks.Valid, Represents, Ready, BaseBoot, MemoryOk, MapsOnly, Step, WellFormed, IsProgram, VideoTable;
      hide ShellBit, MaskOf, IsShell, Refuses, NoOtherUserPages;
      ReadyToReboot(img, k, s, status);
      live := live & !ShellBit(mem[currentPcb].processID);
      ghost var k1 := Variables();
      outcome := ExecuteShell(frame, Running(s).pid);
      sys := Step(img, s, CallStacks.Halt(status, frame)).0;
      RebootConsistent(img, k, s, k1, Variables(), status, frame, outcome);
    }

    /** Gives the processor back to the parent of a program that has exited. */
    method ReturnToParent(currentPcb: int, status: nat, ghost s: Sys, ghost k: State) returns (parentEbp: Token)
      requires WellFormed(img) && Equipped() && Consistent(img, k, s) && sys == s
      requires Running(s).pid > 3 && currentPcb == PcbAddr(Running(s).pid) && currentPcb in k.mem
      requires Variables() == k.(mem := Exited(k.mem, Running(s).pid, status))
      modifies this, activeProcesses
      ensures Valid() && |s.stacks[s.cur]| > 1 && sys == Popped(s) && Running(s).resume == Some(parentEbp)
      ensures Video() == old(Video()) && currentPcb in mem && mem[currentPcb].exitStatus == status
    {
      hide Consistent, CallStacks.Valid, Represents, NoOtherUserPages, IsProgram, VideoTable, WellFormed;
      ghost var parent := ReadyToReturn(img, k, s, status);
      var parentPcb := mem[currentPcb].parent;
      MapUserPage(mem[parentPcb].processID);
      esp0 := BASE_MEM - mem[parentPcb].processID * PCB_MEM;
      activeProcesses[mem[currentPcb].processID - 1] := 0;
      auxProcesses := auxProcesses - 1;
      mem := mem[parentPcb := mem[parentPcb].(child := 0)];
      parentEbp := mem[mem[currentPcb].parent].ebp;
      sys := Popped(s);
      assert activeProcesses[..] == k.marks[Running(s).pid - 1 := 0];
      PopConsistent(img, k, s, Variables(), parent, status);
    }

    /** The timer interrupt. */
    method PitHandler(frame: Token) returns (outcome: Outcome)
      requires Valid()
      modifies this, activeProcesses
      ensures Valid()
      ensures (sys, outcome) == Step(img, old(sys), Tick(frame))
      ensures curTerminal == old(curTerminal) && VideoEntry() == old(VideoEntry())
      ensures if outcome.Switched? then ShowsFrame(TickPage(curTerminal, curProcess)) else Video() == old(Video())
    {
      hide Consistent, CallStacks.Valid, Represents, IsProgram, VideoTable, WellFormed;
      ghost var s, k := sys, Variables();
      RunningFacts(img, k, s);
      NextThreadIsCyclic(s.cur, s.stacks.Keys);
      var currentPcb := CurrentPcb(Running(s).pid);
      var savedProcess := curProcess;
      curProcess := curProcess + 1;
      if curProcess == 4 {
        curProcess := 1;
      }
      if curProcess == 2 && booted & 0x2 == 0 {
        curProcess := curProcess + 1;
      }
      if curProcess == 3 && booted & 0x4 == 0 {
        curProcess := 1;
      }
      assert curProcess == NextThread(savedProcess, booted);
      if savedProcess != curProcess {
        outcome := SwitchTo(currentPcb, frame, s, k);
      } else {
        outcome := Undisturbed;
        assert Variables() == k;
      }
    }

    /** The video page of the thread just selected, as the handler computes it. */
    method TickVideoPage()
      requires VideoTable(ptVidmap) && curProcess in TERMINALS
      modifies this`ptVidmap
      ensures VideoTable(ptVidmap) && ShowsFrame(TickPage(curTerminal, curProcess))
    {
      TickPageIsOwn(curTerminal, curProcess);
      if curTerminal == curProcess {
        MapVideoPage(VIDEO_MEM / SMALL_PAGE);
      } else {
        MapVideoPage(VIDEO_MEM + curProcess);
      }
    }

    /** Parks the interrupted process and resumes the thread just selected. */
    method SwitchTo(currentPcb: int, frame: Token, ghost s: Sys, ghost k: State) returns (outcome: Outcome)
      requires WellFormed(img) && Equipped() && Consistent(img, k, s) && sys == s
      requires curProcess != s.cur && curProcess == CyclicNext(s.cur, s.stacks.Keys)
      requires currentPcb == PcbAddr(Running(s).pid) && Variables() == k.(curProcess := curProcess)
      modifies this, activeProcesses
      ensures Valid() && (sys, outcome) == Step(img, s, Tick(frame))
      ensures outcome.Switched? && curTerminal == old(curTerminal) && ShowsFrame(TickPage(curTerminal, curProcess))
      ensures VideoEntry() == old(VideoEntry())
    {
      hide Consistent, CallStacks.Valid, Represents, VideoTable, WellFormed, IsProgram, TickPage, ShowsFrame, MapsOnly;
      ReadyToSwitch(img, k, s, curProcess);
      ghost var next, stack := curProcess, s.stacks[curProcess];
      var topPcb := GetTopProcessPcb(BASE_MEM - (curProcess + 1) * PCB_MEM, stack, 0);
      mem := mem[currentPcb := mem[currentPcb].(schedEbp := frame)];
      MapUserPage(mem[topPcb].processID);
      esp0 := BASE_MEM - mem[topPcb].processID * PCB_MEM;
      TickVideoPage();
      outcome := Switched(mem[topPcb].schedEbp);
      sys := Sys(s.stacks, next, (s.parked - {next})[s.cur := frame]);
      SwitchConsistent(img, k, s, Variables(), next, frame);
    }

    /** Alt-F1 to Alt-F3: displays a terminal; one that has never been shown
        boots a shell. */
    method SelectTerminal(terminal: int, frame: Token, entryFrame: Token) returns (outcome: Outcome)
      requires Valid() && terminal in TERMINALS
      modifies this, activeProcesses
      ensures Valid()
      ensures (sys, outcome) == Step(img, old(sys), CallStacks.SelectTerminal(terminal, frame, entryFrame))
      ensures Video() == (terminal, old(ptVidmap), old(VideoEntry()))
    {
      hide Consistent, CallStacks.Valid, Represents, WellFormed, IsProgram, VideoTable;
      ghost var s, k := sys, Variables();
      curTerminal := terminal;
      RunningFacts(img, k, s);
      MaskMembers(s.stacks.Keys, terminal);
      if booted & ShellBit(terminal) != 0 {
        assert Variables() == k;
        return Undisturbed;
      }
      outcome := BootTerminal(terminal, frame, entryFrame, s, k);
    }

    /** Parks the interrupted process and starts the terminal's shell. */
    method BootTerminal(terminal: int, frame: Token, entryFrame: Token, ghost s: Sys, ghost k: State)
      returns (outcome: Outcome)
      requires WellFormed(img) && Equipped() && Consistent(img, k, s) && sys == s && Variables() == k
      requires terminal in TERMINALS && terminal !in s.stacks
      modifies this, activeProcesses
      ensures Valid() && Video() == old(Video())
      ensures (sys, outcome) == Step(img, s, CallStacks.SelectTerminal(terminal, frame, entryFrame))
    {
      hide Consistent, Executed, CallStacks.Valid, Represents, Ready, BaseBoot, MemoryOk, Step;
      hide MapsOnly, WellFormed, NoOtherUserPages, IsProgram, VideoTable;
      RunningFacts(img, k, s);
      ReadyToBootTerminal(img, k, s, terminal, frame);
      var currentPcb := CurrentPcb(Running(s).pid);
      mem := mem[currentPcb := mem[currentPcb].(schedEbp := frame)];
      shellInitBoot := terminal;
      curProcess := terminal;
      ghost var k1 := Variables();
      outcome := ExecuteShell(entryFrame, Running(s).pid);
      sys := Step(img, s, CallStacks.SelectTerminal(terminal, frame, entryFrame)).0;
      TerminalConsistent(img, k, s, k1, Variables(), terminal, frame, entryFrame, outcome);
    }

    // ----------------------------------------------------------------
    // File system calls
    // ----------------------------------------------------------------

    /** Writes one descriptor of the running process back, as `op` changed it. */
    method StoreDescriptor(pcb: int, fd: int, f: FileDescriptor, ghost op: D.Op)
      requires Valid() && pcb == PcbAddr(Running(sys).pid) && pcb in mem && FilesOk(mem[pcb].files)
      requires D.TableOk(img, Running(sys).files) && 0 <= fd < 8 && (f.flags != 0 ==> f.operations != NoOps)
      requires ViewFiles(mem[pcb].files[fd := f]) == D.Step(img, Running(sys).files, op).0
      modifies this`mem, this`sys
      ensures Valid() && CallStacks.Valid(img, old(sys)) && sys == Step(img, old(sys), Syscall(op)).0
    {
      hide Consistent, CallStacks.Valid, Represents, Step, D.Step, WellFormed;
      ghost var s, k := sys, Variables();
      RunningTable(img, k, s);
      mem := mem[pcb := mem[pcb].(files := mem[pcb].files[fd := f])];
      assert Variables() == k.(mem := k.mem[pcb := k.mem[pcb].(files := k.mem[pcb].files[fd := f])]);
      SyscallConsistent(img, k, s, k.mem[pcb].files[fd := f], op);
      sys := Step(img, s, Syscall(op)).0;
    }

    /** The first free descriptor a program may have, or 8. */
    method FindFree(pcb: int) returns (i: int)
      requires pcb in mem && FilesOk(mem[pcb].files)
      ensures 2 <= i <= 8 && i == D.FreeFrom(ViewFiles(mem[pcb].files), 2)
    {
      i := 2;
      while i < 8
        invariant 2 <= i <= 8 && forall j :: 2 <= j < i ==> mem[pcb].files[j].flags != 0
      {
        if mem[pcb].files[i].flags == 0 {
          break;
        }
        i := i + 1;
      }
      FirstFreeSlot(mem[pcb].files, i);
    }

    /** The `open` system call. */
    method SysOpen(name: seq<byte>) returns (ret: int)
      requires Valid() && NUL in name
      modifies this
      ensures Valid()
      ensures (sys, Answered(D.Status(ret))) == Step(img, old(sys), Syscall(D.Open(CString(name))))
      ensures Video() == old(Video())
    {
      hide Consistent, CallStacks.Valid, Represents, Step, WellFormed, FilesOk, IsProgram, VideoTable;
      ghost var s, k, op := sys, Variables(), D.Open(CString(name));
      RunningTable(img, k, s);
      SyscallOutcome(img, s, op);
      var pcb := CurrentPcb(Running(s).pid);
      ghost var files := mem[pcb].files;
      var i := FindFree(pcb);
      if i == 8 {
        TableKept(img, s, op);
        return -1;
      }
      var blank := Dentry([], 0, 0, []);
      var entry, dentry := ReadDentryByName(img, name, blank);
      if entry == -1 {
        TableKept(img, s, op);
        return -1;
      }
      var f := mem[pcb].files[i];
      if dentry.fileType == FILE_TYPE_RTC {
        f := f.(operations := RtcOps, filePosition := 0, flags := 1);
      } else if dentry.fileType == FILE_TYPE_DIR {
        f := f.(operations := DirOps, filePosition := 0, flags := 1);
      } else if dentry.fileType == FILE_TYPE_REG {
        f := f.(operations := FileOps, inode := dentry.inodeNum, filePosition := 0, flags := 1);
      } else {
        TableKept(img, s, op);
        return -1;
      }
      ViewFilesUpdate(files, i, f);
      StoreDescriptor(pcb, i, f, op);
      return i;
    }

    /** The `close` system call. */
    method SysClose(fd: int) returns (ret: int)
      requires Valid()
      modifies this
      ensures Valid()
      ensures (sys, Answered(D.Status(ret))) == Step(img, old(sys), Syscall(D.Close(fd)))
      ensures Video() == old(Video())
    {
      hide Consistent, CallStacks.Valid, Represents, Step, IsProgram, VideoTable, WellFormed;
      ghost var s, k, op := sys, Variables(), D.Close(fd);
      RunningTable(img, k, s);
      SyscallOutcome(img, s, op);
      if fd < 2 || fd > 7 {
        TableKept(img, s, op);
        return -1;
      }
      var pcb := CurrentPcb(Running(s).pid);
      ghost var files := mem[pcb].files;
      if mem[pcb].files[fd].flags == 0 {
        TableKept(img, s, op);
        return -1;
      }
      var f := mem[pcb].files[fd].(flags := 0);
      ViewFilesUpdate(files, fd, f);
      StoreDescriptor(pcb, fd, f, op);
      return 0;
    }

    /** The `read` system call. What the terminal or the clock answers is taken as
        given. `result` is what the caller gets, in the model's terms. */
    method SysRead(fd: int, buf: array<byte>, nbytes: int, device: int) returns (ret: int, ghost result: D.Result)
      requires Valid() && nbytes <= buf.Length
      requires buf as object != this
      modifies this, buf
      ensures Valid()
      ensures (sys, Answered(result)) == Step(img, old(sys), Syscall(D.Read(fd, nbytes)))
      ensures Video() == old(Video())
      ensures match result
              case Status(code) => ret == code && buf[..] == old(buf[..])
              case Data(bytes) => 0 <= ret <= buf.Length && bytes == buf[..ret] && buf[ret..] == old(buf[ret..])
              case Device => ret == device && buf[..] == old(buf[..])
    {
      hide Consistent, CallStacks.Valid, Represents, Step, WellFormed;
      ghost var s, k, op := sys, Variables(), D.Read(fd, nbytes);
      RunningTable(img, k, s);
      SyscallOutcome(img, s, op);
      if fd < 0 || fd > 7 || nbytes < 0 || fd == 1 {
        TableKept(img, s, op);
        return -1, D.Status(-1);
      }
      var pcb := CurrentPcb(Running(s).pid);
      ghost var files := mem[pcb].files;
      var f := mem[pcb].files[fd];
      if f.flags == 0 {
        TableKept(img, s, op);
        return -1, D.Status(-1);
      }
      assert Running(s).files[fd] == ViewDesc(f);
      var position := f.filePosition;
      if f.operations == FileOps {
        ret, position := FileRead(img, f.inode, f.filePosition, buf, 0, nbytes);
      } else if f.operations == DirOps {
        ret, position := DirRead(img, f.filePosition, buf, nbytes);
      } else {
        TableKept(img, s, op);
        return device, D.Device;
      }
      result := D.Data(buf[..ret]);
      assert buf[..ret] == D.ReadOne(img, Running(s).files[fd], nbytes).1;
      f := f.(filePosition := position);
      ViewFilesUpdate(files, fd, f);
      StoreDescriptor(pcb, fd, f, op);
    }

    // ----------------------------------------------------------------
    // The user video page
    // ----------------------------------------------------------------

    method OwnVideoPage(terminal: int)
      requires VideoTable(ptVidmap) && terminal in TERMINALS
      modifies this`ptVidmap
      ensures VideoTable(ptVidmap) && ShowsFrame(OwnPage(curTerminal, terminal))
    {
      TickPageIsOwn(curTerminal, terminal);
      if curTerminal == terminal {
        MapVideoPage(VIDEO_MEM / SMALL_PAGE);
      } else {
        MapVideoPage(VIDEO_MEM / SMALL_PAGE + terminal);
      }
    }

    /** The `vidmap` system call: maps the running program's own screen at
        136 MB. `table` is the page-aligned address of the page table, in the
        kernel's 4 MB, and `largeBit` what the stack held at the bit that makes it
        a large page of them instead. */
    method SysVidmap(address: int, table: nat, largeBit: Bit) returns (outcome: Outcome)
      requires Valid() && PAGE_SIZE <= table < BASE_MEM
      modifies this
      ensures Valid() && curTerminal == old(curTerminal)
      ensures (sys, outcome) == Step(img, old(sys), CallStacks.MapVideo(address, largeBit))
      ensures if outcome == Returned(-1) then Variables() == old(Variables()) && Video() == old(Video())
              else (Sealed(VideoEntry()) <==> largeBit == 0)
                   && (largeBit == 0 ==> SeesFrame(pdt, ptVidmap, OwnPage(curTerminal, curProcess)))
    {
      hide Consistent, CallStacks.Valid, Represents, WellFormed, MapsOnly, VideoTable, IsProgram, OwnPage, SeesFrame;
      ghost var k := Variables();
      RunningPage(img, k, sys);
      var terminal := RunningTerminal();
      if address == 0 || address > USER_STACK || address < USER_STACK - 0x40_0000 {
        return Returned(-1);
      }
      var spare3to6: Bits4, spare8to11: Bits4 := *, *;
      UserTableInstalled(pdt, Running(sys).pid, table, spare3to6, largeBit, spare8to11);
      pdt := pdt[VIDEO_ENTRY := UserTableEntry(table, spare3to6, largeBit, spare8to11)];
      OwnVideoPage(terminal);
      VideoConsistent(img, k, sys, pdt);
      assert Variables() == k.(pdt := pdt);
      if largeBit == 0 {
        VideoWindow(pdt, ptVidmap);
      }
      outcome := if StoreFaults(address) then Hung else Returned(0);
    }
  }

  lemma ShellName()
    ensures NUL in SHELL + [NUL] && IsShell(SHELL + [NUL]) && CString(SHELL + [NUL]) == SHELL
  {
    CStringUnique(SHELL + [NUL], SHELL);
    assert Upto(SHELL, 5) == SHELL;
    assert (SHELL + [NUL])[5] == NUL;
  }

  // ------------------------------------------------------------------
  // Whole runs
  // ------------------------------------------------------------------

  /** Requests programs and the keyboard can make: names are C strings, the
      header buffer has its size, the keys select one of three terminals. */
  predicate Admissible(e: Event) {
    match e
    case Execute(name, junk, _) => NUL in name && |junk| == HEADER_SIZE
    case SelectTerminal(terminal, _, _) => terminal in TERMINALS
    case Syscall(Open(name)) => NUL !in name
    case _ => true
  }

  /** The call does not return, and neither does anything else. */
  predicate Hangs(e: Event) {
    e.MapVideo? && VideoRequestOk(e.address) && StoreFaults(e.address)
  }

  /** The stack bit that the last `vidmap` of a run left in the directory, if any did. */
  function LargeBit(events: seq<Event>): Bit {
    if events == [] then 0
    else
      var e := events[|events| - 1];
      if e.MapVideo? && VideoRequestOk(e.address) then e.largeBit else LargeBit(events[..|events| - 1])
  }

  /** One entry into the kernel. */
  method Enter(kernel: Kernel, e: Event, table: nat, device: int) returns (ghost outcome: Outcome)
    requires kernel.Valid() && Admissible(e) && PAGE_SIZE <= table < BASE_MEM
    modifies kernel, kernel.activeProcesses
    ensures kernel.Valid()
    ensures (kernel.sys, outcome) == Step(kernel.img, old(kernel.sys), e)
    ensures if e.MapVideo? && VideoRequestOk(e.address) then Sealed(kernel.VideoEntry()) <==> e.largeBit == 0
            else kernel.VideoEntry() == old(kernel.VideoEntry())
  {
    hide Consistent, CallStacks.Valid, Step, D.Step;
    ghost var s := kernel.sys;
    RunningTable(kernel.img, kernel.Variables(), s);
    match e
    case Execute(name, junk, frame) =>
      outcome := kernel.SysExecute(name, junk, frame);
    case Halt(status, frame) =>
      outcome := kernel.Halt(status, frame);
    case Tick(frame) =>
      outcome := kernel.PitHandler(frame);
    case SelectTerminal(terminal, frame, entryFrame) =>
      outcome := kernel.SelectTerminal(terminal, frame, entryFrame);
    case Syscall(Open(name)) =>
      CStringUnique(name + [NUL], name);
      assert (name + [NUL])[|name|] == NUL;
      var ret := kernel.SysOpen(name + [NUL]);
      outcome := Answered(D.Status(ret));
    case Syscall(Close(fd)) =>
      var ret := kernel.SysClose(fd);
      outcome := Answered(D.Status(ret));
    case Syscall(Read(fd, nbytes)) =>
      var buf := new byte[if nbytes < 0 then 0 else nbytes];
      var ret, result := kernel.SysRead(fd, buf, nbytes, device);
      outcome := Answered(result);
    case MapVideo(address, largeBit) =>
      outcome := kernel.SysVidmap(address, table, largeBit);
      MapVideoOutcome(kernel.img, s, address, largeBit);
  }

  lemma MapVideoOutcome(img: Image, s: Sys, address: int, largeBit: Bit)
    requires WellFormed(img) && CallStacks.Valid(img, s)
    ensures Step(img, s, CallStacks.MapVideo(address, largeBit)).1 == Returned(-1) <==> !VideoRequestOk(address)
  {
  }

  /** From power-up, any sequence of entries takes the kernel through exactly
      the states and outcomes of the call-stack model, and the running program is
      isolated exactly when the last `vidmap` found that bit zero. */
  method Serve(img: Image, pageTable: nat, frame: Token, events: seq<Event>, table: nat, device: int)
    returns (kernel: Kernel, ghost outcomes: seq<Outcome>)
    requires WellFormed(img) && pageTable % 0x1000 == 0 && PAGE_SIZE <= table < BASE_MEM
    requires IsProgram(img, SHELL) && forall i :: 0 <= i < |events| ==> Admissible(events[i])
    requires forall i :: 0 <= i < |events| - 1 ==> !Hangs(events[i])
    ensures kernel.Valid() && kernel.img == img && CallStacks.Valid(img, BOOT_STATE)
    ensures kernel.sys == Runs.Run(img, BOOT_STATE, events)
    ensures outcomes == Runs.Outcomes(img, BOOT_STATE, events)
    ensures kernel.Isolated() <==> LargeBit(events) == 0
  {
    hide Consistent, CallStacks.Valid, Step, Admissible, WellFormed, IsProgram, VideoTable, NoOtherUserPages;
    BootStateValid(img);
    kernel := new Kernel(img, pageTable);
    var started := kernel.Boot(frame);
    outcomes := [];
    var i := 0;
    while i < |events|
      invariant i <= |events| && kernel.Valid() && kernel.img == img
      invariant fresh(kernel) && fresh(kernel.activeProcesses)
      invariant kernel.sys == Runs.Run(img, BOOT_STATE, events[..i])
      invariant outcomes == Runs.Outcomes(img, BOOT_STATE, events[..i])
      invariant Sealed(kernel.VideoEntry()) <==> LargeBit(events[..i]) == 0
    {
      ghost var outcome;
      outcome := Enter(kernel, events[i], table, device);
      Runs.RunExtends(img, BOOT_STATE, events[..i], events[i]);
      assert events[..i + 1] == events[..i] + [events[i]];
      outcomes := outcomes + [outcome];
      i := i + 1;
    }
    assert events[..i] == events;
    kernel.IsolatedWhenSealed();
  }
}
