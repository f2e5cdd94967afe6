/** Where the kernel keeps each process: the kernel stacks and process control
    blocks below 8 MB, and the page directory entry that fixes which 4 MB of
    physical memory the running program sees. */
module Paging {
  const BASE_MEM: int := 0x800000
  const PCB_MEM: int := 0x2000
  const PAGE_SIZE: int := 0x400000
  const USER_PAGE: int := 32
  const DIRECTORY_SIZE: int := 1024

  type Bit = x: int | 0 <= x < 2
  type Bits3 = x: int | 0 <= x < 8
  type Bits4 = x: int | 0 <= x < 16
  type Bits8 = x: int | 0 <= x < 256
  type Bits10 = x: int | 0 <= x < 1024

  /** First byte of the 8 KB block of process `pid`; its PCB lives there. */
  function PcbAddr(pid: int): int {
    BASE_MEM - (pid + 1) * PCB_MEM
  }

  /** One past the last byte of that block: where its kernel stack starts. */
  function StackTop(pid: int): int {
    BASE_MEM - pid * PCB_MEM
  }

  /** The kernel's `esp & 0xFFFFE000`, as integer arithmetic. */
  function MaskEsp(esp: int): int {
    esp - esp % PCB_MEM
  }

  /** On 32-bit registers the arithmetic form is the bitwise one. */
  lemma MaskEspIsBitwiseAnd(esp: bv32)
    ensures esp & 0xFFFF_E000 == esp - esp % 0x2000
  {
    assert esp % 0x2000 == esp & 0x1FFF;
  }

  /** Masking any stack pointer inside a process's 8 KB block finds the PCB of
      that process, and of no other. */
  lemma MaskFindsPcb(pid: int, depth: int)
    requires 0 <= pid && 0 < depth <= PCB_MEM
    ensures MaskEsp(StackTop(pid) - depth) == PcbAddr(pid)
    ensures forall other :: PcbAddr(other) == MaskEsp(StackTop(pid) - depth) ==> other == pid
  {
    var esp := StackTop(pid) - depth;
    assert esp == PcbAddr(pid) + (PCB_MEM - depth);
    assert PcbAddr(pid) == PCB_MEM * (1023 - pid);
    assert esp % PCB_MEM == PCB_MEM - depth;
  }

  /** A page directory entry for a 4 MB page, field by field. A fresh one holds
      whatever the stack held. */
  class PageEntry {
    var p: Bit
    var rw: Bit
    var us: Bit
    var pwt: Bit
    var pcd: Bit
    var a: Bit
    var d: Bit
    var ps: Bit
    var g: Bit
    var avl: Bits3
    var pat: Bit
    var address13to20: Bits8
    var reserved: Bit
    var address22to31: Bits10

    constructor ()
    {
    }

    /** The packed 32-bit value of the bit-field. */
    function Val(): (val: int)
      reads this
    {
      p + 0x2 * rw + 0x4 * us + 0x8 * pwt + 0x10 * pcd + 0x20 * a + 0x40 * d + 0x80 * ps + 0x100 * g
      + 0x200 * avl + 0x1000 * pat + 0x2000 * address13to20 + 0x20_0000 * reserved + 0x40_0000 * address22to31
    }

    /** Prepares the entry; the 10-bit and 1-bit fields truncate what they get. */
    method Setup(physicalMemory22to31: nat, user: nat)
      modifies this
      ensures MapsFrame(Val(), physicalMemory22to31 % 1024, user % 2 == 1)
    {
      hide MapsFrame;
      p := 1;
      rw := 1;
      us := user % 2;
      pwt := 0;
      pcd := 0;
      a := 0;
      d := 0;
      ps := 1;
      g := 0;
      pat := 0;
      reserved := 0;
      address22to31 := physicalMemory22to31 % 1024;
      PackedFields(us, avl + 0x10 * address13to20, address22to31);
      assert Val() == 0x83 + 4 * us + 0x200 * (avl + 0x10 * address13to20) + PAGE_SIZE * address22to31;
    }
  }

  // How the processor reads a directory entry (section 4.3 of the Intel SDM,
  // volume 3A, with 32-bit physical addresses, so bits 13 to 20 are not used).

  predicate Present(entry: int) {
    entry % 2 == 1
  }

  predicate UserAccess(entry: int) {
    (entry / 4) % 2 == 1
  }

  predicate Large(entry: int) {
    (entry / 128) % 2 == 1
  }

  function FrameOf(entry: int): int {
    entry / PAGE_SIZE
  }

  /** A 32-bit entry for a present 4 MB page of that frame. */
  predicate MapsFrame(entry: int, frame: int, user: bool) {
    && 0 <= entry < 0x1_0000_0000
    && Present(entry) && Large(entry) && (UserAccess(entry) <==> user) && FrameOf(entry) == frame
  }

  lemma PackedFields(us: int, spare: int, frame: int)
    requires 0 <= us < 2 && 0 <= spare < 0x1FF0 && 0 <= frame < 1024
    ensures MapsFrame(0x83 + 4 * us + 0x200 * spare + PAGE_SIZE * frame, frame, us == 1)
  {
    var entry := 0x83 + 4 * us + 0x200 * spare + 0x40_0000 * frame;
    assert entry == 2 * (0x41 + 2 * us + 0x100 * spare + 0x20_0000 * frame) + 1;
    assert entry / 4 == 2 * (16 + 64 * spare + 0x8_0000 * frame) + us by {
      assert entry == 4 * (2 * (16 + 64 * spare + 0x8_0000 * frame) + us) + 3;
    }
    assert entry / 128 == 2 * (2 * spare + 0x4000 * frame) + 1 by {
      assert entry == 128 * (2 * (2 * spare + 0x4000 * frame) + 1) + (4 * us + 3);
    }
    assert entry / 0x40_0000 == frame by {
      assert entry == 0x40_0000 * frame + (0x83 + 4 * us + 0x200 * spare);
    }
  }

  /** Present is bit 0, user bit 2, large bit 7, and the frame starts at bit 22: the
      entries of process 1 and of the kernel, and the first with one bit cleared. */
  lemma EntryExamples()
    ensures MapsFrame(0x0080_0087, 2, true) && MapsFrame(0x0040_0083, 1, false)
    ensures !Present(0x0080_0086) && !UserAccess(0x0080_0083) && !Large(0x0080_0007)
  {
  }

  datatype Mapping = Fault | Physical(address: int)

  // ------------------------------------------------------------------
  // What user programs reach
  // ------------------------------------------------------------------

  const VIDEO_ENTRY: int := 34
  const VIDEO_MEM: int := 0xB8000
  const SMALL_PAGE: int := 0x1000
  const LAST_PID: int := 6

  /** The 4 KB frames that the user video page is ever mapped to: the visible
      page, the terminals' backing pages, and the frames the timer handler
      computes for them. */
  predicate VideoFrame(frame: int) {
    0xB8 <= frame <= 0xBB || 0xB8001 <= frame <= 0xB8003
  }

  predicate InVideo(address: int) {
    VideoFrame(address / SMALL_PAGE)
  }

  /** A page table whose first entry at most is for user programs. */
  ghost predicate VideoTable(table: seq<int>) {
    && |table| == DIRECTORY_SIZE
    && (Present(table[0]) && UserAccess(table[0]) ==> VideoFrame(table[0] / SMALL_PAGE))
    && forall k :: 0 < k < DIRECTORY_SIZE ==> !(Present(table[k]) && UserAccess(table[k]))
  }

  /** What a user-mode access to virtual address `va` reaches. The only page
      table that user programs get is `table`. */
  function UserTranslate(directory: seq<int>, table: seq<int>, va: int): Mapping
    requires |directory| == DIRECTORY_SIZE && |table| == DIRECTORY_SIZE && 0 <= va < 0x1_0000_0000
  {
    var entry := directory[va / PAGE_SIZE];
    if !(Present(entry) && UserAccess(entry)) then Fault
    else if Large(entry) then Physical(FrameOf(entry) * PAGE_SIZE + va % PAGE_SIZE)
    else
      var page := table[va / SMALL_PAGE % DIRECTORY_SIZE];
      if Present(page) && UserAccess(page) then Physical(page / SMALL_PAGE * SMALL_PAGE + va % SMALL_PAGE) else Fault
  }

  /** The directory gives user programs one window, 128 MB to 132 MB, backed by
      the frame that belongs to `pid`, and besides at most the video entry. */
  ghost predicate MapsOnly(directory: seq<int>, pid: int) {
    && NoOtherUserPages(directory)
    && Present(directory[USER_PAGE]) && UserAccess(directory[USER_PAGE]) && Large(directory[USER_PAGE])
    && FrameOf(directory[USER_PAGE]) == pid + 1
  }

  /** No entry but those two is for user programs. */
  ghost predicate NoOtherUserPages(directory: seq<int>) {
    && |directory| == DIRECTORY_SIZE
    && forall k :: 0 <= k < DIRECTORY_SIZE && k != USER_PAGE && k != VIDEO_ENTRY
                   ==> !(Present(directory[k]) && UserAccess(directory[k]))
  }

  /** The video entry, if user programs may use it, is a page table. */
  predicate Sealed(entry: int) {
    !(Present(entry) && UserAccess(entry) && Large(entry))
  }

  /** Right after start-up there is no user page. */
  lemma NothingForUsers(directory: seq<int>, table: seq<int>)
    requires |directory| == DIRECTORY_SIZE && !UserAccess(directory[0]) && !UserAccess(directory[1])
    requires directory[2..] == seq(DIRECTORY_SIZE, _ => 0)[2..] && table == seq(DIRECTORY_SIZE, _ => 0)
    ensures NoOtherUserPages(directory) && VideoTable(table) && directory[VIDEO_ENTRY] == 0
  {
    assert forall k :: 2 <= k < DIRECTORY_SIZE ==> directory[k] == directory[2..][k - 2];
  }

  /** What a program sees: its own frame in the window; from 136 MB on at most one
      video page if the video entry is sealed, and the 4 MB it names otherwise;
      nothing elsewhere. */
  lemma UserWindow(directory: seq<int>, table: seq<int>, pid: int, va: int)
    requires MapsOnly(directory, pid) && VideoTable(table) && 0 <= va < 0x1_0000_0000
    ensures |directory| == DIRECTORY_SIZE
    ensures var r := UserTranslate(directory, table, va);
            if 0x800_0000 <= va < 0x840_0000 then r == Physical((pid + 1) * PAGE_SIZE + (va - 0x800_0000))
            else if 0x880_0000 <= va < 0x8C0_0000 && !Sealed(directory[VIDEO_ENTRY]) then
              r == Physical(FrameOf(directory[VIDEO_ENTRY]) * PAGE_SIZE + (va - 0x880_0000))
            else if 0x880_0000 <= va < 0x880_1000 then
              r == Fault || (InVideo(r.address) && r.address == table[0] / SMALL_PAGE * SMALL_PAGE + (va - 0x880_0000))
            else r == Fault
  {
    var k := va / PAGE_SIZE;
    assert 0 <= k < DIRECTORY_SIZE && va == PAGE_SIZE * k + va % PAGE_SIZE;
    if k == VIDEO_ENTRY {
      VideoPage(va);
    }
  }

  /** Pages of the 4 MB at 136 MB. */
  lemma VideoPage(va: int)
    requires va / PAGE_SIZE == VIDEO_ENTRY
    ensures 0x880_0000 <= va < 0x8C0_0000
    ensures va / SMALL_PAGE % DIRECTORY_SIZE == (va - 0x880_0000) / SMALL_PAGE
    ensures va < 0x880_1000 <==> (va - 0x880_0000) / SMALL_PAGE == 0
    ensures va < 0x880_1000 ==> va % SMALL_PAGE == va - 0x880_0000
  {
    var offset := va - 0x880_0000;
    var page := offset / SMALL_PAGE;
    assert va / SMALL_PAGE == 0x8800 + page && 0 <= page < DIRECTORY_SIZE;
    assert 0x8800 + page == DIRECTORY_SIZE * VIDEO_ENTRY + page;
  }

  lemma PageInstalled(directory: seq<int>, pid: int, entry: int)
    requires NoOtherUserPages(directory) && MapsFrame(entry, pid + 1, true)
    ensures |directory| == DIRECTORY_SIZE && MapsOnly(directory[USER_PAGE := entry], pid)
  {
  }

  /** Two processes never reach the same physical byte, whatever addresses they
      use, but for the video page, which is neither in a program's frame nor in
      the kernel's: no program reaches kernel code, a control block or a kernel
      stack. */
  lemma AddressSpacesDisjoint(dir1: seq<int>, table1: seq<int>, pid1: int, va1: int,
                              dir2: seq<int>, table2: seq<int>, pid2: int, va2: int)
    requires MapsOnly(dir1, pid1) && MapsOnly(dir2, pid2) && VideoTable(table1) && VideoTable(table2)
    requires |dir1| == DIRECTORY_SIZE && Sealed(dir1[VIDEO_ENTRY]) && |dir2| == DIRECTORY_SIZE && Sealed(dir2[VIDEO_ENTRY])
    requires 1 <= pid1 <= LAST_PID && 1 <= pid2 <= LAST_PID
    requires 0 <= va1 < 0x1_0000_0000 && 0 <= va2 < 0x1_0000_0000
    requires UserTranslate(dir1, table1, va1).Physical? && UserTranslate(dir2, table2, va2).Physical?
    ensures var a, b := UserTranslate(dir1, table1, va1).address, UserTranslate(dir2, table2, va2).address;
            && (BASE_MEM <= a < 0x200_0000 || InVideo(a)) && !(BASE_MEM <= a < 0x200_0000 && InVideo(a))
            && (a == b && !InVideo(a) ==> pid1 == pid2 && va1 == va2)
    ensures InVideo(UserTranslate(dir1, table1, va1).address) ==>
              var a := UserTranslate(dir1, table1, va1).address; !(PAGE_SIZE <= a < BASE_MEM)
  {
    UserWindow(dir1, table1, pid1, va1);
    UserWindow(dir2, table2, pid2, va2);
  }

  // ------------------------------------------------------------------
  // The user video page
  // ------------------------------------------------------------------

  /** The frame `vidmap` maps for a program of terminal `t`: the visible page
      while `t` is displayed, its backing page otherwise. */
  function OwnPage(shown: int, t: int): int {
    if shown == t then VIDEO_MEM / SMALL_PAGE else VIDEO_MEM / SMALL_PAGE + t
  }

  /** The frame the timer handler maps for terminal `t`: the terminal's number is
      added to the address instead of to the page number. */
  function TickPage(shown: int, t: int): int {
    if shown == t then VIDEO_MEM / SMALL_PAGE else VIDEO_MEM + t
  }

  /** After a tick the video page is the terminal's own exactly when the terminal
      is displayed. */
  lemma TickPageIsOwn(shown: int, t: int)
    requires 1 <= t <= 3
    ensures TickPage(shown, t) == OwnPage(shown, t) <==> shown == t
    ensures VideoFrame(TickPage(shown, t)) && VideoFrame(OwnPage(shown, t))
    ensures TickPage(shown, t) < 0x10_0000
  {
  }

  /** With terminal 1 displayed, a tick to terminal 2 maps a frame at 0xB8002000. */
  lemma TickMapsWrongPage()
    ensures TickPage(1, 2) * SMALL_PAGE == 0xB800_2000 && OwnPage(1, 2) * SMALL_PAGE == 0xBA000
    ensures TickPage(2, 2) * SMALL_PAGE == OwnPage(2, 2) * SMALL_PAGE == 0xB8000
  {
  }

  type Bits9 = x: int | 0 <= x < 512

  /** A present, writable user page of a frame; `spare` is what the other bits held. */
  function UserPageEntry(frame: int, spare: Bits9): int {
    0x7 + 0x8 * spare + 0x1000 * frame
  }

  /** The directory entry for a page-aligned table that `vidmap` writes; the other
      parameters are what the stack held at the bits it leaves alone, among them
      the one that tells a page table from a large page. */
  function UserTableEntry(table: int, spare3to6: Bits4, largeBit: Bit, spare8to11: Bits4): int {
    0x7 + 0x8 * spare3to6 + 0x80 * largeBit + 0x100 * spare8to11 + 0x1000 * (table / SMALL_PAGE)
  }

  /** The low three bits set: present, writable, for user programs. */
  lemma UserBits(rest: int)
    ensures Present(7 + 8 * rest) && UserAccess(7 + 8 * rest)
  {
    assert 7 + 8 * rest == 2 * (3 + 4 * rest) + 1;
    OddQuotient4(rest, 7 + 8 * rest);
  }

  lemma OddQuotient4(half: int, x: int)
    requires x == 4 * (2 * half + 1) + 3
    ensures (x / 4) % 2 == 1
  {
    assert x / 4 == 2 * half + 1;
  }

  lemma UserPageInstalled(table: seq<int>, frame: int, spare: Bits9)
    requires VideoTable(table) && VideoFrame(frame)
    ensures var entry := UserPageEntry(frame, spare);
            && Present(entry) && UserAccess(entry) && entry / SMALL_PAGE == frame
            && |table| == DIRECTORY_SIZE && VideoTable(table[0 := entry])
  {
    hide Present, UserAccess;
    UserBits(spare + 0x200 * frame);
    Quotient4096(frame, 7 + 8 * spare, UserPageEntry(frame, spare));
  }

  /** The entry is sealed exactly when that bit was zero. */
  lemma UserTableInstalled(directory: seq<int>, pid: int, table: int, spare3to6: Bits4, largeBit: Bit, spare8to11: Bits4)
    requires MapsOnly(directory, pid)
    ensures var entry := UserTableEntry(table, spare3to6, largeBit, spare8to11);
            && Present(entry) && UserAccess(entry) && (Sealed(entry) <==> largeBit == 0) && (Large(entry) <==> largeBit == 1)
            && FrameOf(entry) == table / PAGE_SIZE
            && |directory| == DIRECTORY_SIZE && MapsOnly(directory[VIDEO_ENTRY := entry], pid)
  {
    var t := table / SMALL_PAGE;
    TableBits(t, spare3to6, largeBit, spare8to11);
    TableFrame(table, 0x7 + 0x8 * spare3to6 + 0x80 * largeBit + 0x100 * spare8to11);
    hide Present, UserAccess, Large, FrameOf;
    UserBits(spare3to6 + 0x10 * largeBit + 0x20 * spare8to11 + 0x200 * t);
  }

  lemma TableBits(t: int, spare3to6: Bits4, largeBit: Bit, spare8to11: Bits4)
    ensures Large(0x7 + 0x8 * spare3to6 + 0x80 * largeBit + 0x100 * spare8to11 + 0x1000 * t) <==> largeBit == 1
  {
    var half := spare8to11 + 0x10 * t;
    var entry := 0x7 + 0x8 * spare3to6 + 0x80 * largeBit + 0x100 * spare8to11 + 0x1000 * t;
    assert entry == 128 * (2 * half + largeBit) + (7 + 8 * spare3to6);
    assert entry / 128 == 2 * half + largeBit;
  }

  lemma TableFrame(table: int, low: int)
    requires 0 <= low < SMALL_PAGE
    ensures (low + SMALL_PAGE * (table / SMALL_PAGE)) / PAGE_SIZE == table / PAGE_SIZE
  {
    var t, r := table / SMALL_PAGE, table % SMALL_PAGE;
    assert table == SMALL_PAGE * t + r;
    assert table / PAGE_SIZE == t / 1024;
  }

  // ------------------------------------------------------------------
  // Isolation
  // ------------------------------------------------------------------

  /** Every user access faults or ends in the program's own frame or in video memory. */
  ghost predicate Isolated(directory: seq<int>, table: seq<int>, pid: int) {
    && |directory| == DIRECTORY_SIZE && |table| == DIRECTORY_SIZE
    && forall va :: 0 <= va < 0x1_0000_0000 ==> Harmless(UserTranslate(directory, table, va), pid)
  }

  predicate Harmless(r: Mapping, pid: int) {
    r == Fault || (pid + 1) * PAGE_SIZE <= r.address < (pid + 2) * PAGE_SIZE || InVideo(r.address)
  }

  /** A large video page is the kernel's own 4 MB, since the video page table lies
      in them. */
  predicate VideoEntryOk(entry: int) {
    Sealed(entry) || FrameOf(entry) == 1
  }

  /** A program is isolated exactly when the video entry is sealed. */
  lemma IsolatedWhenSealed(directory: seq<int>, table: seq<int>, pid: int)
    requires MapsOnly(directory, pid) && VideoTable(table) && 1 <= pid <= LAST_PID
    requires |directory| == DIRECTORY_SIZE && VideoEntryOk(directory[VIDEO_ENTRY])
    ensures Isolated(directory, table, pid) <==> Sealed(directory[VIDEO_ENTRY])
  {
    hide MapsOnly, UserTranslate, Sealed, FrameOf;
    forall va | 0 <= va < 0x1_0000_0000 && Sealed(directory[VIDEO_ENTRY])
      ensures Harmless(UserTranslate(directory, table, va), pid)
    {
      UserWindow(directory, table, pid, va);
    }
    UserWindow(directory, table, pid, 0x880_0000);
    assert !Harmless(Physical(PAGE_SIZE), pid);
  }

  /** With the bit set and the page table at 0x41D000, the program reaches the
      first byte of the kernel's 4 MB. */
  lemma LargeBitExposesKernel(directory: seq<int>, table: seq<int>, pid: int)
    requires MapsOnly(directory, pid) && VideoTable(table) && 1 <= pid <= LAST_PID
    ensures UserTableEntry(0x41_D000, 0, 1, 0) == 0x41_D087
    ensures |directory| == DIRECTORY_SIZE
    ensures UserTranslate(directory[VIDEO_ENTRY := 0x41_D087], table, 0x880_0000) == Physical(PAGE_SIZE)
  {
    UserTableInstalled(directory, pid, 0x41_D000, 0, 1, 0);
    UserWindow(directory[VIDEO_ENTRY := 0x41_D087], table, pid, 0x880_0000);
  }

  /** The four bytes that `vidmap` stores at an address it accepts are all mapped
      exactly when the address is at least four below the end of the window. */
  lemma StoreIsMapped(directory: seq<int>, table: seq<int>, pid: int, address: int)
    requires MapsOnly(directory, pid) && VideoTable(table) && 0x800_0000 <= address <= 0x840_0000
    ensures |directory| == DIRECTORY_SIZE
    ensures (forall va :: address <= va < address + 4 ==> UserTranslate(directory, table, va).Physical?)
            <==> address <= 0x840_0000 - 4
  {
    forall va | address <= va < address + 4
      ensures UserTranslate(directory, table, va).Physical? <==> va < 0x840_0000
    {
      UserWindow(directory, table, pid, va);
    }
    assert address > 0x840_0000 - 4 ==> !UserTranslate(directory, table, address + 3).Physical?;
  }

  /** The program's 4 KB from 136 MB on are that frame. */
  ghost predicate SeesFrame(directory: seq<int>, table: seq<int>, frame: int) {
    && |directory| == DIRECTORY_SIZE && |table| == DIRECTORY_SIZE
    && forall va :: 0x880_0000 <= va < 0x880_1000 ==>
                      UserTranslate(directory, table, va) == Physical(frame * SMALL_PAGE + (va - 0x880_0000))
  }

  lemma VideoWindow(directory: seq<int>, table: seq<int>)
    requires |directory| == DIRECTORY_SIZE && |table| == DIRECTORY_SIZE
    requires Present(directory[VIDEO_ENTRY]) && UserAccess(directory[VIDEO_ENTRY]) && !Large(directory[VIDEO_ENTRY])
    requires Present(table[0]) && UserAccess(table[0])
    ensures SeesFrame(directory, table, table[0] / SMALL_PAGE)
  {
    forall va | 0x880_0000 <= va < 0x880_1000
      ensures UserTranslate(directory, table, va)
           == Physical(table[0] / SMALL_PAGE * SMALL_PAGE + (va - 0x880_0000))
    {
      VideoPage(va);
    }
  }

  /** Kernel stacks, PCBs included, are disjoint too and stay below 8 MB. */
  lemma KernelStacksDisjoint(pid1: int, pid2: int, a: int)
    requires 0 <= pid1 && 0 <= pid2 && pid1 != pid2
    requires PcbAddr(pid1) <= a < StackTop(pid1)
    ensures !(PcbAddr(pid2) <= a < StackTop(pid2)) && a < BASE_MEM
  {
    if pid1 < pid2 {
      assert StackTop(pid2) <= PcbAddr(pid1);
    } else {
      assert StackTop(pid1) <= PcbAddr(pid2);
    }
  }

  /** The part of the kernel's start-up that fills the directory: entry 0 is a
      page table for the first 4 MB, entry 1 the kernel's own 4 MB page, both
      for the supervisor only. `table` is the page-aligned address of that page
      table; `spare6` and `spare8to11` are the bits the code leaves as they were. */
  method SetupKernelPaging(directory: seq<int>, table: nat, spare6: Bit, spare8to11: Bits4) returns (result: seq<int>)
    requires |directory| == DIRECTORY_SIZE && table % 0x1000 == 0
    ensures |result| == DIRECTORY_SIZE && result[2..] == directory[2..]
    ensures Present(result[0]) && !UserAccess(result[0]) && !Large(result[0]) && result[0] / 0x1000 == table / 0x1000
    ensures Present(result[1]) && !UserAccess(result[1]) && Large(result[1]) && FrameOf(result[1]) == 1
  {
    var kernelPage := new PageEntry();
    kernelPage.Setup(1, 0);
    result := directory[1 := kernelPage.Val()];
    var firstMb := 0x3 + 0x40 * spare6 + 0x100 * spare8to11 + table;
    TableEntry(spare6, spare8to11, table / 0x1000);
    result := result[0 := firstMb];
  }

  lemma TableEntry(spare6: Bit, spare8to11: Bits4, table: nat)
    ensures var entry := 0x3 + 0x40 * spare6 + 0x100 * spare8to11 + 0x1000 * table;
            Present(entry) && !UserAccess(entry) && !Large(entry) && entry / 0x1000 == table
  {
    var entry := 0x3 + 0x40 * spare6 + 0x100 * spare8to11 + 0x1000 * table;
    var odd, even, low := 1 + 0x20 * spare6 + 0x80 * spare8to11 + 0x800 * table,
                          8 * spare6 + 0x20 * spare8to11 + 0x200 * table, 0x40 * spare6 + 3;
    assert entry == 2 * odd + 1;
    Quotient4(even, entry);
    Quotient128(spare8to11 + 0x10 * table, low, entry);
    Quotient4096(table, low + 0x100 * spare8to11, entry);
  }

  lemma Quotient4(half: int, x: int)
    requires x == 4 * (2 * half) + 3
    ensures (x / 4) % 2 == 0
  {
    assert x / 4 == 2 * half;
  }

  lemma Quotient128(half: int, r: int, x: int)
    requires 0 <= r < 128 && x == 128 * (2 * half) + r
    ensures (x / 128) % 2 == 0
  {
    assert x / 128 == 2 * half;
  }

  lemma Quotient4096(q: int, r: int, x: int)
    requires 0 <= r < 0x1000 && x == 0x1000 * q + r
    ensures x / 0x1000 == q
  {
  }
}
