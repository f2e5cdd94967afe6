/** What a process's file descriptors mean: a partial map from the eight slots
    to open streams, and the streams a program can observe through them. */
module Descriptors {
  import opened Bytes
  import opened FileSystem

  const MAX_OPEN_FILES: int := 8

  datatype Desc = Stdin | Stdout | Rtc | Dir(entry: nat) | File(inode: nat, position: nat)

  type Table = map<int, Desc>

  /** The table of a process that has just been started. */
  const FRESH: Table := map[0 := Stdin, 1 := Stdout]

  datatype Op = Open(name: seq<byte>) | Close(fd: int) | Read(fd: int, nbytes: int)

  /** A return code, the bytes a read delivered (the call returns how many), or
      whatever the terminal or the clock answers. */
  datatype Result = Status(code: int) | Data(bytes: seq<byte>) | Device

  ghost predicate TableOk(img: Image, t: Table) {
    && (forall fd :: fd in t ==> 0 <= fd < MAX_OPEN_FILES)
    && (forall fd :: fd in t && t[fd].File? ==> t[fd].inode < |img.inodes|)
    && 0 in t && t[0] == Stdin && 1 in t && t[1] == Stdout
  }

  // ------------------------------------------------------------------
  // open, close, read
  // ------------------------------------------------------------------

  /** The first free slot at or above `i`, or 8 when there is none. */
  function FreeFrom(t: Table, i: int): (r: int)
    requires i <= MAX_OPEN_FILES
    ensures i <= r <= MAX_OPEN_FILES && (r < MAX_OPEN_FILES ==> r !in t)
    ensures forall k :: i <= k < r ==> k in t
    decreases MAX_OPEN_FILES - i
  {
    if i == MAX_OPEN_FILES || i !in t then i else FreeFrom(t, i + 1)
  }

  function OpenStep(img: Image, t: Table, name: seq<byte>): (Table, Result) {
    var slot := FreeFrom(t, 2);
    var entry := Lookup(img, name);
    if slot == MAX_OPEN_FILES || entry == FS_ERROR then (t, Status(-1))
    else
      var dentry := img.dentries[entry];
      if dentry.fileType == FILE_TYPE_RTC then (t[slot := Rtc], Status(slot))
      else if dentry.fileType == FILE_TYPE_DIR then (t[slot := Dir(0)], Status(slot))
      else if dentry.fileType == FILE_TYPE_REG then (t[slot := File(dentry.inodeNum, 0)], Status(slot))
      else (t, Status(-1))
  }

  function CloseStep(t: Table, fd: int): (Table, Result) {
    if fd < 2 || fd > 7 || fd !in t then (t, Status(-1)) else (t - {fd}, Status(0))
  }

  /** One read from one open stream, on its own. */
  ghost function ReadOne(img: Image, d: Desc, nbytes: nat): (r: (Desc, seq<byte>))
    requires WellFormed(img) && (d.File? ==> d.inode < |img.inodes|)
    ensures (d.File? ==> r.0.File? && r.0.inode == d.inode) && (d.Dir? ==> r.0.Dir?)
    ensures !d.File? && !d.Dir? ==> r == (d, [])
  {
    match d
    case Dir(entry) =>
      var step := DirStep(img, entry, nbytes);
      (Dir(step.0), step.1)
    case File(inode, position) =>
      var step := FileStep(img, img.inodes[inode], position, nbytes);
      (File(inode, step.0), step.1)
    case _ => (d, [])
  }

  ghost function ReadStep(img: Image, t: Table, fd: int, nbytes: int): (Table, Result)
    requires WellFormed(img) && TableOk(img, t)
  {
    if fd < 0 || fd > 7 || nbytes < 0 || fd == 1 || fd !in t then (t, Status(-1))
    else if t[fd].Dir? || t[fd].File? then
      var step := ReadOne(img, t[fd], nbytes);
      (t[fd := step.0], Data(step.1))
    else (t, Device)
  }

  ghost function Step(img: Image, t: Table, op: Op): (Table, Result)
    requires WellFormed(img) && TableOk(img, t)
  {
    match op
    case Open(name) => OpenStep(img, t, name)
    case Close(fd) => CloseStep(t, fd)
    case Read(fd, nbytes) => ReadStep(img, t, fd, nbytes)
  }

  lemma StepKeepsTableOk(img: Image, t: Table, op: Op)
    requires WellFormed(img) && TableOk(img, t)
    ensures TableOk(img, Step(img, t, op).0)
  {
    if op.Open? && Lookup(img, op.name) != FS_ERROR {
      assert img.dentries[Lookup(img, op.name)] in img.dentries;
    }
  }

  /** open succeeds exactly when a slot from 2 to 7 is free and the name denotes
      a clock, directory or regular file; it then takes the lowest free slot, at
      position 0, and changes no other. */
  lemma OpenTakesLowestSlot(img: Image, t: Table, name: seq<byte>)
    requires WellFormed(img) && TableOk(img, t)
    ensures var (t', r) := OpenStep(img, t, name);
            && r.Status?
            && (r.code >= 0 <==> (exists k :: 2 <= k <= 7 && k !in t)
                                 && Lookup(img, name) >= 0 && img.dentries[Lookup(img, name)].fileType <= 2)
            && (r.code >= 0 ==> 2 <= r.code <= 7 && r.code !in t && (forall k :: 2 <= k < r.code ==> k in t)
                                && t' - {r.code} == t && t'.Keys == t.Keys + {r.code}
                                && var dentry := img.dentries[Lookup(img, name)];
                                   t'[r.code] == if dentry.fileType == 0 then Rtc else if dentry.fileType == 1 then Dir(0)
                                                 else File(dentry.inodeNum, 0))
            && (r.code < 0 ==> t' == t && r.code == -1)
  {
    var slot := FreeFrom(t, 2);
    assert (exists k :: 2 <= k <= 7 && k !in t) ==> slot <= 7;
    assert slot <= 7 ==> slot !in t;
  }

  /** After a close the slot is free and all others are kept; a second close
      fails; and an open that would find no lower slot takes it again. */
  lemma CloseFreesSlot(img: Image, t: Table, fd: int, name: seq<byte>)
    requires WellFormed(img) && TableOk(img, t)
    ensures var (t', r) := Step(img, t, Close(fd));
            if 2 <= fd <= 7 && fd in t then
              && r == Status(0) && t'.Keys == t.Keys - {fd} && (forall k :: k in t && k != fd ==> t'[k] == t[k])
              && CloseStep(t', fd) == (t', Status(-1))
              && ((forall k :: 2 <= k < fd ==> k in t) && OpenStep(img, t', name).1 != Status(-1)
                  ==> OpenStep(img, t', name).1 == Status(fd))
            else t' == t && r == Status(-1)
  {
    var t' := CloseStep(t, fd).0;
    assert 2 <= fd <= 7 && fd in t && (forall k :: 2 <= k < fd ==> k in t) ==> FreeFrom(t', 2) == fd;
  }

  /** A read is refused exactly on a closed slot, a slot out of range, the
      terminal's output, or with a negative size; the terminal and the clock
      answer for themselves; files and directories deliver bytes. */
  lemma ReadAnswers(img: Image, t: Table, fd: int, nbytes: int)
    requires WellFormed(img) && TableOk(img, t)
    ensures var (t', r) := Step(img, t, Read(fd, nbytes));
            && (r == Status(-1) <==> fd !in t || fd == 1 || nbytes < 0)
            && (r.Status? ==> r == Status(-1) && t' == t)
            && (r == Device <==> fd in t && fd != 1 && nbytes >= 0 && (t[fd].Stdin? || t[fd].Stdout? || t[fd].Rtc?))
            && (r.Device? ==> t' == t)
            && t'.Keys == t.Keys && (forall k :: k in t && k != fd ==> t'[k] == t[k])
  {
  }

  // ------------------------------------------------------------------
  // Runs: each descriptor is a stream of its own
  // ------------------------------------------------------------------

  ghost function Run(img: Image, t: Table, ops: seq<Op>): (r: Table)
    requires WellFormed(img) && TableOk(img, t)
    ensures TableOk(img, r)
    decreases |ops|
  {
    if ops == [] then t
    else
      StepKeepsTableOk(img, t, ops[0]);
      Run(img, Step(img, t, ops[0]).0, ops[1..])
  }

  /** The bytes that reads on `fd` delivered, call by call. */
  ghost function Outputs(img: Image, t: Table, ops: seq<Op>, fd: int): seq<seq<byte>>
    requires WellFormed(img) && TableOk(img, t)
    decreases |ops|
  {
    if ops == [] then []
    else
      StepKeepsTableOk(img, t, ops[0]);
      var step := Step(img, t, ops[0]);
      (if ops[0].Read? && ops[0].fd == fd && step.1.Data? then [step.1.bytes] else [])
      + Outputs(img, step.0, ops[1..], fd)
  }

  /** The sizes asked of `fd`, in order. */
  function Requests(ops: seq<Op>, fd: int): seq<nat>
    decreases |ops|
  {
    if ops == [] then []
    else (if ops[0].Read? && ops[0].fd == fd && ops[0].nbytes >= 0 then [ops[0].nbytes] else [])
         + Requests(ops[1..], fd)
  }

  /** Reading one open stream with nothing else going on. */
  ghost function ReadMany(img: Image, d: Desc, sizes: seq<nat>): (r: (Desc, seq<seq<byte>>))
    requires WellFormed(img) && (d.File? ==> d.inode < |img.inodes|)
    ensures |r.1| == |sizes|
    ensures (d.File? ==> r.0.File? && r.0.inode == d.inode) && (d.Dir? ==> r.0.Dir?)
    ensures !d.File? && !d.Dir? ==> r.0 == d
    decreases |sizes|
  {
    if sizes == [] then (d, [])
    else
      var first := ReadOne(img, d, sizes[0]);
      var rest := ReadMany(img, first.0, sizes[1..]);
      (rest.0, [first.1] + rest.1)
  }

  /** Whatever else the program opens, closes and reads, an open file or
      directory delivers exactly what it would deliver alone. */
  lemma {:induction false} DescriptorsAreIndependent(img: Image, t: Table, ops: seq<Op>, fd: int)
    requires WellFormed(img) && TableOk(img, t)
    requires fd in t && (t[fd].Dir? || t[fd].File?)
    requires Close(fd) !in ops
    ensures fd in Run(img, t, ops)
    ensures (Run(img, t, ops)[fd], Outputs(img, t, ops, fd)) == ReadMany(img, t[fd], Requests(ops, fd))
    decreases |ops|
  {
    hide WellFormed;
    if ops != [] {
      var t' := Step(img, t, ops[0]).0;
      StepKeepsTableOk(img, t, ops[0]);
      assert ops[0] != Close(fd);
      DescriptorsAreIndependent(img, t', ops[1..], fd);
      if ops[0].Read? && ops[0].fd == fd && ops[0].nbytes >= 0 {
        var first := ReadOne(img, t[fd], ops[0].nbytes);
        assert t'[fd] == first.0;
        assert Outputs(img, t, ops, fd) == [first.1] + Outputs(img, t', ops[1..], fd);
        Unfold(img, t[fd], ops[0].nbytes, Requests(ops[1..], fd));
      } else {
        assert t'[fd] == t[fd];
        assert Outputs(img, t, ops, fd) == Outputs(img, t', ops[1..], fd);
        assert Requests(ops, fd) == Requests(ops[1..], fd);
      }
    }
  }

  lemma Unfold(img: Image, d: Desc, size: nat, sizes: seq<nat>)
    requires WellFormed(img) && (d.File? ==> d.inode < |img.inodes|)
    ensures var first := ReadOne(img, d, size);
            var rest := ReadMany(img, first.0, sizes);
            ReadMany(img, d, [size] + sizes) == (rest.0, [first.1] + rest.1)
  {
    assert ([size] + sizes)[1..] == sizes;
  }

  // ------------------------------------------------------------------
  // The stream of a regular file
  // ------------------------------------------------------------------

  ghost function Flatten(parts: seq<seq<byte>>): seq<byte> {
    if parts == [] then [] else parts[0] + Flatten(parts[1..])
  }

  ghost function Repeat(s: seq<byte>, times: nat): seq<byte> {
    if times == 0 then [] else s + Repeat(s, times - 1)
  }

  /** How many of the reads found the position at the end and rewound it. */
  ghost function Rewinds(img: Image, d: Desc, sizes: seq<nat>): nat
    requires WellFormed(img) && d.File? && d.inode < |img.inodes|
    decreases |sizes|
  {
    if sizes == [] then 0
    else (if d.position >= img.inodes[d.inode].size then 1 else 0)
         + Rewinds(img, ReadOne(img, d, sizes[0]).0, sizes[1..])
  }

  /** Successive reads of any sizes deliver the contents over and over: from
      position 0, everything delivered is one whole copy for each rewind and
      then the contents up to the present position. */
  lemma {:induction false} FileStream(img: Image, inode: nat, position: nat, sizes: seq<nat>)
    requires WellFormed(img) && inode < |img.inodes|
    requires position <= |Contents(img, img.inodes[inode])|
    ensures var c := Contents(img, img.inodes[inode]);
            var (d, parts) := ReadMany(img, File(inode, position), sizes);
            && d.File? && d.inode == inode && d.position <= |c|
            && c[..position] + Flatten(parts)
               == Repeat(c, Rewinds(img, File(inode, position), sizes)) + c[..d.position]
    decreases |sizes|
  {
    var c := Contents(img, img.inodes[inode]);
    if sizes != [] {
      var d := File(inode, position);
      var first := ReadOne(img, d, sizes[0]);
      assert sizes == [sizes[0]] + sizes[1..];
      Unfold(img, d, sizes[0], sizes[1..]);
      var rest := ReadMany(img, first.0, sizes[1..]);
      FlattenCons(first.1, rest.1);
      FileReadStays(img, inode, position, sizes[0]);
      FileStream(img, inode, first.0.position, sizes[1..]);
      var again := Rewinds(img, first.0, sizes[1..]);
      if position >= img.inodes[inode].size {
        assert Rewinds(img, d, sizes) == 1 + again;
        Regroup(c, [], Flatten(rest.1));
        Regroup(c, Repeat(c, again), c[..rest.0.position]);
      } else {
        assert Rewinds(img, d, sizes) == again;
        Regroup(c[..position], first.1, Flatten(rest.1));
      }
    }
  }

  /** One read moves along the contents, or rewinds at their end. */
  lemma FileReadStays(img: Image, inode: nat, position: nat, nbytes: nat)
    requires WellFormed(img) && inode < |img.inodes|
    requires position <= |Contents(img, img.inodes[inode])|
    ensures var c := Contents(img, img.inodes[inode]);
            var (d, data) := ReadOne(img, File(inode, position), nbytes);
            if position >= img.inodes[inode].size then d.position == 0 && data == [] && c[..position] == c
            else d.position <= |c| && c[..d.position] == c[..position] + data
  {
    var node := img.inodes[inode];
    SpanMeaning(img, node, 0, node.size);
    if position < node.size {
      SpanOfContents(img, node, position, Min(position + nbytes, node.size));
    }
  }

  lemma FlattenCons(part: seq<byte>, parts: seq<seq<byte>>)
    ensures Flatten([part] + parts) == part + Flatten(parts)
  {
    assert ([part] + parts)[1..] == parts;
  }

  lemma Regroup(a: seq<byte>, b: seq<byte>, c: seq<byte>)
    ensures a + (b + c) == (a + b) + c
    ensures [] + c == c && a + [] == a
  {
  }

  /** A read of at least one byte makes progress before the end of what is stored
      of the file; there it returns nothing, and at the end of the file it starts
      over. */
  lemma FileReadProgress(img: Image, inode: nat, position: nat, nbytes: nat)
    requires WellFormed(img) && inode < |img.inodes| && 1 <= nbytes
    requires position <= |Contents(img, img.inodes[inode])|
    ensures var c, size := Contents(img, img.inodes[inode]), img.inodes[inode].size;
            var (d, data) := ReadOne(img, File(inode, position), nbytes);
            && |c| <= size && (data == [] <==> position == |c|)
            && d == File(inode, if position == size then 0 else Min(position + nbytes, |c|))
            && data == c[position..Min(position + nbytes, |c|)]
  {
    var node := img.inodes[inode];
    SpanMeaning(img, node, 0, node.size);
    SpanOfContents(img, node, position, Min(position + nbytes, node.size));
  }

  /** A program that reads from the start until it is given nothing has read
      exactly the contents, and the next read starts over unless some byte of the
      file is not stored. */
  lemma ReadToEndYieldsFile(img: Image, inode: nat, sizes: seq<nat>, nbytes: nat)
    requires WellFormed(img) && inode < |img.inodes| && 1 <= nbytes
    requires Rewinds(img, File(inode, 0), sizes) == 0
    requires ReadOne(img, ReadMany(img, File(inode, 0), sizes).0, nbytes).1 == []
    ensures Flatten(ReadMany(img, File(inode, 0), sizes).1) == Contents(img, img.inodes[inode])
    ensures var c, size := Contents(img, img.inodes[inode]), img.inodes[inode].size;
            ReadOne(img, ReadMany(img, File(inode, 0), sizes).0, nbytes).0
            == File(inode, if |c| == size then 0 else |c|)
  {
    hide Stored, WellFormed;
    var node := img.inodes[inode];
    FileStream(img, inode, 0, sizes);
    var (d, parts) := ReadMany(img, File(inode, 0), sizes);
    FileReadProgress(img, inode, d.position, nbytes);
    var c := Contents(img, node);
    assert c[..0] + Flatten(parts) == Flatten(parts);
    assert [] + c[..d.position] == c;
  }

  // ------------------------------------------------------------------
  // The stream of the directory
  // ------------------------------------------------------------------

  /** The entry that read number `k` finds, when the directory has `n` entries
      and reading starts at `entry`; `n` itself stands for the empty read. */
  function Turn(entry: nat, k: nat, n: nat): nat
    requires entry <= n
    decreases k
  {
    if k == 0 then entry else Turn(if entry == n then 0 else entry + 1, k - 1, n)
  }

  lemma {:induction false} TurnIsCyclic(entry: nat, k: nat, n: nat)
    requires entry <= n
    ensures Turn(entry, k, n) == (entry + k) % (n + 1)
    decreases k
  {
    if k > 0 && entry == n {
      TurnIsCyclic(0, k - 1, n);
      var q, r := (k - 1) / (n + 1), (k - 1) % (n + 1);
      assert entry + k == (n + 1) * (q + 1) + r;
      ModUnique(entry + k, n + 1, q + 1, r);
    } else if k > 0 {
      TurnIsCyclic(entry + 1, k - 1, n);
    }
  }

  lemma ModUnique(x: int, n: int, q: int, r: int)
    requires 0 < n && 0 <= r < n && x == n * q + r
    ensures x % n == r
  {
    var d := x / n - q;
    assert n * d == r - x % n;
    assert d >= 1 ==> n * d >= n;
    assert d <= -1 ==> n * d <= -n;
  }

  lemma {:induction false} DirectoryTurn(img: Image, entry: nat, sizes: seq<nat>, k: nat)
    requires WellFormed(img) && entry <= |img.dentries| && k < |sizes|
    ensures var at := Turn(entry, k, |img.dentries|);
            at <= |img.dentries| && ReadMany(img, Dir(entry), sizes).1[k] == Upto(Listed(img, at), sizes[k])
    decreases k
  {
    hide WellFormed, Listed;
    var first := ReadOne(img, Dir(entry), sizes[0]);
    assert sizes == [sizes[0]] + sizes[1..];
    Unfold(img, Dir(entry), sizes[0], sizes[1..]);
    if k > 0 {
      DirectoryTurn(img, first.0.entry, sizes[1..], k - 1);
    }
  }

  /** Read number `k` from the start of the directory names entry `k`, counting
      round and round with one empty read after the last entry. */
  lemma DirectoryStream(img: Image, sizes: seq<nat>, k: nat)
    requires WellFormed(img) && k < |sizes|
    ensures var at := k % (|img.dentries| + 1);
            && 0 <= at <= |img.dentries|
            && ReadMany(img, Dir(0), sizes).1[k] == Upto(Listed(img, at), sizes[k])
            && (at == |img.dentries| ==> ReadMany(img, Dir(0), sizes).1[k] == [])
    ensures var at := k % (|img.dentries| + 1);
            0 <= at < |img.dentries| ==>
              var name := img.dentries[at].name;
              (ReadMany(img, Dir(0), sizes).1[k] == Upto(CString(name), sizes[k])
               <==> sizes[k] <= MAX_FILE_NAME || NUL in name || img.dentries[at].fileType == 0)
  {
    hide Listed, CString, Upto, EntryBytes, ReadMany, Turn;
    DirectoryTurn(img, 0, sizes, k);
    TurnIsCyclic(0, k, |img.dentries|);
    var at := k % (|img.dentries| + 1);
    if at < |img.dentries| {
      EntryIsListed(img, at, sizes[k]);
    } else {
      NothingLeft(sizes[k]);
    }
  }

  lemma NothingLeft(nbytes: nat)
    ensures Upto([], nbytes) == []
  {
  }

  lemma EntryIsListed(img: Image, at: nat, nbytes: nat)
    requires WellFormed(img) && at < |img.dentries|
    ensures var d := img.dentries[at];
            Upto(Listed(img, at), nbytes) == Upto(CString(d.name), nbytes)
            <==> nbytes <= MAX_FILE_NAME || NUL in d.name || d.fileType == 0
  {
    hide EntryBytes, CString, Upto;
    assert img.dentries[at] in img.dentries;
    EntryIsName(img.dentries[at], nbytes);
  }

  // ------------------------------------------------------------------
  // What a program observes after it has opened something
  // ------------------------------------------------------------------

  /** A successful open of entry `r`, with all else kept. */
  ghost predicate Opens(img: Image, t: Table, name: seq<byte>, r: int, fd: int, t': Table)
    requires WellFormed(img) && TableOk(img, t)
  {
    && 0 <= r < |img.dentries| && name != [] && CString(img.dentries[r].name) == name
    && (forall k :: 0 <= k < r ==> CString(img.dentries[k].name) != name)
    && fd >= 0 && Step(img, t, Open(name)) == (t', Status(fd))
  }

  lemma OpensEntry(img: Image, t: Table, name: seq<byte>, r: int, fd: int, t': Table)
    requires WellFormed(img) && TableOk(img, t) && Opens(img, t, name, r, fd, t')
    ensures TableOk(img, t') && fd in t' && img.dentries[r].fileType <= 2
    ensures img.dentries[r].fileType == 0 ==> t'[fd] == Rtc
    ensures img.dentries[r].fileType == 1 ==> t'[fd] == Dir(0)
    ensures img.dentries[r].fileType == 2 ==> t'[fd] == File(img.dentries[r].inodeNum, 0)
  {
    hide CString;
    LookupIsLeast(img, name);
    StepKeepsTableOk(img, t, Open(name));
  }

  /** The reads of a run on `fd`, all with positive sizes, that deliver something
      until the last delivers nothing. */
  ghost predicate ReadsToEnd(parts: seq<seq<byte>>, sizes: seq<nat>) {
    && parts != [] && parts[|parts| - 1] == [] && (forall i :: 0 <= i < |parts| - 1 ==> parts[i] != [])
    && forall i :: 0 <= i < |sizes| ==> sizes[i] > 0
  }

  /** An opened regular file: whatever else the program does, reading until nothing
      comes delivers the contents of the file of that entry. */
  lemma OpenedFileIsRead(img: Image, t: Table, name: seq<byte>, r: int, fd: int, t': Table, ops: seq<Op>)
    requires WellFormed(img) && TableOk(img, t) && Opens(img, t, name, r, fd, t') && img.dentries[r].fileType == 2
    requires Close(fd) !in ops
    ensures TableOk(img, t') && img.dentries[r].inodeNum < |img.inodes|
    ensures var node := img.inodes[img.dentries[r].inodeNum];
            ReadsToEnd(Outputs(img, t', ops, fd), Requests(ops, fd)) ==>
              Flatten(Outputs(img, t', ops, fd)) == Contents(img, node)
  {
    assert img.dentries[r] in img.dentries;
    OpensEntry(img, t, name, r, fd, t');
    hide WellFormed, Stored;
    var inode := img.dentries[r].inodeNum;
    var node := img.inodes[inode];
    DescriptorsAreIndependent(img, t', ops, fd);
    var sizes := Requests(ops, fd);
    if ReadsToEnd(Outputs(img, t', ops, fd), sizes) {
      ReadingToEnd(img, inode, 0, sizes);
      var c := Contents(img, node);
      assert c[0..] == c;
    }
  }

  /** From any position, reading to the end delivers the rest. */
  lemma {:induction false} ReadingToEnd(img: Image, inode: nat, position: nat, sizes: seq<nat>)
    requires WellFormed(img) && inode < |img.inodes| && position <= |Contents(img, img.inodes[inode])|
    requires ReadsToEnd(ReadMany(img, File(inode, position), sizes).1, sizes)
    ensures Flatten(ReadMany(img, File(inode, position), sizes).1) == Contents(img, img.inodes[inode])[position..]
    decreases |sizes|
  {
    var d, c := File(inode, position), Contents(img, img.inodes[inode]);
    assert ReadMany(img, d, sizes).1 != [];
    hide ReadMany, ReadOne, ReadsToEnd, Contents;
    var first := ReadOne(img, d, sizes[0]);
    var rest := ReadMany(img, first.0, sizes[1..]).1;
    assert sizes == [sizes[0]] + sizes[1..];
    Unfold(img, d, sizes[0], sizes[1..]);
    FlattenCons(first.1, rest);
    PartsToEnd(first.1, rest, sizes);
    FileReadProgress(img, inode, position, sizes[0]);
    if rest != [] {
      ReadingToEnd(img, inode, first.0.position, sizes[1..]);
      assert c[position..] == c[position..first.0.position] + c[first.0.position..];
    }
  }

  lemma PartsToEnd(first: seq<byte>, rest: seq<seq<byte>>, sizes: seq<nat>)
    requires ReadsToEnd([first] + rest, sizes) && sizes != []
    ensures sizes[0] > 0 && (rest == [] <==> first == [])
    ensures rest != [] ==> ReadsToEnd(rest, sizes[1..])
  {
    var parts := [first] + rest;
    assert forall i :: 0 <= i < |rest| ==> rest[i] == parts[i + 1];
    assert parts[0] == first;
  }

  /** An opened directory: whatever else the program does, its reads list the
      entries in turn. */
  lemma OpenedDirectoryIsListed(img: Image, t: Table, name: seq<byte>, r: int, fd: int, t': Table, ops: seq<Op>, k: nat)
    requires WellFormed(img) && TableOk(img, t) && Opens(img, t, name, r, fd, t') && img.dentries[r].fileType == 1
    requires Close(fd) !in ops
    ensures TableOk(img, t') && |Outputs(img, t', ops, fd)| == |Requests(ops, fd)|
    ensures k < |Requests(ops, fd)| && Requests(ops, fd)[k] <= 32 ==>
              var at := k % (|img.dentries| + 1);
              0 <= at <= |img.dentries| &&
              Outputs(img, t', ops, fd)[k] == if at == |img.dentries| then [] else Upto(CString(img.dentries[at].name), Requests(ops, fd)[k])
  {
    OpensEntry(img, t, name, r, fd, t');
    DescriptorsAreIndependent(img, t', ops, fd);
    hide WellFormed, CString, Upto;
    if k < |Requests(ops, fd)| {
      DirectoryStream(img, Requests(ops, fd), k);
    }
  }

  /** An opened clock stays a clock until it is closed, and its reads are answered
      by the clock. */
  lemma {:induction false} OpenedClockAnswers(img: Image, t: Table, fd: int, ops: seq<Op>, nbytes: nat)
    requires WellFormed(img) && TableOk(img, t) && fd in t && t[fd] == Rtc && Close(fd) !in ops
    ensures Step(img, Run(img, t, ops), Read(fd, nbytes)).1 == Device
    decreases |ops|
  {
    if ops != [] {
      StepKeepsTableOk(img, t, ops[0]);
      assert ops[0] != Close(fd);
      OpenedClockAnswers(img, Step(img, t, ops[0]).0, fd, ops[1..], nbytes);
    }
  }

  lemma ClockIsOpened(img: Image, t: Table, name: seq<byte>, r: int, fd: int, t': Table, ops: seq<Op>, nbytes: nat)
    requires WellFormed(img) && TableOk(img, t) && Opens(img, t, name, r, fd, t') && img.dentries[r].fileType == 0
    requires Close(fd) !in ops
    ensures TableOk(img, t') && Step(img, Run(img, t', ops), Read(fd, nbytes)).1 == Device
  {
    OpensEntry(img, t, name, r, fd, t');
    OpenedClockAnswers(img, t', fd, ops, nbytes);
  }
}
