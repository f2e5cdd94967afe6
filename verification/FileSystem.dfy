/** The read-only file system image and the routines that read it. */
module FileSystem {
  import opened Bytes

  const BLOCK_SIZE: int := 4096
  const MAX_FILES: int := 63
  const MAX_FILE_NAME: int := 32
  const INODE_DATA_BLOCKS: int := 1023
  const WORD: int := 0x1_0000_0000
  const FS_ERROR: int := -1
  const FILE_TYPE_RTC: int := 0
  const FILE_TYPE_DIR: int := 1
  const FILE_TYPE_REG: int := 2

  datatype Dentry = Dentry(name: seq<byte>, fileType: nat, inodeNum: nat, reserved: seq<byte>)
  datatype Inode = Inode(size: nat, blocks: seq<nat>)
  datatype Image = Image(dentries: seq<Dentry>, inodes: seq<Inode>, dataBlocks: seq<seq<byte>>)

  /** The shapes the on-disk structures have, file types that fit a byte, and
      sizes that fit the block list. */
  ghost predicate WellFormed(img: Image) {
    && |img.dentries| <= MAX_FILES
    && (forall d :: d in img.dentries ==> |d.name| == MAX_FILE_NAME && |d.reserved| == 24 && d.fileType < 256)
    && (forall d :: d in img.dentries && d.fileType == FILE_TYPE_REG ==> d.inodeNum < |img.inodes|)
    && (forall node :: node in img.inodes ==> NodeOk(node))
    && (forall b :: b in img.dataBlocks ==> |b| == BLOCK_SIZE)
  }

  ghost predicate NodeOk(node: Inode) {
    |node.blocks| == INODE_DATA_BLOCKS && node.size <= INODE_DATA_BLOCKS * BLOCK_SIZE
  }

  // ------------------------------------------------------------------
  // What a file contains
  // ------------------------------------------------------------------

  /** Byte `i` of the file lies in a block the image really has. */
  predicate Stored(img: Image, node: Inode, i: nat) {
    i / BLOCK_SIZE < |node.blocks| && node.blocks[i / BLOCK_SIZE] < |img.dataBlocks|
  }

  function ByteAt(img: Image, node: Inode, i: nat): byte
    requires WellFormed(img) && Stored(img, node, i)
  {
    img.dataBlocks[node.blocks[i / BLOCK_SIZE]][i % BLOCK_SIZE]
  }

  /** The bytes from `lo` up to `hi`, stopping at the first byte that is not stored. */
  ghost function Span(img: Image, node: Inode, lo: nat, hi: nat): seq<byte>
    requires WellFormed(img)
    decreases hi - lo
  {
    if lo >= hi || !Stored(img, node, lo) then []
    else [ByteAt(img, node, lo)] + Span(img, node, lo + 1, hi)
  }

  /** The file as a byte sequence. */
  ghost function Contents(img: Image, node: Inode): seq<byte>
    requires WellFormed(img)
  {
    Span(img, node, 0, node.size)
  }

  /** `s` is the stored bytes from `lo`, as many as there are below `hi`. */
  ghost predicate IsLongestRun(img: Image, node: Inode, lo: nat, hi: nat, s: seq<byte>)
    requires WellFormed(img)
  {
    && lo + |s| <= hi
    && (forall i :: lo <= i < lo + |s| ==> Stored(img, node, i) && s[i - lo] == ByteAt(img, node, i))
    && (lo + |s| < hi ==> !Stored(img, node, lo + |s|))
  }

  /** `Span` is the longest stored run, byte for byte. */
  lemma {:induction false} SpanMeaning(img: Image, node: Inode, lo: nat, hi: nat)
    requires WellFormed(img) && lo <= hi
    ensures IsLongestRun(img, node, lo, hi, Span(img, node, lo, hi))
    decreases hi - lo
  {
    var s := Span(img, node, lo, hi);
    if lo < hi && Stored(img, node, lo) {
      var rest := Span(img, node, lo + 1, hi);
      SpanMeaning(img, node, lo + 1, hi);
      forall i | lo <= i < lo + |s|
        ensures Stored(img, node, i) && s[i - lo] == ByteAt(img, node, i)
      {
        if i > lo {
          assert s[i - lo] == rest[i - (lo + 1)];
        }
      }
    } else {
      assert s == [] && lo + |s| == lo;
    }
  }

  /** Reading `lo..hi` is reading `lo..mid`, followed, if nothing was
      missing so far, by reading `mid..hi`. */
  lemma {:induction false} SpanSplit(img: Image, node: Inode, lo: nat, mid: nat, hi: nat)
    requires WellFormed(img) && lo <= mid <= hi
    ensures var first := Span(img, node, lo, mid);
            Span(img, node, lo, hi) == if |first| == mid - lo then first + Span(img, node, mid, hi) else first
    decreases mid - lo
  {
    hide Stored, ByteAt, WellFormed;
    if lo < mid && Stored(img, node, lo) {
      SpanSplit(img, node, lo + 1, mid, hi);
      SpanMeaning(img, node, lo + 1, mid);
    }
  }

  /** A span that starts inside the contents is a slice of the contents. */
  lemma SpanOfContents(img: Image, node: Inode, lo: nat, hi: nat)
    requires WellFormed(img) && lo <= hi <= node.size && lo <= |Contents(img, node)|
    ensures var c := Contents(img, node);
            Span(img, node, lo, hi) == c[lo..Min(hi, |c|)]
  {
    var c, s := Contents(img, node), Span(img, node, lo, hi);
    SpanMeaning(img, node, 0, node.size);
    SpanMeaning(img, node, lo, hi);
    var n: nat, stop: nat := Min(hi, |c|), lo + |s|;
    assert stop < n ==> Stored(img, node, stop);
    assert n < stop ==> Stored(img, node, n);
    forall k | 0 <= k < |s|
      ensures s[k] == c[lo + k]
    {
      assert Stored(img, node, lo + k);
    }
  }

  /** Every byte of the file is stored exactly when the contents are as long as
      the recorded size. */
  lemma ContentsComplete(img: Image, node: Inode)
    requires WellFormed(img)
    ensures |Contents(img, node)| == node.size <==> forall i :: 0 <= i < node.size ==> Stored(img, node, i)
  {
    SpanMeaning(img, node, 0, node.size);
  }

  // ------------------------------------------------------------------
  // read_data
  // ------------------------------------------------------------------

  /** Where a read of `length` bytes at `offset` ends: the cap at the file size is
      computed in unsigned words, and does nothing beyond the end. */
  function ReadEnd(node: Inode, offset: nat, length: nat): int {
    if offset <= node.size then Min(offset + length, node.size) else offset + length
  }

  /** What a read of `length` bytes at `offset` transfers. */
  ghost function Transfer(img: Image, node: Inode, offset: nat, length: nat): seq<byte>
    requires WellFormed(img)
  {
    Span(img, node, offset, ReadEnd(node, offset, length))
  }

  /** A read delivers nothing but bytes of the file exactly when it does not
      start beyond the end, asks for nothing, or finds nothing stored there. */
  lemma ReadsStayInFile(img: Image, node: Inode, offset: nat, length: nat)
    requires WellFormed(img)
    ensures var data := Transfer(img, node, offset, length);
            data == [] || offset + |data| <= node.size
            <==> offset <= node.size || length == 0 || !Stored(img, node, offset)
  {
    SpanMeaning(img, node, offset, ReadEnd(node, offset, length));
  }

  /** A stored byte inside a span is in that span. */
  lemma NextByte(img: Image, node: Inode, lo: nat, hi: nat, i: nat)
    requires WellFormed(img) && lo <= i < hi && Stored(img, node, i) && i - lo <= |Span(img, node, lo, hi)|
    ensures var s := Span(img, node, lo, hi);
            i - lo < |s| && s[i - lo] == ByteAt(img, node, i)
    ensures |img.dataBlocks[node.blocks[i / BLOCK_SIZE]]| == BLOCK_SIZE
  {
    SpanMeaning(img, node, lo, hi);
    assert img.dataBlocks[node.blocks[i / BLOCK_SIZE]] in img.dataBlocks;
  }

  lemma RunEnds(img: Image, node: Inode, lo: nat, hi: nat, i: nat)
    requires WellFormed(img) && lo <= i <= hi && i - lo <= |Span(img, node, lo, hi)|
    requires i == hi || !Stored(img, node, i)
    ensures |Span(img, node, lo, hi)| == i - lo
  {
    SpanMeaning(img, node, lo, hi);
  }

  /** Copies up to `length` bytes of the file, starting at `offset`, to
      `buf[at..]`. Beyond the end the range must still fit the block list. */
  method ReadData(img: Image, inode: nat, offset: nat, buf: array<byte>, at: nat, length: nat) returns (count: int)
    requires WellFormed(img)
    requires inode < |img.inodes| ==>
               offset <= img.inodes[inode].size || offset + length <= INODE_DATA_BLOCKS * BLOCK_SIZE
    requires at + length <= buf.Length
    modifies buf
    ensures inode >= |img.inodes| ==> count == FS_ERROR && buf[..] == old(buf[..])
    ensures inode < |img.inodes| ==>
              var data := Transfer(img, img.inodes[inode], offset, length);
              && count == |data| <= length
              && buf[..] == old(buf[..at]) + data + old(buf[at + |data|..])
  {
    if inode >= |img.inodes| {
      return FS_ERROR;
    }
    var fileInode := img.inodes[inode];
    assert fileInode in img.inodes && NodeOk(fileInode);
    var len := length;
    if len > (fileInode.size - offset) % WORD {
      len := (fileInode.size - offset) % WORD;
    }
    ghost var hi, was := offset + len, buf[..];
    ghost var data := Transfer(img, fileInode, offset, length);
    assert hi == ReadEnd(fileInode, offset, length);
    assert data == Span(img, fileInode, offset, hi) && |data| <= length by {
      SpanMeaning(img, fileInode, offset, hi);
    }
    hide Transfer, Span, IsLongestRun, ReadEnd;
    var bytesRead := 0;
    var i := offset;
    while i < offset + len
      invariant offset <= i <= hi && bytesRead == i - offset <= |data|
      invariant forall k :: 0 <= k < bytesRead ==> buf[at + k] == data[k]
      invariant forall k :: 0 <= k < buf.Length && !(at <= k < at + bytesRead) ==> buf[k] == was[k]
    {
      var blockIndex := i / BLOCK_SIZE;
      var offsetFromBlock := i % BLOCK_SIZE;
      if fileInode.blocks[blockIndex] >= |img.dataBlocks| {
        break;
      }
      var dataBlock := img.dataBlocks[fileInode.blocks[blockIndex]];
      NextByte(img, fileInode, offset, hi, i);
      buf[at + bytesRead] := dataBlock[offsetFromBlock];
      bytesRead := bytesRead + 1;
      i := i + 1;
    }
    RunEnds(img, fileInode, offset, hi, i);
    assert buf[..] == was[..at] + data + was[at + |data|..];
    return bytesRead;
  }

  /** If the first `a` bytes all arrive, reading a+b bytes is reading a bytes and
      then b bytes further on. */
  lemma ReadsCompose(img: Image, node: Inode, offset: nat, a: nat, b: nat)
    requires WellFormed(img) && offset <= node.size
    ensures var first := Transfer(img, node, offset, a);
            |first| == a ==>
              Transfer(img, node, offset, a + b) == first + Transfer(img, node, offset + a, b)
  {
    var mid := Min(offset + a, node.size);
    var hi := Min(offset + a + b, node.size);
    SpanMeaning(img, node, offset, mid);
    SpanSplit(img, node, offset, mid, hi);
  }

  // ------------------------------------------------------------------
  // Directory
  // ------------------------------------------------------------------

  /** Index of the first entry from `i` on with this name, or FS_ERROR. */
  function FindFrom(img: Image, name: seq<byte>, i: nat): (r: int)
    requires i <= |img.dentries|
    ensures r == FS_ERROR <==> forall k :: i <= k < |img.dentries| ==> CString(img.dentries[k].name) != name
    ensures r != FS_ERROR ==> i <= r < |img.dentries| && CString(img.dentries[r].name) == name
    ensures forall k :: i <= k < r ==> CString(img.dentries[k].name) != name
    decreases |img.dentries| - i
  {
    if i == |img.dentries| then FS_ERROR
    else if CString(img.dentries[i].name) == name then i
    else FindFrom(img, name, i + 1)
  }

  /** Which directory entry a file name denotes. */
  function Lookup(img: Image, name: seq<byte>): (r: int)
    ensures -1 <= r < |img.dentries|
  {
    if |name| < 1 || |name| > MAX_FILE_NAME then FS_ERROR else FindFrom(img, name, 0)
  }

  /** Lookup returns the least index that holds the name, and fails exactly when
      the name is not 1 to 32 bytes long or no entry holds it. */
  lemma LookupIsLeast(img: Image, name: seq<byte>)
    requires WellFormed(img)
    ensures var r := Lookup(img, name);
            && (r != FS_ERROR ==> CString(img.dentries[r].name) == name)
            && (forall k :: 0 <= k < |img.dentries| && 1 <= |name| && CString(img.dentries[k].name) == name
                            ==> r != FS_ERROR && r <= k)
  {
    forall k | 0 <= k < |img.dentries| && 1 <= |name| && CString(img.dentries[k].name) == name
      ensures Lookup(img, name) != FS_ERROR && Lookup(img, name) <= k
    {
      assert img.dentries[k] in img.dentries;
    }
  }

  method ReadDentryByIndex(img: Image, index: nat, dentry: Dentry) returns (ret: int, result: Dentry)
    requires WellFormed(img)
    ensures index >= |img.dentries| ==> ret == FS_ERROR && result == dentry
    ensures index < |img.dentries| ==> ret == 0 && result == img.dentries[index]
  {
    if index >= |img.dentries| {
      return FS_ERROR, dentry;
    }
    assert img.dentries[index] in img.dentries;
    var name, reserved := [], [];
    var i := 0;
    while i < MAX_FILE_NAME
      invariant 0 <= i <= MAX_FILE_NAME && name == img.dentries[index].name[..i]
    {
      name := name + [img.dentries[index].name[i]];
      i := i + 1;
    }
    i := 0;
    while i < 24
      invariant 0 <= i <= 24 && reserved == img.dentries[index].reserved[..i]
    {
      reserved := reserved + [img.dentries[index].reserved[i]];
      i := i + 1;
    }
    return 0, Dentry(name, img.dentries[index].fileType, img.dentries[index].inodeNum, reserved);
  }

  /** `fname` is the memory at the name's address, up to at least its terminator. */
  method ReadDentryByName(img: Image, fname: seq<byte>, dentry: Dentry) returns (ret: int, result: Dentry)
    requires WellFormed(img) && NUL in fname
    ensures ret == Lookup(img, CString(fname))
    ensures result == if ret == FS_ERROR then dentry else img.dentries[ret]
  {
    var len := Strlen(fname);
    if len < 1 || len > MAX_FILE_NAME {
      return FS_ERROR, dentry;
    }
    var i := 0;
    while i < |img.dentries|
      invariant i <= |img.dentries|
      invariant FindFrom(img, CString(fname), 0) == FindFrom(img, CString(fname), i)
    {
      assert img.dentries[i] in img.dentries;
      var diff := Strncmp(fname, img.dentries[i].name, MAX_FILE_NAME);
      if diff == 0 {
        var _, found := ReadDentryByIndex(img, i, dentry);
        return i, found;
      }
      i := i + 1;
    }
    return FS_ERROR, dentry;
  }

  // ------------------------------------------------------------------
  // The two read operations behind a file descriptor
  // ------------------------------------------------------------------

  /** Position after a `file_read` and the bytes it delivered. */
  ghost function FileStep(img: Image, node: Inode, position: nat, nbytes: nat): (nat, seq<byte>)
    requires WellFormed(img)
  {
    if position >= node.size then (0, [])
    else
      var data := Transfer(img, node, position, nbytes);
      (position + |data|, data)
  }

  method FileRead(img: Image, inode: nat, position: nat, buf: array<byte>, at: nat, nbytes: nat)
    returns (ret: int, newPosition: nat)
    requires WellFormed(img) && inode < |img.inodes|
    requires at + nbytes <= buf.Length
    modifies buf
    ensures var step := FileStep(img, img.inodes[inode], position, nbytes);
            && newPosition == step.0 && ret == |step.1| <= nbytes
            && buf[..] == old(buf[..at]) + step.1 + old(buf[at + |step.1|..])
  {
    var fileSize := img.inodes[inode].size;
    if position >= fileSize {
      assert buf[..] == buf[..at] + [] + buf[at..];
      return 0, 0;
    }
    var transferSize := ReadData(img, inode, position, buf, at, nbytes);
    if transferSize == -1 {
      return FS_ERROR, position;
    }
    return transferSize, position + transferSize;
  }

  /** The bytes of an entry as `dir_read` may see them: the name, and behind it
      the first two bytes of the file type, the second of which is zero. */
  function EntryBytes(d: Dentry): seq<byte>
    requires d.fileType < 256
  {
    d.name + [d.fileType as byte, NUL]
  }

  /** What `dir_read` delivers is the name exactly unless more than 32 bytes are
      asked for, the name fills its field and the file type is not zero. */
  lemma EntryIsName(d: Dentry, nbytes: nat)
    requires |d.name| == MAX_FILE_NAME && d.fileType < 256
    ensures Upto(CString(EntryBytes(d)), nbytes) == Upto(CString(d.name), nbytes)
            <==> nbytes <= MAX_FILE_NAME || NUL in d.name || d.fileType == 0
  {
    var c, b := CString(d.name), EntryBytes(d);
    if NUL in d.name {
      if |c| == |d.name| {
        assert false;
      }
      CStringUnique(b, c);
    } else {
      CStringUnique(d.name, d.name);
      if d.fileType == 0 {
        CStringUnique(b, d.name);
      } else {
        CStringUnique(b, d.name + [d.fileType as byte]);
      }
    }
  }

  /** Otherwise the type follows the name. */
  lemma EntryShowsType(d: Dentry, nbytes: nat)
    requires |d.name| == 32 && NUL !in d.name && 0 < d.fileType < 256 && nbytes > 32
    ensures Upto(CString(EntryBytes(d)), nbytes) == d.name + [d.fileType as byte]
  {
    CStringUnique(EntryBytes(d), d.name + [d.fileType as byte]);
  }

  /** A regular file whose name has 32 characters is listed with a 33rd byte. */
  lemma LongNameIsListedWithItsType(d: Dentry)
    requires d.name == seq(MAX_FILE_NAME, _ => 65) && d.fileType == FILE_TYPE_REG
    ensures Upto(CString(EntryBytes(d)), 33) == d.name + [2] && Upto(CString(d.name), 33) == d.name
  {
    CStringUnique(d.name, d.name);
    CStringUnique(EntryBytes(d), d.name + [2]);
  }

  /** The string found at an entry, nothing behind the last one. */
  ghost function Listed(img: Image, entry: nat): (r: seq<byte>)
    requires WellFormed(img)
    ensures entry >= |img.dentries| ==> r == []
  {
    if entry >= |img.dentries| then []
    else
      assert img.dentries[entry] in img.dentries;
      CString(EntryBytes(img.dentries[entry]))
  }

  /** Position after a `dir_read` and the bytes it delivered. */
  ghost function DirStep(img: Image, position: nat, nbytes: nat): (nat, seq<byte>)
    requires WellFormed(img)
  {
    if position >= |img.dentries| then (0, []) else (position + 1, Upto(Listed(img, position), nbytes))
  }

  method DirRead(img: Image, position: nat, buf: array<byte>, nbytes: nat) returns (ret: int, newPosition: nat)
    requires WellFormed(img)
    requires nbytes <= buf.Length
    modifies buf
    ensures var step := DirStep(img, position, nbytes);
            && newPosition == step.0 && ret == |step.1|
            && buf[..] == step.1 + old(buf[|step.1|..])
  {
    if position >= |img.dentries| {
      return 0, 0;
    }
    newPosition := position + 1;
    var status, dentry := ReadDentryByIndex(img, position, img.dentries[position]);
    if status == FS_ERROR {
      return FS_ERROR, newPosition;
    }
    assert dentry in img.dentries;
    var bytes := EntryBytes(dentry);
    assert bytes[|bytes| - 1] == NUL;
    var i := 0;
    while i < nbytes
      invariant i <= nbytes && i < |bytes|
      invariant NUL !in bytes[..i]
      invariant buf[..i] == bytes[..i] && buf[i..] == old(buf[i..])
    {
      if bytes[i] == NUL {
        break;
      }
      label before:
      buf[i] := bytes[i];
      assert buf[..i + 1] == old@before(buf[..i]) + [bytes[i]];
      assert buf[i + 1..] == old@before(buf[i..])[1..];
      i := i + 1;
    }
    PrefixInString(bytes, i);
    if i < nbytes {
      CStringUnique(bytes, bytes[..i]);
    }
    assert buf[..] == buf[..i] + buf[i..];
    return i, newPosition;
  }

  // ------------------------------------------------------------------
  // The contents, block by block
  // ------------------------------------------------------------------

  /** The data blocks with these numbers, one after the other, up to the first
      number the image does not have. */
  ghost function Chained(img: Image, blocks: seq<nat>): seq<byte> {
    if blocks == [] || blocks[0] >= |img.dataBlocks| then []
    else img.dataBlocks[blocks[0]] + Chained(img, blocks[1..])
  }

  /** Byte by byte, and where the chain ends. */
  lemma {:induction false} ChainedBytes(img: Image, blocks: seq<nat>)
    requires WellFormed(img)
    ensures var c := Chained(img, blocks);
            && (forall k :: 0 <= k < |c| ==> InChain(img, blocks, k) && c[k] == img.dataBlocks[blocks[k / 4096]][k % 4096])
            && |c| % 4096 == 0 && |c| / 4096 <= |blocks|
            && (|c| / 4096 < |blocks| ==> blocks[|c| / 4096] >= |img.dataBlocks|)
  {
    var c := Chained(img, blocks);
    if blocks != [] && blocks[0] < |img.dataBlocks| {
      var block := img.dataBlocks[blocks[0]];
      assert block in img.dataBlocks;
      var rest := Chained(img, blocks[1..]);
      ChainedBytes(img, blocks[1..]);
      forall k | 0 <= k < |c|
        ensures InChain(img, blocks, k) && c[k] == img.dataBlocks[blocks[k / 4096]][k % 4096]
      {
        if k >= 4096 {
          assert c[k] == rest[k - 4096] && InChain(img, blocks[1..], k - 4096);
          assert (k - 4096) / 4096 == k / 4096 - 1 && (k - 4096) % 4096 == k % 4096;
        }
      }
    }
  }

  ghost predicate InChain(img: Image, blocks: seq<nat>, k: nat)
    requires WellFormed(img)
  {
    k / 4096 < |blocks| && blocks[k / 4096] < |img.dataBlocks|
    && |img.dataBlocks[blocks[k / 4096]]| == 4096
  }

  /** What a read transfers is a slice of the blocks from the one it starts in. */
  lemma TransferIsChained(img: Image, node: Inode, offset: nat, length: nat)
    requires WellFormed(img) && offset / 4096 <= |node.blocks|
    ensures var c := Chained(img, node.blocks[offset / 4096..]);
            var at := offset % 4096;
            var n := if offset <= node.size && offset + length > node.size then node.size - offset else length;
            Transfer(img, node, offset, length) == if at >= |c| then [] else c[at..Min(at + n, |c|)]
  {
    var c, at := Chained(img, node.blocks[offset / 4096..]), offset % 4096;
    var hi := ReadEnd(node, offset, length);
    assert hi - offset == if offset <= node.size && offset + length > node.size then node.size - offset else length;
    ChainedBytes(img, node.blocks[offset / 4096..]);
    hide ReadEnd, Chained, WellFormed, Stored, ByteAt;
    forall k: nat | offset <= k
      ensures k - offset + at < |c| ==> Stored(img, node, k) && ByteAt(img, node, k) == c[k - offset + at]
    {
      PlaceInChain(img, node, offset, k);
    }
    PlaceInChain(img, node, offset, if at <= |c| then offset + |c| - at else offset);
    SliceOfChain(img, node, offset, hi, at, c);
  }

  lemma PlaceInChain(img: Image, node: Inode, offset: nat, k: nat)
    requires WellFormed(img) && offset / 4096 <= |node.blocks| && offset <= k
    ensures var c, i := Chained(img, node.blocks[offset / 4096..]), k - offset + offset % 4096;
            && (i < |c| ==> Stored(img, node, k) && ByteAt(img, node, k) == c[i])
            && (i / 4096 == |c| / 4096 ==> !Stored(img, node, k))
  {
    var first, at := offset / 4096, offset % 4096;
    var blocks := node.blocks[first..];
    ChainedBytes(img, blocks);
    hide Chained;
    ChainOffset(first, at, k - offset);
    assert (k - offset + at) / 4096 < |blocks| ==> blocks[(k - offset + at) / 4096] == node.blocks[k / 4096];
  }

  lemma ChainOffset(first: nat, at: nat, d: nat)
    ensures (4096 * first + at + d) / 4096 == first + (at + d) / 4096
    ensures (4096 * first + at + d) % 4096 == (at + d) % 4096
  {
  }

  lemma SliceOfChain(img: Image, node: Inode, offset: nat, hi: nat, at: nat, c: seq<byte>)
    requires WellFormed(img) && offset <= hi && at < 4096 && |c| % 4096 == 0
    requires forall k: nat :: offset <= k && k - offset + at < |c| ==>
                                Stored(img, node, k) && ByteAt(img, node, k) == c[k - offset + at]
    requires !Stored(img, node, if at <= |c| then offset + |c| - at else offset)
    ensures Span(img, node, offset, hi) == if at >= |c| then [] else c[at..Min(at + hi - offset, |c|)]
  {
    hide WellFormed, Stored, ByteAt;
    var s := Span(img, node, offset, hi);
    var e: nat := if at <= |c| then offset + |c| - at else offset;
    SpanMeaning(img, node, offset, hi);
    var k: nat := offset + |s|;
    assert e < k ==> Stored(img, node, e);
    assert k < e ==> Stored(img, node, k);
    assert forall j :: 0 <= j < |s| ==> s[j] == ByteAt(img, node, offset + j);
    forall j | 0 <= j < |s|
      ensures s[j] == c[at + j]
    {
      var i: nat := offset + j;
      assert i - offset + at < |c|;
    }
  }

  /** A file is its data blocks one after the other, cut to its size, up to the
      first block number the image does not have. */
  lemma ContentsAreChained(img: Image, node: Inode)
    requires WellFormed(img)
    ensures Contents(img, node) == Upto(Chained(img, node.blocks), node.size)
  {
    TransferIsChained(img, node, 0, node.size);
    assert node.blocks[0..] == node.blocks;
  }

  // ------------------------------------------------------------------
  // Which files are programs
  // ------------------------------------------------------------------

  const HEADER_SIZE: int := 28
  const MAGIC: seq<byte> := [0x7F, 0x45, 0x4C, 0x46]

  /** The inode of a name, when there is one and the image has it. */
  function InodeOf(img: Image, name: seq<byte>): (inode: int)
    ensures inode == FS_ERROR || 0 <= inode < |img.inodes|
  {
    var entry := Lookup(img, name);
    if entry == FS_ERROR || img.dentries[entry].inodeNum >= |img.inodes| then FS_ERROR
    else img.dentries[entry].inodeNum
  }

  /** `execute` takes the file for a program. What the header buffer on the
      stack held before, `junk`, shows behind a short file. */
  ghost predicate Executable(img: Image, name: seq<byte>, junk: seq<byte>)
    requires WellFormed(img)
  {
    var inode := InodeOf(img, name);
    inode != FS_ERROR &&
    var data := Transfer(img, img.inodes[inode], 0, HEADER_SIZE);
    Upto(data + junk[Min(|data|, |junk|)..], 4) == MAGIC
  }

  /** A name whose file begins with the four magic bytes. */
  ghost predicate IsProgram(img: Image, name: seq<byte>)
    requires WellFormed(img)
  {
    var inode := InodeOf(img, name);
    inode != FS_ERROR && MAGIC <= Contents(img, img.inodes[inode])
  }

  /** Files of at least four bytes are taken for programs exactly when they
      begin with the magic bytes; of a shorter file the missing bytes are
      whatever the stack held. */
  lemma ExecutableIsMagic(img: Image, name: seq<byte>, junk: seq<byte>)
    requires WellFormed(img) && |junk| == HEADER_SIZE && InodeOf(img, name) != FS_ERROR
    ensures var c := Contents(img, img.inodes[InodeOf(img, name)]);
            Executable(img, name, junk) <==> if |c| >= 4 then IsProgram(img, name) else c + junk[|c|..4] == MAGIC
  {
    hide WellFormed, Contents, Transfer, InodeOf;
    var node := img.inodes[InodeOf(img, name)];
    var c, data := Contents(img, node), Transfer(img, node, 0, HEADER_SIZE);
    HeaderRead(img, node);
    if |c| >= 4 {
      assert Upto(data + junk[|data|..], 4) == c[..4];
    } else {
      assert Upto(data + junk[|data|..], 4) == c + junk[|c|..4];
    }
  }

  lemma HeaderRead(img: Image, node: Inode)
    requires WellFormed(img)
    ensures var c := Contents(img, node);
            Transfer(img, node, 0, HEADER_SIZE) == c[..Min(HEADER_SIZE, |c|)]
  {
    SpanMeaning(img, node, 0, node.size);
    SpanOfContents(img, node, 0, Min(HEADER_SIZE, node.size));
  }

  /** Which file that is: a name whose least entry is `r` is taken for a program
      exactly when the file of that entry's inode begins with 7F 45 4C 46, and
      never when there is no such entry or inode. */
  lemma ExecutableByName(img: Image, name: seq<byte>, junk: seq<byte>)
    requires WellFormed(img) && |junk| == HEADER_SIZE
    ensures forall r :: 0 <= r < |img.dentries| && name != [] && CString(img.dentries[r].name) == name
                        && (forall k :: 0 <= k < r ==> CString(img.dentries[k].name) != name) ==>
              var inode := img.dentries[r].inodeNum;
              if inode >= |img.inodes| then !Executable(img, name, junk)
              else
                var c := Contents(img, img.inodes[inode]);
                |c| >= 4 ==> (Executable(img, name, junk) <==> c[..4] == [0x7F, 0x45, 0x4C, 0x46])
    ensures name == [] || (forall k :: 0 <= k < |img.dentries| ==> CString(img.dentries[k].name) != name) ==>
              !Executable(img, name, junk)
  {
    hide CString, Contents;
    LookupIsLeast(img, name);
    if InodeOf(img, name) != FS_ERROR {
      ExecutableIsMagic(img, name, junk);
    }
  }

  lemma ProgramsAreExecutable(img: Image, name: seq<byte>, junk: seq<byte>)
    requires WellFormed(img) && |junk| == HEADER_SIZE && IsProgram(img, name)
    ensures Executable(img, name, junk)
  {
    ExecutableIsMagic(img, name, junk);
  }

  /** An empty file is run when the stack happens to hold a header. */
  lemma EmptyFileMayRun(img: Image, name: seq<byte>, junk: seq<byte>)
    requires WellFormed(img) && InodeOf(img, name) != FS_ERROR && img.inodes[InodeOf(img, name)].size == 0
    requires |junk| == HEADER_SIZE && MAGIC <= junk
    ensures Executable(img, name, junk) && !IsProgram(img, name)
  {
    ExecutableIsMagic(img, name, junk);
    assert [] + junk[0..4] == MAGIC;
  }

  lemma FirstFour(s: seq<byte>)
    requires |s| >= 4
    ensures Upto(s, 4) == MAGIC <==> s[0] == 0x7F && s[1] == 0x45 && s[2] == 0x4C && s[3] == 0x46
  {
    assert Upto(s, 4) == [s[0], s[1], s[2], s[3]];
  }

  /** The checks that `execute` makes before it starts a program. */
  method CheckExecutable(img: Image, name: seq<byte>, junk: seq<byte>) returns (ok: bool)
    requires WellFormed(img) && NUL in name && |junk| == HEADER_SIZE
    ensures ok == Executable(img, CString(name), junk)
  {
    hide WellFormed, CString, Transfer, Lookup, Upto;
    var metadata := new byte[HEADER_SIZE](i requires 0 <= i < HEADER_SIZE => junk[i]);
    assert metadata[..] == junk;
    var entry, dentry := ReadDentryByName(img, name, Dentry([], 0, 0, []));
    if entry == FS_ERROR {
      return false;
    }
    var count := ReadData(img, dentry.inodeNum, 0, metadata, 0, HEADER_SIZE);
    if count == FS_ERROR {
      return false;
    }
    ghost var data := Transfer(img, img.inodes[dentry.inodeNum], 0, HEADER_SIZE);
    assert metadata[..] == data + junk[|data|..];
    assert Executable(img, CString(name), junk) <==> Upto(metadata[..], 4) == MAGIC;
    ok := !(metadata[0] != 0x7F || metadata[1] != 0x45 || metadata[2] != 0x4C || metadata[3] != 0x46);
    FirstFour(metadata[..]);
  }
}
