/** The `grep` program's search of one file, through a buffer of 1024 bytes that
    is refilled and shifted in place. */
module Grep {
  import opened Bytes
  import opened FileSystem
  import opened GrepLines

  /** Copies a string forward within the buffer. */
  method Strcpy(data: array<byte>, dst: nat, src: nat)
    requires dst < src < data.Length && NUL in data[src..]
    modifies data
    ensures var s := old(CString(data[src..]));
            && src + |s| < data.Length && data[dst..dst + |s|] == s && data[dst + |s|] == NUL
            && (forall k :: 0 <= k < dst || dst + |s| < k < data.Length ==> data[k] == old(data[k]))
  {
    ghost var was := data[..];
    ghost var s := CString(was[src..]);
    var i := 0;
    while data[src + i] != NUL
      invariant i <= |s| && src + |s| < data.Length
      invariant forall k :: 0 <= k < i ==> data[dst + k] == s[k]
      invariant forall k :: 0 <= k < dst || dst + i <= k < data.Length ==> data[k] == was[k]
      decreases |s| - i
    {
      if i == |s| {
        assert false;
      }
      assert was[src..][i] == s[i];
      data[dst + i] := data[src + i];
      i := i + 1;
    }
    if i < |s| {
      assert false;
    }
    data[dst + i] := NUL;
  }

  /** The user library's bounded comparison: the terminator is tested before the
      count is used up. */
  method Strncmp391(s1: seq<byte>, s2: seq<byte>, n: nat) returns (r: int)
    requires NUL in s1 && NUL in s2
    ensures r == 0 <==> Upto(CString(s1), n) == Upto(CString(s2), n)
  {
    if n == 0 {
      return 0;
    }
    var i, left := 0, n;
    while s1[i] == s2[i]
      invariant left >= 1 && i + left == n && i < |s1| && i < |s2|
      invariant s1[..i] == s2[..i] && NUL !in s1[..i]
      decreases left
    {
      if s1[i] == NUL {
        Decided(s1, s2, i, n);
        return 0;
      }
      assert s1[..i + 1] == s1[..i] + [s1[i]] && s2[..i + 1] == s2[..i] + [s2[i]];
      left := left - 1;
      if left == 0 {
        PrefixInString(s1, n);
        PrefixInString(s2, n);
        return 0;
      }
      i := i + 1;
      InBounds(s1, i, |s1| + 1);
      InBounds(s2, i, |s2| + 1);
    }
    Decided(s1, s2, i, n);
    r := s1[i];
    r := r - s2[i];
  }

  /** Adds a string to what has been written to the terminal. */
  method Fdputs(written: seq<byte>, s: seq<byte>) returns (out: seq<byte>)
    requires NUL in s
    ensures out == written + CString(s)
  {
    var len := Strlen(s);
    return written + s[..len];
  }

  /** The first line end from `lineStart` on, or `last`. */
  method FindLineEnd(data: array<byte>, lineStart: nat, last: nat) returns (lineEnd: nat)
    requires lineStart <= last < data.Length
    ensures lineStart <= lineEnd <= last && NEWLINE !in data[lineStart..lineEnd]
    ensures lineEnd < last ==> data[lineEnd] == NEWLINE
  {
    lineEnd := lineStart;
    while lineEnd < last && NEWLINE != data[lineEnd]
      invariant lineStart <= lineEnd <= last && NEWLINE !in data[lineStart..lineEnd]
    {
      lineEnd := lineEnd + 1;
    }
  }

  /** The string that starts inside a stretch of the buffer that is ended by a NUL. */
  lemma StringIn(d: seq<byte>, start: nat, end: nat)
    requires start <= end < |d| && d[end] == NUL && NUL !in d[start..end]
    ensures NUL in d[start..] && CString(d[start..]) == d[start..end]
  {
    assert d[start..][end - start] == NUL;
    assert d[start..][..end - start] == d[start..end];
    CStringUnique(d[start..], d[start..end]);
  }

  /** A comparison at `check` finds the pattern exactly when it occurs there. */
  lemma Occurrence(d: seq<byte>, start: nat, check: nat, end: nat, p: seq<byte>)
    requires start <= check < end < |d| && d[end] == NUL && NUL !in d[start..end]
    ensures NUL in d[check..]
    ensures Upto(CString(d[check..]), |p|) == p <==> OccursAt(p, d[start..end], check - start)
  {
    assert d[check..end] == d[start..end][check - start..];
    StringIn(d, check, end);
    if check - start + |p| <= end - start {
      assert d[start..end][check - start..check - start + |p|] == d[check..end][..|p|];
    }
  }

  /** The pattern does not occur where its first character does not. */
  lemma FirstCharacter(s: seq<byte>, line: seq<byte>, k: nat)
    requires k < |line| && NUL in s
    ensures s[0] == NUL <==> CString(s) == []
    ensures Findable(CString(s)) <==> s[0] < 128
    ensures s[0] != NUL && OccursAt(CString(s), line, k) ==> s[0] == line[k]
  {
    var p := CString(s);
    if p != [] && OccursAt(p, line, k) {
      assert line[k..k + |p|][0] == line[k];
    }
  }

  lemma OneCharacter(c: byte)
    requires c != NUL
    ensures CString([c, NUL]) == [c]
  {
    assert [c, NUL][..1] == [c];
    CStringUnique([c, NUL], [c]);
  }

  /** Writes out a line that contains the pattern. */
  method WriteEntry(data: array<byte>, lineStart: nat, lineEnd: nat, fname: seq<byte>, written: seq<byte>)
    returns (out: seq<byte>)
    requires lineStart <= lineEnd < data.Length && data[lineEnd] == NUL && NUL !in data[lineStart..lineEnd]
    requires NUL in fname
    ensures out == written + Entry(CString(fname), data[lineStart..lineEnd])
  {
    hide CString;
    StringIn(data[..], lineStart, lineEnd);
    assert data[..][lineStart..] == data[lineStart..] && data[..][lineStart..lineEnd] == data[lineStart..lineEnd];
    OneCharacter(COLON);
    OneCharacter(NEWLINE);
    out := Fdputs(written, fname);
    out := Fdputs(out, [COLON, NUL]);
    out := Fdputs(out, data[lineStart..]);
    out := Fdputs(out, [NEWLINE, NUL]);
  }

  /** The search reports this line. */
  predicate Reports(line: seq<byte>, p: seq<byte>) {
    Findable(p) && Contains(line, p)
  }

  /** Reports the line between two indices if it contains the pattern. */
  method SearchLine(data: array<byte>, lineStart: nat, lineEnd: nat, s: seq<byte>, sLen: nat,
                    fname: seq<byte>, written: seq<byte>) returns (out: seq<byte>)
    requires lineStart <= lineEnd < data.Length && data[lineEnd] == NUL && NUL !in data[lineStart..lineEnd]
    requires NUL in s && NUL in fname && sLen == |CString(s)|
    ensures var line := data[lineStart..lineEnd];
            out == written + if Reports(line, CString(s)) then Entry(CString(fname), line) else []
  {
    hide CString, OccursAt, Entry;
    ghost var line, p := data[lineStart..lineEnd], CString(s);
    var check := lineStart;
    while check < lineEnd
      invariant lineStart <= check <= lineEnd
      invariant s[0] == NUL || s[0] >= 128 || forall k :: 0 <= k < check - lineStart ==> !OccursAt(p, line, k)
    {
      FirstCharacter(s, line, check - lineStart);
      if Signed(s[0]) == data[check] as int {
        assert data[..][lineStart..lineEnd] == line && data[..][check..] == data[check..];
        Occurrence(data[..], lineStart, check, lineEnd, p);
        var diff := Strncmp391(data[check..], s, sLen);
        if diff == 0 {
          out := WriteEntry(data, lineStart, lineEnd, fname, written);
          return;
        }
      }
      check := check + 1;
    }
    if line != [] {
      FirstCharacter(s, line, 0);
    }
    return written;
  }

  // ------------------------------------------------------------------
  // The buffer
  // ------------------------------------------------------------------

  /** What a search of the bytes `s` reports. */
  function Reported(name: seq<byte>, p: seq<byte>, s: seq<byte>): seq<byte> {
    Report(name, Hits(Pieces(s), p))
  }

  lemma PieceReported(name: seq<byte>, p: seq<byte>, s: seq<byte>, piece: seq<byte>, after: seq<byte>)
    requires NextPiece(s, piece, after)
    ensures Reported(name, p, s) == (if Reports(piece, p) then Entry(name, piece) else []) + Reported(name, p, after)
  {
    PieceFound(s, piece, after, p);
    if Reports(piece, p) {
      ReportGrows(name, piece, Found(Pieces(after), p));
    } else if Findable(p) {
      assert Found(Pieces(s), p) == Found(Pieces(after), p);
    }
  }

  /** The same when the byte behind the buffer is a newline or not. */
  function Searched(name: seq<byte>, p: seq<byte>, newline: bool, s: seq<byte>): seq<byte> {
    Report(name, Hits(if newline then CutPieces(s) else Pieces(s), p))
  }

  lemma SearchedShort(name: seq<byte>, p: seq<byte>, newline: bool, s: seq<byte>)
    requires newline ==> |s| < BUFSIZE
    ensures Searched(name, p, newline, s) == Reported(name, p, s)
  {
  }

  /** The first full buffer, with a newline behind it. */
  lemma SearchedFull(name: seq<byte>, p: seq<byte>, w: seq<byte>, rest: seq<byte>)
    requires |w| == BUFSIZE
    ensures Searched(name, p, true, w + rest)
         == Reported(name, p, w) + Searched(name, p, w[BUFSIZE - 1] == NEWLINE, rest)
  {
    var s := w + rest;
    assert s[..BUFSIZE] == w && s[BUFSIZE..] == rest;
    var later := if w[BUFSIZE - 1] == NEWLINE then CutPieces(rest) else Pieces(rest);
    assert CutPieces(s) == Pieces(w) + later;
    if Findable(p) {
      FoundSplits(Pieces(w), later, p);
      ReportSplits(name, Found(Pieces(w), p), Found(later, p));
    }
  }

  lemma NothingReported(name: seq<byte>, p: seq<byte>)
    ensures Reported(name, p, []) == []
  {
  }

  /** What the buffer `d` holds between the indices, and then the rest of the file. */
  function Ahead(d: seq<byte>, start: nat, last: nat, rest: seq<byte>): seq<byte>
    requires last <= |d|
  {
    (if start <= last then d[start..last] else []) + rest
  }

  /** Where the search stands: a full buffer unless the file has ended. */
  predicate Filled(last: nat, cnt: nat, rest: seq<byte>) {
    && last <= BUFSIZE && cnt <= last
    && (rest != [] ==> cnt != 0 && last == BUFSIZE)
  }

  /** What is searched next really is the next piece. */
  lemma BufferPiece(d: seq<byte>, start: nat, end: nat, last: nat, cnt: nat, rest: seq<byte>)
    requires |d| == BUFSIZE + 1 && Filled(last, cnt, rest)
    requires start <= end <= last && NEWLINE !in d[start..end] && (end < last ==> d[end] == NEWLINE)
    requires rest != [] && end == last ==> start == 0
    ensures NextPiece(Ahead(d, start, last, rest), d[start..end], Ahead(d, end + 1, last, rest))
  {
    if end < last {
      assert d[start..last] == d[start..end] + [NEWLINE] + d[end + 1..last];
    }
  }

  /** Moves an unfinished line to the front. */
  method MoveToFront(data: array<byte>, lineStart: nat, lineEnd: nat)
    requires 0 < lineStart <= lineEnd < data.Length && NUL !in data[lineStart..lineEnd]
    modifies data
    ensures data[..lineEnd - lineStart] == old(data[lineStart..lineEnd])
    ensures forall k :: lineEnd - lineStart < k < data.Length && k != lineEnd ==> data[k] == old(data[k])
    ensures data[lineEnd] == NUL
  {
    hide CString;
    ghost var line := data[lineStart..lineEnd];
    data[lineEnd] := NUL;
    StringIn(data[..], lineStart, lineEnd);
    assert data[..][lineStart..] == data[lineStart..];
    assert data[..][lineStart..lineEnd] == line;
    Strcpy(data, 0, lineStart);
  }

  /** Searches the lines in the buffer. A last line that may go on in the file is
      moved to the front instead, unless the byte behind a full buffer happens to
      be a newline: then it is searched as it is, and that byte is overwritten. */
  method SearchBuffer(data: array<byte>, last: nat, cnt: nat, s: seq<byte>, sLen: nat,
                      fname: seq<byte>, written: seq<byte>, ghost rest: seq<byte>)
    returns (out: seq<byte>, newLast: nat)
    requires data.Length == BUFSIZE + 1 && Filled(last, cnt, rest) && NUL !in data[..last]
    requires data[BUFSIZE] == NEWLINE && last == BUFSIZE ==> rest == []
    requires NUL in s && NUL in fname && sLen == |CString(s)|
    modifies data
    ensures newLast < BUFSIZE && NUL !in data[..newLast]
    ensures cnt == 0 || (old(data[BUFSIZE]) == NEWLINE && last == BUFSIZE) ==> newLast == 0
    ensures data[BUFSIZE] == NEWLINE
            <==> old(data[BUFSIZE]) == NEWLINE && (last < BUFSIZE || old(data[BUFSIZE - 1]) == NEWLINE)
    ensures var name, p := CString(fname), CString(s);
            out + Reported(name, p, data[..newLast] + rest)
            == written + Reported(name, p, old(data[..last]) + rest)
  {
    hide CString, Reports, Reported, NextPiece, Entry;
    ghost var name, p := CString(fname), CString(s);
    ghost var total := written + Reported(name, p, data[..last] + rest);
    out, newLast := written, last;
    var lineStart := 0;
    assert Ahead(data[..], 0, last, rest) == data[..last] + rest;
    while true
      invariant lineStart <= last && (lineStart == 0 || lineStart < last)
      invariant forall k :: lineStart <= k <= BUFSIZE ==> data[k] == old(data[k])
      invariant NUL !in data[lineStart..last] && newLast == last
      invariant out + Reported(name, p, Ahead(data[..], lineStart, last, rest)) == total
      decreases last - lineStart
      modifies data
    {
      var lineEnd := FindLineEnd(data, lineStart, last);
      ghost var d := data[..];
      assert d[lineStart..lineEnd] == data[lineStart..lineEnd];
      if NEWLINE != data[lineEnd] && cnt != 0 && lineStart != 0 {
        MoveToFront(data, lineStart, lineEnd);
        newLast := last - lineStart;
        break;
      }
      out := TakeLine(data, lineStart, lineEnd, last, cnt, s, sLen, fname, out, rest);
      lineStart := lineEnd + 1;
      if lineStart >= last {
        newLast := 0;
        assert data[..0] + rest == Ahead(data[..], lineStart, last, rest);
        break;
      }
      assert data[lineStart..last] == d[lineStart..last];
    }
  }

  /** Terminates the line between two indices in place and searches it. */
  method TakeLine(data: array<byte>, lineStart: nat, lineEnd: nat, last: nat, cnt: nat, s: seq<byte>, sLen: nat,
                  fname: seq<byte>, written: seq<byte>, ghost rest: seq<byte>) returns (out: seq<byte>)
    requires data.Length == BUFSIZE + 1 && Filled(last, cnt, rest) && lineStart <= lineEnd <= last
    requires NEWLINE !in data[lineStart..lineEnd] && (lineEnd < last ==> data[lineEnd] == NEWLINE)
    requires rest != [] && lineEnd == last ==> lineStart == 0
    requires NUL !in data[lineStart..lineEnd] && NUL in s && NUL in fname && sLen == |CString(s)|
    modifies data
    ensures data[..] == old(data[..])[lineEnd := NUL]
    ensures var name, p := CString(fname), CString(s);
            out + Reported(name, p, Ahead(data[..], lineEnd + 1, last, rest))
            == written + Reported(name, p, old(Ahead(data[..], lineStart, last, rest)))
  {
    hide CString, Reports, Reported, NextPiece, Entry;
    ghost var d := data[..];
    assert d[lineStart..lineEnd] == data[lineStart..lineEnd];
    BufferPiece(d, lineStart, lineEnd, last, cnt, rest);
    PieceReported(CString(fname), CString(s), Ahead(d, lineStart, last, rest), d[lineStart..lineEnd],
                  Ahead(d, lineEnd + 1, last, rest));
    data[lineEnd] := NUL;
    assert data[lineStart..lineEnd] == d[lineStart..lineEnd];
    out := SearchLine(data, lineStart, lineEnd, s, sLen, fname, written);
    assert Ahead(data[..], lineEnd + 1, last, rest) == Ahead(d, lineEnd + 1, last, rest);
  }

  /** What one read adds to the buffer. */
  lemma ReadAhead(img: Image, node: Inode, position: nat, n: nat)
    requires WellFormed(img) && position <= |Contents(img, node)| && n > 0
    ensures var (next, bytes) := FileStep(img, node, position, n);
            var file := Contents(img, node);
            && bytes == file[position..Min(position + n, |file|)]
            && (bytes != [] ==> next == position + |bytes|)
  {
    SpanMeaning(img, node, 0, node.size);
    if position < node.size {
      SpanOfContents(img, node, position, Min(position + n, node.size));
    }
  }

  /** Reading on moves bytes from the file to the buffer. */
  lemma Refilled(d: seq<byte>, d': seq<byte>, last: nat, file: seq<byte>, position: nat, stop: nat)
    requires last <= |d| && position <= stop <= |file| && last + stop - position <= |d|
    requires d' == d[..last] + file[position..stop] + d[last + stop - position..]
    requires NUL !in file && NUL !in d[..last]
    ensures var read := d'[..last + stop - position];
            NUL !in read && read + file[stop..] == d[..last] + file[position..]
  {
    assert d'[..last + stop - position] == d[..last] + file[position..stop];
  }

  /** The lines of the file that contain the pattern, as far as the buffer sees
      lines. `data` is the uninitialised buffer on the stack. */
  method DoOneFile(img: Image, inode: nat, s: seq<byte>, fname: seq<byte>, data: array<byte>, written: seq<byte>)
    returns (ret: int, out: seq<byte>)
    requires WellFormed(img) && inode < |img.inodes| && NUL !in Contents(img, img.inodes[inode])
    requires NUL in s && NUL in fname && data.Length == BUFSIZE + 1
    modifies data
    ensures ret == 0
    ensures out == written + Searched(CString(fname), CString(s), old(data[BUFSIZE]) == NEWLINE,
                                      Contents(img, img.inodes[inode]))
  {
    hide CString, Reported, Searched, WellFormed, FileStep, Contents;
    ghost var file, name, p := Contents(img, img.inodes[inode]), CString(fname), CString(s);
    var sLen := Strlen(s);
    var position: nat, last: nat := 0, 0;
    out := written;
    assert data[..0] + file[0..] == file;
    ghost var total := written + Searched(name, p, data[BUFSIZE] == NEWLINE, file);
    while true
      invariant position <= |file| && last < BUFSIZE && NUL !in data[..last]
      invariant data[BUFSIZE] == NEWLINE && last > 0 ==> file[position..] == []
      invariant out + Searched(name, p, data[BUFSIZE] == NEWLINE, data[..last] + file[position..]) == total
      decreases |file| - position
      modifies data
    {
      ghost var d := data[..];
      ReadAhead(img, img.inodes[inode], position, BUFSIZE - last);
      ghost var stop := Min(position + BUFSIZE - last, |file|);
      ghost var rest := file[stop..];
      ghost var step := FileStep(img, img.inodes[inode], position, BUFSIZE - last);
      assert step.1 == file[position..stop];
      var cnt, next := FileRead(img, inode, position, data, last, BUFSIZE - last);
      assert cnt == |step.1| == stop - position;
      Refilled(d, data[..], last, file, position, stop);
      assert data[..][..last + cnt] == data[..last + cnt];
      assert data[BUFSIZE] == d[BUFSIZE];
      position, last := next, last + cnt;
      out, last := SearchFill(data, last, cnt, s, sLen, fname, out, rest);
      if cnt == 0 {
        assert data[..0] + rest == [];
        break;
      }
    }
    NothingSearched(name, p, data[BUFSIZE] == NEWLINE);
    return 0, out;
  }

  lemma NothingSearched(name: seq<byte>, p: seq<byte>, newline: bool)
    ensures Searched(name, p, newline, []) == []
  {
  }

  /** Searching what is in the buffer, with what is still to be reported after it. */
  method SearchFill(data: array<byte>, last: nat, cnt: nat, s: seq<byte>, sLen: nat,
                    fname: seq<byte>, written: seq<byte>, ghost rest: seq<byte>)
    returns (out: seq<byte>, newLast: nat)
    requires data.Length == BUFSIZE + 1 && Filled(last, cnt, rest) && NUL !in data[..last]
    requires NUL in s && NUL in fname && sLen == |CString(s)|
    modifies data
    ensures newLast < BUFSIZE && NUL !in data[..newLast] && (cnt == 0 ==> newLast == 0)
    ensures data[BUFSIZE] == NEWLINE && newLast > 0 ==> rest == []
    ensures var name, p := CString(fname), CString(s);
            out + Searched(name, p, data[BUFSIZE] == NEWLINE, data[..newLast] + rest)
            == written + Searched(name, p, old(data[BUFSIZE]) == NEWLINE, old(data[..last]) + rest)
  {
    hide CString, Reported, Searched;
    ghost var name, p, newline, w := CString(fname), CString(s), data[BUFSIZE] == NEWLINE, data[..last];
    ghost var full := newline && last == BUFSIZE;
    ghost var seen := if full then [] else rest;
    if full {
      SearchedFull(name, p, w, rest);
      assert w + [] == w && w[BUFSIZE - 1] == data[BUFSIZE - 1];
    } else {
      SearchedShort(name, p, newline, w + rest);
    }
    out, newLast := SearchBuffer(data, last, cnt, s, sLen, fname, written, seen);
    if full {
      NothingReported(name, p);
      assert data[..0] + [] == [] && data[..0] + rest == rest;
      assert out == written + Reported(name, p, w);
    } else {
      SearchedShort(name, p, data[BUFSIZE] == NEWLINE, data[..newLast] + rest);
    }
  }
}
