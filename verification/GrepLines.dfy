/** What `grep` is for: the lines of a file that contain a pattern. And what the
    streaming search really looks at: the same lines, with every line of 1024
    bytes or more cut into pieces of 1024. */
module GrepLines {
  import opened Bytes

  const BUFSIZE: int := 1024

  /** Length of the first line. */
  function FirstBreak(s: seq<byte>): (e: nat)
    ensures e <= |s| && NEWLINE !in s[..e] && (e < |s| ==> s[e] == NEWLINE)
  {
    if s == [] || s[0] == NEWLINE then 0 else 1 + FirstBreak(s[1..])
  }

  lemma FirstBreakUnique(s: seq<byte>, e: nat)
    requires e <= |s| && NEWLINE !in s[..e] && (e < |s| ==> s[e] == NEWLINE)
    ensures FirstBreak(s) == e
  {
    var f := FirstBreak(s);
    if e < f {
      assert false;
    } else if f < e {
      assert false;
    }
  }

  /** The lines of a file; a last line need not end in a newline. */
  function Lines(s: seq<byte>): seq<seq<byte>> {
    if s == [] then []
    else
      var e := FirstBreak(s);
      if e == |s| then [s] else [s[..e]] + Lines(s[e + 1..])
  }

  /** The lines, long ones cut into pieces that fill the buffer. */
  function Pieces(s: seq<byte>): seq<seq<byte>> {
    if s == [] then []
    else
      var e := FirstBreak(s);
      if e >= BUFSIZE then [s[..BUFSIZE]] + Pieces(s[BUFSIZE..])
      else if e == |s| then [s]
      else [s[..e]] + Pieces(s[e + 1..])
  }

  predicate OccursAt(p: seq<byte>, line: seq<byte>, k: nat) {
    k + |p| <= |line| && line[k..k + |p|] == p
  }

  /** A non-empty pattern occurs in the line. */
  predicate Contains(line: seq<byte>, p: seq<byte>) {
    p != [] && exists k :: 0 <= k < |line| && OccursAt(p, line, k)
  }

  /** The lines that contain the pattern, in order. */
  function Found(lines: seq<seq<byte>>, p: seq<byte>): seq<seq<byte>> {
    if lines == [] then []
    else (if Contains(lines[0], p) then [lines[0]] else []) + Found(lines[1..], p)
  }

  lemma FoundOne(line: seq<byte>, rest: seq<seq<byte>>, p: seq<byte>)
    ensures Found([line] + rest, p) == (if Contains(line, p) then [line] else []) + Found(rest, p)
  {
    assert ([line] + rest)[1..] == rest;
  }

  // ------------------------------------------------------------------
  // What these mean
  // ------------------------------------------------------------------

  /** The lines one after the other, each with a line feed. */
  function Unlines(lines: seq<seq<byte>>): seq<byte> {
    if lines == [] then [] else lines[0] + [10] + Unlines(lines[1..])
  }

  /** Lines have no line feed, and with one after each they are the file again, but
      for one after a last line that had none. */
  lemma {:induction false} LinesAreTheFile(s: seq<byte>)
    ensures forall i :: 0 <= i < |Lines(s)| ==> 10 !in Lines(s)[i]
    ensures Unlines(Lines(s)) == if s == [] || s[|s| - 1] == 10 then s else s + [10]
    decreases |s|
  {
    if s != [] {
      var e, rest := FirstBreak(s), AfterLine(s);
      LinesStep(s);
      assert Lines(s) == [s[..e]] + Lines(rest);
      LinesAreTheFile(rest);
      RejoinStep(s);
      hide Lines, FirstBreak, AfterLine;
      UnlinesStep(s[..e], Lines(rest));
    }
  }

  lemma LinesStep(s: seq<byte>)
    requires s != []
    ensures Lines(s) == [s[..FirstBreak(s)]] + Lines(AfterLine(s)) && 10 !in s[..FirstBreak(s)]
  {
    if FirstBreak(s) == |s| {
      assert s[..|s|] == s;
    }
  }

  lemma UnlinesStep(line: seq<byte>, lines: seq<seq<byte>>)
    ensures Unlines([line] + lines) == line + [10] + Unlines(lines)
    ensures 10 !in line && (forall i :: 0 <= i < |lines| ==> 10 !in lines[i]) ==>
              forall i :: 0 <= i < |[line] + lines| ==> 10 !in ([line] + lines)[i]
  {
    assert ([line] + lines)[1..] == lines;
  }

  lemma RejoinStep(s: seq<byte>)
    requires s != []
    ensures var e, rest := FirstBreak(s), AfterLine(s);
            s[..e] + [10] + (if rest == [] || rest[|rest| - 1] == 10 then rest else rest + [10])
            == if s[|s| - 1] == 10 then s else s + [10]
  {
    var e := FirstBreak(s);
    if e == |s| {
      assert s[..e] == s && s[..e][|s| - 1] == s[|s| - 1];
    } else {
      assert s == s[..e] + [10] + s[e + 1..];
      assert s[e + 1..] != [] ==> s[e + 1..][|s| - e - 2] == s[|s| - 1];
    }
  }

  /** A line contains a pattern when the pattern stands in it between something
      before and something after. */
  lemma ContainsMeans(before: seq<byte>, p: seq<byte>, after: seq<byte>)
    requires p != []
    ensures Contains(before + p + after, p)
  {
    var line := before + p + after;
    assert line[|before|..|before| + |p|] == p;
    assert OccursAt(p, line, |before|);
  }

  lemma ContainsOnlyThen(line: seq<byte>, p: seq<byte>) returns (before: seq<byte>, after: seq<byte>)
    requires Contains(line, p)
    ensures p != [] && line == before + p + after
  {
    var k :| 0 <= k < |line| && OccursAt(p, line, k);
    before, after := line[..k], line[k + |p|..];
    assert line == line[..k] + line[k..k + |p|] + line[k + |p|..];
  }

  // ------------------------------------------------------------------
  // One line, seen by each
  // ------------------------------------------------------------------

  /** What follows the first line. */
  function AfterLine(s: seq<byte>): (r: seq<byte>)
    requires s != []
    ensures |r| < |s|
  {
    var e := FirstBreak(s);
    if e == |s| then [] else s[e + 1..]
  }

  lemma LinesFound(s: seq<byte>, p: seq<byte>)
    requires s != []
    ensures var line := s[..FirstBreak(s)];
            Found(Lines(s), p) == (if Contains(line, p) then [line] else []) + Found(Lines(AfterLine(s)), p)
  {
    var e := FirstBreak(s);
    if e == |s| {
      assert s[..e] == s && [s] == [s] + [];
      FoundOne(s, [], p);
    } else {
      FoundOne(s[..e], Lines(s[e + 1..]), p);
    }
  }

  lemma ShortPiecesFound(s: seq<byte>, p: seq<byte>)
    requires s != [] && FirstBreak(s) < BUFSIZE
    ensures var line := s[..FirstBreak(s)];
            Found(Pieces(s), p) == (if Contains(line, p) then [line] else []) + Found(Pieces(AfterLine(s)), p)
  {
    var e := FirstBreak(s);
    if e == |s| {
      assert s[..e] == s && [s] == [s] + [];
      FoundOne(s, [], p);
    } else {
      FoundOne(s[..e], Pieces(s[e + 1..]), p);
    }
  }

  lemma LongPiecesFound(s: seq<byte>, p: seq<byte>)
    requires s != [] && FirstBreak(s) >= BUFSIZE
    ensures var rest := s[BUFSIZE..];
            && FirstBreak(rest) == FirstBreak(s) - BUFSIZE
            && (rest == [] ==> AfterLine(s) == []) && (rest != [] ==> AfterLine(rest) == AfterLine(s))
            && Found(Pieces(s), p) == (if Contains(s[..BUFSIZE], p) then [s[..BUFSIZE]] else []) + Found(Pieces(rest), p)
  {
    var e, rest := FirstBreak(s), s[BUFSIZE..];
    assert rest[..e - BUFSIZE] == s[..e][BUFSIZE..];
    FirstBreakUnique(rest, e - BUFSIZE);
    FoundOne(s[..BUFSIZE], Pieces(rest), p);
  }

  /** A part of a line that does not contain the pattern does not contain it. */
  lemma PartContains(line: seq<byte>, lo: nat, hi: nat, p: seq<byte>)
    requires lo <= hi <= |line|
    ensures Contains(line[lo..hi], p) ==> Contains(line, p)
  {
    if Contains(line[lo..hi], p) {
      var k :| 0 <= k < |line[lo..hi]| && OccursAt(p, line[lo..hi], k);
      var part := line[lo..hi];
      forall j | 0 <= j < |p|
        ensures line[lo + k + j] == p[j]
      {
        assert part[k..k + |p|][j] == part[k + j];
      }
      assert line[lo + k..lo + k + |p|] == p;
      assert OccursAt(p, line, lo + k);
    }
  }

  /** The pieces of a line without the pattern are not reported. */
  lemma {:induction false} NothingInLine(s: seq<byte>, p: seq<byte>)
    requires s != [] && !Contains(s[..FirstBreak(s)], p)
    ensures Found(Pieces(s), p) == Found(Pieces(AfterLine(s)), p)
    decreases |s|
  {
    var e := FirstBreak(s);
    if e < BUFSIZE {
      ShortPiecesFound(s, p);
    } else {
      var rest := s[BUFSIZE..];
      LongPiecesFound(s, p);
      PartContains(s[..e], 0, BUFSIZE, p);
      assert s[..e][0..BUFSIZE] == s[..BUFSIZE];
      if rest != [] {
        PartContains(s[..e], BUFSIZE, e, p);
        assert s[..e][BUFSIZE..e] == rest[..FirstBreak(rest)];
        NothingInLine(rest, p);
      }
    }
  }

  /** A line of exactly 1024 bytes is one piece, and then an empty one. */
  lemma FullLineFound(s: seq<byte>, p: seq<byte>)
    requires s != [] && FirstBreak(s) == BUFSIZE
    ensures var line := s[..BUFSIZE];
            Found(Pieces(s), p) == (if Contains(line, p) then [line] else []) + Found(Pieces(AfterLine(s)), p)
  {
    LongPiecesFound(s, p);
    var rest := s[BUFSIZE..];
    if rest != [] {
      assert rest[..0] == [];
      NothingInLine(rest, p);
    }
  }

  // ------------------------------------------------------------------
  // When the two agree
  // ------------------------------------------------------------------

  lemma {:induction false} PiecesAreShort(s: seq<byte>, p: seq<byte>)
    ensures forall i :: 0 <= i < |Found(Pieces(s), p)| ==> |Found(Pieces(s), p)[i]| <= BUFSIZE
    decreases |s|
  {
    if s != [] {
      if FirstBreak(s) < BUFSIZE {
        ShortPiecesFound(s, p);
        PiecesAreShort(AfterLine(s), p);
      } else {
        LongPiecesFound(s, p);
        PiecesAreShort(s[BUFSIZE..], p);
      }
    }
  }

  /** No line longer than the buffer contains the pattern. */
  predicate NoLongMatch(s: seq<byte>, p: seq<byte>)
    decreases |s|
  {
    s == [] ||
    (&& (FirstBreak(s) > BUFSIZE ==> !Contains(s[..FirstBreak(s)], p))
     && NoLongMatch(AfterLine(s), p))
  }

  lemma {:induction false} ShortMatchesAgree(s: seq<byte>, p: seq<byte>)
    requires NoLongMatch(s, p)
    ensures Found(Pieces(s), p) == Found(Lines(s), p)
    decreases |s|
  {
    if s != [] {
      LinesFound(s, p);
      ShortMatchesAgree(AfterLine(s), p);
      if FirstBreak(s) < BUFSIZE {
        ShortPiecesFound(s, p);
      } else if FirstBreak(s) == BUFSIZE {
        FullLineFound(s, p);
      } else {
        NothingInLine(s, p);
      }
    }
  }

  lemma {:induction false} LongMatchIsFound(s: seq<byte>, p: seq<byte>) returns (i: nat)
    requires !NoLongMatch(s, p)
    ensures i < |Found(Lines(s), p)| && |Found(Lines(s), p)[i]| > BUFSIZE
    decreases |s|
  {
    LinesFound(s, p);
    if FirstBreak(s) > BUFSIZE && Contains(s[..FirstBreak(s)], p) {
      i := 0;
    } else {
      i := LongMatchIsFound(AfterLine(s), p);
      if Contains(s[..FirstBreak(s)], p) {
        i := i + 1;
      }
    }
  }

  /** Cutting lines into pieces does no harm if and only if no line of more than
      1024 bytes contains the pattern. */
  lemma PiecesAgree(s: seq<byte>, p: seq<byte>)
    ensures Found(Pieces(s), p) == Found(Lines(s), p) <==> NoLongMatch(s, p)
  {
    if NoLongMatch(s, p) {
      ShortMatchesAgree(s, p);
    } else {
      var i := LongMatchIsFound(s, p);
      PiecesAreShort(s, p);
    }
  }

  /** The first byte of the pattern is compared as a signed character with an
      unsigned one: from 128 on it is never found. */
  predicate Findable(p: seq<byte>) {
    p == [] || p[0] < 128
  }

  /** The pieces that the search reports. */
  function Hits(pieces: seq<seq<byte>>, p: seq<byte>): seq<seq<byte>> {
    if Findable(p) then Found(pieces, p) else []
  }

  /** Nothing is found when no line contains the pattern. */
  lemma {:induction false} FoundNothing(lines: seq<seq<byte>>, p: seq<byte>)
    ensures Found(lines, p) == [] <==> Absent(lines, p)
  {
    if lines != [] {
      FoundNothing(lines[1..], p);
      assert lines == [lines[0]] + lines[1..];
      if Found(lines[1..], p) != [] {
        var i :| 0 <= i < |lines[1..]| && Contains(lines[1..][i], p);
        assert Contains(lines[i + 1], p);
      }
    }
  }

  /** No line contains the pattern. */
  predicate Absent(lines: seq<seq<byte>>, p: seq<byte>) {
    forall i :: 0 <= i < |lines| ==> !Contains(lines[i], p)
  }

  /** The search finds exactly the lines that contain the pattern if and only if
      no line of more than 1024 bytes contains it, and the pattern's first byte
      is below 128 or no line contains it. */
  lemma PiecesFindTheLines(s: seq<byte>, p: seq<byte>)
    ensures Hits(Pieces(s), p) == Found(Lines(s), p)
            <==> NoLongMatch(s, p) && (Findable(p) || Absent(Lines(s), p))
  {
    PiecesAgree(s, p);
    FoundNothing(Lines(s), p);
    if !NoLongMatch(s, p) {
      var i := LongMatchIsFound(s, p);
    }
  }

  // ------------------------------------------------------------------
  // A newline behind the buffer
  // ------------------------------------------------------------------

  /** The pieces when the byte behind the buffer happens to be a newline: the first
      full buffer that does not end a line is taken to end one. */
  function CutPieces(s: seq<byte>): seq<seq<byte>>
    decreases |s|
  {
    if |s| < BUFSIZE then Pieces(s)
    else Pieces(s[..BUFSIZE])
         + if s[BUFSIZE - 1] == NEWLINE then CutPieces(s[BUFSIZE..]) else Pieces(s[BUFSIZE..])
  }

  /** Where the last, unfinished line of `s` begins. */
  function LastLine(s: seq<byte>): (a: nat)
    ensures a <= |s| && NEWLINE !in s[a..] && (a > 0 ==> s[a - 1] == NEWLINE)
  {
    if s == [] || s[|s| - 1] == NEWLINE then |s| else LastLine(s[..|s| - 1])
  }

  /** The line that goes on from the first full buffer that does not end a line
      contains the pattern, and was not all there is in that buffer. */
  predicate CutsMatch(s: seq<byte>, p: seq<byte>)
    decreases |s|
  {
    |s| >= BUFSIZE &&
    var rest := s[BUFSIZE..];
    if s[BUFSIZE - 1] == NEWLINE then CutsMatch(rest, p)
    else
      var a := LastLine(s[..BUFSIZE]);
      a > 0 && FirstBreak(rest) > 0 && Contains(s[a..BUFSIZE + FirstBreak(rest)], p)
  }

  predicate EndsLine(h: seq<byte>) {
    h == [] || h[|h| - 1] == NEWLINE
  }

  lemma FirstLineAppend(h: seq<byte>, t: seq<byte>)
    requires EndsLine(h) && h != []
    ensures var e := FirstBreak(h);
            && e < |h| && FirstBreak(h + t) == e && (h + t)[..e] == h[..e]
            && AfterLine(h + t) == AfterLine(h) + t && EndsLine(AfterLine(h))
  {
    LineBreaks(h);
    var e := FirstBreak(h);
    SlicesAppend(h, t, e);
    FirstBreakUnique(h + t, e);
  }

  lemma LineBreaks(h: seq<byte>)
    requires EndsLine(h) && h != []
    ensures FirstBreak(h) < |h| && EndsLine(h[FirstBreak(h) + 1..])
  {
    var e := FirstBreak(h);
    if e == |h| {
      assert false;
    }
    assert h[e + 1..] != [] ==> h[e + 1..][|h| - e - 2] == NEWLINE;
  }

  lemma SlicesAppend(h: seq<byte>, t: seq<byte>, e: nat)
    requires e < |h|
    ensures (h + t)[..e] == h[..e] && (h + t)[e] == h[e] && (h + t)[e + 1..] == h[e + 1..] + t
  {
  }

  /** The first line of `s`, and the others. */
  lemma LinesOf(s: seq<byte>, p: seq<byte>)
    requires s != []
    ensures Lines(s) == [s[..FirstBreak(s)]] + Lines(AfterLine(s))
    ensures NoLongMatch(s, p)
            <==> (FirstBreak(s) > BUFSIZE ==> !Contains(s[..FirstBreak(s)], p)) && NoLongMatch(AfterLine(s), p)
  {
    if FirstBreak(s) == |s| {
      assert s[..|s|] == s;
    }
  }

  lemma Regroup(a: seq<seq<byte>>, b: seq<seq<byte>>, c: seq<seq<byte>>)
    ensures a + (b + c) == (a + b) + c
  {
  }

  /** Whole lines first, and then the rest. */
  lemma {:induction false} LinesAppend(h: seq<byte>, t: seq<byte>, p: seq<byte>)
    requires EndsLine(h)
    ensures Lines(h + t) == Lines(h) + Lines(t)
    decreases |h|
  {
    if h == [] {
      assert h + t == t && Lines(h) == [];
    } else {
      hide Contains, FirstBreak, Lines, NoLongMatch, EndsLine, AfterLine;
      FirstLineAppend(h, t);
      LinesOf(h, p);
      LinesOf(h + t, p);
      LinesAppend(AfterLine(h), t, p);
      Regroup([h[..FirstBreak(h)]], Lines(AfterLine(h)), Lines(t));
    }
  }

  lemma {:induction false} NoLongAppend(h: seq<byte>, t: seq<byte>, p: seq<byte>)
    requires EndsLine(h)
    ensures NoLongMatch(h + t, p) <==> NoLongMatch(h, p) && NoLongMatch(t, p)
    decreases |h|
  {
    if h == [] {
      assert h + t == t;
    } else {
      hide Contains, FirstBreak, Lines, NoLongMatch, EndsLine, AfterLine;
      FirstLineAppend(h, t);
      LinesOf(h, p);
      LinesOf(h + t, p);
      NoLongAppend(AfterLine(h), t, p);
    }
  }

  lemma {:induction false} FoundSplits(a: seq<seq<byte>>, b: seq<seq<byte>>, p: seq<byte>)
    ensures Found(a + b, p) == Found(a, p) + Found(b, p)
  {
    if a == [] {
      assert a + b == b;
    } else {
      assert (a + b)[1..] == a[1..] + b;
      FoundSplits(a[1..], b, p);
    }
  }

  lemma {:induction false} NoRoomForLong(s: seq<byte>, p: seq<byte>)
    requires |s| <= BUFSIZE
    ensures NoLongMatch(s, p)
    decreases |s|
  {
    if s != [] {
      NoRoomForLong(AfterLine(s), p);
    }
  }

  /** One buffer: its pieces are its lines. */
  lemma BufferAgrees(w: seq<byte>, p: seq<byte>)
    requires |w| <= BUFSIZE
    ensures Found(Pieces(w), p) == Found(Lines(w), p)
  {
    NoRoomForLong(w, p);
    ShortMatchesAgree(w, p);
  }

  /** What follows the first line, if there is one. */
  function Beyond(s: seq<byte>): seq<byte> {
    if s == [] then [] else AfterLine(s)
  }

  lemma HeadGoesOn(head: seq<byte>, rest: seq<byte>)
    requires head != [] && NEWLINE !in head
    ensures var t, e := head + rest, FirstBreak(rest);
            FirstBreak(t) == |head| + e && t[..|head| + e] == head + rest[..e] && AfterLine(t) == Beyond(rest)
  {
    var t, e := head + rest, FirstBreak(rest);
    assert t[..|head| + e] == head + rest[..e];
    FirstBreakUnique(t, |head| + e);
  }

  /** A line that began before `rest`, seen whole. */
  lemma LineFromHead(head: seq<byte>, rest: seq<byte>, p: seq<byte>)
    requires head != [] && NEWLINE !in head
    ensures var line := head + rest[..FirstBreak(rest)];
            && Found(Lines(head + rest), p) == (if Contains(line, p) then [line] else []) + Found(Lines(Beyond(rest)), p)
            && (NoLongMatch(head + rest, p)
                <==> (|line| > BUFSIZE ==> !Contains(line, p)) && NoLongMatch(Beyond(rest), p))
  {
    hide Contains, FirstBreak, Lines, NoLongMatch, AfterLine, Beyond, Found;
    HeadGoesOn(head, rest);
    LinesFound(head + rest, p);
    LinesOf(head + rest, p);
  }

  /** The part of that line in `rest`, searched on its own. */
  lemma PartOfLine(rest: seq<byte>, p: seq<byte>)
    ensures var e := FirstBreak(rest);
            && (e == 0 || !Contains(rest[..e], p) ==> Found(Pieces(rest), p) == Found(Pieces(Beyond(rest)), p))
            && (0 < e < BUFSIZE ==> Found(Pieces(rest), p)
                                    == (if Contains(rest[..e], p) then [rest[..e]] else []) + Found(Pieces(Beyond(rest)), p))
  {
    var e := FirstBreak(rest);
    if rest != [] {
      if e == 0 {
        assert rest[..0] == [];
      }
      if e < BUFSIZE {
        ShortPiecesFound(rest, p);
      }
      if !Contains(rest[..e], p) {
        NothingInLine(rest, p);
      }
    }
  }

  /** What is found in one line. With `FoundSplits`: the lines that contain the
      pattern, each as often and in the order it comes. */
  lemma FoundAlone(line: seq<byte>, p: seq<byte>)
    ensures Found([line], p) == if Contains(line, p) then [line] else []
  {
    FoundOne(line, [], p);
    assert [line] + [] == [line];
  }

  /** The unfinished line `head` is taken to end, and `rest` is searched after it. */
  lemma CutLine(head: seq<byte>, rest: seq<byte>, p: seq<byte>)
    requires head != [] && |head| < BUFSIZE && NEWLINE !in head
    ensures var cut := Found([head], p) + Found(Pieces(rest), p);
            var e := FirstBreak(rest);
            && (cut == Found(Lines(head + rest), p)
                <==> NoLongMatch(head + rest, p) && !(e > 0 && Contains(head + rest[..e], p)))
            && (e > 0 && Contains(head + rest[..e], p) ==> Found(Lines(head + rest), p) != [])
  {
    hide Found, Lines, Pieces, NoLongMatch, Beyond, Contains;
    var e := FirstBreak(rest);
    var line := head + rest[..e];
    LineFromHead(head, rest, p);
    PartOfLine(rest, p);
    FoundAlone(head, p);
    PiecesAgree(Beyond(rest), p);
    Cancel(Found([head], p), Found(Pieces(rest), p), Found(Lines(Beyond(rest)), p));
    if e == 0 {
      assert line == head;
    } else if Contains(line, p) {
      CutMatch(head, rest, p);
    } else {
      PartContains(line, 0, |head|, p);
      PartContains(line, |head|, |line|, p);
      assert line[0..|head|] == head && line[|head|..|line|] == rest[..e];
    }
  }

  /** A line that contains the pattern and is cut is not reported as it is. */
  lemma CutMatch(head: seq<byte>, rest: seq<byte>, p: seq<byte>)
    requires head != [] && |head| < BUFSIZE && NEWLINE !in head && FirstBreak(rest) > 0
    requires Contains(head + rest[..FirstBreak(rest)], p)
    ensures Found([head], p) + Found(Pieces(rest), p) != Found(Lines(head + rest), p)
  {
    hide Found, Lines, Pieces, NoLongMatch, Beyond, Contains;
    var t, e := head + rest, FirstBreak(rest);
    FoundAlone(head, p);
    var first, pieces := Found([head], p), Found(Pieces(rest), p);
    if !NoLongMatch(t, p) {
      var i := LongMatchIsFound(t, p);
      PiecesAreShort(rest, p);
      assert i < |first + pieces| ==> (first + pieces)[i] == if i < |first| then first[i] else pieces[i - |first|];
    } else {
      LineFromHead(head, rest, p);
      PartOfLine(rest, p);
      PiecesAgree(Beyond(rest), p);
      var second := if Contains(rest[..e], p) then [rest[..e]] else [];
      NotTheLine(first, second, head + rest[..e], Found(Lines(Beyond(rest)), p));
    }
  }

  lemma NotTheLine(first: seq<seq<byte>>, second: seq<seq<byte>>, line: seq<byte>, later: seq<seq<byte>>)
    requires first == [] || (|first| == 1 && |first[0]| < |line|)
    requires second == [] || (|second| == 1 && |second[0]| < |line|)
    ensures first + (second + later) != [line] + later
  {
    if |first| + |second| == 1 {
      assert |(first + (second + later))[0]| < |([line] + later)[0]|;
    } else {
      assert |first + (second + later)| != |[line] + later|;
    }
  }

  lemma {:induction false} CutAgrees(s: seq<byte>, p: seq<byte>)
    ensures Found(CutPieces(s), p) == Found(Lines(s), p) <==> NoLongMatch(s, p) && !CutsMatch(s, p)
    ensures CutsMatch(s, p) ==> Found(Lines(s), p) != []
    decreases |s|
  {
    if |s| < BUFSIZE {
      PiecesAgree(s, p);
    } else {
      var w, rest := s[..BUFSIZE], s[BUFSIZE..];
      assert s == w + rest;
      BufferAgrees(w, p);
      NoRoomForLong(w, p);
      if s[BUFSIZE - 1] == NEWLINE {
        CutAgrees(rest, p);
        LinesAppend(w, rest, p);
        NoLongAppend(w, rest, p);
        FoundSplits(Pieces(w), CutPieces(rest), p);
        FoundSplits(Lines(w), Lines(rest), p);
        Cancel(Found(Lines(w), p), Found(CutPieces(rest), p), Found(Lines(rest), p));
      } else {
        FoundSplits(Pieces(w), Pieces(rest), p);
        CutAtBuffer(s, p);
      }
    }
  }

  /** A buffer that does not end a line: whole lines, and the beginning of one. */
  lemma LastLineBegins(s: seq<byte>) returns (h: seq<byte>, head: seq<byte>)
    requires |s| >= BUFSIZE && s[BUFSIZE - 1] != NEWLINE
    ensures var w, rest, a := s[..BUFSIZE], s[BUFSIZE..], LastLine(s[..BUFSIZE]);
            && w == h + head && s == h + (head + rest) && |h| == a
            && head != [] && NEWLINE !in head && EndsLine(h)
            && head + rest[..FirstBreak(rest)] == s[a..BUFSIZE + FirstBreak(rest)]
  {
    hide FirstBreak, Lines, Pieces, Contains;
    var w, rest := s[..BUFSIZE], s[BUFSIZE..];
    var a := LastLine(w);
    h, head := w[..a], w[a..];
    assert w[BUFSIZE - 1] == s[BUFSIZE - 1];
    assert head[|head| - 1] == w[BUFSIZE - 1];
    assert head == s[a..BUFSIZE];
    SlicesJoin(s, a, BUFSIZE, FirstBreak(rest));
  }

  lemma SlicesJoin(s: seq<byte>, a: nat, b: nat, e: nat)
    requires a <= b <= |s| && e <= |s| - b
    ensures s[a..b] + s[b..][..e] == s[a..b + e]
  {
  }

  /** The full buffer that does not end a line. */
  lemma CutAtBuffer(s: seq<byte>, p: seq<byte>)
    requires |s| >= BUFSIZE && s[BUFSIZE - 1] != NEWLINE
    ensures var cut := Found(Pieces(s[..BUFSIZE]), p) + Found(Pieces(s[BUFSIZE..]), p);
            cut == Found(Lines(s), p) <==> NoLongMatch(s, p) && !CutsMatch(s, p)
    ensures CutsMatch(s, p) ==> Found(Lines(s), p) != []
  {
    hide EndsLine, Found, Lines, Pieces, NoLongMatch, Contains, FirstBreak, CutsMatch, LastLine;
    CutsMatchHere(s, p);
    var h, head := LastLineBegins(s);
    if h == [] {
      assert s[..BUFSIZE] == head;
      OneLongLine(s, p);
    } else {
      BufferAgrees(s[..BUFSIZE], p);
      CutAfterLines(h, head, s[BUFSIZE..], p);
    }
  }

  /** The same, after the whole lines in that buffer. */
  lemma CutAfterLines(h: seq<byte>, head: seq<byte>, rest: seq<byte>, p: seq<byte>)
    requires h != [] && EndsLine(h) && head != [] && NEWLINE !in head && |h + head| <= BUFSIZE
    ensures var e := FirstBreak(rest);
            && (Found(Lines(h + head), p) + Found(Pieces(rest), p) == Found(Lines(h + (head + rest)), p)
                <==> NoLongMatch(h + (head + rest), p) && !(e > 0 && Contains(head + rest[..e], p)))
            && (e > 0 && Contains(head + rest[..e], p) ==> Found(Lines(h + (head + rest)), p) != [])
  {
    hide Found, Lines, Pieces, NoLongMatch, Contains, FirstBreak, EndsLine;
    LastLineAlone(h, head, p);
    LinesAppend(h, head + rest, p);
    NoLongAppend(h, head + rest, p);
    FoundSplits(Lines(h), Lines(head + rest), p);
    CutLine(head, rest, p);
    var fh, cut := Found(Lines(h), p), Found([head], p) + Found(Pieces(rest), p);
    Cancel(fh, cut, Found(Lines(head + rest), p));
    assert (fh + Found([head], p)) + Found(Pieces(rest), p) == fh + cut;
  }

  /** A buffer without a newline is one piece in any case. */
  lemma OneLongLine(s: seq<byte>, p: seq<byte>)
    requires |s| >= BUFSIZE && NEWLINE !in s[..BUFSIZE]
    ensures Found(Pieces(s[..BUFSIZE]), p) + Found(Pieces(s[BUFSIZE..]), p) == Found(Lines(s), p) <==> NoLongMatch(s, p)
  {
    var w := s[..BUFSIZE];
    FirstBreakUnique(w, BUFSIZE);
    assert w[..BUFSIZE] == w && w[BUFSIZE..] == [];
    if FirstBreak(s) < BUFSIZE {
      assert false;
    }
    LongPiecesFound(s, p);
    LongPiecesFound(w, p);
    PiecesAgree(s, p);
    assert Pieces([]) == [] && Found([], p) == [];
    hide Found, Lines, Pieces, NoLongMatch, Contains, FirstBreak;
    assert Found(Pieces(w), p) == (if Contains(w, p) then [w] else []);
  }

  lemma LastLineAlone(h: seq<byte>, head: seq<byte>, p: seq<byte>)
    requires EndsLine(h) && head != [] && NEWLINE !in head && |h + head| <= BUFSIZE
    ensures Found(Lines(h + head), p) == Found(Lines(h), p) + Found([head], p) && NoLongMatch(h, p)
  {
    NoRoomForLong(h, p);
    LinesAppend(h, head, p);
    FirstBreakUnique(head, |head|);
    FoundSplits(Lines(h), [head], p);
  }

  lemma Cancel(h: seq<seq<byte>>, a: seq<seq<byte>>, b: seq<seq<byte>>)
    ensures h + a == h + b <==> a == b
    ensures h == [] ==> h + a == a && h + b == b
  {
    assert (h + a)[|h|..] == a && (h + b)[|h|..] == b;
  }

  /** What `CutsMatch` says of the first buffer that does not end a line. */
  lemma CutsMatchHere(s: seq<byte>, p: seq<byte>)
    requires |s| >= BUFSIZE && s[BUFSIZE - 1] != NEWLINE
    ensures var a, e := LastLine(s[..BUFSIZE]), FirstBreak(s[BUFSIZE..]);
            CutsMatch(s, p) <==> a > 0 && e > 0 && Contains(s[a..BUFSIZE + e], p)
  {
  }

  /** With a newline behind the buffer, the search finds exactly the lines that
      contain the pattern if and only if, besides, the line cut by it does not. */
  lemma CutPiecesFindTheLines(s: seq<byte>, p: seq<byte>)
    ensures Hits(CutPieces(s), p) == Found(Lines(s), p)
            <==> NoLongMatch(s, p) && (Findable(p) || Absent(Lines(s), p)) && !CutsMatch(s, p)
  {
    CutAgrees(s, p);
    FoundNothing(Lines(s), p);
    if !NoLongMatch(s, p) {
      var i := LongMatchIsFound(s, p);
    }
  }

  /** A file of an empty line and one of 1024 equal bytes: no line is longer than
      the buffer, yet the second is cut. */
  lemma CutLineIsMissed(c: byte)
    requires c != NEWLINE
    ensures var s := [NEWLINE] + seq(BUFSIZE, _ => c);
            NoLongMatch(s, [c]) && CutsMatch(s, [c])
  {
    var line := seq(BUFSIZE, _ => c);
    var s := [NEWLINE] + line;
    FirstBreakUnique(s, 0);
    assert s[1..] == line;
    NoRoomForLong(line, [c]);
    var h, head := LastLineBegins(s);
    assert s[..BUFSIZE][0] == NEWLINE;
    assert NEWLINE in h + head;
    assert NEWLINE in h;
    FirstBreakUnique(s[BUFSIZE..], 1);
    var cut := s[LastLine(s[..BUFSIZE])..BUFSIZE + 1];
    assert cut[|cut| - 1] == c;
    assert OccursAt([c], cut, |cut| - 1);
  }

  /** What is written with a newline behind the buffer is the report of the lines
      that contain the pattern under exactly that condition. */
  lemma CutReportIsExact(name: seq<byte>, s: seq<byte>, p: seq<byte>)
    requires NEWLINE !in name
    ensures Report(name, Hits(CutPieces(s), p)) == Report(name, Found(Lines(s), p))
            <==> NoLongMatch(s, p) && (Findable(p) || Absent(Lines(s), p)) && !CutsMatch(s, p)
  {
    CutPiecesFindTheLines(s, p);
    LinesAreLines(s, p);
    CutPiecesAreLines(s, p);
    ReportsDiffer(name, Hits(CutPieces(s), p), Found(Lines(s), p));
  }

  lemma {:induction false} CutPiecesAreLines(s: seq<byte>, p: seq<byte>)
    ensures AllOneLine(Found(CutPieces(s), p))
    decreases |s|
  {
    if |s| < BUFSIZE {
      PiecesAreLines(s, p);
    } else {
      var first, rest := Pieces(s[..BUFSIZE]), s[BUFSIZE..];
      PiecesAreLines(s[..BUFSIZE], p);
      var later := if s[BUFSIZE - 1] == NEWLINE then CutPieces(rest) else Pieces(rest);
      if s[BUFSIZE - 1] == NEWLINE {
        CutPiecesAreLines(rest, p);
      } else {
        PiecesAreLines(rest, p);
      }
      FoundSplits(first, later, p);
    }
  }

  /** A file of the one byte 195, searched for that byte: the line is not found. */
  lemma HighByteIsMissed()
    ensures NoLongMatch([195], [195]) && Found(Lines([195]), [195]) == [[195]] && Hits(Pieces([195]), [195]) == []
  {
    FirstBreakUnique([195], 1);
    assert [195][..1] == [195];
    assert OccursAt([195], [195], 0);
    LinesFound([195], [195]);
  }

  /** They differ, for one, on a single line of 1025 equal bytes. */
  lemma LongLineIsCut(c: byte)
    requires c != NEWLINE
    ensures var line := seq(BUFSIZE + 1, _ => c);
            Found(Lines(line), [c]) == [line] && Hits(Pieces(line), [c]) != [line]
  {
    var line := seq(BUFSIZE + 1, _ => c);
    FirstBreakUnique(line, BUFSIZE + 1);
    assert OccursAt([c], line, 0);
    assert line[..BUFSIZE + 1] == line;
    LinesFound(line, [c]);
    PiecesAreShort(line, [c]);
  }

  /** In particular when all lines are shorter than 1024 bytes. */
  lemma {:induction false} ShortLinesAreFine(s: seq<byte>, p: seq<byte>)
    requires forall i :: 0 <= i < |Lines(s)| ==> |Lines(s)[i]| < BUFSIZE
    ensures NoLongMatch(s, p)
    decreases |s|
  {
    if s != [] {
      var e := FirstBreak(s);
      assert Lines(s)[0] == s[..e];
      if e < |s| {
        var rest := Lines(AfterLine(s));
        forall i | 0 <= i < |rest|
          ensures |rest[i]| < BUFSIZE
        {
          assert rest[i] == Lines(s)[i + 1];
        }
      }
      ShortLinesAreFine(AfterLine(s), p);
    }
  }

  // ------------------------------------------------------------------
  // The report
  // ------------------------------------------------------------------

  const COLON: byte := 58

  /** A reported line: the file's name, a colon, the line. */
  function Entry(name: seq<byte>, line: seq<byte>): seq<byte> {
    name + [COLON] + line + [NEWLINE]
  }

  function Report(name: seq<byte>, lines: seq<seq<byte>>): seq<byte> {
    if lines == [] then [] else Entry(name, lines[0]) + Report(name, lines[1..])
  }

  /** One line more at the front of what is still to be found. */
  lemma ReportGrows(name: seq<byte>, line: seq<byte>, more: seq<seq<byte>>)
    ensures Report(name, [line] + more) == Entry(name, line) + Report(name, more)
  {
    assert ([line] + more)[1..] == more;
  }

  /** One reported line. */
  lemma ReportAlone(name: seq<byte>, line: seq<byte>)
    ensures Report(name, []) == [] && Report(name, [line]) == name + [58] + line + [10]
  {
    assert [line][1..] == [];
  }

  /** Reports come one after the other. */
  lemma {:induction false} ReportSplits(name: seq<byte>, a: seq<seq<byte>>, b: seq<seq<byte>>)
    ensures Report(name, a + b) == Report(name, a) + Report(name, b)
  {
    if a == [] {
      assert a + b == b;
    } else {
      assert (a + b)[1..] == a[1..] + b;
      ReportSplits(name, a[1..], b);
    }
  }

  predicate AllOneLine(lines: seq<seq<byte>>) {
    forall i :: 0 <= i < |lines| ==> NEWLINE !in lines[i]
  }

  /** Different lists of lines never give the same report. */
  lemma {:induction false} ReportsDiffer(name: seq<byte>, a: seq<seq<byte>>, b: seq<seq<byte>>)
    requires NEWLINE !in name && AllOneLine(a) && AllOneLine(b)
    ensures Report(name, a) == Report(name, b) <==> a == b
  {
    if Report(name, a) == Report(name, b) && a != [] && b != [] {
      var x, y := name + [COLON] + a[0], name + [COLON] + b[0];
      var r := Report(name, a);
      assert r[..|x|] == x && r[|x|] == NEWLINE;
      assert r[..|y|] == y && r[|y|] == NEWLINE;
      FirstBreakUnique(r, |x|);
      FirstBreakUnique(r, |y|);
      assert a[0] == x[|name| + 1..] && b[0] == y[|name| + 1..];
      assert Report(name, a[1..]) == r[|x| + 1..] == Report(name, b[1..]);
      ReportsDiffer(name, a[1..], b[1..]);
      assert a == [a[0]] + a[1..] && b == [b[0]] + b[1..];
    }
  }

  lemma {:induction false} LinesAreLines(s: seq<byte>, p: seq<byte>)
    ensures AllOneLine(Found(Lines(s), p))
    decreases |s|
  {
    if s != [] {
      LinesFound(s, p);
      LinesAreLines(AfterLine(s), p);
    }
  }

  lemma {:induction false} PiecesAreLines(s: seq<byte>, p: seq<byte>)
    ensures AllOneLine(Found(Pieces(s), p))
    decreases |s|
  {
    if s != [] {
      if FirstBreak(s) < BUFSIZE {
        ShortPiecesFound(s, p);
        PiecesAreLines(AfterLine(s), p);
      } else {
        LongPiecesFound(s, p);
        PiecesAreLines(s[BUFSIZE..], p);
      }
    }
  }

  /** What is written when the pieces are searched is the report of the lines
      that contain the pattern if and only if no line of more than 1024 bytes
      contains it, and the pattern's first byte is below 128 or no line
      contains it. */
  lemma ReportIsExact(name: seq<byte>, s: seq<byte>, p: seq<byte>)
    requires NEWLINE !in name
    ensures Report(name, Hits(Pieces(s), p)) == Report(name, Found(Lines(s), p))
            <==> NoLongMatch(s, p) && (Findable(p) || Absent(Lines(s), p))
  {
    PiecesFindTheLines(s, p);
    LinesAreLines(s, p);
    PiecesAreLines(s, p);
    ReportsDiffer(name, Hits(Pieces(s), p), Found(Lines(s), p));
  }

  // ------------------------------------------------------------------
  // One step of the search
  // ------------------------------------------------------------------

  /** `piece` is what the search takes next from `s`, and `after` what is left. */
  predicate NextPiece(s: seq<byte>, piece: seq<byte>, after: seq<byte>) {
    && NEWLINE !in piece
    && ((|piece| < BUFSIZE && s == piece + [NEWLINE] + after)
        || (|piece| <= BUFSIZE && after == [] && s == piece)
        || (|piece| == BUFSIZE && s == piece + after))
  }

  lemma PieceFound(s: seq<byte>, piece: seq<byte>, after: seq<byte>, p: seq<byte>)
    requires NextPiece(s, piece, after)
    ensures Found(Pieces(s), p) == (if Contains(piece, p) then [piece] else []) + Found(Pieces(after), p)
  {
    var n := |piece|;
    if n < BUFSIZE && s == piece + [NEWLINE] + after {
      assert s[..n] == piece && s[n + 1..] == after;
      FirstBreakUnique(s, n);
      ShortPiecesFound(s, p);
    } else if |piece| < BUFSIZE {
      FirstBreakUnique(s, n);
      assert s[..n] == piece;
      if s != [] {
        ShortPiecesFound(s, p);
      }
    } else {
      assert s == piece + after && s[..BUFSIZE] == piece && s[BUFSIZE..] == after;
      var e := FirstBreak(s);
      if e < BUFSIZE {
        assert false;
      }
      LongPiecesFound(s, p);
    }
  }
}
