/** Numbers as text: `itoa`, which writes the digits backwards and then turns
    them around in place, and the `%#x` and `%d` conversions of `printf`. */
module Numbers {
  import opened Bytes
  import opened Division

  const WORD: int := 0x1_0000_0000
  const ZERO: byte := 48
  const MINUS: byte := 45

  // ------------------------------------------------------------------
  // Numerals
  // ------------------------------------------------------------------

  /** The character for a digit: 0 to 9, then A to Z. */
  function Digit(d: nat): (c: byte)
    requires d < 36
    ensures DigitValue(c) == d && (c == ZERO <==> d == 0) && c != NUL && c != MINUS
  {
    if d < 10 then 48 + d else 55 + d
  }

  function DigitValue(c: byte): int {
    if 48 <= c <= 57 then c - 48
    else if 65 <= c <= 90 then c - 55
    else -1
  }

  predicate IsNumber(s: seq<byte>, radix: nat) {
    s != [] && forall k :: 0 <= k < |s| ==> 0 <= DigitValue(s[k]) < radix
  }

  /** The number that a string of digits denotes. */
  function Parse(s: seq<byte>, radix: nat): int {
    if s == [] then 0 else Joined(radix, Parse(s[..|s| - 1], radix), DigitValue(s[|s| - 1]))
  }

  /** A number without leading zeros. */
  predicate IsCanonical(s: seq<byte>, radix: nat) {
    IsNumber(s, radix) && (s[0] == ZERO ==> |s| == 1)
  }

  /** The digits of a number, the most significant first. */
  function Numeral(value: nat, radix: nat): (s: seq<byte>)
    requires 2 <= radix <= 36
    decreases value
  {
    if value < radix then [Digit(value)]
    else Numeral(value / radix, radix) + [Digit(value % radix)]
  }

  /** One digit more at the end of a number. */
  lemma AppendDigit(s: seq<byte>, c: byte, radix: nat)
    ensures Parse(s + [c], radix) == Joined(radix, Parse(s, radix), DigitValue(c))
    ensures Parse([], radix) == 0 && Parse(s + [c], radix) == radix * Parse(s, radix) + DigitValue(c)
    ensures IsNumber(s, radix) && 0 <= DigitValue(c) < radix ==> IsNumber(s + [c], radix)
  {
    assert (s + [c])[..|s|] == s;
  }

  /** The digits are the characters 0 to 9 and A to Z. */
  lemma DigitCharacters(d: nat)
    requires d < 36
    ensures d < 10 ==> Digit(d) == '0' as int + d
    ensures d >= 10 ==> Digit(d) == 'A' as int + (d - 10)
  {
  }

  /** For one, 2748 is "ABC" in hexadecimal and "2748" in decimal. */
  lemma NumeralExamples()
    ensures Numeral(2748, 16) == [65, 66, 67] && Numeral(2748, 10) == [50, 55, 52, 56]
  {
    assert Numeral(171, 16) == [65, 66];
    assert Numeral(27, 10) == [50, 55] && Numeral(274, 10) == [50, 55, 52];
  }

  lemma NumeralSplits(value: nat, radix: nat)
    requires 2 <= radix <= 36 && value >= radix
    ensures 0 < value / radix < value && Joined(radix, value / radix, value % radix) == value
    ensures 0 <= value % radix < radix
    ensures Numeral(value, radix) == Numeral(value / radix, radix) + [Digit(value % radix)]
  {
    Shrinks(value, radix);
  }

  lemma OneDigit(c: byte, radix: nat)
    ensures Parse([c], radix) == DigitValue(c)
  {
    assert Parse([c][..0], radix) == 0;
  }

  /** A numeral denotes its number and has no leading zero. */
  lemma {:induction false} NumeralParses(value: nat, radix: nat)
    requires 2 <= radix <= 36
    ensures IsCanonical(Numeral(value, radix), radix)
    ensures Parse(Numeral(value, radix), radix) == value
    ensures Numeral(value, radix)[0] == ZERO <==> value == 0
    decreases value
  {
    hide Joined, Parse, DigitValue;
    if value < radix {
      OneDigit(Digit(value), radix);
    } else {
      NumeralSplits(value, radix);
      NumeralParses(value / radix, radix);
      AppendDigit(Numeral(value / radix, radix), Digit(value % radix), radix);
    }
  }

  lemma SameDigit(c: byte)
    requires 0 <= DigitValue(c) < 36
    ensures Digit(DigitValue(c)) == c
  {
  }

  /** No other string without leading zeros denotes the number. */
  lemma {:induction false} NumeralIsUnique(s: seq<byte>, radix: nat)
    requires 2 <= radix <= 36 && IsCanonical(s, radix)
    ensures Parse(s, radix) >= 0 && Numeral(Parse(s, radix), radix) == s
  {
    hide Joined, Parse, DigitValue;
    var n := |s| - 1;
    var front, c := s[..n], s[n];
    SameDigit(c);
    assert s == front + [c];
    if front == [] {
      OneDigit(c, radix);
    } else {
      assert s[0] == front[0];
      NumeralIsUnique(front, radix);
      var high := Parse(front, radix);
      NumeralParses(high, radix);
      hide Numeral;
      AppendDigit(front, c, radix);
      NumeralStep(high, DigitValue(c), radix);
    }
  }

  lemma NumeralStep(high: nat, low: nat, radix: nat)
    requires 2 <= radix <= 36 && low < radix && high > 0
    ensures Joined(radix, high, low) >= 0
    ensures Numeral(Joined(radix, high, low), radix) == Numeral(high, radix) + [Digit(low)]
  {
    QuotientOf(high, low, radix);
  }

  function Power(radix: nat, k: nat): nat {
    if k == 0 then 1 else radix * Power(radix, k - 1)
  }

  /** A number below radix^k has at most k digits. */
  lemma {:induction false} NumeralWidth(value: nat, radix: nat, k: nat)
    requires 2 <= radix <= 36 && 1 <= k && value < Power(radix, k)
    ensures |Numeral(value, radix)| <= k
  {
    if value >= radix {
      Fewer(value, radix, Power(radix, k - 1));
      Shrinks(value, radix);
      NumeralWidth(value / radix, radix, k - 1);
    }
  }

  /** Zeros in front do not change the value. */
  lemma {:induction false} ZerosInFront(s: seq<byte>, n: nat, radix: nat)
    ensures Parse(seq(n, _ => ZERO) + s, radix) == Parse(s, radix)
    decreases |s|, n
  {
    var zeros := seq(n, _ => ZERO);
    var t := zeros + s;
    if s != [] {
      assert t[..|t| - 1] == zeros + s[..|s| - 1];
      ZerosInFront(s[..|s| - 1], n, radix);
    } else if n > 0 {
      assert t[..|t| - 1] == seq(n - 1, _ => ZERO) + s;
      ZerosInFront(s, n - 1, radix);
      assert Parse(t[..|t| - 1], radix) == 0;
    }
  }

  // ------------------------------------------------------------------
  // strrev
  // ------------------------------------------------------------------

  function Reverse(s: seq<byte>): (r: seq<byte>)
    ensures |r| == |s| && forall k :: 0 <= k < |s| ==> r[k] == s[|s| - 1 - k]
  {
    seq(|s|, k requires 0 <= k < |s| => s[|s| - 1 - k])
  }

  lemma ReverseTwice(s: seq<byte>)
    ensures Reverse(Reverse(s)) == s
  {
  }

  /** `b` is `was` with the bytes `s` written at `at`. */
  ghost predicate Placed(b: seq<byte>, was: seq<byte>, at: nat, s: seq<byte>) {
    && |b| == |was| && at + |s| <= |b|
    && (forall k :: 0 <= k < |s| ==> b[at + k] == s[k])
    && (forall k :: 0 <= k < |b| && !(at <= k < at + |s|) ==> b[k] == was[k])
  }

  /** A string without a NUL of its own, written with its terminator. */
  lemma PlacedString(b: seq<byte>, was: seq<byte>, at: nat, s: seq<byte>)
    requires Placed(b, was, at, s + [NUL]) && NUL !in s
    ensures b[at..at + |s|] == s && b[at + |s|] == NUL
    ensures forall k :: at <= k < at + |s| ==> b[k] != NUL
  {
    assert (s + [NUL])[|s|] == NUL;
    assert forall k :: 0 <= k < |s| ==> b[at + k] == (s + [NUL])[k] == s[k];
    assert forall k :: at <= k < at + |s| ==> b[k] == s[k - at];
  }

  lemma PlacedNext(b: seq<byte>, was: seq<byte>, at: nat, s: seq<byte>, c: byte)
    requires Placed(b, was, at, s) && at + |s| < |b|
    ensures Placed(b[at + |s| := c], was, at, s + [c])
  {
  }

  lemma PlacedOver(b: seq<byte>, mid: seq<byte>, was: seq<byte>, at: nat, s: seq<byte>, t: seq<byte>, c: byte)
    requires Placed(mid, was, at, s + [c]) && Placed(b, mid, at, t) && |t| == |s|
    ensures Placed(b, was, at, t + [c])
  {
    assert (s + [c])[|s|] == c;
  }

  /** The string at `buf[at..]` is terminated at `end`. */
  predicate Terminated(buf: array<byte>, at: nat, end: nat)
    reads buf
  {
    at <= end < buf.Length && buf[end] == NUL && forall k :: at <= k < end ==> buf[k] != NUL
  }

  method StrlenAt(buf: array<byte>, at: nat, ghost end: nat) returns (len: int)
    requires Terminated(buf, at, end)
    ensures len == end - at
  {
    len := 0;
    while buf[at + len] != NUL
      invariant 0 <= len <= end - at
      decreases end - at - len
    {
      len := len + 1;
    }
  }

  lemma TurnedAround(b: seq<byte>, was: seq<byte>, at: nat, s: seq<byte>)
    requires |b| == |was| && at + |s| <= |b|
    requires forall k :: 0 <= k < |s| ==> s[k] == was[at + k]
    requires forall j :: at <= j < at + |s| ==> b[j] == was[2 * at + |s| - 1 - j]
    requires forall j :: 0 <= j < at || at + |s| <= j < |b| ==> b[j] == was[j]
    ensures Placed(b, was, at, Reverse(s))
  {
    forall k | 0 <= k < |s|
      ensures b[at + k] == Reverse(s)[k]
    {
      assert was[at + (|s| - 1 - k)] == s[|s| - 1 - k];
    }
  }

  /** Swaps the ends, then what lies between them. */
  method SwapEnds(buf: array<byte>, at: nat, len: nat)
    requires at + len <= buf.Length
    modifies buf
    ensures forall j :: at <= j < at + len ==> buf[j] == old(buf[2 * at + len - 1 - j])
    ensures forall j :: 0 <= j < at || at + len <= j < buf.Length ==> buf[j] == old(buf[j])
  {
    var beg: int, end: int := 0, len as int - 1;
    while beg < end
      invariant 0 <= beg <= end + 2 && beg + end == len - 1 && end < len
      invariant forall j :: at <= j < at + beg || at + end < j < at + len ==> buf[j] == old(buf[2 * at + len - 1 - j])
      invariant forall j :: at + beg <= j <= at + end ==> buf[j] == old(buf[j])
      invariant forall j :: 0 <= j < at || at + len <= j < buf.Length ==> buf[j] == old(buf[j])
    {
      var tmp := buf[at + end];
      buf[at + end] := buf[at + beg];
      buf[at + beg] := tmp;
      beg := beg + 1;
      end := end - 1;
    }
  }

  method Strrev(buf: array<byte>, at: nat, ghost end: nat)
    requires Terminated(buf, at, end)
    modifies buf
    ensures Placed(buf[..], old(buf[..]), at, Reverse(old(buf[at..end])))
  {
    hide Placed, Reverse;
    ghost var was := buf[..];
    var len := StrlenAt(buf, at, end);
    SwapEnds(buf, at, len);
    TurnedAround(buf[..], was, at, was[at..end]);
  }

  // ------------------------------------------------------------------
  // itoa
  // ------------------------------------------------------------------

  /** The digits still to be written; none when nothing is left. */
  function Rest(value: nat, radix: nat): seq<byte>
    requires 2 <= radix <= 36
  {
    if value == 0 then [] else Numeral(value, radix)
  }

  lemma RestStep(value: nat, radix: nat, done: seq<byte>)
    requires 2 <= radix <= 36 && value > 0
    ensures 0 <= value / radix < value
    ensures Rest(value, radix) + Reverse(done) ==
            Rest(value / radix, radix) + Reverse(done + [Digit(value % radix)])
    ensures |Rest(value / radix, radix)| == |Rest(value, radix)| - 1
  {
    Shrinks(value, radix);
    var d := Digit(value % radix);
    assert Reverse(done + [d]) == [d] + Reverse(done);
    assert Rest(value, radix) == Rest(value / radix, radix) + [d];
  }

  /** Writes the digits, the least significant first. */
  method WriteDigits(value: nat, buf: array<byte>, at: nat, radix: nat) returns (n: nat)
    requires 0 < value < WORD && 2 <= radix <= 36
    requires at + |Numeral(value, radix)| < buf.Length
    modifies buf
    ensures n == |Numeral(value, radix)|
    ensures Placed(buf[..], old(buf[..]), at, Reverse(Numeral(value, radix)))
  {
    hide Numeral, Reverse;
    ghost var was, done := buf[..], [];
    ghost var numeral := Numeral(value, radix);
    var newval: nat := value;
    n := 0;
    while newval > 0
      invariant n == |done| && n + |Rest(newval, radix)| == |numeral|
      invariant Rest(newval, radix) + Reverse(done) == numeral
      invariant Placed(buf[..], was, at, done)
      decreases newval
    {
      RestStep(newval, radix, done);
      var i := newval % radix;
      PlacedNext(buf[..], was, at, done, Digit(i));
      ghost var b := buf[..];
      buf[at + n] := Digit(i);
      assert buf[..] == b[at + n := Digit(i)];
      done := done + [Digit(i)];
      n := n + 1;
      newval := newval / radix;
    }
    assert Rest(newval, radix) == [];
    ReverseTwice(done);
  }

  /** Writes the numeral and its terminator at `buf[at..]`. */
  method Itoa(value: nat, buf: array<byte>, at: nat, radix: nat) returns (ghost end: nat)
    requires value < WORD && 2 <= radix <= 36
    requires at + |Numeral(value, radix)| < buf.Length
    modifies buf
    ensures Terminated(buf, at, end) && buf[at..end] == Numeral(value, radix)
    ensures forall k :: 0 <= k < at || end < k < buf.Length ==> buf[k] == old(buf[k])
  {
    ghost var was := buf[..];
    ghost var numeral := Numeral(value, radix);
    NumeralHasNoNul(value, radix);
    end := at + |numeral|;
    if value == 0 {
      buf[at] := ZERO;
      buf[at + 1] := NUL;
      return;
    }
    hide Numeral, Reverse, Placed;
    var n := WriteDigits(value, buf, at, radix);
    ghost var digits := buf[..];
    buf[at + n] := NUL;
    ghost var mid := buf[..];
    TurnBack(mid, digits, was, at, numeral);
    Strrev(buf, at, end);
    PlacedOver(buf[..], mid, was, at, Reverse(numeral), numeral, NUL);
    PlacedString(buf[..], was, at, numeral);
    assert buf[..][at..end] == buf[at..end];
    PlacedElsewhere(buf[..], was, at, numeral + [NUL]);
  }

  lemma PlacedElsewhere(b: seq<byte>, was: seq<byte>, at: nat, s: seq<byte>)
    requires Placed(b, was, at, s)
    ensures |b| == |was| && forall k :: 0 <= k < at || at + |s| <= k < |b| ==> b[k] == was[k]
  {
  }

  /** The digits as written, with their terminator, are the numeral reversed. */
  lemma TurnBack(mid: seq<byte>, digits: seq<byte>, was: seq<byte>, at: nat, s: seq<byte>)
    requires Placed(digits, was, at, Reverse(s)) && NUL !in Reverse(s)
    requires at + |s| < |digits| && mid == digits[at + |s| := NUL]
    ensures Placed(mid, was, at, Reverse(s) + [NUL])
    ensures Reverse(mid[at..at + |s|]) == s
    ensures mid[at + |s|] == NUL && forall k :: at <= k < at + |s| ==> mid[k] != NUL
  {
    hide Placed;
    PlacedNext(digits, was, at, Reverse(s), NUL);
    PlacedString(mid, was, at, Reverse(s));
    ReverseTwice(s);
  }

  lemma NumeralHasNoNul(value: nat, radix: nat)
    requires 2 <= radix <= 36
    ensures NUL !in Numeral(value, radix) && NUL !in Reverse(Numeral(value, radix))
  {
    NumeralParses(value, radix);
    var s := Numeral(value, radix);
    assert forall k :: 0 <= k < |s| ==> s[k] != NUL;
  }

  // ------------------------------------------------------------------
  // printf
  // ------------------------------------------------------------------

  lemma HexWidth(value: nat)
    requires value < WORD
    ensures |Numeral(value, 16)| <= 8
  {
    assert Power(16, 4) == 0x1_0000 && Power(16, 8) == WORD;
    NumeralWidth(value, 16, 8);
  }

  lemma DecimalWidth(value: nat)
    requires value < WORD
    ensures |Numeral(value, 10)| <= 10
  {
    assert Power(10, 5) == 100_000 && Power(10, 10) == 10_000_000_000;
    NumeralWidth(value, 10, 10);
  }

  /** `%#x`: exactly eight digits of the same value. */
  method PrintAlternateHex(value: nat) returns (text: seq<byte>)
    requires value < WORD
    ensures |text| == 8 && IsNumber(text, 16) && Parse(text, 16) == value
  {
    ghost var s := Numeral(value, 16);
    HexWidth(value);
    NumeralParses(value, 16);
    hide Numeral, Parse, IsCanonical, IsNumber;
    var convBuf := new byte[64];
    ghost var end := Itoa(value, convBuf, 8, 16);
    var startingIndex := StrlenAt(convBuf, 8, end);
    label converted:
    var i := startingIndex;
    while i < 8
      invariant startingIndex <= i <= 8
      invariant forall k :: startingIndex <= k < i ==> convBuf[k] == ZERO
      invariant forall k :: 8 <= k < convBuf.Length ==> convBuf[k] == old@converted(convBuf[k])
    {
      convBuf[i] := ZERO;
      i := i + 1;
    }
    assert forall k :: 8 <= k <= end ==> convBuf[k] == old@converted(convBuf[k]);
    text := PutsFrom(convBuf, startingIndex, end);
    assert convBuf[8..end] == s;
    assert text[8 - startingIndex..] == s;
    Padded(text, s, 8 - startingIndex);
  }

  lemma Padded(text: seq<byte>, s: seq<byte>, n: nat)
    requires n <= |text| && (forall k :: 0 <= k < n ==> text[k] == ZERO) && text[n..] == s && IsCanonical(s, 16)
    ensures IsNumber(text, 16) && Parse(text, 16) == Parse(s, 16)
  {
    hide Parse;
    assert text == seq(n, _ => ZERO) + s;
    ZerosInFront(s, n, 16);
    assert forall k :: n <= k < |text| ==> text[k] == s[k - n];
  }

  /** Writes the string at `buf[start..]`. */
  method PutsFrom(buf: array<byte>, start: nat, ghost end: nat) returns (text: seq<byte>)
    requires Terminated(buf, start, end)
    ensures text == buf[start..end]
  {
    text := [];
    var i := start;
    while buf[i] != NUL
      invariant start <= i <= end && text == buf[start..i]
      decreases end - i
    {
      text := text + [buf[i]];
      i := i + 1;
    }
  }

  /** The number that a decimal string with an optional sign denotes. */
  function ParseSigned(s: seq<byte>): int {
    if s != [] && s[0] == MINUS then -Parse(s[1..], 10) else Parse(s, 10)
  }

  lemma ReadsAs(value: int, s: seq<byte>, text: seq<byte>)
    requires IsCanonical(s, 10) && Parse(s, 10) == (if value < 0 then -value else value)
    requires if value < 0 then text != [] && text[0] == MINUS && text[1..] == s else text == s
    ensures ParseSigned(text) == value
    ensures value < 0 ==> |text| > 1 && text[0] == MINUS && IsCanonical(text[1..], 10)
    ensures value >= 0 ==> IsCanonical(text, 10)
  {
    hide Parse;
    if value >= 0 {
      assert DigitValue(MINUS) == -1;
    }
  }

  /** A number passed as an unsigned word. */
  function Unsigned(value: int): (r: int)
    ensures 0 <= r < WORD
  {
    value % WORD
  }

  lemma UnsignedFits(value: int)
    ensures 0 <= value < WORD ==> Unsigned(value) == value
  {
  }

  /** `%d`: reads back as the same value, the least one included, whose negation
      does not fit a signed word. */
  method PrintDecimal(value: int) returns (text: seq<byte>)
    requires -0x8000_0000 <= value < 0x8000_0000
    ensures ParseSigned(text) == value
    ensures value < 0 ==> |text| > 1 && text[0] == MINUS && IsCanonical(text[1..], 10)
    ensures value >= 0 ==> IsCanonical(text, 10)
  {
    var convBuf := new byte[36];
    var at: nat, magnitude: int := 0, value;
    if value < 0 {
      convBuf[0] := MINUS;
      at, magnitude := 1, Unsigned(-value);
    }
    UnsignedFits(-value);
    hide Unsigned;
    ghost var s := Numeral(magnitude, 10);
    DecimalWidth(magnitude);
    NumeralParses(magnitude, 10);
    hide Numeral, Parse, IsCanonical, ParseSigned;
    ghost var end := Itoa(magnitude, convBuf, at, 10);
    text := PutsFrom(convBuf, 0, end);
    assert text[at..] == s;
    assert text[0..] == text;
    ReadsAs(value, s, text);
  }
}
