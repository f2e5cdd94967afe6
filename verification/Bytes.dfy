/** Bytes, NUL-terminated strings and the two string routines the file system
    and `execute` depend on. */
module Bytes {
  type byte = x: int | 0 <= x < 256

  const NUL: byte := 0
  const NEWLINE: byte := 10

  /** The C string that starts a stretch of memory: the bytes before the first
      NUL, or all of them when there is none. */
  function CString(s: seq<byte>): (r: seq<byte>)
    ensures r <= s && NUL !in r
    ensures |r| < |s| ==> s[|r|] == NUL
  {
    if s == [] || s[0] == NUL then [] else [s[0]] + CString(s[1..])
  }

  /** The bytes before the first NUL are only that one string. */
  lemma CStringUnique(s: seq<byte>, r: seq<byte>)
    requires r <= s && NUL !in r && (|r| < |s| ==> s[|r|] == NUL)
    ensures CString(s) == r
  {
    var c := CString(s);
    if |c| < |r| {
      assert false;
    } else if |r| < |c| {
      assert false;
    }
  }

  function Min(a: int, b: int): int {
    if a <= b then a else b
  }

  /** At most `n` bytes of `s`. */
  function Upto(s: seq<byte>, n: nat): seq<byte> {
    s[..Min(n, |s|)]
  }

  /** A byte read as a signed character. */
  function Signed(b: byte): int {
    if b < 128 then b else b - 256
  }

  method Strlen(s: seq<byte>) returns (len: nat)
    requires NUL in s
    ensures len == |CString(s)|
  {
    len := 0;
    while s[len] != NUL
      invariant len < |s| && NUL !in s[..len] && NUL in s[len..]
      decreases |s| - len
    {
      len := len + 1;
    }
    CStringUnique(s, s[..len]);
  }

  /** Compares at most `n` characters. Both strings must be readable up to `n`
      bytes or their terminator. Zero exactly when the strings agree that far;
      otherwise the difference of the first characters that disagree. */
  method Strncmp(s1: seq<byte>, s2: seq<byte>, n: nat) returns (r: int)
    requires n <= |s1| || NUL in s1
    requires n <= |s2| || NUL in s2
    ensures r == 0 <==> Upto(CString(s1), n) == Upto(CString(s2), n)
    ensures r != 0 ==> exists k :: 0 <= k < n && k < |s1| && k < |s2|
                                   && s1[..k] == s2[..k] && r == Signed(s1[k]) - Signed(s2[k])
  {
    var i := 0;
    while i < n
      invariant i <= n && i <= |s1| && i <= |s2|
      invariant s1[..i] == s2[..i] && NUL !in s1[..i]
    {
      InBounds(s1, i, n);
      InBounds(s2, i, n);
      PrefixInString(s1, i);
      PrefixInString(s2, i);
      if s1[i] != s2[i] || s1[i] == NUL {
        r := Signed(s1[i]) - Signed(s2[i]);
        Decided(s1, s2, i, n);
        return;
      }
      assert s1[..i + 1] == s1[..i] + [s1[i]];
      assert s2[..i + 1] == s2[..i] + [s2[i]];
      i := i + 1;
    }
    PrefixInString(s1, n);
    PrefixInString(s2, n);
    return 0;
  }

  lemma InBounds(s: seq<byte>, i: nat, n: nat)
    requires i < n && i <= |s| && NUL !in s[..i]
    requires n <= |s| || NUL in s
    ensures i < |s|
  {
    if i == |s| {
      assert false;
    }
  }

  lemma PrefixInString(s: seq<byte>, i: nat)
    requires i <= |s| && NUL !in s[..i]
    ensures i <= |CString(s)| && CString(s)[..i] == s[..i]
  {
    var c := CString(s);
    if |c| < i {
      assert false;
    }
  }

  lemma Decided(s1: seq<byte>, s2: seq<byte>, i: nat, n: nat)
    requires i < n && i < |s1| && i < |s2|
    requires s1[..i] == s2[..i] && NUL !in s1[..i]
    requires s1[i] != s2[i] || s1[i] == NUL
    ensures s1[i] == s2[i] <==> Upto(CString(s1), n) == Upto(CString(s2), n)
  {
    PrefixInString(s1, i);
    PrefixInString(s2, i);
    if s1[i] == s2[i] {
      CStringUnique(s1, s1[..i]);
      CStringUnique(s2, s2[..i]);
    } else if s1[i] == NUL {
      CStringUnique(s1, s1[..i]);
      CharAt(s2, i);
      assert |Upto(CString(s2), n)| > i;
    } else if s2[i] == NUL {
      CStringUnique(s2, s2[..i]);
      CharAt(s1, i);
      assert |Upto(CString(s1), n)| > i;
    } else {
      CharAt(s1, i);
      CharAt(s2, i);
      assert Upto(CString(s1), n)[i] != Upto(CString(s2), n)[i];
    }
  }

  lemma CharAt(s: seq<byte>, i: nat)
    requires i < |s| && NUL !in s[..i] && s[i] != NUL
    ensures i < |CString(s)| && CString(s)[i] == s[i]
  {
    assert s[..i + 1] == s[..i] + [s[i]];
    PrefixInString(s, i + 1);
  }
}
