/** The string primitives the engine relies on: Python's whitespace test (used
    by `str.split()` and `str.strip()`), `str.upper()` restricted to ASCII,
    whitespace removal and trimming. */
module Text {

  /** The code points for which Python's `str.isspace()` holds. */
  predicate IsSpace(c: char)
  {
    || c == ' '
    || ('\t' <= c <= '\r')                    // tab, line feed, vertical tab, form feed, carriage return
    || ('\U{1C}' <= c <= '\U{1F}')            // file, group, record and unit separators
    || c == '\U{85}' || c == '\U{A0}' || c == '\U{1680}'
    || ('\U{2000}' <= c <= '\U{200A}')
    || c == '\U{2028}' || c == '\U{2029}' || c == '\U{202F}' || c == '\U{205F}' || c == '\U{3000}'
  }

  /** The ASCII blanks are whitespace, and no ASCII letter or digit is. */
  lemma SpaceIsNotAlphanumeric(c: char)
    ensures c in {' ', '\t', '\n', '\r', '\U{0B}', '\U{0C}'} ==> IsSpace(c)
    ensures IsSpace(c) ==> !('0' <= c <= '9' || 'A' <= c <= 'Z' || 'a' <= c <= 'z')
  {
  }

  /** Upper-casing of one character, ASCII letters only: no lower-case
      letter survives, a lower-case letter becomes the capital of the same
      letter, letters stay letters, whitespace stays whitespace, and every
      character that is not a lower-case letter is fixed. */
  function Upper(c: char): (u: char)
    ensures !('a' <= u <= 'z')
    ensures 'a' <= c <= 'z' ==> u as int - 'A' as int == c as int - 'a' as int
    ensures ('A' <= u <= 'Z') <==> ('A' <= c <= 'Z' || 'a' <= c <= 'z')
    ensures IsSpace(u) <==> IsSpace(c)
    ensures !('a' <= c <= 'z') ==> u == c
  {
    if 'a' <= c <= 'z' then (c as int - 32) as char else c
  }

  /** Upper-casing twice is upper-casing once. */
  lemma UpperIdempotent(c: char)
    ensures Upper(Upper(c)) == Upper(c)
  {
  }

  /** `s.upper()`: every character upper-cased in place, so the length is
      kept and no lower-case letter is left. */
  function UpperAll(s: string): (r: string)
    ensures |r| == |s|
    ensures forall i :: 0 <= i < |r| ==> !('a' <= r[i] <= 'z')
  {
    seq(|s|, i requires 0 <= i < |s| => Upper(s[i]))
  }

  /** Upper-casing a whole text twice is upper-casing it once. */
  lemma UpperAllIdempotent(s: string)
    ensures UpperAll(UpperAll(s)) == UpperAll(s)
  {
  }

  /** `"".join(s.split())`: the non-whitespace characters of s, in order. */
  function RemoveSpace(s: string): (r: string)
    ensures |r| <= |s|
    ensures forall i :: 0 <= i < |r| ==> !IsSpace(r[i])
  {
    if s == [] then []
    else if IsSpace(s[0]) then RemoveSpace(s[1..])
    else [s[0]] + RemoveSpace(s[1..])
  }

  /** What whitespace removal keeps: every character of s that is not
      whitespace, and nothing else. */
  lemma {:induction false} RemoveSpaceKeeps(s: string)
    ensures forall c :: c in RemoveSpace(s) <==> c in s && !IsSpace(c)
  {
    if s != [] {
      RemoveSpaceKeeps(s[1..]);
      assert forall c :: c in s <==> c == s[0] || c in s[1..];
    }
  }

  /** Whitespace removal works piece by piece: removing it from a + b is
      removing it from a, then from b, and joining the two in that order; a
      single character is dropped exactly when it is whitespace. Together
      these fix the order and the count of the kept characters. */
  lemma {:induction false} RemoveSpaceAppend(a: string, b: string)
    ensures RemoveSpace(a + b) == RemoveSpace(a) + RemoveSpace(b)
    ensures |a| == 1 ==> RemoveSpace(a) == if IsSpace(a[0]) then [] else a
  {
    if a == [] {
      assert a + b == b;
    } else {
      assert (a + b)[1..] == a[1..] + b;
      RemoveSpaceAppend(a[1..], b);
    }
  }

  /** Upper-casing works piece by piece too. */
  lemma UpperAllAppend(a: string, b: string)
    ensures UpperAll(a + b) == UpperAll(a) + UpperAll(b)
  {
  }

  /** Text without whitespace is kept whole. */
  lemma {:induction false} RemoveSpaceClean(s: string)
    requires forall i :: 0 <= i < |s| ==> !IsSpace(s[i])
    ensures RemoveSpace(s) == s
  {
    if s != [] {
      RemoveSpaceClean(s[1..]);
    }
  }

  /** Only all-whitespace text vanishes. */
  lemma {:induction false} RemoveSpaceBlank(s: string)
    ensures RemoveSpace(s) == [] <==> forall i :: 0 <= i < |s| ==> IsSpace(s[i])
  {
    if s != [] {
      RemoveSpaceBlank(s[1..]);
      assert (forall i :: 0 <= i < |s| ==> IsSpace(s[i])) <==>
        IsSpace(s[0]) && forall i :: 0 <= i < |s[1..]| ==> IsSpace(s[1..][i]);
    }
  }

  /** `s.lstrip()`: the suffix of s after its leading whitespace. */
  function StripLeft(s: string): (r: string)
    ensures |r| <= |s| && r == s[|s| - |r|..]
    ensures forall k :: 0 <= k < |s| - |r| ==> IsSpace(s[k])
    ensures r != [] ==> !IsSpace(r[0])
  {
    if s != [] && IsSpace(s[0]) then
      var r := StripLeft(s[1..]);
      assert s[1..][|s[1..]| - |r|..] == s[|s| - |r|..];
      r
    else s
  }

  /** `s.rstrip()`: the prefix of s before its trailing whitespace. */
  function StripRight(s: string): (r: string)
    ensures |r| <= |s| && r == s[..|r|]
    ensures forall k :: |r| <= k < |s| ==> IsSpace(s[k])
    ensures r != [] ==> !IsSpace(r[|r| - 1])
  {
    if s != [] && IsSpace(s[|s| - 1]) then StripRight(s[..|s| - 1]) else s
  }

  /** `s.strip()`: s without leading and trailing whitespace; what is left
      neither starts nor ends with whitespace. */
  function Strip(s: string): (r: string)
    ensures |r| <= |s|
    ensures r != [] ==> !IsSpace(r[0]) && !IsSpace(r[|r| - 1])
  {
    var left := StripLeft(s);
    var r := StripRight(left);
    assert r != [] ==> r[0] == left[0];
    r
  }

  /** rstrip of the suffix of s from i is a slice of s from i, and all of s
      after that slice is whitespace. */
  lemma StripRightOfSuffix(s: string, i: nat)
    requires i <= |s|
    ensures var r := StripRight(s[i..]);
      && i + |r| <= |s|
      && r == s[i..i + |r|]
      && (forall k :: i + |r| <= k < |s| ==> IsSpace(s[k]))
  {
    var left := s[i..];
    var r := StripRight(left);
    assert r == left[..|r|];
    forall k | i + |r| <= k < |s|
      ensures IsSpace(s[k])
    {
      assert s[k] == left[k - i];
    }
  }

  /** The stripped text is the slice of s after its i leading whitespace
      characters, and everything before and after that slice is whitespace. */
  lemma StripSlice(s: string) returns (i: nat)
    ensures i + |Strip(s)| <= |s|
    ensures Strip(s) == s[i..i + |Strip(s)|]
    ensures forall k :: 0 <= k < i ==> IsSpace(s[k])
    ensures forall k :: i + |Strip(s)| <= k < |s| ==> IsSpace(s[k])
  {
    var left := StripLeft(s);
    i := |s| - |left|;
    assert left == s[i..];
    assert Strip(s) == StripRight(s[i..]);
    StripRightOfSuffix(s, i);
  }

  /** Stripping leaves nothing exactly when s is all whitespace. */
  lemma StripBlank(s: string)
    ensures Strip(s) == [] <==> forall k :: 0 <= k < |s| ==> IsSpace(s[k])
  {
    var i := StripSlice(s);
    var r := Strip(s);
    if r != [] {
      assert s[i] == r[0];
    }
  }

  /** Text that neither starts nor ends with whitespace is its own strip. */
  lemma StripClean(s: string)
    requires s != [] && !IsSpace(s[0]) && !IsSpace(s[|s| - 1])
    ensures Strip(s) == s
  {
    assert StripLeft(s) == s;
  }
}
