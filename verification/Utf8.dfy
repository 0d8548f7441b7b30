/** Finding character boundaries in UTF-8 text (`mbutil.c`). */
module Utf8 {
  import opened Bytes

  // ----- Section 4 of RFC 3629 -----

  predicate IsTail(b: Byte) { 0x80 <= b <= 0xBF }

  /** The encodings of one character. */
  predicate IsChar(c: seq<Byte>)
  {
    || (|c| == 1 && c[0] <= 0x7F)
    || (|c| == 2 && 0xC2 <= c[0] <= 0xDF && IsTail(c[1]))
    || (|c| == 3 && IsTail(c[2]) && SecondOfThree(c[0], c[1]))
    || (|c| == 4 && IsTail(c[2]) && IsTail(c[3]) && SecondOfFour(c[0], c[1]))
  }

  predicate SecondOfThree(a: Byte, b: Byte)
  {
    || (a == 0xE0 && 0xA0 <= b <= 0xBF)
    || ((0xE1 <= a <= 0xEC || 0xEE <= a <= 0xEF) && IsTail(b))
    || (a == 0xED && 0x80 <= b <= 0x9F)
  }

  predicate SecondOfFour(a: Byte, b: Byte)
  {
    || (a == 0xF0 && 0x90 <= b <= 0xBF)
    || (0xF1 <= a <= 0xF3 && IsTail(b))
    || (a == 0xF4 && 0x80 <= b <= 0x8F)
  }

  /** The length of the character at `i`, 0 if there is none. */
  function CharLen(s: seq<Byte>, i: nat): (n: nat)
    requires i < |s|
    ensures n <= 4 && i + n <= |s| && (n > 0 ==> IsChar(s[i..i + n]))
  {
    if IsChar(s[i..i + 1]) then 1
    else if i + 2 <= |s| && IsChar(s[i..i + 2]) then 2
    else if i + 3 <= |s| && IsChar(s[i..i + 3]) then 3
    else if i + 4 <= |s| && IsChar(s[i..i + 4]) then 4
    else 0
  }

  predicate WellFormed(s: seq<Byte>, i: nat)
    requires i <= |s|
    decreases |s| - i
  {
    i == |s| || (CharLen(s, i) > 0 && WellFormed(s, i + CharLen(s, i)))
  }

  /** The first byte of a character is never a tail byte, the others always are. */
  lemma Shape(s: seq<Byte>, i: nat, j: nat)
    requires i < |s| && i <= j < i + CharLen(s, i)
    ensures IsTail(s[j]) <==> j > i
    ensures CharLen(s, i) > 1 ==> s[i] >= 0xC0
    ensures CharLen(s, i) == 1 ==> s[i] < 0x80
  {
    var n := CharLen(s, i);
    assert s[i..i + n][j - i] == s[j] && s[i..i + n][0] == s[i];
  }

  // ----- The two scans -----

  /** The next position of the forward scan; a byte that starts no character stands for itself. */
  function Next(s: seq<Byte>, point: nat): (n: nat)
    requires point < |s|
    ensures point < n <= |s|
  {
    if CharLen(s, point) == 0 then point + 1 else point + CharLen(s, point)
  }

  /** The start of the last character that begins before `seed`, looking from `point` on. */
  function StartBefore(s: seq<Byte>, point: nat, seed: nat, prev: nat): (p: nat)
    requires point <= |s| && seed <= |s|
    decreases |s| - point
  {
    if point >= seed then prev else StartBefore(s, Next(s, point), seed, point)
  }

  /** `seed` lies in or just after the character that starts at `p`. */
  lemma {:induction false} StartBeforeIs(s: seq<Byte>, point: nat, seed: nat, prev: nat)
    requires point < seed <= |s| && WellFormed(s, point)
    ensures var p := StartBefore(s, point, seed, prev); point <= p < seed <= p + CharLen(s, p)
    decreases |s| - point
  {
    var next := point + CharLen(s, point);
    if next < seed {
      StartBeforeIs(s, next, seed, point);
    }
  }

  /** Bytes that start no character count as one each. */
  lemma {:induction false} IllFormedBytes(s: seq<Byte>, point: nat, seed: nat, prev: nat)
    requires point < seed <= |s| && forall j :: point <= j < seed ==> CharLen(s, j) == 0
    ensures StartBefore(s, point, seed, prev) == seed - 1
    decreases seed - point
  {
    if point + 1 < seed {
      IllFormedBytes(s, point + 1, seed, point);
    }
  }

  /** The forward scan of `_rl_find_prev_mbchar_internal`. */
  method FindPrevForward(s: seq<Byte>, seed: int) returns (prev: nat)
    requires 0 !in s
    ensures seed < 0 ==> prev == 0
    ensures seed > |s| ==> prev == |s|
    ensures 0 <= seed <= |s| ==> prev == StartBefore(s, 0, seed, 0)
  {
    if seed < 0 {
      return 0;
    } else if |s| < seed {
      return |s|;
    }
    prev := 0;
    var point := 0;
    while point < seed
      invariant 0 <= point <= |s| && StartBefore(s, point, seed, prev) == StartBefore(s, 0, seed, 0)
      decreases |s| - point
    {
      var tmp := CharLen(s, point);
      if tmp == 0 {
        tmp := 1;
      }
      prev := point;
      point := point + tmp;
    }
  }

  predicate SingleByte(b: Byte) { b < 0x80 }
  predicate FirstOfMany(b: Byte) { b >= 0xC0 }

  /** The loop that moves back over tail bytes. */
  method SkipTails(s: seq<Byte>, start: nat) returns (prev: nat, b: Byte)
    requires start < |s| && 0 !in s
    ensures prev <= start && b == s[prev] && (prev == 0 || !IsTail(b))
    ensures forall j :: prev < j <= start ==> IsTail(s[j])
  {
    prev := start;
    b := s[prev];
    while prev > 0 && IsTail(b)
      invariant prev <= start && b == s[prev] && forall j :: prev < j <= start ==> IsTail(s[j])
    {
      prev := prev - 1;
      b := s[prev];
    }
  }

  /** `_rl_find_prev_utf8char` without zero-width filtering: on every well-formed string and for
      every position, also inside a character, it finds what the forward scan finds. */
  method FindPrevUtf8Char(s: seq<Byte>, seed: int) returns (r: nat)
    requires 0 !in s && seed <= |s|
    ensures seed <= 0 ==> r == 0
    ensures seed > 0 ==> r < seed
    ensures seed >= 0 && WellFormed(s, 0) ==> r == StartBefore(s, 0, seed, 0)
  {
    var prev := seed - 1;
    if prev < 0 {
      return 0;
    }
    var b := s[prev];
    if WellFormed(s, 0) {
      BackToStart(s, seed);
    }
    if SingleByte(b) {
      return prev;
    }
    var save := prev;
    if IsTail(b) {
      prev, b := SkipTails(s, prev);
    }
    if FirstOfMany(b) {
      return prev;
    }
    return save;
  }

  /** In a well-formed string the character before `seed` starts at the last byte that is no tail. */
  lemma BackToStart(s: seq<Byte>, seed: nat)
    requires 0 < seed <= |s| && WellFormed(s, 0)
    ensures var p := StartBefore(s, 0, seed, 0);
            && p < seed && !IsTail(s[p]) && (forall j :: p < j < seed ==> IsTail(s[j]))
            && (p < seed - 1 ==> FirstOfMany(s[p]))
  {
    var p := StartBefore(s, 0, seed, 0);
    StartBeforeIs(s, 0, seed, 0);
    forall j | p <= j < seed ensures IsTail(s[j]) <==> j > p { Shape(s, p, j); }
    Shape(s, p, p);
  }

  // ----- The length of a character -----

  /** `_rl_utf8_mblen` on `|s|` available bytes: a length, -1 for no character, -2 for the start of one. */
  function Mblen(s: seq<Byte>): (n: int)
  {
    if s == [] then -1
    else if s[0] < 0x80 then (if s[0] != 0 then 1 else 0)
    else if s[0] < 0xC2 then -1
    else if s[0] < 0xE0 then
      if |s| == 1 then -2 else if IsTail(s[1]) then 2 else -1
    else if s[0] < 0xF0 then
      if |s| == 1 then -2
      else if IsTail(s[1]) && (s[0] >= 0xE1 || s[1] >= 0xA0) && (s[0] != 0xED || s[1] < 0xA0) then
        if |s| == 2 then -2 else if IsTail(s[2]) then 3 else -1
      else -1
    else if s[0] < 0xF4 then
      if |s| == 1 then -2
      else if IsTail(s[1]) && (s[0] >= 0xF1 || s[1] >= 0x90) then
        if |s| == 2 then -2
        else if IsTail(s[2]) then
          if |s| == 3 then -2 else if IsTail(s[3]) then 4 else -1
        else -1
      else -1
    else -1
  }

  /** A well-formed character that is not complete. */
  ghost predicate Incomplete(s: seq<Byte>)
  {
    s != [] && exists t: seq<Byte> :: t != [] && IsChar(s + t)
  }

  /** Some way to complete what starts a character. */
  function Completion(s: seq<Byte>): (t: seq<Byte>)
    requires s != []
  {
    if |s| == 1 then
      if s[0] < 0xE0 then [0x80]
      else if s[0] < 0xF0 then [if s[0] == 0xE0 then 0xA0 else 0x80, 0x80]
      else [if s[0] == 0xF0 then 0x90 else 0x80, 0x80, 0x80]
    else if |s| == 2 then if s[0] < 0xF0 then [0x80] else [0x80, 0x80]
    else [0x80]
  }

  /** The length is that of the character at the start of `s`, unless its first byte is F4: the
      code takes the characters from U+100000 on to be invalid, and only those. */
  lemma MblenIsLength(s: seq<Byte>, k: nat)
    requires s != [] && s[0] != 0 && 0 < k <= |s|
    ensures Mblen(s) == k <==> IsChar(s[..k]) && s[0] != 0xF4
  {
    var c := s[..k];
    assert c[0] == s[0];
    assert forall j :: 0 <= j < k ==> c[j] == s[j];
  }

  lemma MblenSeesStart(s: seq<Byte>)
    ensures Mblen(s) == -2 <==> Incomplete(s) && s[0] != 0xF4
  {
    if Mblen(s) == -2 {
      assert IsChar(s + Completion(s));
    }
    if Incomplete(s) && s[0] != 0xF4 {
      var t: seq<Byte> :| t != [] && IsChar(s + t);
      var c := s + t;
      assert forall j :: 0 <= j < |s| ==> c[j] == s[j];
      assert |s| < |c| <= 4;
    }
  }
}
