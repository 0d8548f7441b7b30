/** The `:s/old/new/` and `:gs/old/new/` modifiers of `histexpand.c`. */
module Substitution {

  predicate OccursAt(t: string, p: string, i: nat)
  {
    i + |p| <= |t| && t[i..i + |p|] == p
  }

  ghost predicate Absent(t: string, p: string)
  {
    forall i: nat :: !OccursAt(t, p, i)
  }

  /** A text taken apart at some occurrences of a pattern: what lies before each, and the end. */
  datatype Pieces = Rest(text: string) | Gap(before: string, after: Pieces)

  /** The text with `x` wherever it was taken apart. */
  function Glue(g: Pieces, x: string): (t: string)
  {
    match g
    case Rest(text) => text
    case Gap(before, after) => before + (x + Glue(after, x))
  }

  /** Taken apart from left to right without overlap, at the first occurrence every time. */
  ghost predicate Leftmost(g: Pieces, p: string)
  {
    match g
    case Rest(text) => Absent(text, p)
    case Gap(before, after) =>
      (forall j :: 0 <= j < |before| ==> !OccursAt(before + p, p, j)) && Leftmost(after, p)
  }

  /** The first occurrence at `i` or later, or -1. */
  function FindFrom(t: string, p: string, i: nat): (k: int)
    ensures -1 <= k && (k >= 0 ==> i <= k && k + |p| <= |t|)
    decreases |t| - i
  {
    if i + |p| > |t| then -1 else if OccursAt(t, p, i) then i else FindFrom(t, p, i + 1)
  }

  lemma {:induction false} FindFromIsFirst(t: string, p: string, i: nat)
    ensures var k := FindFrom(t, p, i);
            && (k >= 0 ==> OccursAt(t, p, k))
            && (forall j :: i <= j && OccursAt(t, p, j) ==> 0 <= k <= j)
    decreases |t| - i
  {
    if i + |p| <= |t| && !OccursAt(t, p, i) {
      FindFromIsFirst(t, p, i + 1);
    }
  }

  /** The text from `i` on, taken apart. */
  function SplitFrom(t: string, p: string, i: nat): (g: Pieces)
    requires p != "" && i <= |t|
    decreases |t| - i
  {
    var k := FindFrom(t, p, i);
    if k < 0 then Rest(t[i..]) else Gap(t[i..k], SplitFrom(t, p, k + |p|))
  }

  function Split(t: string, p: string): (g: Pieces)
    requires p != ""
  {
    SplitFrom(t, p, 0)
  }

  lemma OccursFrom(t: string, p: string, i: nat, j: nat)
    requires i <= |t|
    ensures OccursAt(t[i..], p, j) == OccursAt(t, p, i + j)
  {
    if i + j + |p| <= |t| {
      assert t[i..][j..j + |p|] == t[i + j..i + j + |p|];
    }
  }

  lemma SubSlice(t: string, a: nat, b: nat, c: nat, d: nat)
    requires a <= b <= |t| && c <= d <= b - a
    ensures t[a..b][c..d] == t[a + c..a + d]
  {
    assert forall x :: 0 <= x < d - c ==> t[a..b][c..d][x] == t[a..b][c + x] == t[a + c..a + d][x];
  }

  /** Occurrences that start before an occurrence do not depend on what follows it. */
  lemma BeforeOccurrence(t: string, p: string, i: nat, k: nat, j: nat)
    requires OccursAt(t, p, k) && i + j <= k
    ensures OccursAt(t[i..k] + p, p, j) == OccursAt(t, p, i + j)
  {
    assert t[i..k] + p == t[i..k + |p|];
    SubSlice(t, i, k + |p|, j, j + |p|);
  }

  lemma CutAt(t: string, p: string, i: nat, k: nat)
    requires OccursAt(t, p, k) && i <= k
    ensures t[i..] == t[i..k] + (p + t[k + |p|..])
  {
  }

  lemma NoneFrom(t: string, p: string, i: nat)
    requires i <= |t| && forall j :: i <= j ==> !OccursAt(t, p, j)
    ensures Absent(t[i..], p)
  {
    forall j: nat ensures !OccursAt(t[i..], p, j)
    {
      OccursFrom(t, p, i, j);
    }
  }

  lemma NoneBefore(t: string, p: string, i: nat, k: nat)
    requires i <= k && OccursAt(t, p, k) && forall j :: i <= j < k ==> !OccursAt(t, p, j)
    ensures forall j :: 0 <= j < k - i ==> !OccursAt(t[i..k] + p, p, j)
  {
    forall j | 0 <= j < k - i ensures !OccursAt(t[i..k] + p, p, j)
    {
      BeforeOccurrence(t, p, i, k, j);
    }
  }

  /** `Split` takes every text apart at the leftmost non-overlapping occurrences. */
  lemma {:induction false} SplitIsLeftmost(t: string, p: string, i: nat)
    requires p != "" && i <= |t|
    ensures Leftmost(SplitFrom(t, p, i), p) && Glue(SplitFrom(t, p, i), p) == t[i..]
    decreases |t| - i
  {
    var k := FindFrom(t, p, i);
    FindFromIsFirst(t, p, i);
    if k < 0 {
      NoneFrom(t, p, i);
    } else {
      SplitIsLeftmost(t, p, k + |p|);
      CutAt(t, p, i, k);
      NoneBefore(t, p, i, k);
    }
  }

  lemma GapOccurs(t: string, p: string, i: nat, before: string, tail: string)
    requires i <= |t| && t[i..] == before + (p + tail)
    ensures var k := i + |before|; OccursAt(t, p, k) && t[i..k] == before && t[k + |p|..] == tail
  {
    var k, u := i + |before|, t[i..];
    assert |t| == i + |before| + |p| + |tail|;
    assert t[i..k] == u[..|before|] && t[k..k + |p|] == u[|before|..][..|p|] && t[k + |p|..] == u[|before|..][|p|..];
  }

  lemma FirstAfterGap(t: string, p: string, i: nat, k: nat)
    requires i <= k && OccursAt(t, p, k) && forall j :: 0 <= j < k - i ==> !OccursAt(t[i..k] + p, p, j)
    ensures FindFrom(t, p, i) == k
  {
    FindFromIsFirst(t, p, i);
    BeforeOccurrence(t, p, i, k, FindFrom(t, p, i) - i);
  }

  lemma NotFoundFrom(t: string, p: string, i: nat)
    requires i <= |t| && Absent(t[i..], p)
    ensures FindFrom(t, p, i) < 0
  {
    FindFromIsFirst(t, p, i);
    if FindFrom(t, p, i) >= 0 {
      OccursFrom(t, p, i, FindFrom(t, p, i) - i);
    }
  }

  /** There is only one way to do that. */
  lemma {:induction false} LeftmostIsSplit(t: string, p: string, i: nat, g: Pieces)
    requires p != "" && i <= |t| && Leftmost(g, p) && Glue(g, p) == t[i..]
    ensures SplitFrom(t, p, i) == g
    decreases g
  {
    match g {
      case Rest(text) =>
        NotFoundFrom(t, p, i);
      case Gap(before, after) =>
        GapOccurs(t, p, i, before, Glue(after, p));
        FirstAfterGap(t, p, i, i + |before|);
        LeftmostIsSplit(t, p, i + |before| + |p|, after);
    }
  }

  /** The leftmost non-overlapping way to take a text apart exists, is unique and is `Split`. */
  lemma SplitIsTheLeftmost(t: string, p: string, g: Pieces)
    requires p != ""
    ensures g == Split(t, p) <==> Leftmost(g, p) && Glue(g, p) == t
  {
    assert t[0..] == t;
    SplitIsLeftmost(t, p, 0);
    if Leftmost(g, p) && Glue(g, p) == t {
      LeftmostIsSplit(t, p, 0, g);
    }
  }

  // ----- The loop -----

  /** The text rebuilt from left to right: `done`, then what becomes of `t` from `i` on. */
  function ReplaceOnto(done: string, t: string, i: nat, p: string, r: string): (u: string)
    requires p != "" && i <= |t|
    decreases |t| - i
  {
    if i + |p| > |t| then done + t[i..]
    else if OccursAt(t, p, i) then ReplaceOnto(done + r, t, i + |p|, p, r)
    else ReplaceOnto(done + [t[i]], t, i + 1, p, r)
  }

  function Prefixed(c: char, g: Pieces): (g': Pieces)
  {
    match g
    case Rest(text) => Rest([c] + text)
    case Gap(before, after) => Gap([c] + before, after)
  }

  lemma GluePrefixed(c: char, g: Pieces, x: string)
    ensures Glue(Prefixed(c, g), x) == [c] + Glue(g, x)
  {
    if g.Gap? {
      Appended([c], g.before, x + Glue(g.after, x));
    }
  }

  lemma SplitShift(t: string, p: string, i: nat)
    requires p != "" && i + |p| <= |t| && !OccursAt(t, p, i)
    ensures SplitFrom(t, p, i) == Prefixed(t[i], SplitFrom(t, p, i + 1))
  {
    var k := FindFrom(t, p, i);
    if k >= 0 {
      assert t[i..k] == [t[i]] + t[i + 1..k];
    } else {
      assert t[i..] == [t[i]] + t[i + 1..];
    }
  }

  lemma {:induction false} OntoIsGlue(done: string, t: string, i: nat, p: string, r: string)
    requires p != "" && i <= |t|
    ensures ReplaceOnto(done, t, i, p, r) == done + Glue(SplitFrom(t, p, i), r)
    decreases |t| - i
  {
    if i + |p| <= |t| {
      if OccursAt(t, p, i) {
        OntoIsGlue(done + r, t, i + |p|, p, r);
        Appended(done, r, Glue(SplitFrom(t, p, i + |p|), r));
        GlueHere(t, p, i, r);
      } else {
        OntoIsGlue(done + [t[i]], t, i + 1, p, r);
        SplitShift(t, p, i);
        GluePrefixed(t[i], SplitFrom(t, p, i + 1), r);
        Appended(done, [t[i]], Glue(SplitFrom(t, p, i + 1), r));
      }
    }
  }

  lemma GlueHere(t: string, p: string, i: nat, r: string)
    requires p != "" && OccursAt(t, p, i)
    ensures Glue(SplitFrom(t, p, i), r) == r + Glue(SplitFrom(t, p, i + |p|), r)
  {
  }

  /** `new_event`: the text with `rhs` in place of the `n` characters at `si`. */
  function Spliced(temp: string, si: nat, n: nat, rhs: string): (t: string)
    requires si + n <= |temp|
  {
    temp[..si] + rhs + temp[si + n..]
  }

  lemma SplicedParts(temp: string, si: nat, n: nat, rhs: string)
    requires si + n <= |temp|
    ensures var t := Spliced(temp, si, n, rhs);
            |t| == |temp| - n + |rhs| && t[..si + |rhs|] == temp[..si] + rhs && t[si + |rhs|..] == temp[si + n..]
  {
  }

  datatype Error = NoPreviousSubstitution | SubstitutionFailed
  datatype Result = Ok(text: string) | Err(error: Error)

  lemma AbsentIffNotFound(t: string, p: string)
    ensures Absent(t, p) <==> FindFrom(t, p, 0) < 0
  {
    FindFromIsFirst(t, p, 0);
  }

  /** What the loop has made of `event`: `temp` from `si` on is still `event` from `i` on. */
  ghost predicate Rewritten(event: string, i: nat, temp: string, si: nat, p: string, r: string)
    requires p != ""
  {
    && i <= |event| && si <= |temp| && temp[si..] == event[i..]
    && ReplaceOnto(temp[..si], event, i, p, r) == ReplaceOnto("", event, 0, p, r)
  }

  lemma PassOver(event: string, i: nat, temp: string, si: nat, p: string, r: string)
    requires p != "" && Rewritten(event, i, temp, si, p, r) && si + |p| <= |temp| && temp[si..si + |p|] != p
    ensures Rewritten(event, i + 1, temp, si + 1, p, r)
  {
    assert temp[si..][..|p|] == temp[si..si + |p|] && event[i..][..|p|] == event[i..i + |p|];
    assert temp[si + 1..] == temp[si..][1..] && event[i + 1..] == event[i..][1..];
    assert temp[si] == temp[si..][0] && event[i] == event[i..][0];
    assert temp[..si + 1] == temp[..si] + [temp[si]];
  }

  lemma Replace(event: string, i: nat, temp: string, si: nat, p: string, r: string)
    requires p != "" && Rewritten(event, i, temp, si, p, r) && si + |p| <= |temp| && temp[si..si + |p|] == p
    ensures Rewritten(event, i + |p|, Spliced(temp, si, |p|, r), si + |r|, p, r)
  {
    assert temp[si..][..|p|] == temp[si..si + |p|] && event[i..][..|p|] == event[i..i + |p|];
    assert temp[si + |p|..] == temp[si..][|p|..] && event[i + |p|..] == event[i..][|p|..];
    SplicedParts(temp, si, |p|, r);
  }

  /** A turn of the loop from `(i, temp, si)` to `(i', temp', si')`. */
  lemma OneTurn(event: string, i: nat, temp: string, si: nat, p: string, r: string, i': nat, temp': string, si': nat)
    requires p != "" && Rewritten(event, i, temp, si, p, r) && si + |p| <= |temp|
    requires if temp[si..si + |p|] == p
             then i' == i + |p| && temp' == Spliced(temp, si, |p|, r) && si' == si + |r|
             else i' == i + 1 && temp' == temp && si' == si + 1
    ensures Rewritten(event, i', temp', si', p, r)
  {
    if temp[si..si + |p|] == p {
      Replace(event, i, temp, si, p, r);
    } else {
      PassOver(event, i, temp, si, p, r);
    }
  }

  lemma AllReplaced(event: string, i: nat, temp: string, si: nat, p: string, r: string)
    requires p != "" && Rewritten(event, i, temp, si, p, r) && |temp| < si + |p|
    ensures temp == Glue(Split(event, p), r)
  {
    assert temp[..si] + temp[si..] == temp;
    OntoIsGlue("", event, 0, p, r);
    assert "" + Glue(Split(event, p), r) == Glue(Split(event, p), r);
  }

  /** The substitution loop.  It fails exactly when the pattern does not occur; otherwise all the
      leftmost non-overlapping occurrences are replaced, or only the first.  Text put in place of
      an occurrence is never looked at again, and the loop ends although the text may grow. */
  method Substitute(event: string, lhs: string, rhs: string, globally: bool) returns (r: Result)
    ensures lhs == "" ==> r == Err(NoPreviousSubstitution)
    ensures lhs != "" && Absent(event, lhs) ==> r == Err(SubstitutionFailed)
    ensures lhs != "" && !Absent(event, lhs) && globally ==> r == Ok(Glue(Split(event, lhs), rhs))
    ensures lhs != "" && !Absent(event, lhs) && !globally ==>
      var k := FindFrom(event, lhs, 0); k >= 0 && r == Ok(Spliced(event, k, |lhs|, rhs))
  {
    if lhs == "" {
      return Err(NoPreviousSubstitution);
    }
    AbsentIffNotFound(event, lhs);
    if |lhs| > |event| {
      return Err(SubstitutionFailed);
    }
    var temp, length, si, failed := event, |event|, 0, true;
    ghost var i := 0;
    assert event[..0] == "";
    while si + |lhs| <= length
      invariant length == |temp| && 0 <= si <= length && 0 <= i
      invariant failed ==> temp == event && i == si && FindFrom(event, lhs, 0) == FindFrom(event, lhs, si)
      invariant !failed ==> globally && FindFrom(event, lhs, 0) >= 0
      invariant Rewritten(event, i, temp, si, lhs, rhs)
      decreases length - si
    {
      ghost var i0, temp0, si0 := i, temp, si;
      if temp[si..si + |lhs|] == lhs {
        temp := Spliced(temp, si, |lhs|, rhs);
        failed := false;
        if globally {
          si := si + |rhs| - 1;
          length := |temp|;
          i := i + |lhs| - 1;
        } else {
          return Ok(temp);
        }
      }
      si := si + 1;
      i := i + 1;
      OneTurn(event, i0, temp0, si0, lhs, rhs, i, temp, si);
    }
    if failed {
      return Err(SubstitutionFailed);
    }
    AllReplaced(event, i, temp, si, lhs, rhs);
    return Ok(temp);
  }

  // ----- `&` in the replacement -----

  /** The replacement with `lhs` for every `&` not protected by a backslash. */
  function Interpolate(rhs: string, lhs: string): (t: string)
  {
    if rhs == "" then ""
    else if rhs[0] == '&' then lhs + Interpolate(rhs[1..], lhs)
    else if rhs[0] == '\\' && |rhs| > 1 && rhs[1] == '&' then "&" + Interpolate(rhs[2..], lhs)
    else [rhs[0]] + Interpolate(rhs[1..], lhs)
  }

  function Protected(text: string): (rhs: string)
  {
    if text == "" then "" else (if text[0] == '&' then "\\&" else [text[0]]) + Protected(text[1..])
  }

  /** Every replacement text can be written, and without `&` it is written as it is. */
  lemma {:induction false} ProtectedIsLiteral(text: string, lhs: string)
    ensures Interpolate(Protected(text), lhs) == text
    ensures '&' !in text ==> Protected(text) == text
  {
    if text != "" {
      var rest := Protected(text[1..]);
      ProtectedIsLiteral(text[1..], lhs);
      if text[0] == '&' {
        assert ("\\&" + rest)[2..] == rest;
      } else {
        assert ([text[0]] + rest)[1..] == rest;
        assert rest != "" ==> rest[0] != '&';
      }
    }
  }

  /** An ampersand that no backslash precedes stands for the pattern. */
  lemma {:induction false} AmpersandIsPattern(text: string, rest: string, lhs: string)
    requires text != "" ==> text[|text| - 1] != '\\'
    ensures Interpolate(Protected(text) + ("&" + rest), lhs) == text + (lhs + Interpolate(rest, lhs))
  {
    if text == "" {
      assert "" + ("&" + rest) == "&" + rest && ("&" + rest)[1..] == rest;
      assert "" + (lhs + Interpolate(rest, lhs)) == lhs + Interpolate(rest, lhs);
    } else {
      var piece, tail := if text[0] == '&' then "\\&" else [text[0]], Protected(text[1..]) + ("&" + rest);
      AmpersandIsPattern(text[1..], rest, lhs);
      Appended(piece, Protected(text[1..]), "&" + rest);
      assert (piece + tail)[|piece|..] == tail;
      assert text[0] == '\\' ==> |text| > 1 && tail[0] != '&';
      assert [text[0]] + text[1..] == text;
      Appended([text[0]], text[1..], lhs + Interpolate(rest, lhs));
    }
  }

  /** Where the loop of `postproc_subst_rhs` goes on after position `i`, past a protecting backslash. */
  function NextAt(rhs: string, i: nat): (k: nat)
    requires i < |rhs|
    ensures i < k <= |rhs|
  {
    if rhs[i] == '\\' && i + 1 < |rhs| && rhs[i + 1] == '&' then i + 2 else i + 1
  }

  /** The size of the buffer at the end, from `size` with `j` bytes written. */
  function SizeAfter(rhs: string, i: nat, lhs: string, j: nat, size: nat): (n: nat)
    requires i <= |rhs|
    ensures n >= size
    decreases |rhs| - i
  {
    if i == |rhs| then size
    else if rhs[i] == '&' then
      SizeAfter(rhs, i + 1, lhs, j + |lhs|, if j + |lhs| >= size then 2 * size + |lhs| else size)
    else SizeAfter(rhs, NextAt(rhs, i), lhs, j + 1, if j >= size then 2 * size else size)
  }

  /** The state of the loop: `t` and what comes of the rest make up the replacement, and the buffer
      has grown as it should. */
  ghost predicate Filling(rhs: string, i: nat, lhs: string, t: string, size: nat)
  {
    && i <= |rhs| && |t| <= size && size > 0
    && t + Interpolate(rhs[i..], lhs) == Interpolate(rhs, lhs)
    && SizeAfter(rhs, i, lhs, |t|, size) == SizeAfter(rhs, 0, lhs, 0, |rhs| + |lhs|)
  }

  lemma PutPattern(rhs: string, i: nat, lhs: string, t: string, size: nat, size': nat)
    requires Filling(rhs, i, lhs, t, size) && i < |rhs| && rhs[i] == '&'
    requires size' == if |t| + |lhs| >= size then 2 * size + |lhs| else size
    ensures |t| + |lhs| < size' && Filling(rhs, i + 1, lhs, t + lhs, size')
  {
    assert rhs[i..][1..] == rhs[i + 1..];
    Appended(t, lhs, Interpolate(rhs[i + 1..], lhs));
  }

  lemma PutCharacter(rhs: string, i: nat, lhs: string, t: string, size: nat, size': nat)
    requires Filling(rhs, i, lhs, t, size) && i < |rhs| && rhs[i] != '&'
      && size' == if |t| >= size then 2 * size else size
    ensures |t| < size' && Filling(rhs, NextAt(rhs, i), lhs, t + [rhs[NextAt(rhs, i) - 1]], size')
  {
    var k := NextAt(rhs, i);
    assert rhs[i..][k - i..] == rhs[k..];
    Appended(t, [rhs[k - 1]], Interpolate(rhs[k..], lhs));
  }

  /** `postproc_subst_rhs`, which is called for a replacement with an ampersand in it.  All its
      writes but the last lie within the buffer; the final NUL does if and only if the text does
      not fill the buffer it has grown to. */
  method PostprocSubstRhs(rhs: string, lhs: string) returns (t: string, size: nat)
    requires '&' in rhs && lhs != ""
    ensures t == Interpolate(rhs, lhs) && size == SizeAfter(rhs, 0, lhs, 0, |rhs| + |lhs|)
    ensures |t| <= size
  {
    t, size := "", |rhs| + |lhs|;
    var i := 0;
    assert rhs[0..] == rhs && "" + Interpolate(rhs, lhs) == Interpolate(rhs, lhs);
    while i < |rhs|
      invariant 0 <= i <= |rhs| && Filling(rhs, i, lhs, t, size)
    {
      if rhs[i] == '&' {
        size := RoomFor(rhs, i, lhs, t, size);
        assert |t| + |lhs| < size;  // room for the pattern and its NUL
        t := t + lhs;
        i := i + 1;
      } else {
        var piece;
        piece, size, i := TakeCharacter(rhs, i, lhs, t, size);
        assert |t| < size;
        t := t + [piece];
      }
    }
    assert t + "" == t;
  }

  /** Grow the buffer for the pattern if need be. */
  method RoomFor(rhs: string, i: nat, lhs: string, t: string, size: nat) returns (size': nat)
    requires Filling(rhs, i, lhs, t, size) && i < |rhs| && rhs[i] == '&'
    ensures |t| + |lhs| < size' && Filling(rhs, i + 1, lhs, t + lhs, size')
  {
    size' := size;
    if |t| + |lhs| >= size {
      size' := 2 * size + |lhs|;
    }
    PutPattern(rhs, i, lhs, t, size, size');
  }

  /** The next character, past a backslash that protects an ampersand, and room for it. */
  method TakeCharacter(rhs: string, i: nat, lhs: string, t: string, size: nat) returns (c: char, size': nat, i': nat)
    requires Filling(rhs, i, lhs, t, size) && i < |rhs| && rhs[i] != '&'
    ensures i < i' <= |rhs| && |t| < size' && Filling(rhs, i', lhs, t + [c], size')
  {
    size', i' := size, i;
    if |t| >= size {
      size' := 2 * size;
    }
    PutCharacter(rhs, i, lhs, t, size, size');
    if rhs[i] == '\\' && i + 1 < |rhs| && rhs[i + 1] == '&' {
      i' := i + 1;
    }
    c := rhs[i'];
    i' := i' + 1;
  }

  /** Unprotected ampersands from `i` on. */
  function Ampersands(rhs: string, i: nat): (n: nat)
    requires i <= |rhs|
    decreases |rhs| - i
  {
    if i == |rhs| then 0
    else if rhs[i] == '&' then 1 + Ampersands(rhs, i + 1)
    else Ampersands(rhs, NextAt(rhs, i))
  }

  lemma InterpolateFrom(rhs: string, i: nat, lhs: string)
    requires i < |rhs|
    ensures |Interpolate(rhs[i..], lhs)| ==
      if rhs[i] == '&' then |lhs| + |Interpolate(rhs[i + 1..], lhs)| else 1 + |Interpolate(rhs[NextAt(rhs, i)..], lhs)|
  {
    assert rhs[i..][1..] == rhs[i + 1..];
    if i + 1 < |rhs| {
      assert rhs[i..][2..] == rhs[i + 2..];
    }
  }

  /** With room for one pattern and the rest of the replacement, one ampersand never fills the buffer. */
  lemma {:induction false} OneAmpersandFits(rhs: string, i: nat, lhs: string, j: nat, size: nat)
    requires i <= |rhs| && Ampersands(rhs, i) <= 1
    requires if Ampersands(rhs, i) == 1 then j + (|rhs| - i) - 1 + |lhs| < size else j + (|rhs| - i) < size
    ensures SizeAfter(rhs, i, lhs, j, size) == size && j + |Interpolate(rhs[i..], lhs)| < size
    decreases |rhs| - i
  {
    if i < |rhs| {
      InterpolateFrom(rhs, i, lhs);
      if rhs[i] == '&' {
        OneAmpersandFits(rhs, i + 1, lhs, j + |lhs|, size);
      } else {
        OneAmpersandFits(rhs, NextAt(rhs, i), lhs, j + 1, size);
      }
    }
  }

  /** A replacement with a single unprotected ampersand leaves room for the NUL. */
  lemma SingleAmpersandFits(rhs: string, lhs: string)
    requires Ampersands(rhs, 0) == 1
    ensures |Interpolate(rhs, lhs)| < SizeAfter(rhs, 0, lhs, 0, |rhs| + |lhs|)
  {
    OneAmpersandFits(rhs, 0, lhs, 0, |rhs| + |lhs|);
    assert rhs[0..] == rhs;
  }

  /** The last character is an ampersand without a backslash before it. */
  predicate EndsInAmpersand(rhs: string)
  {
    rhs != "" && rhs[|rhs| - 1] == '&' && (|rhs| == 1 || rhs[|rhs| - 2] != '\\')
  }

  lemma {:induction false} LastAmpersandFits(rhs: string, i: nat, lhs: string, j: nat, size: nat)
    requires EndsInAmpersand(rhs) && i < |rhs| && j <= size && size > 0
    ensures j + |Interpolate(rhs[i..], lhs)| < SizeAfter(rhs, i, lhs, j, size)
    decreases |rhs| - i
  {
    InterpolateFrom(rhs, i, lhs);
    if i + 1 < |rhs| {
      if rhs[i] == '&' {
        LastAmpersandFits(rhs, i + 1, lhs, j + |lhs|, if j + |lhs| >= size then 2 * size + |lhs| else size);
      } else {
        LastAmpersandFits(rhs, NextAt(rhs, i), lhs, j + 1, if j >= size then 2 * size else size);
      }
    }
  }

  /** As long as the text does not go past the buffer, and does not fill it with a pattern at the
      end, the buffer does not grow. */
  lemma {:induction false} NoGrowth(rhs: string, i: nat, lhs: string, j: nat, size: nat)
    requires i <= |rhs| && lhs != "" && j + |Interpolate(rhs[i..], lhs)| <= size
    requires j + |Interpolate(rhs[i..], lhs)| == size ==> !EndsInAmpersand(rhs)
    requires i == |rhs| - 1 && rhs[i] == '&' ==> EndsInAmpersand(rhs)
    ensures SizeAfter(rhs, i, lhs, j, size) == size
    decreases |rhs| - i
  {
    if i < |rhs| {
      InterpolateFrom(rhs, i, lhs);
      if rhs[i] == '&' {
        if i + 1 < |rhs| {
          InterpolateFrom(rhs, i + 1, lhs);
        }
        NoGrowth(rhs, i + 1, lhs, j + |lhs|, size);
      } else {
        NoGrowth(rhs, NextAt(rhs, i), lhs, j + 1, size);
      }
    }
  }

  /** What a caller can tell beforehand about the room for the NUL: a replacement that ends in an
      unprotected ampersand leaves it, so does one whose text is shorter than replacement and
      pattern together, and of those whose text is just as long only the former do. */
  lemma RoomForNul(rhs: string, lhs: string)
    requires '&' in rhs && lhs != ""
    ensures var t, size := Interpolate(rhs, lhs), SizeAfter(rhs, 0, lhs, 0, |rhs| + |lhs|);
            && (EndsInAmpersand(rhs) || |t| < |rhs| + |lhs| ==> |t| < size)
            && (|t| == |rhs| + |lhs| ==> (|t| < size <==> EndsInAmpersand(rhs)))
  {
    assert rhs[0..] == rhs;
    if EndsInAmpersand(rhs) {
      LastAmpersandFits(rhs, 0, lhs, 0, |rhs| + |lhs|);
    }
    if |Interpolate(rhs, lhs)| <= |rhs| + |lhs| && !(|Interpolate(rhs, lhs)| == |rhs| + |lhs| && EndsInAmpersand(rhs)) {
      NoGrowth(rhs, 0, lhs, 0, |rhs| + |lhs|);
    }
  }

  /** With two ampersands the text can fill the buffer, so that the NUL lies just past it. */
  lemma TwoAmpersandsMayFill()
    ensures |Interpolate("&&ab", "xy")| == 6 == SizeAfter("&&ab", 0, "xy", 0, 6)
  {
    var rhs := "&&ab";
    assert rhs[1..] == "&ab" && rhs[2..] == "ab" && rhs[3..] == "b" && rhs[4..] == "" && rhs[0..] == rhs;
    InterpolateFrom(rhs, 0, "xy");
    InterpolateFrom(rhs, 1, "xy");
    InterpolateFrom(rhs, 2, "xy");
    InterpolateFrom(rhs, 3, "xy");
    assert SizeAfter(rhs, 3, "xy", 5, 6) == 6;
    assert SizeAfter(rhs, 2, "xy", 4, 6) == 6;
    assert SizeAfter(rhs, 1, "xy", 2, 6) == 6;
  }

  lemma Appended(a: string, b: string, c: string)
    ensures (a + b) + c == a + (b + c)
  {
  }
}
