/** Killing text and yanking it back (`kill.c`), for kills that start at point. */
module KillRing {
  import opened Characters

  const MAX_KILLS: nat := 10

  /** The ring after a kill in a new slot: the oldest entry goes when there are ten. */
  function Pushed(ring: seq<string>, text: string): (r: seq<string>)
  {
    (if |ring| == MAX_KILLS then ring[1..] else ring) + [text]
  }

  /** The ring after `_rl_copy_to_kill_ring`.  `again` says that the last command was a kill. */
  function Remembered(ring: seq<string>, text: string, append: bool, again: bool, vi: bool): (r: seq<string>)
  {
    if !again || ring == [] then Pushed(ring, text)
    else
      var n := |ring| - 1;
      ring[n := if vi then text else if append then ring[n] + text else text + ring[n]]
  }

  /** A new slot comes last, behind the newest nine of the others; a further kill changes the last
      entry only, at the end the text was killed from. */
  lemma RingKeepsTen(ring: seq<string>, text: string, append: bool, again: bool, vi: bool)
    requires |ring| <= 10
    ensures var r := Remembered(ring, text, append, again, vi);
            if !again || ring == [] then
              r == ring[if |ring| == 10 then 1 else 0..] + [text] && |r| == if |ring| == 10 then 10 else |ring| + 1
            else
              && |r| == |ring| && (forall i :: 0 <= i < |r| - 1 ==> r[i] == ring[i])
              && (vi ==> r[|r| - 1] == text)
              && (!vi && append ==> r[|r| - 1] == ring[|r| - 1] + text)
              && (!vi && !append ==> r[|r| - 1] == text + ring[|r| - 1])
  {
    assert ring[0..] == ring;
  }

  // ----- The text of a line under a run of kills -----

  /** Kill from point to a position ahead of it, or back to one behind it, or back over words. */
  datatype Kill = Forward(to: nat) | Backward(to: nat) | WordRubout(count: int) | LineDiscard

  datatype Text = Text(line: string, point: nat)

  predicate IsText(t: Text) { t.point <= |t.line| }

  /** Back over blanks, or over anything else. */
  function SkipBack(line: string, p: nat, blanks: bool): (q: nat)
    requires p <= |line|
    ensures q <= p && (forall i :: q <= i < p ==> IsWhitespace(line[i]) == blanks)
      && (q > 0 ==> IsWhitespace(line[q - 1]) != blanks)
  {
    if p > 0 && IsWhitespace(line[p - 1]) == blanks then SkipBack(line, p - 1, blanks) else p
  }

  /** The start of the blank-delimited word `count` words back. */
  function WordsBack(line: string, p: nat, count: nat): (q: nat)
    requires p <= |line|
    ensures q <= p
    decreases count
  {
    if count == 0 then p else WordsBack(line, SkipBack(line, SkipBack(line, p, true), false), count - 1)
  }

  lemma WordBackMoves(line: string, p: nat, count: nat)
    requires 0 < p <= |line| && count > 0
    ensures WordsBack(line, p, count) < p
  {
    var q := SkipBack(line, p, true);
    assert SkipBack(line, q, false) < p;
  }

  /** Between `q` and `p` lie a word without spaces or tabs, up to `w`, and then only those. */
  predicate WordAndGap(line: string, q: nat, w: nat, p: nat)
  {
    && q <= w <= p <= |line|
    && (forall i :: q <= i < w ==> line[i] != ' ' && line[i] != '\t')
    && (forall i :: w <= i < p ==> line[i] == ' ' || line[i] == '\t')
  }

  /** `q` is where the last word before `p` starts, or the start of the line. */
  ghost predicate OneWordBack(line: string, p: nat, q: nat)
  {
    && (q > 0 ==> q <= |line| && (line[q - 1] == ' ' || line[q - 1] == '\t'))
    && exists w: nat :: WordAndGap(line, q, w, p) && (q < w || q == 0)
  }

  ghost predicate BackOverWords(line: string, p: nat, count: nat, q: nat)
    decreases count
  {
    if count == 0 then q == p else exists q1: nat :: OneWordBack(line, p, q1) && BackOverWords(line, q1, count - 1, q)
  }

  /** There is only one such place. */
  lemma OneWordBackIsUnique(line: string, p: nat, q: nat, r: nat)
    requires OneWordBack(line, p, q) && OneWordBack(line, p, r)
    ensures q == r
  {
    var w: nat :| WordAndGap(line, q, w, p) && (q < w || q == 0);
    var x: nat :| WordAndGap(line, r, x, p) && (r < x || r == 0);
    assert q < w ==> line[w - 1] != ' ' && line[w - 1] != '\t';
    assert r < x ==> line[x - 1] != ' ' && line[x - 1] != '\t';
  }

  lemma {:induction false} WordsBackIs(line: string, p: nat, count: nat)
    requires p <= |line|
    ensures BackOverWords(line, p, count, WordsBack(line, p, count))
    decreases count
  {
    if count > 0 {
      var w := SkipBack(line, p, true);
      var q := SkipBack(line, w, false);
      assert WordAndGap(line, q, w, p);
      assert OneWordBack(line, p, q);
      WordsBackIs(line, q, count - 1);
    }
  }

  /** The other end of the killed text. */
  function Target(t: Text, k: Kill): (to: nat)
    requires IsText(t)
    ensures to <= |t.line|
  {
    match k
    case Forward(to) => if t.point <= to <= |t.line| then to else t.point
    case Backward(to) => if to <= t.point then to else t.point
    case WordRubout(count) => WordsBack(t.line, t.point, if count <= 0 then 1 else count)
    case LineDiscard => 0
  }

  function Killed(t: Text, to: nat): (s: string)
    requires IsText(t) && to <= |t.line|
  {
    if to < t.point then t.line[to..t.point] else t.line[t.point..to]
  }

  function AfterKill(t: Text, to: nat): (r: Text)
    requires IsText(t) && to <= |t.line|
    ensures IsText(r)
  {
    if to < t.point then Text(t.line[..to] + t.line[t.point..], to) else Text(t.line[..t.point] + t.line[to..], t.point)
  }

  /** Every kill of the run takes some text. */
  predicate AllTakeText(t: Text, kills: seq<Kill>, i: nat)
    requires IsText(t) && i <= |kills|
    decreases |kills| - i
  {
    i < |kills| ==> Target(t, kills[i]) != t.point && AllTakeText(AfterKill(t, Target(t, kills[i])), kills, i + 1)
  }

  /** `s` put back at point gives the line. */
  predicate Restores(t: Text, s: string, line: string)
    requires IsText(t)
  {
    t.line[..t.point] + s + t.line[t.point..] == line
  }

  lemma FirstKill(t: Text, to: nat)
    requires IsText(t) && to <= |t.line|
    ensures Restores(AfterKill(t, to), Killed(t, to), t.line)
  {
    var r := AfterKill(t, to);
    var lo, hi := if to < t.point then to else t.point, if to < t.point then t.point else to;
    assert r.line[..lo] == t.line[..lo] && r.line[lo..] == t.line[hi..];
    assert t.line[..lo] + t.line[lo..hi] + t.line[hi..] == t.line;
  }

  lemma Regroup(a: string, s: string, b: string, c: string)
    ensures a + (s + b) + c == a + s + (b + c) && a + (s + b) + c == (a + s) + b + c
  {
  }

  lemma KillAhead(t: Text, to: nat, s: string, line: string)
    requires IsText(t) && t.point <= to <= |t.line| && Restores(t, s, line)
    ensures Restores(AfterKill(t, to), s + Killed(t, to), line)
  {
    var r, a, b, c := AfterKill(t, to), t.line[..t.point], t.line[t.point..to], t.line[to..];
    assert r.line[..t.point] == a && r.line[t.point..] == c;
    assert t.line[t.point..] == b + c;
    Regroup(a, s, b, c);
  }

  lemma KillBehind(t: Text, to: nat, s: string, line: string)
    requires IsText(t) && to < t.point && Restores(t, s, line)
    ensures Restores(AfterKill(t, to), Killed(t, to) + s, line)
  {
    var r, a, b, c := AfterKill(t, to), t.line[..to], t.line[to..t.point], t.line[t.point..];
    assert r.line[..to] == a && r.line[to..] == c;
    assert t.line[..t.point] == a + b;
    Regroup(a, b, s, c);
  }

  // ----- The editor -----

  class Editor {
    var line: string
    var point: nat
    /** Empty while there is no ring. */
    var ring: seq<string>
    var killIndex: nat
    var lastCommandWasKill: nat
    var vi: bool

    ghost predicate Valid()
      reads this
    {
      point <= |line| && |ring| <= MAX_KILLS && (ring != [] ==> killIndex < |ring|)
    }

    ghost function View(): (t: Text)
      requires Valid()
      reads this
      ensures IsText(t)
    {
      Text(line, point)
    }

    constructor (text: string, cursor: nat, viMode: bool)
      requires cursor <= |text|
      ensures Valid() && line == text && point == cursor && ring == [] && lastCommandWasKill == 0 && vi == viMode
    {
      line, point, ring, killIndex, lastCommandWasKill, vi := text, cursor, [], 0, 0, viMode;
    }

    /** `_rl_copy_to_kill_ring` */
    method CopyToKillRing(text: string, append: bool)
      requires |ring| <= MAX_KILLS
      modifies `ring, `killIndex
      ensures ring == Remembered(old(ring), text, append, lastCommandWasKill > 0, vi)
      ensures 0 < |ring| <= MAX_KILLS && killIndex == |ring| - 1
    {
      var slot: nat;
      var occupied := false;
      if lastCommandWasKill == 0 || ring == [] {
        if ring == [] {
          ring, slot := [""], 0;
        } else {
          slot := |ring|;
          if slot == MAX_KILLS {
            ring := ring[1..] + [""];
          } else {
            ring := ring + [""];
            slot := slot + 1;
          }
          slot := slot - 1;
        }
      } else {
        slot, occupied := |ring| - 1, true;
      }
      if lastCommandWasKill > 0 && occupied && !vi {
        var before := ring[slot];
        ring := ring[slot := if append then before + text else text + before];
      } else {
        ring := ring[slot := text];
      }
      killIndex := slot;
    }

    /** `rl_kill_text`: killing nothing still counts as a kill. */
    method KillText(from: nat, to: nat)
      requires Valid() && from <= |line| && to <= |line|
      modifies `line, `ring, `killIndex, `lastCommandWasKill
      ensures lastCommandWasKill == old(lastCommandWasKill) + 1 && |ring| <= MAX_KILLS
        && (ring != [] ==> killIndex < |ring|)
      ensures from == to ==> line == old(line) && ring == old(ring)
      ensures from != to ==>
        && line == AfterKill(Text(old(line), from), to).line && killIndex == |ring| - 1
        && ring == Remembered(old(ring), Killed(Text(old(line), from), to), from < to, old(lastCommandWasKill) > 0, vi)
    {
      if from == to {
        lastCommandWasKill := lastCommandWasKill + 1;
        return;
      }
      var lo, hi := if from < to then from else to, if from < to then to else from;
      var text := line[lo..hi];
      line := line[..lo] + line[hi..];
      CopyToKillRing(text, from < to);
      lastCommandWasKill := lastCommandWasKill + 1;
    }

    /** `rl_kill_word` and `rl_kill_line`, when the motion ends at `to`. */
    method KillForward(to: nat)
      requires Valid() && point <= to <= |line|
      modifies this
      ensures Valid() && vi == old(vi) && View() == AfterKill(old(View()), to)
      ensures point == to ==> ring == old(ring) && lastCommandWasKill == old(lastCommandWasKill)
      ensures point != to ==>
        && lastCommandWasKill == old(lastCommandWasKill) + 1 && killIndex == |ring| - 1
        && ring == Remembered(old(ring), Killed(old(View()), to), true, old(lastCommandWasKill) > 0, vi)
    {
      var orig := point;
      if to != orig {
        KillText(orig, to);
      } else {
        assert line[..point] + line[to..] == line;
      }
      point := orig;
    }

    /** `rl_backward_kill_word` and `rl_backward_kill_line`, when the motion ends at `to`. */
    method KillBackward(to: nat)
      requires Valid() && to <= point
      modifies this
      ensures Valid() && vi == old(vi) && View() == AfterKill(old(View()), to)
      ensures old(point) == to ==> ring == old(ring) && lastCommandWasKill == old(lastCommandWasKill)
      ensures old(point) != to ==>
        && lastCommandWasKill == old(lastCommandWasKill) + 1 && killIndex == |ring| - 1
        && ring == Remembered(old(ring), Killed(old(View()), to), false, old(lastCommandWasKill) > 0, vi)
    {
      var orig := point;
      if to != orig {
        KillText(orig, to);
      } else {
        assert line[..point] + line[to..] == line;
      }
      point := to;
    }

    /** The scan of `rl_unix_word_rubout`. */
    method WordStart(count: nat) returns (p: nat)
      requires Valid()
      ensures p == WordsBack(line, point, count)
    {
      p := point;
      var left := count;
      while left > 0
        invariant 0 <= left <= count && p <= |line| && WordsBack(line, p, left) == WordsBack(line, point, count)
      {
        ghost var p0 := p;
        while p > 0 && IsWhitespace(line[p - 1])
          invariant p <= |line| && SkipBack(line, p, true) == SkipBack(line, p0, true)
        {
          p := p - 1;
        }
        ghost var p1 := p;
        while p > 0 && !IsWhitespace(line[p - 1])
          invariant p <= |line| && SkipBack(line, p, false) == SkipBack(line, p1, false)
        {
          p := p - 1;
        }
        left := left - 1;
      }
    }

    /** `rl_unix_word_rubout` */
    method UnixWordRubout(count: int)
      requires Valid()
      modifies this
      ensures Valid() && vi == old(vi) && View() == AfterKill(old(View()), Target(old(View()), WordRubout(count)))
      ensures old(point) == 0 ==> ring == old(ring) && lastCommandWasKill == old(lastCommandWasKill)
      ensures old(point) > 0 ==>
        && BackOverWords(old(line), old(point), if count <= 0 then 1 else count, point)
        && line == old(line)[..point] + old(line)[old(point)..]
        && point < old(point) && lastCommandWasKill == old(lastCommandWasKill) + 1 && killIndex == |ring| - 1
        && ring == Remembered(old(ring), Killed(old(View()), point), false, old(lastCommandWasKill) > 0, vi)
    {
      if point == 0 {
        assert line[..0] + line[0..] == line;
        return;
      }
      var n: nat := if count <= 0 then 1 else count;
      WordBackMoves(line, point, n);
      WordsBackIs(line, point, n);
      var p := WordStart(n);
      KillText(point, p);
      point := p;
    }

    /** `rl_unix_line_discard` */
    method UnixLineDiscard()
      requires Valid()
      modifies this
      ensures Valid() && vi == old(vi) && View() == AfterKill(old(View()), 0)
      ensures old(point) == 0 ==> ring == old(ring) && lastCommandWasKill == old(lastCommandWasKill)
      ensures old(point) > 0 ==>
        && lastCommandWasKill == old(lastCommandWasKill) + 1 && killIndex == |ring| - 1
        && ring == Remembered(old(ring), Killed(old(View()), 0), false, old(lastCommandWasKill) > 0, vi)
    {
      if point == 0 {
        assert line[..0] + line[0..] == line;
        return;
      }
      KillText(point, 0);
      point := 0;
    }

    /** A kill as the main loop runs it: a command that killed nothing ends the run of kills. */
    method Execute(k: Kill)
      requires Valid()
      modifies this
      ensures var t := old(View()); var to := Target(t, k);
              && Valid() && vi == old(vi) && View() == AfterKill(t, to)
              && (to == t.point ==> ring == old(ring) && lastCommandWasKill == 0)
              && (to != t.point ==>
                    && lastCommandWasKill > 0 && killIndex == |ring| - 1
                    && ring == Remembered(old(ring), Killed(t, to), to > t.point, old(lastCommandWasKill) > 0, vi))
    {
      var lk := lastCommandWasKill;
      match k {
        case Forward(to) => KillForward(if point <= to <= |line| then to else point);
        case Backward(to) => KillBackward(if to <= point then to else point);
        case WordRubout(count) => UnixWordRubout(count);
        case LineDiscard => UnixLineDiscard();
      }
      if lk == lastCommandWasKill {
        lastCommandWasKill := 0;
      }
    }

    /** Part way through a run: the newest entry put back at point gives the line as it was, and
        the run used one slot. */
    ghost predicate InRun(line0: string, ring0: seq<string>)
      requires Valid()
      reads this
    {
      && lastCommandWasKill > 0 && !vi && ring != [] && killIndex == |ring| - 1
      && ring == Pushed(ring0, ring[killIndex]) && Restores(View(), ring[killIndex], line0)
    }

    method FirstOfRun(k: Kill)
      requires Valid() && !vi && lastCommandWasKill == 0 && Target(View(), k) != point
      modifies this
      ensures Valid() && View() == AfterKill(old(View()), Target(old(View()), k)) && InRun(old(line), old(ring))
    {
      FirstKill(View(), Target(View(), k));
      Execute(k);
    }

    method NextOfRun(k: Kill, ghost line0: string, ghost ring0: seq<string>)
      requires Valid() && InRun(line0, ring0) && Target(View(), k) != point
      modifies this
      ensures Valid() && View() == AfterKill(old(View()), Target(old(View()), k)) && InRun(line0, ring0)
    {
      ghost var to := Target(View(), k);
      if to > point {
        KillAhead(View(), to, ring[killIndex], line0);
      } else {
        KillBehind(View(), to, ring[killIndex], line0);
      }
      Execute(k);
    }

    /** Any run of kills that each take some text leaves one new entry, which undoes them all. */
    method KillRun(kills: seq<Kill>)
      requires Valid() && !vi && lastCommandWasKill == 0 && kills != [] && AllTakeText(View(), kills, 0)
      modifies this
      ensures Valid() && InRun(old(line), old(ring))
    {
      FirstOfRun(kills[0]);
      var i := 1;
      while i < |kills|
        invariant 1 <= i <= |kills| && Valid() && InRun(old(line), old(ring)) && AllTakeText(View(), kills, i)
      {
        NextOfRun(kills[i], old(line), old(ring));
        i := i + 1;
      }
    }

    /** `rl_yank`; without a ring it only beeps. */
    method Yank()
      requires Valid()
      modifies `line, `point
      ensures Valid()
      ensures ring == [] ==> line == old(line) && point == old(point)
      ensures ring != [] ==>
        Restores(old(View()), ring[killIndex], line) && point == old(point) + |ring[killIndex]|
    {
      if ring == [] {
        return;
      }
      line := line[..point] + ring[killIndex] + line[point..];
      point := point + |ring[killIndex]|;
    }

    /** A run of kills is undone by one yank. */
    method KillRunAndYank(kills: seq<Kill>)
      requires Valid() && !vi && lastCommandWasKill == 0 && kills != [] && AllTakeText(View(), kills, 0)
      modifies this
      ensures Valid() && line == old(line)
      ensures ring != [] && ring == Pushed(old(ring), ring[|ring| - 1])
    {
      KillRun(kills);
      Yank();
    }
  }
}
