/** How `expand_prompt` in `display.c` strips the invisible-text markers from a prompt, counts its
    bytes and finds where it wraps, when every character is one byte. */
module Prompt {
  import opened Bytes

  const START_IGNORE: Byte := 1
  const END_IGNORE: Byte := 2

  /** What has been copied, whether each byte of it is visible, and the start of a run of invisible
      bytes that is not closed yet. */
  datatype Reading = Reading(out: seq<Byte>, shown: seq<bool>, ignoring: bool, start: nat)

  function Step(r: Reading, c: Byte): (r': Reading)
  {
    if !r.ignoring && c == START_IGNORE then Reading(r.out, r.shown, true, |r.out|)
    else if r.ignoring && c == END_IGNORE then Reading(r.out, r.shown, false, 0)
    else Reading(r.out + [c], r.shown + [!r.ignoring], r.ignoring, r.start)
  }

  /** The first `n` bytes of the prompt. */
  function Read(prompt: seq<Byte>, n: nat): (r: Reading)
    requires n <= |prompt|
  {
    if n == 0 then Reading([], [], false, 0) else Step(Read(prompt, n - 1), prompt[n - 1])
  }

  /** How much lies before a run that is not closed. */
  function Settled(r: Reading): (n: nat)
  {
    if r.ignoring then r.start else |r.out|
  }

  function Count(shown: seq<bool>, p: nat): (n: nat)
    requires p <= |shown|
    ensures n <= p
  {
    if p == 0 then 0 else Count(shown, p - 1) + if shown[p - 1] then 1 else 0
  }

  ghost predicate WellRead(r: Reading, n: nat)
  {
    && |r.shown| == |r.out| <= n && Settled(r) <= |r.out|
    && forall j :: Settled(r) <= j < |r.out| ==> !r.shown[j]
  }

  lemma {:induction false} ReadWell(prompt: seq<Byte>, n: nat)
    requires n <= |prompt|
    ensures WellRead(Read(prompt, n), n)
  {
    if n > 0 {
      ReadWell(prompt, n - 1);
    }
  }

  lemma {:induction false} CountPrefix(shown: seq<bool>, b: bool, p: nat)
    requires p <= |shown|
    ensures Count(shown + [b], p) == Count(shown, p)
  {
    if p > 0 {
      CountPrefix(shown, b, p - 1);
    }
  }

  lemma {:induction false} CountMonotone(shown: seq<bool>, p: nat, q: nat)
    requires p <= q <= |shown|
    ensures Count(shown, p) <= Count(shown, q) <= Count(shown, p) + (q - p)
    ensures p < q && shown[p] ==> Count(shown, p) < Count(shown, q)
    ensures (forall j :: p <= j < q ==> !shown[j]) ==> Count(shown, p) == Count(shown, q)
  {
    if p < q {
      CountMonotone(shown, p, q - 1);
    }
  }

  /** Text up to the next marker `\001` is copied and visible. */
  lemma {:induction false} VisibleRun(prompt: seq<Byte>, n: nat, k: nat)
    requires n + k <= |prompt| && !Read(prompt, n).ignoring && 1 !in prompt[n..n + k]
    ensures var r, r' := Read(prompt, n), Read(prompt, n + k);
            && !r'.ignoring && r'.out == r.out + prompt[n..n + k]
            && r'.shown == r.shown + seq(k, _ => true)
  {
    if k == 0 {
      assert prompt[n..n] == [];
    } else {
      assert prompt[n..n + k] == prompt[n..n + k - 1] + [prompt[n + k - 1]];
      assert seq(k, _ => true) == seq(k - 1, _ => true) + [true];
      VisibleRun(prompt, n, k - 1);
    }
  }

  lemma {:induction false} HiddenRun(prompt: seq<Byte>, n: nat, k: nat)
    requires n + k <= |prompt| && Read(prompt, n).ignoring && 2 !in prompt[n..n + k]
    ensures var r, r' := Read(prompt, n), Read(prompt, n + k);
            && r'.ignoring && r'.start == r.start && r'.out == r.out + prompt[n..n + k]
            && r'.shown == r.shown + seq(k, _ => false)
  {
    if k == 0 {
      assert prompt[n..n] == [];
    } else {
      assert prompt[n..n + k] == prompt[n..n + k - 1] + [prompt[n + k - 1]];
      assert seq(k, _ => false) == seq(k - 1, _ => false) + [false];
      HiddenRun(prompt, n, k - 1);
    }
  }

  /** The markers `\001` and `\002` are dropped, and the text between them is copied but not visible. */
  lemma MarkersHide(prompt: seq<Byte>, n: nat, k: nat)
    requires n + k + 2 <= |prompt| && !Read(prompt, n).ignoring
    requires prompt[n] == 1 && 2 !in prompt[n + 1..n + 1 + k] && prompt[n + 1 + k] == 2
    ensures var r, r' := Read(prompt, n), Read(prompt, n + k + 2);
            && !r'.ignoring && r'.out == r.out + prompt[n + 1..n + 1 + k]
            && r'.shown == r.shown + seq(k, _ => false)
  {
    HiddenRun(prompt, n + 1, k);
  }

  // ----- What the results mean -----

  /** The wrap after `n` visible bytes: past the closed invisible runs that follow them. */
  predicate WrapPoint(r: Reading, n: nat, p: int)
  {
    && 0 <= p <= Settled(r) <= |r.shown| && Count(r.shown, p) == n
    && (p < Settled(r) ==> r.shown[p])
  }

  /** There is only one such point. */
  lemma WrapPointUnique(r: Reading, n: nat, p: int, q: int)
    requires WrapPoint(r, n, p) && WrapPoint(r, n, q)
    ensures p == q
  {
    if p < q {
      CountMonotone(r.shown, p, q);
    } else if q < p {
      CountMonotone(r.shown, q, p);
    }
  }

  /** The last byte of the closed invisible runs, 0 if there is none. */
  predicate LastInvisible(r: Reading, last: int)
  {
    && Settled(r) <= |r.shown| && 0 <= last && (last == 0 || (last < Settled(r) && !r.shown[last]))
    && forall j :: last < j < Settled(r) ==> r.shown[j]
  }

  /** The estimate of the number of screen lines. */
  function Guess(l: nat, width: nat): (n: nat)
    requires width > 0
  {
    if l < width then 1 else l / width + 1
  }

  /** The first `k` wraps are recorded, the rest of the array holds -1. */
  ghost predicate Wraps(r: Reading, width: nat, k: nat, breaks: seq<int>)
  {
    && k + 1 < |breaks| && breaks[0] == 0
    && (forall j {:trigger breaks[j]} :: 1 <= j <= k ==> WrapPoint(r, j * width, breaks[j]))
    && (forall j {:trigger breaks[j]} :: k < j < |breaks| ==> breaks[j] == -1)
  }

  /** Invisible bytes on the first screen line. */
  function FirstLineInvisible(r: Reading, width: nat, breaks: seq<int>): (n: int)
    requires |r.shown| <= |r.out|
  {
    var visible := Count(r.shown, |r.shown|);
    if visible > width && |breaks| > 1 then breaks[1] - width else |r.out| - visible
  }

  /** The result of expanding a prompt. */
  datatype Expanded = Expanded(out: seq<Byte>, visible: nat, last: int, firstLineInvisible: int, breaks: seq<int>)

  ghost predicate Correct(prompt: seq<Byte>, width: nat, e: Expanded)
    requires width > 0
  {
    var r := Read(prompt, |prompt|);
    && WellRead(r, |prompt|)
    && e.out == r.out && e.visible == Count(r.shown, |r.shown|) && LastInvisible(r, e.last)
    && |e.breaks| == Guess(|prompt|, width) + 1
    && (exists k: nat {:trigger Wraps(r, width, k, e.breaks)} ::
          Wraps(r, width, k, e.breaks) && k * width <= e.visible < k * width + width)
    && e.firstLineInvisible == FirstLineInvisible(r, width, e.breaks)
  }

  /** The invisible bytes of the first screen line are those before the first wrap, if more is shown
      than fits the line, and otherwise all. */
  lemma FirstLineCount(prompt: seq<Byte>, width: nat, e: Expanded)
    requires width > 0 && Correct(prompt, width, e)
    ensures var shown := Read(prompt, |prompt|).shown;
            if e.visible > width then
              0 <= e.breaks[1] <= |shown| && e.firstLineInvisible == e.breaks[1] - Count(shown, e.breaks[1])
            else
              e.firstLineInvisible == |shown| - Count(shown, |shown|)
  {
    var r := Read(prompt, |prompt|);
    var k: nat :| Wraps(r, width, k, e.breaks) && k * width <= e.visible < k * width + width;
    if e.visible > width {
      assert k >= 1;
      assert WrapPoint(r, 1 * width, e.breaks[1]);
    }
  }

  lemma OneMore(k: nat, width: nat)
    ensures (k + 1) * width == k * width + width
  {
  }

  lemma {:induction false} TimesMonotone(j: nat, k: nat, width: nat)
    requires j < k
    ensures j * width + width <= k * width
  {
    OneMore(k - 1, width);
    if j < k - 1 {
      TimesMonotone(j, k - 1, width);
    }
  }

  lemma SameBreaks(r: Reading, width: nat, k: nat, a: seq<int>, b: seq<int>)
    requires |a| == |b| && Wraps(r, width, k, a) && Wraps(r, width, k, b)
    ensures a == b
  {
    forall j | 0 <= j < |a| ensures a[j] == b[j]
    {
      if 1 <= j <= k {
        WrapPointUnique(r, j * width, a[j], b[j]);
      }
    }
  }

  /** The result is determined: two ways to compute it must agree. */
  lemma CorrectUnique(prompt: seq<Byte>, width: nat, d: Expanded, e: Expanded)
    requires width > 0 && Correct(prompt, width, d) && Correct(prompt, width, e)
    ensures d == e
  {
    var r := Read(prompt, |prompt|);
    var k: nat :| Wraps(r, width, k, d.breaks) && k * width <= d.visible < k * width + width;
    var m: nat :| Wraps(r, width, m, e.breaks) && m * width <= e.visible < m * width + width;
    if k < m {
      TimesMonotone(k, m, width);
    } else if m < k {
      TimesMonotone(m, k, width);
    }
    SameBreaks(r, width, k, d.breaks, e.breaks);
  }

  // ----- One turn of the loop -----

  /** The state of the loop after the bytes `r` stands for. */
  ghost predicate Loop(r: Reading, n: nat, width: nat, k: nat, breaks: seq<int>, rl: nat, last: int, invfl: int)
  {
    && WellRead(r, n) && Wraps(r, width, k, breaks) && LastInvisible(r, last)
    && rl == Count(r.shown, |r.shown|) && k * width <= rl < k * width + width
    && invfl == if k == 0 then 0 else breaks[1] - width
  }

  /** A marker opens an invisible run. */
  lemma Open(r: Reading, n: nat, width: nat, k: nat, breaks: seq<int>, rl: nat, last: int, invfl: int, r': Reading)
    requires Loop(r, n, width, k, breaks, rl, last, invfl) && !r.ignoring && r' == Step(r, START_IGNORE)
    ensures Loop(r', n + 1, width, k, breaks, rl, last, invfl)
  {
    forall j {:trigger breaks[j]} | 1 <= j <= k
      ensures WrapPoint(r', j * width, breaks[j])
    {
      assert WrapPoint(r, j * width, breaks[j]);
    }
  }

  /** The last wrap is at the end of what is settled exactly when no visible byte came after it. */
  lemma AtWrap(r: Reading, n: nat, width: nat, k: nat, breaks: seq<int>, rl: nat, j: nat)
    requires width > 0 && WellRead(r, n) && Wraps(r, width, k, breaks) && rl == Count(r.shown, |r.shown|)
    requires k * width <= rl < k * width + width && 1 <= j <= k
    ensures breaks[j] == Settled(r) <==> j == k && rl == k * width
  {
    var p := breaks[j];
    assert WrapPoint(r, j * width, p);
    CountMonotone(r.shown, Settled(r), |r.shown|);
    CountMonotone(r.shown, p, Settled(r));
    if j < k {
      TimesMonotone(j, k, width);
    }
  }

  /** A marker closes the run: a wrap just before it moves past it. */
  lemma Close(r: Reading, n: nat, width: nat, k: nat, breaks: seq<int>, rl: nat, last: int, invfl: int,
              r': Reading, breaks': seq<int>, last': int, invfl': int)
    requires width > 0 && Loop(r, n, width, k, breaks, rl, last, invfl) && r.ignoring && r' == Step(r, END_IGNORE)
    requires var canAdd := k >= 1 && rl == k * width;
             && breaks' == (if canAdd then breaks[k := |r.out|] else breaks)
             && invfl' == (if canAdd && k == 1 then |r.out| - rl else invfl)
             && last' == (if |r.out| > r.start then |r.out| - 1 else last)
    ensures Loop(r', n + 1, width, k, breaks', rl, last', invfl')
  {
    var moved := k >= 1 && rl == k * width;
    CloseWraps(r, n, width, k, breaks, rl, r', breaks', moved);
    ClosedRun(r, n, last, r', last');
  }

  lemma ClosedRun(r: Reading, n: nat, last: int, r': Reading, last': int)
    requires WellRead(r, n) && LastInvisible(r, last) && r.ignoring && r' == Step(r, END_IGNORE)
    requires last' == if |r.out| > r.start then |r.out| - 1 else last
    ensures WellRead(r', n + 1) && LastInvisible(r', last')
  {
  }

  lemma CloseWraps(r: Reading, n: nat, width: nat, k: nat, breaks: seq<int>, rl: nat,
                   r': Reading, breaks': seq<int>, moved: bool)
    requires width > 0 && WellRead(r, n) && Wraps(r, width, k, breaks) && rl == Count(r.shown, |r.shown|)
    requires k * width <= rl < k * width + width && r.ignoring && r' == Step(r, END_IGNORE)
    requires moved == (k >= 1 && rl == k * width) && breaks' == if moved then breaks[k := |r.out|] else breaks
    ensures Wraps(r', width, k, breaks')
  {
    forall j {:trigger breaks'[j]} | 1 <= j <= k ensures WrapPoint(r', j * width, breaks'[j])
    {
      CloseWrap(r, n, width, k, breaks, rl, r', j);
    }
  }

  lemma CloseWrap(r: Reading, n: nat, width: nat, k: nat, breaks: seq<int>, rl: nat, r': Reading, j: nat)
    requires width > 0 && WellRead(r, n) && Wraps(r, width, k, breaks) && rl == Count(r.shown, |r.shown|)
    requires k * width <= rl < k * width + width && r.ignoring && r' == Step(r, END_IGNORE) && 1 <= j <= k
    ensures WrapPoint(r', j * width, if j == k && rl == k * width then |r.out| else breaks[j])
  {
    AtWrap(r, n, width, k, breaks, rl, j);
    assert WrapPoint(r, j * width, breaks[j]);
  }

  /** A byte of an invisible run. */
  lemma Hide(r: Reading, n: nat, width: nat, k: nat, breaks: seq<int>, rl: nat, last: int, invfl: int, c: Byte,
             r': Reading)
    requires Loop(r, n, width, k, breaks, rl, last, invfl) && r.ignoring && c != END_IGNORE && r' == Step(r, c)
    ensures Loop(r', n + 1, width, k, breaks, rl, last, invfl)
  {
    CountPrefix(r.shown, false, |r.shown|);
    forall j {:trigger breaks[j]} | 1 <= j <= k ensures WrapPoint(r', j * width, breaks[j])
    {
      assert WrapPoint(r, j * width, breaks[j]);
      CountPrefix(r.shown, false, breaks[j]);
    }
  }

  /** A wrap is not disturbed by a further visible byte. */
  lemma WrapStays(r: Reading, n: nat, p: int, c: Byte, r': Reading)
    requires WrapPoint(r, n, p) && |r.shown| == |r.out| && !r.ignoring && c != START_IGNORE && r' == Step(r, c)
    ensures WrapPoint(r', n, p)
  {
    CountPrefix(r.shown, true, p);
  }

  lemma ShownByte(r: Reading, n: nat, rl: nat, last: int, c: Byte, r': Reading)
    requires WellRead(r, n) && LastInvisible(r, last) && rl == Count(r.shown, |r.shown|)
    requires !r.ignoring && c != START_IGNORE && r' == Step(r, c)
    ensures WellRead(r', n + 1) && LastInvisible(r', last) && rl + 1 == Count(r'.shown, |r'.shown|)
    ensures |r'.shown| == |r.out| + 1 == Settled(r')
  {
    CountPrefix(r.shown, true, |r.shown|);
  }

  lemma WrapsStay(r: Reading, width: nat, k: nat, breaks: seq<int>, c: Byte, r': Reading)
    requires Wraps(r, width, k, breaks) && |r.shown| == |r.out| && !r.ignoring && c != START_IGNORE && r' == Step(r, c)
    ensures Wraps(r', width, k, breaks)
  {
    forall j {:trigger breaks[j]} | 1 <= j <= k ensures WrapPoint(r', j * width, breaks[j])
    {
      WrapStays(r, j * width, breaks[j], c, r');
    }
  }

  lemma OneMoreWrap(r: Reading, width: nat, k: nat, breaks: seq<int>, p: int)
    requires Wraps(r, width, k, breaks) && k + 2 < |breaks| && WrapPoint(r, (k + 1) * width, p)
    ensures Wraps(r, width, k + 1, breaks[k + 1 := p])
  {
  }

  /** A visible byte, which may fill a screen line. */
  lemma Show(r: Reading, n: nat, width: nat, k: nat, breaks: seq<int>, rl: nat, last: int, invfl: int,
             c: Byte, r': Reading, k': nat, breaks': seq<int>, invfl': int)
    requires width > 0 && Loop(r, n, width, k, breaks, rl, last, invfl) && !r.ignoring && c != START_IGNORE
      && r' == Step(r, c)
    requires var full := rl + 1 == k * width + width;
             && k' == (if full then k + 1 else k) && k' + 1 < |breaks|
             && breaks' == (if full then breaks[k + 1 := |r.out| + 1] else breaks)
             && invfl' == (if full && k == 0 then |r.out| - rl else invfl)
    ensures Loop(r', n + 1, width, k', breaks', rl + 1, last, invfl')
  {
    ShownByte(r, n, rl, last, c, r');
    OneMore(k, width);
    OneMore(k', width);
    WrapsStay(r, width, k, breaks, c, r');
    if k' == k + 1 {
      OneMoreWrap(r', width, k, breaks, |r.out| + 1);
    }
  }

  // ----- The code -----

  /** The array has room for the wraps and a terminator. */
  lemma RoomForWraps(l: nat, width: nat, k: nat)
    requires width > 0 && k * width <= l
    ensures k + 1 <= Guess(l, width)
  {
    if l < width {
      if k > 0 {
        TimesMonotone(0, k, width);
      }
    } else if l / width < k {
      TimesMonotone(l / width, k, width);
    }
  }

  lemma {:induction false} PlainPrompt(prompt: seq<Byte>, n: nat)
    requires n <= |prompt| && START_IGNORE !in prompt
    ensures var r := Read(prompt, n);
            && !r.ignoring && r.out == prompt[..n] && |r.shown| == n && Count(r.shown, n) == n
            && forall j :: 0 <= j < n ==> r.shown[j]
  {
    if n > 0 {
      PlainPrompt(prompt, n - 1);
      CountPrefix(Read(prompt, n - 1).shown, true, n - 1);
      assert prompt[n - 1] in prompt;
    }
  }

  lemma ShortCircuit(prompt: seq<Byte>, width: nat)
    requires START_IGNORE !in prompt && |prompt| < width
    ensures Correct(prompt, width, Expanded(prompt, |prompt|, 0, 0, [0, -1]))
  {
    var r := Read(prompt, |prompt|);
    PlainPrompt(prompt, |prompt|);
    ReadWell(prompt, |prompt|);
    assert prompt[..|prompt|] == prompt;
    assert Wraps(r, width, 0, [0, -1]);
  }

  method FreshBreaks(n: nat) returns (breaks: array<int>)
    ensures fresh(breaks) && breaks.Length == n + 1 && breaks[0] == 0 && forall j :: 1 <= j <= n ==> breaks[j] == -1
  {
    breaks := new int[n + 1];
    breaks[0] := 0;
    var rl := 1;
    while rl <= n
      invariant 1 <= rl <= n + 1 && breaks[0] == 0 && forall j :: 1 <= j < rl ==> breaks[j] == -1
    {
      breaks[rl] := -1;
      rl := rl + 1;
    }
  }

  /** The variables of the loop, but for the array. */
  datatype Locals = Locals(out: seq<Byte>, rl: nat, ninvis: int, invfl: int, invflset: bool, ignoring: bool,
                           igstart: int, last: int, newlines: nat, canAddInvis: bool)

  ghost predicate Ready(prompt: seq<Byte>, p: nat, width: nat, v: Locals, breaks: seq<int>)
    requires width > 0
  {
    && p <= |prompt| && |breaks| == Guess(|prompt|, width) + 1
    && Running(Read(prompt, p), p, width, v, breaks)
  }

  ghost predicate Running(r: Reading, p: nat, width: nat, v: Locals, breaks: seq<int>)
  {
    && Loop(r, p, width, v.newlines, breaks, v.rl, v.last, v.invfl)
    && v.out == r.out && v.ignoring == r.ignoring && v.ninvis == |v.out| - v.rl
    && v.invflset == (v.newlines >= 1) && v.canAddInvis == (v.newlines >= 1 && v.rl == v.newlines * width)
    && (v.ignoring ==> p - v.igstart - 1 == |v.out| - r.start)
  }

  /** At a closing marker. */
  method CloseRun(p: nat, width: nat, v: Locals, breaks: array<int>, ghost r: Reading) returns (v': Locals)
    requires width > 0 && Running(r, p, width, v, breaks[..]) && v.ignoring
    modifies breaks
    ensures Running(Step(r, END_IGNORE), p + 1, width, v', breaks[..])
  {
    ghost var before := breaks[..];
    v' := v.(ignoring := false);
    if v.canAddInvis {
      breaks[v.newlines] := |v.out|;
      if v.invflset && v.newlines == 1 {
        v' := v'.(invfl := v.ninvis);
      }
    }
    if p != v.igstart + 1 {
      v' := v'.(last := |v.out| - 1);
    }
    Close(r, p, width, v.newlines, before, v.rl, v.last, v.invfl, Step(r, END_IGNORE), breaks[..], v'.last, v'.invfl);
  }

  /** At a byte that is copied.  Only a visible one can fill a screen line. */
  method CopyByte(c: Byte, p: nat, l: nat, width: nat, v: Locals, breaks: array<int>, ghost r: Reading)
    returns (v': Locals)
    requires width > 0 && p < l && Running(r, p, width, v, breaks[..]) && breaks.Length == Guess(l, width) + 1
    requires if v.ignoring then c != END_IGNORE else c != START_IGNORE
    modifies breaks
    ensures Running(Step(r, c), p + 1, width, v', breaks[..])
  {
    ghost var before := breaks[..];
    v' := v.(out := v.out + [c]);
    if !v.ignoring {
      v' := v'.(rl := v.rl + 1);
    } else {
      v' := v'.(ninvis := v.ninvis + 1);
    }
    if !v.invflset && v'.rl >= width {
      v' := v'.(invfl := v'.ninvis, invflset := true);
    }
    var bound := (v.newlines + 1) * width;
    OneMore(v.newlines, width);
    RoomForWraps(l, width, v.newlines);
    if v'.rl >= bound && breaks[v.newlines + 1] == -1 {
      RoomForWraps(l, width, v.newlines + 1);
      v' := v'.(newlines := v.newlines + 1);
      breaks[v'.newlines] := |v'.out|;
    }
    if !v.ignoring {
      v' := v'.(canAddInvis := v'.rl == bound);
      Show(r, p, width, v.newlines, before, v.rl, v.last, v.invfl, c, Step(r, c), v'.newlines, breaks[..], v'.invfl);
    } else {
      Hide(r, p, width, v.newlines, before, v.rl, v.last, v.invfl, c, Step(r, c));
    }
  }

  method Turn(prompt: seq<Byte>, p: nat, width: nat, v: Locals, breaks: array<int>) returns (v': Locals)
    requires width > 0 && p < |prompt| && Ready(prompt, p, width, v, breaks[..])
    modifies breaks
    ensures Ready(prompt, p + 1, width, v', breaks[..])
  {
    ghost var r := Read(prompt, p);
    if !v.ignoring && prompt[p] == START_IGNORE {
      Open(r, p, width, v.newlines, breaks[..], v.rl, v.last, v.invfl, Step(r, START_IGNORE));
      v' := v.(ignoring := true, igstart := p);
    } else if v.ignoring && prompt[p] == END_IGNORE {
      v' := CloseRun(p, width, v, breaks, r);
    } else {
      v' := CopyByte(prompt[p], p, |prompt|, width, v, breaks, r);
    }
  }

  lemma AtStart(prompt: seq<Byte>, width: nat, breaks: seq<int>)
    requires width > 0 && |breaks| == Guess(|prompt|, width) + 1
    requires breaks[0] == 0 && forall j :: 1 <= j < |breaks| ==> breaks[j] == -1
    ensures Ready(prompt, 0, width, Locals([], 0, 0, 0, false, false, 0, 0, 0, false), breaks)
  {
  }

  lemma AtEnd(prompt: seq<Byte>, width: nat, v: Locals, breaks: seq<int>)
    requires width > 0 && Ready(prompt, |prompt|, width, v, breaks)
    ensures Correct(prompt, width, Expanded(v.out, v.rl, v.last, if v.rl <= width then v.ninvis else v.invfl, breaks))
  {
    if v.rl > width && v.newlines == 0 {
      assert false;
    }
  }

  /** `expand_prompt`: the stripped prompt, its visible length, its last invisible byte, the
      invisible bytes of its first screen line, and where it wraps.  A short prompt without
      invisible text takes a short cut to the same result. */
  method ExpandPrompt(prompt: seq<Byte>, width: nat) returns (e: Expanded)
    requires width > 0
    ensures Correct(prompt, width, e)
  {
    if START_IGNORE !in prompt && |prompt| < width {
      ShortCircuit(prompt, width);
      return Expanded(prompt, |prompt|, 0, 0, [0, -1]);
    }
    var breaks := FreshBreaks(Guess(|prompt|, width));
    var v := Locals([], 0, 0, 0, false, false, 0, 0, 0, false);
    AtStart(prompt, width, breaks[..]);
    var p := 0;
    while p < |prompt|
      invariant 0 <= p <= |prompt| && Ready(prompt, p, width, v, breaks[..])
    {
      v := Turn(prompt, p, width, v, breaks);
      p := p + 1;
    }
    AtEnd(prompt, width, v, breaks[..]);
    if v.rl <= width {
      v := v.(invfl := v.ninvis);
    }
    e := Expanded(v.out, v.rl, v.last, v.invfl, breaks[..]);
  }
}
