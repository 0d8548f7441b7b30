/** What `update_line` leaves on a one-line screen, for any terminal, and when that is right. */
module DisplaySpec {
  import opened Screen

  /** `_rl_terminal_can_insert` */
  predicate CanInsert(caps: Capabilities)
  {
    caps.IC != Missing || caps.im != Missing || caps.ic != Missing
  }

  /** If insertion is claimed, the capability that gets used is usable, and insert mode can be left. */
  predicate InsertsHonestly(caps: Capabilities)
  {
    CanInsert(caps) ==>
      if caps.IC != Missing then caps.IC == Usable
      else if caps.im == Usable then caps.ei == Usable
      else caps.ic == Usable
  }

  /** If deletion is claimed, one of its two forms is usable. */
  predicate DeletesHonestly(caps: Capabilities)
  {
    caps.dc != Missing ==> caps.DC == Usable || caps.dc == Usable
  }

  /** Clearing is usable or not claimed. */
  predicate ClearsHonestly(caps: Capabilities)
  {
    caps.clreol != Blank
  }

  /** A terminal description that does what its capabilities promise, as far as it matters on a line
      of `width` columns: on the narrowest lines nothing is ever cleared, deleted or inserted. */
  predicate HonestFor(caps: Capabilities, width: nat)
  {
    && (width >= 2 ==> ClearsHonestly(caps))
    && (width >= 3 ==> DeletesHonestly(caps))
    && (width >= 4 ==> InsertsHonestly(caps))
  }

  /** The length of the longest common prefix, counted from `i`. */
  function FirstDifference(old': string, new': string, i: nat): (d: nat)
    requires i <= |old'| && i <= |new'| && old'[..i] == new'[..i]
    ensures i <= d <= |old'| && d <= |new'| && old'[..d] == new'[..d]
    ensures d < |old'| && d < |new'| ==> old'[d] != new'[d]
    decreases |old'| - i
  {
    if i < |old'| && i < |new'| && old'[i] == new'[i] then
      assert old'[..i + 1] == old'[..i] + [old'[i]] && new'[..i + 1] == new'[..i] + [new'[i]];
      FirstDifference(old', new', i + 1)
    else i
  }

  /** Where the backward scan over equal characters stops, and whether it saw a non-blank. */
  function ScanBack(old': string, new': string, d: nat, o: int, n: int, text: bool): (r: (int, int, bool))
    requires d <= |old'| && d <= |new'| && -1 <= o < |old'| && -1 <= n < |new'|
    decreases o
  {
    if o > d && n > d && old'[o] == new'[n] then ScanBack(old', new', d, o - 1, n - 1, text || old'[o] != ' ')
    else (o, n, text)
  }

  /** The region to redraw: first difference, and where the common tails begin. */
  datatype Region = Region(first: nat, oldTail: nat, newTail: nat)

  function ChangedRegion(old': string, new': string): (r: Region)
    requires old' != new'
    ensures r.first <= r.oldTail <= |old'| && r.first <= r.newTail <= |new'|
    ensures |old'| - r.oldTail == |new'| - r.newTail
    ensures forall j :: 0 <= j < r.first ==> old'[j] == new'[j]
    ensures forall j :: r.newTail <= j < |new'| ==> new'[j] == old'[j - r.newTail + r.oldTail]
  {
    var d := FirstDifference(old', new', 0);
    assert forall j :: 0 <= j < d ==> old'[j] == new'[j] by {
      forall j | 0 <= j < d ensures old'[j] == new'[j] { assert old'[..d][j] == new'[..d][j]; }
    }
    var (o, n, text) := ScanBack(old', new', d, |old'| - 1, |new'| - 1, false);
    ScanBackFacts(old', new', d, |old'| - 1, |new'| - 1, false);
    if !text then Region(d, |old'|, |new'|)
    else if old'[o] != new'[n] then Region(d, o + 1, n + 1)
    else Region(d, o, n)
  }

  lemma {:induction false} ScanBackFacts(old': string, new': string, d: nat, o: int, n: int, text: bool)
    requires d <= |old'| && d <= |new'| && -1 <= o < |old'| && -1 <= n < |new'|
    requires text ==> d <= o && d <= n
    requires |old'| - o == |new'| - n
    requires forall j :: n < j < |new'| ==> new'[j] == old'[j - n + o]
    ensures var r := ScanBack(old', new', d, o, n, text);
            && (r.2 ==> d <= r.0 < |old'| && d <= r.1 < |new'|)
            && |old'| - r.0 == |new'| - r.1
            && (r.2 ==> forall j :: r.1 < j < |new'| ==> new'[j] == old'[j - r.1 + r.0])
    decreases o
  {
    if o > d && n > d && old'[o] == new'[n] {
      ScanBackFacts(old', new', d, o - 1, n - 1, text || old'[o] != ' ');
    }
  }

  lemma {:induction false} ScanBackIs(old': string, new': string, d: nat, o: int, n: int, text: bool)
    requires d <= |old'| && d <= |new'| && -1 <= o < |old'| && -1 <= n < |new'|
    ensures var r := ScanBack(old', new', d, o, n, text);
            && -1 <= r.0 <= o && -1 <= r.1 <= n && o - r.0 == n - r.1
            && (r.0 > d && r.1 > d ==> old'[r.0] != new'[r.1])
            && (r.2 <==> text || exists j :: r.0 < j <= o && old'[j] != ' ')
    decreases o
  {
    if o > d && n > d && old'[o] == new'[n] {
      ScanBackIs(old', new', d, o - 1, n - 1, text || old'[o] != ' ');
    }
  }

  /** The texts end in the same `m` characters, all of them after position `d`. */
  predicate CommonEnd(old': string, new': string, d: nat, m: nat)
  {
    d + m < |old'| && d + m < |new'| && old'[|old'| - m..] == new'[|new'| - m..]
  }

  /** The region begins at the first difference; it ends where the longest common end begins, if there
      is more than blanks in it, and otherwise with the lines. */
  lemma RegionIs(old': string, new': string)
    requires old' != new'
    ensures var r := ChangedRegion(old', new');
            && old'[..r.first] == new'[..r.first]
            && (r.first < |old'| && r.first < |new'| ==> old'[r.first] != new'[r.first])
            && (r.oldTail < |old'| ==>
                  && (exists j :: r.oldTail <= j < |old'| && old'[j] != ' ')
                  && (r.oldTail > r.first && r.newTail > r.first ==> old'[r.oldTail - 1] != new'[r.newTail - 1]))
            && (r.oldTail == |old'| ==>
                  forall m: nat, j :: CommonEnd(old', new', r.first, m) && |old'| - m <= j < |old'| ==> old'[j] == ' ')
  {
    var d := FirstDifference(old', new', 0);
    var (o, n, text) := ScanBack(old', new', d, |old'| - 1, |new'| - 1, false);
    ScanBackIs(old', new', d, |old'| - 1, |new'| - 1, false);
    ScanBackFacts(old', new', d, |old'| - 1, |new'| - 1, false);
    if !text {
      forall m: nat, j | CommonEnd(old', new', d, m) && |old'| - m <= j < |old'|
        ensures old'[j] == ' '
      {
        EndIsScanned(old', new', d, m, o, n);
      }
    }
  }

  lemma EndIsScanned(old': string, new': string, d: nat, m: nat, o: int, n: int)
    requires CommonEnd(old', new', d, m) && -1 <= o < |old'| && -1 <= n < |new'| && |old'| - o == |new'| - n
    requires o > d && n > d ==> old'[o] != new'[n]
    ensures o < |old'| - m
  {
    forall i | |old'| - m <= i < |old'| ensures old'[i] == new'[i - |old'| + |new'|]
    {
      var k := i - (|old'| - m);
      assert old'[|old'| - m..][k] == new'[|new'| - m..][k];
    }
  }

  /** `open_some_spaces`: the line afterwards, and whether insert mode is still on. */
  function Opened(caps: Capabilities, cells: string, col: nat, n: nat): (r: (string, bool))
    ensures |r.0| == |cells|
  {
    if caps.IC != Missing then (if caps.IC == Usable then Inserted(cells, col, Blanks(n)) else cells, false)
    else if caps.im == Usable then (Inserted(cells, col, Blanks(n)), caps.ei != Usable)
    else (if caps.ic == Usable then Inserted(cells, col, Blanks(n)) else cells, false)
  }

  lemma InsertModeIsLeft(caps: Capabilities, cells: string, col: nat, n: nat)
    requires CanInsert(caps)
    ensures InsertsHonestly(caps) ==> !Opened(caps, cells, col, n).1
  {
  }

  /** `delete_chars` */
  function Deleted(caps: Capabilities, cells: string, col: nat, n: nat): (r: string)
  {
    if caps.DC == Usable || caps.dc == Usable then Removed(cells, col, n) else cells
  }

  /** `_rl_clear_to_eol` */
  function ClearedToEol(caps: Capabilities, cells: string, col: nat, n: nat): (r: string)
  {
    match caps.clreol
    case Missing => Overwrite(cells, col, Blanks(n))
    case Blank => cells
    case Usable => Removed(cells, col, |cells|)
  }

  /** Making the shown line longer. */
  function Lengthened(caps: Capabilities, shown: string, oldLen: nat, new': string, r: Region): (cells: string)
    requires r.first <= r.newTail <= |new'| && oldLen <= |new'|
  {
    if CanInsert(caps) && r.oldTail < oldLen then
      var room := Opened(caps, shown, r.first, |new'| - oldLen);
      Written(room.0, r.first, new'[r.first..r.newTail], room.1)
    else Overwrite(shown, r.first, new'[r.first..])
  }

  /** Making the shown line shorter, or changing it in place. */
  function Shortened(caps: Capabilities, shown: string, oldLen: nat, new': string, r: Region): (cells: string)
    requires r.first <= r.newTail <= |new'| <= oldLen
  {
    if caps.dc != Missing && 2 * (|new'| - r.first) >= oldLen - |new'| then
      Overwrite(Deleted(caps, shown, r.first, oldLen - |new'|), r.first, new'[r.first..r.newTail])
    else
      var over := Overwrite(shown, r.first, new'[r.first..]);
      if oldLen == |new'| then over else ClearedToEol(caps, over, |new'|, oldLen - |new'|)
  }

  /** The screen after `update_line` has turned a line showing `old'` into one meant to show `new'`. */
  function Redrawn(caps: Capabilities, width: nat, old': string, new': string): (cells: string)
  {
    var shown := Padded(old', width);
    if old' == new' then shown
    else if |new'| > |old'| then Lengthened(caps, shown, |old'|, new', ChangedRegion(old', new'))
    else Shortened(caps, shown, |old'|, new', ChangedRegion(old', new'))
  }

  ghost predicate Bounds(old': string, new': string, r: Region)
  {
    && r.first <= r.oldTail <= |old'| && r.first <= r.newTail <= |new'|
    && |old'| - r.oldTail == |new'| - r.newTail
    && (forall j :: 0 <= j < r.first ==> old'[j] == new'[j])
    && (forall j :: r.newTail <= j < |new'| ==> new'[j] == old'[j - r.newTail + r.oldTail])
  }

  lemma InsertedRight(width: nat, old': string, new': string, r: Region)
    requires |old'| < |new'| < width && Bounds(old', new', r)
    ensures Overwrite(Inserted(Padded(old', width), r.first, Blanks(|new'| - |old'|)), r.first,
                      new'[r.first..r.newTail])
         == Padded(new', width)
  {
  }

  lemma OverwrittenRight(width: nat, old': string, new': string, r: Region)
    requires |old'| <= |new'| < width && Bounds(old', new', r)
    ensures Overwrite(Padded(old', width), r.first, new'[r.first..]) == Padded(new', width)
  {
  }

  lemma DeletedRight(width: nat, old': string, new': string, r: Region)
    requires |new'| <= |old'| < width && Bounds(old', new', r)
    ensures Overwrite(Removed(Padded(old', width), r.first, |old'| - |new'|), r.first, new'[r.first..r.newTail])
         == Padded(new', width)
  {
  }

  lemma ClearedRight(width: nat, old': string, new': string, r: Region)
    requires |new'| < |old'| < width && Bounds(old', new', r)
    ensures var over := Overwrite(Padded(old', width), r.first, new'[r.first..]);
            && Overwrite(over, |new'|, Blanks(|old'| - |new'|)) == Padded(new', width)
            && Removed(over, |new'|, width) == Padded(new', width)
  {
  }

  /** Lines of at most one character have no common tail. */
  lemma NoTail(old': string, new': string)
    requires |old'| <= 1 && old' != new'
    ensures ChangedRegion(old', new').oldTail == |old'|
  {
  }

  lemma HonestGrow(caps: Capabilities, width: nat, old': string, new': string)
    requires |old'| < |new'| < width && HonestFor(caps, width)
    ensures Redrawn(caps, width, old', new') == Padded(new', width)
  {
    var r := ChangedRegion(old', new');
    if width < 4 {
      NoTail(old', new');
    }
    if CanInsert(caps) && r.oldTail < |old'| {
      InsertedRight(width, old', new', r);
    } else {
      OverwrittenRight(width, old', new', r);
    }
  }

  lemma HonestDelete(caps: Capabilities, width: nat, old': string, new': string)
    requires |new'| <= |old'| < width && old' != new' && HonestFor(caps, width)
    requires caps.dc != Missing && 2 * (|new'| - ChangedRegion(old', new').first) >= |old'| - |new'|
    ensures Redrawn(caps, width, old', new') == Padded(new', width)
  {
    DeletedRight(width, old', new', ChangedRegion(old', new'));
    if |old'| == |new'| {
      assert Removed(Padded(old', width), ChangedRegion(old', new').first, 0) == Padded(old', width);
    }
  }

  lemma HonestClear(caps: Capabilities, width: nat, old': string, new': string)
    requires |new'| <= |old'| < width && old' != new' && HonestFor(caps, width)
    requires !(caps.dc != Missing && 2 * (|new'| - ChangedRegion(old', new').first) >= |old'| - |new'|)
    ensures Redrawn(caps, width, old', new') == Padded(new', width)
  {
    if |new'| == |old'| {
      OverwrittenRight(width, old', new', ChangedRegion(old', new'));
    } else {
      ClearedRight(width, old', new', ChangedRegion(old', new'));
    }
  }

  lemma HonestShrink(caps: Capabilities, width: nat, old': string, new': string)
    requires |new'| <= |old'| < width && old' != new' && HonestFor(caps, width)
    ensures Redrawn(caps, width, old', new') == Padded(new', width)
  {
    if caps.dc != Missing && 2 * (|new'| - ChangedRegion(old', new').first) >= |old'| - |new'| {
      HonestDelete(caps, width, old', new');
    } else {
      HonestClear(caps, width, old', new');
    }
  }

  /** On an honest terminal an incremental update shows what a full redraw would. */
  lemma HonestRedraw(caps: Capabilities, width: nat, old': string, new': string)
    requires |old'| < width && |new'| < width && HonestFor(caps, width)
    ensures Redrawn(caps, width, old', new') == Padded(new', width)
  {
    if |new'| > |old'| {
      HonestGrow(caps, width, old', new');
    } else if old' != new' {
      HonestShrink(caps, width, old', new');
    }
  }

  /** The regions of the examples below. */
  lemma RegionOfExamples()
    ensures ChangedRegion("ab", "cab") == Region(0, 0, 1)
    ensures ChangedRegion("ab", "c") == Region(0, 2, 1)
    ensures ChangedRegion("a", "") == Region(0, 1, 0)
  {
    assert FirstDifference("ab", "cab", 0) == 0;
    assert FirstDifference("ab", "c", 0) == 0;
    assert FirstDifference("a", "", 0) == 0;
    assert ScanBack("ab", "cab", 0, 0, 1, true) == (0, 1, true);
    assert ScanBack("ab", "cab", 0, 1, 2, false) == (0, 1, true);
    assert ScanBack("ab", "c", 0, 1, 0, false) == (1, 0, false);
    assert ScanBack("a", "", 0, 0, -1, false) == (0, -1, false);
  }

  /** On any other terminal some update goes wrong. */
  lemma DishonestRedraw(caps: Capabilities, width: nat)
    requires !HonestFor(caps, width)
    ensures exists old': string, new': string ::
      |old'| < width && |new'| < width && Redrawn(caps, width, old', new') != Padded(new', width)
  {
    if width >= 2 && !ClearsHonestly(caps) {
      NotCleared(caps, width);
    } else if width >= 3 && !DeletesHonestly(caps) {
      NotDeleted(caps, width);
    } else {
      NotInserted(caps, width);
    }
  }

  lemma NotCleared(caps: Capabilities, width: nat)
    requires width >= 2 && !ClearsHonestly(caps)
    ensures Redrawn(caps, width, "a", "") != Padded("", width)
  {
    RegionOfExamples();
    var cells := Redrawn(caps, width, "a", "");
    assert cells[0] == 'a' && Padded("", width)[0] == ' ';
  }

  lemma NotDeleted(caps: Capabilities, width: nat)
    requires width >= 3 && !DeletesHonestly(caps)
    ensures Redrawn(caps, width, "ab", "c") != Padded("c", width)
  {
    RegionOfExamples();
    var cells := Redrawn(caps, width, "ab", "c");
    assert cells[1] == 'b' && Padded("c", width)[1] == ' ';
  }

  lemma NotInserted(caps: Capabilities, width: nat)
    requires width >= 4 && !InsertsHonestly(caps)
    ensures Redrawn(caps, width, "ab", "cab") != Padded("cab", width)
  {
    RegionOfExamples();
    var cells := Redrawn(caps, width, "ab", "cab");
    assert cells[1] != 'a' && Padded("cab", width)[1] == 'a';
  }

  /** Exactly the terminal descriptions that are honest for the width of the screen are updated
      correctly for every pair of lines. */
  lemma RedrawIsRightIffHonest(caps: Capabilities, width: nat)
    ensures (forall old': string, new': string :: |old'| < width && |new'| < width ==>
               Redrawn(caps, width, old', new') == Padded(new', width))
        <==> HonestFor(caps, width)
  {
    if HonestFor(caps, width) {
      forall old': string, new': string | |old'| < width && |new'| < width
        ensures Redrawn(caps, width, old', new') == Padded(new', width)
      {
        HonestRedraw(caps, width, old', new');
      }
    } else {
      DishonestRedraw(caps, width);
    }
  }
}
