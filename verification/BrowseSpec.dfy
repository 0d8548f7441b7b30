/** What browsing the history does, as a line of independent buffers and as the library keeps it. */
module BrowseSpec {
  import opened Options

  // ----- What the user sees: a line of buffers, one of them current -----

  /** One buffer for every history entry and one, the last, for the unfinished line; the current
      one and the cursor in it. */
  datatype Zipper = Zipper(buffers: seq<string>, pos: nat, point: nat)

  predicate IsZipper(z: Zipper) { z.pos < |z.buffers| && z.point <= |z.buffers[z.pos]| }

  /** Moves, insertions at point, and any other change, with where it leaves point. */
  datatype Action =
    | Previous(count: int)
    | Next(count: int)
    | Beginning
    | EndOfHistory
    | Insert(text: string)
    | Change(line: string, to: nat)

  function Clamp(to: int, limit: nat): (r: nat)
    ensures r <= limit && (0 <= to <= limit ==> r == to)
  {
    if to < 0 then 0 else if to > limit then limit else to
  }

  /** The line `pos`; coming from another one, point goes to its end. */
  function MovedTo(z: Zipper, pos: nat): (r: Zipper)
    requires IsZipper(z) && pos < |z.buffers|
    ensures IsZipper(r) && r.buffers == z.buffers
  {
    Zipper(z.buffers, pos, if pos == z.pos then z.point else |z.buffers[pos]|)
  }

  /** The line a move goes to from line `pos` of `n + 1`, but not past either end. */
  function Destination(pos: nat, n: nat, a: Action): (to: nat)
    requires pos <= n
    ensures to <= n
  {
    match a
    case Previous(count) => Clamp(pos - count, n)
    case Next(count) => Clamp(pos + count, n)
    case Beginning => 0
    case EndOfHistory => n
    case _ => pos
  }

  function Inserted(line: string, point: nat, text: string): (r: string)
    requires point <= |line|
    ensures |r| == |line| + |text|
  {
    line[..point] + text + line[point..]
  }

  function Apply(z: Zipper, a: Action): (r: Zipper)
    requires IsZipper(z)
    ensures IsZipper(r) && |r.buffers| == |z.buffers|
  {
    match a
    case Insert(text) => Zipper(z.buffers[z.pos := Inserted(z.buffers[z.pos], z.point, text)], z.pos, z.point + |text|)
    case Change(line, to) => Zipper(z.buffers[z.pos := line], z.pos, Clamp(to, |line|))
    case _ => MovedTo(z, Destination(z.pos, |z.buffers| - 1, a))
  }

  /** After the first `k` actions. */
  function ApplyFirst(z: Zipper, actions: seq<Action>, k: nat): (r: Zipper)
    requires IsZipper(z) && k <= |actions|
    ensures IsZipper(r) && |r.buffers| == |z.buffers|
  {
    if k == 0 then z else Apply(ApplyFirst(z, actions, k - 1), actions[k - 1])
  }

  /** The text last given to buffer `j` by the first `k` actions, or the one it had. */
  function LastText(z: Zipper, actions: seq<Action>, k: nat, j: nat): (t: string)
    requires IsZipper(z) && k <= |actions| && j < |z.buffers|
  {
    if k == 0 then z.buffers[j]
    else
      var before, a := ApplyFirst(z, actions, k - 1), actions[k - 1];
      if before.pos == j && a.Insert? then Inserted(before.buffers[j], before.point, a.text)
      else if before.pos == j && a.Change? then a.line
      else LastText(z, actions, k - 1, j)
  }

  /** No buffer is lost or mixed with another: each holds what it was last given. */
  lemma {:induction false} BuffersAreIndependent(z: Zipper, actions: seq<Action>, k: nat, j: nat)
    requires IsZipper(z) && k <= |actions| && j < |z.buffers|
    ensures ApplyFirst(z, actions, k).buffers[j] == LastText(z, actions, k, j)
  {
    if k > 0 {
      BuffersAreIndependent(z, actions, k - 1, j);
    }
  }

  // ----- How the library keeps it: one line, one saved line, undo lists -----

  /** A history entry, or the saved unfinished line: its text and the identity of its undo list
      (0 for none). */
  datatype Item = Item(line: string, data: nat)

  /** The newest record of an undo list. */
  datatype Record = Insertion(start: nat, end: nat) | Other

  /** `line`, `point` and `undo` are the library's variables; `newest` holds the newest record of
      each undo list, and no list has the identity `unused` or a larger one; `listMade` says
      whether the history list was ever allocated. */
  datatype State = State(entries: seq<Item>, offset: nat, saved: Option<Item>, line: string, point: nat,
                         undo: nat, newest: map<nat, Record>, unused: nat, listMade: bool)

  predicate Known(list: nat, newest: map<nat, Record>, unused: nat)
  {
    list < unused && (list != 0 ==> list in newest)
  }

  predicate AllKnown(entries: seq<Item>, newest: map<nat, Record>, unused: nat)
  {
    forall i :: 0 <= i < |entries| ==> Known(entries[i].data, newest, unused)
  }

  predicate Valid(s: State)
  {
    && s.offset <= |s.entries| && (s.saved.Some? <==> s.offset < |s.entries|)
    && (s.entries != [] ==> s.listMade) && s.point <= |s.line|
    && Known(s.undo, s.newest, s.unused) && (s.saved.Some? ==> Known(s.saved.value.data, s.newest, s.unused))
    && AllKnown(s.entries, s.newest, s.unused)
  }

  /** The buffers, of which the current one is in the line, and the last one in the saved line
      when another is current. */
  ghost function Buffers(s: State): (b: seq<string>)
    requires s.offset <= |s.entries| && (s.saved.Some? <==> s.offset < |s.entries|)
    ensures |b| == |s.entries| + 1 && b[s.offset] == s.line
    ensures forall i :: 0 <= i < |s.entries| && i != s.offset ==> b[i] == s.entries[i].line
    ensures s.saved.Some? ==> b[|s.entries|] == s.saved.value.line
  {
    seq(|s.entries| + 1, i requires 0 <= i <= |s.entries| =>
      if i == s.offset then s.line else if i == |s.entries| then s.saved.value.line else s.entries[i].line)
  }

  ghost function View(s: State): (z: Zipper)
    requires Valid(s)
    ensures IsZipper(z)
  {
    Zipper(Buffers(s), s.offset, s.point)
  }

  /** The line is a history line with the undo list it had when it was stored. */
  predicate OwnList(s: State)
  {
    s.offset < |s.entries| && s.undo == s.entries[s.offset].data
  }

  /** The entries after `rl_maybe_replace_line`. */
  function Stored(s: State): (items: seq<Item>)
    ensures |items| == |s.entries|
  {
    if s.offset < |s.entries| && !OwnList(s) then s.entries[s.offset := Item(s.line, s.undo)] else s.entries
  }

  /** What moving away leaves of the current line. */
  function Kept(s: State): (t: string)
  {
    if OwnList(s) then s.entries[s.offset].line else s.line
  }

  /** Moving away keeps the line. */
  predicate Tracked(s: State) { Kept(s) == s.line }

  /** The unfinished line, wherever it is kept. */
  function Unfinished(s: State): (item: Item)
    requires Valid(s)
  {
    if s.offset == |s.entries| then Item(s.line, s.undo) else s.saved.value
  }

  const MAX_JOINED: nat := 20

  /** When `rl_insert_text` joins an insertion to the newest record instead of adding one. */
  predicate Joins(s: State, text: string)
    requires Valid(s)
  {
    && |text| == 1 && s.undo != 0
    && var newest := s.newest[s.undo];
       newest.Insertion? && newest.end == s.point && newest.end - newest.start < MAX_JOINED
  }

  // ----- One action -----

  /** Another line: the one left is stored, and the one gone to comes with its own undo list. */
  function Go(s: State, pos: nat): (t: State)
    requires Valid(s) && pos <= |s.entries| && pos != s.offset
    ensures Valid(t) && |t.entries| == |s.entries|
  {
    var entries := Stored(s);
    var item := if pos == |s.entries| then s.saved.value else entries[pos];
    s.(entries := entries, offset := pos, saved := if pos == |s.entries| then None else Some(Unfinished(s)),
       line := item.line, point := |item.line|, undo := item.data)
  }

  /** A move upwards that finds no line there: the current line is stored all the same, and on an
      empty history the undo list is forgotten. */
  function Refused(s: State): (t: State)
    requires Valid(s)
    ensures Valid(t) && |t.entries| == |s.entries|
  {
    s.(entries := Stored(s), undo := if s.entries == [] then 0 else s.undo)
  }

  function Up(s: State, count: nat): (t: State)
    requires Valid(s)
    ensures Valid(t) && |t.entries| == |s.entries|
  {
    if count == 0 || !s.listMade then s
    else if s.offset == 0 then Refused(s)
    else Go(s, Clamp(s.offset - count, |s.entries|))
  }

  function Down(s: State, count: nat): (t: State)
    requires Valid(s)
    ensures Valid(t) && |t.entries| == |s.entries|
  {
    if count == 0 || s.offset == |s.entries| then s else Go(s, Clamp(s.offset + count, |s.entries|))
  }

  /** A new undo list, with the old one behind its first record. */
  function WithRecord(s: State, record: Record): (t: State)
    requires Valid(s)
    ensures Valid(t) && !OwnList(t)
  {
    s.(newest := s.newest[s.unused := record], undo := s.unused, unused := s.unused + 1)
  }

  function AfterInsert(s: State, text: string): (t: State)
    requires Valid(s)
    ensures Valid(t) && t.entries == s.entries
  {
    if text == "" then s
    else
      var recorded :=
        if Joins(s, text) then s.(newest := s.newest[s.undo := Insertion(s.newest[s.undo].start, s.point + 1)])
        else WithRecord(s, Insertion(s.point, s.point + |text|));
      recorded.(line := Inserted(s.line, s.point, text), point := s.point + |text|)
  }

  function Step(s: State, a: Action): (t: State)
    requires Valid(s)
    ensures Valid(t) && |t.entries| == |s.entries|
  {
    match a
    case Previous(count) => if count < 0 then Down(s, -count) else Up(s, count)
    case Next(count) => if count < 0 then Up(s, -count) else Down(s, count)
    case Beginning => Up(s, 1 + s.offset)
    case EndOfHistory => if s.offset == |s.entries| then s else Go(s, |s.entries|)
    case Insert(text) => AfterInsert(s, text)
    case Change(line, to) => WithRecord(s, Other).(line := line, point := Clamp(to, |line|))
  }

  /** An insertion that is joined to the undo list of the entry it is made in. */
  predicate JoinsOwn(s: State, a: Action)
    requires Valid(s)
  {
    a.Insert? && Joins(s, a.text) && OwnList(s)
  }

  /** A move to another line while the current one has a change its undo list does not show. */
  predicate LeavesUntracked(s: State, a: Action)
    requires Valid(s)
  {
    Destination(s.offset, |s.entries|, a) != s.offset && !Tracked(s)
  }

  /** Going to another line changes no buffer but the one left, of which the stored text stays if
      its undo list did not show the change. */
  lemma GoView(s: State, pos: nat)
    requires Valid(s) && pos <= |s.entries| && pos != s.offset
    ensures View(Go(s, pos)) == Zipper(Buffers(s)[s.offset := Kept(s)], pos, |Buffers(Go(s, pos))[pos]|)
    ensures Unfinished(Go(s, pos)) == Unfinished(s) && Tracked(Go(s, pos))
  {
    assert Buffers(Go(s, pos)) == Buffers(s)[s.offset := Kept(s)];
  }

  lemma RefusedView(s: State)
    requires Valid(s)
    ensures View(Refused(s)) == View(s) && Kept(Refused(s)) == Kept(s)
  {
    assert Buffers(Refused(s)) == Buffers(s);
  }

  /** A move from `s` to the line `pos`: all other buffers are as they were, of the line left what is
      kept stays, and the line moved to comes with its own undo list. */
  ghost predicate Went(s: State, t: State, pos: nat)
    requires Valid(s) && Valid(t)
  {
    && pos <= |s.entries| == |t.entries|
    && (pos == s.offset ==> View(t) == View(s) && Kept(t) == Kept(s))
    && (pos != s.offset ==>
          && View(t) == Zipper(Buffers(s)[s.offset := Kept(s)], pos, |t.line|)
          && t.entries == Stored(s) && Unfinished(t) == Unfinished(s)
          && (pos < |t.entries| ==> OwnList(t)) && Tracked(t))
  }

  lemma MoveStep(s: State, a: Action)
    requires Valid(s) && !a.Insert? && !a.Change?
    ensures var to := Destination(s.offset, |s.entries|, a);
            && (to != s.offset ==> Step(s, a) == Go(s, to))
            && (to == s.offset ==> Step(s, a) == s || Step(s, a) == Refused(s))
  {
  }

  lemma StepWent(s: State, a: Action)
    requires Valid(s) && !a.Insert? && !a.Change?
    ensures Went(s, Step(s, a), Destination(s.offset, |s.entries|, a))
  {
    MoveStep(s, a);
    RefusedView(s);
    var to := Destination(s.offset, |s.entries|, a);
    if to != s.offset {
      GoView(s, to);
    }
  }

  lemma InsertView(s: State, text: string)
    requires Valid(s)
    ensures View(AfterInsert(s, text)) == Apply(View(s), Insert(text))
  {
    var t := AfterInsert(s, text);
    assert Inserted(s.line, s.point, "") == s.line;
    assert Buffers(t) == Buffers(s)[s.offset := t.line];
  }

  lemma MoveView(s: State, a: Action)
    requires Valid(s) && !a.Insert? && !a.Change?
    ensures View(Step(s, a)) == Apply(View(s), a) <==> !LeavesUntracked(s, a)
  {
    MoveStep(s, a);
    RefusedView(s);
    var to := Destination(s.offset, |s.entries|, a);
    if to != s.offset {
      GoView(s, to);
      assert Tracked(s) ==> Buffers(s)[s.offset := Kept(s)] == Buffers(s);
    }
  }

  /** An action does what it does to the buffers if and only if it leaves no untracked line. */
  lemma StepView(s: State, a: Action)
    requires Valid(s)
    ensures View(Step(s, a)) == Apply(View(s), a) <==> !LeavesUntracked(s, a)
  {
    match a {
      case Insert(text) => InsertView(s, text);
      case Change(line, to) => assert Buffers(Step(s, a)) == Buffers(s)[s.offset := line];
      case _ => MoveView(s, a);
    }
  }

  /** A change stays tracked unless it is an insertion joined to the entry's own list. */
  lemma StepTracked(s: State, a: Action)
    requires Valid(s) && Tracked(s) && !JoinsOwn(s, a)
    ensures Tracked(Step(s, a))
  {
    match a {
      case Insert(text) =>
      case Change(line, to) =>
      case _ =>
        MoveStep(s, a);
        RefusedView(s);
        var to := Destination(s.offset, |s.entries|, a);
        if to != s.offset {
          GoView(s, to);
        }
    }
  }

  // ----- Runs -----

  /** The state after the first `k` actions. */
  function StepFirst(s: State, actions: seq<Action>, k: nat): (t: State)
    requires Valid(s) && k <= |actions|
    ensures Valid(t) && |t.entries| == |s.entries|
  {
    if k == 0 then s else Step(StepFirst(s, actions, k - 1), actions[k - 1])
  }

  /** None of the first `k` actions leaves an untracked line. */
  predicate LosesNothing(s: State, actions: seq<Action>, k: nat)
    requires Valid(s) && k <= |actions|
  {
    k > 0 ==> LosesNothing(s, actions, k - 1) && !LeavesUntracked(StepFirst(s, actions, k - 1), actions[k - 1])
  }

  /** None of the first `k` actions is an insertion joined to the undo list of its own entry. */
  predicate JoinsNone(s: State, actions: seq<Action>, k: nat)
    requires Valid(s) && k <= |actions|
  {
    k > 0 ==> JoinsNone(s, actions, k - 1) && !JoinsOwn(StepFirst(s, actions, k - 1), actions[k - 1])
  }

  /** The buffers are those of the zipper after each of the first `k` actions. */
  ghost predicate Agrees(s: State, actions: seq<Action>, k: nat)
    requires Valid(s) && k <= |actions|
  {
    && View(StepFirst(s, actions, k)) == ApplyFirst(View(s), actions, k)
    && (k > 0 ==> Agrees(s, actions, k - 1))
  }

  /** Browsing acts on independent buffers all through a run if and only if no move of the run leaves
      a line with a change that its undo list does not show. */
  lemma {:induction false} AgreesIffLosesNothing(s: State, actions: seq<Action>, k: nat)
    requires Valid(s) && k <= |actions|
    ensures Agrees(s, actions, k) <==> LosesNothing(s, actions, k)
  {
    if k > 0 {
      AgreesIffLosesNothing(s, actions, k - 1);
      StepView(StepFirst(s, actions, k - 1), actions[k - 1]);
    }
  }

  /** Such a line can only come from an insertion joined to the undo list of its own entry. */
  lemma {:induction false} JoinsNoneLosesNothing(s: State, actions: seq<Action>, k: nat)
    requires Valid(s) && Tracked(s) && k <= |actions| && JoinsNone(s, actions, k)
    ensures LosesNothing(s, actions, k) && Tracked(StepFirst(s, actions, k))
  {
    if k > 0 {
      JoinsNoneLosesNothing(s, actions, k - 1);
      StepTracked(StepFirst(s, actions, k - 1), actions[k - 1]);
    }
  }

  /** Longer insertions are never joined. */
  lemma {:induction false} LongInsertionsJoinNone(s: State, actions: seq<Action>, k: nat)
    requires Valid(s) && k <= |actions|
    requires forall i :: 0 <= i < |actions| && actions[i].Insert? ==> |actions[i].text| != 1
    ensures JoinsNone(s, actions, k)
  {
    if k > 0 {
      LongInsertionsJoinNone(s, actions, k - 1);
    }
  }

  /** In `t` each buffer holds what it was last given by the actions, or what it had in `s`. */
  ghost predicate EachAsLastGiven(s: State, actions: seq<Action>, t: State)
    requires Valid(s) && Valid(t) && |t.entries| == |s.entries|
  {
    forall j :: 0 <= j <= |s.entries| ==> Buffers(t)[j] == LastText(View(s), actions, |actions|, j)
  }

  /** So each buffer holds what it was last given. */
  lemma BuffersAfterRun(s: State, actions: seq<Action>)
    requires Valid(s) && LosesNothing(s, actions, |actions|)
    ensures EachAsLastGiven(s, actions, StepFirst(s, actions, |actions|))
  {
    AgreesIffLosesNothing(s, actions, |actions|);
    forall j | 0 <= j <= |s.entries|
      ensures Buffers(StepFirst(s, actions, |actions|))[j] == LastText(View(s), actions, |actions|, j)
    {
      BuffersAreIndependent(View(s), actions, |actions|, j);
    }
  }

  lemma RunAgrees(s: State, actions: seq<Action>)
    requires Valid(s)
    ensures Agrees(s, actions, |actions|) <==> LosesNothing(s, actions, |actions|)
    ensures Tracked(s) && JoinsNone(s, actions, |actions|) ==> LosesNothing(s, actions, |actions|)
    ensures LosesNothing(s, actions, |actions|) ==> EachAsLastGiven(s, actions, StepFirst(s, actions, |actions|))
  {
    AgreesIffLosesNothing(s, actions, |actions|);
    if Tracked(s) && JoinsNone(s, actions, |actions|) {
      JoinsNoneLosesNothing(s, actions, |actions|);
    }
    if LosesNothing(s, actions, |actions|) {
      BuffersAfterRun(s, actions);
    }
  }

  // ----- Which insertions are joined -----

  /** A single character goes to the undo list there is exactly if the newest record of that list is
      an insertion of fewer than twenty characters that ends at point. */
  lemma SingleInsertion(s: State, c: char)
    requires Valid(s)
    ensures Step(s, Insert([c])).undo == s.undo <==>
      && s.undo != 0 && s.newest[s.undo].Insertion? && s.newest[s.undo].end == s.point
      && s.newest[s.undo].end < s.newest[s.undo].start + 20
  {
  }

  /** Characters typed one after the other are recorded in groups of twenty. */
  lemma {:induction false} TypingIsGrouped(s: State, actions: seq<Action>, groups: nat, more: nat)
    requires Valid(s) && 1 <= more <= 20 && 20 * groups + more <= |actions|
    requires forall i :: 0 <= i < |actions| ==> actions[i].Insert? && |actions[i].text| == 1
    requires !Joins(s, "x")
    ensures Grouped(s, StepFirst(s, actions, 20 * groups + more), groups, more)
    decreases groups, more
  {
    var t := StepFirst(s, actions, 20 * groups + more - 1);
    var a := actions[20 * groups + more - 1];
    if more > 1 {
      TypingIsGrouped(s, actions, groups, more - 1);
      JoinGroup(s, t, a.text, groups, more - 1);
    } else if groups > 0 {
      TypingIsGrouped(s, actions, groups - 1, 20);
      NewGroup(s, t, a.text, groups - 1);
    }
  }

  /** In `t`, `groups` groups of twenty characters and one of `more` were recorded since `s`. */
  predicate Grouped(s: State, t: State, groups: nat, more: nat)
  {
    && t.point == s.point + 20 * groups + more && t.unused == s.unused + groups + 1 && t.undo == s.unused + groups
    && t.undo in t.newest && more <= t.point && t.newest[t.undo] == Insertion(t.point - more, t.point)
  }

  lemma JoinGroup(s: State, t: State, text: string, groups: nat, more: nat)
    requires Valid(s) && Valid(t) && |text| == 1 && Grouped(s, t, groups, more) && more < 20
    ensures Grouped(s, Step(t, Insert(text)), groups, more + 1)
  {
  }

  lemma NewGroup(s: State, t: State, text: string, groups: nat)
    requires Valid(s) && Valid(t) && |text| == 1 && Grouped(s, t, groups, 20)
    ensures Grouped(s, Step(t, Insert(text)), groups + 1, 1)
  {
  }

  // ----- A lost insertion -----

  /** A history line whose undo list, its own, ends with the insertion of its only character. */
  predicate JustTyped(s: State)
  {
    && Valid(s) && s.entries == [Item("a", 1)] && s.offset == 0 && s.line == "a" && s.point == 1 && s.undo == 1
    && s.newest[1] == Insertion(0, 1) && s.saved == Some(Item("", 0))
  }

  /** A character typed after it is lost by moving away. */
  lemma JoinedInsertionIsLost(s: State)
    requires JustTyped(s)
    ensures var typed := Step(s, Insert("b"));
            && Buffers(s) == ["a", ""] && Buffers(typed) == ["ab", ""] && Buffers(Step(typed, Next(1))) == ["a", ""]
  {
    var typed := Step(s, Insert("b"));
    assert Inserted("a", 1, "b") == "ab";
    GoView(typed, 1);
  }
}
