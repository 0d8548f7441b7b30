/** Moving through the history while lines are being edited (`misc.c`, `history.c`, `text.c`). */
module Browse {
  import opened Options
  import opened BrowseSpec

  class Browser {
    var entries: seq<Item>
    var offset: nat
    var saved: Option<Item>
    var line: string
    var point: nat
    /** `rl_undo_list` */
    var undo: nat
    var newest: map<nat, Record>
    var unused: nat
    var listMade: bool

    function Contents(): (s: State)
      reads this
    {
      State(entries, offset, saved, line, point, undo, newest, unused, listMade)
    }

    constructor (history: seq<string>, made: bool, text: string)
      requires history != [] ==> made
      ensures Valid(Contents()) && Tracked(Contents())
      ensures View(Contents()) == Zipper(history + [text], |history|, |text|)
      ensures entries == seq(|history|, i requires 0 <= i < |history| => Item(history[i], 0))
      ensures undo == 0 && unused == 1
    {
      entries := seq(|history|, i requires 0 <= i < |history| => Item(history[i], 0));
      offset, saved, line, point, undo := |history|, None, text, |text|, 0;
      newest, unused, listMade := map[], 1, made;
      new;
      assert Buffers(Contents()) == history + [text];
    }

    /** `current_history` */
    function CurrentHistory(): (r: Option<Item>)
      requires offset <= |entries|
      reads this
    {
      if offset == |entries| || !listMade then None else Some(entries[offset])
    }

    /** `previous_history` */
    method PreviousHistory() returns (r: Option<Item>)
      requires offset <= |entries|
      modifies `offset
      ensures old(offset) == 0 ==> offset == 0 && r == None
      ensures old(offset) > 0 ==> offset == old(offset) - 1 && r == Some(entries[offset])
    {
      if offset == 0 {
        return None;
      }
      offset := offset - 1;
      return Some(entries[offset]);
    }

    /** `next_history`; past the last entry there is none. */
    method NextHistory() returns (r: Option<Item>)
      requires offset <= |entries|
      modifies `offset
      ensures old(offset) == |entries| ==> offset == old(offset) && r == None
      ensures old(offset) < |entries| ==> offset == old(offset) + 1
      ensures old(offset) < |entries| ==> r == if offset < |entries| then Some(entries[offset]) else None
    {
      if offset == |entries| {
        return None;
      }
      offset := offset + 1;
      return if offset < |entries| then Some(entries[offset]) else None;
    }

    /** `rl_maybe_replace_line`: store the current history line if its undo list changed. */
    method MaybeReplaceLine()
      requires offset <= |entries| && (entries != [] ==> listMade)
      modifies `entries
      ensures entries == Stored(old(Contents()))
    {
      var current := CurrentHistory();
      if current.Some? && current.value.data != undo {
        entries := entries[offset := Item(line, undo)];
      }
    }

    /** `rl_maybe_save_line` */
    method MaybeSaveLine()
      modifies `saved
      ensures saved == if old(saved).None? then Some(Item(line, undo)) else old(saved)
    {
      if saved.None? {
        saved := Some(Item(line, undo));
      }
    }

    /** `rl_maybe_unsave_line` */
    method MaybeUnsaveLine()
      modifies `saved, `line, `undo, `point
      ensures saved == None
      ensures old(saved).None? ==> line == old(line) && undo == old(undo) && point == old(point)
      ensures old(saved).Some? ==> line == old(saved).value.line && undo == old(saved).value.data && point == |line|
    {
      if saved.Some? {
        line, undo := saved.value.line, saved.value.data;
        saved := None;
        point := |line|;
      }
    }

    /** `_rl_free_saved_history_line` */
    method FreeSavedHistoryLine()
      modifies `saved, `undo
      ensures saved == None
      ensures undo == if old(saved).Some? && old(undo) == old(saved).value.data then 0 else old(undo)
    {
      if saved.Some? {
        if undo != 0 && undo == saved.value.data {
          undo := 0;
        }
        saved := None;
      }
    }

    /** `rl_replace_from_history` */
    method ReplaceFromHistory(entry: Item)
      modifies `line, `undo, `point
      ensures line == entry.line && undo == entry.data && point == |line|
    {
      line, undo := entry.line, entry.data;
      point := |line|;
    }

    /** The loop over `next_history`. */
    method StepDown(count: nat) returns (temp: Option<Item>)
      requires count > 0 && offset <= |entries|
      modifies `offset
      ensures offset == Clamp(old(offset) + count, |entries|)
      ensures temp == if offset < |entries| then Some(entries[offset]) else None
    {
      var left := count;
      temp := None;
      while left > 0
        invariant 0 <= left <= count && offset <= |entries|
        invariant offset == old(offset) + (count - left)
        invariant left < count ==> offset < |entries| && temp == Some(entries[offset])
      {
        temp := NextHistory();
        if temp.None? {
          break;
        }
        left := left - 1;
      }
    }

    /** The loop over `previous_history`. */
    method StepUp(count: nat) returns (temp: Option<Item>)
      requires offset <= |entries|
      modifies `offset
      ensures offset == Clamp(old(offset) - count, |entries|)
      ensures temp == if offset < old(offset) then Some(entries[offset]) else None
    {
      var left, found := count, None;
      temp := None;
      while left > 0
        invariant 0 <= left <= count && offset <= |entries|
        invariant offset == old(offset) - (count - left)
        invariant temp == found && found == if offset < old(offset) then Some(entries[offset]) else None
      {
        temp := PreviousHistory();
        if temp.None? {
          break;
        }
        found := temp;
        left := left - 1;
      }
      if temp.None? {
        temp := found;
      }
    }

    /** `rl_get_next_history`: moves down as far as it can.  Of the line it leaves, what is kept is
        the text, or the stored text if its undo list does not show the change. */
    method GetNextHistory(count: int)
      requires Valid(Contents())
      modifies `entries, `offset, `saved, `line, `point, `undo
      ensures Contents() == Step(old(Contents()), Next(count))
      ensures Went(old(Contents()), Contents(), Clamp(old(offset) + count, |old(entries)|))
      decreases if count < 0 then 1 else 0
    {
      StepWent(Contents(), Next(count));
      if count < 0 {
        GetPreviousHistory(-count);
        return;
      }
      if count == 0 {
        return;
      }
      MoveDown(count);
    }

    method MoveDown(count: nat)
      requires Valid(Contents()) && count > 0
      modifies `entries, `offset, `saved, `line, `point, `undo
      ensures Contents() == Down(old(Contents()), count)
    {
      MaybeReplaceLine();
      var temp := StepDown(count);
      if temp.None? {
        MaybeUnsaveLine();
      } else {
        ReplaceFromHistory(temp.value);
      }
    }

    /** `rl_get_previous_history`: likewise, upwards. */
    method GetPreviousHistory(count: int)
      requires Valid(Contents())
      modifies `entries, `offset, `saved, `line, `point, `undo
      ensures Contents() == Step(old(Contents()), Previous(count))
      ensures Went(old(Contents()), Contents(), Clamp(old(offset) - count, |old(entries)|))
      decreases if count < 0 then 1 else 0
    {
      StepWent(Contents(), Previous(count));
      if count < 0 {
        GetNextHistory(-count);
        return;
      }
      if count == 0 || !listMade {
        return;
      }
      MoveUp(count);
    }

    method MoveUp(count: nat)
      requires Valid(Contents()) && listMade && count > 0
      modifies `entries, `offset, `saved, `line, `point, `undo
      ensures Contents() == Up(old(Contents()), count)
    {
      var hadSavedLine := saved.Some?;
      MaybeSaveLine();
      MaybeReplaceLine();
      var temp := StepUp(count);
      if temp.None? {
        if !hadSavedLine {
          FreeSavedHistoryLine();
        }
      } else {
        ReplaceFromHistory(temp.value);
      }
    }

    /** `rl_beginning_of_history` */
    method BeginningOfHistory()
      requires Valid(Contents())
      modifies `entries, `offset, `saved, `line, `point, `undo
      ensures Contents() == Step(old(Contents()), Beginning)
      ensures Went(old(Contents()), Contents(), 0)
    {
      GetPreviousHistory(1 + offset);
    }

    /** `rl_end_of_history` */
    method GoToEndOfHistory()
      requires Valid(Contents())
      modifies `entries, `offset, `saved, `line, `point, `undo
      ensures Contents() == Step(old(Contents()), EndOfHistory)
      ensures Went(old(Contents()), Contents(), |old(entries)|) && Tracked(Contents())
    {
      StepWent(Contents(), EndOfHistory);
      MaybeReplaceLine();
      offset := |entries|;
      MaybeUnsaveLine();
    }

    /** `rl_add_undo` */
    method AddUndo(record: Record)
      requires Valid(Contents())
      modifies `newest, `undo, `unused
      ensures Contents() == WithRecord(old(Contents()), record)
    {
      newest := newest[unused := record];
      undo := unused;
      unused := unused + 1;
    }

    /** `rl_insert_text`: an insertion that joins the newest record leaves the undo list as it was.
        On a history line, moving away would lose it exactly if that list is the entry's own. */
    method InsertText(text: string)
      requires Valid(Contents())
      modifies `line, `point, `newest, `undo, `unused
      ensures Contents() == Step(old(Contents()), Insert(text))
      ensures View(Contents()) == Apply(View(old(Contents())), Insert(text))
      ensures text != "" && Tracked(old(Contents())) ==>
        (Tracked(Contents()) <==> !JoinsOwn(old(Contents()), Insert(text)))
    {
      InsertView(Contents(), text);
      if text == "" {
        return;
      }
      var end := point + |text|;
      var inserted := Inserted(line, point, text);
      if Joins(Contents(), text) {
        newest := newest[undo := Insertion(newest[undo].start, newest[undo].end + 1)];
      } else {
        AddUndo(Insertion(point, end));
      }
      line, point := inserted, end;
    }

    /** Any other change: it always adds an undo record. */
    method ChangeLine(text: string, to: nat)
      requires Valid(Contents())
      modifies `line, `point, `newest, `undo, `unused
      ensures Contents() == Step(old(Contents()), Change(text, to))
      ensures View(Contents()) == Apply(View(old(Contents())), Change(text, to)) && Tracked(Contents())
    {
      StepView(Contents(), Change(text, to));
      AddUndo(Other);
      line, point := text, Clamp(to, |text|);
    }

    /** An insertion and a move away from the line: the text is lost if and only if the insertion
        was joined to the entry's own undo list. */
    method InsertAndLeave(text: string, count: int)
      requires Valid(Contents()) && Tracked(Contents()) && text != ""
      modifies this
      ensures Valid(Contents()) && offset == Clamp(old(offset) + count, |old(entries)|)
      ensures offset != old(offset) ==>
        Buffers(Contents()) == if JoinsOwn(old(Contents()), Insert(text)) then Buffers(old(Contents()))
                               else Apply(View(old(Contents())), Insert(text)).buffers
      ensures offset == old(offset) ==> View(Contents()) == Apply(View(old(Contents())), Insert(text))
    {
      ghost var b, o := Buffers(Contents()), offset;
      InsertText(text);
      GetNextHistory(count);
      assert b[o := b[o]] == b;
    }

    /** One action, and whether it was an insertion joined to the entry's own list. */
    method Perform(a: Action) returns (own: bool)
      requires Valid(Contents())
      modifies this
      ensures Contents() == Step(old(Contents()), a) && own == JoinsOwn(old(Contents()), a)
    {
      own := JoinsOwn(Contents(), a);
      match a {
        case Previous(count) => GetPreviousHistory(count);
        case Next(count) => GetNextHistory(count);
        case Beginning => BeginningOfHistory();
        case EndOfHistory => GoToEndOfHistory();
        case Insert(text) => InsertText(text);
        case Change(text, to) => ChangeLine(text, to);
      }
    }

    /** A run of moves, insertions and other changes.  The buffers are those of the zipper all through
        the run if and only if no move leaves an untracked line; each then holds what it was last given.
        Starting from a tracked line that is so unless some insertion is joined to the undo list of the
        entry it is made in, which the result tells. */
    method Run(actions: seq<Action>) returns (joined: bool)
      requires Valid(Contents())
      modifies this
      ensures Contents() == StepFirst(old(Contents()), actions, |actions|)
      ensures joined == !JoinsNone(old(Contents()), actions, |actions|)
      ensures Agrees(old(Contents()), actions, |actions|) <==> LosesNothing(old(Contents()), actions, |actions|)
      ensures Tracked(old(Contents())) && !joined ==> LosesNothing(old(Contents()), actions, |actions|)
      ensures LosesNothing(old(Contents()), actions, |actions|) ==>
        EachAsLastGiven(old(Contents()), actions, Contents())
    {
      joined := false;
      ghost var start := Contents();
      var k := 0;
      while k < |actions|
        invariant 0 <= k <= |actions|
        invariant Contents() == StepFirst(start, actions, k) && joined == !JoinsNone(start, actions, k)
      {
        var own := Perform(actions[k]);
        joined := joined || own;
        k := k + 1;
      }
      RunAgrees(start, actions);
    }

    /** Coming back to the bottom after such a run restores the line last left there. */
    method RunAndReturn(actions: seq<Action>) returns (joined: bool)
      requires Valid(Contents())
      modifies this
      ensures Valid(Contents()) && offset == |entries| == |old(entries)|
      ensures joined == !JoinsNone(old(Contents()), actions, |actions|)
      ensures Tracked(old(Contents())) && !joined ==> LosesNothing(old(Contents()), actions, |actions|)
      ensures LosesNothing(old(Contents()), actions, |actions|) ==>
        line == LastText(View(old(Contents())), actions, |actions|, |entries|)
    {
      joined := Run(actions);
      GoToEndOfHistory();
    }
  }

  /** The state in which a typed character is lost, `JustTyped`, is reached by typing a character,
      moving away and coming back. */
  method TypeLeaveAndReturn() returns (b: Browser)
    ensures fresh(b) && JustTyped(b.Contents())
  {
    b := new Browser([""], true, "");
    assert b.entries == [Item("", 0)];
    b.GetPreviousHistory(1);
    b.InsertText("a");
    assert b.line == Inserted("", 0, "a") == "a";
    b.GetNextHistory(1);
    b.GetPreviousHistory(1);
  }
}
