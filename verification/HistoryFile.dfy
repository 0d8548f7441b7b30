/** The history list as `histfile.c` writes it to a file and reads it back. */
module HistoryFile {
  import opened HistoryFileSpec

  class HistoryList {
    var entries: seq<Entry>
    var commentChar: char
    var writeTimestamps: bool
    var multilineEntries: nat
    /** Whether the list is limited, and to how many entries. */
    var stifled: bool
    var maxEntries: nat
    /** The number of the first entry. */
    var base: int

    constructor (comment: char, stamps: bool)
      ensures entries == [] && commentChar == comment && writeTimestamps == stamps && multilineEntries == 0
      ensures !stifled && base == 1
    {
      entries, commentChar, writeTimestamps, multilineEntries := [], comment, stamps, 0;
      stifled, maxEntries, base := false, 0, 1;
    }

    /** `add_history`; `now` is the time of day.  A full list loses its first entry and keeps the
        numbers of the others; a list limited to nothing takes nothing. */
    method AddHistory(line: string, now: string)
      modifies `entries, `base
      ensures !(stifled && |old(entries)| == maxEntries) ==>
        entries == old(entries) + [Entry(line, now)] && base == old(base)
      ensures stifled && |old(entries)| == maxEntries ==>
        if maxEntries == 0 then entries == old(entries) && base == old(base)
        else entries == old(entries)[1..] + [Entry(line, now)] && base == old(base) + 1
    {
      if stifled && |entries| == maxEntries {
        if |entries| == 0 {
          return;
        }
        entries := entries[1..];
        base := base + 1;
      }
      entries := entries + [Entry(line, now)];
    }

    /** `add_history_time` */
    method AddHistoryTime(timestamp: string)
      modifies `entries
      ensures old(entries) == [] ==> entries == []
      ensures forall before, e :: old(entries) == before + [e] ==> entries == before + [Entry(e.line, timestamp)]
    {
      if |entries| < 1 {
        return;
      }
      var n := |entries| - 1;
      entries := entries[n := Entry(entries[n].line, timestamp)];
    }

    /** `_hs_append_history_line` */
    method AppendHistoryLine(which: nat, line: string)
      requires which < |entries|
      modifies `entries
      ensures |entries| == old(|entries|)
      ensures entries[which] == Entry(old(entries[which].line) + ("\n" + line), old(entries[which].timestamp))
      ensures forall k :: 0 <= k < |entries| && k != which ==> entries[k] == old(entries[k])
    {
      entries := entries[which := Entry(entries[which].line + ("\n" + line), entries[which].timestamp)];
    }

    /** What the reading loop does with a line that is not empty. */
    method AbsorbText(t: string, pending: Pending, comment: char, now: string) returns (after: Pending, stamp: bool)
      requires t != "" && !stifled
      modifies `entries, `base
      ensures stamp == IsStamp(t, comment)
      ensures stamp ==> after == Stamp(t) && entries == old(entries)
      ensures !stamp ==> after == NoStamp && entries == AddLine(old(entries), t, pending, multilineEntries > 0, now)
    {
      after, stamp := pending, IsStamp(t, comment);
      if stamp {
        after := Stamp(t);
        return;
      }
      if pending.NoStamp? && |entries| > 0 && multilineEntries > 0 {
        AppendHistoryLine(|entries| - 1, t);
      } else {
        AddHistory(t, now);
      }
      if pending.Stamp? {
        AddHistoryTime(pending.text);
        after := NoStamp;
      }
    }

    method AbsorbLine(b: string, lineStart: nat, lineEnd: nat, pending: Pending, comment: char, now: string, count: int)
      returns (after: Pending, count': int)
      requires lineStart <= lineEnd < |b| && b[lineEnd] == '\n' && !stifled
      modifies `entries, `base
      ensures State(entries, after)
        == Absorb(State(old(entries), pending), b[lineStart..lineEnd], comment, multilineEntries > 0, now)
      ensures count' == count + if IsStamp(Chop(b[lineStart..lineEnd]), comment) then 0 else 1
    {
      after, count' := pending, count;
      var end := if lineEnd > lineStart && b[lineEnd - 1] == '\r' then lineEnd - 1 else lineEnd;
      var t := b[lineStart..end];
      assert t == Chop(b[lineStart..lineEnd]);
      if t != "" {
        var stamp;
        after, stamp := AbsorbText(t, pending, comment, now);
        if stamp {
          count' := count' - 1;
        }
      }
      count' := count' + 1;
    }

    /** `read_history_range` on the whole of a file without NUL bytes: what every line does, in
        order, and how many lines were counted. */
    method ReadHistory(b: string, now: string) returns (count: int)
      requires '\0' !in b && !stifled
      modifies `entries, `base, `multilineEntries
      ensures var c := CommentFor(commentChar, b);
              && multilineEntries == old(multilineEntries) + (if IsStamp(b, c) && writeTimestamps then 1 else 0)
              && entries == Loaded(old(entries), b, commentChar, multilineEntries > 0, now)
              && count == Counted(LinesFrom(b, 0), c)
      // a file without timestamps
      ensures var c, lines := CommentFor(commentChar, b), LinesFrom(b, 0);
              !IsStamp(b, c) && Unstamped(lines, c) ==>
                && (multilineEntries == 0 ==> entries == old(entries) + OnePerLine(lines, now))
                && (multilineEntries > 0 ==> forall done, last :: old(entries) == done + [last] ==>
                      entries == done + [Entry(last.line + Continued(lines), last.timestamp)])
                && count == LineCount(lines)
    {
      ghost var c, lines := CommentFor(commentChar, b), LinesFrom(b, 0);
      if !IsStamp(b, c) && Unstamped(lines, c) {
        ReadUnstamped(entries, b, commentChar, now);
      }
      var comment := commentChar;
      if comment == '\0' && IsStamp(b, '#') {
        comment := '#';
      }
      var hasTimestamps := IsStamp(b, comment);
      if hasTimestamps && writeTimestamps {
        multilineEntries := multilineEntries + 1;
      }
      var pending := if hasTimestamps then Stamp(b) else NoStamp;
      count := ReadLines(b, pending, comment, now);
    }

    /** The reading loop. */
    method ReadLines(b: string, pending: Pending, comment: char, now: string) returns (count: int)
      requires !stifled
      modifies `entries, `base
      ensures entries
        == AbsorbAll(State(old(entries), pending), LinesFrom(b, 0), comment, multilineEntries > 0, now).entries
      ensures count == Counted(LinesFrom(b, 0), comment)
    {
      ghost var multi := multilineEntries > 0;
      ghost var all := AbsorbAll(State(entries, pending), LinesFrom(b, 0), comment, multi, now);
      ghost var total := Counted(LinesFrom(b, 0), comment);
      var lastStamp := pending;
      count := 0;
      var lineStart, lineEnd := 0, 0;
      while lineEnd < |b|
        invariant 0 <= lineStart <= lineEnd <= |b| && count <= lineStart
        invariant Reading(b, lineStart, lineEnd, State(entries, lastStamp), count, comment, multi, now, all, total)
      {
        lineStart, lastStamp, count := ReadCharacter(b, lineStart, lineEnd, lastStamp, count, comment, now, all, total);
        lineEnd := lineEnd + 1;
        if count >= |b| {
          break;
        }
      }
      EndOfFile(b, lineStart, State(entries, lastStamp), count, comment, multi, now, all, total);
    }

    /** A turn of the reading loop. */
    method ReadCharacter(b: string, lineStart: nat, lineEnd: nat, pending: Pending, count: int,
                         comment: char, now: string, ghost all: State, ghost total: int)
      returns (lineStart': nat, pending': Pending, count': int)
      requires lineStart <= lineEnd < |b| && count <= lineStart && !stifled
      requires Reading(b, lineStart, lineEnd, State(entries, pending), count,
                       comment, multilineEntries > 0, now, all, total)
      modifies `entries, `base
      ensures lineStart' <= lineEnd + 1 && count' <= lineStart'
      ensures Reading(b, lineStart', lineEnd + 1, State(entries, pending'), count',
                      comment, multilineEntries > 0, now, all, total)
    {
      lineStart', pending', count' := lineStart, pending, count;
      if b[lineEnd] == '\n' {
        ghost var st := State(entries, pending);
        pending', count' := AbsorbLine(b, lineStart, lineEnd, pending, comment, now, count);
        NextLine(b, lineStart, lineEnd, st, count,
                 comment, multilineEntries > 0, now, all, total, State(entries, pending'), count');
        lineStart' := lineEnd + 1;
      } else {
        NextCharacter(b, lineStart, lineEnd, State(entries, pending), count,
                      comment, multilineEntries > 0, now, all, total);
      }
    }

    /** `history_do_write`: the text of the last `nelements` entries, in a buffer of just the size
        computed for it beforehand. */
    method WriteHistory(nelements: int) returns (buffer: string, size: nat)
      ensures var n := if nelements < 0 then 0 else if nelements > |entries| then |entries| else nelements;
              buffer == WriteOnto("", entries, |entries| - n, writeTimestamps)
      ensures size == |buffer|
    {
      var n := if nelements > |entries| then |entries| else nelements;
      ghost var from := if n < 0 then |entries| else |entries| - n;
      size := 0;
      var i := |entries| - n;
      while i < |entries|
        invariant from <= i && (i > |entries| ==> i == |entries| - n && from == |entries|)
        invariant i <= |entries| ==>
          size + SizeFrom(entries, i, writeTimestamps) == SizeFrom(entries, from, writeTimestamps)
        invariant i > |entries| ==> size == 0
      {
        if writeTimestamps && entries[i].timestamp != "" {
          size := size + |entries[i].timestamp| + 1;
        }
        size := size + |entries[i].line| + 1;
        i := i + 1;
      }
      SizeOfWritten("", entries, from, writeTimestamps);
      buffer := "";
      i := |entries| - n;
      while i < |entries|
        invariant from <= i && (i > |entries| ==> from == |entries| && buffer == "")
        invariant i <= |entries| ==>
          WriteOnto(buffer, entries, i, writeTimestamps) == WriteOnto("", entries, from, writeTimestamps)
      {
        buffer := buffer + EntryText(entries[i], writeTimestamps);
        i := i + 1;
      }
    }

    /** `write_history`, and `read_history` into a fresh list with the same settings. */
    method SaveAndRestore(now: string) returns (restored: HistoryList)
      requires writeTimestamps
      requires forall k :: 0 <= k < |entries| ==> Stamped(entries[k], if commentChar == '\0' then '#' else commentChar)
      requires forall k :: 0 <= k < |entries| ==> '\0' !in entries[k].line && '\0' !in entries[k].timestamp
      ensures fresh(restored)
      ensures restored.entries == entries <==>
        forall k :: 0 <= k < |entries| ==>
          AllPlain(Pieces(entries[k].line), if commentChar == '\0' then '#' else commentChar)
    {
      var buffer, _ := WriteHistory(|entries|);
      WrittenHasNoNul("", entries, 0, true);
      WrittenLines(entries, buffer, if commentChar == '\0' then '#' else commentChar);
      restored := new HistoryList(commentChar, true);
      var _ := restored.ReadHistory(buffer, now);
      FileRoundTrip(entries, buffer, commentChar, restored.multilineEntries > 0, now);
    }

    /** The same without timestamps: the lines come back, of the time they are read. */
    method SaveAndRestoreLines(now: string) returns (restored: HistoryList)
      requires !writeTimestamps
      requires forall k :: 0 <= k < |entries| ==> '\0' !in entries[k].line && '\0' !in entries[k].timestamp
      ensures fresh(restored)
      ensures var c := CommentFor(commentChar, WriteOnto("", entries, 0, false));
              restored.entries == Restamped(entries, now) <==>
                forall k :: 0 <= k < |entries| ==> PlainLine(entries[k].line, c)
    {
      var buffer, _ := WriteHistory(|entries|);
      WrittenHasNoNul("", entries, 0, false);
      restored := new HistoryList(commentChar, false);
      var _ := restored.ReadHistory(buffer, now);
      UnstampedRoundTrip(entries, buffer, commentChar, now);
    }
  }
}
