/** What `histfile.c` writes to a history file, and what reading a file does to the list. */
module HistoryFileSpec {
  import opened Characters

  datatype Entry = Entry(line: string, timestamp: string)

  /** The lines of a file, each ended by a newline there. */
  datatype Lines = End | Line(text: string, rest: Lines)

  // ----- Files and their lines -----

  /** The next newline at `i` or later, or the end of the text. */
  function NewlineFrom(b: string, i: nat): (k: nat)
    requires i <= |b|
    ensures i <= k <= |b| && (k < |b| ==> b[k] == '\n')
    decreases |b| - i
  {
    if i == |b| || b[i] == '\n' then i else NewlineFrom(b, i + 1)
  }

  /** The complete lines of a file from position `i` on; an unfinished last line is not one. */
  function LinesFrom(b: string, i: nat): (lines: Lines)
    requires i <= |b|
    decreases |b| - i
  {
    var k := NewlineFrom(b, i);
    if k == |b| then End else Line(b[i..k], LinesFrom(b, k + 1))
  }

  function Text(lines: Lines): (b: string)
  {
    match lines
    case End => ""
    case Line(text, rest) => text + ("\n" + Text(rest))
  }

  predicate OneLine(s: string) { '\n' !in s }

  predicate OneLiners(lines: Lines)
  {
    match lines
    case End => true
    case Line(text, rest) => OneLine(text) && OneLiners(rest)
  }

  lemma {:induction false} NewlineAt(b: string, i: nat, k: nat)
    requires i <= k < |b| && b[k] == '\n' && forall j :: i <= j < k ==> b[j] != '\n'
    ensures NewlineFrom(b, i) == k
    decreases k - i
  {
    if i < k {
      NewlineAt(b, i + 1, k);
    }
  }

  lemma LineParts(b: string, i: nat, text: string, tail: string)
    requires i <= |b| && b[i..] == text + ("\n" + tail)
    ensures var k := i + |text|; k < |b| && b[k] == '\n' && b[i..k] == text && b[k + 1..] == tail
  {
    var k, u := i + |text|, b[i..];
    assert |b| == i + |text| + 1 + |tail|;
    assert u[|text|] == '\n' && u[..|text|] == text && u[|text| + 1..] == tail;
    assert b[i..k] == u[..|text|] && b[k + 1..] == u[|text| + 1..];
  }

  lemma FirstLine(b: string, i: nat, text: string, tail: string)
    requires i <= |b| && OneLine(text) && b[i..] == text + ("\n" + tail)
    ensures var k := i + |text|; k < |b| && b[k + 1..] == tail && LinesFrom(b, i) == Line(text, LinesFrom(b, k + 1))
  {
    var k := i + |text|;
    LineParts(b, i, text, tail);
    forall j | i <= j < k ensures b[j] != '\n' { assert b[j] == text[j - i]; }
    NewlineAt(b, i, k);
  }

  /** A file of lines has those lines. */
  lemma {:induction false} LinesOfText(b: string, i: nat, lines: Lines)
    requires i <= |b| && OneLiners(lines) && b[i..] == Text(lines)
    ensures LinesFrom(b, i) == lines
    decreases lines
  {
    match lines {
      case End =>
      case Line(text, rest) =>
        FirstLine(b, i, text, Text(rest));
        LinesOfText(b, i + |text| + 1, rest);
    }
  }

  // ----- What reading a line does -----

  /** The last timestamp seen, not yet given to an entry. */
  datatype Pending = NoStamp | Stamp(text: string)
  datatype State = State(entries: seq<Entry>, pending: Pending)

  /** `HIST_TIMESTAMP_START` */
  predicate IsStamp(text: string, comment: char)
  {
    |text| >= 2 && text[0] == comment && IsDigit(text[1])
  }

  /** Which lines are timestamps. */
  lemma StampsAre(text: string, comment: char)
    ensures IsStamp([comment] + text, comment) <==> text != "" && '0' <= text[0] <= '9'
    ensures text != "" && text[0] != comment ==> !IsStamp(text, comment)
  {
    assert text != "" ==> ([comment] + text)[1] == text[0];
  }

  /** Without the carriage return of a DOS line end. */
  function Chop(text: string): (t: string)
  {
    if text != "" && text[|text| - 1] == '\r' then text[..|text| - 1] else text
  }

  function AddLine(entries: seq<Entry>, t: string, pending: Pending, multiline: bool, now: string): (r: seq<Entry>)
  {
    if pending.NoStamp? && multiline && |entries| > 0 then
      var last := entries[|entries| - 1];
      entries[..|entries| - 1] + [Entry(last.line + ("\n" + t), last.timestamp)]
    else
      entries + [Entry(t, if pending.Stamp? then pending.text else now)]
  }

  function Absorb(st: State, text: string, comment: char, multiline: bool, now: string): (r: State)
  {
    var t := Chop(text);
    if t == "" then st
    else if IsStamp(t, comment) then State(st.entries, Stamp(t))
    else State(AddLine(st.entries, t, st.pending, multiline, now), NoStamp)
  }

  function AbsorbAll(st: State, lines: Lines, comment: char, multiline: bool, now: string): (r: State)
    decreases lines
  {
    match lines
    case End => st
    case Line(text, rest) => AbsorbAll(Absorb(st, text, comment, multiline, now), rest, comment, multiline, now)
  }

  /** Lines counted as read: all but the timestamps. */
  function Counted(lines: Lines, comment: char): (n: nat)
  {
    match lines
    case End => 0
    case Line(text, rest) => (if IsStamp(Chop(text), comment) then 0 else 1) + Counted(rest, comment)
  }

  // ----- What is written -----

  /** The newline-separated pieces of `s` from `i` on. */
  function PiecesFrom(s: string, i: nat): (lines: Lines)
    requires i <= |s|
    decreases |s| - i
  {
    var k := NewlineFrom(s, i);
    Line(s[i..k], if k == |s| then End else PiecesFrom(s, k + 1))
  }

  function Pieces(s: string): (lines: Lines)
  {
    PiecesFrom(s, 0)
  }

  function Append(a: Lines, b: Lines): (lines: Lines)
  {
    match a
    case End => b
    case Line(text, rest) => Line(text, Append(rest, b))
  }

  /** The lines written for the entries from `i` on. */
  function FileLines(es: seq<Entry>, i: nat): (lines: Lines)
    requires i <= |es|
    decreases |es| - i
  {
    if i == |es| then End else Line(es[i].timestamp, Append(Pieces(es[i].line), FileLines(es, i + 1)))
  }

  /** A piece that reads back as it was written. */
  predicate Plain(p: string, comment: char)
  {
    p != "" && p[|p| - 1] != '\r' && !IsStamp(p, comment)
  }

  predicate AllPlain(lines: Lines, comment: char)
  {
    match lines
    case End => true
    case Line(text, rest) => Plain(text, comment) && AllPlain(rest, comment)
  }

  /** A timestamp as the library makes them: the comment character, then a digit, on one line. */
  predicate Stamped(e: Entry, comment: char)
  {
    IsStamp(e.timestamp, comment) && OneLine(e.timestamp) && e.timestamp[|e.timestamp| - 1] != '\r'
  }

  lemma {:induction false} NoNewlineBefore(s: string, i: nat)
    requires i <= |s|
    ensures OneLine(s[i..NewlineFrom(s, i)])
    decreases |s| - i
  {
    if i < |s| && s[i] != '\n' {
      NoNewlineBefore(s, i + 1);
      assert s[i..NewlineFrom(s, i)] == [s[i]] + s[i + 1..NewlineFrom(s, i + 1)];
    }
  }

  lemma {:induction false} PiecesAreOneLiners(s: string, i: nat)
    requires i <= |s|
    ensures OneLiners(PiecesFrom(s, i))
    decreases |s| - i
  {
    NoNewlineBefore(s, i);
    if NewlineFrom(s, i) < |s| {
      PiecesAreOneLiners(s, NewlineFrom(s, i) + 1);
    }
  }

  lemma {:induction false} AppendOneLiners(a: Lines, b: Lines)
    requires OneLiners(a) && OneLiners(b)
    ensures OneLiners(Append(a, b))
  {
    if a.Line? {
      AppendOneLiners(a.rest, b);
    }
  }

  lemma {:induction false} FileLinesAreOneLiners(es: seq<Entry>, i: nat, comment: char)
    requires i <= |es| && forall k :: 0 <= k < |es| ==> Stamped(es[k], comment)
    ensures OneLiners(FileLines(es, i))
    decreases |es| - i
  {
    if i < |es| {
      FileLinesAreOneLiners(es, i + 1, comment);
      PiecesAreOneLiners(es[i].line, 0);
      AppendOneLiners(Pieces(es[i].line), FileLines(es, i + 1));
    }
  }

  lemma Slices(s: string, i: nat, k: nat)
    requires i <= k < |s| && s[k] == '\n'
    ensures s[i..] + "\n" == s[i..k] + ("\n" + (s[k + 1..] + "\n"))
  {
  }

  lemma {:induction false} TextOfPieces(s: string, i: nat)
    requires i <= |s|
    ensures Text(PiecesFrom(s, i)) == s[i..] + "\n"
    decreases |s| - i
  {
    var k := NewlineFrom(s, i);
    if k == |s| {
      assert s[i..k] == s[i..];
    } else {
      TextOfPieces(s, k + 1);
      Slices(s, i, k);
    }
  }

  lemma {:induction false} TextOfAppend(a: Lines, b: Lines)
    ensures Text(Append(a, b)) == Text(a) + Text(b)
  {
    if a.Line? {
      TextOfAppend(a.rest, b);
      Regroup(a.text, Text(a.rest), Text(b));
    }
  }

  lemma Regroup(text: string, rest: string, tail: string)
    ensures text + ("\n" + (rest + tail)) == (text + ("\n" + rest)) + tail
  {
  }

  // ----- The round trip -----

  /** A line and the pieces that follow it, put together again. */
  function Glued(line: string, lines: Lines): (s: string)
    decreases lines
  {
    match lines
    case End => line
    case Line(text, rest) => Glued(line + ("\n" + text), rest)
  }

  lemma {:induction false} GluedPieces(s: string, i: nat)
    requires 0 < i <= |s| && s[i - 1] == '\n'
    ensures Glued(s[..i - 1], PiecesFrom(s, i)) == s
    decreases |s| - i
  {
    var k := NewlineFrom(s, i);
    assert s[..i - 1] + ("\n" + s[i..k]) == s[..k];
    if k == |s| {
      assert s[..k] == s;
    } else {
      GluedPieces(s, k + 1);
    }
  }

  lemma PiecesGlue(s: string)
    ensures Pieces(s).Line? && Glued(Pieces(s).text, Pieces(s).rest) == s
  {
    var k := NewlineFrom(s, 0);
    assert s[0..k] == s[..k];
    if k == |s| {
      assert s[..k] == s;
    } else {
      GluedPieces(s, k + 1);
    }
  }

  lemma AbsorbFirst(st: State, text: string, rest: Lines, comment: char, now: string, st': State)
    requires Absorb(st, text, comment, true, now) == st'
    ensures AbsorbAll(st, Line(text, rest), comment, true, now) == AbsorbAll(st', rest, comment, true, now)
  {
  }

  lemma PieceJoins(done: seq<Entry>, line: string, ts: string, text: string, comment: char, now: string)
    requires Plain(text, comment)
    ensures Absorb(State(done + [Entry(line, ts)], NoStamp), text, comment, true, now)
         == State(done + [Entry(line + ("\n" + text), ts)], NoStamp)
  {
    var entries := done + [Entry(line, ts)];
    assert entries[..|entries| - 1] == done;
  }

  /** The pieces after the first are joined to the line again. */
  lemma {:induction false} RestOfEntry(done: seq<Entry>, line: string, ts: string, pieces: Lines, tail: Lines,
                                       comment: char, now: string)
    requires AllPlain(pieces, comment)
    ensures AbsorbAll(State(done + [Entry(line, ts)], NoStamp), Append(pieces, tail), comment, true, now)
         == AbsorbAll(State(done + [Entry(Glued(line, pieces), ts)], NoStamp), tail, comment, true, now)
    decreases pieces
  {
    if pieces.Line? {
      var longer := line + ("\n" + pieces.text);
      PieceJoins(done, line, ts, pieces.text, comment, now);
      AbsorbFirst(State(done + [Entry(line, ts)], NoStamp), pieces.text, Append(pieces.rest, tail), comment, now,
                  State(done + [Entry(longer, ts)], NoStamp));
      RestOfEntry(done, longer, ts, pieces.rest, tail, comment, now);
    }
  }

  lemma AllPieces(done: seq<Entry>, ts: string, pieces: Lines, tail: Lines, comment: char, now: string)
    requires pieces.Line? && AllPlain(pieces, comment)
    ensures AbsorbAll(State(done, Stamp(ts)), Append(pieces, tail), comment, true, now)
         == AbsorbAll(State(done + [Entry(Glued(pieces.text, pieces.rest), ts)], NoStamp), tail, comment, true, now)
  {
    AbsorbFirst(State(done, Stamp(ts)), pieces.text, Append(pieces.rest, tail), comment, now,
                State(done + [Entry(pieces.text, ts)], NoStamp));
    RestOfEntry(done, pieces.text, ts, pieces.rest, tail, comment, now);
  }

  /** Reading the lines written for one entry gives that entry. */
  lemma ReadsEntry(st: State, e: Entry, tail: Lines, comment: char, now: string)
    requires Stamped(e, comment) && AllPlain(Pieces(e.line), comment)
    ensures AbsorbAll(st, Line(e.timestamp, Append(Pieces(e.line), tail)), comment, true, now)
         == AbsorbAll(State(st.entries + [e], NoStamp), tail, comment, true, now)
  {
    var pieces := Pieces(e.line);
    PiecesGlue(e.line);
    AbsorbFirst(st, e.timestamp, Append(pieces, tail), comment, now, State(st.entries, Stamp(e.timestamp)));
    AllPieces(st.entries, e.timestamp, pieces, tail, comment, now);
  }

  /** All the entries from `i` on have lines made of plain pieces. */
  predicate PlainFrom(es: seq<Entry>, i: nat, comment: char)
    requires i <= |es|
    decreases |es| - i
  {
    i == |es| || (AllPlain(Pieces(es[i].line), comment) && PlainFrom(es, i + 1, comment))
  }

  lemma {:induction false} PlainFromIsAll(es: seq<Entry>, i: nat, comment: char)
    requires i <= |es|
    ensures PlainFrom(es, i, comment) <==> forall k :: i <= k < |es| ==> AllPlain(Pieces(es[k].line), comment)
    decreases |es| - i
  {
    if i < |es| {
      PlainFromIsAll(es, i + 1, comment);
    }
  }

  lemma TakeEntry(done: seq<Entry>, es: seq<Entry>, i: nat)
    requires i < |es|
    ensures (done + [es[i]]) + es[i + 1..] == done + es[i..]
  {
  }

  lemma {:induction false} ReadsEntries(st: State, es: seq<Entry>, i: nat, comment: char, now: string)
    requires i <= |es| && PlainFrom(es, i, comment) && forall k :: 0 <= k < |es| ==> Stamped(es[k], comment)
    ensures AbsorbAll(st, FileLines(es, i), comment, true, now).entries == st.entries + es[i..]
    decreases |es| - i
  {
    if i < |es| {
      ReadsEntry(st, es[i], FileLines(es, i + 1), comment, now);
      ReadsEntries(State(st.entries + [es[i]], NoStamp), es, i + 1, comment, now);
      TakeEntry(st.entries, es, i);
    }
  }

  // ----- Nothing else survives: what a bad piece loses is not made up for -----

  function Weight(entries: seq<Entry>): (n: nat)
  {
    if entries == [] then 0
    else Weight(entries[..|entries| - 1]) + |entries[|entries| - 1].line| + 1
  }

  /** What a file line adds to the weight of the list. */
  function Gain(text: string, comment: char): (n: nat)
  {
    var t := Chop(text);
    if t == "" || IsStamp(t, comment) then 0 else |t| + 1
  }

  function Gains(lines: Lines, comment: char): (n: nat)
  {
    match lines
    case End => 0
    case Line(text, rest) => Gain(text, comment) + Gains(rest, comment)
  }

  function Size(lines: Lines): (n: nat)
  {
    match lines
    case End => 0
    case Line(text, rest) => |text| + 1 + Size(rest)
  }

  lemma WeightOfLast(entries: seq<Entry>, e: Entry)
    ensures Weight(entries + [e]) == Weight(entries) + |e.line| + 1
  {
    assert (entries + [e])[..|entries|] == entries;
  }

  lemma AbsorbGains(st: State, text: string, comment: char, multiline: bool, now: string)
    ensures Weight(Absorb(st, text, comment, multiline, now).entries) == Weight(st.entries) + Gain(text, comment)
  {
    var t, entries := Chop(text), st.entries;
    if t != "" && !IsStamp(t, comment) {
      if st.pending.NoStamp? && multiline && |entries| > 0 {
        var last := entries[|entries| - 1];
        WeightOfLast(entries[..|entries| - 1], Entry(last.line + ("\n" + t), last.timestamp));
      } else {
        WeightOfLast(entries, Entry(t, if st.pending.Stamp? then st.pending.text else now));
      }
    }
  }

  lemma {:induction false} AbsorbAllGains(st: State, lines: Lines, comment: char, multiline: bool, now: string)
    ensures Weight(AbsorbAll(st, lines, comment, multiline, now).entries) == Weight(st.entries) + Gains(lines, comment)
    decreases lines
  {
    match lines {
      case End =>
      case Line(text, rest) =>
        AbsorbGains(st, text, comment, multiline, now);
        AbsorbAllGains(Absorb(st, text, comment, multiline, now), rest, comment, multiline, now);
    }
  }

  lemma PlainGains(p: string, comment: char)
    ensures Gain(p, comment) <= |p| + 1 && (Gain(p, comment) == |p| + 1 <==> Plain(p, comment))
  {
  }

  lemma {:induction false} GainsAtMostSize(lines: Lines, comment: char)
    ensures Gains(lines, comment) <= Size(lines) && (Gains(lines, comment) == Size(lines) <==> AllPlain(lines, comment))
  {
    if lines.Line? {
      PlainGains(lines.text, comment);
      GainsAtMostSize(lines.rest, comment);
    }
  }

  lemma {:induction false} SizeOfPieces(s: string, i: nat)
    requires i <= |s|
    ensures Size(PiecesFrom(s, i)) == |s| - i + 1
    decreases |s| - i
  {
    if NewlineFrom(s, i) < |s| {
      SizeOfPieces(s, NewlineFrom(s, i) + 1);
    }
  }

  lemma {:induction false} GainsOfAppend(a: Lines, b: Lines, comment: char)
    ensures Gains(Append(a, b), comment) == Gains(a, comment) + Gains(b, comment)
  {
    if a.Line? {
      GainsOfAppend(a.rest, b, comment);
    }
  }

  lemma StampGainsNothing(e: Entry, comment: char)
    requires Stamped(e, comment)
    ensures Gain(e.timestamp, comment) == 0
  {
  }

  lemma EntryGains(es: seq<Entry>, i: nat, comment: char)
    requires i < |es| && Stamped(es[i], comment)
    ensures Gains(FileLines(es, i), comment)
      == Gains(Pieces(es[i].line), comment) + Gains(FileLines(es, i + 1), comment)
  {
    GainsOfAppend(Pieces(es[i].line), FileLines(es, i + 1), comment);
    StampGainsNothing(es[i], comment);
  }

  function WeightFrom(es: seq<Entry>, i: nat): (n: nat)
    requires i <= |es|
    decreases |es| - i
  {
    if i == |es| then 0 else |es[i].line| + 1 + WeightFrom(es, i + 1)
  }

  lemma {:induction false} WeightIsSum(es: seq<Entry>, i: nat)
    requires i <= |es|
    ensures Weight(es) == Weight(es[..i]) + WeightFrom(es, i)
    decreases |es| - i
  {
    if i == |es| {
      assert es[..i] == es;
    } else {
      assert es[..i + 1] == es[..i] + [es[i]];
      WeightOfLast(es[..i], es[i]);
      WeightIsSum(es, i + 1);
    }
  }

  lemma {:induction false} FileGains(es: seq<Entry>, i: nat, comment: char)
    requires i <= |es| && forall k :: 0 <= k < |es| ==> Stamped(es[k], comment)
    ensures Gains(FileLines(es, i), comment) <= WeightFrom(es, i)
    ensures Gains(FileLines(es, i), comment) == WeightFrom(es, i) <==> PlainFrom(es, i, comment)
    decreases |es| - i
  {
    if i < |es| {
      FileGains(es, i + 1, comment);
      EntryGains(es, i, comment);
      GainsAtMostSize(Pieces(es[i].line), comment);
      SizeOfPieces(es[i].line, 0);
    }
  }

  /** A stamped list survives the lines written for it if and only if no newline-separated piece
      of a line is empty, ends in a carriage return or looks like a timestamp. */
  lemma LinesRoundTrip(es: seq<Entry>, pending: Pending, comment: char, now: string)
    requires forall k :: 0 <= k < |es| ==> Stamped(es[k], comment)
    ensures AbsorbAll(State([], pending), FileLines(es, 0), comment, true, now).entries == es <==>
      forall k :: 0 <= k < |es| ==> AllPlain(Pieces(es[k].line), comment)
  {
    AbsorbAllGains(State([], pending), FileLines(es, 0), comment, true, now);
    FileGains(es, 0, comment);
    WeightIsSum(es, 0);
    PlainFromIsAll(es, 0, comment);
    assert es[..0] == [] && es[0..] == es;
    if PlainFrom(es, 0, comment) {
      ReadsEntries(State([], pending), es, 0, comment, now);
      assert [] + es == es;
    }
  }

  // ----- The whole file -----

  /** What `history_do_write` puts in the file for an entry. */
  function EntryText(e: Entry, stamps: bool): (t: string)
  {
    (if stamps && e.timestamp != "" then e.timestamp + "\n" else "") + (e.line + "\n")
  }

  /** `done` and then the text of the entries from `i` on. */
  function WriteOnto(done: string, es: seq<Entry>, i: nat, stamps: bool): (b: string)
    requires i <= |es|
    decreases |es| - i
  {
    if i == |es| then done else WriteOnto(done + EntryText(es[i], stamps), es, i + 1, stamps)
  }

  function SizeFrom(es: seq<Entry>, i: nat, stamps: bool): (n: nat)
    requires i <= |es|
    decreases |es| - i
  {
    if i == |es| then 0 else |EntryText(es[i], stamps)| + SizeFrom(es, i + 1, stamps)
  }

  lemma {:induction false} SizeOfWritten(done: string, es: seq<Entry>, i: nat, stamps: bool)
    requires i <= |es|
    ensures |WriteOnto(done, es, i, stamps)| == |done| + SizeFrom(es, i, stamps)
    decreases |es| - i
  {
    if i < |es| {
      SizeOfWritten(done + EntryText(es[i], stamps), es, i + 1, stamps);
    }
  }

  lemma RegroupEntry(done: string, ts: string, line: string, tail: string)
    ensures (done + ((ts + "\n") + (line + "\n"))) + tail == done + (ts + ("\n" + ((line + "\n") + tail)))
  {
  }

  lemma {:induction false} WrittenIsText(done: string, es: seq<Entry>, i: nat, comment: char)
    requires i <= |es| && forall k :: 0 <= k < |es| ==> Stamped(es[k], comment)
    ensures WriteOnto(done, es, i, true) == done + Text(FileLines(es, i))
    decreases |es| - i
  {
    if i < |es| {
      WrittenIsText(done + EntryText(es[i], true), es, i + 1, comment);
      var tail := FileLines(es, i + 1);
      TextOfPieces(es[i].line, 0);
      TextOfAppend(Pieces(es[i].line), tail);
      assert es[i].line[0..] == es[i].line;
      RegroupEntry(done, es[i].timestamp, es[i].line, Text(tail));
    }
  }

  /** `history_comment_char`, or `#` for the time of reading a file that seems to use it. */
  function CommentFor(comment: char, b: string): (c: char)
  {
    if comment == '\0' && IsStamp(b, '#') then '#' else comment
  }

  /** The list after reading a file. */
  function Loaded(entries: seq<Entry>, b: string, comment: char, multiline: bool, now: string): (r: seq<Entry>)
  {
    var c := CommentFor(comment, b);
    AbsorbAll(State(entries, if IsStamp(b, c) then Stamp(b) else NoStamp), LinesFrom(b, 0), c, multiline, now).entries
  }

  lemma WrittenLines(es: seq<Entry>, b: string, comment: char)
    requires b == WriteOnto("", es, 0, true) && forall k :: 0 <= k < |es| ==> Stamped(es[k], comment)
    ensures LinesFrom(b, 0) == FileLines(es, 0) && (es != [] ==> IsStamp(b, comment))
  {
    WrittenIsText("", es, 0, comment);
    FileLinesAreOneLiners(es, 0, comment);
    assert "" + Text(FileLines(es, 0)) == Text(FileLines(es, 0)) && b[0..] == b;
    LinesOfText(b, 0, FileLines(es, 0));
  }

  /** Writing a stamped list to a file and reading the file into an empty list gives the same
      list, with its multi-line entries and its timestamps, if and only if no piece of a line is
      empty, ends in a carriage return or looks like a timestamp.  When no comment character is
      set, the reader takes it to be `#`. */
  lemma FileRoundTrip(es: seq<Entry>, b: string, comment: char, multiline: bool, now: string)
    requires var c := if comment == '\0' then '#' else comment;
             forall k :: 0 <= k < |es| ==> Stamped(es[k], c)
    requires b == WriteOnto("", es, 0, true) && (es != [] ==> multiline)
    ensures var c := if comment == '\0' then '#' else comment;
            Loaded([], b, comment, multiline, now) == es <==>
              forall k :: 0 <= k < |es| ==> AllPlain(Pieces(es[k].line), c)
  {
    var c := if comment == '\0' then '#' else comment;
    WrittenLines(es, b, c);
    if es != [] {
      LinesRoundTrip(es, Stamp(b), c, now);
    }
  }

  lemma {:induction false} WrittenHasNoNul(done: string, es: seq<Entry>, i: nat, stamps: bool)
    requires i <= |es| && '\0' !in done
    requires forall k :: 0 <= k < |es| ==> '\0' !in es[k].line && '\0' !in es[k].timestamp
    ensures '\0' !in WriteOnto(done, es, i, stamps)
    decreases |es| - i
  {
    if i < |es| {
      WrittenHasNoNul(done + EntryText(es[i], stamps), es, i + 1, stamps);
    }
  }

  /** For instance, an entry with an empty line does not survive. */
  lemma EmptyLineIsLost(now: string)
    ensures var es := [Entry("", "#1")]; Loaded([], WriteOnto("", es, 0, true), '\0', true, now) != es
  {
    var es := [Entry("", "#1")];
    assert !AllPlain(Pieces(es[0].line), '#');
    FileRoundTrip(es, WriteOnto("", es, 0, true), '\0', true, now);
  }

  // ----- Files without timestamps, and lists without multi-line entries -----

  /** No line is taken for a timestamp. */
  predicate Unstamped(lines: Lines, comment: char)
  {
    match lines
    case End => true
    case Line(text, rest) => !IsStamp(Chop(text), comment) && Unstamped(rest, comment)
  }

  /** An entry for every line that is not empty, without its carriage return, of the time `now`. */
  function OnePerLine(lines: Lines, now: string): (es: seq<Entry>)
  {
    match lines
    case End => []
    case Line(text, rest) => (if Chop(text) == "" then [] else [Entry(Chop(text), now)]) + OnePerLine(rest, now)
  }

  /** The lines that are not empty, each after a newline. */
  function Continued(lines: Lines): (s: string)
  {
    match lines
    case End => ""
    case Line(text, rest) => (if Chop(text) == "" then "" else "\n" + Chop(text)) + Continued(rest)
  }

  function LineCount(lines: Lines): (n: nat)
  {
    match lines
    case End => 0
    case Line(_, rest) => 1 + LineCount(rest)
  }

  lemma {:induction false} AllCounted(lines: Lines, comment: char)
    requires Unstamped(lines, comment)
    ensures Counted(lines, comment) == LineCount(lines)
  {
    if lines.Line? {
      AllCounted(lines.rest, comment);
    }
  }

  lemma AppendedOne(done: seq<Entry>, e: Entry, rest: seq<Entry>)
    ensures (done + [e]) + rest == done + ([e] + rest) && done + ([] + rest) == done + rest
  {
    assert [] + rest == rest;
  }

  /** With multi-line entries off, every line that is not empty becomes an entry. */
  lemma {:induction false} ReadSeparately(entries: seq<Entry>, lines: Lines, comment: char, now: string)
    requires Unstamped(lines, comment)
    ensures AbsorbAll(State(entries, NoStamp), lines, comment, false, now).entries == entries + OnePerLine(lines, now)
    decreases lines
  {
    match lines {
      case End =>
      case Line(text, rest) =>
        var e := Entry(Chop(text), now);
        AppendedOne(entries, e, OnePerLine(rest, now));
        ReadSeparately(if Chop(text) == "" then entries else entries + [e], rest, comment, now);
    }
  }

  /** With them on, the lines continue the last entry. */
  lemma {:induction false} ReadContinued(done: seq<Entry>, last: Entry, lines: Lines, comment: char, now: string)
    requires Unstamped(lines, comment)
    ensures AbsorbAll(State(done + [last], NoStamp), lines, comment, true, now).entries
         == done + [Entry(last.line + Continued(lines), last.timestamp)]
    decreases lines
  {
    match lines {
      case End =>
        assert last.line + "" == last.line;
      case Line(text, rest) =>
        var t := Chop(text);
        var longer := if t == "" then last else Entry(last.line + ("\n" + t), last.timestamp);
        assert (done + [last])[..|done|] == done;
        assert Absorb(State(done + [last], NoStamp), text, comment, true, now) == State(done + [longer], NoStamp);
        ReadContinued(done, longer, rest, comment, now);
        assert longer.line + Continued(rest) == last.line + Continued(lines);
    }
  }

  /** What reading a file without timestamps does: with multi-line entries off a new entry for every
      line that is not empty; with them on, all those lines continue the last entry, if there is
      one. */
  lemma ReadUnstamped(entries: seq<Entry>, b: string, comment: char, now: string)
    requires !IsStamp(b, CommentFor(comment, b)) && Unstamped(LinesFrom(b, 0), CommentFor(comment, b))
    ensures Loaded(entries, b, comment, false, now) == entries + OnePerLine(LinesFrom(b, 0), now)
    ensures forall done, last :: entries == done + [last] ==>
      Loaded(entries, b, comment, true, now)
        == done + [Entry(last.line + Continued(LinesFrom(b, 0)), last.timestamp)]
    ensures Counted(LinesFrom(b, 0), CommentFor(comment, b)) == LineCount(LinesFrom(b, 0))
  {
    var c, lines := CommentFor(comment, b), LinesFrom(b, 0);
    ReadSeparately(entries, lines, c, now);
    forall done, last | entries == done + [last]
      ensures Loaded(entries, b, comment, true, now) == done + [Entry(last.line + Continued(lines), last.timestamp)]
    {
      ReadContinued(done, last, lines, c, now);
    }
    AllCounted(lines, c);
  }

  /** When no comment character is set and the file does not begin with `#` and a digit, no line of it
      is taken for a timestamp. */
  lemma NoCommentCharacter(b: string)
    requires '\0' !in b && !(|b| >= 2 && b[0] == '#' && '0' <= b[1] <= '9')
    ensures !IsStamp(b, CommentFor('\0', b)) && Unstamped(LinesFrom(b, 0), CommentFor('\0', b))
  {
    NoLineIsStamp(b, 0);
  }

  lemma {:induction false} NoLineIsStamp(b: string, i: nat)
    requires '\0' !in b && i <= |b|
    ensures Unstamped(LinesFrom(b, i), '\0')
    decreases |b| - i
  {
    var k := NewlineFrom(b, i);
    if k < |b| {
      NoLineIsStamp(b, k + 1);
      assert i < k ==> b[i..k][0] == b[i];
      assert Chop(b[i..k]) != "" ==> Chop(b[i..k])[0] == b[i];
    }
  }

  /** An entry without a timestamp is written without one. */
  lemma {:induction false} NoTimestampWritten(done: string, es: seq<Entry>, i: nat)
    requires i <= |es| && forall k :: 0 <= k < |es| ==> es[k].timestamp == ""
    ensures WriteOnto(done, es, i, true) == WriteOnto(done, es, i, false)
    decreases |es| - i
  {
    if i < |es| {
      NoTimestampWritten(done + EntryText(es[i], false), es, i + 1);
    }
  }

  // ----- The round trip with multi-line entries off -----

  /** The lines written for the entries from `i` on, with or without timestamps. */
  function WrittenLinesFrom(es: seq<Entry>, i: nat, stamps: bool): (lines: Lines)
    requires i <= |es|
    decreases |es| - i
  {
    if stamps then FileLines(es, i)
    else if i == |es| then End
    else Append(Pieces(es[i].line), WrittenLinesFrom(es, i + 1, false))
  }

  /** The line is a single plain piece. */
  predicate PlainLine(line: string, comment: char)
  {
    OneLine(line) && Plain(line, comment)
  }

  /** The entries that plain lines read back as without timestamps. */
  function Restamped(es: seq<Entry>, now: string): (r: seq<Entry>)
    ensures |r| == |es| && forall k :: 0 <= k < |es| ==> r[k] == Entry(es[k].line, now)
  {
    seq(|es|, k requires 0 <= k < |es| => Entry(es[k].line, now))
  }

  /** How many lines make an entry of their own with multi-line entries off. */
  function KeptLines(lines: Lines, comment: char): (n: nat)
  {
    match lines
    case End => 0
    case Line(text, rest) =>
      (if Chop(text) == "" || IsStamp(Chop(text), comment) then 0 else 1) + KeptLines(rest, comment)
  }

  lemma {:induction false} EntriesKept(st: State, lines: Lines, comment: char, now: string)
    ensures |AbsorbAll(st, lines, comment, false, now).entries| == |st.entries| + KeptLines(lines, comment)
    decreases lines
  {
    if lines.Line? {
      EntriesKept(Absorb(st, lines.text, comment, false, now), lines.rest, comment, now);
    }
  }

  lemma {:induction false} KeptOfAppend(a: Lines, b: Lines, comment: char)
    ensures KeptLines(Append(a, b), comment) == KeptLines(a, comment) + KeptLines(b, comment)
  {
    if a.Line? {
      KeptOfAppend(a.rest, b, comment);
    }
  }

  lemma {:induction false} PlainAreKept(lines: Lines, comment: char)
    requires AllPlain(lines, comment)
    ensures KeptLines(lines, comment) == LineCount(lines) && Unstamped(lines, comment)
  {
    if lines.Line? {
      PlainAreKept(lines.rest, comment);
    }
  }

  /** A line has one piece exactly when it has no newline. */
  lemma OnePiece(s: string)
    ensures LineCount(Pieces(s)) >= 1 && (LineCount(Pieces(s)) == 1 <==> OneLine(s))
    ensures OneLine(s) ==> Pieces(s) == Line(s, End)
  {
    NoNewlineBefore(s, 0);
    var k := NewlineFrom(s, 0);
    if k == |s| {
      assert s[0..k] == s;
    } else {
      assert s[k] == '\n';
      assert PiecesFrom(s, k + 1).Line?;
    }
  }

  lemma {:induction false} BareLinesAreOneLiners(es: seq<Entry>, i: nat)
    requires i <= |es|
    ensures OneLiners(WrittenLinesFrom(es, i, false))
    decreases |es| - i
  {
    if i < |es| {
      BareLinesAreOneLiners(es, i + 1);
      PiecesAreOneLiners(es[i].line, 0);
      AppendOneLiners(Pieces(es[i].line), WrittenLinesFrom(es, i + 1, false));
    }
  }

  lemma {:induction false} BareIsText(done: string, es: seq<Entry>, i: nat)
    requires i <= |es|
    ensures WriteOnto(done, es, i, false) == done + Text(WrittenLinesFrom(es, i, false))
    decreases |es| - i
  {
    if i < |es| {
      var tail := WrittenLinesFrom(es, i + 1, false);
      BareIsText(done + EntryText(es[i], false), es, i + 1);
      TextOfPieces(es[i].line, 0);
      TextOfAppend(Pieces(es[i].line), tail);
      assert es[i].line[0..] == es[i].line;
      assert EntryText(es[i], false) == es[i].line + "\n";
      assert (done + (es[i].line + "\n")) + Text(tail) == done + ((es[i].line + "\n") + Text(tail));
    }
  }

  lemma BareLines(es: seq<Entry>, b: string)
    requires b == WriteOnto("", es, 0, false)
    ensures LinesFrom(b, 0) == WrittenLinesFrom(es, 0, false)
  {
    BareIsText("", es, 0);
    BareLinesAreOneLiners(es, 0);
    assert "" + Text(WrittenLinesFrom(es, 0, false)) == Text(WrittenLinesFrom(es, 0, false)) && b[0..] == b;
    LinesOfText(b, 0, WrittenLinesFrom(es, 0, false));
  }

  lemma {:induction false} BareGains(es: seq<Entry>, i: nat, comment: char)
    requires i <= |es|
    ensures Gains(WrittenLinesFrom(es, i, false), comment) <= WeightFrom(es, i)
    ensures Gains(WrittenLinesFrom(es, i, false), comment) == WeightFrom(es, i) <==> PlainFrom(es, i, comment)
    decreases |es| - i
  {
    if i < |es| {
      BareGains(es, i + 1, comment);
      GainsOfAppend(Pieces(es[i].line), WrittenLinesFrom(es, i + 1, false), comment);
      GainsAtMostSize(Pieces(es[i].line), comment);
      SizeOfPieces(es[i].line, 0);
    }
  }

  predicate AllStamped(es: seq<Entry>, comment: char)
  {
    forall k :: 0 <= k < |es| ==> Stamped(es[k], comment)
  }

  /** Lines made of plain pieces are kept as so many entries only if each is a single piece. */
  lemma {:induction false} PiecesKept(es: seq<Entry>, i: nat, stamps: bool, comment: char)
    requires i <= |es| && PlainFrom(es, i, comment) && (stamps ==> AllStamped(es, comment))
    ensures KeptLines(WrittenLinesFrom(es, i, stamps), comment) >= |es| - i
    ensures KeptLines(WrittenLinesFrom(es, i, stamps), comment) == |es| - i ==>
      forall k :: i <= k < |es| ==> PlainLine(es[k].line, comment)
    decreases |es| - i
  {
    if i < |es| {
      var pieces, tail := Pieces(es[i].line), WrittenLinesFrom(es, i + 1, stamps);
      PiecesKept(es, i + 1, stamps, comment);
      KeptOfAppend(pieces, tail, comment);
      PlainAreKept(pieces, comment);
      OnePiece(es[i].line);
    }
  }

  lemma PlainLineIsOnePiece(line: string, tail: Lines, comment: char)
    requires PlainLine(line, comment)
    ensures Append(Pieces(line), tail) == Line(line, tail)
    ensures Chop(line) == line && line != "" && !IsStamp(line, comment)
  {
    OnePiece(line);
    assert Append(End, tail) == tail;
  }

  /** One line each, with or without a timestamp before it. */
  lemma {:induction false} ReadsPlainLines(st: State, es: seq<Entry>, i: nat, stamps: bool, comment: char, now: string)
    requires i <= |es| && (forall k :: i <= k < |es| ==> PlainLine(es[k].line, comment))
    requires if stamps then AllStamped(es, comment) else st.pending == NoStamp
    ensures AbsorbAll(st, WrittenLinesFrom(es, i, stamps), comment, false, now).entries
         == st.entries + (if stamps then es else Restamped(es, now))[i..]
    decreases |es| - i
  {
    if i < |es| {
      var tail, target := WrittenLinesFrom(es, i + 1, stamps), if stamps then es else Restamped(es, now);
      PlainLineIsOnePiece(es[i].line, tail, comment);
      var after := State(st.entries + [target[i]], NoStamp);
      ReadsPlainLines(after, es, i + 1, stamps, comment, now);
      TakeEntry(st.entries, target, i);
      ReadsPlainLine(st, es[i], tail, stamps, comment, now);
    }
  }

  lemma ReadsPlainLine(st: State, e: Entry, tail: Lines, stamps: bool, comment: char, now: string)
    requires PlainLine(e.line, comment) && (if stamps then Stamped(e, comment) else st.pending == NoStamp)
    ensures var lines := if stamps then Line(e.timestamp, Line(e.line, tail)) else Line(e.line, tail);
            var after := State(st.entries + [if stamps then e else Entry(e.line, now)], NoStamp);
            AbsorbAll(st, lines, comment, false, now) == AbsorbAll(after, tail, comment, false, now)
  {
    var st1 := if stamps then State(st.entries, Stamp(e.timestamp)) else st;
    assert stamps ==> Absorb(st, e.timestamp, comment, false, now) == st1;
    assert Absorb(st1, e.line, comment, false, now)
        == State(st.entries + [if stamps then e else Entry(e.line, now)], NoStamp);
  }

  lemma RestampedWeight(es: seq<Entry>, now: string, i: nat)
    requires i <= |es|
    ensures WeightFrom(Restamped(es, now), i) == WeightFrom(es, i)
    decreases |es| - i
  {
    if i < |es| {
      RestampedWeight(es, now, i + 1);
    }
  }

  /** A list read back with multi-line entries off keeps its weight and length only if all its lines
      are single plain pieces. */
  lemma OnlyPlainLinesSurvive(es: seq<Entry>, target: seq<Entry>, stamps: bool, pending: Pending, comment: char,
                              now: string)
    requires |target| == |es| && WeightFrom(target, 0) == WeightFrom(es, 0) && (stamps ==> AllStamped(es, comment))
    requires AbsorbAll(State([], pending), WrittenLinesFrom(es, 0, stamps), comment, false, now).entries == target
    ensures forall k :: 0 <= k < |es| ==> PlainLine(es[k].line, comment)
  {
    var lines := WrittenLinesFrom(es, 0, stamps);
    AbsorbAllGains(State([], pending), lines, comment, false, now);
    WeightIsSum(target, 0);
    assert target[..0] == [];
    if stamps {
      FileGains(es, 0, comment);
    } else {
      BareGains(es, 0, comment);
    }
    EntriesKept(State([], pending), lines, comment, now);
    PiecesKept(es, 0, stamps, comment);
  }

  /** A list written without timestamps and read into an empty list with multi-line entries off comes
      back with the same lines if and only if each is a single piece that is not empty, does not end
      in a carriage return and does not look like a timestamp. */
  lemma UnstampedRoundTrip(es: seq<Entry>, b: string, comment: char, now: string)
    requires b == WriteOnto("", es, 0, false)
    ensures Loaded([], b, comment, false, now) == Restamped(es, now) <==>
      forall k :: 0 <= k < |es| ==> PlainLine(es[k].line, CommentFor(comment, b))
  {
    var c := CommentFor(comment, b);
    var pending := if IsStamp(b, c) then Stamp(b) else NoStamp;
    BareLines(es, b);
    if forall k :: 0 <= k < |es| ==> PlainLine(es[k].line, c) {
      NoStampInFront(es, b, c);
      ReadsPlainLines(State([], NoStamp), es, 0, false, c, now);
      assert [] + Restamped(es, now)[0..] == Restamped(es, now);
    } else if Loaded([], b, comment, false, now) == Restamped(es, now) {
      RestampedWeight(es, now, 0);
      OnlyPlainLinesSurvive(es, Restamped(es, now), false, pending, c, now);
    }
  }

  /** A file of plain lines does not begin like one with timestamps. */
  lemma NoStampInFront(es: seq<Entry>, b: string, comment: char)
    requires b == WriteOnto("", es, 0, false) && forall k :: 0 <= k < |es| ==> PlainLine(es[k].line, comment)
    ensures !IsStamp(b, comment)
  {
    BareIsText("", es, 0);
    if es != [] {
      var tail := WrittenLinesFrom(es, 1, false);
      PlainLineIsOnePiece(es[0].line, tail, comment);
      assert b == es[0].line + ("\n" + Text(tail));
    }
  }

  /** The same with timestamps, which come back too. */
  lemma StampedSeparateRoundTrip(es: seq<Entry>, b: string, comment: char, now: string)
    requires var c := if comment == '\0' then '#' else comment; AllStamped(es, c)
    requires b == WriteOnto("", es, 0, true)
    ensures var c := if comment == '\0' then '#' else comment;
            Loaded([], b, comment, false, now) == es <==> forall k :: 0 <= k < |es| ==> PlainLine(es[k].line, c)
  {
    var c := if comment == '\0' then '#' else comment;
    WrittenLines(es, b, c);
    if es != [] {
      if forall k :: 0 <= k < |es| ==> PlainLine(es[k].line, c) {
        ReadsPlainLines(State([], Stamp(b)), es, 0, true, c, now);
        assert [] + es[0..] == es;
      } else if Loaded([], b, comment, false, now) == es {
        OnlyPlainLinesSurvive(es, es, true, Stamp(b), c, now);
      }
    }
  }

  // ----- The reading loop -----

  /** Half way through a file: the line that starts at `ls` is read up to `le`, and the lines from
      there on lead from `st` to `all`, counting up to `total`. */
  ghost predicate Reading(b: string, ls: nat, le: nat, st: State, count: int,
                          comment: char, multi: bool, now: string, all: State, total: int)
  {
    && ls <= le <= |b| && NewlineFrom(b, ls) == NewlineFrom(b, le)
    && AbsorbAll(st, LinesFrom(b, ls), comment, multi, now) == all
    && count + Counted(LinesFrom(b, ls), comment) == total
  }

  lemma NextCharacter(b: string, ls: nat, le: nat, st: State, count: int,
                      comment: char, multi: bool, now: string, all: State, total: int)
    requires Reading(b, ls, le, st, count, comment, multi, now, all, total) && le < |b| && b[le] != '\n'
    ensures Reading(b, ls, le + 1, st, count, comment, multi, now, all, total)
  {
  }

  lemma NextLine(b: string, ls: nat, le: nat, st: State, count: int,
                 comment: char, multi: bool, now: string, all: State, total: int, st': State, count': int)
    requires Reading(b, ls, le, st, count, comment, multi, now, all, total) && le < |b| && b[le] == '\n'
    requires st' == Absorb(st, b[ls..le], comment, multi, now)
    requires count' == count + if IsStamp(Chop(b[ls..le]), comment) then 0 else 1
    ensures Reading(b, le + 1, le + 1, st', count', comment, multi, now, all, total)
  {
    assert NewlineFrom(b, ls) == le;
    assert LinesFrom(b, ls) == Line(b[ls..le], LinesFrom(b, le + 1));
  }

  lemma EndOfFile(b: string, ls: nat, st: State, count: int,
                  comment: char, multi: bool, now: string, all: State, total: int)
    requires Reading(b, ls, |b|, st, count, comment, multi, now, all, total)
    ensures st == all && count == total
  {
    assert LinesFrom(b, ls) == End;
  }
}
