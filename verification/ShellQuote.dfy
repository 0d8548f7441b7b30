/** Quoting a line for the shell: the `:q` and `:x` modifiers (`shell.c`, `histexpand.c`). */
module ShellQuote {

  import opened Characters
  import opened Options

  // ----- How a shell reads such text: section 2.2 of POSIX XCU, for blanks, backslashes and single quotes -----

  datatype Mode = Plain | Quoted | Escaped

  /** The words read so far and the one being read; `Stuck` at a character that would need quoting. */
  datatype Shell = Reading(words: seq<string>, word: string, inWord: bool, mode: Mode) | Stuck

  function Step(sh: Shell, c: char): (r: Shell)
  {
    match sh
    case Stuck => Stuck
    case Reading(words, word, inWord, mode) =>
      match mode
      case Quoted => if c == '\'' then Reading(words, word, true, Plain) else Reading(words, word + [c], true, Quoted)
      case Escaped => if c == '\n' then Reading(words, word, inWord, Plain) else Reading(words, word + [c], true, Plain)
      case Plain =>
        if c == '\'' then Reading(words, word, true, Quoted)
        else if c == '\\' then Reading(words, word, inWord, Escaped)
        else if IsBlank(c) then if inWord then Reading(words + [word], "", false, Plain) else sh
        else Stuck
  }

  /** After reading `t`. */
  function Feed(t: string): (sh: Shell)
  {
    if t == "" then Reading([], "", false, Plain) else Step(Feed(t[..|t| - 1]), t[|t| - 1])
  }

  /** The words of a text, if all its quotes are closed and nothing needs quoting. */
  function Words(t: string): (r: Option<seq<string>>)
  {
    match Feed(t)
    case Stuck => None
    case Reading(words, word, inWord, mode) =>
      if mode != Plain then None else Some(if inWord then words + [word] else words)
  }

  lemma FeedOne(t: string, c: char)
    ensures Feed(t + [c]) == Step(Feed(t), c)
  {
    assert (t + [c])[..|t|] == t;
  }

  /** Inside quotes, `'\''` is a quote. */
  lemma FeedQuote(t: string, words: seq<string>, word: string)
    requires Feed(t) == Reading(words, word, true, Quoted)
    ensures Feed(t + ['\''] + ['\\'] + ['\''] + ['\'']) == Reading(words, word + ['\''], true, Quoted)
  {
    FeedOne(t, '\'');
    FeedOne(t + ['\''], '\\');
    FeedOne(t + ['\''] + ['\\'], '\'');
    FeedOne(t + ['\''] + ['\\'] + ['\''], '\'');
  }

  /** Inside quotes, `'`, a blank and `'` start a new word. */
  lemma FeedBreak(t: string, words: seq<string>, word: string, c: char)
    requires Feed(t) == Reading(words, word, true, Quoted) && IsBlank(c)
    ensures Feed(t + ['\''] + [c] + ['\'']) == Reading(words + [word], "", true, Quoted)
  {
    FeedOne(t, '\'');
    FeedOne(t + ['\''], c);
    FeedOne(t + ['\''] + [c], '\'');
  }

  // ----- The quoting functions -----

  /** `sh_single_quote`: one word, whatever the text, in a buffer of `4 * |s| + 3`. */
  method SingleQuote(s: string) returns (result: string)
    ensures Words(result) == Some([s]) && |result| + 1 <= 4 * |s| + 3
  {
    result := ['\''];
    FeedOne("", '\'');
    assert "" + ['\''] == ['\''];
    var i := 0;
    while i < |s|
      invariant 0 <= i <= |s| && Feed(result) == Reading([], s[..i], true, Quoted) && |result| <= 1 + 4 * i
    {
      var c := s[i];
      assert s[..i + 1] == s[..i] + [c];
      if c == '\'' {
        FeedQuote(result, [], s[..i]);
        result := result + [c] + ['\\'] + ['\''] + ['\''];
      } else {
        FeedOne(result, c);
        result := result + [c];
      }
      i := i + 1;
    }
    assert s[..|s|] == s && [] + [s] == [s];
    FeedOne(result, '\'');
    result := result + ['\''];
  }

  /** `done`, then `piece` and the pieces of `s` from `i` on between its blanks. */
  function PiecesOnto(done: seq<string>, piece: string, s: string, i: nat): (r: seq<string>)
    requires i <= |s|
    decreases |s| - i
  {
    if i == |s| then done + [piece]
    else if IsBlank(s[i]) then PiecesOnto(done + [piece], "", s, i + 1)
    else PiecesOnto(done, piece + [s[i]], s, i + 1)
  }

  /** The pieces of `s` between its blanks, empty ones too. */
  function Pieces(s: string): (r: seq<string>)
  {
    PiecesOnto([], "", s, 0)
  }

  /** What a character becomes, in bytes. */
  function Cost(s: string, i: nat): (n: nat)
    requires i <= |s|
  {
    if i == 0 then 0 else Cost(s, i - 1) + if s[i - 1] == '\'' then 4 else if IsBlank(s[i - 1]) then 3 else 1
  }

  /** The size `quote_breaks` computes for its buffer. */
  method QuotedSize(s: string) returns (len: nat)
    ensures len == Cost(s, |s|) + 3
  {
    len := 3;
    var p := 0;
    while p < |s|
      invariant 0 <= p <= |s| && len == Cost(s, p) + 3
    {
      if s[p] == '\'' {
        len := len + 3;
      } else if IsBlank(s[p]) {
        len := len + 2;
      }
      p := p + 1;
      len := len + 1;
    }
  }

  /** The state of the loop of `quote_breaks`: `ret` reads as `words` and the start `word` of the
      next, which with the rest of `s` make up its pieces. */
  ghost predicate Quoting(s: string, p: nat, ret: string, words: seq<string>, word: string)
  {
    && p <= |s| && |ret| == 1 + Cost(s, p) && Feed(ret) == Reading(words, word, true, Quoted)
    && PiecesOnto(words, word, s, p) == Pieces(s)
  }

  lemma QuoteOne(s: string, p: nat, ret: string, words: seq<string>, word: string, ret': string, words': seq<string>,
                 word': string)
    requires p < |s| && Quoting(s, p, ret, words, word)
    requires if s[p] == '\'' then
               ret' == ret + ['\''] + ['\\'] + ['\''] + ['\''] && words' == words && word' == word + ['\'']
             else if IsBlank(s[p]) then
               ret' == ret + ['\''] + [s[p]] + ['\''] && words' == words + [word] && word' == ""
             else ret' == ret + [s[p]] && words' == words && word' == word + [s[p]]
    ensures Quoting(s, p + 1, ret', words', word')
  {
    if s[p] == '\'' {
      FeedQuote(ret, words, word);
    } else if IsBlank(s[p]) {
      FeedBreak(ret, words, word, s[p]);
    } else {
      FeedOne(ret, s[p]);
    }
  }

  /** `quote_breaks`: the pieces of the text between its blanks as words, in a buffer of exactly
      the size computed. */
  method QuoteBreaks(s: string) returns (ret: string, len: nat)
    ensures Words(ret) == Some(Pieces(s)) && |ret| + 1 == len
  {
    len := QuotedSize(s);
    ret := ['\''];
    FeedOne("", '\'');
    assert "" + ['\''] == ['\''];
    var p := 0;
    ghost var words, word := [], "";
    while p < |s|
      invariant 0 <= p <= |s| && Quoting(s, p, ret, words, word)
    {
      ghost var ret0, words0, word0 := ret, words, word;
      if s[p] == '\'' {
        ret := ret + ['\''] + ['\\'] + ['\''] + ['\''];
        word := word + ['\''];
      } else if IsBlank(s[p]) {
        ret := ret + ['\''] + [s[p]] + ['\''];
        words, word := words + [word], "";
      } else {
        ret := ret + [s[p]];
        word := word + [s[p]];
      }
      QuoteOne(s, p, ret0, words0, word0, ret, words, word);
      p := p + 1;
    }
    FeedOne(ret, '\'');
    ret := ret + ['\''];
  }

  // ----- The pieces are what they should be -----

  /** The pieces put together again with blanks between them. */
  function Rejoined(pieces: seq<string>, blanks: string): (s: string)
    requires |pieces| == |blanks| + 1
  {
    if blanks == "" then pieces[0] else pieces[0] + ([blanks[0]] + Rejoined(pieces[1..], blanks[1..]))
  }

  /** The blanks of `s` from `i` on. */
  function Blanks(s: string, i: nat): (b: string)
    requires i <= |s|
    decreases |s| - i
  {
    if i == |s| then "" else if IsBlank(s[i]) then [s[i]] + Blanks(s, i + 1) else Blanks(s, i + 1)
  }

  function PiecesFrom(piece: string, s: string, i: nat): (r: seq<string>)
    requires i <= |s|
    decreases |s| - i
  {
    if i == |s| then [piece]
    else if IsBlank(s[i]) then [piece] + PiecesFrom("", s, i + 1)
    else PiecesFrom(piece + [s[i]], s, i + 1)
  }

  lemma {:induction false} OntoIsAppend(done: seq<string>, piece: string, s: string, i: nat)
    requires i <= |s|
    ensures PiecesOnto(done, piece, s, i) == done + PiecesFrom(piece, s, i)
    decreases |s| - i
  {
    if i < |s| {
      if IsBlank(s[i]) {
        OntoIsAppend(done + [piece], "", s, i + 1);
        assert (done + [piece]) + PiecesFrom("", s, i + 1) == done + ([piece] + PiecesFrom("", s, i + 1));
      } else {
        OntoIsAppend(done, piece + [s[i]], s, i + 1);
      }
    }
  }

  predicate BlankFree(t: string) { forall j :: 0 <= j < |t| ==> !IsBlank(t[j]) }

  lemma {:induction false} PiecesFromRejoin(piece: string, s: string, i: nat)
    requires i <= |s| && BlankFree(piece)
    ensures var r := PiecesFrom(piece, s, i);
            && |r| == |Blanks(s, i)| + 1 && Rejoined(r, Blanks(s, i)) == piece + s[i..]
            && forall k :: 0 <= k < |r| ==> BlankFree(r[k])
    decreases |s| - i
  {
    if i < |s| {
      if IsBlank(s[i]) {
        PiecesFromRejoin("", s, i + 1);
        StartsWith(piece, PiecesFrom("", s, i + 1), s[i], Blanks(s, i + 1));
        assert [s[i]] + ("" + s[i + 1..]) == s[i..];
      } else {
        PiecesFromRejoin(piece + [s[i]], s, i + 1);
        assert (piece + [s[i]]) + s[i + 1..] == piece + s[i..];
      }
    }
  }

  lemma StartsWith(piece: string, rest: seq<string>, c: char, blanks: string)
    requires |rest| == |blanks| + 1
    ensures Rejoined([piece] + rest, [c] + blanks) == piece + ([c] + Rejoined(rest, blanks))
  {
    assert ([piece] + rest)[1..] == rest && ([c] + blanks)[1..] == blanks;
  }

  /** The pieces hold no blank, and with the blanks of the text between them they are the text. */
  lemma PiecesRejoin(s: string)
    ensures var r := Pieces(s);
            && |r| == |Blanks(s, 0)| + 1 && Rejoined(r, Blanks(s, 0)) == s
            && forall k :: 0 <= k < |r| ==> BlankFree(r[k])
  {
    OntoIsAppend([], "", s, 0);
    PiecesFromRejoin("", s, 0);
    assert [] + PiecesFrom("", s, 0) == PiecesFrom("", s, 0) && "" + s[0..] == s;
  }
}
