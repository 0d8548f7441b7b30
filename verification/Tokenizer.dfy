/** The word splitter of `histexpand.c`, with its index loops. */
module Tokenizer {
  import opened Characters
  import opened Options
  import opened TokenSpec

  /** One turn of the word loop, at position `i`. */
  lemma ScanAt(s: string, i: nat, delim: char, nest: nat, n: nat, step: Step)
    requires i < |s| && n == ScanLen(s[i..], delim, nest) && i + n <= |s|
      && step == StepAt(s[i], At(s, i + 1), delim, nest)
    ensures step.Stop? ==> n == 0
    ensures step.Go? ==> step.count <= n && n == step.count + ScanLen(s[i + step.count..], step.delim, step.nest)
  {
    if step.Go? && i + step.count <= |s| {
      assert s[i..][step.count..] == s[i + step.count..];
    }
  }

  /** The body of the word loop: whether the word ends here, or how far to move and the delimiter
      and nesting level from there on. */
  method TakeTurn(c: char, next: char, delim: char, nest: nat) returns (step: Step)
    ensures step == StepAt(c, next, delim, nest)
  {
    var count, delimiter, nestdelim := 1, delim, nest;
    if c == '\\' && next == '\n' {
      count := 2;
    } else if c == '\\' && delimiter != '\'' {
      count := 2;
    } else if nestdelim > 0 && c == '(' {
      nestdelim := nestdelim + 1;
    } else if nestdelim > 0 && c == delimiter {
      nestdelim := nestdelim - 1;
      if nestdelim == 0 {
        delimiter := NONE;
      }
    } else if delimiter != NONE && c == delimiter {
      delimiter := NONE;
    } else if nestdelim == 0 && delimiter == NONE && OpensGroup(c) && next == '(' {
      count, delimiter, nestdelim := 3, ')', 1;
    } else if delimiter == NONE && IsDelimiter(c) {
      return Stop;
    } else if delimiter == NONE && IsQuote(c) {
      delimiter := c;
    }
    return Go(count, delimiter, nestdelim);
  }

  /** A turn at position `i`, when the word ends `n` characters further on. */
  method TurnAt(s: string, i: nat, delim: char, nest: nat, ghost n: nat) returns (step: Step)
    requires i < |s| && n == ScanLen(s[i..], delim, nest) && i + n <= |s|
    ensures step.Stop? ==> n == 0
    ensures step.Go? ==> 1 <= step.count <= n && n - step.count == ScanLen(s[i + step.count..], step.delim, step.nest)
  {
    step := TakeTurn(s[i], At(s, i + 1), delim, nest);
    ScanAt(s, i, delim, nest, n, step);
  }

  /** The loop at `get_word`. */
  method GetWord(s: string, start: nat, delim: char, nest: nat) returns (i: nat)
    requires start <= |s| && start + ScanLen(s[start..], delim, nest) <= |s|
    ensures i == start + ScanLen(s[start..], delim, nest)
  {
    i := start;
    var delimiter, nestdelim := delim, nest;
    ghost var end := start + ScanLen(s[start..], delim, nest);
    while i < |s|
      invariant start <= i <= end <= |s| && end - i == ScanLen(s[i..], delimiter, nestdelim)
    {
      var step := TurnAt(s, i, delimiter, nestdelim, end - i);
      if step.Stop? {
        return;
      }
      delimiter, nestdelim := step.delim, step.nest;
      i := i + step.count;
    }
  }

  method SkipDigits(s: string, start: nat) returns (j: nat)
    requires start <= |s|
    ensures j == start + Digits(s[start..])
  {
    j := start;
    while j < |s| && IsDigit(s[j])
      invariant start <= j <= |s|
      invariant j + Digits(s[j..]) == start + Digits(s[start..])
    {
      assert s[j..][1..] == s[j + 1..];
      j := j + 1;
    }
  }

  /** The operator part of `history_tokenize_word`. */
  method ReadOperator(s: string, i: nat) returns (e: nat)
    requires i < |s| && IsOperator(s[i]) && i + OperatorLen(s[i..]) <= |s|
    ensures e == i + OperatorLen(s[i..])
  {
    ghost var t := s[i..];
    var peek := At(s, i + 1);
    if i + 1 < |s| && peek == s[i] {
      if peek == '<' && At(s, i + 2) == '-' {
        return i + 3;
      } else if peek == '<' && At(s, i + 2) == '<' {
        return i + 3;
      }
      return i + 2;
    } else if peek == '&' && (s[i] == '>' || s[i] == '<') {
      assert s[i + 2..] == t[2..];
      var j := SkipDigits(s, i + 2);
      if At(s, j) == '-' {
        j := j + 1;
      }
      return j;
    } else if (peek == '>' && s[i] == '&') || (peek == '|' && s[i] == '>') {
      return i + 2;
    } else if peek == '(' && (s[i] == '>' || s[i] == '<') {
      assert s[i + 2..] == t[2..];
      e := GetWord(s, i + 2, ')', 1);
      return;
    }
    return i + 1;
  }

  /** A token in terms of what follows its leading digits. */
  lemma TokenFrom(s: string, ind: nat, j: nat)
    requires ind < |s| && s[ind] != '(' && s[ind] != ')' && s[ind] != '\n'
    requires j == ind + Digits(s[ind..])
    ensures j == |s| ==> ind + TokenLen(s[ind..]) == |s|
    ensures j < |s| && IsOperator(s[j]) && (j == ind || s[j] == '<' || s[j] == '>') ==>
      ind + TokenLen(s[ind..]) == j + OperatorLen(s[j..])
    ensures j < |s| && !(IsOperator(s[j]) && (j == ind || s[j] == '<' || s[j] == '>')) ==>
      ind + TokenLen(s[ind..]) == j + WordLen(s[j..])
  {
    assert s[ind..][j - ind..] == s[j..];
  }

  /** `history_tokenize_word`: the end of the token that starts at `ind`. */
  method TokenizeWord(s: string, ind: nat) returns (e: nat)
    requires ind < |s| && ind + TokenLen(s[ind..]) <= |s|
    ensures e == ind + TokenLen(s[ind..])
  {
    if s[ind] == '(' || s[ind] == ')' || s[ind] == '\n' {
      return ind + 1;
    }
    var i := SkipDigits(s, ind);
    TokenFrom(s, ind, i);
    if i == |s| {
      return i;
    }
    if IsOperator(s[i]) && (i == ind || s[i] == '<' || s[i] == '>') {
      e := ReadOperator(s, i);
    } else {
      e := ReadWord(s, i);
    }
  }

  method ReadWord(s: string, i: nat) returns (e: nat)
    requires i < |s| && i + WordLen(s[i..]) <= |s|
    ensures e == i + WordLen(s[i..])
  {
    if IsQuote(s[i]) {
      assert s[i..][1..] == s[i + 1..];
      e := GetWord(s, i + 1, s[i], 0);
    } else {
      e := GetWord(s, i, NONE, 0);
    }
  }

  datatype Span = Span(start: nat, end: nat)

  ghost predicate Covered(spans: seq<Span>, p: nat)
  {
    exists k :: 0 <= k < |spans| && spans[k].start <= p < spans[k].end
  }

  /** The spans are non-empty, in order and do not overlap. */
  ghost predicate Ordered(spans: seq<Span>, limit: nat)
  {
    && (forall k :: 0 <= k < |spans| ==> spans[k].start < spans[k].end <= limit)
    && (forall k :: 0 < k < |spans| ==> spans[k - 1].end <= spans[k].start)
  }

  /** The spans cut out exactly `words`. */
  ghost predicate CutOut(s: string, spans: seq<Span>, words: seq<string>)
    requires Ordered(spans, |s|)
  {
    |spans| == |words| && forall k :: 0 <= k < |spans| ==> s[spans[k].start..spans[k].end] == words[k]
  }

  method SkipWhitespace(s: string, start: nat) returns (i: nat)
    requires start <= |s|
    ensures start <= i <= |s| && SkipBlanks(s[start..]) == s[i..]
    ensures forall p :: start <= p < i ==> IsBlank(s[p])
  {
    i := start;
    while i < |s| && IsBlank(s[i])
      invariant start <= i <= |s| && SkipBlanks(s[start..]) == SkipBlanks(s[i..])
      invariant forall p :: start <= p < i ==> IsBlank(s[p])
    {
      assert s[i..][1..] == s[i + 1..];
      i := i + 1;
    }
  }

  /** The words of `line` are `word` and those of `rest`. */
  ghost predicate FirstWord(line: string, word: string, rest: string)
  {
    Readable(line) && Readable(rest) && Tokens(line) == [word] + Tokens(rest)
  }

  lemma TokensFrom(line: string, t: string, n: nat)
    requires Readable(line) && t == SkipBlanks(line) && t != "" && n == TokenLen(t)
    ensures 1 <= n <= |t| && FirstWord(line, t[..n], t[n..])
  {
  }

  /** One turn of the splitting loop: the next token, or the end of the line. */
  method NextToken(s: string, i: nat) returns (start: nat, end: nat)
    requires i <= |s| && Readable(s[i..])
    ensures i <= start <= end <= |s| && (forall p :: i <= p < start ==> IsBlank(s[p]))
    ensures start == |s| ==> Tokens(s[i..]) == []
    ensures start < |s| ==> start < end && FirstWord(s[i..], s[start..end], s[end..])
  {
    start := SkipWhitespace(s, i);
    end := start;
    if start < |s| {
      ghost var n := TokenLen(s[start..]);
      TokensFrom(s[i..], s[start..], n);
      end := TokenizeWord(s, start);
      assert s[start..][..n] == s[start..end] && s[start..][n..] == s[end..];
    }
  }

  /** The spans cut out the leading words, and the text from `i` on holds the others. */
  ghost predicate SplitUpTo(s: string, spans: seq<Span>, i: nat, words: seq<string>)
  {
    && i <= |s| && |spans| <= |words| && Readable(s[i..])
    && Ordered(spans, i) && CutOut(s, spans, words[..|spans|])
    && Tokens(s[i..]) == words[|spans|..]
  }

  lemma SplitOneMore(s: string, spans: seq<Span>, i: nat, words: seq<string>, start: nat, end: nat)
    requires i <= start < end <= |s| && SplitUpTo(s, spans, i, words)
    requires FirstWord(s[i..], s[start..end], s[end..])
    ensures SplitUpTo(s, spans + [Span(start, end)], end, words)
  {
    assert words[|spans|..][0] == s[start..end] && words[|spans|..][1..] == Tokens(s[end..]);
  }

  lemma SplitAll(s: string, spans: seq<Span>, i: nat, words: seq<string>)
    requires SplitUpTo(s, spans, i, words) && Tokens(s[i..]) == []
    ensures Ordered(spans, |s|) && CutOut(s, spans, words)
  {
    assert words[..|spans|] == words;
  }

  /** `history_tokenize_internal`: the tokens, as spans of the line.  Whatever lies outside them
      is blank, so no other character is dropped. */
  method HistoryTokenize(s: string) returns (spans: seq<Span>)
    requires Readable(s)
    ensures Ordered(spans, |s|) && CutOut(s, spans, Tokens(s))
    ensures forall p :: 0 <= p < |s| ==> IsBlank(s[p]) || Covered(spans, p)
  {
    spans := [];
    var i := 0;
    assert s[0..] == s;
    ghost var words := Tokens(s);
    while i < |s|
      invariant 0 <= i <= |s| && SplitUpTo(s, spans, i, words)
      invariant forall p :: 0 <= p < i ==> IsBlank(s[p]) || Covered(spans, p)
    {
      var start, end := NextToken(s, i);
      if start == |s| {
        SplitAll(s, spans, i, words);
        return;
      }
      SplitOneMore(s, spans, i, words, start, end);
      CoveredMore(s, spans, spans + [Span(start, end)], i, start, end);
      spans := spans + [Span(start, end)];
      i := end;
    }
    SplitAll(s, spans, i, words);
  }

  lemma CoveredMore(s: string, before: seq<Span>, spans: seq<Span>, i: nat, start: nat, end: nat)
    requires i <= start < end <= |s| && spans == before + [Span(start, end)]
    requires forall p :: 0 <= p < i ==> IsBlank(s[p]) || Covered(before, p)
    requires forall p :: i <= p < start ==> IsBlank(s[p])
    ensures forall p :: 0 <= p < end ==> IsBlank(s[p]) || Covered(spans, p)
  {
    forall p | 0 <= p < end ensures IsBlank(s[p]) || Covered(spans, p)
    {
      if start <= p {
        assert spans[|before|].start <= p < spans[|before|].end;
      } else if Covered(before, p) {
        var k :| 0 <= k < |before| && before[k].start <= p < before[k].end;
        assert spans[k].start <= p < spans[k].end;
      }
    }
  }

  /** `'$'` as the number that `history_arg_extract` takes for "the last word". */
  const DOLLAR: int := 36

  /** The words `history_arg_extract` selects out of `len`, end excluded.  Negative arguments count
      from the right, and anything that comes to 36 means the last word. */
  function ArgRange(first: int, last: int, len: nat): (r: Option<(nat, nat)>)
    ensures r.Some? ==> r.value.0 <= r.value.1 <= len && r.value.0 < len
  {
    var last1 := if last < 0 then len + last - 1 else last;
    var first1 := if first < 0 then len + first - 1 else first;
    var last2 := if last1 == DOLLAR then len - 1 else last1;
    var first2 := if first1 == DOLLAR then len - 1 else first1;
    var end := last2 + 1;
    if first2 >= len || end > len || first2 < 0 || end < 0 || first2 > end then None
    else Some((first2, end))
  }

  /** Counting words from 0, or back from the last but one with negative numbers, selects the words
      between; a selection that ends more than one word before it begins is invalid.  Neither end
      may come to 36, which means the last word. */
  lemma ArgRangeMeans(first: int, last: int, len: nat, a: nat, b: nat)
    requires a < len && b < len && a != 36 && b != 36
    requires first == a || (first < 0 && first == a + 1 - len)
    requires last == b || (last < 0 && last == b + 1 - len)
    ensures var range := ArgRange(first, last, len);
            if a <= b + 1 then range.Some? && range.value.0 == a && range.value.1 == b + 1 else range == None
  {
  }

  /** A number that is no word's selects nothing. */
  lemma ArgRangeOutside(first: int, last: int, len: nat)
    requires (first >= len && first != 36) || (last >= len && last != 36) || first < 1 - len || last < 0 - len
    requires first < 0 ==> len + first - 1 != 36
    requires last < 0 ==> len + last - 1 != 36
    ensures ArgRange(first, last, len) == None
  {
  }

  /** A single word is selected by its number unless that number is 36: then it is the last word
      that is selected, which is the one meant only on a line of 37 words. */
  lemma WordByNumber(w: nat, len: nat)
    requires w < len
    ensures var range := ArgRange(w, w, len);
            range.Some? && (range.value.0 == w && range.value.1 == w + 1 <==> w != 36 || len == 36 + 1)
  {
  }

  /** `history_arg_extract`: the selected words with single spaces between them. */
  method HistoryArgExtract(first: int, last: int, s: string) returns (r: Option<string>)
    requires Readable(s)
    ensures var words := Tokens(s);
            match ArgRange(first, last, |words|)
            case None => r == None
            case Some(range) => r == Some(Joined(words[range.0..range.1]))
  {
    var spans := HistoryTokenize(s);
    ghost var words := Tokens(s);
    var len := |spans|;
    if len == 0 {
      return None;
    }
    var range := ArgRange(first, last, len);
    if range.None? {
      return None;
    }
    var joined := JoinWords(s, spans, range.value.0, range.value.1, words);
    return Some(joined);
  }

  /** The copying loop of `history_arg_extract`. */
  method JoinWords(s: string, spans: seq<Span>, from: nat, end: nat, ghost words: seq<string>) returns (result: string)
    requires Ordered(spans, |s|) && CutOut(s, spans, words) && from <= end <= |spans|
    ensures result == Joined(words[from..end])
  {
    result := "";
    var i := from;
    while i < end
      invariant from <= i <= end
      invariant result == Joined(words[from..i]) + (if from < i < end then " " else "")
    {
      JoinedOneMore(words[from..i], words[i]);
      assert words[from..i] + [words[i]] == words[from..i + 1];
      result := result + s[spans[i].start..spans[i].end];
      if i + 1 < end {
        result := result + " ";
      }
      i := i + 1;
    }
    assert Joined(words[from..end]) + "" == Joined(words[from..end]);
  }

  lemma {:induction false} JoinedOneMore(words: seq<string>, w: string)
    ensures Joined(words + [w]) == Joined(words) + (if words == [] then "" else " ") + w
  {
    if words == [] {
      assert words + [w] == [w] && "" + "" + w == w;
    } else {
      assert (words + [w])[1..] == words[1..] + [w];
      JoinedOneMore(words[1..], w);
      if |words| > 1 {
        assert words[0] + " " + (Joined(words[1..]) + " " + w) == words[0] + " " + Joined(words[1..]) + " " + w;
      }
    }
  }

  /** Extracting all the words of a line and splitting the result gives the same words. */
  lemma ExtractAllIsNormal(s: string, words: seq<string>)
    requires Readable(s) && words == Tokens(s) && words != []
    ensures var range := ArgRange(0, 36, |words|);
            range.Some? && range.value.0 == 0 && range.value.1 == |words|
    ensures Readable(Joined(words[0..|words|])) && Tokens(Joined(words[0..|words|])) == words
  {
    NormalForm(s);
    assert words[0..|words|] == words;
  }
}
