/** How `histexpand.c` splits a line into words, as functions of the text still to be read. */
module TokenSpec {
  import opened Characters

  predicate IsQuote(c: char) { c == '"' || c == '\'' || c == '`' }
  /** `history_word_delimiters` */
  predicate IsDelimiter(c: char) { IsBlank(c) || c == '(' || c == ')' || IsOperator(c) }
  predicate IsOperator(c: char) { c == '<' || c == '>' || c == ';' || c == '&' || c == '|' }
  /** Characters that start a parenthesised construct when `(` follows. */
  predicate OpensGroup(c: char)
  {
    c == '<' || c == '>' || c == '$' || c == '!' || c == '@' || c == '?' || c == '+' || c == '*'
  }

  /** No delimiter is pending. */
  const NONE: char := '\0'

  /** A line the scanner reads to its end and no further. */
  predicate EndsSafely(s: string)
  {
    s == "" || (s[|s| - 1] != '\\' && s[|s| - 1] != '(')
  }

  predicate Begins(s: string, k: nat, c: char)
  {
    k < |s| && s[k] == c
  }

  /** One turn of the word loop: stop before this character, or move on with a new pending
      delimiter and nesting level. */
  datatype Step = Stop | Go(count: nat, delim: char, nest: nat)

  /** The turn taken at character `c` when `next` follows it. */
  function StepAt(c: char, next: char, delim: char, nest: nat): (step: Step)
    ensures step.Go? ==> 1 <= step.count <= 3
  {
    if c == '\\' && (next == '\n' || delim != '\'') then Go(2, delim, nest)
    else if nest > 0 && c == '(' then Go(1, delim, nest + 1)
    else if nest > 0 && c == delim then Go(1, if nest == 1 then NONE else delim, nest - 1)
    else if delim != NONE && c == delim then Go(1, NONE, nest)
    else if nest == 0 && delim == NONE && OpensGroup(c) && next == '(' then Go(3, ')', 1)
    else if delim == NONE && IsDelimiter(c) then Stop
    else if delim == NONE && IsQuote(c) then Go(1, c, nest)
    else Go(1, delim, nest)
  }

  /** The character at `k`, the terminating NUL at the end. */
  function At(s: string, k: nat): (c: char)
  {
    if k < |s| then s[k] else '\0'
  }

  /** How far the word loop gets, with a pending closing delimiter and nesting level. */
  function ScanLen(s: string, delim: char, nest: nat): (n: nat)
    decreases |s|
  {
    if s == "" then 0
    else
      match StepAt(s[0], At(s, 1), delim, nest)
      case Stop => 0
      case Go(k, delim', nest') => if k > |s| then k else k + ScanLen(s[k..], delim', nest')
  }

  /** A word, which may begin with an opening quote. */
  function WordLen(s: string): (n: nat)
  {
    if s != "" && IsQuote(s[0]) then 1 + ScanLen(s[1..], s[0], 0) else ScanLen(s, NONE, 0)
  }

  function Digits(s: string): (n: nat)
    ensures n <= |s|
  {
    if s == "" || !IsDigit(s[0]) then 0 else 1 + Digits(s[1..])
  }

  /** A shell operator, possibly a redirection with a file descriptor or process substitution. */
  function OperatorLen(s: string): (n: nat)
    requires s != "" && IsOperator(s[0])
  {
    if Begins(s, 1, s[0]) then
      if s[0] == '<' && (Begins(s, 2, '-') || Begins(s, 2, '<')) then 3 else 2
    else if Begins(s, 1, '&') && (s[0] == '<' || s[0] == '>') then
      var d := 2 + Digits(s[2..]);
      if Begins(s, d, '-') then d + 1 else d
    else if (Begins(s, 1, '>') && s[0] == '&') || (Begins(s, 1, '|') && s[0] == '>') then 2
    else if Begins(s, 1, '(') && (s[0] == '<' || s[0] == '>') then 2 + ScanLen(s[2..], ')', 1)
    else 1
  }

  /** `history_tokenize_word` */
  function TokenLen(s: string): (n: nat)
    requires s != ""
  {
    if (s[0] == '(' || s[0] == ')' || s[0] == '\n') then 1
    else
      var d := Digits(s);
      if d > 0 && d == |s| then d
      else if IsOperator(s[d]) && (d == 0 || s[d] == '<' || s[d] == '>') then d + OperatorLen(s[d..])
      else d + WordLen(s[d..])
  }

  function SkipBlanks(s: string): (t: string)
    ensures |t| <= |s|
  {
    if s != "" && IsBlank(s[0]) then SkipBlanks(s[1..]) else s
  }

  lemma {:induction false} SkipBlanksFacts(s: string)
    ensures var t := SkipBlanks(s); t == s[|s| - |t|..] && (t != "" ==> !IsBlank(t[0]))
  {
    if s != "" && IsBlank(s[0]) {
      SkipBlanksFacts(s[1..]);
    }
  }

  // ----- What ends a token is not part of it: replacing it by a space or by nothing is harmless -----

  /** What may follow a token after the line is rewritten. */
  predicate Separator(r: string)
  {
    r == "" || r[0] == ' '
  }

  lemma Cut(s: string, n: nat, k: nat, r: string)
    requires k <= n <= |s|
    ensures (s[..n] + r)[k..] == s[k..][..n - k] + r
    ensures forall j :: 0 <= j < n ==> (s[..n] + r)[j] == s[j]
    ensures |s[..n] + r| == n + |r|
  {
  }

  /** A turn that stays inside the token does not depend on what follows the token. */
  lemma StepStable(s: string, n: nat, delim: char, nest: nat, r: string)
    requires 0 < n <= |s| && Separator(r)
    requires var step := StepAt(s[0], At(s, 1), delim, nest);
             step.Go? && step.count <= n
    ensures var t := s[..n] + r;
            t != "" && StepAt(t[0], At(t, 1), delim, nest) == StepAt(s[0], At(s, 1), delim, nest)
  {
    Cut(s, n, 0, r);
  }

  lemma {:induction false} ScanLenStable(s: string, delim: char, nest: nat, r: string)
    requires ScanLen(s, delim, nest) <= |s| && Separator(r)
    requires ScanLen(s, delim, nest) < |s| || r == ""
    ensures ScanLen(s[..ScanLen(s, delim, nest)] + r, delim, nest) == ScanLen(s, delim, nest)
    decreases |s|
  {
    var n := ScanLen(s, delim, nest);
    if n == 0 {
      StopStable(s, delim, nest, r);
    } else {
      var Go(k, delim', nest') := StepAt(s[0], At(s, 1), delim, nest);
      ScanLenStable(s[k..], delim', nest', r);
      StepStable(s, n, delim, nest, r);
      Cut(s, n, k, r);
    }
  }

  lemma SpaceStops(next: char, delim: char, nest: nat)
    requires delim == NONE
    ensures StepAt(' ', next, delim, nest) == Stop
  {
  }

  lemma StopStable(s: string, delim: char, nest: nat, r: string)
    requires Separator(r) && ScanLen(s, delim, nest) == 0 && (s != "" || r == "")
    ensures ScanLen(s[..0] + r, delim, nest) == 0
  {
    assert s[..0] + r == r;
    if r != "" {
      assert StepAt(s[0], At(s, 1), delim, nest) == Stop;
      SpaceStops(At(r, 1), delim, nest);
    }
  }

  lemma WordLenStable(s: string, r: string)
    requires WordLen(s) <= |s| && Separator(r) && (WordLen(s) < |s| || r == "")
    ensures WordLen(s[..WordLen(s)] + r) == WordLen(s)
  {
    if s != "" && IsQuote(s[0]) {
      ScanLenStable(s[1..], s[0], 0, r);
      Cut(s, WordLen(s), 1, r);
    } else {
      ScanLenStable(s, NONE, 0, r);
      if ScanLen(s, NONE, 0) == 0 {
        assert s[..0] + r == r;
      } else {
        Cut(s, ScanLen(s, NONE, 0), 0, r);
      }
    }
  }

  lemma {:induction false} DigitsStable(s: string, n: nat, r: string)
    requires Digits(s) <= n <= |s| && Separator(r)
    ensures Digits(s[..n] + r) == Digits(s)
  {
    if n == 0 {
      assert s[..n] + r == r;
    } else {
      Cut(s, n, 1, r);
      if IsDigit(s[0]) {
        DigitsStable(s[1..], n - 1, r);
      }
    }
  }

  /** A redirection `<&` or `>&` with an optional descriptor and dash. */
  predicate DuplicatesFd(s: string)
  {
    !Begins(s, 1, At(s, 0)) && Begins(s, 1, '&') && (At(s, 0) == '<' || At(s, 0) == '>')
  }

  predicate ProcessSubstitution(s: string)
  {
    Begins(s, 1, '(') && (At(s, 0) == '<' || At(s, 0) == '>')
  }

  lemma OperatorLenStable(s: string, r: string)
    requires s != "" && IsOperator(s[0]) && OperatorLen(s) <= |s| && Separator(r) && (OperatorLen(s) < |s| || r == "")
    ensures s[..OperatorLen(s)] + r != "" && IsOperator((s[..OperatorLen(s)] + r)[0])
    ensures OperatorLen(s[..OperatorLen(s)] + r) == OperatorLen(s)
  {
    if DuplicatesFd(s) {
      DuplicateStable(s, r);
    } else if ProcessSubstitution(s) {
      SubstitutionStable(s, r);
    } else {
      PlainOperatorStable(s, r);
    }
  }

  lemma PlainOperatorStable(s: string, r: string)
    requires s != "" && IsOperator(s[0]) && OperatorLen(s) <= |s| && Separator(r)
    requires !DuplicatesFd(s) && !ProcessSubstitution(s)
    ensures s[..OperatorLen(s)] + r != "" && IsOperator((s[..OperatorLen(s)] + r)[0])
    ensures OperatorLen(s[..OperatorLen(s)] + r) == OperatorLen(s)
  {
    Cut(s, OperatorLen(s), 0, r);
  }

  lemma DuplicateStable(s: string, r: string)
    requires s != "" && IsOperator(s[0]) && OperatorLen(s) <= |s| && Separator(r) && DuplicatesFd(s)
    ensures s[..OperatorLen(s)] + r != "" && IsOperator((s[..OperatorLen(s)] + r)[0])
    ensures OperatorLen(s[..OperatorLen(s)] + r) == OperatorLen(s)
  {
    Cut(s, OperatorLen(s), 2, r);
    DigitsStable(s[2..], OperatorLen(s) - 2, r);
  }

  lemma SubstitutionStable(s: string, r: string)
    requires s != "" && IsOperator(s[0]) && OperatorLen(s) <= |s| && Separator(r) && (OperatorLen(s) < |s| || r == "")
    requires ProcessSubstitution(s)
    ensures s[..OperatorLen(s)] + r != "" && IsOperator((s[..OperatorLen(s)] + r)[0])
    ensures OperatorLen(s[..OperatorLen(s)] + r) == OperatorLen(s)
  {
    Cut(s, OperatorLen(s), 2, r);
    ScanLenStable(s[2..], ')', 1, r);
  }

  /** The same token is read again from its own text, whatever separator follows. */
  lemma TokenLenStable(s: string, r: string)
    requires s != "" && !IsBlank(s[0]) && 1 <= TokenLen(s) <= |s| && Separator(r) && (TokenLen(s) < |s| || r == "")
    ensures s[..TokenLen(s)] + r != "" && TokenLen(s[..TokenLen(s)] + r) == TokenLen(s)
  {
    var d := Digits(s);
    if s[0] == '(' || s[0] == ')' {
      Cut(s, TokenLen(s), 0, r);
    } else if d == |s| {
      assert s[..TokenLen(s)] + r == s;
    } else if IsOperator(s[d]) && (d == 0 || s[d] == '<' || s[d] == '>') {
      RedirectionStable(s, d, r);
    } else {
      PlainWordStable(s, d, r);
    }
  }

  lemma RedirectionStable(s: string, d: nat, r: string)
    requires s != "" && s[0] != '(' && s[0] != ')' && s[0] != '\n' && Separator(r)
    requires d == Digits(s) < |s| && IsOperator(s[d]) && (d == 0 || s[d] == '<' || s[d] == '>')
    requires 1 <= TokenLen(s) <= |s| && (TokenLen(s) < |s| || r == "")
    ensures s[..TokenLen(s)] + r != "" && TokenLen(s[..TokenLen(s)] + r) == TokenLen(s)
  {
    OperatorLenStable(s[d..], r);
    Cut(s, TokenLen(s), d, r);
    DigitsStable(s, TokenLen(s), r);
  }

  lemma PlainWordStable(s: string, d: nat, r: string)
    requires s != "" && !IsBlank(s[0]) && s[0] != '(' && s[0] != ')' && Separator(r)
    requires d == Digits(s) < |s| && !(IsOperator(s[d]) && (d == 0 || s[d] == '<' || s[d] == '>'))
    requires 1 <= TokenLen(s) <= |s| && (TokenLen(s) < |s| || r == "")
    ensures s[..TokenLen(s)] + r != "" && TokenLen(s[..TokenLen(s)] + r) == TokenLen(s)
  {
    if TokenLen(s) == d {
      NumberStable(s, d, r);
    } else {
      LongWordStable(s, d, r);
    }
  }

  lemma NumberStable(s: string, d: nat, r: string)
    requires s != "" && s[0] != '(' && s[0] != ')' && s[0] != '\n' && Separator(r)
    requires d == Digits(s) == TokenLen(s) < |s| && d >= 1
    ensures s[..d] + r != "" && TokenLen(s[..d] + r) == d
  {
    Cut(s, d, d, r);
    DigitsStable(s, d, r);
    if r != "" {
      SpaceStops(At(r, 1), NONE, 0);
      assert ScanLen(r, NONE, 0) == 0;
      assert (s[..d] + r)[d..] == r;
    }
  }

  /** A word after leading digits. */
  lemma WordAfterDigits(t: string, d: nat, w: string)
    requires t != "" && t[0] != '(' && t[0] != ')' && t[0] != '\n' && d == Digits(t) < |t| && w == t[d..]
    requires !(IsOperator(t[d]) && (d == 0 || t[d] == '<' || t[d] == '>'))
    ensures TokenLen(t) == d + WordLen(w)
  {
  }

  lemma LongWordParts(s: string, d: nat, n: nat, r: string, t: string)
    requires d == Digits(s) < |s| && n == d + WordLen(s[d..]) && d < n <= |s| && Separator(r) && (n < |s| || r == "")
    requires t == s[..n] + r
    ensures |t| >= n && t[0] == s[0] && t[d] == s[d] && Digits(t) == d && WordLen(t[d..]) == n - d
  {
    WordLenStable(s[d..], r);
    Cut(s, n, d, r);
    DigitsStable(s, n, r);
  }

  lemma LongWordStable(s: string, d: nat, r: string)
    requires s != "" && s[0] != '(' && s[0] != ')' && s[0] != '\n' && Separator(r)
    requires d == Digits(s) < |s| && !(IsOperator(s[d]) && (d == 0 || s[d] == '<' || s[d] == '>'))
    requires d < TokenLen(s) <= |s| && (TokenLen(s) < |s| || r == "")
    ensures s[..TokenLen(s)] + r != "" && TokenLen(s[..TokenLen(s)] + r) == TokenLen(s)
  {
    var n, t := TokenLen(s), s[..TokenLen(s)] + r;
    LongWordParts(s, d, n, r, t);
    WordAfterDigits(t, d, t[d..]);
  }

  // ----- Whole lines -----

  /** Splitting the line never reads past its end. */
  predicate Readable(s: string)
    decreases |s|
  {
    var t := SkipBlanks(s);
    t == "" || (1 <= TokenLen(t) <= |t| && Readable(t[TokenLen(t)..]))
  }

  /** The words of a line. */
  function Tokens(s: string): (words: seq<string>)
    requires Readable(s)
    decreases |s|
  {
    var t := SkipBlanks(s);
    if t == "" then [] else [t[..TokenLen(t)]] + Tokens(t[TokenLen(t)..])
  }

  /** Words joined with single spaces. */
  function Joined(words: seq<string>): (s: string)
  {
    if words == [] then "" else if |words| == 1 then words[0] else words[0] + " " + Joined(words[1..])
  }

  /** Reading the joined words gives the words back: a line of tokens separated by single
      spaces is a normal form. */
  lemma {:induction false} NormalForm(s: string)
    requires Readable(s)
    ensures Readable(Joined(Tokens(s))) && Tokens(Joined(Tokens(s))) == Tokens(s)
    decreases |s|
  {
    var t := SkipBlanks(s);
    SkipBlanksFacts(s);
    if t != "" {
      var rest := t[TokenLen(t)..];
      NormalForm(rest);
      TokenThenRest(t, Tokens(rest));
    }
  }

  /** A token put in front of a line in normal form, with a space between if need be. */
  lemma TokenThenRest(t: string, words: seq<string>)
    requires t != "" && !IsBlank(t[0]) && 1 <= TokenLen(t) <= |t| && (words != [] ==> TokenLen(t) < |t|)
    requires Readable(Joined(words)) && Tokens(Joined(words)) == words
    ensures var all := [t[..TokenLen(t)]] + words;
            Readable(Joined(all)) && Tokens(Joined(all)) == all
  {
    var n := TokenLen(t);
    var w := t[..n];
    var r := if words == [] then "" else " " + Joined(words);
    TokenLenStable(t, r);
    SpaceInFront(Joined(words));
    JoinedWith(w, words);
    ReadsFirst(w, r);
  }

  lemma JoinedWith(w: string, words: seq<string>)
    ensures Joined([w] + words) == w + (if words == [] then "" else " " + Joined(words))
  {
    assert ([w] + words)[1..] == words;
    if words != [] {
      assert w + " " + Joined(words) == w + (" " + Joined(words));
    } else {
      assert w + "" == w;
    }
  }

  lemma ReadsFirst(w: string, r: string)
    requires w != "" && !IsBlank(w[0]) && TokenLen(w + r) == |w| && Readable(r)
    ensures Readable(w + r) && Tokens(w + r) == [w] + Tokens(r)
  {
    assert (w + r)[..|w|] == w && (w + r)[|w|..] == r;
  }

  lemma SpaceInFront(line: string)
    requires Readable(line)
    ensures Readable(" " + line) && Tokens(" " + line) == Tokens(line)
  {
    assert (" " + line)[1..] == line;
  }

  // ----- Which lines are readable -----

  lemma SafeTail(s: string, k: nat)
    requires EndsSafely(s) && k <= |s|
    ensures EndsSafely(s[k..])
  {
  }

  lemma SafeStep(s: string, delim: char, nest: nat)
    requires EndsSafely(s) && s != ""
    ensures var step := StepAt(s[0], At(s, 1), delim, nest);
            step.Go? ==> step.count <= |s| && EndsSafely(s[step.count..])
  {
    var step := StepAt(s[0], At(s, 1), delim, nest);
    if step.Go? {
      SafeTail(s, step.count);
    }
  }

  lemma {:induction false} ScanLenBound(s: string, delim: char, nest: nat)
    requires EndsSafely(s)
    ensures ScanLen(s, delim, nest) <= |s|
    decreases |s|
  {
    if s != "" {
      SafeStep(s, delim, nest);
      match StepAt(s[0], At(s, 1), delim, nest) {
        case Stop =>
        case Go(k, delim', nest') => ScanLenBound(s[k..], delim', nest');
      }
    }
  }

  lemma WordLenBound(s: string)
    requires EndsSafely(s)
    ensures WordLen(s) <= |s|
  {
    if s != "" && IsQuote(s[0]) {
      SafeTail(s, 1);
      ScanLenBound(s[1..], s[0], 0);
    } else {
      ScanLenBound(s, NONE, 0);
    }
  }

  lemma OperatorLenBound(s: string)
    requires EndsSafely(s) && s != "" && IsOperator(s[0])
    ensures 1 <= OperatorLen(s) <= |s|
  {
    if Begins(s, 1, '(') {
      SafeTail(s, 2);
      ScanLenBound(s[2..], ')', 1);
    }
  }

  lemma WordNotEmpty(s: string)
    requires s != "" && !IsDelimiter(s[0])
    ensures WordLen(s) >= 1
  {
    if !IsQuote(s[0]) {
      assert StepAt(s[0], At(s, 1), NONE, 0).Go?;
    }
  }

  /** A token is not empty and lies within the line. */
  lemma TokenLenBound(s: string)
    requires EndsSafely(s) && s != "" && !IsBlank(s[0])
    ensures 1 <= TokenLen(s) <= |s|
  {
    var d := Digits(s);
    SafeTail(s, d);
    if d < |s| {
      if IsOperator(s[d]) {
        OperatorLenBound(s[d..]);
      }
      WordLenBound(s[d..]);
      if d == 0 && !IsOperator(s[0]) && s[0] != '(' && s[0] != ')' {
        WordNotEmpty(s);
      }
    }
  }

  /** Every line that ends in neither a backslash nor an opening parenthesis is readable. */
  lemma {:induction false} SafeLinesAreReadable(s: string)
    requires EndsSafely(s)
    ensures Readable(s)
    decreases |s|
  {
    var t := SkipBlanks(s);
    SkipBlanksFacts(s);
    if t != "" {
      SafeTail(s, |s| - |t|);
      TokenLenBound(t);
      SafeTail(t, TokenLen(t));
      SafeLinesAreReadable(t[TokenLen(t)..]);
    }
  }
}
