/** Lines as a shell user writes them, word by word, and how `histexpand.c` splits them. */
module TokenGrammar {
  import opened Characters
  import opened TokenSpec

  predicate Space(c: char) { c == ' ' || c == '\t' || c == '\n' }

  predicate Special(c: char) { c == ';' || c == '&' || c == '(' || c == ')' || c == '|' || c == '<' || c == '>' }

  predicate Decimal(c: char) { '0' <= c <= '9' }

  predicate QuoteMark(c: char) { c == '"' || c == '\'' || c == '`' }

  /** A character that stands for itself in a word. */
  predicate Ordinary(c: char) { !Space(c) && !Special(c) && !QuoteMark(c) && c != '\\' }

  /** What starts a command substitution, a history or shell pattern when `(` follows. */
  predicate Opener(c: char) { c == '$' || c == '!' || c == '@' || c == '?' || c == '+' || c == '*' }

  // ----- Words -----

  /** Text inside parentheses: other characters, a backslash with the character it protects, and
      parentheses in pairs. */
  datatype Nested =
    | Empty
    | Other(c: char, rest: Nested)
    | Pair(c: char, rest: Nested)
    | Parens(inner: Nested, rest: Nested)

  /** A piece of a word: a character, one protected by a backslash, quoted text, or a parenthesised
      group after its opening character. */
  datatype Piece =
    | Plain(c: char)
    | Escaped(c: char)
    | Quoted(mark: char, text: string)
    | Group(opener: char, first: char, inside: Nested)

  datatype Word = Nil | Cons(piece: Piece, rest: Word)

  function NestedText(n: Nested): (t: string)
  {
    match n
    case Empty => ""
    case Other(c, rest) => [c] + NestedText(rest)
    case Pair(c, rest) => ['\\', c] + NestedText(rest)
    case Parens(inner, rest) => "(" + (NestedText(inner) + (")" + NestedText(rest)))
  }

  function PieceText(p: Piece): (t: string)
    ensures t != ""
  {
    match p
    case Plain(c) => [c]
    case Escaped(c) => ['\\', c]
    case Quoted(mark, text) => [mark] + (text + [mark])
    case Group(opener, first, inside) => [opener, '(', first] + (NestedText(inside) + ")")
  }

  function WordText(w: Word): (t: string)
  {
    match w
    case Nil => ""
    case Cons(p, rest) => PieceText(p) + WordText(rest)
  }

  predicate IsNested(n: Nested)
  {
    match n
    case Empty => true
    case Other(c, rest) => c != '(' && c != ')' && c != '\\' && IsNested(rest)
    case Pair(c, rest) => IsNested(rest)
    case Parens(inner, rest) => IsNested(inner) && IsNested(rest)
  }

  /** Text that does not end the quote: within `'` anything but that, otherwise a backslash protects
      the character after it. */
  predicate StaysQuoted(mark: char, text: string)
    decreases |text|
  {
    text == "" ||
    if mark != '\'' && text[0] == '\\' then |text| >= 2 && StaysQuoted(mark, text[2..])
    else text[0] != mark && StaysQuoted(mark, text[1..])
  }

  predicate IsPiece(p: Piece)
  {
    match p
    case Plain(c) => Ordinary(c)
    case Escaped(c) => true
    case Quoted(mark, text) => QuoteMark(mark) && StaysQuoted(mark, text)
    case Group(opener, first, inside) =>
      Opener(opener) && first != '(' && first != ')' && first != '\\' && IsNested(inside)
  }

  predicate IsWord(w: Word)
  {
    w.Cons? ==> IsPiece(w.piece) && IsWord(w.rest)
  }

  /** The last character of the word is a plain one that could open a group. */
  predicate EndsInOpener(w: Word)
  {
    w.Cons? && if w.rest.Nil? then w.piece.Plain? && Opener(w.piece.c) else EndsInOpener(w.rest)
  }

  predicate IsNumber(w: Word)
  {
    w.Cons? ==> w.piece.Plain? && Decimal(w.piece.c) && IsNumber(w.rest)
  }

  /** What ends a scan: nothing, a blank or an operator, but no process substitution. */
  predicate EndsScan(after: string)
  {
    after != "" ==>
      && (Space(after[0]) || Special(after[0]))
      && (after[0] == '<' || after[0] == '>' ==> At(after, 1) != '(')
  }

  /** What may come directly after a word: as above, but no parenthesis that would start a group and no
      redirection that would take the word for a descriptor. */
  predicate EndsWord(w: Word, after: string)
  {
    && EndsScan(after)
    && (EndsInOpener(w) ==> At(after, 0) != '(')
    && (IsNumber(w) ==> At(after, 0) != '<' && At(after, 0) != '>')
  }

  // ----- The scanner on each kind of piece -----

  lemma Assoc(a: string, b: string, c: string)
    ensures (a + b) + c == a + (b + c)
  {
  }

  /** One turn of the scanner. */
  lemma Turn(s: string, t: string, delim: char, nest: nat, delim': char, nest': nat)
    requires s != "" && StepAt(s[0], At(s + t, 1), delim, nest) == Go(|s|, delim', nest')
    ensures ScanLen(s + t, delim, nest) == |s| + ScanLen(t, delim', nest')
  {
    assert (s + t)[|s|..] == t && (s + t)[0] == s[0];
  }

  lemma {:induction false} ScanNested(n: Nested, depth: nat, t: string)
    requires IsNested(n) && depth >= 1
    ensures ScanLen(NestedText(n) + t, ')', depth) == |NestedText(n)| + ScanLen(t, ')', depth)
    decreases n
  {
    match n {
      case Empty =>
        assert "" + t == t;
      case Other(c, rest) =>
        ScanNested(rest, depth, t);
        Assoc([c], NestedText(rest), t);
        Turn([c], NestedText(rest) + t, ')', depth, ')', depth);
      case Pair(c, rest) =>
        ScanNested(rest, depth, t);
        Assoc(['\\', c], NestedText(rest), t);
        Turn(['\\', c], NestedText(rest) + t, ')', depth, ')', depth);
      case Parens(inner, rest) =>
        ScanParens(inner, rest, depth, t);
    }
  }

  lemma ScanParens(inner: Nested, rest: Nested, depth: nat, t: string)
    requires IsNested(inner) && IsNested(rest) && depth >= 1
    ensures var n := Parens(inner, rest);
            ScanLen(NestedText(n) + t, ')', depth) == |NestedText(n)| + ScanLen(t, ')', depth)
    decreases Parens(inner, rest), 0
  {
    var i, r := NestedText(inner), NestedText(rest);
    ScanNested(rest, depth, t);
    ScanNested(inner, depth + 1, ")" + (r + t));
    OpenAndClose(i, r + t, depth);
    ParensText(i, r, t);
  }

  lemma ParensText(i: string, r: string, t: string)
    ensures ("(" + (i + (")" + r))) + t == "(" + (i + (")" + (r + t)))
  {
    Assoc(")", r, t);
    Assoc(i, ")" + r, t);
    Assoc("(", i + (")" + r), t);
  }

  lemma OpenAndClose(i: string, t: string, depth: nat)
    requires depth >= 1 && ScanLen(i + (")" + t), ')', depth + 1) == |i| + ScanLen(")" + t, ')', depth + 1)
    ensures ScanLen("(" + (i + (")" + t)), ')', depth) == |i| + 2 + ScanLen(t, ')', depth)
  {
    Turn(")", t, ')', depth + 1, ')', depth);
    Turn("(", i + (")" + t), ')', depth, ')', depth + 1);
  }

  lemma {:induction false} ScanQuoted(mark: char, text: string, t: string)
    requires QuoteMark(mark) && StaysQuoted(mark, text)
    ensures ScanLen(text + ([mark] + t), mark, 0) == |text| + 1 + ScanLen(t, NONE, 0)
    decreases |text|
  {
    if text == "" {
      assert text + ([mark] + t) == [mark] + t;
      Turn([mark], t, mark, 0, NONE, 0);
    } else {
      var next := At(text + ([mark] + t), 1);
      var k := if text[0] == '\\' && (mark != '\'' || next == '\n') then 2 else 1;
      assert k == 2 ==> |text| >= 2;
      StaysQuotedTail(mark, text, k);
      ScanQuoted(mark, text[k..], t);
      assert text == text[..k] + text[k..];
      Assoc(text[..k], text[k..], [mark] + t);
      Turn(text[..k], text[k..] + ([mark] + t), mark, 0, mark, 0);
    }
  }

  lemma StaysQuotedTail(mark: char, text: string, k: nat)
    requires StaysQuoted(mark, text) && 1 <= k <= 2 && k <= |text|
    requires k == if text[0] == '\\' && (mark != '\'' || At(text, 1) == '\n') then 2 else 1
    ensures StaysQuoted(mark, text[k..])
  {
    if k == 2 && mark == '\'' {
      assert text[1..][1..] == text[2..];
    }
  }

  lemma ScanGroup(opener: char, first: char, inside: Nested, t: string)
    requires IsPiece(Group(opener, first, inside))
    ensures var p := PieceText(Group(opener, first, inside));
            ScanLen(p + t, NONE, 0) == |p| + ScanLen(t, NONE, 0)
  {
    Turn(")", t, ')', 1, NONE, 0);
    ScanNested(inside, 1, ")" + t);
    Turn([opener, '(', first], NestedText(inside) + (")" + t), NONE, 0, ')', 1);
    Assoc(NestedText(inside), ")", t);
    Assoc([opener, '(', first], NestedText(inside) + ")", t);
  }

  /** The scanner takes a piece whole and goes on after it as before. */
  lemma ScanPiece(p: Piece, t: string)
    requires IsPiece(p) && (p.Plain? && Opener(p.c) ==> At(t, 0) != '(')
    ensures ScanLen(PieceText(p) + t, NONE, 0) == |PieceText(p)| + ScanLen(t, NONE, 0)
  {
    match p {
      case Plain(c) =>
        Turn([c], t, NONE, 0, NONE, 0);
      case Escaped(c) =>
        Turn(['\\', c], t, NONE, 0, NONE, 0);
      case Quoted(mark, text) =>
        ScanQuoted(mark, text, t);
        Turn([mark], text + ([mark] + t), NONE, 0, mark, 0);
        Assoc(text, [mark], t);
        Assoc([mark], text + [mark], t);
      case Group(opener, first, inside) =>
        ScanGroup(opener, first, inside, t);
    }
  }

  lemma PieceStart(p: Piece)
    requires IsPiece(p)
    ensures var c := PieceText(p)[0]; !Space(c) && !Special(c) && (Decimal(c) ==> p == Plain(c))
  {
  }

  lemma {:induction false} ScanWord(w: Word, after: string)
    requires IsWord(w) && EndsScan(after)
    requires EndsInOpener(w) ==> At(after, 0) != '('
    ensures ScanLen(WordText(w) + after, NONE, 0) == |WordText(w)|
  {
    match w {
      case Nil =>
        assert WordText(w) + after == after;
      case Cons(p, rest) =>
        ScanWord(rest, after);
        var t := WordText(rest) + after;
        Assoc(PieceText(p), WordText(rest), after);
        if rest.Cons? {
          PieceStart(rest.piece);
          assert t[0] == PieceText(rest.piece)[0];
        } else {
          assert t == after;
        }
        ScanPiece(p, t);
    }
  }

  // ----- A word is one token -----

  /** Leading digits make no difference, but for a redirection. */
  lemma {:induction false} ScanDigits(s: string)
    ensures ScanLen(s, NONE, 0) == Digits(s) + ScanLen(s[Digits(s)..], NONE, 0)
  {
    if s != "" && Decimal(s[0]) {
      ScanDigits(s[1..]);
      TailOfTail(s, Digits(s[1..]));
      ScanDigit(s);
    } else {
      assert s[0..] == s;
    }
  }

  lemma ScanDigit(s: string)
    requires s != "" && Decimal(s[0])
    ensures ScanLen(s, NONE, 0) == 1 + ScanLen(s[1..], NONE, 0)
  {
    assert [s[0]] + s[1..] == s;
    Turn([s[0]], s[1..], NONE, 0, NONE, 0);
  }

  lemma TailOfTail(s: string, k: nat)
    requires k < |s|
    ensures s[1..][k..] == s[k + 1..]
  {
  }

  lemma TokenIsScan(s: string)
    requires s != "" && !Space(s[0]) && !Special(s[0])
    requires var d := Digits(s); 0 < d < |s| ==> s[d] != '<' && s[d] != '>'
    ensures TokenLen(s) == ScanLen(s, NONE, 0)
  {
    var d := Digits(s);
    ScanDigits(s);
    if d < |s| {
      WordIsScan(s[d..]);
    } else {
      assert s[d..] == "";
    }
  }

  lemma WordIsScan(t: string)
    requires t != ""
    ensures WordLen(t) == ScanLen(t, NONE, 0)
  {
    if QuoteMark(t[0]) {
      assert [t[0]] + t[1..] == t;
      Turn([t[0]], t[1..], NONE, 0, t[0], 0);
    }
  }

  lemma NoDigitsFirst(after: string)
    requires EndsScan(after)
    ensures Digits(after) == 0
  {
  }

  lemma {:induction false} WordDigits(w: Word, after: string)
    requires IsWord(w) && EndsWord(w, after)
    ensures var s := WordText(w) + after; var d := Digits(s);
            if IsNumber(w) then d == |WordText(w)| else d < |WordText(w)| && !Special(s[d])
  {
    match w {
      case Nil =>
        assert WordText(w) + after == after;
        NoDigitsFirst(after);
      case Cons(p, rest) =>
        PieceStart(p);
        Assoc(PieceText(p), WordText(rest), after);
        var s := PieceText(p) + (WordText(rest) + after);
        if Decimal(s[0]) {
          WordDigits(rest, after);
          assert s[1..] == WordText(rest) + after;
        }
    }
  }

  /** A word is one token, whatever may come after it. */
  lemma WordIsToken(w: Word, after: string)
    requires w.Cons? && IsWord(w) && EndsWord(w, after)
    ensures TokenLen(WordText(w) + after) == |WordText(w)|
  {
    var s := WordText(w) + after;
    PieceStart(w.piece);
    WordDigits(w, after);
    ScanWord(w, after);
    TokenIsScan(s);
  }

  // ----- Operators -----

  predicate AllDigits(t: string)
  {
    forall i :: 0 <= i < |t| ==> Decimal(t[i])
  }

  /** Operators and redirections, without the descriptor that may stand before a redirection. */
  predicate FixedOperator(t: string)
  {
    || t == "(" || t == ")" || t == ";" || t == "&" || t == "|" || t == "<" || t == ">"
    || t == ";;" || t == "&&" || t == "||" || t == "<<" || t == ">>"
    || t == "<<-" || t == "<<<" || t == "&>" || t == ">|"
  }

  /** What may come directly after an operator. */
  predicate EndsOperator(after: string)
  {
    after != "" ==> !Special(after[0]) && after[0] != '-' && !Decimal(after[0])
  }

  lemma {:induction false} DigitsThen(n: string, t: string)
    requires AllDigits(n) && (t != "" ==> !Decimal(t[0]))
    ensures Digits(n + t) == |n|
  {
    if n == "" {
      assert n + t == t;
    } else {
      DigitsThen(n[1..], t);
      assert (n + t)[1..] == n[1..] + t;
    }
  }

  /** A redirection may have a descriptor in front. */
  lemma AfterDescriptor(fd: string, t: string)
    requires AllDigits(fd) && t != "" && IsOperator(t[0]) && (fd != "" ==> t[0] == '<' || t[0] == '>')
    ensures TokenLen(fd + t) == |fd| + OperatorLen(t)
  {
    DigitsThen(fd, t);
    assert (fd + t)[|fd|..] == t;
  }

  lemma FixedOperatorLen(t: string, after: string)
    requires FixedOperator(t) && t != "(" && t != ")" && EndsOperator(after)
    ensures IsOperator((t + after)[0]) && OperatorLen(t + after) == |t|
  {
    assert forall i :: 0 <= i < |after| ==> (t + after)[|t| + i] == after[i];
  }

  /** Every operator is one token. */
  lemma OperatorIsToken(fd: string, t: string, after: string)
    requires AllDigits(fd) && FixedOperator(t) && (fd != "" ==> t[0] == '<' || t[0] == '>') && EndsOperator(after)
    ensures TokenLen(fd + (t + after)) == |fd| + |t|
  {
    if t == "(" || t == ")" {
      assert fd + (t + after) == t + after;
    } else {
      FixedOperatorLen(t, after);
      AfterDescriptor(fd, t + after);
    }
  }

  /** So is a redirection from or to a descriptor, which may be closed. */
  lemma DuplicationIsToken(fd: string, from: char, n: string, dash: string, after: string)
    requires AllDigits(fd) && AllDigits(n) && (from == '<' || from == '>') && (dash == "" || dash == "-")
    requires EndsOperator(after)
    ensures var t := [from, '&'] + (n + dash); TokenLen(fd + (t + after)) == |fd| + |t|
  {
    var t := [from, '&'] + (n + dash);
    Assoc([from, '&'], n + dash, after);
    Assoc(n, dash, after);
    DigitsThen(n, dash + after);
    assert (t + after)[2..] == n + (dash + after);
    AfterDescriptor(fd, t + after);
  }

  lemma ScanInside(inside: Nested, rest: Word, after: string)
    requires IsNested(inside) && IsWord(rest) && EndsScan(after) && (EndsInOpener(rest) ==> At(after, 0) != '(')
    ensures var body := NestedText(inside) + (")" + WordText(rest)); ScanLen(body + after, ')', 1) == |body|
  {
    ScanWord(rest, after);
    Turn(")", WordText(rest) + after, ')', 1, NONE, 0);
    ScanNested(inside, 1, ")" + (WordText(rest) + after));
    Assoc(")", WordText(rest), after);
    Assoc(NestedText(inside), ")" + WordText(rest), after);
  }

  lemma SubstitutionLen(from: char, t: string)
    requires from == '<' || from == '>'
    ensures OperatorLen([from, '('] + t) == 2 + ScanLen(t, ')', 1)
  {
    assert ([from, '('] + t)[2..] == t;
  }

  /** So is a process substitution, with what is joined to it; here nothing is skipped. */
  lemma SubstitutionIsToken(fd: string, from: char, inside: Nested, rest: Word, after: string)
    requires AllDigits(fd) && (from == '<' || from == '>') && IsNested(inside) && IsWord(rest)
    requires EndsScan(after) && (EndsInOpener(rest) ==> At(after, 0) != '(')
    ensures var t := [from, '('] + (NestedText(inside) + (")" + WordText(rest)));
            TokenLen(fd + (t + after)) == |fd| + |t|
  {
    var body := NestedText(inside) + (")" + WordText(rest));
    ScanInside(inside, rest, after);
    Assoc([from, '('], body, after);
    SubstitutionLen(from, body + after);
    AfterDescriptor(fd, [from, '('] + (body + after));
  }

  // ----- Lines -----

  datatype Lexeme =
    | AWord(word: Word)
    | Operator(fd: string, text: string)
    | Duplication(fd: string, from: char, source: string, dash: string)
    | Substitution(fd: string, from: char, inside: Nested, word: Word)

  function LexemeText(x: Lexeme): (t: string)
  {
    match x
    case AWord(w) => WordText(w)
    case Operator(fd, text) => fd + text
    case Duplication(fd, from, source, dash) => fd + ([from, '&'] + (source + dash))
    case Substitution(fd, from, inside, w) => fd + ([from, '('] + (NestedText(inside) + (")" + WordText(w))))
  }

  /** A lexeme, with `after` directly behind it. */
  predicate IsLexeme(x: Lexeme, after: string)
  {
    match x
    case AWord(w) => w.Cons? && IsWord(w) && EndsWord(w, after)
    case Operator(fd, t) =>
      AllDigits(fd) && FixedOperator(t) && (fd != "" ==> t[0] == '<' || t[0] == '>') && EndsOperator(after)
    case Duplication(fd, from, source, dash) =>
      && AllDigits(fd) && AllDigits(source) && (from == '<' || from == '>') && (dash == "" || dash == "-")
      && EndsOperator(after)
    case Substitution(fd, from, inside, w) =>
      && AllDigits(fd) && (from == '<' || from == '>') && IsNested(inside) && IsWord(w)
      && EndsScan(after) && (EndsInOpener(w) ==> At(after, 0) != '(')
  }

  /** Lexemes with blanks before, between and after them. */
  datatype Line = Finish(blanks: string) | Item(blanks: string, lexeme: Lexeme, rest: Line)

  function LineText(l: Line): (s: string)
  {
    match l
    case Finish(blanks) => blanks
    case Item(blanks, x, rest) => blanks + (LexemeText(x) + LineText(rest))
  }

  function Lexemes(l: Line): (words: seq<string>)
  {
    if l.Finish? then [] else [LexemeText(l.lexeme)] + Lexemes(l.rest)
  }

  predicate AllSpace(t: string)
  {
    forall i :: 0 <= i < |t| ==> Space(t[i])
  }

  predicate IsLine(l: Line)
  {
    AllSpace(l.blanks) && (l.Item? ==> IsLexeme(l.lexeme, LineText(l.rest)) && IsLine(l.rest))
  }

  lemma LexemeIsToken(x: Lexeme, after: string)
    requires IsLexeme(x, after)
    ensures LexemeText(x) != "" && !IsBlank(LexemeText(x)[0]) && TokenLen(LexemeText(x) + after) == |LexemeText(x)|
  {
    match x {
      case AWord(w) =>
        PieceStart(w.piece);
        WordIsToken(w, after);
      case Operator(fd, t) =>
        OperatorIsToken(fd, t, after);
        Assoc(fd, t, after);
      case Duplication(fd, from, n, dash) =>
        DuplicationIsToken(fd, from, n, dash, after);
        Assoc(fd, [from, '&'] + (n + dash), after);
      case Substitution(fd, from, inside, w) =>
        SubstitutionIsToken(fd, from, inside, w, after);
        Assoc(fd, [from, '('] + (NestedText(inside) + (")" + WordText(w))), after);
    }
  }

  lemma {:induction false} BlanksInFront(blanks: string, line: string)
    requires AllSpace(blanks) && Readable(line)
    ensures Readable(blanks + line) && Tokens(blanks + line) == Tokens(line)
  {
    if blanks == "" {
      assert blanks + line == line;
    } else {
      BlanksInFront(blanks[1..], line);
      assert (blanks + line)[1..] == blanks[1..] + line;
    }
  }

  /** A line written word by word is split into exactly those words. */
  lemma {:induction false} LineIsSplit(l: Line)
    requires IsLine(l)
    ensures Readable(LineText(l)) && Tokens(LineText(l)) == Lexemes(l)
  {
    match l {
      case Finish(blanks) =>
        BlanksInFront(blanks, "");
        assert blanks + "" == blanks;
      case Item(blanks, x, rest) =>
        LineIsSplit(rest);
        LexemeIsToken(x, LineText(rest));
        ReadsFirst(LexemeText(x), LineText(rest));
        BlanksInFront(blanks, LexemeText(x) + LineText(rest));
    }
  }

  // ----- Plain text and quotes -----

  /** The pieces of a text between its blanks; `word` is the piece being read. */
  function Fields(word: string, s: string): (words: seq<string>)
    decreases |s|
  {
    if s == "" then (if word == "" then [] else [word])
    else if Space(s[0]) then (if word == "" then [] else [word]) + Fields("", s[1..])
    else Fields(word + [s[0]], s[1..])
  }

  /** How far the first blank is. */
  function FirstSpace(s: string): (n: nat)
    ensures n <= |s|
  {
    if s == "" || Space(s[0]) then 0 else 1 + FirstSpace(s[1..])
  }

  /** Blanks and characters that stand for themselves. */
  predicate IsPlainText(s: string)
  {
    forall i :: 0 <= i < |s| ==> Space(s[i]) || Ordinary(s[i])
  }

  lemma {:induction false} FieldsFirst(word: string, s: string)
    ensures var n := FirstSpace(s); Fields(word, s) == Fields(word + s[..n], s[n..])
    decreases |s|
  {
    if s == "" || Space(s[0]) {
      assert word + s[..0] == word && s[0..] == s;
    } else {
      var n := FirstSpace(s[1..]);
      FieldsFirst(word + [s[0]], s[1..]);
      assert (word + [s[0]]) + s[1..][..n] == word + s[..n + 1] && s[1..][n..] == s[n + 1..];
    }
  }

  lemma {:induction false} ScanPlainText(s: string)
    requires IsPlainText(s)
    ensures ScanLen(s, NONE, 0) == FirstSpace(s)
  {
    if s != "" && !Space(s[0]) {
      ScanPlainText(s[1..]);
      assert [s[0]] + s[1..] == s;
      Turn([s[0]], s[1..], NONE, 0, NONE, 0);
    }
  }

  lemma FirstField(s: string)
    requires s != "" && !Space(s[0])
    ensures var n := FirstSpace(s); n >= 1 && Fields("", s) == [s[..n]] + Fields("", s[n..])
  {
    var n := FirstSpace(s);
    FieldsFirst("", s);
    assert "" + s[..n] == s[..n];
    if n < |s| {
      SpaceAtFirst(s);
    }
  }

  lemma {:induction false} SpaceAtFirst(s: string)
    ensures FirstSpace(s) < |s| ==> Space(s[FirstSpace(s)])
  {
    if s != "" && !Space(s[0]) {
      SpaceAtFirst(s[1..]);
    }
  }

  /** Text without quotes, backslashes, parentheses and operators is split at its blanks. */
  lemma {:induction false} PlainTextIsSplit(s: string)
    requires IsPlainText(s)
    ensures Readable(s) && Tokens(s) == Fields("", s)
    decreases |s|
  {
    if s == "" {
    } else if Space(s[0]) {
      PlainTextIsSplit(s[1..]);
      BlanksInFront([s[0]], s[1..]);
      assert [s[0]] + s[1..] == s && [] + Fields("", s[1..]) == Fields("", s[1..]);
    } else {
      var n := FirstSpace(s);
      FirstField(s);
      PlainTextIsSplit(s[n..]);
      ScanPlainText(s);
      TokenIsScan(s);
      assert s[..n] + s[n..] == s;
      ReadsFirst(s[..n], s[n..]);
    }
  }

  /** A text of ordinary characters and then some pieces. */
  function PlainThen(start: string, w: Word): (r: Word)
  {
    if start == "" then w else Cons(Plain(start[0]), PlainThen(start[1..], w))
  }

  lemma {:induction false} PlainThenIs(start: string, w: Word)
    requires IsWord(w) && forall i :: 0 <= i < |start| ==> Ordinary(start[i])
    ensures IsWord(PlainThen(start, w)) && WordText(PlainThen(start, w)) == start + WordText(w)
  {
    if start == "" {
      assert start + WordText(w) == WordText(w);
    } else {
      PlainThenIs(start[1..], w);
      assert [start[0]] + start[1..] == start;
      Assoc([start[0]], start[1..], WordText(w));
    }
  }

  lemma {:induction false} PlainThenEnd(start: string, p: Piece)
    requires !p.Plain?
    ensures var w := PlainThen(start, Cons(p, Nil)); w.Cons? && !EndsInOpener(w) && !IsNumber(w)
  {
    if start != "" {
      PlainThenEnd(start[1..], p);
    }
  }

  lemma {:induction false} FreeTextStaysQuoted(mark: char, text: string)
    requires forall i :: 0 <= i < |text| ==> text[i] != mark && (text[i] == '\\' ==> mark == '\'')
    ensures StaysQuoted(mark, text)
  {
    if text != "" {
      FreeTextStaysQuoted(mark, text[1..]);
    }
  }

  /** A word that ends in one special piece, on a line of its own. */
  lemma LastPieceIsInWord(start: string, p: Piece)
    requires (forall i :: 0 <= i < |start| ==> Ordinary(start[i])) && IsPiece(p) && !p.Plain?
    ensures var s := start + PieceText(p); Readable(s) && Tokens(s) == [s]
  {
    var last := Cons(p, Nil);
    var w := PlainThen(start, last);
    PlainThenIs(start, last);
    PlainThenEnd(start, p);
    assert WordText(last) == PieceText(p) + "" == PieceText(p);
    var s := start + PieceText(p);
    WordIsToken(w, "");
    assert s + "" == s && s[|s|..] == "";
    PieceStart(w.piece);
    ReadsFirst(s, "");
  }

  /** Quoted text is in one word with what stands before it: blanks and operators in it do not count. */
  lemma QuotesKeepTogether(start: string, mark: char, text: string)
    requires forall i :: 0 <= i < |start| ==> Ordinary(start[i])
    requires mark == '"' || mark == '\'' || mark == '`'
    requires forall i :: 0 <= i < |text| ==> text[i] != mark && (text[i] == '\\' ==> mark == '\'')
    ensures var s := start + ([mark] + (text + [mark])); Readable(s) && Tokens(s) == [s]
  {
    FreeTextStaysQuoted(mark, text);
    LastPieceIsInWord(start, Quoted(mark, text));
  }

  /** So is a character after a backslash. */
  lemma BackslashKeepsTogether(start: string, c: char)
    requires forall i :: 0 <= i < |start| ==> Ordinary(start[i])
    ensures var s := start + ['\\', c]; Readable(s) && Tokens(s) == [s]
  {
    LastPieceIsInWord(start, Escaped(c));
  }

  // ----- Groups: the character after `$(` is not looked at -----

  predicate Dull(c: char) { !QuoteMark(c) && c != '\\' && !Opener(c) && c != '<' && c != '>' }

  /** Without quotes, backslashes and openers, a scan goes no further than a closing parenthesis. */
  lemma {:induction false} StopsAtClose(t: string, after: string)
    requires forall i :: 0 <= i < |t| ==> Dull(t[i])
    ensures ScanLen(t + (")" + after), NONE, 0) <= |t|
  {
    if t == "" {
      assert t + (")" + after) == ")" + after;
    } else if !Space(t[0]) && !Special(t[0]) {
      StopsAtClose(t[1..], after);
      assert [t[0]] + (t[1..] + (")" + after)) == t + (")" + after);
      Turn([t[0]], t[1..] + (")" + after), NONE, 0, NONE, 0);
    }
  }

  lemma DullParts(inner: Nested, rest: Nested)
    requires forall i :: 0 <= i < |NestedText(Parens(inner, rest))| ==> Dull(NestedText(Parens(inner, rest))[i])
    ensures forall i :: 0 <= i < |NestedText(rest)| ==> Dull(NestedText(rest)[i])
  {
    var t, k := NestedText(Parens(inner, rest)), |NestedText(inner)| + 2;
    assert forall i :: 0 <= i < |NestedText(rest)| ==> t[k + i] == NestedText(rest)[i];
  }

  lemma Regroup(opener: char, i: string, r: string, after: string)
    ensures ([opener, '('] + (("(" + (i + (")" + r))) + ")")) + after
         == [opener, '(', '('] + (i + (")" + (r + (")" + after))))
  {
    Assoc(")", r, ")");
    Assoc(i, ")" + r, ")");
    Assoc("(", i + (")" + r), ")");
    var x := i + (")" + (r + ")"));
    assert [opener, '('] + ("(" + x) == [opener, '(', '('] + x;
    Assoc(r, ")", after);
    Assoc(")", r + ")", after);
    Assoc(i, ")" + (r + ")"), after);
    Assoc([opener, '(', '('], x, after);
  }

  /** A group whose first character is a parenthesis ends too early. */
  lemma DoubledParenthesis(opener: char, inner: Nested, rest: Nested, after: string)
    requires Opener(opener) && IsNested(inner) && IsNested(rest)
    requires forall i :: 0 <= i < |NestedText(Parens(inner, rest))| ==> Dull(NestedText(Parens(inner, rest))[i])
    ensures var s := [opener, '('] + (NestedText(Parens(inner, rest)) + ")");
            ScanLen(s + after, NONE, 0) < |s|
  {
    var i, r := NestedText(inner), NestedText(rest);
    DullParts(inner, rest);
    StopsAtClose(r, after);
    Turn(")", r + (")" + after), ')', 1, NONE, 0);
    ScanNested(inner, 1, ")" + (r + (")" + after)));
    Turn([opener, '(', '('], i + (")" + (r + (")" + after))), NONE, 0, ')', 1);
    Regroup(opener, i, r, after);
  }

  /** An empty one does not end where it should. */
  lemma EmptyGroup(opener: char, after: string)
    requires Opener(opener) && after != "" && after[0] == ' '
    ensures ScanLen([opener, '(', ')'] + after, NONE, 0) > 3
  {
    assert [after[0]] + after[1..] == after;
    Turn([opener, '(', ')'], after, NONE, 0, ')', 1);
    Turn([after[0]], after[1..], ')', 1, ')', 1);
  }

  lemma OpenerIsScan(s: string)
    requires s != "" && Opener(s[0])
    ensures TokenLen(s) == ScanLen(s, NONE, 0)
  {
    TokenIsScan(s);
  }

  /** A balanced group, free of quotes, backslashes and further openers, is one word of the line with
      what opens it if and only if it is not empty and does not begin with a parenthesis: the scanner
      never looks at the first character inside. */
  lemma GroupIsWordIff(opener: char, inside: Nested, after: string)
    requires Opener(opener) && IsNested(inside) && after != "" && after[0] == ' '
    requires forall i :: 0 <= i < |NestedText(inside)| ==> Dull(NestedText(inside)[i])
    ensures var s := [opener, '('] + (NestedText(inside) + ")");
            TokenLen(s + after) == |s| <==> NestedText(inside) != "" && NestedText(inside)[0] != '('
  {
    var s := [opener, '('] + (NestedText(inside) + ")");
    OpenerIsScan(s + after);
    assert NestedText(inside) != "" ==> Dull(NestedText(inside)[0]);
    match inside {
      case Empty =>
        EmptyGroup(opener, after);
        assert s == [opener, '(', ')'];
      case Other(c, rest) =>
        var p := Group(opener, c, rest);
        assert s == PieceText(p);
        ScanPiece(p, after);
      case Parens(inner, rest) =>
        DoubledParenthesis(opener, inner, rest, after);
      case Pair(c, rest) =>
        assert false;
    }
  }

  /** For instance, arithmetic expansion falls apart. */
  lemma ArithmeticFallsApart()
    ensures TokenLen("$((1)) x") != |"$((1))"|
  {
    var one := Other('1', Empty);
    var inside := Parens(one, Empty);
    assert NestedText(one) == "1";
    assert NestedText(inside) == "(1)";
    GroupIsWordIff('$', inside, " x");
    assert ['$', '('] + ("(1)" + ")") == "$((1))";
    assert "$((1))" + " x" == "$((1)) x";
  }
}
