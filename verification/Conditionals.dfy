/** The `$if`, `$else` and `$endif` lines of an init file (`bind.c`). */
module Conditionals {
  import opened Options

  /** Values of the readline variables. */
  type Settings = map<string, string>

  /** Names are compared without regard to case. */
  function Lower(s: string): (t: string)
    ensures |t| == |s|
  {
    seq(|s|, i requires 0 <= i < |s| => if 'A' <= s[i] <= 'Z' then s[i] - 'A' + 'a' else s[i])
  }

  predicate Same(a: string, b: string) { Lower(a) == Lower(b) }

  /** A terminal name up to its first dash. */
  function UpToDash(s: string): (t: string)
  {
    if s == "" || s[0] == '-' then "" else [s[0]] + UpToDash(s[1..])
  }

  datatype Comparison = Eq | Ne | Lt | Le | Gt | Ge

  predicate Compares(a: int, op: Comparison, b: int)
  {
    match op
    case Eq => a == b
    case Ne => a != b
    case Lt => a < b
    case Le => a <= b
    case Gt => a > b
    case Ge => a >= b
  }

  /** What does not change while files are read; the terminal may have no name. */
  datatype Environment = Environment(application: string, terminal: Option<string>, version: int)

  /** A condition as it is read; one that cannot be read never holds. */
  datatype Condition =
    | Application(name: string)
    | Terminal(name: string)
    | Mode(name: string)
    | Version(op: Comparison, number: int)
    | Variable(name: string, value: string, equal: bool)
    | Malformed

  predicate Holds(c: Condition, s: Settings, env: Environment)
  {
    match c
    case Application(name) => Same(name, env.application)
    case Terminal(name) =>
      (match env.terminal
       case None => Same("term=" + name, env.application)
       case Some(t) => Same(name, UpToDash(t)) || Same(name, t))
    case Mode(name) => (Same(name, "emacs") || Same(name, "vi")) && "editing-mode" in s && Same(name, s["editing-mode"])
    case Version(op, number) => Compares(env.version, op, number)
    case Variable(name, value, equal) => name in s && Same(s[name], value) == equal
    case Malformed => false
  }

  /** `u` is a capital and `l` the same letter in lower case. */
  predicate CapitalOf(u: char, l: char)
  {
    'A' <= u <= 'Z' && l as int == u as int + 32
  }

  predicate SameLetter(a: char, b: char)
  {
    a == b || CapitalOf(a, b) || CapitalOf(b, a)
  }

  /** The same letters, whatever their case. */
  predicate SameLetters(a: string, b: string)
  {
    |a| == |b| && forall i :: 0 <= i < |a| ==> SameLetter(a[i], b[i])
  }

  lemma SameIs(a: string, b: string)
    ensures Same(a, b) <==> SameLetters(a, b)
  {
    if |a| == |b| {
      forall i | 0 <= i < |a|
        ensures Lower(a)[i] == Lower(b)[i] <==> SameLetter(a[i], b[i])
      {
      }
      if SameLetters(a, b) {
        assert Lower(a) == Lower(b);
      }
    }
  }

  lemma {:induction false} UpToDashIs(a: string, b: string)
    requires '-' !in a && (b == "" || b[0] == '-')
    ensures UpToDash(a + b) == a
  {
    if a == "" {
      assert a + b == b;
    } else {
      assert (a + b)[1..] == a[1..] + b;
      UpToDashIs(a[1..], b);
    }
  }

  /** The terminal `a` or `a-b` is known by its whole name and by `a`. */
  lemma TerminalNames(name: string, a: string, b: string, s: Settings, env: Environment)
    requires '-' !in a && (b == "" || b[0] == '-') && env.terminal == Some(a + b)
    ensures Holds(Terminal(name), s, env) <==> SameLetters(name, a) || SameLetters(name, a + b)
  {
    UpToDashIs(a, b);
    SameIs(name, a);
    SameIs(name, a + b);
  }

  /** Applications, editing modes and variables are compared by name, a variable with `==` or `!=`. */
  lemma NamedConditions(name: string, value: string, s: Settings, env: Environment)
    ensures Holds(Application(name), s, env) <==> SameLetters(name, env.application)
    ensures Holds(Mode(name), s, env) <==>
      && (SameLetters(name, "emacs") || SameLetters(name, "vi"))
      && "editing-mode" in s && SameLetters(name, s["editing-mode"])
    ensures Holds(Variable(name, value, true), s, env) <==> name in s && SameLetters(s[name], value)
    ensures Holds(Variable(name, value, false), s, env) <==> name in s && !SameLetters(s[name], value)
  {
    SameIs(name, env.application);
    SameIs(name, "emacs");
    SameIs(name, "vi");
    if "editing-mode" in s {
      SameIs(name, s["editing-mode"]);
    }
    if name in s {
      SameIs(s[name], value);
    }
  }

  datatype Directive = Set(name: string, value: string) | If(c: Condition) | Else | Endif

  datatype Source = Done | Line(first: Directive, rest: Source)

  // ----- The parser: a flag and a stack of its earlier values -----

  /** `off` is `_rl_parsing_conditionalized_out`. */
  datatype Machine = Machine(stack: seq<bool>, off: bool, settings: Settings)

  predicate AnyOff(stack: seq<bool>)
  {
    exists i :: 0 <= i < |stack| && stack[i]
  }

  function Exec(m: Machine, d: Directive, env: Environment): (r: Machine)
  {
    match d
    case Set(name, value) => if m.off then m else m.(settings := m.settings[name := value])
    case If(c) => Machine(m.stack + [m.off], m.off || !Holds(c, m.settings, env), m.settings)
    case Else => if m.stack == [] || AnyOff(m.stack) then m else m.(off := !m.off)
    case Endif =>
      if m.stack == [] then m else Machine(m.stack[..|m.stack| - 1], m.stack[|m.stack| - 1], m.settings)
  }

  function ExecAll(m: Machine, source: Source, env: Environment): (r: Machine)
    decreases source
  {
    match source
    case Done => m
    case Line(d, rest) => ExecAll(Exec(m, d, env), rest, env)
  }

  // ----- Nested programs and what they mean -----

  /** Settings and blocks; the parts of a block are separated by `$else`, of which there may be
      any number. */
  datatype Program =
    | Nothing
    | Assign(name: string, value: string, next: Program)
    | Block(c: Condition, parts: Parts, next: Program)
  datatype Parts = Last(body: Program) | More(body: Program, others: Parts)

  /** The lines of a program, before others. */
  function Text(p: Program, tail: Source): (source: Source)
    decreases p
  {
    match p
    case Nothing => tail
    case Assign(name, value, next) => Line(Set(name, value), Text(next, tail))
    case Block(c, parts, next) => Line(If(c), PartsText(parts, Text(next, tail)))
  }

  function PartsText(parts: Parts, tail: Source): (source: Source)
    decreases parts
  {
    match parts
    case Last(body) => Text(body, Line(Endif, tail))
    case More(body, others) => Text(body, Line(Else, PartsText(others, tail)))
  }

  /** The settings after a program: a block runs its first, third, … part if its condition holds
      when it is reached, and its second, fourth, … part otherwise. */
  function Meaning(p: Program, s: Settings, env: Environment): (r: Settings)
    decreases p
  {
    match p
    case Nothing => s
    case Assign(name, value, next) => Meaning(next, s[name := value], env)
    case Block(c, parts, next) => Meaning(next, PartsMeaning(parts, Holds(c, s, env), s, env), env)
  }

  function PartsMeaning(parts: Parts, taken: bool, s: Settings, env: Environment): (r: Settings)
    decreases parts
  {
    var after := if taken then Meaning(parts.body, s, env) else s;
    match parts
    case Last(_) => after
    case More(_, others) => PartsMeaning(others, !taken, after, env)
  }

  /** What a block on the version sets, when the library is `ahead` of the number in the condition. */
  lemma VersionBlock(op: Comparison, number: int, ahead: int, name: string, yes: string, no: string,
                     s: Settings, env: Environment)
    requires env.version == number + ahead
    ensures var parts := More(Assign(name, yes, Nothing), Last(Assign(name, no, Nothing)));
            var r := Meaning(Block(Version(op, number), parts, Nothing), s, env);
            && (op == Eq ==> r == s[name := if ahead == 0 then yes else no])
            && (op == Ne ==> r == s[name := if ahead == 0 then no else yes])
            && (op == Gt ==> r == s[name := if ahead > 0 then yes else no])
            && (op == Ge ==> r == s[name := if ahead < 0 then no else yes])
            && (op == Lt ==> r == s[name := if ahead < 0 then yes else no])
            && (op == Le ==> r == s[name := if ahead > 0 then no else yes])
  {
    OneSetting(name, yes, s, env);
    OneSetting(name, no, s, env);
    var first, second := Assign(name, yes, Nothing), Last(Assign(name, no, Nothing));
    assert PartsMeaning(second, false, s[name := yes], env) == s[name := yes];
    assert PartsMeaning(second, true, s, env) == s[name := no];
    assert PartsMeaning(More(first, second), true, s, env) == s[name := yes];
    assert PartsMeaning(More(first, second), false, s, env) == s[name := no];
  }

  lemma OneSetting(name: string, value: string, s: Settings, env: Environment)
    ensures Meaning(Assign(name, value, Nothing), s, env) == s[name := value]
  {
    assert Meaning(Nothing, s[name := value], env) == s[name := value];
  }

  // ----- The parser does what the program means -----

  /** Once parsing is off, everything inside is off. */
  predicate Sound(m: Machine)
  {
    && (forall i, j :: 0 <= i < j < |m.stack| && m.stack[i] ==> m.stack[j])
    && (m.stack != [] && m.stack[|m.stack| - 1] ==> m.off)
  }

  /** Every line keeps that, whatever the lines are. */
  lemma ExecSound(m: Machine, d: Directive, env: Environment)
    requires Sound(m)
    ensures Sound(Exec(m, d, env))
  {
    if d.Endif? && |m.stack| > 1 {
      assert m.stack[|m.stack| - 2] ==> m.stack[|m.stack| - 1];
    }
  }

  lemma AnyOffIsLast(m: Machine)
    requires Sound(m) && m.stack != []
    ensures AnyOff(m.stack) <==> m.stack[|m.stack| - 1]
  {
    if AnyOff(m.stack) {
      var i :| 0 <= i < |m.stack| && m.stack[i];
      assert i < |m.stack| - 1 ==> m.stack[|m.stack| - 1];
    }
  }

  function WithMeaning(m: Machine, p: Program, env: Environment): (r: Machine)
  {
    if m.off then m else m.(settings := Meaning(p, m.settings, env))
  }

  /** After a block: the stack and the flag are as they were before it. */
  function WithParts(m: Machine, parts: Parts, env: Environment): (r: Machine)
    requires m.stack != []
  {
    var n := |m.stack| - 1;
    Machine(m.stack[..n], m.stack[n], if m.stack[n] then m.settings else PartsMeaning(parts, !m.off, m.settings, env))
  }

  /** A well-nested program sets exactly what it means, or nothing where parsing is off, and leaves
      the stack and the flag as they were. */
  lemma {:induction false} ProgramMeans(p: Program, m: Machine, tail: Source, env: Environment)
    requires Sound(m)
    ensures ExecAll(m, Text(p, tail), env) == ExecAll(WithMeaning(m, p, env), tail, env)
    decreases p
  {
    match p {
      case Nothing =>
      case Assign(name, value, next) =>
        ProgramMeans(next, Exec(m, Set(name, value), env), tail, env);
      case Block(c, parts, next) =>
        var inside := Exec(m, If(c), env);
        ExecSound(m, If(c), env);
        PartsMean(parts, inside, Text(next, tail), env);
        assert inside.stack[..|m.stack|] == m.stack;
        ProgramMeans(next, WithParts(inside, parts, env), tail, env);
    }
  }

  lemma {:induction false} PartsMean(parts: Parts, m: Machine, tail: Source, env: Environment)
    requires Sound(m) && m.stack != []
    ensures ExecAll(m, PartsText(parts, tail), env) == ExecAll(WithParts(m, parts, env), tail, env)
    decreases parts
  {
    var m1 := WithMeaning(m, parts.body, env);
    match parts {
      case Last(body) =>
        ProgramMeans(body, m, Line(Endif, tail), env);
      case More(body, others) =>
        ProgramMeans(body, m, Line(Else, PartsText(others, tail)), env);
        AnyOffIsLast(m1);
        ExecSound(m1, Else, env);
        PartsMean(others, Exec(m1, Else, env), tail, env);
    }
  }

  /** `$else` and `$endif` without a `$if` change nothing. */
  lemma UnmatchedIgnored(off: bool, s: Settings, rest: Source, env: Environment)
    ensures ExecAll(Machine([], off, s), Line(Else, rest), env) == ExecAll(Machine([], off, s), rest, env)
    ensures ExecAll(Machine([], off, s), Line(Endif, rest), env) == ExecAll(Machine([], off, s), rest, env)
  {
  }

  // ----- The code -----

  class Parser {
    var ifStack: seq<bool>
    var conditionalizedOut: bool
    var settings: Settings
    const environment: Environment

    constructor (initial: Settings, env: Environment)
      ensures View() == Machine([], false, initial) && environment == env
    {
      ifStack, conditionalizedOut, settings, environment := [], false, initial, env;
    }

    ghost function View(): (m: Machine)
      reads this
    {
      Machine(ifStack, conditionalizedOut, settings)
    }

    /** `parser_if`, when the condition has been read. */
    method ParserIf(c: Condition)
      modifies this
      ensures View() == Exec(old(View()), If(c), environment)
    {
      ifStack := ifStack + [conditionalizedOut];
      if conditionalizedOut {
        return;
      }
      match c {
        case Application(name) =>
          conditionalizedOut := !Same(name, environment.application);
        case Terminal(name) =>
          if environment.terminal.Some? {
            var long := environment.terminal.value;
            var short := ShortName(long);
            conditionalizedOut := !Same(name, short) && !Same(name, long);
          } else {
            conditionalizedOut := !Same("term=" + name, environment.application);
          }
        case Mode(name) =>
          var known := Same(name, "emacs") || Same(name, "vi");
          conditionalizedOut := !(known && "editing-mode" in settings && Same(name, settings["editing-mode"]));
        case Version(op, number) =>
          conditionalizedOut := !Compares(environment.version, op, number);
        case Variable(name, value, equal) =>
          conditionalizedOut := true;
          if name in settings {
            conditionalizedOut := if equal then !Same(settings[name], value) else Same(settings[name], value);
          }
        case Malformed =>
          conditionalizedOut := true;
      }
    }

    /** Terminals like "aaa-60" are also known as "aaa". */
    method ShortName(name: string) returns (short: string)
      ensures short == UpToDash(name)
    {
      var i := 0;
      assert name[0..] == name && "" + UpToDash(name) == UpToDash(name);
      while i < |name| && name[i] != '-'
        invariant 0 <= i <= |name| && name[..i] + UpToDash(name[i..]) == UpToDash(name)
      {
        assert name[i..][1..] == name[i + 1..];
        assert name[..i + 1] + UpToDash(name[i + 1..]) == name[..i] + ([name[i]] + UpToDash(name[i + 1..]));
        i := i + 1;
      }
      assert name[..i] + "" == name[..i];
      return name[..i];
    }

    /** `parser_else` */
    method ParserElse()
      modifies this
      ensures View() == Exec(old(View()), Else, environment)
    {
      if |ifStack| == 0 {
        return;
      }
      var i := 0;
      while i < |ifStack|
        invariant 0 <= i <= |ifStack| && View() == old(View())
        invariant forall j :: 0 <= j < i ==> !ifStack[j]
      {
        if ifStack[i] {
          return;
        }
        i := i + 1;
      }
      conditionalizedOut := !conditionalizedOut;
    }

    /** `parser_endif` */
    method ParserEndif()
      modifies this
      ensures View() == Exec(old(View()), Endif, environment)
    {
      if |ifStack| > 0 {
        conditionalizedOut := ifStack[|ifStack| - 1];
        ifStack := ifStack[..|ifStack| - 1];
      }
    }

    /** A line of the file. */
    method ParseAndBind(d: Directive)
      modifies this
      ensures View() == Exec(old(View()), d, environment)
    {
      match d {
        case If(c) => ParserIf(c);
        case Else => ParserElse();
        case Endif => ParserEndif();
        case Set(name, value) =>
          if conditionalizedOut {
            return;
          }
          settings := settings[name := value];
      }
    }

    method ReadInitFile(source: Source)
      modifies this
      ensures View() == ExecAll(old(View()), source, environment)
    {
      var left := source;
      while left.Line?
        invariant ExecAll(View(), left, environment) == ExecAll(old(View()), source, environment)
        decreases left
      {
        ParseAndBind(left.first);
        left := left.rest;
      }
    }

    /** Reading a well-nested file from the top gives what it means. */
    method ReadProgram(p: Program)
      requires ifStack == [] && !conditionalizedOut
      modifies this
      ensures ifStack == [] && !conditionalizedOut && settings == Meaning(p, old(settings), environment)
    {
      ProgramMeans(p, View(), Done, environment);
      ReadInitFile(Text(p, Done));
    }
  }
}
