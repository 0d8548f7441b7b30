/** Keyboard macros being executed (`macro.c`): nested strings read as one stream of keys. */
module MacroStack {
  import opened Bytes
  import opened Options
  import opened InputRing

  const MAX_MACRO_LEVEL: nat := 16

  /** A macro string, which holds no NUL, and the index of its next key. */
  datatype Macro = Macro(text: seq<Byte>, index: nat)

  /** `macro_list`: what was being read when each macro started. */
  datatype Saved = Bottom | Saver(macro: Option<Macro>, next: Saved)

  /** The macro being read and the list below it. */
  datatype Stack = Stack(executing: Option<Macro>, saved: Saved)

  function Depth(saved: Saved): (n: nat)
  {
    if saved.Bottom? then 0 else 1 + Depth(saved.next)
  }

  /** Every macro was started above another one, and the first above none. */
  predicate Nested(executing: Option<Macro>, saved: Saved)
    decreases saved
  {
    match executing
    case None => saved.Bottom?
    case Some(m) => m.index <= |m.text| && 0 !in m.text && saved.Saver? && Nested(saved.macro, saved.next)
  }

  /** The keys still to come: the rest of the macro, then of the one it interrupted, and so on. */
  function Keys(executing: Option<Macro>, saved: Saved): (keys: seq<Byte>)
    requires Nested(executing, saved)
    decreases saved
  {
    match executing
    case None => []
    case Some(m) => m.text[m.index..] + Keys(saved.macro, saved.next)
  }

  lemma {:induction false} KeysNotZero(executing: Option<Macro>, saved: Saved)
    requires Nested(executing, saved)
    ensures 0 !in Keys(executing, saved)
    decreases saved
  {
    if executing.Some? {
      KeysNotZero(saved.macro, saved.next);
    }
  }

  // ----- Which macro is being read after some keys -----

  /** The stack after a key was read; `eager` pops a macro with its last key. */
  function Next(st: Stack, eager: bool): (r: Stack)
    requires Nested(st.executing, st.saved)
    ensures Nested(r.executing, r.saved)
    decreases st.saved
  {
    match st.executing
    case None => st
    case Some(m) =>
      if m.index == |m.text| then Next(Stack(st.saved.macro, st.saved.next), eager)
      else if eager && m.index + 1 == |m.text| then Stack(st.saved.macro, st.saved.next)
      else Stack(Some(Macro(m.text, m.index + 1)), st.saved)
  }

  lemma {:induction false} NextKeys(st: Stack, eager: bool)
    requires Nested(st.executing, st.saved)
    ensures var keys, r := Keys(st.executing, st.saved), Next(st, eager);
            Keys(r.executing, r.saved) == if keys == [] then [] else keys[1..]
    decreases st.saved
  {
    if st.executing.Some? {
      var m := st.executing.value;
      if m.index == |m.text| {
        NextKeys(Stack(st.saved.macro, st.saved.next), eager);
        assert Keys(st.executing, st.saved) == Keys(st.saved.macro, st.saved.next);
      } else {
        assert m.text[m.index..][1..] == m.text[m.index + 1..];
      }
    }
  }

  function After(st: Stack, n: nat, eager: bool): (r: Stack)
    requires Nested(st.executing, st.saved)
    ensures Nested(r.executing, r.saved)
    decreases n
  {
    if n == 0 then st else After(Next(st, eager), n - 1, eager)
  }

  lemma {:induction false} AfterOneMore(st: Stack, n: nat, eager: bool)
    requires Nested(st.executing, st.saved)
    ensures After(st, n + 1, eager) == Next(After(st, n, eager), eager)
    decreases n
  {
    if n > 0 {
      AfterOneMore(Next(st, eager), n - 1, eager);
    }
  }

  /** The macro that is left to read after `n` keys: the first one, from the top, whose keys are
      not all among them. */
  function Reader(executing: Option<Macro>, saved: Saved, n: nat, eager: bool): (r: Option<Macro>)
    requires Nested(executing, saved)
    ensures r.Some? ==> r.value.index <= |r.value.text|
    decreases saved
  {
    match executing
    case None => None
    case Some(m) =>
      var left := |m.text| - m.index;
      if n == 0 then executing
      else if n < left || (n == left && !eager) then Some(Macro(m.text, m.index + n))
      else Reader(saved.macro, saved.next, n - left, eager)
  }

  lemma {:induction false} ReaderStep(st: Stack, n: nat, eager: bool)
    requires Nested(st.executing, st.saved) && n > 0
    ensures Reader(st.executing, st.saved, n, eager)
      == Reader(Next(st, eager).executing, Next(st, eager).saved, n - 1, eager)
    decreases st.saved
  {
    if st.executing.Some? && st.executing.value.index == |st.executing.value.text| {
      ReaderStep(Stack(st.saved.macro, st.saved.next), n, eager);
    }
  }

  lemma {:induction false} AfterIsReader(st: Stack, n: nat, eager: bool)
    requires Nested(st.executing, st.saved)
    ensures After(st, n, eager).executing == Reader(st.executing, st.saved, n, eager)
    decreases n
  {
    if n > 0 {
      ReaderStep(st, n, eager);
      AfterIsReader(Next(st, eager), n - 1, eager);
    }
  }

  /** The keys just before the next one of a macro are `keys`. */
  predicate JustRead(m: Macro, keys: seq<Byte>)
    requires m.index <= |m.text|
  {
    |keys| <= m.index && m.text[m.index - |keys|..m.index] == keys
  }

  /** Whether `keys` can be put back while `m` is being read and the input ring has `room`:
      dispatch steps back in the macro, or uses the ring when no macro is left. */
  predicate TakesBack(m: Option<Macro>, room: int, keys: seq<Byte>)
    requires m.Some? ==> m.value.index <= |m.value.text|
  {
    match m
    case None => |keys| <= room
    case Some(macro) => JustRead(macro, keys)
  }

  /** How many of `n` keys come after the first `limit`. */
  function Beyond(n: nat, limit: nat): (k: nat)
  {
    if n <= limit then 0 else n - limit
  }

  function StepsBack(index: nat, n: nat): (i: nat)
  {
    if n <= index then index - n else 0
  }

  lemma OneMore(all: seq<Byte>, i: nat)
    requires i < |all|
    ensures all[..i + 1] == all[..i] + [all[i]] && all[i..][0] == all[i] && all[i..][1..] == all[i + 1..]
  {
  }

  /** Going back to `lo` in a macro puts `keys` in front exactly when they were just read. */
  lemma Rewound(m: Macro, lo: nat, below: seq<Byte>, ring: seq<Byte>, keys: seq<Byte>)
    requires m.index <= |m.text| && lo == StepsBack(m.index, |keys|)
    ensures (m.text[lo..] + below) + ring == keys + ((m.text[m.index..] + below) + ring) <==> JustRead(m, keys)
  {
    var taken, tail := m.text[lo..m.index], (m.text[m.index..] + below) + ring;
    assert m.text[lo..] == taken + m.text[m.index..];
    assert (m.text[lo..] + below) + ring == taken + tail;
    if taken + tail == keys + tail {
      assert |taken| == |keys|;
      assert (taken + tail)[..|taken|] == taken && (keys + tail)[..|keys|] == keys;
    }
  }

  /** Keys that all come from one macro can be put back, unless the last of them was its last and
      it was popped at once. */
  lemma OneMacroTakesBack(m: Macro, saved: Saved, total: nat, n: nat, eager: bool, room: int)
    requires Nested(Some(m), saved) && n <= total <= |m.text| - m.index && (total == |m.text| - m.index ==> !eager)
    ensures var keys := Keys(Some(m), saved);
            total <= |keys| && TakesBack(Reader(Some(m), saved, total, eager), room, keys[total - n..total])
  {
    var keys := Keys(Some(m), saved);
    assert keys[total - n..total] == m.text[m.index + total - n..m.index + total];
  }

  // ----- A run of pushes and reads, on the stream alone -----

  datatype Action = Push(text: seq<Byte>) | ReadKey

  /** What is left of the stream. */
  function StreamAfter(stream: seq<Byte>, actions: seq<Action>, i: nat): (r: seq<Byte>)
    requires i <= |actions|
    decreases |actions| - i
  {
    if i == |actions| then stream
    else match actions[i]
      case Push(text) => StreamAfter(text + stream, actions, i + 1)
      case ReadKey => StreamAfter(if stream == [] then [] else stream[1..], actions, i + 1)
  }

  /** `done` and then the keys delivered by the reads from `i` on, 0 where there is none. */
  function Delivered(done: seq<Byte>, stream: seq<Byte>, actions: seq<Action>, i: nat): (r: seq<Byte>)
    requires i <= |actions|
    decreases |actions| - i
  {
    if i == |actions| then done
    else match actions[i]
      case Push(text) => Delivered(done, text + stream, actions, i + 1)
      case ReadKey =>
        if stream == [] then Delivered(done + [0], [], actions, i + 1)
        else Delivered(done + [stream[0]], stream[1..], actions, i + 1)
  }

  /** Every push of the run finds the nesting below the limit. */
  predicate Accepts(st: Stack, actions: seq<Action>, i: nat, eager: bool)
    requires Nested(st.executing, st.saved) && i <= |actions| && Pushable(actions)
    decreases |actions| - i
  {
    i < |actions| ==>
      match actions[i]
      case Push(text) =>
        && Depth(st.saved) <= MAX_MACRO_LEVEL
        && Accepts(Stack(Some(Macro(text, 0)), Saver(st.executing, st.saved)), actions, i + 1, eager)
      case ReadKey => Accepts(Next(st, eager), actions, i + 1, eager)
  }

  /** Macro strings hold no NUL. */
  predicate Pushable(actions: seq<Action>)
  {
    forall i :: 0 <= i < |actions| && actions[i].Push? ==> 0 !in actions[i].text
  }

  /** Seventeen macros can be nested, started at any depth and without reading a key. */
  lemma {:induction false} NestingLimit(st: Stack, actions: seq<Action>, i: nat, eager: bool)
    requires Nested(st.executing, st.saved) && i <= |actions| && Pushable(actions)
    requires forall j :: i <= j < |actions| ==> actions[j].Push?
    ensures Accepts(st, actions, i, eager) <==> i == |actions| || Depth(st.saved) + (|actions| - i) <= 17
    decreases |actions| - i
  {
    if i < |actions| {
      NestingLimit(Stack(Some(Macro(actions[i].text, 0)), Saver(st.executing, st.saved)), actions, i + 1, eager);
    }
  }

  function Copies(text: seq<Byte>, count: nat, stream: seq<Byte>): (r: seq<Byte>)
  {
    if count == 0 then stream else Copies(text, count - 1, text + stream)
  }

  // ----- The code -----

  class Macros {
    var executing: Option<Macro>
    var saved: Saved
    var macroLevel: nat
    /** RL_STATE_MACROINPUT */
    var macroInput: bool
    /** Callback mode, while a key is read for a command. */
    const callback: bool

    ghost predicate Valid()
      reads this
    {
      Nested(executing, saved) && macroLevel == Depth(saved) && macroInput == executing.Some?
    }

    ghost function Top(): (st: Stack)
      reads this
    {
      Stack(executing, saved)
    }

    ghost function Stream(): (keys: seq<Byte>)
      requires Valid()
      reads this
    {
      Keys(executing, saved)
    }

    constructor (callbackMode: bool)
      ensures Valid() && executing == None && macroLevel == 0 && callback == callbackMode
    {
      executing, saved, macroLevel, macroInput, callback := None, Bottom, 0, false, callbackMode;
    }

    /** `_rl_pop_executing_macro` */
    method PopExecutingMacro()
      requires Valid() && executing.Some?
      modifies this
      ensures Valid() && macroLevel == old(macroLevel) - 1
      ensures executing == old(saved.macro) && saved == old(saved.next)
    {
      executing := None;
      if saved.Saver? {
        executing, saved := saved.macro, saved.next;
      }
      macroLevel := macroLevel - 1;
      if executing.None? {
        macroInput := false;
      }
    }

    /** `_rl_abort_internal`, as far as macros go. */
    method Abort()
      requires Valid()
      modifies this
      ensures Valid() && executing == None && macroLevel == 0 && Stream() == []
    {
      while executing.Some?
        invariant Valid()
        decreases saved
      {
        PopExecutingMacro();
      }
    }

    /** `_rl_with_macro_input`: the string is read before everything else.  There can be one level
        more than the limit; a further macro aborts them all. */
    method WithMacroInput(text: seq<Byte>) returns (ok: bool)
      requires Valid() && 0 !in text
      modifies this
      ensures Valid() && ok == (old(macroLevel) <= 16)
      ensures ok ==> Stream() == text + old(Stream()) && macroLevel == old(macroLevel) + 1
      ensures ok ==> Top() == Stack(Some(Macro(text, 0)), Saver(old(executing), old(saved)))
      ensures !ok ==> Stream() == [] && macroLevel == 0
    {
      if macroLevel > MAX_MACRO_LEVEL {
        Abort();
        return false;
      }
      saved := Saver(executing, saved);
      macroLevel := macroLevel + 1;
      executing := Some(Macro(text, 0));
      macroInput := true;
      assert text[0..] == text;
      return true;
    }

    /** `_rl_next_macro_key`: the next key of the stream, or 0 at its end.  Whether a finished macro
        is popped at once, as callback mode does, or when the next key is wanted, makes no
        difference to the stream. */
    method NextMacroKey() returns (c: Byte)
      requires Valid()
      modifies this
      ensures Valid() && macroLevel <= old(macroLevel) && Top() == Next(old(Top()), callback)
      ensures old(Stream()) == [] ==> c == 0 && Stream() == [] && executing == None
      ensures old(Stream()) != [] ==> c == old(Stream())[0] && Stream() == old(Stream())[1..]
      decreases saved
    {
      NextKeys(Top(), callback);
      if executing.None? {
        return 0;
      }
      var m := executing.value;
      if m.index == |m.text| {
        PopExecutingMacro();
        c := NextMacroKey();
        return;
      }
      c := m.text[m.index];
      executing := Some(Macro(m.text, m.index + 1));
      if callback && m.index + 1 == |m.text| {
        PopExecutingMacro();
      }
    }

    /** `_rl_prev_macro_key`: puts a key of the executing macro back. */
    method PrevMacroKey() returns (c: Byte)
      requires Valid()
      modifies `executing
      ensures Valid()
      ensures old(executing).None? || old(executing.value.index) == 0 ==> c == 0 && executing == old(executing)
      ensures old(executing).Some? && old(executing.value.index) > 0 ==>
        var m := old(executing).value;
        c == m.text[m.index - 1] && executing == Some(Macro(m.text, m.index - 1)) && Stream() == [c] + old(Stream())
    {
      if executing.None? {
        return 0;
      }
      var m := executing.value;
      if m.index == 0 {
        return 0;
      }
      executing := Some(Macro(m.text, m.index - 1));
      c := m.text[m.index - 1];
      assert m.text[m.index - 1..] == [c] + m.text[m.index..];
    }

    /** The loop of `rl_call_last_kbd_macro` over a macro that is not being defined.  A negative
        count goes on until the nesting limit aborts everything. */
    method CallLastKbdMacro(macro: seq<Byte>, count: int) returns (ok: bool)
      requires Valid() && 0 !in macro
      modifies this
      ensures Valid() && ok == (count == 0 || (count > 0 && old(macroLevel) + count <= 17))
      ensures ok ==> Stream() == Copies(macro, count, old(Stream()))
      ensures !ok ==> Stream() == []
    {
      var left := count;
      while left != 0
        invariant left <= count && Valid() && macroLevel == old(macroLevel) + (count - left)
        invariant left < count ==> macroLevel <= MAX_MACRO_LEVEL + 1
        invariant count >= 0 ==> 0 <= left && Copies(macro, left, Stream()) == Copies(macro, count, old(Stream()))
        decreases MAX_MACRO_LEVEL + 1 - macroLevel
      {
        ok := WithMacroInput(macro);
        if !ok {
          return;
        }
        left := left - 1;
      }
      ok := true;
    }

    /** A run of pushes and reads delivers the keys of the stream, in either mode, exactly as long
        as every push finds the nesting below the limit. */
    method Run(actions: seq<Action>) returns (ok: bool, keys: seq<Byte>)
      requires Valid() && Pushable(actions)
      modifies this
      ensures Valid() && ok == Accepts(old(Top()), actions, 0, callback)
      ensures ok ==>
        keys == Delivered([], old(Stream()), actions, 0) && Stream() == StreamAfter(old(Stream()), actions, 0)
      ensures !ok ==> Stream() == []
    {
      keys := [];
      var i := 0;
      while i < |actions|
        invariant 0 <= i <= |actions| && Valid()
        invariant Accepts(Top(), actions, i, callback) == Accepts(old(Top()), actions, 0, callback)
        invariant Delivered(keys, Stream(), actions, i) == Delivered([], old(Stream()), actions, 0)
        invariant StreamAfter(Stream(), actions, i) == StreamAfter(old(Stream()), actions, 0)
      {
        match actions[i] {
          case Push(text) =>
            ok := WithMacroInput(text);
            if !ok {
              return;
            }
          case ReadKey =>
            var c := NextMacroKey();
            keys := keys + [c];
        }
        i := i + 1;
      }
      ok := true;
    }
  }

  /** Where keys are read from: macros first, then the ring of pushed-back input. */
  class KeyInput {
    const macros: Macros
    const ring: KeyRing

    ghost predicate Valid()
      reads this, macros, ring, ring.buffer
    {
      macros.Valid() && ring.Valid()
    }

    ghost function Pending(): (keys: seq<Byte>)
      requires Valid()
      reads this, macros, ring, ring.buffer
    {
      macros.Stream() + ring.contents
    }

    constructor (callbackMode: bool)
      ensures Valid() && fresh(macros) && fresh(ring) && fresh(ring.buffer) && Pending() == []
      ensures macros.callback == callbackMode && macros.Top() == Stack(None, Bottom) && macros.macroLevel == 0
    {
      macros := new Macros(callbackMode);
      ring := new KeyRing();
    }

    /** `rl_read_key` up to the terminal. */
    method ReadKey() returns (found: bool, key: Byte)
      requires Valid()
      modifies macros, ring`popIndex, ring`contents
      ensures Valid() && macros.Top() == Next(old(macros.Top()), macros.callback)
      ensures found == (old(Pending()) != []) && (!found ==> Pending() == [])
      ensures found ==> key == old(Pending())[0] && Pending() == old(Pending())[1..]
      ensures |macros.Stream()| == if old(macros.Stream()) == [] then 0 else |old(macros.Stream())| - 1
      ensures ring.contents ==
        if old(macros.Stream()) == [] && old(ring.contents) != [] then old(ring.contents)[1..] else old(ring.contents)
    {
      KeysNotZero(macros.executing, macros.saved);
      var c := macros.NextMacroKey();
      if c != 0 {
        return true, c;
      }
      found, key := ring.Get();
    }

    /** How dispatch puts back a key it could not use: one step back in the macro being read, if
        any, whatever the key, and otherwise at the front of the ring. */
    method PutBack(key: Byte)
      requires Valid()
      modifies macros`executing, ring`popIndex, ring`contents, ring.buffer
      ensures Valid() && macros.saved == old(macros.saved)
      ensures old(macros.executing).None? ==>
        && macros.executing.None?
        && ring.contents == if |old(ring.contents)| < LAST then [key] + old(ring.contents) else old(ring.contents)
      ensures old(macros.executing).Some? ==>
        var m := old(macros.executing).value;
        && ring.contents == old(ring.contents)
        && macros.executing == Some(Macro(m.text, if m.index == 0 then 0 else m.index - 1))
    {
      if macros.macroInput {
        var _ := macros.PrevMacroKey();
      } else {
        var _ := ring.Unget(key);
      }
    }

    method ReadSequence(n: nat) returns (keys: seq<Byte>)
      requires Valid() && n <= |Pending()|
      modifies macros, ring`popIndex, ring`contents
      ensures Valid() && keys == old(Pending())[..n] && Pending() == old(Pending())[n..]
      ensures macros.Top() == After(old(macros.Top()), n, macros.callback)
      ensures |ring.contents| == |old(ring.contents)| - Beyond(n, |old(macros.Stream())|)
    {
      keys := [];
      var i := 0;
      ghost var all, stack, s0, r0 := Pending(), macros.Top(), |macros.Stream()|, |ring.contents|;
      while i < n
        invariant 0 <= i <= n && Valid() && keys == all[..i] && Pending() == all[i..]
        invariant macros.Top() == After(stack, i, macros.callback)
        invariant |macros.Stream()| == (if i <= s0 then s0 - i else 0) && |ring.contents| == r0 - Beyond(i, s0)
      {
        AfterOneMore(stack, i, macros.callback);
        var found, key := ReadKey();
        OneMore(all, i);
        keys := keys + [key];
        i := i + 1;
      }
    }

    /** Put keys back, the last one first. */
    method PutBackAll(keys: seq<Byte>)
      requires Valid()
      modifies macros`executing, ring`popIndex, ring`contents, ring.buffer
      ensures Valid()
      ensures Pending() == keys + old(Pending()) <==> old(TakesBack(macros.executing, LAST - |ring.contents|, keys))
    {
      if macros.macroInput {
        StepBack(keys);
      } else {
        PushBack(keys);
      }
    }

    method StepBack(keys: seq<Byte>)
      requires Valid() && macros.executing.Some?
      modifies macros`executing, ring`popIndex, ring`contents, ring.buffer
      ensures Valid()
      ensures Pending() == keys + old(Pending()) <==> JustRead(old(macros.executing.value), keys)
    {
      ghost var m, below := macros.executing.value, Keys(macros.saved.macro, macros.saved.next);
      var i := |keys|;
      while i > 0
        invariant 0 <= i <= |keys| && Valid()
        invariant macros.saved == old(macros.saved) && ring.contents == old(ring.contents)
        invariant macros.executing == Some(Macro(m.text, StepsBack(m.index, |keys| - i)))
      {
        i := i - 1;
        PutBack(keys[i]);
      }
      Rewound(m, StepsBack(m.index, |keys|), below, ring.contents, keys);
    }

    method PushBack(keys: seq<Byte>)
      requires Valid() && macros.executing.None?
      modifies macros`executing, ring`popIndex, ring`contents, ring.buffer
      ensures Valid()
      ensures Pending() == keys + old(Pending()) <==> |keys| <= LAST - |old(ring.contents)|
    {
      ghost var room := LAST - |ring.contents|;
      var i := |keys|;
      ghost var t := 0;
      while i > 0
        invariant 0 <= i <= |keys| && Valid() && macros.executing.None? && macros.saved == old(macros.saved)
        invariant t == (if |keys| - i <= room then |keys| - i else room)
          && ring.contents == keys[|keys| - t..] + old(ring.contents)
      {
        i := i - 1;
        PutBack(keys[i]);
        if t < room {
          assert keys[|keys| - t - 1..] == [keys[i]] + keys[|keys| - t..];
          t := t + 1;
        }
      }
      if t == |keys| {
        assert keys[|keys| - t..] == keys;
      }
    }

    /** Reading `total` keys and putting back the last `n`, as dispatch does when the rest of a
        sequence matches nothing, leaves exactly those keys to be read again if and only if the
        macro then being read has just read them, or no macro is left and the ring has room. */
    method ReadAndPutBack(total: nat, n: nat)
      requires Valid() && n <= total <= |Pending()|
      modifies macros, ring`popIndex, ring`contents, ring.buffer
      ensures Valid()
      ensures Pending() == old(Pending())[total - n..] <==>
        old(TakesBack(Reader(macros.executing, macros.saved, total, macros.callback),
                      LAST - |ring.contents| + Beyond(total, |macros.Stream()|), Pending()[total - n..total]))
    {
      ghost var all := Pending();
      AfterIsReader(macros.Top(), total, macros.callback);
      var keys := ReadSequence(total);
      assert keys[total - n..] == all[total - n..total];
      assert all[total - n..total] + all[total..] == all[total - n..];
      PutBackAll(keys[total - n..]);
    }

    /** The state of the examples below: the macro A was started after the first key of the macro
        BC was read. */
    ghost predicate InsideAnother()
      requires Valid()
      reads this, macros, ring, ring.buffer
    {
      && macros.executing == Some(Macro([65], 0)) && ring.contents == []
      && macros.saved == Saver(Some(Macro([66, 67], 1)), Saver(None, Bottom))
    }

    /** In callback mode A is popped with its key, and putting that key back steps back in BC. */
    method PutBackInWrongMacro()
      requires Valid() && macros.callback && InsideAnother()
      modifies macros, ring`popIndex, ring`contents, ring.buffer
      ensures Valid() && old(Pending()) == [65, 67] && Pending() == [66, 67]
    {
      var _, key := ReadKey();
      PutBack(key);
    }

    /** Otherwise the same happens to a sequence that goes on into BC. */
    method SequencePutBackInWrongMacro()
      requires Valid() && !macros.callback && InsideAnother()
      modifies macros, ring`popIndex, ring`contents, ring.buffer
      ensures Valid() && old(Pending()) == [65, 67] && Pending() == [66, 67]
    {
      var _, first := ReadKey();
      var _, second := ReadKey();
      PutBack(second);
      PutBack(first);
    }
  }

  /** In either mode that state is reached by starting BC, reading a key and starting A. */
  method StartInsideAnother(callbackMode: bool) returns (input: KeyInput)
    ensures fresh(input) && input.Valid() && input.macros.callback == callbackMode && input.InsideAnother()
  {
    input := new KeyInput(callbackMode);
    var _ := input.macros.WithMacroInput([66, 67]);
    var _, _ := input.ReadKey();
    var _ := input.macros.WithMacroInput([65]);
  }
}
