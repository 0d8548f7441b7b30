/** The textual key notation of `bind.c`: the parser `rl_translate_keyseq` and the printer
    `_rl_untranslate_macro_value`. */
module KeyNotation {
  import opened Bytes

  const ESC: Byte := 27
  const RUBOUT: Byte := 127
  const BACKSLASH: Byte := 92
  const QUOTE: Byte := 34
  const DASH: Byte := 45

  predicate IsLower(c: Byte) { 97 <= c <= 122 }
  predicate IsUpper(c: Byte) { 65 <= c <= 90 }
  function ToUpper(c: Byte): (u: Byte) { if IsLower(c) then c - 32 else c }
  function ToLower(c: Byte): (l: Byte) { if IsUpper(c) then c + 32 else c }

  /** The low five bits, and the low eight (what an `unsigned char` keeps). */
  function Low5(x: nat): (y: Byte) { x % 32 }
  function Low8(x: nat): (y: Byte) { x % 256 }

  predicate IsOctal(c: Byte) { 48 <= c <= 55 }
  predicate IsHex(c: Byte) { 48 <= c <= 57 || 65 <= c <= 70 || 97 <= c <= 102 }

  function HexValue(c: Byte): (v: Byte)
    requires IsHex(c)
  {
    if c >= 97 then c - 87 else if c >= 65 then c - 55 else c - 48
  }

  /** At most `limit` leading digits of `s`, and how many were used. */
  function OctalDigits(s: seq<Byte>, c: Byte, limit: nat): (r: (Byte, nat))
    ensures r.1 <= |s| && r.1 <= limit
  {
    if limit == 0 || s == [] || !IsOctal(s[0]) then (c, 0)
    else
      var r := OctalDigits(s[1..], Low8(8 * c + (s[0] - 48)), limit - 1);
      (r.0, r.1 + 1)
  }

  function HexDigits(s: seq<Byte>, c: Byte, limit: nat): (r: (Byte, nat))
    ensures r.1 <= |s| && r.1 <= limit
  {
    if limit == 0 || s == [] || !IsHex(s[0]) then (c, 0)
    else
      var r := HexDigits(s[1..], Low8(16 * c + HexValue(s[0])), limit - 1);
      (r.0, r.1 + 1)
  }

  /** The character that the text after a backslash stands for, and its length. */
  function Escape(s: seq<Byte>): (r: (Byte, nat))
    requires s != []
    ensures 1 <= r.1 <= |s|
  {
    var c := s[0];
    if c == 97 then (7, 1)                        // \a
    else if c == 98 then (8, 1)                   // \b
    else if c == 100 then (RUBOUT, 1)             // \d
    else if c == 101 then (ESC, 1)                // \e
    else if c == 102 then (12, 1)                 // \f
    else if c == 110 then (10, 1)                 // \n
    else if c == 114 then (13, 1)                 // \r
    else if c == 116 then (9, 1)                  // \t
    else if c == 118 then (11, 1)                 // \v
    else if IsOctal(c) then
      var r := OctalDigits(s[1..], c - 48, 2);
      (r.0, r.1 + 1)
    else if c == 120 then                         // \x
      var r := HexDigits(s[1..], 0, 2);
      (if r.1 == 0 then 120 else r.0, r.1 + 1)
    else (c, 1)
  }

  /** The bytes stored for one character under pending `\C-` and `\M-` prefixes; with
      convert-meta on, a meta character becomes ESC and its low seven bits. */
  function Emit(c: Byte, control: bool, meta: bool, convertMeta: bool): (keys: seq<Byte>)
    ensures 1 <= |keys| <= 2
  {
    var c1 := if !control then c else if c == 63 then RUBOUT else Low5(ToUpper(c));
    var c2 := if meta && c1 < 128 then c1 + 128 else c1;
    if c2 >= 128 && convertMeta then [ESC, c2 - 128] else [c2]
  }

  /** A meta key is ESC and the same key without meta, or that key with its eighth bit set. */
  lemma MetaKey(c: Byte, control: bool)
    requires c < 128
    ensures Emit(c, control, true, true) == [ESC] + Emit(c, control, false, true)
    ensures Emit(c, control, true, false) == [Emit(c, control, false, false)[0] + 128]
    ensures Emit(c, control, false, true) == Emit(c, control, false, false)
  {
  }

  const C: Byte := 67
  const M: Byte := 77

  /** One item of written notation: a `\C-` or `\M-` prefix, or a character. */
  datatype Item = ControlPrefix | MetaPrefix | Plain(c: Byte)
  datatype Items = End | Next(item: Item, rest: Items)

  /** The item at position `i`, and its length.  A backslash at the very end is plain. */
  function ItemAt(s: seq<Byte>, i: nat): (r: (Item, nat))
    requires i < |s|
    ensures 1 <= r.1 && i + r.1 <= |s|
  {
    if s[i] == BACKSLASH && i + 1 < |s| then
      if s[i + 1] == C && i + 2 < |s| && s[i + 2] == DASH then (ControlPrefix, 3)
      else if s[i + 1] == M && i + 2 < |s| && s[i + 2] == DASH then (MetaPrefix, 3)
      else
        var e := Escape(s[i + 1..]);
        (Plain(e.0), 1 + e.1)
    else (Plain(s[i]), 1)
  }

  function ItemsFrom(s: seq<Byte>, i: nat): (items: Items)
    requires i <= |s|
    decreases |s| - i
  {
    if i == |s| then End
    else
      var r := ItemAt(s, i);
      Next(r.0, ItemsFrom(s, i + r.1))
  }

  /** The keys that items stand for, under pending prefixes.  A prefix with nothing after it
      applies to the terminating NUL. */
  function Compose(items: Items, control: bool, meta: bool, convertMeta: bool): (keys: seq<Byte>)
  {
    match items
    case End => if control || meta then Emit(0, control, meta, convertMeta) else []
    case Next(ControlPrefix, rest) => Compose(rest, true, meta, convertMeta)
    case Next(MetaPrefix, rest) => Compose(rest, control, true, convertMeta)
    case Next(Plain(c), rest) => Emit(c, control, meta, convertMeta) + Compose(rest, false, false, convertMeta)
  }

  /** What a key sequence written as `s` means. */
  function Translate(s: seq<Byte>, convertMeta: bool): (keys: seq<Byte>)
  {
    Compose(ItemsFrom(s, 0), false, false, convertMeta)
  }

  /** Every character written yields at most two keys, and some text always yields a key. */
  lemma {:induction false} ComposeLength(s: seq<Byte>, i: nat, control: bool, meta: bool, convertMeta: bool)
    requires i <= |s|
    ensures |Compose(ItemsFrom(s, i), control, meta, convertMeta)| <= 2 * (|s| - i) + (if control || meta then 2 else 0)
    ensures i < |s| || control || meta ==> Compose(ItemsFrom(s, i), control, meta, convertMeta) != []
    decreases |s| - i
  {
    if i < |s| {
      var (item, n) := ItemAt(s, i);
      match item {
        case ControlPrefix => ComposeLength(s, i + n, true, meta, convertMeta);
        case MetaPrefix => ComposeLength(s, i + n, control, true, convertMeta);
        case Plain(_) => ComposeLength(s, i + n, false, false, convertMeta);
      }
    }
  }

  /** `rl_translate_keyseq`. */
  method TranslateKeyseq(text: seq<Byte>, convertMeta: bool) returns (keys: seq<Byte>)
    ensures keys == Translate(text, convertMeta)
    ensures |keys| <= 2 * |text|
    ensures text != [] ==> keys != []
  {
    keys := ScanKeyseq(text, convertMeta);
    OntoIsAppend([], ItemsFrom(text, 0), false, false, convertMeta);
    ComposeLength(text, 0, false, false, convertMeta);
  }

  /** The scanning loop of `rl_translate_keyseq` with its pending-prefix flags. */
  method ScanKeyseq(text: seq<Byte>, convertMeta: bool) returns (keys: seq<Byte>)
    ensures keys == ComposeOnto([], ItemsFrom(text, 0), false, false, convertMeta)
  {
    keys := [];
    var i := 0;
    var hasControl, hasMeta := false, false;
    ghost var all := ComposeOnto([], ItemsFrom(text, 0), false, false, convertMeta);
    while i < |text| || hasControl || hasMeta
      invariant 0 <= i <= |text|
      invariant ComposeOnto(keys, ItemsFrom(text, i), hasControl, hasMeta, convertMeta) == all
      decreases |text| - i, hasControl || hasMeta
    {
      var c := 0;
      if i < |text| {
        var item, n := ReadItem(text, i);
        assert ItemsFrom(text, i) == Next(item, ItemsFrom(text, i + n));
        i := i + n;
        if item == ControlPrefix {
          hasControl := true;
          continue;
        } else if item == MetaPrefix {
          hasMeta := true;
          continue;
        }
        c := item.c;
      }
      keys := keys + Emit(c, hasControl, hasMeta, convertMeta);
      hasControl, hasMeta := false, false;
    }
  }

  /** The first part of the loop body: skip a prefix or read a possibly escaped character. */
  method ReadItem(text: seq<Byte>, start: nat) returns (item: Item, n: nat)
    requires start < |text|
    ensures (item, n) == ItemAt(text, start)
  {
    var i := start;
    var c := text[i];
    if c == BACKSLASH && i + 1 < |text| {
      i := i + 1;
      c := text[i];
      if c == C && i + 1 < |text| && text[i + 1] == DASH {
        return ControlPrefix, 3;
      } else if c == M && i + 1 < |text| && text[i + 1] == DASH {
        return MetaPrefix, 3;
      }
      var used;
      c, used := ReadEscape(text, i);
      return Plain(c), 1 + used;
    }
    return Plain(c), 1;
  }

  /** The parser's loop over items: `done` is what it has stored so far. */
  ghost function ComposeOnto(done: seq<Byte>, items: Items, control: bool, meta: bool, convertMeta: bool)
    : (keys: seq<Byte>)
    decreases items
  {
    match items
    case End => if control || meta then done + Emit(0, control, meta, convertMeta) else done
    case Next(ControlPrefix, rest) => ComposeOnto(done, rest, true, meta, convertMeta)
    case Next(MetaPrefix, rest) => ComposeOnto(done, rest, control, true, convertMeta)
    case Next(Plain(c), rest) =>
      ComposeOnto(done + Emit(c, control, meta, convertMeta), rest, false, false, convertMeta)
  }

  lemma {:induction false} OntoIsAppend(done: seq<Byte>, items: Items, control: bool, meta: bool, convertMeta: bool)
    ensures ComposeOnto(done, items, control, meta, convertMeta) == done + Compose(items, control, meta, convertMeta)
    decreases items
  {
    match items {
      case End => assert done + [] == done;
      case Next(ControlPrefix, rest) => OntoIsAppend(done, rest, true, meta, convertMeta);
      case Next(MetaPrefix, rest) => OntoIsAppend(done, rest, control, true, convertMeta);
      case Next(Plain(c), rest) =>
        var stored := Emit(c, control, meta, convertMeta);
        OntoIsAppend(done + stored, rest, false, false, convertMeta);
        Appended(done, stored, Compose(rest, false, false, convertMeta));
    }
  }

  lemma Appended(a: seq<Byte>, b: seq<Byte>, c: seq<Byte>)
    ensures (a + b) + c == a + (b + c)
  {
  }

  /** The items after position `i` are those of the rest of the text. */
  lemma {:induction false} ItemsShift(s: seq<Byte>, k: nat, i: nat)
    requires k + i <= |s|
    ensures ItemsFrom(s, k + i) == ItemsFrom(s[k..], i)
    decreases |s| - i
  {
    if k + i < |s| {
      var r := ItemAt(s, k + i);
      ItemShift(s, k, i);
      ItemsShift(s, k, i + r.1);
    }
  }

  lemma ItemShift(s: seq<Byte>, k: nat, i: nat)
    requires k + i < |s|
    ensures ItemAt(s[k..], i) == ItemAt(s, k + i)
  {
    if k + i + 1 < |s| {
      assert s[k..][i + 1..] == s[k + i + 1..];
    }
  }

  /** The escape switch of `rl_translate_keyseq`, with its two digit loops. */
  method ReadEscape(s: seq<Byte>, start: nat) returns (c: Byte, used: nat)
    requires start < |s|
    ensures (c, used) == Escape(s[start..])
  {
    c, used := s[start], 1;
    ghost var rest := s[start..];
    if c == 97 { c := 7; }
    else if c == 98 { c := 8; }
    else if c == 100 { c := RUBOUT; }
    else if c == 101 { c := ESC; }
    else if c == 102 { c := 12; }
    else if c == 110 { c := 10; }
    else if c == 114 { c := 13; }
    else if c == 116 { c := 9; }
    else if c == 118 { c := 11; }
    else if IsOctal(c) {
      c := c - 48;
      var temp := 2;
      assert s[start + 1..] == rest[1..];
      while start + used < |s| && IsOctal(s[start + used]) && temp > 0
        invariant 0 <= temp <= 2 && used == 3 - temp && start + used <= |s|
        invariant var r := OctalDigits(s[start + used..], c, temp);
                  OctalDigits(rest[1..], s[start] - 48, 2) == (r.0, r.1 + used - 1)
      {
        assert s[start + used..][1..] == s[start + used + 1..];
        c := Low8(8 * c + (s[start + used] - 48));
        used, temp := used + 1, temp - 1;
      }
    } else if c == 120 {
      c := 0;
      var temp := 2;
      assert s[start + 1..] == rest[1..];
      while start + used < |s| && IsHex(s[start + used]) && temp > 0
        invariant 0 <= temp <= 2 && used == 3 - temp && start + used <= |s|
        invariant var r := HexDigits(s[start + used..], c, temp);
                  HexDigits(rest[1..], 0, 2) == (r.0, r.1 + used - 1)
      {
        assert s[start + used..][1..] == s[start + used + 1..];
        c := Low8(16 * c + HexValue(s[start + used]));
        used, temp := used + 1, temp - 1;
      }
      if temp == 2 { c := 120; }
    }
  }

  /** A backslash with three octal digits, or `x` and two hexadecimal ones, that write the byte `c`. */
  predicate Numeric(text: seq<Byte>, c: Byte)
  {
    && |text| == 4 && text[0] == BACKSLASH
    && if text[1] == 120 then IsHex(text[2]) && IsHex(text[3]) && c == 16 * HexValue(text[2]) + HexValue(text[3])
       else
         && IsOctal(text[1]) && text[1] - 48 < 4 && IsOctal(text[2]) && IsOctal(text[3])
         && c == 64 * (text[1] - 48) + 8 * (text[2] - 48) + (text[3] - 48)
  }

  function HexDigit(v: Byte): (d: Byte)
    requires v < 16
    ensures IsHex(d) && HexValue(d) == v
  {
    if v < 10 then 48 + v else 87 + v
  }

  /** Every byte can be written in both ways. */
  lemma EveryByteIsNumeric(c: Byte)
    ensures Numeric([BACKSLASH, 48 + c / 8 / 8, 48 + c / 8 % 8, 48 + c % 8], c)
    ensures Numeric([BACKSLASH, 120, HexDigit(c / 16), HexDigit(c % 16)], c)
  {
    var q, h := c / 8, c / 16;
    assert c == 8 * q + c % 8 && q == 8 * (q / 8) + q % 8 && c == 16 * h + c % 16;
  }

  lemma NumericItem(text: seq<Byte>, c: Byte, rest: seq<Byte>)
    requires Numeric(text, c)
    ensures ItemAt(text + rest, 0) == (Plain(c), 4)
  {
    var s := text + rest;
    if text[1] == 120 {
      HexPair(s[2..], HexValue(s[2]), HexValue(s[3]));
      assert s[1..][1..] == s[2..];
    } else {
      OctalPair(s[2..], s[1] - 48, s[2] - 48, s[3] - 48);
      assert s[1..][1..] == s[2..];
    }
  }

  lemma HexPair(s: seq<Byte>, a: Byte, b: Byte)
    requires |s| >= 2 && IsHex(s[0]) && IsHex(s[1]) && HexValue(s[0]) == a && HexValue(s[1]) == b
    ensures HexDigits(s, 0, 2) == (16 * a + b, 2)
  {
    assert HexDigits(s[1..][1..], 16 * a + b, 0) == (16 * a + b, 0);
    assert HexDigits(s[1..], a, 1) == (16 * a + b, 1);
  }

  lemma Low8OfByte(x: nat)
    requires x < 256
    ensures Low8(x) == x
  {
  }

  lemma OctalPair(s: seq<Byte>, a: Byte, b: Byte, c: Byte)
    requires |s| >= 2 && IsOctal(s[0]) && IsOctal(s[1]) && s[0] - 48 == b && s[1] - 48 == c && 64 * a + 8 * b + c < 256
    ensures OctalDigits(s, a, 2) == (64 * a + 8 * b + c, 2)
  {
    var u, v := 8 * a + b, 64 * a + 8 * b + c;
    Low8OfByte(u);
    Low8OfByte(v);
    assert 8 * u + c == v;
    assert OctalDigits(s[1..][1..], v, 0) == (v, 0);
    assert OctalDigits(s[1..], u, 1) == (v, 1);
  }

  ghost function Joined(texts: seq<seq<Byte>>): (text: seq<Byte>)
  {
    if texts == [] then [] else texts[0] + Joined(texts[1..])
  }

  /** Bytes written by their numbers, each in either way, are translated to their own keys. */
  lemma {:induction false} NumericText(texts: seq<seq<Byte>>, s: seq<Byte>, convertMeta: bool)
    requires |texts| == |s| && forall k :: 0 <= k < |s| ==> Numeric(texts[k], s[k])
    ensures Translate(Joined(texts), convertMeta) == Stored(s, convertMeta)
  {
    if s != [] {
      var rest := Joined(texts[1..]);
      NumericText(texts[1..], s[1..], convertMeta);
      NumericItem(texts[0], s[0], rest);
      var text := texts[0] + rest;
      assert text[4..] == rest;
      ItemsShift(text, 4, 0);
    }
  }

  // ----- What written keys mean -----

  /** A backslash and `letter` write the byte `c`. */
  predicate EscapeOf(letter: Byte, c: Byte)
  {
    || (letter == 97 && c == 7)                                            // \a
    || (letter == 98 && c == 8)                                            // \b
    || (letter == 100 && c == 127)                                         // \d
    || (letter == 101 && c == 27)                                          // \e
    || (letter == 102 && c == 12)                                          // \f
    || (letter == 110 && c == 10)                                          // \n
    || (letter == 114 && c == 13)                                          // \r
    || (letter == 116 && c == 9)                                           // \t
    || (letter == 118 && c == 11)                                          // \v
    || (letter == c && (c == BACKSLASH || c == QUOTE || c == 39))
  }

  /** `text` writes the byte `c`: as itself, by an escape or by its number. */
  predicate Writes(text: seq<Byte>, c: Byte)
  {
    || (text == [c] && c != BACKSLASH)
    || (|text| == 2 && text[0] == BACKSLASH && EscapeOf(text[1], c))
    || Numeric(text, c)
  }

  /** `\C-` and `\M-`, neither, either or both, in any order. */
  predicate IsPrefix(text: seq<Byte>, control: bool, meta: bool)
  {
    || (text == [] && !control && !meta)
    || (text == [BACKSLASH, 67, DASH] && control && !meta)
    || (text == [BACKSLASH, 77, DASH] && !control && meta)
    || (text == [BACKSLASH, 67, DASH, BACKSLASH, 77, DASH] && control && meta)
    || (text == [BACKSLASH, 77, DASH, BACKSLASH, 67, DASH] && control && meta)
  }

  /** What a terminal sends for a key: Control leaves the low five bits, of `?` it makes DEL, and Meta
      sets the eighth bit or, with convert-meta, puts an ESC in front. */
  function Pressed(c: Byte, control: bool, meta: bool, convertMeta: bool): (keys: seq<Byte>)
  {
    var k := if !control then c else if c == 63 then 127 else c % 32;
    if !meta && k < 128 then [k] else if convertMeta then [27, k % 128] else [k % 128 + 128]
  }

  lemma WrittenItem(text: seq<Byte>, c: Byte, rest: seq<Byte>)
    requires Writes(text, c)
    ensures ItemsFrom(text + rest, 0) == Next(Plain(c), ItemsFrom(rest, 0))
  {
    var s := text + rest;
    if Numeric(text, c) {
      NumericItem(text, c, rest);
    }
    assert ItemAt(s, 0) == (Plain(c), |text|);
    assert s[|text|..] == rest;
    ItemsShift(s, |text|, 0);
  }

  lemma PrefixItem(letter: Byte, rest: seq<Byte>)
    requires letter == 67 || letter == 77
    ensures ItemsFrom([BACKSLASH, letter, DASH] + rest, 0) ==
            Next(if letter == 67 then ControlPrefix else MetaPrefix, ItemsFrom(rest, 0))
  {
    var s := [BACKSLASH, letter, DASH] + rest;
    assert s[3..] == rest;
    ItemsShift(s, 3, 0);
  }

  lemma PrefixItems(prefix: seq<Byte>, control: bool, meta: bool, rest: seq<Byte>, convertMeta: bool)
    requires IsPrefix(prefix, control, meta)
    ensures Translate(prefix + rest, convertMeta) == Compose(ItemsFrom(rest, 0), control, meta, convertMeta)
  {
    if |prefix| == 0 {
      assert prefix + rest == rest;
    } else if |prefix| == 3 {
      PrefixItem(prefix[1], rest);
      assert prefix == [BACKSLASH, prefix[1], DASH];
    } else {
      var inner := [BACKSLASH, prefix[4], DASH] + rest;
      PrefixItem(prefix[4], rest);
      PrefixItem(prefix[1], inner);
      assert Compose(ItemsFrom(inner, 0), prefix[1] == 67, prefix[1] == 77, convertMeta) ==
             Compose(ItemsFrom(rest, 0), true, true, convertMeta);
      assert prefix + rest == [BACKSLASH, prefix[1], DASH] + ([BACKSLASH, prefix[4], DASH] + rest);
    }
  }

  lemma EmitIsPressed(c: Byte, control: bool, meta: bool, convertMeta: bool)
    ensures Emit(c, control, meta, convertMeta) == Pressed(c, control, meta, convertMeta)
  {
    if IsLower(c) {
      assert Low5(c - 32) == c % 32;
    }
  }

  /** A written key, with its prefixes, is what a terminal sends for it, whatever is written after it. */
  lemma WrittenKey(prefix: seq<Byte>, text: seq<Byte>, c: Byte, control: bool, meta: bool,
                   rest: seq<Byte>, convertMeta: bool)
    requires IsPrefix(prefix, control, meta) && Writes(text, c)
    ensures Translate(prefix + (text + rest), convertMeta) ==
            Pressed(c, control, meta, convertMeta) + Translate(rest, convertMeta)
  {
    PrefixItems(prefix, control, meta, text + rest, convertMeta);
    WrittenItem(text, c, rest);
    EmitIsPressed(c, control, meta, convertMeta);
  }

  /** A key as it is written. */
  datatype Stroke = Stroke(prefix: seq<Byte>, text: seq<Byte>, c: Byte, control: bool, meta: bool)

  predicate IsStroke(k: Stroke)
  {
    IsPrefix(k.prefix, k.control, k.meta) && Writes(k.text, k.c)
  }

  function StrokeText(strokes: seq<Stroke>): (text: seq<Byte>)
  {
    if strokes == [] then [] else strokes[0].prefix + (strokes[0].text + StrokeText(strokes[1..]))
  }

  function StrokeKeys(strokes: seq<Stroke>, convertMeta: bool): (keys: seq<Byte>)
  {
    if strokes == [] then []
    else
      var k := strokes[0];
      Pressed(k.c, k.control, k.meta, convertMeta) + StrokeKeys(strokes[1..], convertMeta)
  }

  /** A written sequence of keys is what a terminal sends for them. */
  lemma {:induction false} WrittenKeys(strokes: seq<Stroke>, convertMeta: bool)
    requires forall i :: 0 <= i < |strokes| ==> IsStroke(strokes[i])
    ensures Translate(StrokeText(strokes), convertMeta) == StrokeKeys(strokes, convertMeta)
  {
    if strokes != [] {
      var k := strokes[0];
      WrittenKeys(strokes[1..], convertMeta);
      WrittenKey(k.prefix, k.text, k.c, k.control, k.meta, StrokeText(strokes[1..]), convertMeta);
    }
  }

  /** In particular, Meta, Control and both with a seven-bit character `c`. */
  lemma PrefixedCharacter(c: Byte)
    requires c < 128 && c != BACKSLASH
    ensures Translate([92, 77, 45, c], true) == [27, c] && Translate([92, 77, 45, c], false) == [c + 128]
    ensures forall m :: Translate([92, 67, 45, c], m) == [if c == 63 then 127 else c % 32]
    ensures var k := if c == 63 then 127 else c % 32;
            && Translate([92, 67, 45, 92, 77, 45, c], true) == [27, k]
            && Translate([92, 77, 45, 92, 67, 45, c], true) == [27, k]
            && Translate([92, 67, 45, 92, 77, 45, c], false) == [k + 128]
            && Translate([92, 77, 45, 92, 67, 45, c], false) == [k + 128]
  {
    forall m
      ensures Translate([92, 67, 45, c], m) == [if c == 63 then 127 else c % 32]
      ensures Translate([92, 77, 45, c], m) == Pressed(c, false, true, m)
      ensures Translate([92, 67, 45, 92, 77, 45, c], m) == Pressed(c, true, true, m)
      ensures Translate([92, 77, 45, 92, 67, 45, c], m) == Pressed(c, true, true, m)
    {
      AloneWithPrefix([92, 67, 45], c, true, false, m, [92, 67, 45, c]);
      AloneWithPrefix([92, 77, 45], c, false, true, m, [92, 77, 45, c]);
      AloneWithPrefix([92, 67, 45, 92, 77, 45], c, true, true, m, [92, 67, 45, 92, 77, 45, c]);
      AloneWithPrefix([92, 77, 45, 92, 67, 45], c, true, true, m, [92, 77, 45, 92, 67, 45, c]);
    }
  }

  /** The escapes alone, prefixes with nothing after them, and a backslash at the end. */
  lemma EscapesAlone(letter: Byte, c: Byte, convertMeta: bool)
    requires EscapeOf(letter, c)
    ensures Translate([92, letter], convertMeta) == [c]
    ensures Translate([92, 67, 45], convertMeta) == [0] && Translate([92], convertMeta) == [92]
    ensures Translate([92, 77, 45], convertMeta) == if convertMeta then [27, 0] else [128]
  {
    WrittenKey([], [92, letter], c, false, false, [], convertMeta);
    assert [] + ([92, letter] + []) == [92, letter];
    assert ItemsFrom([], 0) == End;
    PrefixItem(67, []);
    PrefixItem(77, []);
    assert [92, 67, 45] + [] == [92, 67, 45] && [92, 77, 45] + [] == [92, 77, 45];
    assert ItemAt([92], 0) == (Plain(92), 1);
    assert ItemsFrom([92], 1) == End;
  }

  lemma AloneWithPrefix(prefix: seq<Byte>, c: Byte, control: bool, meta: bool, convertMeta: bool,
                        text: seq<Byte>)
    requires IsPrefix(prefix, control, meta) && c != BACKSLASH && text == prefix + [c]
    ensures Translate(text, convertMeta) == Pressed(c, control, meta, convertMeta)
  {
    WrittenKey(prefix, [c], c, control, meta, [], convertMeta);
    assert [c] + [] == [c];
    assert Translate([], convertMeta) == [];
  }

  /** `_rl_isescape` and `_rl_escchar`: the control characters with a letter of their own. */
  function EscapeLetter(c: Byte): (letter: Byte)
  {
    if c == 7 then 97 else if c == 8 then 98 else if c == 12 then 102 else if c == 10 then 110
    else if c == 13 then 114 else if c == 9 then 116 else if c == 11 then 118 else 0
  }

  /** How one byte is printed.  Characters are signed, so bytes from 128 up are negative, match
      none of the special cases and are printed as they are. */
  function Shown(c: Byte, useEscapes: bool): (text: seq<Byte>)
    ensures 1 <= |text| <= 7
  {
    if c >= 128 then [c]
    else if c == ESC then [BACKSLASH, 101]
    else if c < 32 && useEscapes && EscapeLetter(c) != 0 then [BACKSLASH, EscapeLetter(c)]
    else if c < 32 then
      var u := ToLower(ToUpper(c + 64));
      if u == BACKSLASH then [BACKSLASH, C, DASH, BACKSLASH, u] else [BACKSLASH, C, DASH, u]
    else if c == RUBOUT then [BACKSLASH, C, DASH, 63]
    else if c == BACKSLASH || c == QUOTE then [BACKSLASH, c]
    else [c]
  }

  function Untranslate(s: seq<Byte>, useEscapes: bool): (text: seq<Byte>)
    ensures |text| <= 7 * |s|
  {
    if s == [] then [] else Shown(s[0], useEscapes) + Untranslate(s[1..], useEscapes)
  }

  /** Printable text without quotes and backslashes is printed as it is. */
  lemma {:induction false} PrintableAsIs(s: seq<Byte>, useEscapes: bool)
    requires forall i :: 0 <= i < |s| ==> 32 <= s[i] < 127 && s[i] != 34 && s[i] != 92
    ensures Untranslate(s, useEscapes) == s
  {
    if s != [] {
      PrintableAsIs(s[1..], useEscapes);
      assert s == [s[0]] + s[1..];
    }
  }

  /** Control characters are printed as `\C-` and a lower-case letter, or by an escape if wanted, ESC and
      DEL always as `\e` and `\C-?`. */
  lemma ControlsPrinted(c: Byte, letter: Byte)
    ensures 1 <= c <= 26 ==> Untranslate([c], false) == [92, 67, 45, c + 96]
    ensures 7 <= c <= 13 && EscapeOf(letter, c) ==> Untranslate([c], true) == [92, letter]
    ensures c == 27 ==> forall e :: Untranslate([c], e) == [92, 101]
    ensures c == 127 ==> forall e :: Untranslate([c], e) == [92, 67, 45, 63]
  {
    assert forall e :: Untranslate([c][1..], e) == [];
    assert forall e :: Untranslate([c], e) == Shown(c, e) + [] == Shown(c, e);
  }

  lemma {:induction false} UntranslateOneMore(s: seq<Byte>, c: Byte, useEscapes: bool)
    ensures Untranslate(s + [c], useEscapes) == Untranslate(s, useEscapes) + Shown(c, useEscapes)
  {
    if s == [] {
      assert Shown(c, useEscapes) + [] == Shown(c, useEscapes);
    } else {
      assert (s + [c])[1..] == s[1..] + [c];
      UntranslateOneMore(s[1..], c, useEscapes);
      Appended(Shown(s[0], useEscapes), Untranslate(s[1..], useEscapes), Shown(c, useEscapes));
    }
  }

  /** `_rl_untranslate_macro_value`: fill the output buffer, which never needs more than the
      seven bytes per character set aside for it. */
  method UntranslateMacroValue(s: seq<Byte>, useEscapes: bool) returns (text: seq<Byte>)
    ensures text == Untranslate(s, useEscapes)
    ensures |text| <= 7 * |s|
  {
    text := [];
    var i := 0;
    while i < |s|
      invariant 0 <= i <= |s|
      invariant text == Untranslate(s[..i], useEscapes)
    {
      var piece := ShowByte(s[i], useEscapes);
      text := text + piece;
      UntranslateOneMore(s[..i], s[i], useEscapes);
      assert s[..i] + [s[i]] == s[..i + 1];
      i := i + 1;
    }
    assert s[..i] == s;
  }

  /** The loop body of `_rl_untranslate_macro_value`. */
  method ShowByte(byte: Byte, useEscapes: bool) returns (piece: seq<Byte>)
    ensures piece == Shown(byte, useEscapes)
  {
    var c := byte;
    piece := [];
    if c >= 128 {
    } else if c == ESC {
      piece := [BACKSLASH];
      c := 101;
    } else if c < 32 {
      piece := [BACKSLASH];
      if useEscapes && EscapeLetter(c) != 0 {
        c := EscapeLetter(c);
      } else {
        piece := piece + [C, DASH];
        c := ToLower(ToUpper(c + 64));
      }
    } else if c == RUBOUT {
      piece := [BACKSLASH, C, DASH];
      c := 63;
    }
    if c == BACKSLASH || c == QUOTE {
      piece := piece + [BACKSLASH];
    }
    piece := piece + [c];
  }

  /** The items that one printed byte reads back as. */
  ghost function ItemsOf(c: Byte, useEscapes: bool, rest: Items): (items: Items)
  {
    if |Shown(c, useEscapes)| <= 2 then Next(Plain(c), rest)
    else Next(ControlPrefix, Next(Plain(if c == RUBOUT then 63 else ToLower(ToUpper(c + 64))), rest))
  }

  /** Reading back one printed byte consumes exactly its text. */
  lemma ReadBackItems(c: Byte, rest: seq<Byte>, useEscapes: bool)
    requires c != 0
    ensures ItemsFrom(Shown(c, useEscapes) + rest, 0) == ItemsOf(c, useEscapes, ItemsFrom(rest, 0))
  {
    if |Shown(c, useEscapes)| <= 2 {
      ReadBackPlain(c, rest, useEscapes);
    } else {
      ReadBackControl(c, rest, useEscapes);
    }
  }

  lemma ReadBackPlain(c: Byte, rest: seq<Byte>, useEscapes: bool)
    requires c != 0 && |Shown(c, useEscapes)| <= 2
    ensures ItemsFrom(Shown(c, useEscapes) + rest, 0) == ItemsOf(c, useEscapes, ItemsFrom(rest, 0))
  {
    var n := |Shown(c, useEscapes)|;
    var s := Shown(c, useEscapes) + rest;
    assert s[n..] == rest;
    ItemsShift(s, n, 0);
    assert ItemAt(s, 0) == (Plain(c), n);
  }

  lemma ReadBackControl(c: Byte, rest: seq<Byte>, useEscapes: bool)
    requires c != 0 && |Shown(c, useEscapes)| > 2
    ensures ItemsFrom(Shown(c, useEscapes) + rest, 0) == ItemsOf(c, useEscapes, ItemsFrom(rest, 0))
  {
    var n := |Shown(c, useEscapes)|;
    var s := Shown(c, useEscapes) + rest;
    assert s[n..] == rest;
    ItemsShift(s, n, 0);
    assert ItemAt(s, 0) == (ControlPrefix, 3);
    assert ItemAt(s, 3) == (Plain(if c == RUBOUT then 63 else ToLower(ToUpper(c + 64))), n - 3);
  }

  lemma ReadBackKeys(c: Byte, useEscapes: bool, rest: Items, convertMeta: bool)
    requires c != 0
    ensures Compose(ItemsOf(c, useEscapes, rest), false, false, convertMeta)
         == Emit(c, false, false, convertMeta) + Compose(rest, false, false, convertMeta)
  {
    if |Shown(c, useEscapes)| > 2 && c != RUBOUT {
      assert Low5(c + 64) == Low5(c + 32) == Low5(c);
    }
  }

  predicate SevenBit(s: seq<Byte>)
  {
    forall i :: 0 <= i < |s| ==> s[i] < 128
  }

  /** The keys that plain bytes are stored as. */
  ghost function Stored(s: seq<Byte>, convertMeta: bool): (keys: seq<Byte>)
  {
    if s == [] then [] else Emit(s[0], false, false, convertMeta) + Stored(s[1..], convertMeta)
  }

  lemma {:induction false} ReadBack(s: seq<Byte>, useEscapes: bool, convertMeta: bool)
    requires 0 !in s
    ensures Translate(Untranslate(s, useEscapes), convertMeta) == Stored(s, convertMeta)
  {
    if s != [] {
      var rest := Untranslate(s[1..], useEscapes);
      ReadBack(s[1..], useEscapes, convertMeta);
      ReadBackItems(s[0], rest, useEscapes);
      ReadBackKeys(s[0], useEscapes, ItemsFrom(rest, 0), convertMeta);
    }
  }

  lemma {:induction false} StoredUnchanged(s: seq<Byte>, convertMeta: bool)
    ensures |Stored(s, convertMeta)| >= |s|
    ensures Stored(s, convertMeta) == s <==> (convertMeta ==> SevenBit(s))
  {
    if s != [] {
      StoredUnchanged(s[1..], convertMeta);
      if s[0] < 128 || !convertMeta {
        SameHead(s[0], Stored(s[1..], convertMeta), s[1..]);
        assert s == [s[0]] + s[1..];
        if s[0] < 128 {
          SevenBitTail(s);
        }
      }
    }
  }

  /** Parsing a printed macro gives back its bytes exactly when convert-meta leaves those bytes
      alone; otherwise each eight-bit byte comes back as two keys. */
  lemma RoundTrip(s: seq<Byte>, useEscapes: bool, convertMeta: bool)
    requires 0 !in s
    ensures Translate(Untranslate(s, useEscapes), convertMeta) == s <==> (convertMeta ==> SevenBit(s))
  {
    ReadBack(s, useEscapes, convertMeta);
    StoredUnchanged(s, convertMeta);
  }

  lemma SameHead(x: Byte, a: seq<Byte>, b: seq<Byte>)
    ensures [x] + a == [x] + b <==> a == b
  {
    assert ([x] + a)[1..] == a && ([x] + b)[1..] == b;
  }

  lemma SevenBitTail(s: seq<Byte>)
    requires s != [] && s[0] < 128
    ensures SevenBit(s) <==> SevenBit(s[1..])
  {
    if SevenBit(s[1..]) {
      forall i | 0 <= i < |s| ensures s[i] < 128 { if i > 0 { assert s[1..][i - 1] == s[i]; } }
    }
  }
}
