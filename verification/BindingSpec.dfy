/** How changing one keymap entry changes what key sequences mean, in a store whose keymaps form
    a tree: each keymap is reached by one key sequence only, its address. */
module BindingSpec {
  import opened Bytes
  import opened Keymaps

  type Paths = map<Address, seq<Byte>>

  ghost predicate TreeMap(st: Store, paths: Paths, m: Address)
    requires m in st && WellFormedMap(st, m)
  {
    m in paths &&
    forall k: Byte :: st[m][k].Submap? ==>
      st[m][k].target in paths && paths[st[m][k].target] == paths[m] + [k]
  }

  ghost predicate TreeShaped(st: Store, paths: Paths)
  {
    WellFormed(st) && forall m :: m in st ==> WellFormedMap(st, m) && TreeMap(st, paths, m)
  }

  /** The keymap reached from `m` by `p`, when every key of `p` leads to a submap. */
  ghost predicate Reaches(st: Store, m: Address, p: seq<Byte>, a: Address)
    requires WellFormed(st) && m in st
    decreases |p|
  {
    assert WellFormedMap(st, m);
    if p == [] then a == m
    else st[m][p[0]].Submap? && Reaches(st, st[m][p[0]].target, p[1..], a)
  }

  /** What the rest `t` of a key sequence means once it has led to entry `e`. */
  ghost function Follow(st: Store, e: Entry, t: seq<Byte>): (r: Entry)
    requires WellFormed(st) && (e.Submap? ==> e.target in st)
  {
    if e.Submap? then Meaning(st, e.target, t) else if t == [] then e else Unbound
  }

  /** `st'` is `st` with entry `k` of keymap `x` changed, and perhaps new keymaps added. */
  ghost predicate ChangedAt(st: Store, st': Store, x: Address, k: Slot)
  {
    && WellFormed(st) && WellFormed(st') && x in st
    && forall m :: m in st ==>
      m in st' && WellFormedMap(st, m) && WellFormedMap(st', m) && SameExcept(st[m], st'[m], m == x, k)
  }

  ghost predicate SameExcept(a: Keymap, b: Keymap, mayDiffer: bool, k: Slot)
    requires |a| == KEYMAP_SIZE && |b| == KEYMAP_SIZE
  {
    forall j: Slot :: !(mayDiffer && j == k) ==> a[j] == b[j]
  }

  /** Key sequences that do not pass through the changed entry keep their meaning. */
  lemma {:induction false} Unaffected(st: Store, st': Store, paths: Paths, x: Address, k: Byte, m: Address,
                                      s: seq<Byte>)
    requires TreeShaped(st, paths) && ChangedAt(st, st', x, k) && m in st
    requires !(paths[x] + [k] <= paths[m] + s)
    ensures Meaning(st', m, s) == Meaning(st, m, s)
    decreases |s|
  {
    assert WellFormedMap(st, m) && TreeMap(st, paths, m) && SameExcept(st[m], st'[m], m == x, k);
    if s != [] {
      assert (paths[m] + s)[|paths[m]|] == s[0];
      if m == x {
        assert s[0] != k;
      }
      if st[m][s[0]].Submap? {
        assert paths[m] + s == paths[m] + [s[0]] + s[1..];
        Unaffected(st, st', paths, x, k, st[m][s[0]].target, s[1..]);
      }
    }
  }

  /** The way to the changed keymap, or to one no deeper, is not affected. */
  lemma {:induction false} StillReaches(st: Store, st': Store, paths: Paths, x: Address, k: Slot,
                                        m: Address, p: seq<Byte>, a: Address)
    requires TreeShaped(st, paths) && ChangedAt(st, st', x, k) && m in st
    requires Reaches(st, m, p, a) && |paths[m]| + |p| <= |paths[x]|
    ensures Reaches(st', m, p, a)
    decreases |p|
  {
    assert WellFormedMap(st, m) && TreeMap(st, paths, m) && SameExcept(st[m], st'[m], m == x, k);
    if p != [] {
      StillReaches(st, st', paths, x, k, st[m][p[0]].target, p[1..], a);
    }
  }

  lemma {:induction false} MeaningVia(st: Store, m: Address, p: seq<Byte>, a: Address, t: seq<Byte>)
    requires WellFormed(st) && m in st && a in st && Reaches(st, m, p, a)
    ensures Meaning(st, m, p + t) == Meaning(st, a, t)
    decreases |p|
  {
    assert WellFormedMap(st, m);
    if p == [] {
      assert p + t == t;
    } else {
      assert (p + t)[1..] == p[1..] + t;
      MeaningVia(st, st[m][p[0]].target, p[1..], a, t);
    }
  }

  /** Key sequences through the changed entry mean what the new entry says. */
  lemma Through(st: Store, m: Address, p: seq<Byte>, a: Address, k: Byte, t: seq<Byte>)
    requires WellFormed(st) && m in st && a in st && Reaches(st, m, p, a) && WellFormedMap(st, a)
    ensures Meaning(st, m, p + [k] + t) == Follow(st, st[a][k], t)
  {
    MeaningVia(st, m, p, a, [k] + t);
    assert p + [k] + t == p + ([k] + t);
    assert ([k] + t)[1..] == t;
  }

  /** Changing an entry at keymap `x`, seen from the root. */
  lemma Changed(st: Store, st': Store, paths: Paths, root: Address, x: Address, k: Byte, s: seq<Byte>)
    requires TreeShaped(st, paths) && ChangedAt(st, st', x, k)
    requires root in st && paths[root] == [] && Reaches(st, root, paths[x], x)
    requires WellFormedMap(st, x) && WellFormedMap(st', x)
    ensures if paths[x] + [k] <= s then
              var t := s[|paths[x]| + 1..];
              && Meaning(st, root, s) == Follow(st, st[x][k], t)
              && Meaning(st', root, s) == Follow(st', st'[x][k], t)
            else Meaning(st', root, s) == Meaning(st, root, s)
  {
    var p := paths[x];
    assert [] + s == s;
    if p + [k] <= s {
      var t := s[|p| + 1..];
      assert s == p + [k] + t;
      Through(st, root, p, x, k, t);
      StillReaches(st, st', paths, x, k, root, p, x);
      Through(st', root, p, x, k, t);
    } else {
      Unaffected(st, st', paths, x, k, root, s);
    }
  }

  lemma {:induction false} UnaffectedByHidden(st: Store, st': Store, paths: Paths, x: Address, m: Address, s: seq<Byte>)
    requires TreeShaped(st, paths) && ChangedAt(st, st', x, ANYOTHERKEY) && m in st
    requires paths[m] + s != paths[x]
    ensures Meaning(st', m, s) == Meaning(st, m, s)
    decreases |s|
  {
    assert WellFormedMap(st, m) && TreeMap(st, paths, m) && SameExcept(st[m], st'[m], m == x, ANYOTHERKEY);
    if s == [] {
      assert paths[m] + s == paths[m];
    } else if st[m][s[0]].Submap? {
      assert paths[m] + s == paths[m] + [s[0]] + s[1..];
      UnaffectedByHidden(st, st', paths, x, st[m][s[0]].target, s[1..]);
    }
  }

  /** Changing what keymap `x` hides changes the meaning of its own address only. */
  lemma HiddenChanged(st: Store, st': Store, paths: Paths, root: Address, x: Address, s: seq<Byte>)
    requires TreeShaped(st, paths) && ChangedAt(st, st', x, ANYOTHERKEY)
    requires root in st && paths[root] == [] && Reaches(st, root, paths[x], x) && WellFormedMap(st', x)
    ensures Meaning(st', root, s) == if s == paths[x] then st'[x][ANYOTHERKEY] else Meaning(st, root, s)
  {
    assert [] + s == s;
    if s == paths[x] {
      StillReaches(st, st', paths, x, ANYOTHERKEY, root, s, x);
      MeaningVia(st', root, s, x, []);
      assert s + [] == s;
    } else {
      UnaffectedByHidden(st, st', paths, x, root, s);
    }
  }

  /** The binding a new submap keeps when it takes the place of entry `e`. */
  function Kept(e: Entry): (hidden: Entry)
  {
    if e.Macro? || (e.Func? && e.command != LowercaseVersion) then e else Unbound
  }

  /** `rl_make_bare_keymap`, with the hidden binding filled in. */
  function Bare(hidden: Entry): (m: Keymap)
    ensures |m| == KEYMAP_SIZE && m[ANYOTHERKEY] == hidden
    ensures forall k: Byte :: m[k] == Unbound
  {
    seq(KEYMAP_SIZE, i => Unbound)[ANYOTHERKEY := hidden]
  }

  /** Store `st` with entry `k` of keymap `x` set to `e`. */
  function Put(st: Store, x: Address, k: Slot, e: Entry): (st': Store)
    requires x in st && |st[x]| == KEYMAP_SIZE
  {
    st[x := st[x][k := e]]
  }

  lemma PutShape(st: Store, paths: Paths, x: Address, k: Slot, e: Entry)
    requires TreeShaped(st, paths) && x in st && !e.Submap?
    ensures WellFormedMap(st, x)
    ensures TreeShaped(Put(st, x, k, e), paths) && ChangedAt(st, Put(st, x, k, e), x, k)
  {
    assert WellFormedMap(st, x) && TreeMap(st, paths, x);
    var st' := Put(st, x, k, e);
    forall m | m in st'
      ensures WellFormedMap(st', m) && TreeMap(st', paths, m) && SameExcept(st[m], st'[m], m == x, k)
    {
      assert WellFormedMap(st, m) && TreeMap(st, paths, m);
    }
  }

  /** Binding a key that leads to no submap changes the meaning of its own sequence only. */
  lemma LeafSet(st: Store, paths: Paths, root: Address, x: Address, k: Byte, e: Entry, s: seq<Byte>)
    requires TreeShaped(st, paths) && root in st && paths[root] == [] && x in st && Reaches(st, root, paths[x], x)
    requires WellFormedMap(st, x) && !st[x][k].Submap? && !e.Submap?
    ensures TreeShaped(Put(st, x, k, e), paths)
    ensures Meaning(Put(st, x, k, e), root, s) == if s == paths[x] + [k] then e else Meaning(st, root, s)
  {
    PutShape(st, paths, x, k, e);
    Changed(st, Put(st, x, k, e), paths, root, x, k, s);
  }

  /** Binding the sequence that leads to submap `x` sets what `x` hides. */
  lemma HiddenSet(st: Store, paths: Paths, root: Address, x: Address, e: Entry, s: seq<Byte>)
    requires TreeShaped(st, paths) && root in st && paths[root] == [] && x in st && Reaches(st, root, paths[x], x)
    requires WellFormedMap(st, x) && !e.Submap?
    ensures TreeShaped(Put(st, x, ANYOTHERKEY, e), paths)
    ensures Meaning(Put(st, x, ANYOTHERKEY, e), root, s) == if s == paths[x] then e else Meaning(st, root, s)
  {
    PutShape(st, paths, x, ANYOTHERKEY, e);
    HiddenChanged(st, Put(st, x, ANYOTHERKEY, e), paths, root, x, s);
  }

  /** Folding a submap that binds no key back into the entry it hides changes no meaning. */
  lemma Collapse(st: Store, paths: Paths, root: Address, x: Address, k: Byte, s: seq<Byte>)
    requires TreeShaped(st, paths) && root in st && paths[root] == [] && x in st && Reaches(st, root, paths[x], x)
    requires WellFormedMap(st, x) && st[x][k].Submap?
    requires var b := st[x][k].target;
             WellFormedMap(st, b) && forall j: Byte :: st[b][j] == Unbound
    ensures var e := st[st[x][k].target][ANYOTHERKEY];
            TreeShaped(Put(st, x, k, e), paths) && Meaning(Put(st, x, k, e), root, s) == Meaning(st, root, s)
  {
    var e := st[st[x][k].target][ANYOTHERKEY];
    PutShape(st, paths, x, k, e);
    Changed(st, Put(st, x, k, e), paths, root, x, k, s);
  }

  /** Store `st` with a new submap `added` in place of entry `k` of keymap `x`. */
  function Grown(st: Store, x: Address, k: Byte, added: Address): (st': Store)
    requires x in st && |st[x]| == KEYMAP_SIZE
  {
    st[added := Bare(Kept(st[x][k]))][x := st[x][k := Submap(added)]]
  }

  lemma GrownShape(st: Store, paths: Paths, x: Address, k: Byte, added: Address)
    requires TreeShaped(st, paths) && x in st && WellFormedMap(st, x) && !st[x][k].Submap? && added !in st
    ensures var st', paths' := Grown(st, x, k, added), paths[added := paths[x] + [k]];
            TreeShaped(st', paths') && ChangedAt(st, st', x, k)
  {
    var st', paths' := Grown(st, x, k, added), paths[added := paths[x] + [k]];
    forall m | m in st'
      ensures WellFormedMap(st', m) && TreeMap(st', paths', m)
      ensures m in st ==> WellFormedMap(st, m) && SameExcept(st[m], st'[m], m == x, k)
    {
      if m in st {
        assert WellFormedMap(st, m) && TreeMap(st, paths, m);
      }
    }
  }

  /** Making room for a longer sequence: only the key sequence whose entry becomes a submap is
      touched, and it loses its binding exactly when that is "do the lowercase version". */
  lemma RoomMade(st: Store, paths: Paths, root: Address, x: Address, k: Byte, added: Address, s: seq<Byte>)
    requires TreeShaped(st, paths) && root in st && paths[root] == [] && x in st && Reaches(st, root, paths[x], x)
    requires WellFormedMap(st, x) && !st[x][k].Submap? && added !in st
    ensures var st', paths' := Grown(st, x, k, added), paths[added := paths[x] + [k]];
            && TreeShaped(st', paths') && paths'[root] == []
            && Reaches(st', root, paths'[added], added)
            && Meaning(st', root, s) == if s == paths[x] + [k] then Kept(st[x][k]) else Meaning(st, root, s)
  {
    GrownShape(st, paths, x, k, added);
    var st' := Grown(st, x, k, added);
    Changed(st, st', paths, root, x, k, s);
    StillReaches(st, st', paths, x, k, root, paths[x], x);
    ReachesOneMore(st', root, paths[x], x, k);
    assert WellFormedMap(st', added);
  }

  lemma {:induction false} ReachesOneMore(st: Store, m: Address, p: seq<Byte>, a: Address, k: Byte)
    requires WellFormed(st) && m in st && a in st && Reaches(st, m, p, a) && WellFormedMap(st, a) && st[a][k].Submap?
    ensures Reaches(st, m, p + [k], st[a][k].target)
    decreases |p|
  {
    assert WellFormedMap(st, m);
    if p == [] {
      assert (p + [k])[1..] == [];
    } else {
      assert (p + [k])[1..] == p[1..] + [k];
      ReachesOneMore(st, st[m][p[0]].target, p[1..], a, k);
    }
  }
}
