/** Binding and looking up key sequences (`bind.c`), over keymaps updated in place. */
module Binding {
  import opened Bytes
  import opened Keymaps
  import opened BindingSpec
  import KeyNotation

  /** The binding that ends up on `keys`: unbinding a sequence that leads to a submap stores the
      function that does nothing, since a null pointer would read as "nothing hidden". */
  ghost function NewBinding(st: Store, root: Address, keys: seq<Byte>, e: Entry): (r: Entry)
    requires WellFormed(st) && root in st && keys != []
  {
    if e == Unbound && EntryAt(st, root, keys).Submap? then Func(NullFunction) else e
  }

  /** A proper prefix of `keys` bound to "do the lowercase version" loses that binding. */
  ghost predicate Displaced(st: Store, root: Address, keys: seq<Byte>, s: seq<Byte>)
    requires WellFormed(st) && root in st
  {
    s != [] && s < keys && EntryAt(st, root, s) == Func(LowercaseVersion)
  }

  /** Making room for `keys` leaves every meaning alone, displaced prefixes aside. */
  ghost predicate RoomFor(st: Store, st': Store, root: Address, keys: seq<Byte>)
    requires WellFormed(st) && root in st && WellFormed(st') && root in st'
  {
    forall s {:trigger Meaning(st', root, s)} :: s != [] ==>
      Meaning(st', root, s) == if Displaced(st, root, keys, s) then Unbound else Meaning(st, root, s)
  }

  /** `keys` has its new binding and everything else is as `RoomFor` says. */
  ghost predicate Bound(st: Store, st': Store, root: Address, keys: seq<Byte>, e: Entry)
    requires WellFormed(st) && root in st && WellFormed(st') && root in st' && keys != []
  {
    forall s {:trigger Meaning(st', root, s)} :: s != [] ==>
      Meaning(st', root, s) ==
        if s == keys then NewBinding(st, root, keys, e)
        else if Displaced(st, root, keys, s) then Unbound
        else Meaning(st, root, s)
  }

  /** The raw entries along a path of submaps and just past it. */
  lemma {:induction false} EntriesAlong(st: Store, m: Address, keys: seq<Byte>, i: nat, a: Address, j: nat)
    requires WellFormed(st) && m in st && i < |keys| && 1 <= j <= |keys|
    requires Reaches(st, m, keys[..i], a) && a in st && WellFormedMap(st, a)
    ensures j <= i ==> EntryAt(st, m, keys[..j]).Submap?
    ensures j == i + 1 ==> EntryAt(st, m, keys[..j]) == st[a][keys[i]]
    ensures j > i + 1 && !st[a][keys[i]].Submap? ==> EntryAt(st, m, keys[..j]) == Unbound
    decreases i
  {
    assert WellFormedMap(st, m);
    if i > 0 {
      var c := st[m][keys[0]].target;
      assert keys[..i][1..] == keys[1..][..i - 1];
      if j > 1 {
        assert keys[..j][1..] == keys[1..][..j - 1];
        EntriesAlong(st, c, keys[1..], i - 1, a, j - 1);
      }
    }
  }

  /** The first submap created on the way: nothing but a displaced prefix changes. */
  lemma FirstRoom(st: Store, paths: Paths, root: Address, keys: seq<Byte>, i: nat, x: Address, added: Address)
    requires TreeShaped(st, paths) && root in st && paths[root] == [] && i + 1 < |keys|
    requires x in st && paths[x] == keys[..i] && Reaches(st, root, keys[..i], x)
    requires WellFormedMap(st, x) && !st[x][keys[i]].Submap? && added !in st
    ensures WellFormed(Grown(st, x, keys[i], added)) && RoomFor(st, Grown(st, x, keys[i], added), root, keys)
  {
    var st' := Grown(st, x, keys[i], added);
    GrownShape(st, paths, x, keys[i], added);
    assert keys[..i] + [keys[i]] == keys[..i + 1];
    forall s: seq<Byte> | s != []
      ensures Meaning(st', root, s) == if Displaced(st, root, keys, s) then Unbound else Meaning(st, root, s)
    {
      RoomMade(st, paths, root, x, keys[i], added, s);
      if s < keys {
        assert s == keys[..|s|];
        EntriesAlong(st, root, keys, i, x, |s|);
        MeaningOfEntry(st, root, s);
      }
    }
  }

  /** Further submaps are created inside empty ones and change nothing. */
  lemma MoreRoom(st0: Store, st: Store, paths: Paths, root: Address, keys: seq<Byte>, i: nat, x: Address,
                 added: Address)
    requires WellFormed(st0) && root in st0
    requires TreeShaped(st, paths) && root in st && paths[root] == [] && i + 1 < |keys|
    requires x in st && paths[x] == keys[..i] && Reaches(st, root, keys[..i], x)
    requires WellFormedMap(st, x) && st[x][keys[i]] == Unbound && added !in st
    requires RoomFor(st0, st, root, keys)
    ensures WellFormed(Grown(st, x, keys[i], added)) && RoomFor(st0, Grown(st, x, keys[i], added), root, keys)
  {
    var st' := Grown(st, x, keys[i], added);
    GrownShape(st, paths, x, keys[i], added);
    forall s: seq<Byte> | s != []
      ensures Meaning(st', root, s) == if Displaced(st0, root, keys, s) then Unbound else Meaning(st0, root, s)
    {
      RoomMade(st, paths, root, x, keys[i], added, s);
      Through(st, root, keys[..i], x, keys[i], []);
      assert keys[..i] + [keys[i]] + [] == keys[..i] + [keys[i]];
      assert Meaning(st, root, s) == if Displaced(st0, root, keys, s) then Unbound else Meaning(st0, root, s);
    }
  }

  /** Setting the last key's entry completes the binding. */
  lemma LeafBound(st0: Store, st: Store, paths: Paths, root: Address, keys: seq<Byte>, x: Address, e: Entry)
    requires WellFormed(st0) && root in st0 && keys != []
    requires TreeShaped(st, paths) && root in st && paths[root] == []
    requires var i := |keys| - 1;
             && x in st && paths[x] == keys[..i] && Reaches(st, root, keys[..i], x)
             && WellFormedMap(st, x) && !st[x][keys[i]].Submap? && !e.Submap?
    requires RoomFor(st0, st, root, keys) && !EntryAt(st0, root, keys).Submap?
    ensures var st' := Put(st, x, keys[|keys| - 1], e);
            TreeShaped(st', paths) && Bound(st0, st', root, keys, e)
  {
    var i := |keys| - 1;
    var st' := Put(st, x, keys[i], e);
    assert keys[..i] + [keys[i]] == keys;
    PutShape(st, paths, x, keys[i], e);
    forall s: seq<Byte> | s != []
      ensures Meaning(st', root, s) ==
        if s == keys then e else if Displaced(st0, root, keys, s) then Unbound else Meaning(st0, root, s)
    {
      LeafSet(st, paths, root, x, keys[i], e, s);
      assert Meaning(st, root, s) == if Displaced(st0, root, keys, s) then Unbound else Meaning(st0, root, s);
    }
  }

  /** Binding a sequence that leads to a submap. */
  lemma HiddenBound(st: Store, paths: Paths, root: Address, keys: seq<Byte>, x: Address, e: Entry)
    requires TreeShaped(st, paths) && root in st && paths[root] == [] && keys != []
    requires var i := |keys| - 1;
             && x in st && paths[x] == keys[..i] && Reaches(st, root, keys[..i], x)
             && WellFormedMap(st, x) && st[x][keys[i]].Submap? && !e.Submap?
    ensures var sub, new' := st[x][keys[|keys| - 1]].target, if e == Unbound then Func(NullFunction) else e;
            WellFormedMap(st, sub) && paths[sub] == keys && Reaches(st, root, keys, sub) &&
            var st' := Put(st, sub, ANYOTHERKEY, new');
            TreeShaped(st', paths) && Bound(st, st', root, keys, e)
  {
    var i := |keys| - 1;
    var sub, new' := st[x][keys[i]].target, if e == Unbound then Func(NullFunction) else e;
    assert TreeMap(st, paths, x) && WellFormedMap(st, sub);
    assert keys[..i] + [keys[i]] == keys;
    ReachesOneMore(st, root, keys[..i], x, keys[i]);
    var st' := Put(st, sub, ANYOTHERKEY, new');
    PutShape(st, paths, sub, ANYOTHERKEY, new');
    assert keys[..|keys|] == keys;
    EntriesAlong(st, root, keys, i, x, |keys|);
    forall s: seq<Byte> | s != []
      ensures Meaning(st', root, s) ==
        if s == keys then new' else if Displaced(st, root, keys, s) then Unbound else Meaning(st, root, s)
    {
      HiddenSet(st, paths, root, sub, new', s);
      if s < keys {
        assert s == keys[..|s|];
        EntriesAlong(st, root, keys, i, x, |s|);
      }
    }
  }

  /** Nothing was created on the way: `RoomFor` holds of the store as it was. */
  lemma NoRoomNeeded(st: Store, root: Address, keys: seq<Byte>, x: Address)
    requires WellFormed(st) && root in st && keys != []
    requires Reaches(st, root, keys[..|keys| - 1], x) && x in st && WellFormedMap(st, x)
    ensures RoomFor(st, st, root, keys)
    ensures EntryAt(st, root, keys) == st[x][keys[|keys| - 1]]
  {
    assert keys[..|keys|] == keys;
    EntriesAlong(st, root, keys, |keys| - 1, x, |keys|);
    forall s: seq<Byte> | s != []
      ensures !Displaced(st, root, keys, s)
    {
      if s < keys {
        assert s == keys[..|s|];
        EntriesAlong(st, root, keys, |keys| - 1, x, |s|);
      }
    }
  }

  lemma CollapseBound(st0: Store, st: Store, paths: Paths, root: Address, keys: seq<Byte>, e: Entry, x: Address,
                      k: Byte)
    requires WellFormed(st0) && root in st0 && keys != []
    requires TreeShaped(st, paths) && root in st && paths[root] == [] && x in st && Reaches(st, root, paths[x], x)
    requires WellFormedMap(st, x) && st[x][k].Submap?
    requires var b := st[x][k].target;
             WellFormedMap(st, b) && forall j: Byte :: st[b][j] == Unbound
    requires Bound(st0, st, root, keys, e)
    ensures var st' := Put(st, x, k, st[st[x][k].target][ANYOTHERKEY]);
            TreeShaped(st', paths) && Bound(st0, st', root, keys, e)
  {
    var st' := Put(st, x, k, st[st[x][k].target][ANYOTHERKEY]);
    PutShape(st, paths, x, k, st[st[x][k].target][ANYOTHERKEY]);
    forall s: seq<Byte> | s != []
      ensures Meaning(st', root, s) == Meaning(st, root, s)
    {
      Collapse(st, paths, root, x, k, s);
    }
  }

  class Bindings {
    var maps: Store
    /** The address the next keymap is allocated at. */
    var next: Address
    /** `rl_binding_keymap` */
    var bindingMap: Address
    ghost var paths: Paths

    ghost predicate Valid(root: Address)
      reads this
    {
      && TreeShaped(maps, paths) && root in maps && paths[root] == []
      && forall m :: m in maps ==> m < next
    }

    /** `rl_make_bare_keymap` */
    method MakeBareKeymap() returns (m: Address)
      requires forall a :: a in maps ==> a < next
      modifies this`maps, this`next
      ensures m == old(next) && next == old(next) + 1
      ensures maps == old(maps)[m := Bare(Unbound)]
    {
      m := next;
      next := next + 1;
      var entries := [];
      var i := 0;
      while i < KEYMAP_SIZE
        invariant 0 <= i <= KEYMAP_SIZE && |entries| == i && forall k :: 0 <= k < i ==> entries[k] == Unbound
        invariant maps == old(maps) && next == old(next) + 1 && m == old(next)
      {
        entries := entries + [Unbound];
        i := i + 1;
      }
      assert entries == Bare(Unbound);
      maps := maps[m := entries];
    }

    /** `rl_empty_keymap` */
    method EmptyKeymap(m: Address) returns (empty: bool)
      requires m in maps && |maps[m]| == KEYMAP_SIZE
      ensures empty <==> forall k: Byte :: maps[m][k] == Unbound
    {
      var i := 0;
      while i < ANYOTHERKEY
        invariant 0 <= i <= ANYOTHERKEY && forall k :: 0 <= k < i ==> maps[m][k] == Unbound
      {
        if maps[m][i] != Unbound {
          var k: Byte := i;
          assert maps[m][k] != Unbound;
          return false;
        }
        i := i + 1;
      }
      return true;
    }

    /** One key that is not the last: make its entry a submap if it is not one already, saving
        what was bound there in the submap's extra slot, and step into the submap. */
    method StepInto(m: Address, ic: Byte) returns (sub: Address)
      requires m in maps && TreeShaped(maps, paths) && WellFormedMap(maps, m)
      requires forall a :: a in maps ==> a < next
      modifies this`maps, this`next, this`paths
      ensures forall a :: a in maps ==> a < next
      ensures old(maps)[m][ic].Submap? ==>
        sub == old(maps)[m][ic].target && maps == old(maps) && paths == old(paths) && next == old(next)
      ensures !old(maps)[m][ic].Submap? ==>
        && sub == old(next) && maps == Grown(old(maps), m, ic, sub) && TreeShaped(maps, paths)
        && paths == old(paths)[sub := old(paths)[m] + [ic]]
    {
      var k := Unbound;
      if !maps[m][ic].Submap? {
        GrownShape(maps, paths, m, ic, next);
        paths := paths[next := paths[m] + [ic]];
        k := maps[m][ic];
        var bare := MakeBareKeymap();
        maps := Put(maps, m, ic, Submap(bare));
      }
      sub := maps[m][ic].target;
      if (k.Func? && k.command != LowercaseVersion) || k.Macro? {
        maps := Put(maps, sub, ANYOTHERKEY, k);
      }
      assert !old(maps)[m][ic].Submap? ==> maps[sub] == Bare(Kept(old(maps)[m][ic]));
    }

    /** The keymap `m` is where the first `i` keys lead.  Until a submap had to be created the
        store is as it was; after that, `m` is a keymap just created. */
    ghost predicate Entering(st0: Store, root: Address, keys: seq<Byte>, i: nat, m: Address, created: bool)
      reads this
      requires Valid(root)
    {
      && i < |keys| && m in maps && WellFormedMap(maps, m) && paths[m] == keys[..i] && Reaches(maps, root, keys[..i], m)
      && WellFormed(st0) && root in st0
      && (!created ==> maps == st0)
      && (created ==>
            && RoomFor(st0, maps, root, keys) && !EntryAt(st0, root, keys).Submap?
            && forall k: Byte :: maps[m][k] == Unbound)
    }

    /** One turn of the loop over the keys before the last. */
    method Advance(ghost st0: Store, ghost root: Address, keys: seq<Byte>, i: nat, m: Address, ghost created: bool)
      returns (sub: Address, ghost created': bool)
      requires Valid(root) && Entering(st0, root, keys, i, m, created) && i + 1 < |keys|
      modifies this`maps, this`next, this`paths
      ensures Valid(root) && Entering(st0, root, keys, i + 1, sub, created')
      ensures m in maps && WellFormedMap(maps, m) && paths[m] == keys[..i] && maps[m][keys[i]] == Submap(sub)
      ensures Reaches(maps, root, keys[..i], m)
    {
      ghost var st: Store := maps;
      ghost var added := next;
      ghost var before := paths;
      assert keys[..i] + [keys[i]] == keys[..i + 1];
      sub := StepInto(m, keys[i]);
      if st[m][keys[i]].Submap? {
        created' := created;
        ReachesOneMore(maps, root, keys[..i], m, keys[i]);
        assert TreeMap(maps, paths, m) && WellFormedMap(maps, sub);
      } else {
        created' := true;
        RoomMade(st, before, root, m, keys[i], added, []);
        if created {
          MoreRoom(st0, st, before, root, keys, i, m, added);
        } else {
          FirstRoom(st, before, root, keys, i, m, added);
          assert keys[..|keys|] == keys;
          EntriesAlong(st, root, keys, i, m, |keys|);
        }
        GrownShape(st, before, m, keys[i], added);
        StillReaches(st, maps, before, m, keys[i], root, keys[..i], m);
      }
    }

    /** The loop of `rl_generic_bind` over translated keys, with the clean-up after unbinding:
        the sequence gets its binding and no other sequence changes its meaning. */
    method BindKeys(e: Entry, keys: seq<Byte>, root: Address)
      requires Valid(root) && keys != [] && !e.Submap?
      modifies this
      ensures Valid(root) && Bound(old(maps), maps, root, keys, e)
    {
      ghost var st0: Store := maps;
      ghost var created := false;
      assert WellFormedMap(maps, root) && keys[..0] == [];
      var n := |keys|;
      var m, prevmap, prevkey := root, root, keys[0];
      var i := 0;
      while i + 1 < n
        invariant i < n && Valid(root) && Entering(st0, root, keys, i, m, created)
        invariant i == 0 ==> prevmap == root && prevkey == keys[0]
        invariant i > 0 ==>
          && prevmap in maps && WellFormedMap(maps, prevmap) && maps[prevmap][prevkey] == Submap(m)
          && paths[prevmap] == keys[..i - 1] && Reaches(maps, root, keys[..i - 1], prevmap)
      {
        var sub;
        sub, created := Advance(st0, root, keys, i, m, created);
        prevmap, prevkey, m := m, keys[i], sub;
        i := i + 1;
      }
      BindLast(st0, e, keys, root, m, prevmap, prevkey, created);
    }

    /** The last key, and the clean-up. */
    method BindLast(ghost st0: Store, e: Entry, keys: seq<Byte>, root: Address, m: Address,
                    prevmap: Address, prevkey: Byte, ghost created: bool)
      requires Valid(root) && keys != [] && !e.Submap? && Entering(st0, root, keys, |keys| - 1, m, created)
      requires |keys| == 1 ==> prevmap == root && prevkey == keys[0]
      requires |keys| > 1 ==>
        && prevmap in maps && WellFormedMap(maps, prevmap) && maps[prevmap][prevkey] == Submap(m)
        && paths[prevmap] == keys[..|keys| - 2] && Reaches(maps, root, keys[..|keys| - 2], prevmap)
      modifies this
      ensures Valid(root) && Bound(st0, maps, root, keys, e)
    {
      var ic := keys[|keys| - 1];
      if maps[m][ic].Submap? {
        BindHidden(st0, e, keys, root, m, created);
        return;
      }
      if !created {
        NoRoomNeeded(maps, root, keys, m);
      }
      LeafBound(st0, maps, paths, root, keys, m, e);
      PutShape(maps, paths, m, ic, e);
      if |keys| > 1 {
        StillReaches(maps, Put(maps, m, ic, e), paths, m, ic, root, keys[..|keys| - 2], prevmap);
      }
      maps := Put(maps, m, ic, e);
      bindingMap := m;
      if e == Unbound && maps[prevmap][prevkey] == Submap(bindingMap) {
        FoldEmpty(st0, keys, root, prevmap, prevkey);
      }
    }

    /** The last key already leads to a submap: its hidden entry is set. */
    method BindHidden(ghost st0: Store, e: Entry, keys: seq<Byte>, ghost root: Address, m: Address, ghost created: bool)
      requires Valid(root) && keys != [] && !e.Submap? && Entering(st0, root, keys, |keys| - 1, m, created)
      requires maps[m][keys[|keys| - 1]].Submap?
      modifies this
      ensures Valid(root) && Bound(st0, maps, root, keys, e)
    {
      var data := if e == Unbound then Func(NullFunction) else e;
      HiddenBound(maps, paths, root, keys, m, e);
      bindingMap := maps[m][keys[|keys| - 1]].target;
      maps := Put(maps, bindingMap, ANYOTHERKEY, data);
    }

    /** The clean-up after unbinding: an empty submap gives way to the binding it hides. */
    method FoldEmpty(ghost st0: Store, ghost keys: seq<Byte>, ghost root: Address, prevmap: Address, prevkey: Byte)
      requires Valid(root) && WellFormed(st0) && root in st0 && keys != [] && Bound(st0, maps, root, keys, Unbound)
      requires prevmap in maps && WellFormedMap(maps, prevmap) && Reaches(maps, root, paths[prevmap], prevmap)
      requires maps[prevmap][prevkey] == Submap(bindingMap)
      modifies this`maps, this`bindingMap
      ensures Valid(root) && Bound(st0, maps, root, keys, Unbound)
    {
      assert WellFormedMap(maps, bindingMap);
      var hidden := maps[bindingMap][ANYOTHERKEY];
      if hidden.Func? || hidden == Unbound {
        var empty := EmptyKeymap(bindingMap);
        if empty {
          CollapseBound(st0, maps, paths, root, keys, Unbound, prevmap, prevkey);
          maps := Put(maps, prevmap, prevkey, hidden);
          bindingMap := prevmap;
        }
      }
    }

    /** `rl_generic_bind`: bind the sequence written as `text`. */
    method GenericBind(e: Entry, text: seq<Byte>, root: Address, convertMeta: bool) returns (r: int)
      requires Valid(root) && !e.Submap?
      modifies this
      ensures Valid(root)
      ensures text == [] ==> r == -1 && maps == old(maps)
      ensures text != [] ==>
        var keys := KeyNotation.Translate(text, convertMeta);
        r == 0 && keys != [] && Bound(old(maps), maps, root, keys, e)
    {
      if text == [] {
        return -1;
      }
      var keys := KeyNotation.TranslateKeyseq(text, convertMeta);
      BindKeys(e, keys, root);
      return 0;
    }

    /** `_rl_function_of_keyseq_internal`: it finds whatever a sequence, meta keys spelled out as
        ESC and a plain key, is bound to, unless a prefix that ends with such an ESC is bound to a
        function or macro: then it finds that, although the sequence is not bound. */
    method FunctionOfKeyseq(keys: seq<Byte>, root: Address, convertMeta: bool) returns (e: Entry)
      requires WellFormed(maps) && root in maps
      ensures keys == [] ==> e == Unbound
      ensures keys != [] ==>
        var spelled := KeyNotation.Stored(keys, convertMeta);
        && spelled != []
        && ((convertMeta ==> KeyNotation.SevenBit(keys)) ==> e == EntryAt(maps, root, keys))
        && (EntryAt(maps, root, spelled) != Unbound ==> e == EntryAt(maps, root, spelled))
        && (e == EntryAt(maps, root, spelled) <==>
              forall i :: 0 <= i < |keys| ==> !CutShort(maps, root, keys, convertMeta, i))
        && (forall i :: 0 <= i < |keys| && CutShort(maps, root, keys, convertMeta, i) ==>
              e == EntryAt(maps, root, BeforeMeta(keys, convertMeta, i)))
    {
      e := Find(keys, root, convertMeta);
      if keys != [] {
        KeyNotation.StoredUnchanged(keys, convertMeta);
        CutShortIs(maps, root, keys, convertMeta);
        CutMeansUnbound(maps, root, keys, convertMeta);
      }
    }

    /** The loop of the look-up. */
    method Find(keys: seq<Byte>, root: Address, convertMeta: bool) returns (e: Entry)
      requires WellFormed(maps) && root in maps
      ensures keys == [] ==> e == Unbound
      ensures keys != [] ==> e == Found(maps, root, keys, convertMeta)
    {
      var m := root;
      var i := 0;
      assert keys[0..] == keys;
      while i < |keys|
        invariant 0 <= i <= |keys| && m in maps
        invariant i < |keys| ==> Found(maps, root, keys, convertMeta) == Found(maps, m, keys[i..], convertMeta)
        invariant i == |keys| ==> keys == []
      {
        assert WellFormedMap(maps, m) && keys[i..][1..] == keys[i + 1..];
        var ic := keys[i];
        if ic >= 128 && convertMeta {
          if maps[m][KeyNotation.ESC].Submap? {
            m, ic := maps[m][KeyNotation.ESC].target, ic - 128;
            assert WellFormedMap(maps, m);
          } else {
            return maps[m][KeyNotation.ESC];
          }
        }
        if maps[m][ic].Submap? {
          if i + 1 == |keys| {
            return maps[m][ic];
          }
          m := maps[m][ic].target;
        } else if i + 1 < |keys| {
          return Unbound;
        } else {
          return maps[m][ic];
        }
        i := i + 1;
      }
      return Unbound;
    }
  }

  // ----- What looking up finds -----

  /** The sequence up to meta key `i`, meta keys spelled out, and the ESC that key is spelled with. */
  ghost function BeforeMeta(keys: seq<Byte>, convertMeta: bool, i: nat): (p: seq<Byte>)
    requires i < |keys|
    ensures p != []
  {
    KeyNotation.Stored(keys[..i], convertMeta) + [KeyNotation.ESC]
  }

  /** Key `i` is a meta key whose ESC is bound to a function or macro. */
  ghost predicate CutShort(st: Store, m: Address, keys: seq<Byte>, convertMeta: bool, i: nat)
    requires WellFormed(st) && m in st && i < |keys|
  {
    && convertMeta && keys[i] >= 128
    && var e := EntryAt(st, m, BeforeMeta(keys, convertMeta, i)); e.Func? || e.Macro?
  }

  /** The entry that a key, a meta key spelled out, leads to. */
  ghost function Leads(st: Store, m: Address, key: Byte, convertMeta: bool): (e: Entry)
    requires WellFormed(st) && m in st
    ensures e.Submap? ==> e.target in st
  {
    assert WellFormedMap(st, m);
    if key >= 128 && convertMeta then
      var esc := st[m][KeyNotation.ESC];
      if esc.Submap? then assert WellFormedMap(st, esc.target); st[esc.target][key - 128] else Unbound
    else st[m][key]
  }

  /** A meta key is spelled with an ESC that leads to no submap. */
  ghost predicate Stops(st: Store, m: Address, key: Byte, convertMeta: bool)
    requires WellFormed(st) && m in st
  {
    assert WellFormedMap(st, m);
    key >= 128 && convertMeta && !st[m][KeyNotation.ESC].Submap?
  }

  /** What the look-up returns. */
  ghost function Found(st: Store, m: Address, keys: seq<Byte>, convertMeta: bool): (e: Entry)
    requires WellFormed(st) && m in st && keys != []
    decreases |keys|
  {
    assert WellFormedMap(st, m);
    var e := Leads(st, m, keys[0], convertMeta);
    if Stops(st, m, keys[0], convertMeta) then st[m][KeyNotation.ESC]
    else if |keys| == 1 then e
    else if e.Submap? then Found(st, e.target, keys[1..], convertMeta)
    else Unbound
  }

  /** The entry a look-up is cut short at, `Unbound` if there is none. */
  ghost function Cut(st: Store, m: Address, keys: seq<Byte>, convertMeta: bool): (e: Entry)
    requires WellFormed(st) && m in st
    ensures !e.Submap?
    decreases |keys|
  {
    if keys == [] then Unbound
    else
      assert WellFormedMap(st, m);
      var e := Leads(st, m, keys[0], convertMeta);
      if Stops(st, m, keys[0], convertMeta) then st[m][KeyNotation.ESC]
      else if e.Submap? then Cut(st, e.target, keys[1..], convertMeta)
      else Unbound
  }

  lemma StoredNotEmpty(keys: seq<Byte>, convertMeta: bool)
    requires keys != []
    ensures KeyNotation.Stored(keys, convertMeta) != []
  {
  }

  lemma StepEntry(st: Store, m: Address, k: Byte, rest: seq<Byte>)
    requires WellFormed(st) && m in st && WellFormedMap(st, m)
    ensures EntryAt(st, m, [k] + rest) ==
      if rest == [] then st[m][k]
      else if st[m][k].Submap? then EntryAt(st, st[m][k].target, rest) else Unbound
  {
    assert ([k] + rest)[1..] == rest;
  }

  /** A plain key, or a meta key as ESC and a plain key, in front of other keys. */
  lemma EntryStep(st: Store, m: Address, key: Byte, convertMeta: bool, rest: seq<Byte>)
    requires WellFormed(st) && m in st
    ensures var spelled, e := KeyNotation.Emit(key, false, false, convertMeta) + rest, Leads(st, m, key, convertMeta);
            EntryAt(st, m, spelled) ==
              if rest == [] then e else if e.Submap? then EntryAt(st, e.target, rest) else Unbound
  {
    assert WellFormedMap(st, m);
    if key >= 128 && convertMeta {
      var esc := st[m][KeyNotation.ESC];
      assert KeyNotation.Emit(key, false, false, convertMeta) + rest == [KeyNotation.ESC] + ([key - 128] + rest);
      StepEntry(st, m, KeyNotation.ESC, [key - 128] + rest);
      if esc.Submap? {
        assert WellFormedMap(st, esc.target);
        StepEntry(st, esc.target, key - 128, rest);
      }
    } else {
      StepEntry(st, m, key, rest);
    }
  }

  /** A look-up finds the entry of the spelled-out sequence unless it is cut short; if it is, the
      sequence is not bound. */
  lemma {:induction false} CutMeansUnbound(st: Store, m: Address, keys: seq<Byte>, convertMeta: bool)
    requires WellFormed(st) && m in st && keys != []
    ensures KeyNotation.Stored(keys, convertMeta) != []
    ensures var cut, entry := Cut(st, m, keys, convertMeta), EntryAt(st, m, KeyNotation.Stored(keys, convertMeta));
            && Found(st, m, keys, convertMeta) == (if cut != Unbound then cut else entry)
            && (cut != Unbound ==> entry == Unbound)
    decreases |keys|
  {
    var e := Leads(st, m, keys[0], convertMeta);
    EntryStep(st, m, keys[0], convertMeta, KeyNotation.Stored(keys[1..], convertMeta));
    if |keys| > 1 {
      StoredNotEmpty(keys[1..], convertMeta);
      if e.Submap? {
        CutMeansUnbound(st, e.target, keys[1..], convertMeta);
      }
    }
  }

  lemma BeforeMetaStep(keys: seq<Byte>, convertMeta: bool, i: nat)
    requires 1 <= i < |keys|
    ensures BeforeMeta(keys, convertMeta, i)
      == KeyNotation.Emit(keys[0], false, false, convertMeta) + BeforeMeta(keys[1..], convertMeta, i - 1)
  {
    assert keys[..i][1..] == keys[1..][..i - 1];
  }

  /** Being cut short at a later key is being cut short in the submap the first key leads to. */
  lemma CutShortLater(st: Store, m: Address, keys: seq<Byte>, convertMeta: bool, i: nat)
    requires WellFormed(st) && m in st && 1 <= i < |keys|
    ensures var e := Leads(st, m, keys[0], convertMeta);
            && EntryAt(st, m, BeforeMeta(keys, convertMeta, i)) ==
                 (if e.Submap? then EntryAt(st, e.target, BeforeMeta(keys[1..], convertMeta, i - 1)) else Unbound)
            && (CutShort(st, m, keys, convertMeta, i) <==>
                  e.Submap? && CutShort(st, e.target, keys[1..], convertMeta, i - 1))
  {
    BeforeMetaStep(keys, convertMeta, i);
    EntryStep(st, m, keys[0], convertMeta, BeforeMeta(keys[1..], convertMeta, i - 1));
  }

  lemma CutShortFirst(st: Store, m: Address, keys: seq<Byte>, convertMeta: bool)
    requires WellFormed(st) && m in st && keys != []
    ensures WellFormedMap(st, m) && EntryAt(st, m, BeforeMeta(keys, convertMeta, 0)) == st[m][KeyNotation.ESC]
  {
    assert WellFormedMap(st, m) && BeforeMeta(keys, convertMeta, 0) == [KeyNotation.ESC];
  }

  /** The entry a look-up is cut short at, by the position of the meta key. */
  lemma {:induction false} CutShortIs(st: Store, m: Address, keys: seq<Byte>, convertMeta: bool)
    requires WellFormed(st) && m in st
    ensures Cut(st, m, keys, convertMeta) != Unbound ==>
      exists i :: 0 <= i < |keys| && CutShort(st, m, keys, convertMeta, i)
    ensures forall i :: 0 <= i < |keys| && CutShort(st, m, keys, convertMeta, i) ==>
      && Cut(st, m, keys, convertMeta) == EntryAt(st, m, BeforeMeta(keys, convertMeta, i))
      && Cut(st, m, keys, convertMeta) != Unbound
    decreases |keys|
  {
    if keys != [] {
      var e := Leads(st, m, keys[0], convertMeta);
      CutShortFirst(st, m, keys, convertMeta);
      forall i | 0 <= i < |keys| && CutShort(st, m, keys, convertMeta, i)
        ensures Cut(st, m, keys, convertMeta) == EntryAt(st, m, BeforeMeta(keys, convertMeta, i))
          && Cut(st, m, keys, convertMeta) != Unbound
      {
        if i > 0 {
          CutShortLater(st, m, keys, convertMeta, i);
          CutShortIs(st, e.target, keys[1..], convertMeta);
        }
      }
      if Cut(st, m, keys, convertMeta) != Unbound {
        CutHappens(st, m, keys, convertMeta);
      }
    }
  }

  lemma {:induction false} CutHappens(st: Store, m: Address, keys: seq<Byte>, convertMeta: bool)
    requires WellFormed(st) && m in st && Cut(st, m, keys, convertMeta) != Unbound
    ensures exists i :: 0 <= i < |keys| && CutShort(st, m, keys, convertMeta, i)
    decreases |keys|
  {
    CutShortFirst(st, m, keys, convertMeta);
    if Stops(st, m, keys[0], convertMeta) {
      assert CutShort(st, m, keys, convertMeta, 0);
    } else {
      var e := Leads(st, m, keys[0], convertMeta);
      CutHappens(st, e.target, keys[1..], convertMeta);
      var k :| 0 <= k < |keys[1..]| && CutShort(st, e.target, keys[1..], convertMeta, k);
      CutShortLater(st, m, keys, convertMeta, k + 1);
    }
  }
}
