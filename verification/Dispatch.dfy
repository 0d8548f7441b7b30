/** The two key-sequence dispatchers of `readline.c` over one shared state: the recursive one,
    and the one that simulates the recursion with a chain of contexts so that it can be fed one
    key at a time (`callback.c`). */
module Dispatch {
  import opened Bytes
  import opened InputRing
  import opened Keymaps
  import opened DispatchSpec
  import opened ChainSpec

  /** A store the dispatchers are modelled on: no key runs "the lowercase version" of itself. */
  ghost predicate Dispatchable(st: Store)
  {
    WellFormed(st) &&
    forall m, k :: m in st && 0 <= k < |st[m]| ==> st[m][k] != Func(LowercaseVersion)
  }

  class Session {
    var maps: Store
    const ring: KeyRing
    /** Keys the terminal will still deliver; end of input follows. */
    var tty: seq<Byte>
    var log: seq<Event>
    /** `_rl_dispatching_keymap` */
    var dispatching: Address
    /** `rl_executing_keyseq` */
    var keyseq: seq<int>
    /** `_rl_kscxt`, innermost context last */
    var chain: seq<Context>
    /** RL_STATE_MULTIKEY */
    var multikey: bool
    /** RL_STATE_CALLBACK */
    const callback: bool

    ghost predicate Valid()
      reads this, ring, ring.buffer
    {
      ring.Valid() && dispatching in maps
    }

    /** The keys that will be read next: pushed-back input first, then the terminal. */
    ghost function Pending(): (keys: seq<Byte>)
      reads this, ring
    {
      ring.contents + tty
    }

    /** In callback mode, the next key leads to a further submap of `km`. */
    ghost predicate GoesDeeper(km: Address)
      reads this, ring
      requires km in maps && WellFormedMap(maps, km)
    {
      callback && Pending() != [] && maps[km][Pending()[0]].Submap?
    }

    constructor (maps: Store, root: Address, tty: seq<Byte>, callback: bool)
      requires Dispatchable(maps) && root in maps
      ensures Valid() && fresh(ring) && fresh(ring.buffer)
      ensures this.maps == maps && Pending() == tty && this.callback == callback
      ensures log == [] && keyseq == [] && chain == [] && !multikey
    {
      ring := new KeyRing();
      this.maps, this.tty, this.callback := maps, tty, callback;
      log, keyseq, chain, multikey, dispatching := [], [], [], false, root;
    }

    /** `rl_read_key` with no macro and no pending event: the ring first, then the terminal. */
    method ReadKey() returns (key: int)
      requires Valid()
      modifies this`tty, ring`popIndex, ring`contents
      ensures Valid()
      ensures old(Pending()) == [] ==> key == EOF && Pending() == []
      ensures old(Pending()) != [] ==> key == old(Pending())[0] && Pending() == old(Pending())[1..]
      ensures |ring.contents| == if old(ring.contents) == [] then 0 else |old(ring.contents)| - 1
    {
      var found, k := ring.Get();
      if found {
        key := k;
      } else if tty == [] {
        key := EOF;
      } else {
        key := tty[0];
        tty := tty[1..];
      }
    }

    /** Put `key` back in front and take the last key off the recorded sequence. */
    method BackUp(key: Byte)
      requires Valid()
      modifies this`keyseq, ring`popIndex, ring`contents, ring.buffer
      ensures Valid()
      ensures BackedUp(key, |old(ring.contents)|, old(Pending()), |ring.contents|, Pending())
      ensures keyseq == DropLast(old(keyseq))
    {
      var ok := ring.Unget(key);
      if |keyseq| > 0 {
        keyseq := keyseq[..|keyseq| - 1];
      }
    }

    /** `_rl_abort_internal`: control leaves every dispatch in progress. */
    method Abort() returns (r: Code)
      modifies this`multikey
      ensures r == Aborted && !multikey
    {
      multikey := false;
      r := Aborted;
    }

    /** `_rl_dispatch_subseq`. */
    method DispatchSubseq(key: Slot, km: Address, gotSubseq: bool) returns (r: Code)
      requires Valid() && Dispatchable(maps) && km in maps && WellFormedMap(maps, km)
      requires key == ANYOTHERKEY ==> maps[km][key].Macro?
      requires maps[km][key].Func? || maps[km][key].Macro? || dispatching == km
      modifies this, ring`popIndex, ring`contents, ring.buffer
      ensures Valid() && maps == old(maps)
      // running a binding directly
      ensures old(maps)[km][key].Func? || old(maps)[km][key].Macro? ==>
        && r == Ok && log == old(log) + [EventFor(old(maps)[km][key], key)]
        && keyseq == old(keyseq) + Recorded(old(maps)[km][key], [key])
        && Pending() == old(Pending()) && |ring.contents| == |old(ring.contents)| && dispatching == old(dispatching)
        && chain == old(chain) && multikey == old(multikey)
      // one more level, to be continued with the next key
      ensures callback && old(maps)[km][key].Submap? ==>
        && r == (if old(multikey) then Chained else Ok)
        && multikey && dispatching == old(maps)[km][key].target
        && chain == old(chain) + [Context(gotSubseq, false,
                      gotSubseq || maps[dispatching][ANYOTHERKEY] != Unbound, key, dispatching, km, Ok)]
        && keyseq == old(keyseq) + [key] && log == old(log) && Pending() == old(Pending())
        && |ring.contents| == |old(ring.contents)|
      ensures r == Aborted ==> !multikey
      ensures callback && r != Aborted && !old(maps)[km][key].Submap? ==>
        chain == old(chain) && multikey == old(multikey)
      // the whole of a sequence
      ensures key < ANYOTHERKEY && !(callback && old(maps)[km][key].Submap?) ==>
        var keys := [key as Byte] + old(Pending());
        && Reports(maps, km, keys, gotSubseq, r)
        && Effects(maps, km, keys, r, old(log), old(keyseq), log, keyseq)
        && ((r == UseShadow || r == NoMatch) ==> dispatching == km)
        && QueueAfter(maps, km, keys, gotSubseq, |old(ring.contents)|, |ring.contents|, Pending())
        && |Pending()| <= |keys|
      decreases |Pending()|, if maps[km][key].Submap? then 3 else 0
    {
      match maps[km][key] {
        case Func(command) =>
          if key < ANYOTHERKEY {
            QueueAtLeaf(maps, km, key, Pending(), gotSubseq, |ring.contents|, |ring.contents|, Pending());
          }
          keyseq := keyseq + [key];
          log := log + [RanCommand(command, key)];
          r := Ok;
        case Macro(text) =>
          if key < ANYOTHERKEY {
            QueueAtLeaf(maps, km, key, Pending(), gotSubseq, |ring.contents|, |ring.contents|, Pending());
          }
          log := log + [StartedMacro(text)];
          r := Ok;
        case Unbound =>
          r := Unmatched(key, km, gotSubseq);
        case Submap(next) =>
          keyseq := keyseq + [key];
          dispatching := next;
          if callback {
            var shadowed := maps[next][ANYOTHERKEY] != Unbound;
            r := if multikey then Chained else Ok;
            chain := chain + [Context(gotSubseq, false, gotSubseq || shadowed, key, next, km, Ok)];
            multikey := true;
            return;
          }
          r := Descend(key, km, gotSubseq);
      }
    }

    /** A key without a binding: back up if something is hidden here or further up, or give up. */
    method Unmatched(key: Byte, km: Address, gotSubseq: bool) returns (r: Code)
      requires Valid() && Dispatchable(maps) && km in maps && WellFormedMap(maps, km)
      requires maps[km][key] == Unbound && dispatching == km
      modifies this`keyseq, this`multikey, this`chain, ring`popIndex, ring`contents, ring.buffer
      ensures Valid() && (r == Aborted ==> !multikey)
      ensures r != Aborted ==> chain == old(chain) && multikey == old(multikey)
      ensures var keys := [key] + old(Pending());
        && Reports(maps, km, keys, gotSubseq, r)
        && Effects(maps, km, keys, r, log, old(keyseq), log, keyseq)
        && QueueAfter(maps, km, keys, gotSubseq, |old(ring.contents)|, |ring.contents|, Pending())
        && |Pending()| <= |keys|
    {
      ghost var ring0, rest := |ring.contents|, Pending();
      if maps[km][ANYOTHERKEY] != Unbound {
        BackUp(key);
        r := UseShadow;
      } else if gotSubseq {
        BackUp(key);
        r := NoMatch;
      } else {
        multikey, chain := false, [];
        r := Abort();
      }
      QueueAtLeaf(maps, km, key, rest, gotSubseq, ring0, |ring.contents|, Pending());
    }

    /** The recursive arm of `_rl_dispatch_subseq`: read another key and dispatch it in the
        submap bound to `key`, then act on what that reports. */
    method Descend(key: Byte, km: Address, gotSubseq: bool) returns (r: Code)
      requires Valid() && Dispatchable(maps) && km in maps && WellFormedMap(maps, km) && !callback
      requires maps[km][key] == Submap(dispatching)
      requires keyseq != [] && keyseq[|keyseq| - 1] == key
      modifies this, ring`popIndex, ring`contents, ring.buffer
      ensures Valid() && maps == old(maps) && (r == Aborted ==> !multikey)
      ensures var keys := [key] + old(Pending());
        && Reports(maps, km, keys, gotSubseq, r)
        && Effects(maps, km, keys, r, old(log), DropLast(old(keyseq)), log, keyseq)
        && ((r == UseShadow || r == NoMatch) ==> dispatching == km)
        && QueueAfter(maps, km, keys, gotSubseq, |old(ring.contents)|, |ring.contents|, Pending())
        && |Pending()| <= |keys|
      decreases |Pending()|, 2
    {
      ghost var log0, shown0, rest, ring0 := log, DropLast(keyseq), Pending(), |ring.contents|;
      assert keyseq == shown0 + [key];
      var shadowed := maps[km][ANYOTHERKEY] != Unbound;
      ghost var next := dispatching;
      r := DispatchNext(dispatching, gotSubseq || shadowed);
      ghost var below, logB, shownB := r, log, keyseq;
      ghost var ringB, pendingB := |ring.contents|, Pending();
      if r != Aborted {
        r := SubseqResult(r, km, key, gotSubseq);
      }
      LiftEffects(maps, km, key, next, rest, gotSubseq, below, r, log0, shown0,
                  logB, shownB, ringB, pendingB, log, keyseq, |ring.contents|, Pending());
      LiftQueue(maps, km, key, next, rest, gotSubseq, below, r, ring0, RingAfter(ring0, 1),
                logB, shownB, ringB, pendingB, log, keyseq, |ring.contents|, Pending());
    }

    /** Read a key and dispatch it in `km`; end of input abandons the sequence. */
    method DispatchNext(km: Address, gotSubseq: bool) returns (r: Code)
      requires Valid() && Dispatchable(maps) && km in maps && WellFormedMap(maps, km) && dispatching == km
      modifies this, ring`popIndex, ring`contents, ring.buffer
      ensures Valid() && maps == old(maps) && (r == Aborted ==> !multikey)
      ensures old(GoesDeeper(km)) ==>
        && r == (if old(multikey) then Chained else Ok) && multikey
        && maps[km][old(Pending())[0]] == Submap(dispatching)
        && chain == old(chain) + [Context(gotSubseq, false, gotSubseq || Meaning(maps, dispatching, []) != Unbound,
                                          old(Pending())[0], dispatching, km, Ok)]
        && keyseq == old(keyseq) + [old(Pending())[0]] && log == old(log) && Pending() == old(Pending())[1..]
        && |ring.contents| == RingAfter(|old(ring.contents)|, 1)
      ensures !old(GoesDeeper(km)) ==>
        && Reports(maps, km, old(Pending()), gotSubseq, r)
        && Effects(maps, km, old(Pending()), r, old(log), old(keyseq), log, keyseq)
        && (r == UseShadow || r == NoMatch ==> dispatching == km)
        && QueueAfter(maps, km, old(Pending()), gotSubseq,
                      RingAfter(|old(ring.contents)|, 1), |ring.contents|, Pending())
        && |Pending()| <= |old(Pending())|
        && (callback && r != Aborted ==> chain == old(chain) && multikey == old(multikey))
      decreases |Pending()|, 1
    {
      ghost var keys := Pending();
      var newkey := ReadKey();
      if newkey < 0 {
        r := Abort();
        return;
      }
      assert [newkey as Byte] + Pending() == keys;
      r := DispatchSubseq(newkey, km, gotSubseq);
    }

    /** `_rl_subseq_result`: act on what the dispatch one level down reported. */
    method SubseqResult(below: Code, km: Address, key: Byte, gotSubseq: bool) returns (r: Code)
      requires Valid() && Dispatchable(maps) && km in maps && below != Aborted && below != Chained
      requires below == UseShadow ==> Meaning(maps, dispatching, []) != Unbound
      modifies this, ring`popIndex, ring`contents, ring.buffer
      ensures Valid() && maps == old(maps) && chain == old(chain) && multikey == old(multikey)
      ensures ActedOn(maps, km, key, old(dispatching), gotSubseq, below, r,
                      old(log), old(keyseq), |old(ring.contents)|, old(Pending()),
                      log, keyseq, |ring.contents|, Pending())
      ensures r == UseShadow || (r == NoMatch && gotSubseq) ==> dispatching == km
      ensures |Pending()| <= |old(Pending())| + 1
      decreases |Pending()|, 1
    {
      assert WellFormedMap(maps, km);
      if below == UseShadow {
        var m := dispatching;
        assert WellFormedMap(maps, m);
        var hidden := maps[m][ANYOTHERKEY];
        if hidden.Func? {
          // run the hidden function under the original key by patching it into the submap
          var saved := maps[m][key];
          maps := maps[m := maps[m][key := hidden]];
          dispatching := km;
          r := DispatchSubseq(key, m, false);
          maps := maps[m := maps[m][key := saved]];
          assert maps[m] == old(maps)[m];
        } else {
          dispatching := m;
          r := DispatchSubseq(ANYOTHERKEY, m, false);
        }
      } else if below == NoMatch && maps[km][ANYOTHERKEY] != Unbound {
        BackUp(key);
        dispatching := km;
        r := UseShadow;
      } else if below == NoMatch && gotSubseq {
        BackUp(key);
        dispatching := km;
        r := NoMatch;
      } else {
        r := below;
      }
    }

    /** Between keys: the keys of `p` were read and the next one is awaited. */
    ghost predicate Waiting(root: Address, keys: seq<Byte>, p: seq<Byte>,
                            log0: seq<Event>, shown0: seq<int>, ring0: nat)
      reads this, ring, ring.buffer
      requires Valid() && Dispatchable(maps) && root in maps
    {
      && p != [] && p <= keys && ring0 < |keys| && ChainFor(chain, maps, root, p, false) && multikey
      && dispatching == At(maps, root, p) && Pending() == keys[|p|..]
      && |ring.contents| == RingAfter(ring0, |p| - 1)
      && log == log0 && keyseq == shown0 + p
    }

    /** Backing up: the dispatch below the path `p` has reported `r`. */
    ghost predicate BackingUp(root: Address, keys: seq<Byte>, p: seq<Byte>, r: Code,
                              log0: seq<Event>, shown0: seq<int>, ring0: nat)
      reads this, ring, ring.buffer
      requires Valid() && Dispatchable(maps) && root in maps
    {
      && ChainFor(chain, maps, root, p, true) && multikey && dispatching == At(maps, root, p)
      && (r == NoMatch || r == UseShadow)
      && (p != [] ==> chain[|p| - 1].childval == r)
      && Level(maps, root, keys, p, r, log0, shown0, ring0, log, keyseq, |ring.contents|, Pending())
    }

    /** The whole sequence is over. */
    ghost predicate Finished(root: Address, keys: seq<Byte>, r: Code, log0: seq<Event>, shown0: seq<int>, ring0: nat)
      reads this, ring, ring.buffer
      requires Valid() && Dispatchable(maps) && root in maps
    {
      && !multikey && (r == Ok ==> chain == [])
      && (r == Ok || r == Aborted)
      && Level(maps, root, keys, [], r, log0, shown0, ring0, log, keyseq, |ring.contents|, Pending())
    }

    /** First use of the innermost context (`_rl_dispatch_callback`, first branch): read a key
        and dispatch it in the context's submap. */
    method DispatchContext(ghost root: Address, ghost keys: seq<Byte>, ghost p: seq<Byte>,
                           ghost log0: seq<Event>, ghost shown0: seq<int>, ghost ring0: nat) returns (r: Code)
      requires Valid() && Dispatchable(maps) && callback && root in maps && Meaning(maps, root, []) == Unbound
      requires Waiting(root, keys, p, log0, shown0, ring0)
      modifies this, ring`popIndex, ring`contents, ring.buffer
      ensures Valid() && maps == old(maps)
      ensures r == Chained ==> |p| < |keys| && Waiting(root, keys, keys[..|p| + 1], log0, shown0, ring0)
      ensures r == Aborted ==> Finished(root, keys, r, log0, shown0, ring0)
      ensures r != Chained && r != Aborted ==>
        && ChainFor(chain, maps, root, p, true) && multikey && (r != Ok ==> dispatching == At(maps, root, p))
        && Level(maps, root, keys, p, r, log0, shown0, ring0, log, keyseq, |ring.contents|, Pending())
    {
      var i := |chain| - 1;
      var cxt := chain[i];
      assert ContextFor(cxt, maps, root, p, i, false) && p[..|p|] == p;
      ghost var ringHere, deeper := |ring.contents|, GoesDeeper(cxt.dmap);
      r := DispatchNext(cxt.dmap, cxt.subseqArg);
      if !deeper {
        LevelFrom(maps, root, keys, p, r, log0, shown0, ring0, ringHere, log, keyseq, |ring.contents|, Pending());
      }
      if r == Aborted {
        Surface(maps, root, keys, p, r, log0, shown0, ring0, log, keyseq, |ring.contents|, Pending());
        return;
      }
      ghost var grown := chain;
      chain := chain[i := cxt.(dispatched := true)];
      if r == Chained {
        ChainGrows(grown[..i + 1], maps, root, p, keys, grown[i + 1]);
        assert chain == grown[..i + 1][i := cxt.(dispatched := true)] + [grown[i + 1]];
      } else {
        MarkDispatched(grown, chain, maps, root, p);
      }
    }

    /** The rest of `_rl_dispatch_callback`: act on the report `below` through the innermost
        context, then either end the sequence or hand the result to the next context out. */
    method ActOnReport(below: Code, ghost root: Address, ghost keys: seq<Byte>, ghost p: seq<Byte>,
                       ghost log0: seq<Event>, ghost shown0: seq<int>, ghost ring0: nat) returns (r: Code)
      requires Valid() && Dispatchable(maps) && callback && root in maps && Meaning(maps, root, []) == Unbound
      requires p != [] && ChainFor(chain, maps, root, p, true) && multikey
      requires below != Ok ==> dispatching == At(maps, root, p)
      requires below != Chained && below != Aborted
      requires Level(maps, root, keys, p, below, log0, shown0, ring0, log, keyseq, |ring.contents|, Pending())
      modifies this, ring`popIndex, ring`contents, ring.buffer
      ensures Valid() && maps == old(maps)
      ensures r == Ok ==> Finished(root, keys, r, log0, shown0, ring0)
      ensures r != Ok ==> BackingUp(root, keys, Front(p), r, log0, shown0, ring0)
    {
      var cxt := chain[|chain| - 1];
      assert ContextFor(cxt, maps, root, p, |p| - 1, true);
      assert p[..|p|] == p && p[..|p| - 1] == Front(p);
      ghost var logB, shownB, ringB, pendingB := log, keyseq, |ring.contents|, Pending();
      r := SubseqResult(below, cxt.oldmap, cxt.okey, cxt.subseq);
      UpOne(maps, root, keys, p, below, r, log0, shown0, ring0, logB, shownB, ringB, pendingB,
            log, keyseq, |ring.contents|, Pending());
      LeaveContext(r, root, keys, p, log0, shown0, ring0);
    }

    /** End the sequence, or hand the result to the next context out. */
    method LeaveContext(r: Code, ghost root: Address, ghost keys: seq<Byte>, ghost p: seq<Byte>,
                        ghost log0: seq<Event>, ghost shown0: seq<int>, ghost ring0: nat)
      requires Valid() && Dispatchable(maps) && root in maps && Meaning(maps, root, []) == Unbound
      requires p != [] && ChainFor(chain, maps, root, p, true) && multikey
      requires r != Ok ==> dispatching == At(maps, root, Front(p))
      requires Level(maps, root, keys, Front(p), r, log0, shown0, ring0, log, keyseq, |ring.contents|, Pending())
      requires r != Aborted && r != Chained
      modifies this`chain, this`multikey
      ensures Valid()
      ensures r == Ok ==> Finished(root, keys, r, log0, shown0, ring0)
      ensures r != Ok ==> BackingUp(root, keys, Front(p), r, log0, shown0, ring0)
    {
      var cxt := chain[|chain| - 1];
      assert ContextFor(cxt, maps, root, p, |p| - 1, true) && p[..|p| - 1] == Front(p);
      if r == Ok {
        Surface(maps, root, keys, Front(p), r, log0, shown0, ring0, log, keyseq, |ring.contents|, Pending());
      }
      if r == Ok || (r == NoMatch && !cxt.subseq) {
        chain, multikey := [], false;
        return;
      }
      ChainShrinks(chain, maps, root, p, r);
      chain := Popped(chain, r);
    }

    /** `_rl_dispatch_callback` on the innermost context. */
    method DispatchCallback(ghost root: Address, ghost keys: seq<Byte>, ghost p: seq<Byte>, ghost below: Code,
                            ghost log0: seq<Event>, ghost shown0: seq<int>, ghost ring0: nat) returns (r: Code)
      requires Valid() && Dispatchable(maps) && callback && chain != []
      requires root in maps && Meaning(maps, root, []) == Unbound
      requires if chain[|chain| - 1].dispatched then BackingUp(root, keys, p, below, log0, shown0, ring0)
               else Waiting(root, keys, p, log0, shown0, ring0)
      modifies this, ring`popIndex, ring`contents, ring.buffer
      ensures Valid() && maps == old(maps)
      ensures r == Chained ==>
        && !old(chain[|chain| - 1]).dispatched && |p| < |keys|
        && Waiting(root, keys, keys[..|p| + 1], log0, shown0, ring0)
      ensures r == Ok || r == Aborted ==> Finished(root, keys, r, log0, shown0, ring0)
      ensures r == NoMatch || r == UseShadow ==> BackingUp(root, keys, Front(p), r, log0, shown0, ring0)
    {
      if !chain[|chain| - 1].dispatched {
        r := DispatchContext(root, keys, p, log0, shown0, ring0);
        if r == Aborted { return; }
      } else {
        r := chain[|chain| - 1].childval;
      }
      if r == Chained {
        ghost var before := chain;
        chain := chain[|chain| - 1 := chain[|chain| - 1].(childval := r)];
        ChildvalIgnored(before, chain, maps, root, keys[..|p| + 1], false);
      } else {
        r := ActOnReport(r, root, keys, p, log0, shown0, ring0);
      }
    }

    /** The multi-key arm of `rl_callback_read_char`: one key, and all the backing up it causes. */
    method ReadMultiKey(ghost root: Address, ghost keys: seq<Byte>, ghost p: seq<Byte>,
                        ghost log0: seq<Event>, ghost shown0: seq<int>, ghost ring0: nat) returns (r: Code)
      requires Valid() && Dispatchable(maps) && callback && root in maps && Meaning(maps, root, []) == Unbound
      requires Waiting(root, keys, p, log0, shown0, ring0)
      modifies this, ring`popIndex, ring`contents, ring.buffer
      ensures Valid() && maps == old(maps)
      ensures multikey ==> |p| < |keys| && Waiting(root, keys, keys[..|p| + 1], log0, shown0, ring0)
      ensures !multikey ==> Finished(root, keys, r, log0, shown0, ring0)
    {
      assert ContextFor(chain[|p| - 1], maps, root, p, |p| - 1, false);
      r := DispatchCallback(root, keys, p, Ok, log0, shown0, ring0);
      ghost var q := Front(p);
      while (r == NoMatch || r == UseShadow) && multikey && chain != [] && chain[|chain| - 1].dispatched
        invariant Valid() && maps == old(maps) && |q| < |p|
        invariant r == Chained ==> |p| < |keys| && Waiting(root, keys, keys[..|p| + 1], log0, shown0, ring0)
        invariant r == Ok || r == Aborted ==> Finished(root, keys, r, log0, shown0, ring0)
        invariant r == NoMatch || r == UseShadow ==> BackingUp(root, keys, q, r, log0, shown0, ring0)
        decreases |q|, r == NoMatch || r == UseShadow
      {
        r := DispatchCallback(root, keys, q, r, log0, shown0, ring0);
        q := if r == NoMatch || r == UseShadow then Front(q) else q;
      }
    }

    /** A command read key by key through the callback interface. */
    method CallbackCommand(root: Address) returns (r: Code)
      requires Valid() && Dispatchable(maps) && callback && root in maps && Meaning(maps, root, []) == Unbound
      requires Pending() != [] && chain == [] && !multikey && keyseq == []
      modifies this, ring`popIndex, ring`contents, ring.buffer
      ensures Valid() && maps == old(maps) && !multikey
      ensures MaximalMunch(maps, root, old(Pending()), r, old(log), log, keyseq, Pending())
    {
      ghost var keys, log0, ring0 := Pending(), log, RingAfter(|ring.contents|, 1);
      ghost var p: seq<Byte> := [];
      dispatching := root;
      assert WellFormedMap(maps, root);
      r := DispatchNext(root, false);
      if multikey {
        p := keys[..1];
        FirstContext(chain, maps, root, keys);
      }
      while multikey
        invariant Valid() && maps == old(maps)
        invariant multikey ==> |p| <= |keys| && Waiting(root, keys, p, log0, [], ring0)
        invariant !multikey ==> Level(maps, root, keys, [], r, log0, [], ring0, log, keyseq, |ring.contents|, Pending())
        decreases |keys| - |p|, multikey
      {
        r := ReadMultiKey(root, keys, p, log0, [], ring0);
        if multikey {
          p := keys[..|p| + 1];
        }
      }
      TopLevelMunch(maps, root, keys, r, log0, log, keyseq, ring0, |ring.contents|, Pending());
    }

    /** `readline_internal_char` with the recursive dispatcher: read one command. */
    method RecursiveCommand(root: Address) returns (r: Code)
      requires Valid() && Dispatchable(maps) && !callback && root in maps && Meaning(maps, root, []) == Unbound
      requires Pending() != [] && keyseq == []
      modifies this, ring`popIndex, ring`contents, ring.buffer
      ensures Valid() && maps == old(maps)
      ensures MaximalMunch(maps, root, old(Pending()), r, old(log), log, keyseq, Pending())
    {
      ghost var keys, log0, ring0 := Pending(), log, RingAfter(|ring.contents|, 1);
      dispatching := root;
      assert WellFormedMap(maps, root);
      r := DispatchNext(root, false);
      TopLevelMunch(maps, root, keys, r, log0, log, keyseq, ring0, |ring.contents|, Pending());
    }
  }
}
