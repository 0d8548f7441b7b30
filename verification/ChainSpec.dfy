/** Facts about the path of submaps that a chain of key-sequence contexts stands for. */
module ChainSpec {
  import opened Bytes
  import opened Keymaps
  import opened DispatchSpec

  function Front(p: seq<Byte>): (f: seq<Byte>)
    requires p != []
    ensures |f| == |p| - 1
  {
    p[..|p| - 1]
  }

  function Last(p: seq<Byte>): (k: Byte)
    requires p != []
  {
    p[|p| - 1]
  }

  /** The submap that `p` leads to, or the last one on its way. */
  ghost function At(st: Store, m: Address, p: seq<Byte>): (a: Address)
    requires WellFormed(st) && m in st
    ensures a in st && WellFormedMap(st, a)
    decreases |p|
  {
    if p == [] then m
    else
      var up := At(st, m, Front(p));
      if st[up][Last(p)].Submap? then st[up][Last(p)].target else up
  }

  /** Every key of `p` leads to a further submap. */
  ghost predicate Through(st: Store, m: Address, p: seq<Byte>)
    requires WellFormed(st) && m in st
    decreases |p|
  {
    p == [] || (Through(st, m, Front(p)) && st[At(st, m, Front(p))][Last(p)].Submap?)
  }

  /** Some submap on the path `p`, the starting map aside, hides a binding. */
  ghost predicate Hidden(st: Store, m: Address, p: seq<Byte>)
    requires WellFormed(st) && m in st
    decreases |p|
  {
    p != [] && (Meaning(st, At(st, m, p), []) != Unbound || Hidden(st, m, Front(p)))
  }

  /** The dispatch of the keys after `p`, in the submap `p` leads to, has reported `r`. */
  ghost predicate Level(st: Store, root: Address, keys: seq<Byte>, p: seq<Byte>, r: Code,
                        log0: seq<Event>, shown0: seq<int>, ring0: nat,
                        log1: seq<Event>, shown1: seq<int>, ring1: nat, pending1: seq<Byte>)
    requires WellFormed(st) && root in st
  {
    && p <= keys && Through(st, root, p)
    && Reports(st, At(st, root, p), keys[|p|..], Hidden(st, root, p), r)
    && Effects(st, At(st, root, p), keys[|p|..], r, log0, shown0 + p, log1, shown1)
    && ring0 < |keys|
    && QueueAfter(st, At(st, root, p), keys[|p|..], Hidden(st, root, p), RingAfter(ring0, |p|), ring1, pending1)
  }

  /** From a dispatch in the submap `p` leads to, begun when the ring held `ringHere` keys. */
  lemma LevelFrom(st: Store, root: Address, keys: seq<Byte>, p: seq<Byte>, r: Code,
                  log0: seq<Event>, shown0: seq<int>, ring0: nat, ringHere: nat,
                  log1: seq<Event>, shown1: seq<int>, ring1: nat, pending1: seq<Byte>)
    requires WellFormed(st) && root in st && p != [] && p <= keys && Through(st, root, p) && ring0 < |keys|
    requires ringHere == RingAfter(ring0, |p| - 1)
    requires Reports(st, At(st, root, p), keys[|p|..], Hidden(st, root, p), r)
    requires Effects(st, At(st, root, p), keys[|p|..], r, log0, shown0 + p, log1, shown1)
    requires QueueAfter(st, At(st, root, p), keys[|p|..], Hidden(st, root, p), RingAfter(ringHere, 1), ring1, pending1)
    ensures Level(st, root, keys, p, r, log0, shown0, ring0, log1, shown1, ring1, pending1)
  {
  }

  /** One level up: the context for the last key of `p` acts on the report from below.  The
      context's own flag counts what its submap hides, where the recursion counts what the map
      above hides; the two never lead to different results. */
  lemma UpOne(st: Store, root: Address, keys: seq<Byte>, p: seq<Byte>, below: Code, r: Code,
              log0: seq<Event>, shown0: seq<int>, ring0: nat,
              logB: seq<Event>, shownB: seq<int>, ringB: nat, pendingB: seq<Byte>,
              log1: seq<Event>, shown1: seq<int>, ring1: nat, pending1: seq<Byte>)
    requires WellFormed(st) && root in st && Meaning(st, root, []) == Unbound && p != []
    requires Level(st, root, keys, p, below, log0, shown0, ring0, logB, shownB, ringB, pendingB)
    requires ActedOn(st, At(st, root, Front(p)), Last(p), At(st, root, p), Hidden(st, root, Front(p)), below, r,
                     logB, shownB, ringB, pendingB, log1, shown1, ring1, pending1)
    ensures Level(st, root, keys, Front(p), r, log0, shown0, ring0, log1, shown1, ring1, pending1)
  {
    var q, key := Front(p), Last(p);
    var m, c := At(st, root, q), At(st, root, p);
    var rest := keys[|p|..];
    assert keys[|q|..] == [key] + rest;
    assert shown0 + p == shown0 + q + [key] by { assert p == q + [key]; }
    if below == NoMatch {
      assert Hidden(st, root, q);
    }
    LiftEffects(st, m, key, c, rest, Hidden(st, root, q), below, r, log0, shown0 + q,
                logB, shownB, ringB, pendingB, log1, shown1, ring1, pending1);
    LiftQueue(st, m, key, c, rest, Hidden(st, root, q), below, r, RingAfter(ring0, |q|), RingAfter(ring0, |p|),
              logB, shownB, ringB, pendingB, log1, shown1, ring1, pending1);
  }

  /** A dispatch that ran a binding, or was abandoned, did so for the whole sequence. */
  lemma {:induction false} Surface(st: Store, root: Address, keys: seq<Byte>, p: seq<Byte>, r: Code,
                log0: seq<Event>, shown0: seq<int>, ring0: nat,
                log1: seq<Event>, shown1: seq<int>, ring1: nat, pending1: seq<Byte>)
    requires WellFormed(st) && root in st && Meaning(st, root, []) == Unbound
    requires r == Ok || r == Aborted
    requires Level(st, root, keys, p, r, log0, shown0, ring0, log1, shown1, ring1, pending1)
    ensures Level(st, root, keys, [], r, log0, shown0, ring0, log1, shown1, ring1, pending1)
    decreases |p|
  {
    if p != [] {
      UpOne(st, root, keys, p, r, r, log0, shown0, ring0, log1, shown1, ring1, pending1, log1, shown1, ring1, pending1);
      Surface(st, root, keys, Front(p), r, log0, shown0, ring0, log1, shown1, ring1, pending1);
    }
  }

  /** `_rl_keyseq_cxt`: one pending level of a multi-key sequence. */
  datatype Context = Context(
    subseq: bool,       // KSEQ_SUBSEQ
    dispatched: bool,   // KSEQ_DISPATCHED
    subseqArg: bool,
    okey: Byte,
    dmap: Address,
    oldmap: Address,
    childval: Code)

  /** The chain stands for the path `p`: one context for each key, every one but perhaps the
      innermost already dispatched. */
  ghost predicate ChainFor(chain: seq<Context>, st: Store, root: Address, p: seq<Byte>, allDispatched: bool)
    requires WellFormed(st) && root in st
  {
    |chain| == |p| && Through(st, root, p) &&
    forall i :: 0 <= i < |p| ==> ContextFor(chain[i], st, root, p, i, allDispatched || i < |p| - 1)
  }

  ghost predicate ContextFor(c: Context, st: Store, root: Address, p: seq<Byte>, i: nat, dispatched: bool)
    requires WellFormed(st) && root in st && i < |p|
  {
    && c.okey == p[i] && c.dispatched == dispatched
    && c.oldmap == At(st, root, p[..i]) && c.dmap == At(st, root, p[..i + 1])
    && c.subseq == Hidden(st, root, p[..i]) && c.subseqArg == Hidden(st, root, p[..i + 1])
  }

  /** Reading a key that leads to a further submap adds a context. */
  lemma ChainGrows(chain: seq<Context>, st: Store, root: Address, p: seq<Byte>, keys: seq<Byte>, c: Context)
    requires WellFormed(st) && root in st && p != [] && p < keys
    requires ChainFor(chain, st, root, p, false)
    requires st[At(st, root, p)][keys[|p|]].Submap?
    requires var next := st[At(st, root, p)][keys[|p|]].target;
             var top := chain[|p| - 1];
             && c.okey == keys[|p|] && !c.dispatched && c.oldmap == top.dmap && c.dmap == next
             && c.subseq == top.subseqArg && c.subseqArg == (top.subseqArg || Meaning(st, next, []) != Unbound)
    ensures var top := chain[|p| - 1];
            ChainFor(chain[|p| - 1 := top.(dispatched := true)] + [c], st, root, keys[..|p| + 1], false)
    ensures At(st, root, keys[..|p| + 1]) == st[At(st, root, p)][keys[|p|]].target
  {
    var q := keys[..|p| + 1];
    OneKeyFurther(st, root, p, q);
    var top := chain[|p| - 1];
    var grown := chain[|p| - 1 := top.(dispatched := true)] + [c];
    assert ContextFor(top, st, root, p, |p| - 1, false) && p[..|p|] == p;
    forall i | 0 <= i < |q|
      ensures ContextFor(grown[i], st, root, q, i, i < |q| - 1)
    {
      if i < |p| {
        assert ContextFor(chain[i], st, root, p, i, i < |p| - 1);
        PathPrefix(p, q, i);
      } else {
        assert q[..|p|] == p && q[..|q|] == q;
      }
    }
  }

  lemma OneKeyFurther(st: Store, root: Address, p: seq<Byte>, q: seq<Byte>)
    requires WellFormed(st) && root in st && p < q && |q| == |p| + 1 && Through(st, root, p)
    requires st[At(st, root, p)][q[|p|]].Submap?
    ensures Through(st, root, q) && At(st, root, q) == st[At(st, root, p)][q[|p|]].target
    ensures Hidden(st, root, q) <==> Meaning(st, At(st, root, q), []) != Unbound || Hidden(st, root, p)
  {
    assert Front(q) == p;
  }

  lemma PathPrefix(p: seq<Byte>, q: seq<Byte>, i: nat)
    requires p <= q && i < |p|
    ensures p[i] == q[i] && p[..i] == q[..i] && p[..i + 1] == q[..i + 1]
  {
  }

  /** The chain without its innermost context, the result handed to the next one out. */
  function Popped(chain: seq<Context>, r: Code): (outer: seq<Context>)
    requires chain != []
  {
    var n := |chain| - 1;
    if n == 0 then [] else chain[..n][n - 1 := chain[n - 1].(childval := r)]
  }

  /** Leaving the innermost context. */
  lemma ChainShrinks(chain: seq<Context>, st: Store, root: Address, p: seq<Byte>, r: Code)
    requires WellFormed(st) && root in st && p != [] && ChainFor(chain, st, root, p, true)
    ensures var outer := Popped(chain, r);
            ChainFor(outer, st, root, Front(p), true) && (outer != [] ==> outer[|outer| - 1].childval == r)
  {
    var outer := Popped(chain, r);
    forall i | 0 <= i < |outer|
      ensures ContextFor(outer[i], st, root, Front(p), i, true)
    {
      assert ContextFor(chain[i], st, root, p, i, true);
      PathPrefix(Front(p), p, i);
    }
  }

  lemma ChildvalIgnored(chain: seq<Context>, chain': seq<Context>, st: Store, root: Address, p: seq<Byte>, all: bool)
    requires WellFormed(st) && root in st && ChainFor(chain, st, root, p, all)
    requires |chain'| == |chain|
    requires forall i :: 0 <= i < |chain| ==> chain'[i] == chain[i].(childval := chain'[i].childval)
    ensures ChainFor(chain', st, root, p, all)
  {
    forall i | 0 <= i < |p|
      ensures ContextFor(chain'[i], st, root, p, i, all || i < |p| - 1)
    {
      assert ContextFor(chain[i], st, root, p, i, all || i < |p| - 1);
    }
  }

  /** The innermost context has been dispatched. */
  lemma MarkDispatched(chain: seq<Context>, chain': seq<Context>, st: Store, root: Address, p: seq<Byte>)
    requires WellFormed(st) && root in st && p != [] && ChainFor(chain, st, root, p, false)
    requires chain' == chain[|p| - 1 := chain[|p| - 1].(dispatched := true)]
    ensures ChainFor(chain', st, root, p, true)
  {
    forall i | 0 <= i < |p| ensures ContextFor(chain'[i], st, root, p, i, true)
    {
      assert ContextFor(chain[i], st, root, p, i, i < |p| - 1);
    }
  }

  /** The first key of a sequence makes the outermost context. */
  lemma FirstContext(chain: seq<Context>, st: Store, root: Address, keys: seq<Byte>)
    requires WellFormed(st) && root in st && WellFormedMap(st, root) && keys != []
    requires st[root][keys[0]].Submap?
    requires var next := st[root][keys[0]].target;
             && next in st
             && chain == [Context(false, false, false || Meaning(st, next, []) != Unbound, keys[0], next, root, Ok)]
    ensures ChainFor(chain, st, root, keys[..1], false)
    ensures At(st, root, keys[..1]) == st[root][keys[0]].target
  {
    var p := keys[..1];
    assert Front(p) == [] && p[..0] == [] && p[..1] == p;
    assert At(st, root, []) == root && !Hidden(st, root, []);
    assert Hidden(st, root, p) == (Meaning(st, st[root][keys[0]].target, []) != Unbound);
  }
}
