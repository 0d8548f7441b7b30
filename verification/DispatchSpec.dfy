/** What one key-sequence dispatch should do, independent of how it is computed. */
module DispatchSpec {
  import InputRing
  import opened Bytes
  import opened Keymaps

  /** The fate of a stream of typed keys in a keymap: run the binding of the first `length`
      keys, match nothing, or hit end of input while still inside a sequence. */
  datatype Fate = Run(length: nat) | Miss | EndOfInput

  /** A command or macro being run, with the key it is called with. */
  datatype Event = RanCommand(command: Command, key: Slot) | StartedMacro(text: seq<int>)

  ghost function FateOf(st: Store, m: Address, keys: seq<Byte>): (f: Fate)
    requires WellFormed(st) && m in st
    ensures f.Run? ==> 1 <= f.length <= |keys| && Meaning(st, m, keys[..f.length]) != Unbound
    decreases |keys|
  {
    if keys == [] then EndOfInput else
    assert WellFormedMap(st, m);
    match st[m][keys[0]]
    case Unbound => Miss
    case Func(_) => Run(1)
    case Macro(_) => Run(1)
    case Submap(c) =>
      match FateOf(st, c, keys[1..])
      case Run(n) =>
        assert keys[..n + 1][1..] == keys[1..][..n];
        Run(n + 1)
      case EndOfInput => EndOfInput
      case Miss => if Meaning(st, c, []) != Unbound then Run(1) else Miss
  }

  /** How many keys are read before the fate is known. */
  ghost function Depth(st: Store, m: Address, keys: seq<Byte>): (d: nat)
    requires WellFormed(st) && m in st
    ensures d <= |keys|
    ensures FateOf(st, m, keys).Run? ==> FateOf(st, m, keys).length <= d
    ensures FateOf(st, m, keys).EndOfInput? ==> d == |keys|
    ensures keys != [] ==> d >= 1
    decreases |keys|
  {
    if keys == [] then 0 else
    assert WellFormedMap(st, m);
    if st[m][keys[0]].Submap? then 1 + Depth(st, st[m][keys[0]].target, keys[1..]) else 1
  }

  /** The stream leaves the trie of submaps: some prefix of it ends at an entry that is not
      a submap, so the dispatcher needs no further key. */
  ghost predicate Decided(st: Store, m: Address, keys: seq<Byte>)
    requires WellFormed(st) && m in st
  {
    exists d :: 1 <= d <= |keys| && !EntryAt(st, m, keys[..d]).Submap?
  }

  /** `n` is the length of the longest non-empty prefix of `keys` that is bound. */
  ghost predicate LongestBound(st: Store, m: Address, keys: seq<Byte>, n: nat)
    requires WellFormed(st) && m in st
  {
    && 1 <= n <= |keys|
    && Meaning(st, m, keys[..n]) != Unbound
    && forall j :: n < j <= |keys| ==> Meaning(st, m, keys[..j]) == Unbound
  }

  ghost predicate NothingBound(st: Store, m: Address, keys: seq<Byte>)
    requires WellFormed(st) && m in st
  {
    forall j :: 1 <= j <= |keys| ==> Meaning(st, m, keys[..j]) == Unbound
  }

  lemma {:induction false} PrefixStep(st: Store, m: Address, keys: seq<Byte>, j: nat)
    requires WellFormed(st) && m in st && 1 <= j <= |keys|
    ensures WellFormedMap(st, m)
    ensures st[m][keys[0]].Submap? ==>
      Meaning(st, m, keys[..j]) == Meaning(st, st[m][keys[0]].target, keys[1..][..j - 1])
    ensures st[m][keys[0]].Submap? && j > 1 ==>
      EntryAt(st, m, keys[..j]) == EntryAt(st, st[m][keys[0]].target, keys[1..][..j - 1])
    ensures !st[m][keys[0]].Submap? ==>
      Meaning(st, m, keys[..j]) == if j == 1 then st[m][keys[0]] else Unbound
  {
    assert keys[..j][1..] == keys[1..][..j - 1];
    assert WellFormedMap(st, m);
  }

  /** Dispatch is maximal munch: the fate of a stream is to run its longest bound prefix, it
      matches nothing exactly when no prefix is bound, and it fails at end of input exactly
      when every prefix is still inside a submap. */
  lemma {:induction false} FateIsMaximalMunch(st: Store, m: Address, keys: seq<Byte>)
    requires WellFormed(st) && m in st
    ensures FateOf(st, m, keys).EndOfInput? <==> !Decided(st, m, keys)
    ensures forall n: nat :: FateOf(st, m, keys) == Run(n) <==> Decided(st, m, keys) && LongestBound(st, m, keys, n)
    ensures FateOf(st, m, keys).Miss? <==> Decided(st, m, keys) && NothingBound(st, m, keys)
    decreases |keys|
  {
    if keys == [] {
    } else {
      assert WellFormedMap(st, m);
      var e := st[m][keys[0]];
      if e.Submap? {
        FateIsMaximalMunch(st, e.target, keys[1..]);
        FateThroughSubmap(st, m, keys);
      } else {
        FateAtLeaf(st, m, keys);
      }
      LongestIsUnique(st, m, keys);
    }
  }

  lemma LongestIsUnique(st: Store, m: Address, keys: seq<Byte>)
    requires WellFormed(st) && m in st
    ensures forall a: nat, b: nat :: LongestBound(st, m, keys, a) && LongestBound(st, m, keys, b) ==> a == b
    ensures forall a: nat :: LongestBound(st, m, keys, a) ==> !NothingBound(st, m, keys)
  {
  }

  lemma FateAtLeaf(st: Store, m: Address, keys: seq<Byte>)
    requires WellFormed(st) && m in st && keys != []
    requires WellFormedMap(st, m) && !st[m][keys[0]].Submap?
    ensures Decided(st, m, keys)
    ensures st[m][keys[0]] != Unbound ==> LongestBound(st, m, keys, 1)
    ensures st[m][keys[0]] == Unbound ==> NothingBound(st, m, keys)
  {
    assert !EntryAt(st, m, keys[..1]).Submap?;
    forall j | 1 <= j <= |keys|
      ensures Meaning(st, m, keys[..j]) == if j == 1 then st[m][keys[0]] else Unbound
    {
      PrefixStep(st, m, keys, j);
    }
  }

  lemma FateThroughSubmap(st: Store, m: Address, keys: seq<Byte>)
    requires WellFormed(st) && m in st && keys != []
    requires WellFormedMap(st, m) && st[m][keys[0]].Submap?
    ensures var c, rest := st[m][keys[0]].target, keys[1..];
            && (Decided(st, m, keys) <==> Decided(st, c, rest))
            && (forall n: nat {:trigger LongestBound(st, c, rest, n)} ::
                  LongestBound(st, c, rest, n) ==> LongestBound(st, m, keys, n + 1))
            && (NothingBound(st, c, rest) && Meaning(st, c, []) != Unbound ==> LongestBound(st, m, keys, 1))
            && (NothingBound(st, c, rest) && Meaning(st, c, []) == Unbound ==> NothingBound(st, m, keys))
  {
    var c, rest := st[m][keys[0]].target, keys[1..];
    forall j | 1 <= j <= |keys|
      ensures Meaning(st, m, keys[..j]) == Meaning(st, c, rest[..j - 1])
      ensures j > 1 ==> EntryAt(st, m, keys[..j]) == EntryAt(st, c, rest[..j - 1])
    {
      PrefixStep(st, m, keys, j);
    }
    if Decided(st, c, rest) {
      var d :| 1 <= d <= |rest| && !EntryAt(st, c, rest[..d]).Submap?;
      assert !EntryAt(st, m, keys[..d + 1]).Submap?;
    }
    if Decided(st, m, keys) {
      var d :| 1 <= d <= |keys| && !EntryAt(st, m, keys[..d]).Submap?;
      assert d > 1;
      assert !EntryAt(st, c, rest[..d - 1]).Submap?;
    }
    forall n: nat | LongestBound(st, c, rest, n)
      ensures LongestBound(st, m, keys, n + 1)
    {
    }
    assert rest[..0] == [];
  }

  /** What running a binding with its last key does. */
  function EventFor(e: Entry, key: Slot): (ev: Event)
    requires e.Func? || e.Macro?
  {
    match e
    case Func(c) => RanCommand(c, key)
    case Macro(t) => StartedMacro(t)
  }

  /** The keys `rl_executing_keyseq` shows when a binding of `keys` runs: a macro's last key
      is not recorded. */
  function Recorded(e: Entry, keys: seq<int>): (shown: seq<int>)
    requires keys != []
  {
    if e.Macro? then keys[..|keys| - 1] else keys
  }

  function DropLast(s: seq<int>): (t: seq<int>)
  {
    if s == [] then [] else s[..|s| - 1]
  }

  /** How a dispatch in `m` reports back: after running a binding; after a miss, asking the
      caller to run what `m` hides, or to look further up when something up there is hidden;
      or by abandoning the whole sequence. */
  datatype Code = Ok | NoMatch | UseShadow | Chained | Aborted

  ghost predicate Reports(st: Store, m: Address, keys: seq<Byte>, above: bool, r: Code)
    requires WellFormed(st) && m in st
  {
    match FateOf(st, m, keys)
    case Run(_) => r == Ok
    case EndOfInput => r == Aborted
    case Miss =>
      r == if Meaning(st, m, []) != Unbound then UseShadow else if above then NoMatch else Aborted
  }

  /** The log and recorded key sequence after a dispatch that reports `r`. */
  ghost predicate Effects(st: Store, m: Address, keys: seq<Byte>, r: Code,
                          log0: seq<Event>, shown0: seq<int>, log1: seq<Event>, shown1: seq<int>)
    requires WellFormed(st) && m in st
  {
    match FateOf(st, m, keys)
    case Run(n) =>
      var e := Meaning(st, m, keys[..n]);
      && log1 == log0 + [EventFor(e, keys[n - 1])]
      && shown1 == shown0 + Recorded(e, keys[..n])
    case EndOfInput => log1 == log0
    case Miss => log1 == log0 && (r != Aborted ==> shown1 == DropLast(shown0))
  }

  /** The number of keys a dispatch has to put back. */
  ghost function PutBack(st: Store, m: Address, keys: seq<Byte>, above: bool): (n: nat)
    requires WellFormed(st) && m in st
  {
    match FateOf(st, m, keys)
    case Run(n) => Depth(st, m, keys) - n
    case EndOfInput => 0
    case Miss => if above || Meaning(st, m, []) != Unbound then Depth(st, m, keys) else 0
  }

  const RING_SIZE: nat := InputRing.LAST

  /** How many keys the ring still holds after `n` more keys were read. */
  function RingAfter(ring0: nat, n: nat): (k: nat)
  {
    if n <= ring0 then ring0 - n else 0
  }

  /** How many of `n` keys do not fit the ring. */
  function Spilled(n: nat): (k: nat)
  {
    if n <= RING_SIZE then 0 else n - RING_SIZE
  }

  /** The ring and the queue after `d` of the keys were read and the last `k` of those put back, when
      the ring held `ring0` keys after the first: the keys put back come before the others, in
      order, but the first of them are lost when they do not fit the ring. */
  predicate QueueIs(keys: seq<Byte>, d: nat, k: nat, ring0: nat, ring1: nat, pending1: seq<Byte>)
  {
    var total := RingAfter(ring0, if d == 0 then 0 else d - 1) + k;
    && k <= d <= |keys| && ring1 == total - Spilled(total)
    && d - k + Spilled(total) <= |keys| && pending1 == keys[d - k + Spilled(total)..]
  }

  lemma QueueShift(key: Byte, rest: seq<Byte>, d: nat, k: nat, ring0: nat, ring1: nat, pending1: seq<Byte>)
    requires QueueIs(rest, d, k, RingAfter(ring0, 1), ring1, pending1) && ring0 <= |rest| && (d == 0 ==> rest == [])
    ensures QueueIs([key] + rest, d + 1, k, ring0, ring1, pending1)
  {
  }

  lemma QueueBackUp(key: Byte, rest: seq<Byte>, d: nat, ring0: nat, ringB: nat, pendingB: seq<Byte>, ring1: nat,
                    pending1: seq<Byte>)
    requires QueueIs(rest, d, d, RingAfter(ring0, 1), ringB, pendingB) && ring0 <= |rest| && (d == 0 ==> rest == [])
    requires BackedUp(key, ringB, pendingB, ring1, pending1)
    ensures QueueIs([key] + rest, d + 1, d + 1, ring0, ring1, pending1)
  {
    var total := RingAfter(ring0, d) + d;
    if total >= RING_SIZE {
      assert ([key] + rest)[Spilled(total) + 1..] == rest[Spilled(total)..];
    }
  }

  /** The queue after a dispatch that reads `d` keys and puts `k` back. */
  ghost predicate QueueAfter(st: Store, m: Address, keys: seq<Byte>, above: bool,
                             ring0: nat, ring1: nat, pending1: seq<Byte>)
    requires WellFormed(st) && m in st
  {
    forall d: nat, k: nat {:trigger QueueIs(keys, d, k, ring0, ring1, pending1)} ::
      d == Depth(st, m, keys) && k == PutBack(st, m, keys, above) ==> QueueIs(keys, d, k, ring0, ring1, pending1)
  }

  lemma QueueOf(st: Store, m: Address, keys: seq<Byte>, above: bool, ring0: nat, ring1: nat, pending1: seq<Byte>)
    requires WellFormed(st) && m in st
    ensures QueueAfter(st, m, keys, above, ring0, ring1, pending1) <==>
      QueueIs(keys, Depth(st, m, keys), PutBack(st, m, keys, above), ring0, ring1, pending1)
  {
  }

  /** The queue after a key that leads to no submap. */
  lemma QueueAtLeaf(st: Store, m: Address, key: Byte, rest: seq<Byte>, above: bool, ring0: nat, ring1: nat,
                    pending1: seq<Byte>)
    requires WellFormed(st) && m in st && WellFormedMap(st, m) && !st[m][key].Submap?
    requires if st[m][key] == Unbound && (above || Meaning(st, m, []) != Unbound)
             then BackedUp(key, ring0, rest, ring1, pending1)
             else ring1 == ring0 && pending1 == rest
    requires ring0 <= RING_SIZE
    ensures QueueAfter(st, m, [key] + rest, above, ring0, ring1, pending1)
  {
    assert ([key] + rest)[1..] == rest && ([key] + rest)[0..] == [key] + rest;
    QueueOf(st, m, [key] + rest, above, ring0, ring1, pending1);
  }

  /** What acting on the report of the dispatch below does to the log, the recorded keys and the
      queue: run what submap `c` hides, back up one key, or nothing. */
  ghost predicate ActedOn(st: Store, m: Address, key: Byte, c: Address, above: bool, below: Code, r: Code,
                          log0: seq<Event>, shown0: seq<int>, ring0: nat, pending0: seq<Byte>,
                          log1: seq<Event>, shown1: seq<int>, ring1: nat, pending1: seq<Byte>)
    requires WellFormed(st) && m in st && c in st
    requires below == UseShadow ==> Meaning(st, c, []) != Unbound
  {
    match below
    case Ok => r == Ok && log1 == log0 && shown1 == shown0 && pending1 == pending0 && ring1 == ring0
    case UseShadow =>
      var e := Meaning(st, c, []);
      && r == Ok && log1 == log0 + [EventFor(e, key)] && shown1 == shown0 + Recorded(e, [key])
      && pending1 == pending0 && ring1 == ring0
    case NoMatch =>
      && log1 == log0
      && r == (if Meaning(st, m, []) != Unbound then UseShadow else NoMatch)
      && (r == UseShadow || above ==> shown1 == DropLast(shown0) && BackedUp(key, ring0, pending0, ring1, pending1))
    case _ => r == Aborted && log1 == log0 && pending1 == pending0 && ring1 == ring0
  }

  /** A key was put back in front, unless the ring was full. */
  predicate BackedUp(key: Byte, ring0: nat, pending0: seq<Byte>, ring1: nat, pending1: seq<Byte>)
  {
    if ring0 < RING_SIZE then ring1 == ring0 + 1 && pending1 == [key] + pending0
    else ring1 == ring0 && pending1 == pending0
  }

  /** The specification of a dispatch through a submap, in terms of the dispatch below it. */
  lemma ThroughSubmap(st: Store, m: Address, key: Byte, rest: seq<Byte>)
    requires WellFormed(st) && m in st && WellFormedMap(st, m) && st[m][key].Submap?
    ensures var c, keys := st[m][key].target, [key] + rest;
            && Depth(st, m, keys) == 1 + Depth(st, c, rest)
            && FateOf(st, m, keys) == (match FateOf(st, c, rest)
                 case Run(n) => Run(n + 1)
                 case EndOfInput => EndOfInput
                 case Miss => if Meaning(st, c, []) != Unbound then Run(1) else Miss)
            && Meaning(st, m, keys[..1]) == Meaning(st, c, [])
            && (FateOf(st, c, rest).Run? ==>
                  var n := FateOf(st, c, rest).length;
                  && Meaning(st, m, keys[..n + 1]) == Meaning(st, c, rest[..n])
                  && keys[..n + 1] == [key] + rest[..n] && keys[n + 1..] == rest[n..])
  {
    var keys := [key] + rest;
    assert keys[1..] == rest;
    assert keys[..1][1..] == [];
    if FateOf(st, st[m][key].target, rest).Run? {
      var n := FateOf(st, st[m][key].target, rest).length;
      assert keys[..n + 1][1..] == rest[..n];
    }
  }

  /** From the dispatch below, and what was then done with its report, to the whole dispatch. */
  lemma LiftEffects(st: Store, m: Address, key: Byte, c: Address, rest: seq<Byte>, above: bool, below: Code, r: Code,
                    log0: seq<Event>, shown0: seq<int>,
                    logB: seq<Event>, shownB: seq<int>, ringB: nat, pendingB: seq<Byte>,
                    log1: seq<Event>, shown1: seq<int>, ring1: nat, pending1: seq<Byte>)
    requires WellFormed(st) && m in st && WellFormedMap(st, m) && st[m][key] == Submap(c) && c in st
    requires Reports(st, c, rest, above || Meaning(st, m, []) != Unbound, below)
    requires Effects(st, c, rest, below, log0, shown0 + [key], logB, shownB)
    requires ActedOn(st, m, key, c, above, below, r, logB, shownB, ringB, pendingB, log1, shown1, ring1, pending1)
    ensures Reports(st, m, [key] + rest, above, r)
    ensures Effects(st, m, [key] + rest, r, log0, shown0, log1, shown1)
  {
    ThroughSubmap(st, m, key, rest);
    match FateOf(st, c, rest) {
      case Run(n) =>
        assert ([key] + rest)[n] == rest[n - 1];
        RecordedThrough(shown0, key, Meaning(st, c, rest[..n]), rest[..n]);
      case EndOfInput =>
      case Miss =>
        assert ([key] + rest)[..1] == [key];
        assert DropLast(shown0 + [key]) == shown0;
    }
  }

  lemma RecordedThrough(shown: seq<int>, key: int, e: Entry, keys: seq<int>)
    requires keys != []
    ensures shown + [key] + Recorded(e, keys) == shown + Recorded(e, [key] + keys)
  {
    assert ([key] + keys)[..|keys|] == [key] + keys[..|keys| - 1];
  }

  lemma LiftQueue(st: Store, m: Address, key: Byte, c: Address, rest: seq<Byte>, above: bool, below: Code, r: Code,
                  ring0: nat, ringRead: nat,
                  logB: seq<Event>, shownB: seq<int>, ringB: nat, pendingB: seq<Byte>,
                  log1: seq<Event>, shown1: seq<int>, ring1: nat, pending1: seq<Byte>)
    requires WellFormed(st) && m in st && WellFormedMap(st, m) && st[m][key] == Submap(c) && c in st
    requires Reports(st, c, rest, above || Meaning(st, m, []) != Unbound, below)
    requires QueueAfter(st, c, rest, above || Meaning(st, m, []) != Unbound, ringRead, ringB, pendingB)
    requires ringRead == RingAfter(ring0, 1) && ring0 <= |rest|
    requires ActedOn(st, m, key, c, above, below, r, logB, shownB, ringB, pendingB, log1, shown1, ring1, pending1)
    ensures QueueAfter(st, m, [key] + rest, above, ring0, ring1, pending1)
  {
    if below == NoMatch {
      LiftBackUp(st, m, key, c, rest, above, ring0, ringB, pendingB, ring1, pending1);
    } else {
      LiftShift(st, m, key, c, rest, above, ring0, ring1, pending1);
    }
  }

  lemma LiftBackUp(st: Store, m: Address, key: Byte, c: Address, rest: seq<Byte>, above: bool,
                   ring0: nat, ringB: nat, pendingB: seq<Byte>, ring1: nat, pending1: seq<Byte>)
    requires WellFormed(st) && m in st && WellFormedMap(st, m) && st[m][key] == Submap(c) && c in st
    requires FateOf(st, c, rest).Miss? && Meaning(st, c, []) == Unbound && (above || Meaning(st, m, []) != Unbound)
    requires QueueAfter(st, c, rest, true, RingAfter(ring0, 1), ringB, pendingB) && ring0 <= |rest|
    requires BackedUp(key, ringB, pendingB, ring1, pending1)
    ensures QueueAfter(st, m, [key] + rest, above, ring0, ring1, pending1)
  {
    PutBackThrough(st, m, key, c, rest, above);
    QueueOf(st, c, rest, true, RingAfter(ring0, 1), ringB, pendingB);
    QueueOf(st, m, [key] + rest, above, ring0, ring1, pending1);
    QueueBackUp(key, rest, Depth(st, c, rest), ring0, ringB, pendingB, ring1, pending1);
  }

  lemma LiftShift(st: Store, m: Address, key: Byte, c: Address, rest: seq<Byte>, above: bool,
                  ring0: nat, ring1: nat, pending1: seq<Byte>)
    requires WellFormed(st) && m in st && WellFormedMap(st, m) && st[m][key] == Submap(c) && c in st
    requires !(FateOf(st, c, rest).Miss? && Meaning(st, c, []) == Unbound && (above || Meaning(st, m, []) != Unbound))
    requires QueueAfter(st, c, rest, above || Meaning(st, m, []) != Unbound, RingAfter(ring0, 1), ring1, pending1)
    requires ring0 <= |rest|
    ensures QueueAfter(st, m, [key] + rest, above, ring0, ring1, pending1)
  {
    var hidden := above || Meaning(st, m, []) != Unbound;
    PutBackThrough(st, m, key, c, rest, above);
    QueueOf(st, c, rest, hidden, RingAfter(ring0, 1), ring1, pending1);
    QueueOf(st, m, [key] + rest, above, ring0, ring1, pending1);
    QueueShift(key, rest, Depth(st, c, rest), PutBack(st, c, rest, hidden), ring0, ring1, pending1);
  }

  /** The keys put back by a dispatch through a submap. */
  lemma PutBackThrough(st: Store, m: Address, key: Byte, c: Address, rest: seq<Byte>, above: bool)
    requires WellFormed(st) && m in st && WellFormedMap(st, m) && st[m][key] == Submap(c) && c in st
    ensures var hidden := above || Meaning(st, m, []) != Unbound;
            && Depth(st, m, [key] + rest) == 1 + Depth(st, c, rest)
            && PutBack(st, m, [key] + rest, above) ==
                 PutBack(st, c, rest, hidden) +
                   (if FateOf(st, c, rest).Miss? && Meaning(st, c, []) == Unbound && hidden then 1 else 0)
  {
    ThroughSubmap(st, m, key, rest);
  }

  /** The keys read before the fate is known are the shortest prefix that does not end at a submap,
      or all of them. */
  lemma {:induction false} DepthIsShortest(st: Store, m: Address, keys: seq<Byte>, j: nat)
    requires WellFormed(st) && m in st && 1 <= j <= |keys|
    ensures j < Depth(st, m, keys) ==> EntryAt(st, m, keys[..j]).Submap?
    ensures j == Depth(st, m, keys) && Decided(st, m, keys) ==> !EntryAt(st, m, keys[..j]).Submap?
    decreases |keys|
  {
    assert WellFormedMap(st, m);
    PrefixStep(st, m, keys, j);
    if st[m][keys[0]].Submap? {
      FateThroughSubmap(st, m, keys);
      if j > 1 {
        DepthIsShortest(st, st[m][keys[0]].target, keys[1..], j - 1);
      } else if Decided(st, m, keys) {
        assert keys[1..] != [];
      }
    }
  }

  /** What reading one command should do to the keys `keys`: run the binding of the longest bound
      prefix with that prefix's last key, and leave every later key unread, in order, but for
      those put back that do not fit the ring; or abandon the sequence, exactly when no prefix is
      bound or the input ends inside a submap, and leave the keys not read. */
  ghost predicate MaximalMunch(st: Store, root: Address, keys: seq<Byte>, r: Code,
                               log0: seq<Event>, log1: seq<Event>, shown1: seq<int>, pending1: seq<Byte>)
    requires WellFormed(st) && root in st
  {
    && (r == Ok || r == Aborted)
    && (r == Aborted <==> !Decided(st, root, keys) || NothingBound(st, root, keys))
    && (r == Aborted ==> log1 == log0 && pending1 == keys[Depth(st, root, keys)..])
    && forall n: nat :: r == Ok && LongestBound(st, root, keys, n) ==>
      RanPrefix(st, root, keys, n, log0, log1, shown1, pending1)
  }

  /** The binding of the first `n` keys was run: a function with the last of them, with all of them
      recorded, or a macro, whose last key is not recorded; and the others are unread. */
  ghost predicate RanPrefix(st: Store, root: Address, keys: seq<Byte>, n: nat,
                            log0: seq<Event>, log1: seq<Event>, shown1: seq<int>, pending1: seq<Byte>)
    requires WellFormed(st) && root in st && LongestBound(st, root, keys, n)
  {
    var d := Depth(st, root, keys);
    && (match Meaning(st, root, keys[..n])
        case Func(c) => log1 == log0 + [RanCommand(c, keys[n - 1])] && shown1 == keys[..n]
        case Macro(t) => log1 == log0 + [StartedMacro(t)] && shown1 == keys[..n - 1]
        case _ => false)
    && n <= d && n + Spilled(d - n) <= |keys| && pending1 == keys[n + Spilled(d - n)..]
  }

  lemma RanItsFate(st: Store, root: Address, keys: seq<Byte>, n: nat, log0: seq<Event>, log1: seq<Event>,
                   shown1: seq<int>, ring0: nat, ring1: nat, pending1: seq<Byte>)
    requires WellFormed(st) && root in st && ring0 < RING_SIZE
    requires FateOf(st, root, keys) == Run(n) && LongestBound(st, root, keys, n)
    requires Reports(st, root, keys, false, Ok)
    requires Effects(st, root, keys, Ok, log0, [], log1, shown1)
    requires QueueAfter(st, root, keys, false, ring0, ring1, pending1)
    ensures RanPrefix(st, root, keys, n, log0, log1, shown1, pending1)
  {
    var shown := Recorded(Meaning(st, root, keys[..n]), keys[..n]);
    assert [] + shown == shown;
    QueueOf(st, root, keys, false, ring0, ring1, pending1);
  }

  /** A top-level dispatch that meets its specification is maximal munch. */
  lemma TopLevelMunch(st: Store, root: Address, keys: seq<Byte>, r: Code, log0: seq<Event>, log1: seq<Event>,
                      shown1: seq<int>, ring0: nat, ring1: nat, pending1: seq<Byte>)
    requires WellFormed(st) && root in st && Meaning(st, root, []) == Unbound && ring0 < RING_SIZE
    requires Reports(st, root, keys, false, r)
    requires Effects(st, root, keys, r, log0, [], log1, shown1)
    requires QueueAfter(st, root, keys, false, ring0, ring1, pending1)
    ensures MaximalMunch(st, root, keys, r, log0, log1, shown1, pending1)
  {
    FateIsMaximalMunch(st, root, keys);
    QueueOf(st, root, keys, false, ring0, ring1, pending1);
    if r == Ok {
      var n := FateOf(st, root, keys).length;
      RanItsFate(st, root, keys, n, log0, log1, shown1, ring0, ring1, pending1);
      forall n': nat | LongestBound(st, root, keys, n') ensures n' == n
      {
        LongestIsUnique(st, root, keys);
      }
    }
  }

  /** Maximal munch leaves no freedom: two dispatchers that do it from the same state report the
      same, run the same binding with the same key, show the same key sequence and leave the same
      keys unread, whether the sequence was run or abandoned. */
  lemma MunchIsDeterministic(st: Store, root: Address, keys: seq<Byte>, log0: seq<Event>,
                             r: Code, log1: seq<Event>, shown1: seq<int>, pending1: seq<Byte>,
                             s: Code, log2: seq<Event>, shown2: seq<int>, pending2: seq<Byte>)
    requires WellFormed(st) && root in st
    requires MaximalMunch(st, root, keys, r, log0, log1, shown1, pending1)
    requires MaximalMunch(st, root, keys, s, log0, log2, shown2, pending2)
    ensures r == s && log1 == log2 && pending1 == pending2
    ensures r == Ok ==> shown1 == shown2
  {
    FateIsMaximalMunch(st, root, keys);
    if r == Ok {
      assert FateOf(st, root, keys).Run?;
      assert LongestBound(st, root, keys, FateOf(st, root, keys).length);
    }
  }

  /** No key typed after the sequence that was run is lost if and only if the keys put back, those
      read past it, fit the ring. */
  lemma NoKeyLost(st: Store, root: Address, keys: seq<Byte>, n: nat,
                  log0: seq<Event>, log1: seq<Event>, shown1: seq<int>, pending1: seq<Byte>)
    requires WellFormed(st) && root in st && LongestBound(st, root, keys, n)
    requires MaximalMunch(st, root, keys, Ok, log0, log1, shown1, pending1)
    ensures pending1 == keys[n..] <==> Depth(st, root, keys) - n <= 511
  {
    assert RanPrefix(st, root, keys, n, log0, log1, shown1, pending1);
  }
}
