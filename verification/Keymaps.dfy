/** Keymaps as `keymaps.h` lays them out: arrays of 257 entries that point at commands,
    macros or further keymaps.  The store maps each keymap's address to its contents,
    so sharing and update in place stay visible. */
module Keymaps {
  import opened Bytes

  const KEYMAP_SIZE: nat := 257
  /** The extra slot that keeps the binding a keymap hides. */
  const ANYOTHERKEY: nat := 256

  type Slot = k: int | 0 <= k < KEYMAP_SIZE
  type Address = nat

  datatype Command =
    | Named(id: nat)
    | LowercaseVersion   // rl_do_lowercase_version
    | NullFunction       // _rl_null_function

  /** A keymap entry; `Unbound` is type ISFUNC with a null function. */
  datatype Entry =
    | Unbound
    | Func(command: Command)
    | Macro(text: seq<int>)
    | Submap(target: Address)

  type Keymap = seq<Entry>
  type Store = map<Address, Keymap>

  ghost predicate WellFormedMap(st: Store, m: Address)
    requires m in st
  {
    && |st[m]| == KEYMAP_SIZE
    && !st[m][ANYOTHERKEY].Submap?
    && forall k: Byte :: st[m][k].Submap? ==> st[m][k].target in st
  }

  /** Every keymap has all its entries, points only at keymaps in the store, and hides
      only commands and macros. */
  ghost predicate WellFormed(st: Store)
  {
    forall m :: m in st ==> WellFormedMap(st, m)
  }

  /** The raw entry that `keys` leads to (`_rl_function_of_keyseq_internal`). */
  ghost function EntryAt(st: Store, m: Address, keys: seq<Byte>): (e: Entry)
    requires WellFormed(st) && m in st && keys != []
    decreases |keys|
  {
    assert WellFormedMap(st, m);
    var e := st[m][keys[0]];
    if |keys| == 1 then e
    else if e.Submap? then EntryAt(st, e.target, keys[1..])
    else Unbound
  }

  /** What typing `keys` means: a string that ends at a submap means the binding
      that submap hides. */
  ghost function Meaning(st: Store, m: Address, keys: seq<Byte>): (e: Entry)
    requires WellFormed(st) && m in st
    ensures !e.Submap?
    decreases |keys|
  {
    assert WellFormedMap(st, m);
    if keys == [] then st[m][ANYOTHERKEY]
    else if st[m][keys[0]].Submap? then Meaning(st, st[m][keys[0]].target, keys[1..])
    else if |keys| == 1 then st[m][keys[0]]
    else Unbound
  }

  lemma {:induction false} MeaningOfEntry(st: Store, m: Address, keys: seq<Byte>)
    requires WellFormed(st) && m in st && keys != []
    ensures var e := EntryAt(st, m, keys);
            if e.Submap? then e.target in st && Meaning(st, m, keys) == st[e.target][ANYOTHERKEY]
            else Meaning(st, m, keys) == e
    decreases |keys|
  {
    assert WellFormedMap(st, m);
    var e := st[m][keys[0]];
    if |keys| > 1 && e.Submap? {
      MeaningOfEntry(st, e.target, keys[1..]);
    }
  }
}
