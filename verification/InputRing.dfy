/** The two-ended key buffer of `input.c`.

    A fixed array of 512 slots is used as a ring between `popIndex` (next key to
    read) and `pushIndex` (next free slot at the far end).  One slot always stays
    free, so the ring is a double-ended queue of at most 511 keys. */
module InputRing {
  import opened Bytes

  /** `ibuffer_len`: the last index of the array, and the number of keys it can hold. */
  const LAST: nat := 511

  /** What `rl_getc` returns at end of input, and the newline it is queued as. */
  const EOF: int := -1
  const NEWLINE: Byte := 10

  /** The array slot of the `i`-th queued key when reading starts at `pop`. */
  function Slot(pop: nat, i: nat): (slot: nat)
  {
    if pop + i <= LAST then pop + i else pop + i - LAST - 1
  }

  /** The longest prefix of `keys` made of self-inserting keys. */
  function SelfInsertRun(keys: seq<Byte>, selfInserting: set<Byte>): (run: seq<Byte>)
    ensures |run| <= |keys|
    ensures forall i :: 0 <= i < |run| ==> run[i] == keys[i] && run[i] in selfInserting
    ensures |run| < |keys| ==> keys[|run|] !in selfInserting
  {
    if keys == [] || keys[0] !in selfInserting then []
    else [keys[0]] + SelfInsertRun(keys[1..], selfInserting)
  }

  /** A self-inserting prefix that cannot be extended is the longest one. */
  lemma SelfInsertRunIs(keys: seq<Byte>, n: nat, selfInserting: set<Byte>)
    requires n <= |keys|
    requires forall i :: 0 <= i < n ==> keys[i] in selfInserting
    requires n < |keys| ==> keys[n] !in selfInserting
    ensures SelfInsertRun(keys, selfInserting) == keys[..n]
  {
    if n > 0 {
      assert keys[0] in selfInserting;
      SelfInsertRunIs(keys[1..], n - 1, selfInserting);
    }
  }

  lemma DropOne(keys: seq<Byte>, n: nat)
    requires n < |keys|
    ensures keys[n..] == [keys[n]] + keys[n + 1..]
  {
  }

  lemma TakeOneMore(c: Byte, keys: seq<Byte>, n: nat)
    requires n < |keys|
    ensures [c] + keys[..n + 1] == [c] + keys[..n] + [keys[n]]
  {
  }

  class KeyRing {
    const buffer: array<Byte>
    var popIndex: nat
    var pushIndex: nat
    /** Set when end of input was stuffed into the ring (`rl_pending_input == EOF`). */
    var pendingEof: bool
    /** The queued keys, next one first. */
    ghost var contents: seq<Byte>

    ghost predicate Valid()
      reads this, buffer
    {
      && buffer.Length == LAST + 1 && popIndex <= LAST && pushIndex <= LAST
      && |contents| <= LAST
      && pushIndex == Slot(popIndex, |contents|)
      && forall i {:trigger Slot(popIndex, i)} :: 0 <= i < |contents| ==> contents[i] == buffer[Slot(popIndex, i)]
    }

    constructor ()
      ensures Valid() && fresh(buffer) && contents == [] && !pendingEof
    {
      buffer := new Byte[LAST + 1];
      popIndex, pushIndex, pendingEof, contents := 0, 0, false, [];
    }

    /** `ibuffer_space`: exactly the number of keys that can still be added. */
    method Space() returns (free: nat)
      requires Valid()
      ensures free == LAST - |contents|
    {
      if popIndex > pushIndex {
        free := popIndex - pushIndex - 1;
      } else {
        free := LAST - (pushIndex - popIndex);
      }
    }

    /** `rl_get_char`: remove the front key. */
    method Get() returns (found: bool, key: Byte)
      requires Valid()
      modifies this`popIndex, this`contents
      ensures Valid()
      ensures found == (old(contents) != [])
      ensures !found ==> contents == []
      ensures found ==> key == old(contents)[0] && contents == old(contents)[1..]
    {
      if pushIndex == popIndex {
        return false, 0;
      }
      assert Slot(popIndex, 0) == popIndex;
      key := buffer[popIndex];
      popIndex := popIndex + 1;
      if popIndex > LAST {
        popIndex := 0;
      }
      forall i | 0 <= i <= LAST ensures Slot(popIndex, i) == Slot(old(popIndex), i + 1) {}
      contents := contents[1..];
      found := true;
    }

    /** `_rl_unget_char`: put a key back in front; fails only when the ring is full. */
    method Unget(key: Byte) returns (ok: bool)
      requires Valid()
      modifies this`popIndex, this`contents, buffer
      ensures Valid()
      ensures ok == (|old(contents)| < 511)
      ensures contents == if ok then [key] + old(contents) else old(contents)
    {
      var free := Space();
      if free == 0 {
        return false;
      }
      popIndex := if popIndex == 0 then LAST else popIndex - 1;
      buffer[popIndex] := key;
      forall i | 1 <= i <= LAST ensures Slot(popIndex, i) == Slot(old(popIndex), i - 1) {}
      contents := [key] + contents;
      ok := true;
    }

    /** `rl_stuff_char`: add a key at the far end; end of input is queued as a newline. */
    method Stuff(key: int) returns (ok: bool)
      requires Valid()
      requires key == EOF || 0 <= key < 256
      modifies this`pushIndex, this`pendingEof, this`contents, buffer
      ensures Valid()
      ensures ok == (|old(contents)| < 511)
      ensures ok ==> contents == old(contents) + [if key == -1 then 10 else key]
      ensures !ok ==> contents == old(contents)
      ensures pendingEof == (old(pendingEof) || (ok && key == EOF))
    {
      var free := Space();
      if free == 0 {
        return false;
      }
      var k := key;
      if k == EOF {
        k := NEWLINE;
        pendingEof := true;
      }
      buffer[pushIndex] := k;
      pushIndex := pushIndex + 1;
      if pushIndex > LAST {
        pushIndex := 0;
      }
      assert pushIndex == Slot(popIndex, |contents| + 1);
      contents := contents + [k];
      ok := true;
    }

    /** `_rl_insert_typein`: gather `c` and the longest run of self-inserting keys.
        The key that ends the run goes back, and putting it back never fails.  The text and its NUL
        fit the buffer, as large as the ring's, if and only if the run does not take a full ring. */
    method InsertTypein(c: Byte, selfInserting: set<Byte>) returns (text: seq<Byte>, ghost restored: bool)
      requires Valid()
      modifies this`popIndex, this`contents, buffer
      ensures Valid()
      ensures text == [c] + SelfInsertRun(old(contents), selfInserting)
      ensures contents == old(contents)[|text| - 1..]
      ensures |text| + 1 <= buffer.Length <==> |SelfInsertRun(old(contents), selfInserting)| < 511
      ensures restored
    {
      ghost var keys := contents;
      text := [c];
      restored := true;
      var found, key := Get();
      while found && key in selfInserting
        invariant Valid() && 1 <= |text| <= |keys| + 1
        invariant text == [c] + keys[..|text| - 1]
        invariant forall i :: 0 <= i < |text| - 1 ==> keys[i] in selfInserting
        invariant found ==> |text| <= |keys| && key == keys[|text| - 1] && contents == keys[|text|..]
        invariant !found ==> |text| == |keys| + 1 && contents == []
        decreases |keys| - |text|
      {
        TakeOneMore(c, keys, |text| - 1);
        text := text + [key];
        found, key := Get();
      }
      SelfInsertRunIs(keys, |text| - 1, selfInserting);
      if found {
        DropOne(keys, |text| - 1);
        restored := Unget(key);
      }
    }
  }
}
