/** The key-value store under a table: keys, ordered scans, and batches replayed as one commit. */
module Store {
  import opened Bytes
  import opened Order

  type Store = map<bytes, bytes>

  /** One write of a batch: a value, or nothing for a delete. */
  type Op = (bytes, Option<bytes>)

  function Get(store: Store, key: bytes): Option<bytes> {
    if key in store then Some(store[key]) else None
  }

  function Apply(store: Store, op: Op): Store {
    if op.1.Some? then store[op.0 := op.1.value] else store - {op.0}
  }

  /** The whole batch in order. */
  function Replay(store: Store, ops: seq<Op>): Store
    decreases |ops|
  {
    if ops == [] then store else Apply(Replay(store, ops[..|ops| - 1]), ops[|ops| - 1])
  }

  /** What the last operation on `key` leaves there; nothing when no operation names it. */
  function Last(ops: seq<Op>, key: bytes): Option<Option<bytes>>
    decreases |ops|
  {
    if ops == [] then None
    else if ops[|ops| - 1].0 == key then Some(ops[|ops| - 1].1)
    else Last(ops[..|ops| - 1], key)
  }

  lemma LastOfOne(op: Op, key: bytes)
    ensures Last([op], key) == if op.0 == key then Some(op.1) else None
  {}

  /** After a batch a key holds what the last operation on it left, and what it held before when there is none. */
  lemma {:induction false} ReplayIsLast(store: Store, ops: seq<Op>, key: bytes)
    ensures Get(Replay(store, ops), key)
         == if Last(ops, key).Some? then Last(ops, key).value else Get(store, key)
    decreases |ops|
  {
    if ops != [] { ReplayIsLast(store, ops[..|ops| - 1], key); }
  }

  lemma {:induction false} LastOfJoin(a: seq<Op>, b: seq<Op>, key: bytes)
    ensures Last(a + b, key) == if Last(b, key).Some? then Last(b, key) else Last(a, key)
    decreases |b|
  {
    if b == [] {
      assert a + b == a;
    } else {
      assert (a + b)[..|a + b| - 1] == a + b[..|b| - 1] && (a + b)[|a + b| - 1] == b[|b| - 1];
      LastOfJoin(a, b[..|b| - 1], key);
    }
  }

  /** No operation of the batch names `key`. */
  predicate Avoids(ops: seq<Op>, key: bytes) { forall i :: 0 <= i < |ops| ==> ops[i].0 != key }

  lemma {:induction false} LastOfAvoided(ops: seq<Op>, key: bytes)
    ensures Last(ops, key).None? <==> Avoids(ops, key)
    decreases |ops|
  {
    if ops != [] {
      var init := ops[..|ops| - 1];
      LastOfAvoided(init, key);
      if Avoids(ops, key) {
        assert forall i :: 0 <= i < |init| ==> init[i] == ops[i];
      } else if ops[|ops| - 1].0 != key {
        var i :| 0 <= i < |ops| && ops[i].0 == key;
        assert init[i].0 == key;
      }
    }
  }

  // --- Keys ---

  type slot = s: nat | s < 16 || 4096 <= s < 65536

  const PRIMARY: slot := 0
  const DYNAMIC: slot := 1
  const VOCAB_ID: slot := 2
  const VOCAB_NAME: slot := 3

  /** A slot takes one byte when it is a fixed face, otherwise two, of which the first is above every fixed face. */
  function SlotBytes(s: slot): (b: bytes)
    ensures 1 <= |b| <= 2
  {
    if s < 16 then [s] else [s / 256, s % 256]
  }

  /** `[ns][slot][rest]` */
  function Key(ns: bytes, s: slot, rest: bytes): bytes { ns + SlotBytes(s) + rest }

  /** No face's keys run into another's. */
  lemma {:induction false} KeyIsInjective(ns: bytes, a: slot, x: bytes, b: slot, y: bytes)
    requires Key(ns, a, x) == Key(ns, b, y)
    ensures a == b && x == y
  {
    var k := Key(ns, a, x);
    var (p, q) := (SlotBytes(a) + x, SlotBytes(b) + y);
    assert k[|ns|..] == p && k[|ns|..] == q by {
      assert ns + SlotBytes(a) + x == ns + p && ns + SlotBytes(b) + y == ns + q;
    }
    assert p[0] == q[0];
    if a < 16 {
      assert p[1..] == x && q[1..] == y;
    } else {
      assert p[1] == q[1];
      assert p[2..] == x && q[2..] == y;
    }
  }

  /** Every operation's key lies under one of the slots. */
  ghost predicate Under(ns: bytes, ops: seq<Op>, slots: set<slot>) {
    forall i :: 0 <= i < |ops| ==> InSlots(ns, slots, ops[i].0)
  }

  ghost predicate InSlots(ns: bytes, slots: set<slot>, key: bytes) { exists s, x :: s in slots && key == Key(ns, s, x) }

  lemma {:induction false} OtherSlotsAvoid(ns: bytes, ops: seq<Op>, slots: set<slot>, s: slot, x: bytes)
    requires Under(ns, ops, slots) && s !in slots
    ensures Last(ops, Key(ns, s, x)) == None
  {
    hide Key;
    forall i | 0 <= i < |ops| ensures ops[i].0 != Key(ns, s, x) {
      assert InSlots(ns, slots, ops[i].0);
      var s', x' :| s' in slots && ops[i].0 == Key(ns, s', x');
      if ops[i].0 == Key(ns, s, x) { KeyIsInjective(ns, s', x', s, x); }
    }
    LastOfAvoided(ops, Key(ns, s, x));
  }

  lemma UnderJoins(ns: bytes, a: seq<Op>, b: seq<Op>, slots: set<slot>)
    requires Under(ns, a, slots) && Under(ns, b, slots)
    ensures Under(ns, a + b, slots)
  {
    hide InSlots;
  }

  lemma NothingReplays(store: Store)
    ensures Replay(store, []) == store
  {}

  lemma {:induction false} ReplayCons(store: Store, op: Op, ops: seq<Op>)
    ensures Replay(store, [op] + ops) == Replay(Apply(store, op), ops)
    decreases |ops|
  {
    if ops == [] {
      assert [op] + ops == [op] && [op][..0] == [];
    } else {
      var all := [op] + ops;
      assert all[..|all| - 1] == [op] + ops[..|ops| - 1] && all[|all| - 1] == ops[|ops| - 1];
      ReplayCons(store, op, ops[..|ops| - 1]);
    }
  }

  lemma {:induction false} ReplayJoin(store: Store, a: seq<Op>, b: seq<Op>)
    ensures Replay(store, a + b) == Replay(Replay(store, a), b)
    decreases |b|
  {
    if b == [] {
      assert a + b == a;
    } else {
      assert (a + b)[..|a + b| - 1] == a + b[..|b| - 1] && (a + b)[|a + b| - 1] == b[|b| - 1];
      ReplayJoin(store, a, b[..|b| - 1]);
    }
  }

  // --- Scans ---

  /** What follows `prefix` in the keys that begin with it. */
  function Suffixes(store: Store, prefix: bytes): set<bytes> {
    set k | k in store && prefix <= k :: k[|prefix|..]
  }

  lemma {:induction false} SuffixesAre(store: Store, prefix: bytes, x: bytes)
    ensures x in Suffixes(store, prefix) <==> prefix + x in store
  {
    var k := prefix + x;
    assert prefix <= k && k[|prefix|..] == x;
    forall k' | k' in store && prefix <= k' && k'[|prefix|..] == x ensures k' == k {
      assert k' == k'[..|prefix|] + k'[|prefix|..];
    }
  }

  /** The engine's prefix scan: suffixes in key order. */
  function ScanSuffix(store: Store, prefix: bytes): seq<bytes> { Sorted(Suffixes(store, prefix)) }

  lemma {:induction false} ScanFindsAll(store: Store, prefix: bytes, x: bytes)
    ensures x in ScanSuffix(store, prefix) <==> prefix + x in store
    ensures Ascending(ScanSuffix(store, prefix))
  {
    hide Sorted, Suffixes, Ascending;
    SortedIsComplete(Suffixes(store, prefix));
    SuffixesAre(store, prefix, x);
    assert x in Elements(ScanSuffix(store, prefix)) <==> x in ScanSuffix(store, prefix);
  }
}
