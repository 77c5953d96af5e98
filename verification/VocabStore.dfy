/** The field-name vocabulary in the store, and the plan of a dynamic segment that grows it. */
module VocabStore {
  import opened Bytes
  import opened Segment
  import opened Store
  import opened Value

  function IdKey(ns: bytes, id: u16): bytes { Key(ns, VOCAB_ID, BE(id, 2)) }

  function NameKey(ns: bytes, name: bytes): bytes { Key(ns, VOCAB_NAME, name) }

  /** The allocation cursor is the id face's bare prefix. */
  function CursorKey(ns: bytes): bytes { Key(ns, VOCAB_ID, []) }

  function SegmentKey(ns: bytes, pkey: bytes): bytes { Key(ns, DYNAMIC, pkey) }

  // --- Loading ---

  function IdAt(raw: bytes): Option<u16> { if |raw| == 2 then Some(U16At(raw, 0)) else None }

  function IdsIn(store: Store, ns: bytes): map<u16, bytes> {
    map id: u16 | 0 <= id < U16_END && IdKey(ns, id) in store :: store[IdKey(ns, id)]
  }

  function NamesIn(store: Store, ns: bytes): map<bytes, u16> {
    map name | name in Suffixes(store, CursorPrefix(ns)) && IdAt(NameEntry(store, ns, name)).Some? ::
      IdAt(NameEntry(store, ns, name)).value
  }

  function CursorPrefix(ns: bytes): bytes { Key(ns, VOCAB_NAME, []) }

  function NameEntry(store: Store, ns: bytes, name: bytes): bytes {
    if NameKey(ns, name) in store then store[NameKey(ns, name)] else []
  }

  /** One past the highest id in use, saturating: reading the last id is not an allocation. */
  function Above(ids: set<u16>, n: nat): u16
    requires n <= U16_END
  {
    if n == 0 then 0 else if n - 1 in ids then (if n < U16_END then n else U16_END - 1) else Above(ids, n - 1)
  }

  function Load(store: Store, ns: bytes): Vocab {
    var byName := NamesIn(store, ns);
    var above := Above(byName.Values, U16_END);
    var cursor := if CursorKey(ns) in store then IdAt(store[CursorKey(ns)]) else None;
    Vocab(byName, IdsIn(store, ns), if cursor.Some? && cursor.value > above then cursor.value else above, [])
  }

  ghost predicate FacesHold(store: Store, ns: bytes, byName: map<bytes, u16>, byId: map<u16, bytes>) {
    && (forall id: u16 :: Get(store, IdKey(ns, id)) == if id in byId then Some(byId[id]) else None)
    && (forall name :: Get(store, NameKey(ns, name)) == if name in byName then Some(BE(byName[name], 2)) else None)
  }

  /** The store's vocabulary faces and cursor say exactly what `v` says. */
  ghost predicate Holds(store: Store, ns: bytes, v: Vocab) {
    && FacesHold(store, ns, v.byName, v.byId)
    && Get(store, CursorKey(ns)) == if v.next == 0 then None else Some(BE(v.next, 2))
  }

  lemma {:induction false} IdReads(id: u16)
    ensures IdAt(BE(id, 2)) == Some(id)
  {
    hide BE, FromBE;
    FixedRoundTrips();
    assert BE(id, 2)[0..2] == BE(id, 2);
  }

  lemma {:induction false} AboveIs(ids: set<u16>, next: u16, n: nat)
    requires next <= n <= U16_END && forall id: u16 :: id in ids <==> id < next
    ensures Above(ids, n) == next
    decreases n
  {
    if n > 0 && n > next { AboveIs(ids, next, n - 1); }
  }

  /** Loading gives back the vocabulary that was written. */
  lemma {:induction false} LoadReadsBack(store: Store, ns: bytes, v: Vocab)
    requires Bijective(v) && Holds(store, ns, v)
    ensures Load(store, ns) == v.(written := [])
  {
    hide Above, Key, IdAt, NamesIn, IdsIn, Bijective, FacesHold, BE;
    IdsLoad(store, ns, v);
    NamesLoad(store, ns, v);
    ValuesAreBelow(v);
    AboveIs(v.byName.Values, v.next, U16_END);
    if v.next > 0 { IdReads(v.next); }
  }

  lemma ValuesAreBelow(v: Vocab)
    requires Bijective(v)
    ensures forall id: u16 :: id in v.byName.Values <==> id < v.next
  {
    forall id: u16 | id < v.next ensures id in v.byName.Values {
      assert id in v.byId && v.byName[v.byId[id]] == id;
    }
  }

  lemma {:induction false} IdsLoad(store: Store, ns: bytes, v: Vocab)
    requires FacesHold(store, ns, v.byName, v.byId)
    ensures IdsIn(store, ns) == v.byId
  {
    hide Key, BE;
    forall id: u16 ensures id in IdsIn(store, ns) <==> id in v.byId {
      assert Get(store, IdKey(ns, id)).Some? <==> IdKey(ns, id) in store;
    }
    forall id: u16 | id in v.byId ensures IdsIn(store, ns)[id] == v.byId[id] {
      assert Get(store, IdKey(ns, id)) == Some(v.byId[id]);
    }
  }

  lemma {:induction false} NamesLoad(store: Store, ns: bytes, v: Vocab)
    requires FacesHold(store, ns, v.byName, v.byId)
    ensures NamesIn(store, ns) == v.byName
  {
    hide Suffixes, IdAt, BE;
    forall name ensures name in NamesIn(store, ns) <==> name in v.byName {
      NameFace(ns, name);
      SuffixesAre(store, CursorPrefix(ns), name);
      assert Get(store, NameKey(ns, name)).Some? <==> NameKey(ns, name) in store;
      if name in v.byName { IdReads(v.byName[name]); }
    }
    forall name | name in v.byName ensures NamesIn(store, ns)[name] == v.byName[name] {
      assert name in NamesIn(store, ns);
      assert Get(store, NameKey(ns, name)) == Some(BE(v.byName[name], 2));
      IdReads(v.byName[name]);
    }
  }

  lemma NameFace(ns: bytes, name: bytes)
    ensures CursorPrefix(ns) + name == NameKey(ns, name)
  {
    assert ns + SlotBytes(VOCAB_NAME) + [] == ns + SlotBytes(VOCAB_NAME);
  }

  // --- Growth ---

  /** The two entries of each new name. */
  function NameOps(ns: bytes, written: seq<(bytes, u16)>): seq<Op> {
    if written == [] then []
    else
      NameOps(ns, written[..|written| - 1])
      + [(IdKey(ns, written[|written| - 1].1), Some(written[|written| - 1].0)),
         (NameKey(ns, written[|written| - 1].0), Some(BE(written[|written| - 1].1, 2)))]
  }

  function VocabOps(ns: bytes, v: Vocab): seq<Op> {
    NameOps(ns, v.written) + if v.written == [] then [] else [(CursorKey(ns), Some(BE(v.next, 2)))]
  }

  lemma {:induction false} IdKeysDiffer(ns: bytes, a: u16, b: u16)
    ensures IdKey(ns, a) == IdKey(ns, b) ==> a == b
    ensures IdKey(ns, a) != CursorKey(ns)
  {
    if IdKey(ns, a) == IdKey(ns, b) {
      KeyIsInjective(ns, VOCAB_ID, BE(a, 2), VOCAB_ID, BE(b, 2));
      FixedRoundTrips();
    }
    if IdKey(ns, a) == CursorKey(ns) { KeyIsInjective(ns, VOCAB_ID, BE(a, 2), VOCAB_ID, []); }
  }

  lemma {:induction false} NameKeysDiffer(ns: bytes, a: bytes, b: bytes, id: u16)
    ensures NameKey(ns, a) == NameKey(ns, b) ==> a == b
    ensures NameKey(ns, a) != IdKey(ns, id) && NameKey(ns, a) != CursorKey(ns)
  {
    if NameKey(ns, a) == NameKey(ns, b) { KeyIsInjective(ns, VOCAB_NAME, a, VOCAB_NAME, b); }
    if NameKey(ns, a) == IdKey(ns, id) { KeyIsInjective(ns, VOCAB_NAME, a, VOCAB_ID, BE(id, 2)); }
    if NameKey(ns, a) == CursorKey(ns) { KeyIsInjective(ns, VOCAB_NAME, a, VOCAB_ID, []); }
  }

  /** The vocabulary after the first `n` of the new names. */
  function Partway(a: Vocab, b: Vocab, n: nat): Vocab
    requires n <= |b.written|
    decreases n
  {
    if n == 0 then a
    else
      var v := Partway(a, b, n - 1);
      var (name, id) := b.written[n - 1];
      Vocab(v.byName[name := id], v.byId[id := name], v.next, v.written)
  }

  lemma {:induction false} PairReplays(store: Store, ns: bytes, byName: map<bytes, u16>, byId: map<u16, bytes>,
      name: bytes, id: u16)
    requires FacesHold(store, ns, byName, byId)
    ensures var ops := [(IdKey(ns, id), Some(name)), (NameKey(ns, name), Some(BE(id, 2)))];
      && FacesHold(Apply(Apply(store, ops[0]), ops[1]), ns, byName[name := id], byId[id := name])
      && Get(Apply(Apply(store, ops[0]), ops[1]), CursorKey(ns)) == Get(store, CursorKey(ns))
  {
    hide Key, BE;
    var s := Apply(Apply(store, (IdKey(ns, id), Some(name))), (NameKey(ns, name), Some(BE(id, 2))));
    forall other: u16
      ensures Get(s, IdKey(ns, other)) == if other in byId[id := name] then Some(byId[id := name][other]) else None
    {
      IdKeysDiffer(ns, other, id);
      NameKeysDiffer(ns, name, name, other);
      assert Get(store, IdKey(ns, other)) == if other in byId then Some(byId[other]) else None;
    }
    forall other
      ensures Get(s, NameKey(ns, other)) == if other in byName[name := id] then Some(BE(byName[name := id][other], 2)) else None
    {
      NameKeysDiffer(ns, other, name, id);
      assert Get(store, NameKey(ns, other)) == if other in byName then Some(BE(byName[other], 2)) else None;
    }
    IdKeysDiffer(ns, id, id);
    NameKeysDiffer(ns, name, name, id);
  }

  lemma {:induction false} ReplayTwo(store: Store, ops: seq<Op>, a: Op, b: Op)
    ensures Replay(store, ops + [a, b]) == Apply(Apply(Replay(store, ops), a), b)
  {
    var all := ops + [a, b];
    assert all[..|all| - 1] == ops + [a];
    assert (ops + [a])[..|ops|] == ops;
  }

  lemma {:induction false} NamesReplay(store: Store, ns: bytes, a: Vocab, b: Vocab, n: nat)
    requires FacesHold(store, ns, a.byName, a.byId) && n <= |b.written|
    ensures var s := Replay(store, NameOps(ns, b.written[..n]));
      && FacesHold(s, ns, Partway(a, b, n).byName, Partway(a, b, n).byId)
      && Get(s, CursorKey(ns)) == Get(store, CursorKey(ns))
    decreases n
  {
    hide FacesHold, Key, Replay, Get;
    if n == 0 {
      NothingReplays(store);
    } else {
      var (name, id) := b.written[n - 1];
      NamesReplay(store, ns, a, b, n - 1);
      assert b.written[..n][..n - 1] == b.written[..n - 1];
      var before := NameOps(ns, b.written[..n - 1]);
      var x: Op := (IdKey(ns, id), Some(name));
      var y: Op := (NameKey(ns, name), Some(BE(id, 2)));
      assert NameOps(ns, b.written[..n]) == before + [x, y];
      ReplayTwo(store, before, x, y);
      PairReplays(Replay(store, before), ns, Partway(a, b, n - 1).byName, Partway(a, b, n - 1).byId, name, id);
    }
  }

  /** `v` has exactly what `b` has below `n`. */
  ghost predicate Below(v: Vocab, b: Vocab, n: nat) {
    && (forall id: u16 :: id in v.byId <==> id < n)
    && (forall id :: id in v.byId ==> id in b.byId && v.byId[id] == b.byId[id])
    && (forall name :: name in v.byName <==> name in b.byName && b.byName[name] < n)
    && (forall name :: name in v.byName ==> v.byName[name] == b.byName[name])
  }

  lemma {:induction false} StartsBelow(a: Vocab, b: Vocab)
    requires Bijective(a) && Bijective(b) && Grows(a, b)
    ensures Below(a, b, a.next)
  {
    forall name | name in b.byName && b.byName[name] < a.next ensures name in a.byName {
      assert b.byName[name] in a.byId;
    }
  }

  lemma {:induction false} OneMoreBelow(v: Vocab, b: Vocab, id: u16)
    requires Bijective(b) && Below(v, b, id) && id in b.byId
    ensures Below(Vocab(v.byName[b.byId[id] := id], v.byId[id := b.byId[id]], v.next, v.written), b, id + 1)
  {}

  lemma {:induction false} PartwayIs(a: Vocab, b: Vocab, n: nat)
    requires Bijective(a) && Bijective(b) && Grows(a, b) && Accounted(a, b) && a.written == [] && n <= |b.written|
    ensures Below(Partway(a, b, n), b, a.next + n)
    decreases n
  {
    hide Below, Bijective, Grows;
    if n == 0 {
      StartsBelow(a, b);
    } else {
      PartwayIs(a, b, n - 1);
      var id := a.next + n - 1;
      assert b.written[n - 1] == (b.byId[id], id);
      OneMoreBelow(Partway(a, b, n - 1), b, id);
    }
  }

  /** Replaying a plan's vocabulary growth makes the store hold the grown vocabulary. */
  lemma {:induction false} GrowthReplays(store: Store, ns: bytes, a: Vocab, b: Vocab)
    requires Bijective(a) && Bijective(b) && Grows(a, b) && Accounted(a, b) && a.written == [] && Holds(store, ns, a)
    ensures Holds(Replay(store, VocabOps(ns, b)), ns, b)
  {
    hide Key, Bijective, Accounted, BE, FacesHold, Grows, Partway, NameOps, Get;
    var n := |b.written|;
    assert b.written[..n] == b.written;
    AllWritten(a, b);
    NamesReplay(store, ns, a, b, n);
    var names := NameOps(ns, b.written);
    if n == 0 {
      assert names + [] == names;
    } else {
      CursorReplays(Replay(store, names), ns, b.byName, b.byId, b.next);
      ReplayOne(store, names, (CursorKey(ns), Some(BE(b.next, 2))));
    }
  }

  lemma {:induction false} ReplayOne(store: Store, ops: seq<Op>, a: Op)
    ensures Replay(store, ops + [a]) == Apply(Replay(store, ops), a)
  {
    assert (ops + [a])[..|ops|] == ops;
  }

  lemma {:induction false} AllWritten(a: Vocab, b: Vocab)
    requires Bijective(a) && Bijective(b) && Grows(a, b) && Accounted(a, b) && a.written == []
    ensures var v := Partway(a, b, |b.written|);
      v.byName == b.byName && v.byId == b.byId && (|b.written| == 0 ==> b.next == a.next) && (|b.written| > 0 ==> b.next > 0)
  {
    hide Partway;
    PartwayIs(a, b, |b.written|);
    var v := Partway(a, b, |b.written|);
    assert a.next + |b.written| == b.next;
    AllBelow(v, b);
  }

  lemma AllBelow(v: Vocab, b: Vocab)
    requires Bijective(b) && Below(v, b, b.next)
    ensures v.byName == b.byName && v.byId == b.byId
  {
    assert v.byId.Keys == b.byId.Keys && v.byName.Keys == b.byName.Keys;
  }

  lemma {:induction false} CursorReplays(store: Store, ns: bytes, byName: map<bytes, u16>, byId: map<u16, bytes>,
      next: u16)
    requires FacesHold(store, ns, byName, byId)
    ensures var s := Apply(store, (CursorKey(ns), Some(BE(next, 2))));
      FacesHold(s, ns, byName, byId) && Get(s, CursorKey(ns)) == Some(BE(next, 2))
  {
    hide Key, BE;
    var s := Apply(store, (CursorKey(ns), Some(BE(next, 2))));
    forall id: u16 ensures Get(s, IdKey(ns, id)) == Get(store, IdKey(ns, id)) { IdKeysDiffer(ns, id, id); }
    forall name ensures Get(s, NameKey(ns, name)) == Get(store, NameKey(ns, name)) { NameKeysDiffer(ns, name, name, 0); }
  }

  // --- The plan of a segment ---

  /** The vocabulary growth, then the segment itself: an empty map deletes it. */
  function PlanFields(ns: bytes, pkey: bytes, fields: ValueMap, v: Vocab): (Option<seq<Op>>, Vocab) {
    match EncodeSegment(fields, v)
    case (None, v') => (None, v')
    case (Some(body), v') =>
      (Some(VocabOps(ns, v') + [(SegmentKey(ns, pkey), if body == [] then None else Some(body))]), v'.(written := []))
  }
}
