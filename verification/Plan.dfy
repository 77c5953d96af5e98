/** The write planner: one ordered list of operations for a row, one for a dynamic segment. */
module Plan {
  import opened Bytes
  import opened Store
  import opened Value
  import opened Schema
  import opened Index
  import opened Reduce
  import opened Ledger
  import Segment
  import VocabStore

  datatype Table = Table(ns: bytes, schema: Schema, methods: seq<AccessMethod>, reduces: seq<Reduce>)

  function PrimaryKey(t: Table, pkey: bytes): bytes { Key(t.ns, PRIMARY, pkey) }

  function Puts(entries: seq<Entry>): seq<Op> {
    if entries == [] then [] else Puts(entries[..|entries| - 1]) + [(entries[|entries| - 1].0, Some(entries[|entries| - 1].1))]
  }

  function Dels(entries: seq<Entry>): seq<Op> {
    if entries == [] then [] else Dels(entries[..|entries| - 1]) + [(entries[|entries| - 1].0, None)]
  }

  function EntriesOfRow(t: Table, pkey: bytes, row: Option<ValueMap>): Option<seq<Entry>> {
    if row.None? then Some([]) else IndexEntries(t.schema, t.ns, t.methods, pkey, row.value)
  }

  function ReducesOfRow(t: Table, pkey: bytes, row: Option<ValueMap>, add: bool, store: Store, written: map<bytes,
      bytes>):
    Option<(seq<Op>, map<bytes, bytes>)>
  {
    if row.None? then Some(([], written))
    else PlanReduces(t.schema, t.ns, t.reduces, pkey, row.value, add, store, written)
  }

  function PayloadImage(t: Table, row: Option<ValueMap>): Option<Option<bytes>> {
    if row.None? then Some(None)
    else match EncodePayload(t.schema, row.value) case None => None case Some(image) => Some(Some(image))
  }

  /** Replace the row `prior` by `next`, either of which may be absent: sweep the old entries, unfold and fold, write
      the row, write the new entries. Nothing stands for a refusal. */
  function PlanRow(t: Table, store: Store, pkey: bytes, prior: Option<ValueMap>,
      next: Option<ValueMap>): Option<seq<Op>> {
    if |pkey| != t.schema.keyLen then None
    else if prior.None? && next.None? then Some([])
    else
      match (EntriesOfRow(t, pkey, prior), ReducesOfRow(t, pkey, prior, false, store, map[]))
      case (Some(swept), Some((unfolds, written))) =>
        (match (EntriesOfRow(t, pkey, next), PayloadImage(t, next), ReducesOfRow(t, pkey, next, true, store, written))
         case (Some(entries), Some(image), Some((folds, _))) =>
           Some(Dels(swept) + (unfolds + folds + [(PrimaryKey(t, pkey), image)]) + Puts(entries))
         case _ => None)
      case _ => None
  }

  /** Replace the segment `prior` by the map `next`: the segment and the names it brings, then the path entries. */
  function PlanSegment(t: Table, pkey: bytes, prior: Option<ValueMap>, next: ValueMap, v: Segment.Vocab):
    (Option<seq<Op>>, Segment.Vocab)
  {
    match VocabStore.PlanFields(t.ns, pkey, next, v)
    case (None, v') => (None, v')
    case (Some(fields), v') =>
      var swept := if prior.None? then [] else PathEntries(t.ns, t.methods, pkey, prior.value);
      (Some(fields + (Dels(swept) + Puts(PathEntries(t.ns, t.methods, pkey, next)))), v')
  }

  /** Remove the segment `prior`. */
  function PlanPurgeSegment(t: Table, pkey: bytes, prior: ValueMap): seq<Op> {
    Dels(PathEntries(t.ns, t.methods, pkey, prior)) + [(VocabStore.SegmentKey(t.ns, pkey), None)]
  }

  // --- Listed entries ---

  /** The value the last entry with this key has. */
  function Listed(entries: seq<Entry>, key: bytes): Option<bytes> {
    if entries == [] then None
    else if entries[|entries| - 1].0 == key then Some(entries[|entries| - 1].1)
    else Listed(entries[..|entries| - 1], key)
  }

  lemma {:induction false} LastOfPuts(entries: seq<Entry>, key: bytes)
    ensures Last(Puts(entries), key) == if Listed(entries, key).None? then None else Some(Listed(entries, key))
    decreases |entries|
  {
    if entries != [] {
      LastOfPuts(entries[..|entries| - 1], key);
      var init := Puts(entries[..|entries| - 1]);
      assert Puts(entries)[..|init|] == init;
    }
  }

  lemma {:induction false} LastOfDels(entries: seq<Entry>, key: bytes)
    ensures Last(Dels(entries), key) == if Listed(entries, key).None? then None else Some(None)
    decreases |entries|
  {
    if entries != [] {
      LastOfDels(entries[..|entries| - 1], key);
      var init := Dels(entries[..|entries| - 1]);
      assert Dels(entries)[..|init|] == init;
    }
  }

  lemma {:induction false} ListedOfJoin(a: seq<Entry>, b: seq<Entry>, key: bytes)
    ensures Listed(a + b, key) == if Listed(b, key).Some? then Listed(b, key) else Listed(a, key)
    decreases |b|
  {
    if b == [] {
      assert a + b == a;
    } else {
      assert (a + b)[..|a + b| - 1] == a + b[..|b| - 1] && (a + b)[|a + b| - 1] == b[|b| - 1];
      ListedOfJoin(a, b[..|b| - 1], key);
    }
  }

  lemma {:induction false} ListedIsThere(entries: seq<Entry>, key: bytes)
    ensures Listed(entries, key).Some? <==> exists i :: 0 <= i < |entries| && entries[i].0 == key
    decreases |entries|
  {
    if entries != [] {
      var init := entries[..|entries| - 1];
      ListedIsThere(init, key);
      if exists i :: 0 <= i < |entries| && entries[i].0 == key {
        var i :| 0 <= i < |entries| && entries[i].0 == key;
        if i < |init| { assert init[i].0 == key; }
      } else {
        assert forall i :: 0 <= i < |init| ==> init[i] == entries[i];
      }
    }
  }

  // --- Slots ---

  function MethodSlots(t: Table): set<slot> { set i | 0 <= i < |t.methods| :: t.methods[i].slot }

  /** What a table must be: slots of the counting families, no two alike, and callables that look at payloads only. */
  ghost predicate Sane(t: Table) {
    && WellFormed(t.schema)
    && (forall i, j :: 0 <= i < j < |t.methods| ==> t.methods[i].slot != t.methods[j].slot)
    && SlotsDiffer(t.reduces) && MethodSlots(t) !! SlotsOf(t.reduces)
    && (forall s :: s in MethodSlots(t) + SlotsOf(t.reduces) ==> s >= 4096)
    && (forall i :: 0 <= i < |t.methods| ==> PayloadOnly(t.schema, t.methods[i]))
    && (forall i :: 0 <= i < |t.reduces| ==>
          LogicPayloadOnly(t.schema, t.reduces[i].logic) && (Reversible(t.reduces[i].logic) || Ratchet(t.reduces[i].logic)))
  }

  /** What one entry list can say about a face key: only keys of the row's own tail, under the right kind of method. */
  lemma {:induction false} ForeignIsNotListed(t: Table, pkey: bytes, paths: bool, entries: seq<Entry>, m: AccessMethod,
      rest: bytes)
    requires Sane(t) && m in t.methods && AllBelong(t.ns, t.methods, pkey, paths, entries)
    requires m.kind.ByPath? != paths || !(|pkey| <= |rest| && rest[|rest| - |pkey|..] == pkey)
    ensures Listed(entries, Key(t.ns, m.slot, rest)) == None
  {
    hide Key, PayloadOnly, LogicPayloadOnly, Reversible, Ratchet, WellFormed;
    var key := Key(t.ns, m.slot, rest);
    ListedIsThere(entries, key);
    if exists i :: 0 <= i < |entries| && entries[i].0 == key {
      var i :| 0 <= i < |entries| && entries[i].0 == key;
      assert Belongs(t.ns, t.methods, pkey, paths, key);
      var m', segment :| m' in t.methods && m'.kind.ByPath? == paths && key == Key(t.ns, m'.slot, segment + pkey);
      KeyIsInjective(t.ns, m.slot, rest, m'.slot, segment + pkey);
    }
  }

  lemma {:induction false} EntriesAreUnder(t: Table, pkey: bytes, paths: bool, entries: seq<Entry>)
    requires AllBelong(t.ns, t.methods, pkey, paths, entries)
    ensures Under(t.ns, Puts(entries), MethodSlots(t)) && Under(t.ns, Dels(entries), MethodSlots(t))
    decreases |entries|
  {
    hide Key, Belongs;
    if entries != [] {
      var init := entries[..|entries| - 1];
      assert forall i :: 0 <= i < |init| ==> init[i] == entries[i];
      EntriesAreUnder(t, pkey, paths, init);
      var e := entries[|entries| - 1];
      BelongsUnder(t, pkey, paths, e.0);
      UnderJoins(t.ns, Puts(init), [(e.0, Some(e.1))], MethodSlots(t));
      UnderJoins(t.ns, Dels(init), [(e.0, None)], MethodSlots(t));
    }
  }

  lemma BelongsUnder(t: Table, pkey: bytes, paths: bool, key: bytes)
    requires Belongs(t.ns, t.methods, pkey, paths, key)
    ensures InSlots(t.ns, MethodSlots(t), key)
  {
    hide Key;
    var m, segment :| m in t.methods && m.kind.ByPath? == paths && key == Key(t.ns, m.slot, segment + pkey);
    var i :| 0 <= i < |t.methods| && t.methods[i] == m;
    assert t.methods[i].slot in MethodSlots(t);
  }
}
