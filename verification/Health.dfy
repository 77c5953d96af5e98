/** What a table's store says, told as its documents; and that every planned write keeps it so. */
module Health {
  import opened Bytes
  import opened Store
  import opened Value
  import opened Schema
  import opened Index
  import opened Reduce
  import opened Ledger
  import opened Plan
  import Segment
  import VocabStore

  type Segs = map<bytes, ValueMap>

  /** The documents behind a store: rows by their payload fields, segments as they read back, the vocabulary that
      names their fields, and every row ever written. */
  datatype Docs = Docs(rows: Rows, segs: Segs, vocab: Segment.Vocab, trace: Trace)

  function At<V>(m: map<bytes, V>, key: bytes): Option<V> { if key in m then Some(m[key]) else None }

  /** The row slot holds a payload that decodes to the row. */
  ghost predicate RowTells(t: Table, store: Store, pkey: bytes, row: Option<ValueMap>) {
    match row
    case None => Get(store, PrimaryKey(t, pkey)) == None
    case Some(r) =>
      && |pkey| == t.schema.keyLen && EntriesOfRow(t, pkey, row).Some?
      && Get(store, PrimaryKey(t, pkey)).Some? && Get(store, PrimaryKey(t, pkey)) == EncodePayload(t.schema, r)
      && DecodePayload(t.schema, Get(store, PrimaryKey(t, pkey)).value) == row
  }

  /** These bytes read as `m` under the vocabulary and under every later one. */
  ghost predicate Frozen(raw: bytes, m: ValueMap, v: Segment.Vocab) {
    forall later :: Segment.Grows(v, later) ==> Segment.DecodeSegment(raw, later.byId) == m
  }

  ghost predicate SegTells(t: Table, store: Store, pkey: bytes, seg: Option<ValueMap>, v: Segment.Vocab) {
    match seg
    case None => Get(store, VocabStore.SegmentKey(t.ns, pkey)) == None
    case Some(m) =>
      && |pkey| == t.schema.keyLen && Get(store, VocabStore.SegmentKey(t.ns, pkey)).Some?
      && Frozen(Get(store, VocabStore.SegmentKey(t.ns, pkey)).value, m, v)
  }

  ghost predicate RowsTell(t: Table, store: Store, rows: Rows) { forall pkey :: RowTells(t, store, pkey, At(rows, pkey)) }

  ghost predicate SegsTell(t: Table, store: Store, segs: Segs, v: Segment.Vocab) {
    forall pkey :: SegTells(t, store, pkey, At(segs, pkey), v)
  }

  ghost predicate VocabTells(t: Table, store: Store, v: Segment.Vocab) {
    Segment.Bijective(v) && v.written == [] && VocabStore.Holds(store, t.ns, v)
  }

  function RowEntries(t: Table, pkey: bytes, row: Option<ValueMap>): seq<Entry> {
    if EntriesOfRow(t, pkey, row).Some? then EntriesOfRow(t, pkey, row).value else []
  }

  function SegEntries(t: Table, pkey: bytes, seg: Option<ValueMap>): seq<Entry> {
    if seg.None? then [] else PathEntries(t.ns, t.methods, pkey, seg.value)
  }

  /** What a face key must hold: the entry its document implies. A key too short to carry a primary key holds nothing. */
  function FaceValue(t: Table, row: Rows, segs: Segs, at: slot, rest: bytes): Option<bytes> {
    if |rest| < t.schema.keyLen then None
    else
      var pkey := rest[|rest| - t.schema.keyLen..];
      Listed(RowEntries(t, pkey, At(row, pkey)) + SegEntries(t, pkey, At(segs, pkey)), Key(t.ns, at, rest))
  }

  /** Every face is exactly what the documents imply. */
  ghost predicate FacesTell(t: Table, store: Store, rows: Rows, segs: Segs) {
    forall i, rest :: 0 <= i < |t.methods| ==>
      Get(store, Key(t.ns, t.methods[i].slot, rest)) == FaceValue(t, rows, segs, t.methods[i].slot, rest)
  }

  ghost predicate LedgerTells(t: Table, store: Store, rows: Rows, trace: Trace) {
    forall i :: 0 <= i < |t.reduces| ==> Tells(t.schema, t.ns, t.reduces[i], store, rows, trace)
  }

  ghost predicate Healthy(t: Table, store: Store, d: Docs) {
    && RowsTell(t, store, d.rows) && SegsTell(t, store, d.segs, d.vocab) && VocabTells(t, store, d.vocab)
    && FacesTell(t, store, d.rows, d.segs) && LedgerTells(t, store, d.rows, d.trace)
  }

  // --- An empty table ---

  const NO_NAMES: Segment.Vocab := Segment.Vocab(map[], map[], 0, [])

  lemma {:induction false} EmptyIsHealthy(t: Table)
    requires Sane(t)
    ensures Healthy(t, map[], Docs(map[], map[], NO_NAMES, []))
  {
    hide Key, Sane, Reversible, Ratchet;
    assert RowsTell(t, map[], map[]) && SegsTell(t, map[], map[], NO_NAMES);
    assert VocabTells(t, map[], NO_NAMES);
    assert LedgerTells(t, map[], map[], []);
    forall i, rest | 0 <= i < |t.methods|
      ensures Get(map[], Key(t.ns, t.methods[i].slot, rest)) == FaceValue(t, map[], map[], t.methods[i].slot, rest)
    {
      NothingListed(Key(t.ns, t.methods[i].slot, rest));
    }
  }

  lemma NothingListed(key: bytes)
    ensures Listed([] + [], key) == None && Listed([], key) == None
  {}

  // --- A row is written ---

  function WithRow(rows: Rows, pkey: bytes, row: Option<ValueMap>): Rows {
    if row.Some? then rows[pkey := row.value] else rows - {pkey}
  }

  function Stored(t: Table, row: Option<ValueMap>): Option<ValueMap> {
    if row.None? then None else Some(PayloadOf(t.schema, row.value))
  }

  /** Where the operations of a row plan fall. */
  lemma {:induction false} RowOps(t: Table, store: Store, pkey: bytes, prior: Option<ValueMap>, next: Option<ValueMap>)
    requires PlanRow(t, store, pkey, prior, next).Some? && (prior.Some? || next.Some?)
    ensures |pkey| == t.schema.keyLen && EntriesOfRow(t, pkey, prior).Some? && EntriesOfRow(t, pkey, next).Some?
    ensures PayloadImage(t, next).Some? && ReducesOfRow(t, pkey, prior, false, store, map[]).Some?
    ensures var (unfolds, written) := ReducesOfRow(t, pkey, prior, false, store, map[]).value;
      && ReducesOfRow(t, pkey, next, true, store, written).Some?
      && var accs := unfolds + ReducesOfRow(t, pkey, next, true, store, written).value.0;
      && PlanRow(t, store, pkey, prior, next).value
         == Dels(RowEntries(t, pkey, prior)) + (accs + [(PrimaryKey(t, pkey), PayloadImage(t, next).value)])
            + Puts(RowEntries(t, pkey, next))
      && Under(t.ns, accs, SlotsOf(t.reduces))
  {
    hide EntriesOfRow, PayloadImage, PlanReduces, Under, SlotsOf;
    var (unfolds, written) := ReducesOfRow(t, pkey, prior, false, store, map[]).value;
    var folds := ReducesOfRow(t, pkey, next, true, store, written).value.0;
    ReduceOps(t, pkey, prior, false, store, map[]);
    ReduceOps(t, pkey, next, true, store, written);
    UnderJoins(t.ns, unfolds, folds, SlotsOf(t.reduces));
  }

  lemma ReduceOps(t: Table, pkey: bytes, row: Option<ValueMap>, add: bool, store: Store, written: map<bytes, bytes>)
    requires ReducesOfRow(t, pkey, row, add, store, written).Some?
    ensures Under(t.ns, ReducesOfRow(t, pkey, row, add, store, written).value.0, SlotsOf(t.reduces))
  {
    hide PlanReduces, SlotsOf;
    if row.Some? { ReduceOpsUnder(t.schema, t.ns, t.reduces, pkey, row.value, add, store, written); }
  }

  /** A key the row plan's accumulators and entries cannot have: what it holds depends on the row's own slot alone. */
  lemma {:induction false} LastOfRowPlan(
    dels: seq<Op>, accs: seq<Op>, primary: Op, puts: seq<Op>, key: bytes)
    ensures Last(dels + (accs + [primary]) + puts, key)
         == if Last(puts, key).Some? then Last(puts, key)
            else if primary.0 == key then Some(primary.1)
            else if Last(accs, key).Some? then Last(accs, key)
            else Last(dels, key)
  {
    hide Last;
    LastOfJoin(dels + (accs + [primary]), puts, key);
    LastOfJoin(dels, accs + [primary], key);
    LastOfJoin(accs, [primary], key);
    LastOfOne(primary, key);
  }

  /** Slots no row plan writes keep what they hold. */
  lemma {:induction false} RowPlanKeeps(
    t: Table, store: Store, pkey: bytes, prior: Option<ValueMap>, next: Option<ValueMap>, at: slot, x: bytes)
    requires PlanRow(t, store, pkey, prior, next).Some?
    requires at !in MethodSlots(t) && at !in SlotsOf(t.reduces) && (at != PRIMARY || x != pkey)
    ensures Get(Replay(store, PlanRow(t, store, pkey, prior, next).value), Key(t.ns, at, x)) == Get(store, Key(t.ns, at, x))
  {
    hide Key, PlanRow, Last, Replay, MethodSlots, SlotsOf, PayloadImage, ReducesOfRow, EntriesOfRow, Under, Dels, Puts;
    var key := Key(t.ns, at, x);
    if prior.None? && next.None? {
      NothingPlanned(t, store, pkey);
      NothingReplays(store);
    } else {
      RowOps(t, store, pkey, prior, next);
      var (unfolds, written) := ReducesOfRow(t, pkey, prior, false, store, map[]).value;
      var accs := unfolds + ReducesOfRow(t, pkey, next, true, store, written).value.0;
      RowEntriesUnder(t, pkey, prior);
      RowEntriesUnder(t, pkey, next);
      OtherSlotsAvoid(t.ns, Dels(RowEntries(t, pkey, prior)), MethodSlots(t), at, x);
      OtherSlotsAvoid(t.ns, Puts(RowEntries(t, pkey, next)), MethodSlots(t), at, x);
      OtherSlotsAvoid(t.ns, accs, SlotsOf(t.reduces), at, x);
      LastOfRowPlan(Dels(RowEntries(t, pkey, prior)), accs, (PrimaryKey(t, pkey), PayloadImage(t, next).value),
                    Puts(RowEntries(t, pkey, next)), key);
      if key == PrimaryKey(t, pkey) { KeyIsInjective(t.ns, at, x, PRIMARY, pkey); }
      ReplayIsLast(store, PlanRow(t, store, pkey, prior, next).value, key);
    }
  }

  lemma NothingPlanned(t: Table, store: Store, pkey: bytes)
    requires PlanRow(t, store, pkey, None, None).Some?
    ensures PlanRow(t, store, pkey, None, None) == Some([])
  {}

  lemma {:induction false} RowEntriesUnder(t: Table, pkey: bytes, row: Option<ValueMap>)
    ensures AllBelong(t.ns, t.methods, pkey, false, RowEntries(t, pkey, row))
    ensures Under(t.ns, Dels(RowEntries(t, pkey, row)), MethodSlots(t)) && Under(t.ns, Puts(RowEntries(t, pkey, row)), MethodSlots(t))
  {
    hide IndexEntries, Belongs, Under;
    if row.Some? && IndexEntries(t.schema, t.ns, t.methods, pkey, row.value).Some? {
      RowEntriesBelong(t.schema, t.ns, t.methods, pkey, row.value);
    }
    EntriesAreUnder(t, pkey, false, RowEntries(t, pkey, row));
  }

  lemma {:induction false} LowSlots(t: Table, at: slot)
    requires Sane(t) && at < 4096
    ensures at !in MethodSlots(t) && at !in SlotsOf(t.reduces)
  {
    hide WellFormed, PayloadOnly, LogicPayloadOnly, Reversible, Ratchet;
  }

  // The row slot.

  lemma {:induction false} PrimaryAfter(t: Table, store: Store, pkey: bytes, prior: Option<ValueMap>,
      next: Option<ValueMap>)
    requires Sane(t) && PlanRow(t, store, pkey, prior, next).Some? && (prior.Some? || next.Some?)
    ensures PayloadImage(t, next).Some?
    ensures Get(Replay(store, PlanRow(t, store, pkey, prior, next).value), PrimaryKey(t, pkey)) == PayloadImage(t, next).value
  {
    hide Key, PlanRow, Last, Replay, MethodSlots, SlotsOf, PayloadImage, ReducesOfRow, EntriesOfRow, Under, Dels, Puts,
      Sane;
    var key := PrimaryKey(t, pkey);
    RowOps(t, store, pkey, prior, next);
    LowSlots(t, PRIMARY);
    var (unfolds, written) := ReducesOfRow(t, pkey, prior, false, store, map[]).value;
    var accs := unfolds + ReducesOfRow(t, pkey, next, true, store, written).value.0;
    RowEntriesUnder(t, pkey, next);
    OtherSlotsAvoid(t.ns, Puts(RowEntries(t, pkey, next)), MethodSlots(t), PRIMARY, pkey);
    LastOfRowPlan(Dels(RowEntries(t, pkey, prior)), accs, (key, PayloadImage(t, next).value), Puts(RowEntries(t, pkey, next)), key);
    ReplayIsLast(store, PlanRow(t, store, pkey, prior, next).value, key);
  }

  /** Rows too long to hold in memory are not the codec's business. */
  predicate RowFits(t: Table, row: Option<ValueMap>) {
    row.Some? && EncodePayload(t.schema, row.value).Some? ==> |EncodePayload(t.schema, row.value).value| < U64_END
  }

  lemma {:induction false} StoredEntries(t: Table, pkey: bytes, row: Option<ValueMap>)
    requires Sane(t)
    ensures EntriesOfRow(t, pkey, Stored(t, row)) == EntriesOfRow(t, pkey, row)
  {
    assert forall i :: 0 <= i < |t.methods| ==> PayloadOnly(t.schema, t.methods[i]) by {
      hide WellFormed, PayloadOnly, LogicPayloadOnly, Reversible, Ratchet;
    }
    hide Sane, IndexEntries, PayloadOf;
    if row.Some? { EntriesOfPayload(t.schema, t.ns, t.methods, pkey, row.value); }
  }

  lemma {:induction false} RowAfter(t: Table, store: Store, pkey: bytes, prior: Option<ValueMap>,
      next: Option<ValueMap>)
    requires Sane(t) && PlanRow(t, store, pkey, prior, next).Some? && RowFits(t, next) && (prior.Some? || next.Some?)
    ensures RowTells(t, Replay(store, PlanRow(t, store, pkey, prior, next).value), pkey, Stored(t, next))
  {
    assert WellFormed(t.schema) by { hide WellFormed, PayloadOnly, LogicPayloadOnly, Reversible, Ratchet; }
    hide Sane, WellFormed, PlanRow, EntriesOfRow, Replay, DecodePayload, EncodePayload, PayloadNames, Key;
    RowOps(t, store, pkey, prior, next);
    PrimaryAfter(t, store, pkey, prior, next);
    StoredEntries(t, pkey, next);
    if next.Some? {
      PayloadRoundTrip(t.schema, next.value);
      EncodeReadsPayload(t.schema, next.value);
      PayloadNamesAre(t.schema);
    }
  }

  lemma PayloadNamesAre(s: Schema)
    ensures PayloadNames(s) == NamesOf(Payload(s))
  {}

  lemma {:induction false} RowsAfter(t: Table, store: Store, rows: Rows, pkey: bytes, next: Option<ValueMap>)
    requires Sane(t) && RowsTell(t, store, rows)
    requires PlanRow(t, store, pkey, At(rows, pkey), next).Some? && RowFits(t, next)
    ensures RowsTell(t, Replay(store, PlanRow(t, store, pkey, At(rows, pkey), next).value), WithRow(rows, pkey, Stored(t, next)))
  {
    hide Sane, PlanRow, Replay, DecodePayload, EncodePayload, EntriesOfRow, Key, Stored;
    var after := Replay(store, PlanRow(t, store, pkey, At(rows, pkey), next).value);
    var rows' := WithRow(rows, pkey, Stored(t, next));
    StoredIf(t, next);
    forall p ensures RowTells(t, after, p, At(rows', p)) {
      assert RowTells(t, store, p, At(rows, p));
      if p != pkey {
        LowSlots(t, PRIMARY);
        RowPlanKeeps(t, store, pkey, At(rows, pkey), next, PRIMARY, p);
      } else if At(rows, pkey).Some? || next.Some? {
        RowAfter(t, store, pkey, At(rows, pkey), next);
      } else {
        NothingPlanned(t, store, pkey);
        NothingReplays(store);
      }
    }
  }

  lemma StoredIf(t: Table, row: Option<ValueMap>)
    ensures Stored(t, row).Some? <==> row.Some?
  {}

  // The segments and the vocabulary.

  lemma {:induction false} SegsKept(t: Table, store: Store, segs: Segs, v: Segment.Vocab, pkey: bytes,
      prior: Option<ValueMap>, next: Option<ValueMap>)
    requires Sane(t) && SegsTell(t, store, segs, v) && PlanRow(t, store, pkey, prior, next).Some?
    ensures SegsTell(t, Replay(store, PlanRow(t, store, pkey, prior, next).value), segs, v)
  {
    hide Sane, PlanRow, Replay, Key, Frozen;
    LowSlots(t, DYNAMIC);
    forall p ensures SegTells(t, Replay(store, PlanRow(t, store, pkey, prior, next).value), p, At(segs, p), v) {
      assert SegTells(t, store, p, At(segs, p), v);
      RowPlanKeeps(t, store, pkey, prior, next, DYNAMIC, p);
    }
  }

  lemma {:induction false} VocabKept(t: Table, store: Store, v: Segment.Vocab, pkey: bytes, prior: Option<ValueMap>,
      next: Option<ValueMap>)
    requires Sane(t) && VocabTells(t, store, v) && PlanRow(t, store, pkey, prior, next).Some?
    ensures VocabTells(t, Replay(store, PlanRow(t, store, pkey, prior, next).value), v)
  {
    hide Sane, PlanRow, Replay, Key, Segment.Bijective, BE;
    LowSlots(t, VOCAB_ID);
    LowSlots(t, VOCAB_NAME);
    var after := Replay(store, PlanRow(t, store, pkey, prior, next).value);
    forall id: u16 ensures Get(after, VocabStore.IdKey(t.ns, id)) == Get(store, VocabStore.IdKey(t.ns, id)) {
      RowPlanKeeps(t, store, pkey, prior, next, VOCAB_ID, BE(id, 2));
    }
    forall name ensures Get(after, VocabStore.NameKey(t.ns, name)) == Get(store, VocabStore.NameKey(t.ns, name)) {
      RowPlanKeeps(t, store, pkey, prior, next, VOCAB_NAME, name);
    }
    RowPlanKeeps(t, store, pkey, prior, next, VOCAB_ID, []);
  }

  // The faces.

  lemma {:induction false} FaceOfRowPlan(
    t: Table, store: Store, pkey: bytes, prior: Option<ValueMap>, next: Option<ValueMap>, i: nat, rest: bytes)
    requires Sane(t) && PlanRow(t, store, pkey, prior, next).Some? && (prior.Some? || next.Some?) && i < |t.methods|
    ensures var key := Key(t.ns, t.methods[i].slot, rest);
      Get(Replay(store, PlanRow(t, store, pkey, prior, next).value), key)
      == if Listed(RowEntries(t, pkey, next), key).Some? then Listed(RowEntries(t, pkey, next), key)
         else if Listed(RowEntries(t, pkey, prior), key).Some? then None
         else Get(store, key)
  {
    hide Key, PlanRow, Last, Replay, SlotsOf, PayloadImage, ReducesOfRow, EntriesOfRow, Under, Dels, Puts, Sane,
      RowEntries, Listed;
    var key := Key(t.ns, t.methods[i].slot, rest);
    RowOps(t, store, pkey, prior, next);
    var (unfolds, written) := ReducesOfRow(t, pkey, prior, false, store, map[]).value;
    var accs := unfolds + ReducesOfRow(t, pkey, next, true, store, written).value.0;
    MethodSlotIsNoReduce(t, i);
    OtherSlotsAvoid(t.ns, accs, SlotsOf(t.reduces), t.methods[i].slot, rest);
    if key == PrimaryKey(t, pkey) { KeyIsInjective(t.ns, t.methods[i].slot, rest, PRIMARY, pkey); }
    LastOfRowPlan(Dels(RowEntries(t, pkey, prior)), accs, (PrimaryKey(t, pkey), PayloadImage(t, next).value),
                  Puts(RowEntries(t, pkey, next)), key);
    LastOfPuts(RowEntries(t, pkey, next), key);
    LastOfDels(RowEntries(t, pkey, prior), key);
    ReplayIsLast(store, PlanRow(t, store, pkey, prior, next).value, key);
  }

  lemma MethodSlotIsNoReduce(t: Table, i: nat)
    requires Sane(t) && i < |t.methods|
    ensures t.methods[i].slot !in SlotsOf(t.reduces) && t.methods[i].slot >= 4096 && t.methods[i].slot in MethodSlots(t)
  {
    hide WellFormed, PayloadOnly, LogicPayloadOnly, Reversible, Ratchet;
  }

  lemma {:induction false} SegEntriesBelong(t: Table, pkey: bytes, seg: Option<ValueMap>)
    ensures AllBelong(t.ns, t.methods, pkey, true, SegEntries(t, pkey, seg))
    ensures Under(t.ns, Dels(SegEntries(t, pkey, seg)), MethodSlots(t)) && Under(t.ns, Puts(SegEntries(t, pkey, seg)), MethodSlots(t))
  {
    hide PathEntries, Belongs, Under;
    if seg.Some? { PathEntriesBelong(t.ns, t.methods, pkey, seg.value); }
    EntriesAreUnder(t, pkey, true, SegEntries(t, pkey, seg));
  }

  /** Of the two kinds of entries only one can be under a given method. */
  lemma {:induction false} OneKindListed(t: Table, pkey: bytes, row: Option<ValueMap>, seg: Option<ValueMap>, i: nat,
      rest: bytes)
    requires Sane(t) && i < |t.methods|
    ensures var key := Key(t.ns, t.methods[i].slot, rest);
      Listed(RowEntries(t, pkey, row) + SegEntries(t, pkey, seg), key)
      == Listed(if t.methods[i].kind.ByPath? then SegEntries(t, pkey, seg) else RowEntries(t, pkey, row), key)
  {
    hide Key, Sane, RowEntries, SegEntries, Listed;
    var (m, key) := (t.methods[i], Key(t.ns, t.methods[i].slot, rest));
    ListedOfJoin(RowEntries(t, pkey, row), SegEntries(t, pkey, seg), key);
    RowEntriesUnder(t, pkey, row);
    SegEntriesBelong(t, pkey, seg);
    if m.kind.ByPath? {
      ForeignIsNotListed(t, pkey, false, RowEntries(t, pkey, row), m, rest);
    } else {
      ForeignIsNotListed(t, pkey, true, SegEntries(t, pkey, seg), m, rest);
    }
  }

  /** A face key of another document lists nothing of this one. */
  predicate OwnTail(pkey: bytes, rest: bytes) { |pkey| <= |rest| && rest[|rest| - |pkey|..] == pkey }

  lemma {:induction false} FaceAfterRow(t: Table, store: Store, rows: Rows, segs: Segs, pkey: bytes,
      next: Option<ValueMap>, i: nat, rest: bytes)
    requires Sane(t) && FacesTell(t, store, rows, segs) && i < |t.methods|
    requires PlanRow(t, store, pkey, At(rows, pkey), next).Some? && (At(rows, pkey).Some? || next.Some?)
    ensures Get(Replay(store, PlanRow(t, store, pkey, At(rows, pkey), next).value), Key(t.ns, t.methods[i].slot, rest))
         == FaceValue(t, WithRow(rows, pkey, Stored(t, next)), segs, t.methods[i].slot, rest)
  {
    hide Key, Sane, PlanRow, Replay, Listed, RowEntries, SegEntries, Stored;
    var (m, key, prior) := (t.methods[i], Key(t.ns, t.methods[i].slot, rest), At(rows, pkey));
    RowLen(t, store, pkey, prior, next);
    StoredIf(t, next);
    FaceOfRowPlan(t, store, pkey, prior, next, i, rest);
    assert Get(store, key) == FaceValue(t, rows, segs, m.slot, rest);
    RowEntriesUnder(t, pkey, prior);
    RowEntriesUnder(t, pkey, next);
    if !OwnTail(pkey, rest) {
      ForeignIsNotListed(t, pkey, false, RowEntries(t, pkey, prior), m, rest);
      ForeignIsNotListed(t, pkey, false, RowEntries(t, pkey, next), m, rest);
      OtherRow(t, rows, segs, pkey, Stored(t, next), m.slot, rest);
    } else {
      StoredRowEntries(t, pkey, next);
      OneKindListed(t, pkey, prior, At(segs, pkey), i, rest);
      OneKindListed(t, pkey, Stored(t, next), At(segs, pkey), i, rest);
      if m.kind.ByPath? {
        ForeignIsNotListed(t, pkey, false, RowEntries(t, pkey, prior), m, rest);
        ForeignIsNotListed(t, pkey, false, RowEntries(t, pkey, next), m, rest);
      }
    }
  }

  lemma RowLen(t: Table, store: Store, pkey: bytes, prior: Option<ValueMap>, next: Option<ValueMap>)
    requires PlanRow(t, store, pkey, prior, next).Some?
    ensures |pkey| == t.schema.keyLen
  {}

  lemma StoredRowEntries(t: Table, pkey: bytes, row: Option<ValueMap>)
    requires Sane(t)
    ensures RowEntries(t, pkey, Stored(t, row)) == RowEntries(t, pkey, row)
  {
    hide Sane, EntriesOfRow, Stored;
    StoredEntries(t, pkey, row);
  }

  lemma OtherRow(t: Table, rows: Rows, segs: Segs, pkey: bytes, row: Option<ValueMap>, at: slot, rest: bytes)
    requires |pkey| == t.schema.keyLen && !OwnTail(pkey, rest)
    ensures FaceValue(t, WithRow(rows, pkey, row), segs, at, rest) == FaceValue(t, rows, segs, at, rest)
  {
    hide Key, Listed, RowEntries, SegEntries;
  }

  lemma {:induction false} FacesAfterRow(t: Table, store: Store, rows: Rows, segs: Segs, pkey: bytes,
      next: Option<ValueMap>)
    requires Sane(t) && FacesTell(t, store, rows, segs) && PlanRow(t, store, pkey, At(rows, pkey), next).Some?
    ensures FacesTell(t, Replay(store, PlanRow(t, store, pkey, At(rows, pkey), next).value), WithRow(rows, pkey, Stored(t, next)), segs)
  {
    hide Key, Sane, PlanRow, Replay, FaceValue, Stored;
    StoredIf(t, next);
    if At(rows, pkey).None? && next.None? {
      NothingPlanned(t, store, pkey);
      NothingReplays(store);
      assert rows - {pkey} == rows;
    } else {
      forall i, rest | 0 <= i < |t.methods|
        ensures Get(Replay(store, PlanRow(t, store, pkey, At(rows, pkey), next).value), Key(t.ns, t.methods[i].slot, rest))
             == FaceValue(t, WithRow(rows, pkey, Stored(t, next)), segs, t.methods[i].slot, rest)
      {
        FaceAfterRow(t, store, rows, segs, pkey, next, i, rest);
      }
    }
  }

  // The ledger.

  lemma {:induction false} AccAfterRowPlan(
    t: Table, store: Store, pkey: bytes, prior: Option<ValueMap>, next: Option<ValueMap>, i: nat, group: bytes)
    requires Sane(t) && PlanRow(t, store, pkey, prior, next).Some? && (prior.Some? || next.Some?) && i < |t.reduces|
    ensures ReducesOfRow(t, pkey, prior, false, store, map[]).Some?
    ensures var written := ReducesOfRow(t, pkey, prior, false, store, map[]).value.1;
      && ReducesOfRow(t, pkey, next, true, store, written).Some?
      && var written' := ReducesOfRow(t, pkey, next, true, store, written).value.1;
         Get(Replay(store, PlanRow(t, store, pkey, prior, next).value), Key(t.ns, t.reduces[i].slot, group))
         == Get(store + written', Key(t.ns, t.reduces[i].slot, group))
  {
    hide Key, PlanRow, Last, Replay, MethodSlots, PayloadImage, ReducesOfRow, EntriesOfRow, Under, Dels, Puts, Sane;
    var key := Key(t.ns, t.reduces[i].slot, group);
    RowOps(t, store, pkey, prior, next);
    var (unfolds, written) := ReducesOfRow(t, pkey, prior, false, store, map[]).value;
    var (folds, written') := ReducesOfRow(t, pkey, next, true, store, written).value;
    ReduceSlotIsNoMethod(t, i);
    RowEntriesUnder(t, pkey, prior);
    RowEntriesUnder(t, pkey, next);
    OtherSlotsAvoid(t.ns, Dels(RowEntries(t, pkey, prior)), MethodSlots(t), t.reduces[i].slot, group);
    OtherSlotsAvoid(t.ns, Puts(RowEntries(t, pkey, next)), MethodSlots(t), t.reduces[i].slot, group);
    if key == PrimaryKey(t, pkey) { KeyIsInjective(t.ns, t.reduces[i].slot, group, PRIMARY, pkey); }
    LastOfRowPlan(Dels(RowEntries(t, pkey, prior)), unfolds + folds, (PrimaryKey(t, pkey), PayloadImage(t, next).value),
                  Puts(RowEntries(t, pkey, next)), key);
    ReplayIsLast(store, PlanRow(t, store, pkey, prior, next).value, key);
    RowOverlay(t, pkey, prior, false, store, map[]);
    RowOverlay(t, pkey, next, true, store, written);
    assert store + map[] == store;
    ReplayJoin(store, unfolds, folds);
    ReplayIsLast(store, unfolds + folds, key);
  }

  lemma ReduceSlotIsNoMethod(t: Table, i: nat)
    requires Sane(t) && i < |t.reduces|
    ensures t.reduces[i].slot !in MethodSlots(t) && t.reduces[i].slot >= 4096
  {
    hide WellFormed, PayloadOnly, LogicPayloadOnly, Reversible, Ratchet;
    assert t.reduces[i].slot in SlotsOf(t.reduces);
  }

  lemma RowOverlay(t: Table, pkey: bytes, row: Option<ValueMap>, add: bool, store: Store, written: map<bytes, bytes>)
    requires ReducesOfRow(t, pkey, row, add, store, written).Some?
    ensures var (ops, written') := ReducesOfRow(t, pkey, row, add, store, written).value;
      Replay(store + written, ops) == store + written'
  {
    hide PlanReduces, Replay;
    if row.Some? {
      OverlayIsReplay(t.schema, t.ns, t.reduces, pkey, row.value, add, store, written);
    } else {
      NothingReplays(store + written);
    }
  }

  lemma {:induction false} LedgerHasAll(t: Table, store: Store, rows: Rows, trace: Trace, pkey: bytes)
    requires LedgerTells(t, store, rows, trace) && pkey in rows
    ensures NoneMissing(t.schema, t.ns, t.reduces, pkey, rows[pkey], store)
  {
    hide Exact, Remembers, Reversible, Ratchet, Key, GroupOf;
    forall i | 0 <= i < |t.reduces|
      ensures GroupOf(t.schema, t.reduces[i], pkey, rows[pkey]).Some?
           && Get(store, Key(t.ns, t.reduces[i].slot, GroupOf(t.schema, t.reduces[i], pkey, rows[pkey]).value)).Some?
    {
      assert Tells(t.schema, t.ns, t.reduces[i], store, rows, trace);
    }
  }

  lemma {:induction false} LedgerAfterUnfold(t: Table, store: Store, rows: Rows, trace: Trace, pkey: bytes,
      prior: Option<ValueMap>)
    requires Sane(t) && LedgerTells(t, store, rows, trace) && prior == At(rows, pkey)
    requires ReducesOfRow(t, pkey, prior, false, store, map[]).Some?
    ensures LedgerTells(t, store + ReducesOfRow(t, pkey, prior, false, store, map[]).value.1, rows - {pkey}, trace)
  {
    assert SlotsDiffer(t.reduces) by { hide WellFormed, PayloadOnly, LogicPayloadOnly, Reversible, Ratchet; }
    hide Sane, PlanReduces, Tells, NoneMissing, Moved, SlotsDiffer;
    assert store + map[] == store;
    if prior.Some? {
      LedgerHasAll(t, store, rows, trace, pkey);
      var written := PlanReduces(t.schema, t.ns, t.reduces, pkey, prior.value, false, store, map[]).value.1;
      forall i | 0 <= i < |t.reduces| ensures Tells(t.schema, t.ns, t.reduces[i], store + written, rows - {pkey}, trace) {
        ReducesMove(t.schema, t.ns, t.reduces, pkey, prior.value, false, store, map[], i);
        TellsAfterUnfold(t.schema, t.ns, t.reduces[i], rows, trace, pkey, store, store + written);
      }
    } else {
      assert rows - {pkey} == rows;
    }
  }

  lemma {:induction false} LedgerAfterFold(
    t: Table, store: Store, written: map<bytes, bytes>, rows: Rows, trace: Trace, pkey: bytes, next: Option<ValueMap>)
    requires Sane(t) && LedgerTells(t, store + written, rows, trace) && pkey !in rows
    requires ReducesOfRow(t, pkey, next, true, store, written).Some?
    ensures LedgerTells(t, store + ReducesOfRow(t, pkey, next, true, store, written).value.1,
                        WithRow(rows, pkey, Stored(t, next)), Traced(t, trace, pkey, next))
  {
    assert SlotsDiffer(t.reduces) && forall i :: 0 <= i < |t.reduces| ==> LogicPayloadOnly(t.schema, t.reduces[i].logic) by {
      hide WellFormed, PayloadOnly, LogicPayloadOnly, Reversible, Ratchet;
    }
    hide Sane, PlanReduces, Tells, NoneMissing, Moved, SlotsDiffer, PayloadOf, LogicPayloadOnly;
    if next.Some? {
      var written' := PlanReduces(t.schema, t.ns, t.reduces, pkey, next.value, true, store, written).value.1;
      var row := PayloadOf(t.schema, next.value);
      forall i | 0 <= i < |t.reduces|
        ensures Tells(t.schema, t.ns, t.reduces[i], store + written', rows[pkey := row], trace + [(pkey, row)])
      {
        ReducesMove(t.schema, t.ns, t.reduces, pkey, next.value, true, store, written, i);
        MovedByPayload(t.schema, t.ns, t.reduces[i], pkey, next.value, true, store + written, store + written');
        TellsAfterFold(t.schema, t.ns, t.reduces[i], rows, trace, pkey, row, store + written, store + written');
      }
    } else {
      assert rows - {pkey} == rows;
    }
  }

  function Traced(t: Table, trace: Trace, pkey: bytes, next: Option<ValueMap>): Trace {
    if next.None? then trace else trace + [(pkey, PayloadOf(t.schema, next.value))]
  }

  /** The ledger reads accumulators only. */
  lemma {:induction false} LedgerReadsAccs(t: Table, a: Store, b: Store, rows: Rows, trace: Trace)
    requires LedgerTells(t, a, rows, trace)
    requires forall i, group :: 0 <= i < |t.reduces| ==>
      Get(b, Key(t.ns, t.reduces[i].slot, group)) == Get(a, Key(t.ns, t.reduces[i].slot, group))
    ensures LedgerTells(t, b, rows, trace)
  {
    hide Key, GroupOf, FoldSet, Members, TraceAcc, Reversible, Ratchet;
    forall i | 0 <= i < |t.reduces| ensures Tells(t.schema, t.ns, t.reduces[i], b, rows, trace) {
      assert Tells(t.schema, t.ns, t.reduces[i], a, rows, trace);
      SameAccs(t.schema, t.ns, t.reduces[i], a, b, rows, trace);
    }
  }

  lemma {:induction false} SameAccs(s: Schema, ns: bytes, r: Reduce, a: Store, b: Store, rows: Rows, trace: Trace)
    requires Tells(s, ns, r, a, rows, trace)
    requires forall group :: Get(b, Key(ns, r.slot, group)) == Get(a, Key(ns, r.slot, group))
    ensures Tells(s, ns, r, b, rows, trace)
  {
    hide Key, GroupOf, FoldSet, Members, TraceAcc, Reversible, Ratchet;
  }

  lemma {:induction false} LedgerAfterRow(t: Table, store: Store, rows: Rows, trace: Trace, pkey: bytes,
      next: Option<ValueMap>)
    requires Sane(t) && LedgerTells(t, store, rows, trace) && PlanRow(t, store, pkey, At(rows, pkey), next).Some?
    ensures LedgerTells(t, Replay(store, PlanRow(t, store, pkey, At(rows, pkey), next).value),
                        WithRow(rows, pkey, Stored(t, next)), Traced(t, trace, pkey, next))
  {
    hide Key, Sane, PlanRow, Replay, LedgerTells, ReducesOfRow, Stored;
    StoredIf(t, next);
    var prior := At(rows, pkey);
    if prior.None? && next.None? {
      NothingPlanned(t, store, pkey);
      NothingReplays(store);
      assert rows - {pkey} == rows;
    } else {
      RowOps(t, store, pkey, prior, next);
      var written := ReducesOfRow(t, pkey, prior, false, store, map[]).value.1;
      var written' := ReducesOfRow(t, pkey, next, true, store, written).value.1;
      LedgerAfterUnfold(t, store, rows, trace, pkey, prior);
      LedgerAfterFold(t, store, written, rows - {pkey}, trace, pkey, next);
      WithoutThenWith(rows, pkey, Stored(t, next));
      var after := Replay(store, PlanRow(t, store, pkey, prior, next).value);
      forall i, group | 0 <= i < |t.reduces|
        ensures Get(after, Key(t.ns, t.reduces[i].slot, group)) == Get(store + written', Key(t.ns, t.reduces[i].slot, group))
      {
        AccAfterRowPlan(t, store, pkey, prior, next, i, group);
      }
      LedgerReadsAccs(t, store + written', after, WithRow(rows, pkey, Stored(t, next)), Traced(t, trace, pkey, next));
    }
  }

  lemma WithoutThenWith(rows: Rows, pkey: bytes, row: Option<ValueMap>)
    ensures WithRow(rows - {pkey}, pkey, row) == WithRow(rows, pkey, row)
  {}

  /** Writing or removing a row through its plan leaves the store saying exactly what the new documents are: the row,
      every face, every accumulator. */
  lemma {:induction false} RowWriteIsHealthy(t: Table, store: Store, d: Docs, pkey: bytes, next: Option<ValueMap>)
    requires Sane(t) && Healthy(t, store, d) && PlanRow(t, store, pkey, At(d.rows, pkey), next).Some? && RowFits(t, next)
    ensures Healthy(t, Replay(store, PlanRow(t, store, pkey, At(d.rows, pkey), next).value),
                    d.(rows := WithRow(d.rows, pkey, Stored(t, next)), trace := Traced(t, d.trace, pkey, next)))
  {
    hide Sane, PlanRow, Replay, RowsTell, SegsTell, VocabTells, FacesTell, LedgerTells, RowFits;
    RowsAfter(t, store, d.rows, pkey, next);
    SegsKept(t, store, d.segs, d.vocab, pkey, At(d.rows, pkey), next);
    VocabKept(t, store, d.vocab, pkey, At(d.rows, pkey), next);
    FacesAfterRow(t, store, d.rows, d.segs, pkey, next);
    LedgerAfterRow(t, store, d.rows, d.trace, pkey, next);
  }

  // --- A segment is written ---

  function WithSeg(segs: Segs, pkey: bytes, seg: Option<ValueMap>): Segs {
    if seg.Some? then segs[pkey := seg.value] else segs - {pkey}
  }

  /** A written segment as it reads back: an empty one is none at all. */
  function StoredSeg(next: ValueMap): Option<ValueMap> { if next == map[] then None else Some(ReadBackMap(next)) }

  /** What a segment plan does to the store, slot by slot. */
  ghost predicate SegEffect(
    t: Table, store: Store, after: Store, pkey: bytes, prior: Option<ValueMap>, next: Option<ValueMap>, image: Option<bytes>)
  {
    && Get(after, VocabStore.SegmentKey(t.ns, pkey)) == image
    && (forall x :: x != pkey ==> Get(after, VocabStore.SegmentKey(t.ns, x)) == Get(store, VocabStore.SegmentKey(t.ns, x)))
    && (forall x :: Get(after, PrimaryKey(t, x)) == Get(store, PrimaryKey(t, x)))
    && (forall i, group :: 0 <= i < |t.reduces| ==>
          Get(after, Key(t.ns, t.reduces[i].slot, group)) == Get(store, Key(t.ns, t.reduces[i].slot, group)))
    && (forall i, rest :: 0 <= i < |t.methods| ==>
          var key := Key(t.ns, t.methods[i].slot, rest);
          Get(after, key) == if Listed(SegEntries(t, pkey, next), key).Some? then Listed(SegEntries(t, pkey, next), key)
                             else if Listed(SegEntries(t, pkey, prior), key).Some? then None
                             else Get(store, key))
  }

  lemma {:induction false} SegFace(
    t: Table, rows: Rows, segs: Segs, pkey: bytes, next: Option<ValueMap>, seg: Option<ValueMap>, i: nat, rest: bytes)
    requires Sane(t) && i < |t.methods| && |pkey| == t.schema.keyLen && SegEntries(t, pkey, seg) == SegEntries(t, pkey, next)
    ensures var (m, key) := (t.methods[i], Key(t.ns, t.methods[i].slot, rest));
      FaceValue(t, rows, WithSeg(segs, pkey, seg), m.slot, rest)
      == if Listed(SegEntries(t, pkey, next), key).Some? then Listed(SegEntries(t, pkey, next), key)
         else if Listed(SegEntries(t, pkey, At(segs, pkey)), key).Some? then None
         else FaceValue(t, rows, segs, m.slot, rest)
  {
    hide Key, Sane, Listed, RowEntries, SegEntries;
    var (m, key, prior) := (t.methods[i], Key(t.ns, t.methods[i].slot, rest), At(segs, pkey));
    SegEntriesBelong(t, pkey, prior);
    SegEntriesBelong(t, pkey, next);
    if !OwnTail(pkey, rest) {
      ForeignIsNotListed(t, pkey, true, SegEntries(t, pkey, prior), m, rest);
      ForeignIsNotListed(t, pkey, true, SegEntries(t, pkey, next), m, rest);
      OtherSeg(t, rows, segs, pkey, seg, m.slot, rest);
    } else {
      OneKindListed(t, pkey, At(rows, pkey), prior, i, rest);
      OneKindListed(t, pkey, At(rows, pkey), seg, i, rest);
      if !m.kind.ByPath? {
        ForeignIsNotListed(t, pkey, true, SegEntries(t, pkey, prior), m, rest);
        ForeignIsNotListed(t, pkey, true, SegEntries(t, pkey, next), m, rest);
      }
    }
  }

  lemma OtherSeg(t: Table, rows: Rows, segs: Segs, pkey: bytes, seg: Option<ValueMap>, at: slot, rest: bytes)
    requires |pkey| == t.schema.keyLen && !OwnTail(pkey, rest)
    ensures FaceValue(t, rows, WithSeg(segs, pkey, seg), at, rest) == FaceValue(t, rows, segs, at, rest)
  {
    hide Key, Listed, RowEntries, SegEntries;
  }

  lemma {:induction false} SegsAfter(
    t: Table, store: Store, after: Store, segs: Segs, v: Segment.Vocab, v': Segment.Vocab, pkey: bytes,
    prior: Option<ValueMap>, next: Option<ValueMap>, seg: Option<ValueMap>, image: Option<bytes>)
    requires SegsTell(t, store, segs, v) && SegEffect(t, store, after, pkey, prior, next, image)
    requires |pkey| == t.schema.keyLen && Segment.Grows(v, v')
    requires image.Some? == seg.Some? && (seg.Some? ==> Frozen(image.value, seg.value, v'))
    ensures SegsTell(t, after, WithSeg(segs, pkey, seg), v')
  {
    hide Key, Segment.Grows, Segment.DecodeSegment, SegEntries, Listed, Frozen;
    forall p ensures SegTells(t, after, p, At(WithSeg(segs, pkey, seg), p), v') {
      assert SegTells(t, store, p, At(segs, p), v);
      if p != pkey && p in segs { StaysFrozen(Get(store, VocabStore.SegmentKey(t.ns, p)).value, segs[p], v, v'); }
    }
  }

  lemma StaysFrozen(raw: bytes, m: ValueMap, v: Segment.Vocab, v': Segment.Vocab)
    requires Frozen(raw, m, v) && Segment.Grows(v, v')
    ensures Frozen(raw, m, v')
  {
    hide Segment.Grows, Segment.DecodeSegment;
    forall later | Segment.Grows(v', later) ensures Segment.DecodeSegment(raw, later.byId) == m {
      Segment.GrowsIsTransitive(v, v', later);
    }
  }

  /** A store changed as a segment plan changes it tells the documents with that segment. */
  lemma {:induction false} SegEffectIsHealthy(
    t: Table, store: Store, after: Store, d: Docs, v': Segment.Vocab, pkey: bytes, next: Option<ValueMap>,
    seg: Option<ValueMap>, image: Option<bytes>)
    requires Sane(t) && Healthy(t, store, d) && SegEffect(t, store, after, pkey, At(d.segs, pkey), next, image)
    requires |pkey| == t.schema.keyLen && Segment.Grows(d.vocab, v') && VocabTells(t, after, v')
    requires image.Some? == seg.Some? && (seg.Some? ==> Frozen(image.value, seg.value, v'))
    requires SegEntries(t, pkey, seg) == SegEntries(t, pkey, next)
    ensures Healthy(t, after, d.(segs := WithSeg(d.segs, pkey, seg), vocab := v'))
  {
    hide Sane, Frozen, Segment.Grows, VocabTells, SegEntries, FaceValue, Tells, DecodePayload, EncodePayload,
      EntriesOfRow, Key, WithSeg, Listed;
    SegsAfter(t, store, after, d.segs, d.vocab, v', pkey, At(d.segs, pkey), next, seg, image);
    LedgerReadsAccs(t, store, after, d.rows, d.trace);
    assert RowsTell(t, after, d.rows) by {
      forall p ensures RowTells(t, after, p, At(d.rows, p)) { assert RowTells(t, store, p, At(d.rows, p)); }
    }
    forall i, rest | 0 <= i < |t.methods|
      ensures Get(after, Key(t.ns, t.methods[i].slot, rest))
           == FaceValue(t, d.rows, WithSeg(d.segs, pkey, seg), t.methods[i].slot, rest)
    {
      SegFace(t, d.rows, d.segs, pkey, next, seg, i, rest);
    }
  }

  // The plans have that effect.

  function VocabSlots(): set<slot> { {VOCAB_ID, VOCAB_NAME} }

  lemma {:induction false} VocabOpsUnder(ns: bytes, v: Segment.Vocab)
    ensures Under(ns, VocabStore.VocabOps(ns, v), VocabSlots())
  {
    hide Key;
    NameOpsUnder(ns, v.written);
    assert InSlots(ns, VocabSlots(), VocabStore.CursorKey(ns));
  }

  lemma {:induction false} NameOpsUnder(ns: bytes, written: seq<(bytes, u16)>)
    ensures Under(ns, VocabStore.NameOps(ns, written), VocabSlots())
    decreases |written|
  {
    hide Key, BE;
    if written != [] {
      NameOpsUnder(ns, written[..|written| - 1]);
      var (name, id) := written[|written| - 1];
      assert InSlots(ns, VocabSlots(), VocabStore.IdKey(ns, id)) by { assert VOCAB_ID in VocabSlots(); }
      assert InSlots(ns, VocabSlots(), VocabStore.NameKey(ns, name)) by { assert VOCAB_NAME in VocabSlots(); }
    }
  }

  lemma {:induction false} LastOfSegPlan(vocab: seq<Op>, segment: Op, dels: seq<Op>, puts: seq<Op>, key: bytes)
    ensures Last(vocab + [segment] + (dels + puts), key)
         == if Last(puts, key).Some? then Last(puts, key)
            else if Last(dels, key).Some? then Last(dels, key)
            else if segment.0 == key then Some(segment.1)
            else Last(vocab, key)
  {
    hide Last;
    LastOfJoin(vocab + [segment], dels + puts, key);
    LastOfJoin(dels, puts, key);
    LastOfJoin(vocab, [segment], key);
    LastOfOne(segment, key);
  }

  /** The plan of a segment: what it consists of. */
  lemma {:induction false} SegOps(t: Table, pkey: bytes, prior: Option<ValueMap>, next: ValueMap, v: Segment.Vocab)
    requires PlanSegment(t, pkey, prior, next, v).0.Some?
    ensures Segment.EncodeSegment(next, v).0.Some?
    ensures var (body, v') := Segment.EncodeSegment(next, v);
      && PlanSegment(t, pkey, prior, next, v).1 == v'.(written := [])
      && PlanSegment(t, pkey, prior, next, v).0.value
         == VocabStore.VocabOps(t.ns, v')
            + [(VocabStore.SegmentKey(t.ns, pkey), if body.value == [] then None else Some(body.value))]
            + (Dels(SegEntries(t, pkey, prior)) + Puts(SegEntries(t, pkey, Some(next))))
  {
    hide Segment.EncodeSegment, VocabStore.VocabOps, PathEntries;
  }

  /** Any key of a segment plan: nothing else but the vocabulary, the segment and the path entries is written. */
  lemma {:induction false} SegPlanAt(t: Table, store: Store, pkey: bytes, prior: Option<ValueMap>, next: ValueMap,
      v: Segment.Vocab, key: bytes)
    requires PlanSegment(t, pkey, prior, next, v).0.Some?
    ensures var (body, v') := Segment.EncodeSegment(next, v);
      var (puts, dels) := (Puts(SegEntries(t, pkey, Some(next))), Dels(SegEntries(t, pkey, prior)));
      && body.Some?
      && Get(Replay(store, PlanSegment(t, pkey, prior, next, v).0.value), key)
         == if Last(puts, key).Some? then Last(puts, key).value
            else if Last(dels, key).Some? then Last(dels, key).value
            else if key == VocabStore.SegmentKey(t.ns, pkey) then (if body.value == [] then None else body)
            else Get(Replay(store, VocabStore.VocabOps(t.ns, v')), key)
  {
    hide Segment.EncodeSegment, VocabStore.VocabOps, PlanSegment, SegEntries, Last, Replay, Key, Puts, Dels;
    SegOps(t, pkey, prior, next, v);
    var (body, v') := Segment.EncodeSegment(next, v);
    LastOfSegPlan(VocabStore.VocabOps(t.ns, v'),
                  (VocabStore.SegmentKey(t.ns, pkey), if body.value == [] then None else Some(body.value)),
                  Dels(SegEntries(t, pkey, prior)), Puts(SegEntries(t, pkey, Some(next))), key);
    ReplayIsLast(store, PlanSegment(t, pkey, prior, next, v).0.value, key);
    ReplayIsLast(store, VocabStore.VocabOps(t.ns, v'), key);
  }

  lemma {:induction false} SegPlanLow(
    t: Table, store: Store, pkey: bytes, prior: Option<ValueMap>, next: ValueMap, v: Segment.Vocab, at: slot, x: bytes)
    requires Sane(t) && PlanSegment(t, pkey, prior, next, v).0.Some? && at !in MethodSlots(t)
    ensures var (body, v') := Segment.EncodeSegment(next, v);
      var key := Key(t.ns, at, x);
      && body.Some?
      && Get(Replay(store, PlanSegment(t, pkey, prior, next, v).0.value), key)
         == if at == DYNAMIC && x == pkey then (if body.value == [] then None else body)
            else if at == VOCAB_ID || at == VOCAB_NAME then Get(Replay(store, VocabStore.VocabOps(t.ns, v')), key)
            else Get(store, key)
  {
    hide Segment.EncodeSegment, VocabStore.VocabOps, PlanSegment, SegEntries, Last, Replay, Key, Puts, Dels, Under,
      MethodSlots, Sane;
    var key := Key(t.ns, at, x);
    SegPlanAt(t, store, pkey, prior, next, v, key);
    SegEntriesBelong(t, pkey, prior);
    SegEntriesBelong(t, pkey, Some(next));
    OtherSlotsAvoid(t.ns, Dels(SegEntries(t, pkey, prior)), MethodSlots(t), at, x);
    OtherSlotsAvoid(t.ns, Puts(SegEntries(t, pkey, Some(next))), MethodSlots(t), at, x);
    if key == VocabStore.SegmentKey(t.ns, pkey) { KeyIsInjective(t.ns, at, x, DYNAMIC, pkey); }
    var v' := Segment.EncodeSegment(next, v).1;
    if at !in VocabSlots() {
      VocabOpsUnder(t.ns, v');
      OtherSlotsAvoid(t.ns, VocabStore.VocabOps(t.ns, v'), VocabSlots(), at, x);
      ReplayIsLast(store, VocabStore.VocabOps(t.ns, v'), key);
    }
  }

  lemma {:induction false} SegPlanFace(
    t: Table, store: Store, pkey: bytes, prior: Option<ValueMap>, next: ValueMap, v: Segment.Vocab, i: nat, rest: bytes)
    requires Sane(t) && PlanSegment(t, pkey, prior, next, v).0.Some? && i < |t.methods|
    ensures var key := Key(t.ns, t.methods[i].slot, rest);
      Get(Replay(store, PlanSegment(t, pkey, prior, next, v).0.value), key)
      == if Listed(SegEntries(t, pkey, Some(next)), key).Some? then Listed(SegEntries(t, pkey, Some(next)), key)
         else if Listed(SegEntries(t, pkey, prior), key).Some? then None
         else Get(store, key)
  {
    hide Segment.EncodeSegment, VocabStore.VocabOps, PlanSegment, SegEntries, Last, Replay, Key, Puts, Dels, Under,
      MethodSlots, Sane, Listed;
    var (at, key) := (t.methods[i].slot, Key(t.ns, t.methods[i].slot, rest));
    SegPlanAt(t, store, pkey, prior, next, v, key);
    LastOfPuts(SegEntries(t, pkey, Some(next)), key);
    LastOfDels(SegEntries(t, pkey, prior), key);
    MethodSlotIsNoReduce(t, i);
    if key == VocabStore.SegmentKey(t.ns, pkey) { KeyIsInjective(t.ns, at, rest, DYNAMIC, pkey); }
    var v' := Segment.EncodeSegment(next, v).1;
    VocabOpsUnder(t.ns, v');
    OtherSlotsAvoid(t.ns, VocabStore.VocabOps(t.ns, v'), VocabSlots(), at, rest);
    ReplayIsLast(store, VocabStore.VocabOps(t.ns, v'), key);
  }

  lemma {:induction false} SegPlanHasEffect(t: Table, store: Store, pkey: bytes, prior: Option<ValueMap>,
      next: ValueMap, v: Segment.Vocab)
    requires Sane(t) && PlanSegment(t, pkey, prior, next, v).0.Some?
    ensures var body := Segment.EncodeSegment(next, v).0;
      body.Some? && SegEffect(t, store, Replay(store, PlanSegment(t, pkey, prior, next, v).0.value), pkey, prior, Some(next),
                              if body.value == [] then None else body)
  {
    hide Segment.EncodeSegment, PlanSegment, SegEntries, Replay, Key, MethodSlots, Sane, Listed;
    LowSlots(t, DYNAMIC);
    LowSlots(t, PRIMARY);
    var after := Replay(store, PlanSegment(t, pkey, prior, next, v).0.value);
    SegPlanLow(t, store, pkey, prior, next, v, DYNAMIC, pkey);
    forall x | x != pkey ensures Get(after, VocabStore.SegmentKey(t.ns, x)) == Get(store, VocabStore.SegmentKey(t.ns, x)) {
      SegPlanLow(t, store, pkey, prior, next, v, DYNAMIC, x);
    }
    forall x ensures Get(after, PrimaryKey(t, x)) == Get(store, PrimaryKey(t, x)) {
      SegPlanLow(t, store, pkey, prior, next, v, PRIMARY, x);
    }
    forall i, group | 0 <= i < |t.reduces|
      ensures Get(after, Key(t.ns, t.reduces[i].slot, group)) == Get(store, Key(t.ns, t.reduces[i].slot, group))
    {
      ReduceSlotIsNoMethod(t, i);
      SegPlanLow(t, store, pkey, prior, next, v, t.reduces[i].slot, group);
    }
    forall i, rest | 0 <= i < |t.methods|
      ensures var key := Key(t.ns, t.methods[i].slot, rest);
        Get(after, key) == if Listed(SegEntries(t, pkey, Some(next)), key).Some? then Listed(SegEntries(t, pkey, Some(next)), key)
                           else if Listed(SegEntries(t, pkey, prior), key).Some? then None
                           else Get(store, key)
    {
      SegPlanFace(t, store, pkey, prior, next, v, i, rest);
    }
  }

  lemma {:induction false} VocabAfter(t: Table, store: Store, pkey: bytes, prior: Option<ValueMap>, next: ValueMap,
      v: Segment.Vocab)
    requires Sane(t) && VocabTells(t, store, v) && PlanSegment(t, pkey, prior, next, v).0.Some?
    ensures var v' := PlanSegment(t, pkey, prior, next, v).1;
      VocabTells(t, Replay(store, PlanSegment(t, pkey, prior, next, v).0.value), v') && Segment.Grows(v, v')
  {
    hide Segment.EncodeSegment, PlanSegment, Replay, Key, MethodSlots, Sane, BE, VocabStore.VocabOps, Segment.Accounted;
    SegOps(t, pkey, prior, next, v);
    var v' := Segment.EncodeSegment(next, v).1;
    EncodeGrows(next, v);
    ForgetWritten(v, v');
    hide Segment.Bijective, Segment.Grows;
    VocabStore.GrowthReplays(store, t.ns, v, v');
    var (grown, after) := (Replay(store, VocabStore.VocabOps(t.ns, v')), Replay(store, PlanSegment(t, pkey, prior, next, v).0.value));
    LowSlots(t, VOCAB_ID);
    LowSlots(t, VOCAB_NAME);
    forall id: u16 ensures Get(after, VocabStore.IdKey(t.ns, id)) == Get(grown, VocabStore.IdKey(t.ns, id)) {
      SegPlanLow(t, store, pkey, prior, next, v, VOCAB_ID, BE(id, 2));
    }
    forall name ensures Get(after, VocabStore.NameKey(t.ns, name)) == Get(grown, VocabStore.NameKey(t.ns, name)) {
      SegPlanLow(t, store, pkey, prior, next, v, VOCAB_NAME, name);
    }
    SegPlanLow(t, store, pkey, prior, next, v, VOCAB_ID, []);
  }

  lemma {:induction false} EncodeGrows(m: ValueMap, v: Segment.Vocab)
    requires Segment.Bijective(v)
    ensures var v' := Segment.EncodeSegment(m, v).1; Segment.Bijective(v') && Segment.Grows(v, v') && Segment.Accounted(v, v')
  {
    hide Segment.EncodeBody, Segment.Bijective, Segment.Grows, Segment.Accounted;
    Segment.BodyKeeps(Obj(m), v);
  }

  lemma ForgetWritten(v: Segment.Vocab, v': Segment.Vocab)
    requires Segment.Bijective(v') && Segment.Grows(v, v')
    ensures Segment.Bijective(v'.(written := [])) && Segment.Grows(v, v'.(written := []))
  {}

  predicate SegFits(next: ValueMap, v: Segment.Vocab) {
    Segment.EncodeSegment(next, v).0.Some? ==> |Segment.EncodeSegment(next, v).0.value| < U64_END
  }

  lemma {:induction false} WrittenIsFrozen(next: ValueMap, v: Segment.Vocab)
    requires Segment.Bijective(v) && Segment.EncodeSegment(next, v).0.Some? && SegFits(next, v)
    ensures Frozen(Segment.EncodeSegment(next, v).0.value, ReadBackMap(next), Segment.EncodeSegment(next, v).1.(written := []))
  {
    hide Segment.EncodeSegment, Segment.Bijective, Segment.DecodeSegment, ReadBackMap;
    var v' := Segment.EncodeSegment(next, v).1;
    forall later | Segment.Grows(v'.(written := []), later)
      ensures Segment.DecodeSegment(Segment.EncodeSegment(next, v).0.value, later.byId) == ReadBackMap(next)
    {
      Segment.SegmentReadsBack(next, v, later);
    }
  }

  lemma {:induction false} StoredSegEntries(t: Table, pkey: bytes, next: ValueMap)
    ensures SegEntries(t, pkey, StoredSeg(next)) == SegEntries(t, pkey, Some(next))
  {
    hide PathEntries, ReadBackMap;
    PathEntriesOfReadBack(t.ns, t.methods, pkey, next);
    if next == map[] { NoFieldsNoEntries(t.ns, t.methods, pkey); }
  }

  lemma {:induction false} NoFieldsNoEntries(ns: bytes, methods: seq<AccessMethod>, pkey: bytes)
    ensures PathEntries(ns, methods, pkey, map[]) == []
    decreases |methods|
  {
    if methods != [] { NoFieldsNoEntries(ns, methods[1..], pkey); }
  }

  /** Writing a segment through its plan leaves the store saying exactly what the new documents are: the segment as it
      reads back, its names, its path entries; nothing else moved. */
  lemma {:induction false} SegWriteIsHealthy(t: Table, store: Store, d: Docs, pkey: bytes, next: ValueMap)
    requires Sane(t) && Healthy(t, store, d) && |pkey| == t.schema.keyLen && SegFits(next, d.vocab)
    requires PlanSegment(t, pkey, At(d.segs, pkey), next, d.vocab).0.Some?
    ensures var (ops, v') := PlanSegment(t, pkey, At(d.segs, pkey), next, d.vocab);
      Healthy(t, Replay(store, ops.value), d.(segs := WithSeg(d.segs, pkey, StoredSeg(next)), vocab := v'))
  {
    hide Sane, PlanSegment, Replay, RowsTell, SegsTell, FacesTell, LedgerTells, SegFits, SegEffect, Frozen,
      Segment.Bijective, Segment.Grows, Segment.EncodeSegment, VocabStore.Holds, SegEntries, ReadBackMap;
    var (ops, v') := PlanSegment(t, pkey, At(d.segs, pkey), next, d.vocab);
    SegOps(t, pkey, At(d.segs, pkey), next, d.vocab);
    SegPlanHasEffect(t, store, pkey, At(d.segs, pkey), next, d.vocab);
    VocabAfter(t, store, pkey, At(d.segs, pkey), next, d.vocab);
    var body := Segment.EncodeSegment(next, d.vocab).0.value;
    WrittenIsFrozen(next, d.vocab);
    Segment.EmptySegment(next, d.vocab);
    StoredSegEntries(t, pkey, next);
    SegEffectIsHealthy(t, store, Replay(store, ops.value), d, v', pkey, Some(next), StoredSeg(next), if body == [] then None else Some(body));
  }

  // --- A segment is removed ---

  lemma {:induction false} PurgeAt(t: Table, store: Store, pkey: bytes, prior: ValueMap, key: bytes)
    ensures Get(Replay(store, PlanPurgeSegment(t, pkey, prior)), key)
         == if key == VocabStore.SegmentKey(t.ns, pkey) || Listed(SegEntries(t, pkey, Some(prior)), key).Some? then None
            else Get(store, key)
  {
    hide PathEntries, Last, Replay, Key, Dels, Listed;
    var dels := Dels(SegEntries(t, pkey, Some(prior)));
    var segment: Op := (VocabStore.SegmentKey(t.ns, pkey), None);
    LastOfJoin(dels, [segment], key);
    LastOfOne(segment, key);
    LastOfDels(SegEntries(t, pkey, Some(prior)), key);
    ReplayIsLast(store, PlanPurgeSegment(t, pkey, prior), key);
  }

  lemma {:induction false} PurgeLow(t: Table, store: Store, pkey: bytes, prior: ValueMap, at: slot, x: bytes)
    requires at !in MethodSlots(t) && (at != DYNAMIC || x != pkey)
    ensures Get(Replay(store, PlanPurgeSegment(t, pkey, prior)), Key(t.ns, at, x)) == Get(store, Key(t.ns, at, x))
  {
    hide PlanPurgeSegment, SegEntries, Replay, Key, MethodSlots, Listed, Under, Dels, Puts, Last;
    var key := Key(t.ns, at, x);
    PurgeAt(t, store, pkey, prior, key);
    SegEntriesBelong(t, pkey, Some(prior));
    OtherSlotsAvoid(t.ns, Dels(SegEntries(t, pkey, Some(prior))), MethodSlots(t), at, x);
    LastOfDels(SegEntries(t, pkey, Some(prior)), key);
    if key == VocabStore.SegmentKey(t.ns, pkey) { KeyIsInjective(t.ns, at, x, DYNAMIC, pkey); }
  }

  lemma {:induction false} PurgeHasEffect(t: Table, store: Store, pkey: bytes, prior: ValueMap)
    requires Sane(t)
    ensures SegEffect(t, store, Replay(store, PlanPurgeSegment(t, pkey, prior)), pkey, Some(prior), None, None)
  {
    hide PlanPurgeSegment, PathEntries, Replay, Key, MethodSlots, Sane, Listed;
    LowSlots(t, DYNAMIC);
    LowSlots(t, PRIMARY);
    var after := Replay(store, PlanPurgeSegment(t, pkey, prior));
    PurgeAt(t, store, pkey, prior, VocabStore.SegmentKey(t.ns, pkey));
    forall x | x != pkey ensures Get(after, VocabStore.SegmentKey(t.ns, x)) == Get(store, VocabStore.SegmentKey(t.ns, x)) {
      PurgeLow(t, store, pkey, prior, DYNAMIC, x);
    }
    forall x ensures Get(after, PrimaryKey(t, x)) == Get(store, PrimaryKey(t, x)) { PurgeLow(t, store, pkey, prior, PRIMARY, x); }
    forall i, group | 0 <= i < |t.reduces|
      ensures Get(after, Key(t.ns, t.reduces[i].slot, group)) == Get(store, Key(t.ns, t.reduces[i].slot, group))
    {
      ReduceSlotIsNoMethod(t, i);
      PurgeLow(t, store, pkey, prior, t.reduces[i].slot, group);
    }
    forall i, rest | 0 <= i < |t.methods|
      ensures var key := Key(t.ns, t.methods[i].slot, rest);
        Get(after, key) == if Listed(SegEntries(t, pkey, None), key).Some? then Listed(SegEntries(t, pkey, None), key)
                           else if Listed(SegEntries(t, pkey, Some(prior)), key).Some? then None
                           else Get(store, key)
    {
      var key := Key(t.ns, t.methods[i].slot, rest);
      PurgeAt(t, store, pkey, prior, key);
      MethodSlotIsNoReduce(t, i);
      if key == VocabStore.SegmentKey(t.ns, pkey) { KeyIsInjective(t.ns, t.methods[i].slot, rest, DYNAMIC, pkey); }
      NothingListed(key);
    }
  }

  lemma {:induction false} VocabAfterPurge(t: Table, store: Store, pkey: bytes, prior: ValueMap, v: Segment.Vocab)
    requires Sane(t) && VocabTells(t, store, v)
    ensures VocabTells(t, Replay(store, PlanPurgeSegment(t, pkey, prior)), v) && Segment.Grows(v, v)
  {
    Segment.GrowsItself(v);
    hide PlanPurgeSegment, Replay, Key, MethodSlots, Sane, BE, Segment.Bijective, Segment.Grows;
    LowSlots(t, VOCAB_ID);
    LowSlots(t, VOCAB_NAME);
    var after := Replay(store, PlanPurgeSegment(t, pkey, prior));
    forall id: u16 ensures Get(after, VocabStore.IdKey(t.ns, id)) == Get(store, VocabStore.IdKey(t.ns, id)) {
      PurgeLow(t, store, pkey, prior, VOCAB_ID, BE(id, 2));
    }
    forall name ensures Get(after, VocabStore.NameKey(t.ns, name)) == Get(store, VocabStore.NameKey(t.ns, name)) {
      PurgeLow(t, store, pkey, prior, VOCAB_NAME, name);
    }
    PurgeLow(t, store, pkey, prior, VOCAB_ID, []);
  }

  /** Removing a segment takes its path entries with it and leaves everything else. */
  lemma {:induction false} SegPurgeIsHealthy(t: Table, store: Store, d: Docs, pkey: bytes)
    requires Sane(t) && Healthy(t, store, d) && |pkey| == t.schema.keyLen && pkey in d.segs
    ensures Healthy(t, Replay(store, PlanPurgeSegment(t, pkey, d.segs[pkey])), d.(segs := d.segs - {pkey}))
  {
    hide Sane, PlanPurgeSegment, Replay, RowsTell, SegsTell, VocabTells, FacesTell, LedgerTells, SegEffect, Frozen,
      Segment.Grows, PathEntries;
    PurgeHasEffect(t, store, pkey, d.segs[pkey]);
    VocabAfterPurge(t, store, pkey, d.segs[pkey], d.vocab);
    SegEffectIsHealthy(t, store, Replay(store, PlanPurgeSegment(t, pkey, d.segs[pkey])), d, d.vocab, pkey, None, None, None);
  }
}
