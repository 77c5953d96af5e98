/** When a verb must succeed. */
module Accepts {
  import opened Bytes
  import opened Store
  import opened Value
  import opened Schema
  import opened Index
  import opened Reduce
  import opened Ledger
  import opened Plan
  import opened Health
  import opened Verbs
  import opened Scans
  import P = Probes
  import N = SegmentNames
  import Segment
  import VocabStore

  // --- Reduces ---

  /** The row has a group, and the logic takes the row into the group's accumulator, or out of it. */
  predicate CanMove(s: Schema, ns: bytes, r: Reduce, pkey: bytes, document: ValueMap, add: bool, store: Store) {
    var g := GroupOf(s, r, pkey, document);
    g.Some? && Moving(r.logic, add, Get(store, Key(ns, r.slot, g.value)), KeyOf(s, pkey), document).Some?
  }

  predicate AllCanMove(s: Schema, ns: bytes, reduces: seq<Reduce>, pkey: bytes, document: ValueMap, add: bool,
      store: Store) {
    forall i :: 0 <= i < |reduces| ==> CanMove(s, ns, reduces[i], pkey, document, add, store)
  }

  lemma {:induction false} OtherCanMove(
    s: Schema, ns: bytes, r: Reduce, pkey: bytes, document: ValueMap, add: bool, store: Store, written: map<bytes, bytes>,
    other: slot, x: bytes, image: bytes)
    requires r.slot != other
    ensures CanMove(s, ns, r, pkey, document, add, store + written[Key(ns, other, x) := image])
       <==> CanMove(s, ns, r, pkey, document, add, store + written)
  {
    hide GroupBytes, KeyOf, Key;
    var g := GroupOf(s, r, pkey, document);
    if g.Some? && Key(ns, r.slot, g.value) == Key(ns, other, x) { KeyIsInjective(ns, r.slot, g.value, other, x); }
  }

  lemma AllCanMoveCons(s: Schema, ns: bytes, reduces: seq<Reduce>, pkey: bytes, document: ValueMap, add: bool,
      store: Store)
    requires reduces != []
    ensures AllCanMove(s, ns, reduces, pkey, document, add, store)
       <==> CanMove(s, ns, reduces[0], pkey, document, add, store) && AllCanMove(s, ns, reduces[1..], pkey, document, add, store)
  {
    hide CanMove;
    assert forall i :: 0 < i < |reduces| ==> reduces[i] == reduces[1..][i - 1];
    assert forall i :: 0 <= i < |reduces[1..]| ==> reduces[1..][i] == reduces[i + 1];
  }

  /** Planning the reduces of a row succeeds exactly when every one can move. */
  lemma {:induction false} ReducesSucceed(
    s: Schema, ns: bytes, reduces: seq<Reduce>, pkey: bytes, document: ValueMap, add: bool, store: Store, written: map<bytes, bytes>)
    requires SlotsDiffer(reduces) && (!add ==> NoneMissing(s, ns, reduces, pkey, document, store + written))
    ensures PlanReduces(s, ns, reduces, pkey, document, add, store, written).Some?
       <==> AllCanMove(s, ns, reduces, pkey, document, add, store + written)
    decreases |reduces|
  {
    if reduces == [] {
      NothingToMove(s, ns, pkey, document, add, store, written);
    } else {
      hide *;
      AllCanMoveCons(s, ns, reduces, pkey, document, add, store + written);
      TailSlots(reduces);
      if !add { FirstIsThere(s, ns, reduces, pkey, document, store + written); }
      PlanStep(s, ns, reduces, pkey, document, add, store, written);
      if CanMove(s, ns, reduces[0], pkey, document, add, store + written) {
        var ek := EntryKey(s, ns, reduces[0], pkey, document);
        var image := MovedTo(s, ns, reduces[0], pkey, document, add, store + written);
        if !add { StillThere(s, ns, reduces, pkey, document, store, written, ek, image); }
        ReducesSucceed(s, ns, reduces[1..], pkey, document, add, store, written[ek := image]);
        EntryKeyIs(s, ns, reduces[0], pkey, document);
        TailCanMove(s, ns, reduces, pkey, document, add, store, written, GroupOf(s, reduces[0], pkey, document).value, image);
      }
    }
  }

  lemma NothingToMove(s: Schema, ns: bytes, pkey: bytes, document: ValueMap, add: bool, store: Store, written: map<bytes, bytes>)
    ensures PlanReduces(s, ns, [], pkey, document, add, store, written).Some? && AllCanMove(s, ns, [], pkey, document, add, store + written)
  {}

  function EntryKey(s: Schema, ns: bytes, r: Reduce, pkey: bytes, document: ValueMap): bytes {
    var g := GroupOf(s, r, pkey, document);
    Key(ns, r.slot, if g.Some? then g.value else [])
  }

  lemma EntryKeyIs(s: Schema, ns: bytes, r: Reduce, pkey: bytes, document: ValueMap)
    ensures GroupOf(s, r, pkey, document).Some? ==>
      EntryKey(s, ns, r, pkey, document) == Key(ns, r.slot, GroupOf(s, r, pkey, document).value)
  {
    hide GroupOf, Key;
  }

  function MovedTo(s: Schema, ns: bytes, r: Reduce, pkey: bytes, document: ValueMap, add: bool, store: Store): bytes
    requires CanMove(s, ns, r, pkey, document, add, store)
  {
    Moving(r.logic, add, Get(store, EntryKey(s, ns, r, pkey, document)), KeyOf(s, pkey), document).value
  }

  /** A plan succeeds when its first reduce can move and the plan of the others does, over what the first has written. */
  lemma {:induction false} PlanStep(
    s: Schema, ns: bytes, reduces: seq<Reduce>, pkey: bytes, document: ValueMap, add: bool, store: Store, written: map<bytes, bytes>)
    requires reduces != []
    requires !add ==>
      var g := GroupOf(s, reduces[0], pkey, document); g.Some? && Get(store + written, Key(ns, reduces[0].slot, g.value)).Some?
    ensures CanMove(s, ns, reduces[0], pkey, document, add, store + written) ==> GroupOf(s, reduces[0], pkey, document).Some?
    ensures PlanReduces(s, ns, reduces, pkey, document, add, store, written).Some? <==>
      && CanMove(s, ns, reduces[0], pkey, document, add, store + written)
      && PlanReduces(s, ns, reduces[1..], pkey, document, add, store,
                     written[EntryKey(s, ns, reduces[0], pkey, document) := MovedTo(s, ns, reduces[0], pkey, document, add, store + written)]).Some?
  {
    hide GroupBytes, KeyOf, Key;
    var ek := EntryKey(s, ns, reduces[0], pkey, document);
    assert Get(store + written, ek) == AccAt(store, written, ek);
  }

  lemma FirstIsThere(s: Schema, ns: bytes, reduces: seq<Reduce>, pkey: bytes, document: ValueMap, store: Store)
    requires reduces != [] && NoneMissing(s, ns, reduces, pkey, document, store)
    ensures var g := GroupOf(s, reduces[0], pkey, document); g.Some? && Get(store, Key(ns, reduces[0].slot, g.value)).Some?
  {
    hide GroupBytes, KeyOf, Key;
  }

  lemma {:induction false} TailCanMove(
    s: Schema, ns: bytes, reduces: seq<Reduce>, pkey: bytes, document: ValueMap, add: bool, store: Store, written: map<bytes, bytes>,
    group: bytes, image: bytes)
    requires reduces != [] && SlotsDiffer(reduces)
    ensures AllCanMove(s, ns, reduces[1..], pkey, document, add, store + written[Key(ns, reduces[0].slot, group) := image])
       <==> AllCanMove(s, ns, reduces[1..], pkey, document, add, store + written)
  {
    hide CanMove, Key;
    forall i | 0 <= i < |reduces[1..]|
      ensures CanMove(s, ns, reduces[1..][i], pkey, document, add, store + written[Key(ns, reduces[0].slot, group) := image])
         <==> CanMove(s, ns, reduces[1..][i], pkey, document, add, store + written)
    {
      assert reduces[1..][i] == reduces[i + 1];
      OtherCanMove(s, ns, reduces[i + 1], pkey, document, add, store, written, reduces[0].slot, group, image);
    }
  }

  // --- Taking a stored row out ---

  lemma ReducesDiffer(t: Table)
    requires Sane(t)
    ensures SlotsDiffer(t.reduces) && WellFormed(t.schema)
    ensures forall i :: 0 <= i < |t.reduces| ==> Reversible(t.reduces[i].logic) || Ratchet(t.reduces[i].logic)
  {
    hide WellFormed, PayloadOnly, LogicPayloadOnly, Reversible, Ratchet;
  }

  /** A stored row can always be taken out of its groups. */
  lemma {:induction false} StoredCanLeave(t: Table, store: Store, d: Docs, pkey: bytes)
    requires Sane(t) && Healthy(t, store, d) && pkey in d.rows
    ensures NoneMissing(t.schema, t.ns, t.reduces, pkey, d.rows[pkey], store)
    ensures AllCanMove(t.schema, t.ns, t.reduces, pkey, d.rows[pkey], false, store)
  {
    ReducesDiffer(t);
    hide Sane, RowsTell, SegsTell, VocabTells, FacesTell, Key, GroupOf, Reversible, Ratchet, WellFormed;
    forall i | 0 <= i < |t.reduces|
      ensures var g := GroupOf(t.schema, t.reduces[i], pkey, d.rows[pkey]);
        g.Some? && Get(store, Key(t.ns, t.reduces[i].slot, g.value)).Some?
      ensures CanMove(t.schema, t.ns, t.reduces[i], pkey, d.rows[pkey], false, store)
    {
      assert Tells(t.schema, t.ns, t.reduces[i], store, d.rows, d.trace);
      LeavesGroup(t.schema, t.ns, t.reduces[i], store, d.rows, d.trace, pkey);
    }
  }

  lemma {:induction false} LeavesGroup(s: Schema, ns: bytes, r: Reduce, store: Store, rows: Rows, trace: Trace,
      pkey: bytes)
    requires Tells(s, ns, r, store, rows, trace) && pkey in rows && (Reversible(r.logic) || Ratchet(r.logic))
    ensures var g := GroupOf(s, r, pkey, rows[pkey]);
      g.Some? && Get(store, Key(ns, r.slot, g.value)).Some? && CanMove(s, ns, r, pkey, rows[pkey], false, store)
  {
    hide Key, GroupOf, KeyOf, FoldSet, Remembers;
    var g := GroupOf(s, r, pkey, rows[pkey]).value;
    var acc := Get(store, Key(ns, r.slot, g)).value;
    if Reversible(r.logic) {
      var members := Members(s, r, rows, g);
      FoldAnyLast(s, r.logic, rows, members, pkey);
      FoldSetFits(s, r.logic, rows, members - {pkey});
      assert FoldSet(s, r.logic, rows, members) == Some(acc);
    }
  }

  // --- A row plan ---

  /** What the new row of a key is folded into: the group's accumulator, the old row taken out of it. */
  function AccWithout(t: Table, store: Store, prior: Option<ValueMap>, r: Reduce, pkey: bytes,
      group: bytes): Option<bytes> {
    var acc := Get(store, Key(t.ns, r.slot, group));
    if prior.Some? && GroupOf(t.schema, r, pkey, prior.value) == Some(group)
    then Moving(r.logic, false, acc, KeyOf(t.schema, pkey), prior.value)
    else acc
  }

  /** The reduce groups the row and takes it in. */
  predicate IsTakenIn(t: Table, store: Store, prior: Option<ValueMap>, pkey: bytes, row: ValueMap, i: nat)
    requires i < |t.reduces|
  {
    var g := GroupOf(t.schema, t.reduces[i], pkey, row);
    g.Some? && Moving(t.reduces[i].logic, true, AccWithout(t, store, prior, t.reduces[i], pkey, g.value), KeyOf(t.schema, pkey), row).Some?
  }

  predicate TakenIn(t: Table, store: Store, prior: Option<ValueMap>, pkey: bytes, row: ValueMap) {
    forall i :: 0 <= i < |t.reduces| ==> IsTakenIn(t, store, prior, pkey, row, i)
  }

  /** The row can be stored: its values fit the schema, its methods have entries for it, and every reduce takes it in. */
  predicate RowAccepted(t: Table, store: Store, prior: Option<ValueMap>, pkey: bytes, row: ValueMap) {
    && EncodePayload(t.schema, row).Some? && IndexEntries(t.schema, t.ns, t.methods, pkey, row).Some?
    && TakenIn(t, store, prior, pkey, row)
  }

  lemma {:induction false} AccAfterLeaving(t: Table, store: Store, d: Docs, pkey: bytes, i: nat, group: bytes)
    requires Sane(t) && Healthy(t, store, d) && i < |t.reduces|
    requires ReducesOfRow(t, pkey, At(d.rows, pkey), false, store, map[]).Some?
    ensures var written := ReducesOfRow(t, pkey, At(d.rows, pkey), false, store, map[]).value.1;
      Get(store + written, Key(t.ns, t.reduces[i].slot, group)) == AccWithout(t, store, At(d.rows, pkey), t.reduces[i], pkey, group)
  {
    hide *;
    WithNothing(store);
    ReducesDiffer(t);
    PriorIs(d, pkey);
    if pkey in d.rows {
      StoredCanLeave(t, store, d, pkey);
      NoPrior(t, store, At(d.rows, pkey), pkey);
      var written := ReducesOfRow(t, pkey, At(d.rows, pkey), false, store, map[]).value.1;
      ReducesMove(t.schema, t.ns, t.reduces, pkey, d.rows[pkey], false, store, map[], i);
      MovedOut(t, store, store + written, t.reduces[i], pkey, d.rows[pkey], group);
    } else {
      NothingLeft(t, store, pkey, t.reduces[i], group);
    }
  }

  lemma WithNothing(store: Store)
    ensures store + map[] == store
  {}

  lemma PriorIs(d: Docs, pkey: bytes)
    ensures At(d.rows, pkey) == if pkey in d.rows then Some(d.rows[pkey]) else None
  {}

  lemma NoPrior(t: Table, store: Store, prior: Option<ValueMap>, pkey: bytes)
    requires prior.Some?
    ensures ReducesOfRow(t, pkey, prior, false, store, map[]) == PlanReduces(t.schema, t.ns, t.reduces, pkey, prior.value, false, store, map[])
  {
    hide PlanReduces;
  }

  lemma NothingLeft(t: Table, store: Store, pkey: bytes, r: Reduce, group: bytes)
    ensures ReducesOfRow(t, pkey, None, false, store, map[]) == Some(([], map[]))
    ensures AccWithout(t, store, None, r, pkey, group) == Get(store, Key(t.ns, r.slot, group))
  {}

  lemma MovedOut(t: Table, store: Store, after: Store, r: Reduce, pkey: bytes, prior: ValueMap, group: bytes)
    requires Moved(t.schema, t.ns, r, pkey, prior, false, store, after)
    ensures Get(after, Key(t.ns, r.slot, group)) == AccWithout(t, store, Some(prior), r, pkey, group)
  {
    hide GroupOf, KeyOf, Key, Moving;
  }

  /** On a healthy store a row plan succeeds exactly when the key has its width and the new row, if there is one, is
      accepted. Taking a row out always succeeds. */
  lemma {:induction false} RowPlanSucceeds(t: Table, store: Store, d: Docs, pkey: bytes, next: Option<ValueMap>)
    requires Sane(t) && Healthy(t, store, d)
    ensures PlanRow(t, store, pkey, At(d.rows, pkey), next).Some?
       <==> |pkey| == t.schema.keyLen && (next.Some? ==> RowAccepted(t, store, At(d.rows, pkey), pkey, next.value))
  {
    hide *;
    if |pkey| == t.schema.keyLen {
      LeavingSucceeds(t, store, d, pkey);
      if next.Some? {
        EnteringSucceeds(t, store, d, pkey, next.value);
        AcceptedIs(t, store, At(d.rows, pkey), pkey, next.value);
      }
    }
    PlanIs(t, store, pkey, At(d.rows, pkey), next);
  }

  lemma PlanIs(t: Table, store: Store, pkey: bytes, prior: Option<ValueMap>, next: Option<ValueMap>)
    ensures |pkey| != t.schema.keyLen ==> PlanRow(t, store, pkey, prior, next) == None
    ensures |pkey| == t.schema.keyLen && EntriesOfRow(t, pkey, prior).Some? && ReducesOfRow(t, pkey, prior, false, store, map[]).Some? ==>
      var written := ReducesOfRow(t, pkey, prior, false, store, map[]).value.1;
      (PlanRow(t, store, pkey, prior, next).Some?
       <==> next.None? || (EncodePayload(t.schema, next.value).Some? && IndexEntries(t.schema, t.ns, t.methods, pkey, next.value).Some?
                           && ReducesOfRow(t, pkey, next, true, store, written).Some?))
  {
    hide PlanReduces, IndexEntries, EncodePayload;
  }

  lemma {:induction false} LeavingSucceeds(t: Table, store: Store, d: Docs, pkey: bytes)
    requires Sane(t) && Healthy(t, store, d)
    ensures EntriesOfRow(t, pkey, At(d.rows, pkey)).Some? && ReducesOfRow(t, pkey, At(d.rows, pkey), false, store, map[]).Some?
  {
    if pkey in d.rows {
      assert RowTells(t, store, pkey, At(d.rows, pkey));
      ReducesDiffer(t);
      StoredCanLeave(t, store, d, pkey);
      assert store + map[] == store;
      hide Sane, Healthy, PlanReduces, AllCanMove, NoneMissing, EntriesOfRow, WellFormed, SlotsDiffer;
      ReducesSucceed(t.schema, t.ns, t.reduces, pkey, d.rows[pkey], false, store, map[]);
    }
  }

  /** The new row finds its groups as the old one left them. */
  lemma {:induction false} EnteringSucceeds(t: Table, store: Store, d: Docs, pkey: bytes, row: ValueMap)
    requires Sane(t) && Healthy(t, store, d) && ReducesOfRow(t, pkey, At(d.rows, pkey), false, store, map[]).Some?
    ensures var written := ReducesOfRow(t, pkey, At(d.rows, pkey), false, store, map[]).value.1;
      ReducesOfRow(t, pkey, Some(row), true, store, written).Some? <==> TakenIn(t, store, At(d.rows, pkey), pkey, row)
  {
    ReducesDiffer(t);
    var written := ReducesOfRow(t, pkey, At(d.rows, pkey), false, store, map[]).value.1;
    hide *;
    EnteringIs(t, store, written, pkey, row);
    forall i | 0 <= i < |t.reduces|
      ensures CanMove(t.schema, t.ns, t.reduces[i], pkey, row, true, store + written) <==> IsTakenIn(t, store, At(d.rows, pkey), pkey, row, i)
    {
      var g := GroupOf(t.schema, t.reduces[i], pkey, row);
      if g.Some? { AccAfterLeaving(t, store, d, pkey, i, g.value); }
      OneTakenIn(t, store, At(d.rows, pkey), pkey, row, i, written);
    }
    AllTakenIn(t, store, At(d.rows, pkey), pkey, row, written);
  }

  lemma EnteringIs(t: Table, store: Store, written: map<bytes, bytes>, pkey: bytes, row: ValueMap)
    requires SlotsDiffer(t.reduces)
    ensures ReducesOfRow(t, pkey, Some(row), true, store, written).Some?
       <==> AllCanMove(t.schema, t.ns, t.reduces, pkey, row, true, store + written)
  {
    hide PlanReduces, AllCanMove, SlotsDiffer;
    ReducesSucceed(t.schema, t.ns, t.reduces, pkey, row, true, store, written);
  }

  lemma OneTakenIn(t: Table, store: Store, prior: Option<ValueMap>, pkey: bytes, row: ValueMap, i: nat,
      written: map<bytes, bytes>)
    requires i < |t.reduces|
    requires var g := GroupOf(t.schema, t.reduces[i], pkey, row);
      g.Some? ==> Get(store + written, Key(t.ns, t.reduces[i].slot, g.value)) == AccWithout(t, store, prior, t.reduces[i], pkey, g.value)
    ensures CanMove(t.schema, t.ns, t.reduces[i], pkey, row, true, store + written) <==> IsTakenIn(t, store, prior, pkey, row, i)
  {
    hide GroupOf, KeyOf, AccWithout, Key, Moving;
  }

  lemma AllTakenIn(t: Table, store: Store, prior: Option<ValueMap>, pkey: bytes, row: ValueMap, written: map<bytes,
      bytes>)
    requires forall i :: 0 <= i < |t.reduces| ==>
      (CanMove(t.schema, t.ns, t.reduces[i], pkey, row, true, store + written) <==> IsTakenIn(t, store, prior, pkey, row, i))
    ensures AllCanMove(t.schema, t.ns, t.reduces, pkey, row, true, store + written) <==> TakenIn(t, store, prior, pkey, row)
  {
    hide CanMove, IsTakenIn;
  }

  lemma AcceptedIs(t: Table, store: Store, prior: Option<ValueMap>, pkey: bytes, row: ValueMap)
    ensures RowAccepted(t, store, prior, pkey, row)
       <==> EncodePayload(t.schema, row).Some? && IndexEntries(t.schema, t.ns, t.methods, pkey, row).Some?
            && TakenIn(t, store, prior, pkey, row)
  {
    hide EncodePayload, IndexEntries, TakenIn;
  }

  // --- The verbs ---

  /** The names of the segment, nested ones included, can all have an id beside those that have one. */
  predicate SegmentAccepted(next: ValueMap, v: Segment.Vocab) { |v.byName.Keys + N.NamesIn(Obj(next))| <= 65535 }

  lemma PlanSegmentIs(t: Table, pkey: bytes, prior: Option<ValueMap>, next: ValueMap, v: Segment.Vocab)
    requires Segment.Bijective(v)
    ensures PlanSegment(t, pkey, prior, next, v).0.Some? <==> SegmentAccepted(next, v)
  {
    hide PathEntries, Segment.EncodeSegment, Segment.Bijective, N.NamesIn;
    N.SegmentFits(next, v);
  }

  /** A merge succeeds exactly when the key has its width, the row it would write, if it names a declared field, is
      accepted, and the segment it would write, if it names another, is. */
  lemma {:induction false} MergeSucceeds(t: Table, store: Store, d: Docs, pkey: bytes, fields: ValueMap)
    requires Sane(t) && Healthy(t, store, d)
    ensures var row := RowBase(t, pkey, OrEmpty(At(d.rows, pkey)) + Declared(t, fields));
      Merge(t, store, pkey, fields).Some? <==>
        && |pkey| == t.schema.keyLen
        && (Declared(t, fields) != map[] ==> row.Some? && RowAccepted(t, store, At(d.rows, pkey), pkey, row.value))
        && (Dynamic(t, fields) != map[] ==> SegmentAccepted(OrEmpty(At(d.segs, pkey)) + Dynamic(t, fields), d.vocab))
  {
    hide Sane, Healthy, PlanRow, PlanSegment, Replay, StoredRow, StoredSegment, RowBase, Declared, Dynamic, At, OrEmpty,
      RowAccepted, VocabStore.Load, SegmentAccepted, Segment.Bijective;
    if |pkey| == t.schema.keyLen {
      RowIsRead(t, store, d, pkey);
      SegIsRead(t, store, d, pkey);
      VocabIsRead(t, store, d);
      HealthyNames(t, store, d);
      RowPlanSucceeds(t, store, d, pkey, RowBase(t, pkey, OrEmpty(At(d.rows, pkey)) + Declared(t, fields)));
      PlanSegmentIs(t, pkey, At(d.segs, pkey), OrEmpty(At(d.segs, pkey)) + Dynamic(t, fields), d.vocab);
    }
  }

  /** And so does a replacement. */
  lemma {:induction false} ReplaceSucceeds(t: Table, store: Store, d: Docs, pkey: bytes, fields: ValueMap)
    requires Sane(t) && Healthy(t, store, d)
    ensures var row := RowBase(t, pkey, Declared(t, fields));
      Replace(t, store, pkey, fields).Some? <==>
        && |pkey| == t.schema.keyLen
        && (Declared(t, fields) != map[] ==> row.Some? && RowAccepted(t, store, At(d.rows, pkey), pkey, row.value))
        && SegmentAccepted(Dynamic(t, fields), d.vocab)
  {
    hide Sane, Healthy, PlanRow, PlanSegment, Replay, StoredSegment, RowBase, Declared, Dynamic, At, RowAccepted,
      VocabStore.Load, SegmentAccepted, HasPathIndex, DecodePayload, Segment.Bijective;
    if |pkey| == t.schema.keyLen {
      RowIsRead(t, store, d, pkey);
      VocabIsRead(t, store, d);
      HealthyNames(t, store, d);
      NothingWritten(t, store, d);
      var (declared, dynamic) := (Declared(t, fields), Dynamic(t, fields));
      RowPlanSucceeds(t, store, d, pkey, if declared == map[] then None else RowBase(t, pkey, declared));
      var seg := if HasPathIndex(t) then StoredSegment(t, store, pkey) else None;
      UnreadSegment(t, pkey, seg, dynamic, d.vocab);
      PlanSegmentIs(t, pkey, seg, dynamic, d.vocab);
    }
  }

  /** Removing a document never fails, whatever reduces and methods the table has. */
  lemma {:induction false} PurgeSucceeds(t: Table, store: Store, d: Docs, pkey: bytes)
    requires Sane(t) && Healthy(t, store, d)
    ensures Purge(t, store, pkey).Some? <==> |pkey| == t.schema.keyLen
  {
    hide Sane, Healthy, PlanRow, PlanPurgeSegment, Replay, StoredSegment, At, DecodePayload;
    if |pkey| == t.schema.keyLen {
      RowIsRead(t, store, d, pkey);
      RowPlanSucceeds(t, store, d, pkey, None);
    }
  }

  // --- When a row can be stored ---

  /** A row's payload can be encoded exactly when it has a value of the declared kind and width in every field. */
  lemma {:induction false} EncodesIff(s: Schema, row: ValueMap)
    requires WellFormed(s)
    ensures EncodePayload(s, row).Some? <==> Conforms(s, row)
  {
    hide FixedImage, NamesDiffer, TagsDiffer;
    if EncodePayload(s, row).Some? { EncodedConforms(s, row); }
    if Conforms(s, row) {
      HotIsFixed(s.hot, 0);
      assert forall i :: 0 <= i < |s.hot| ==> Payload(s)[i] == s.hot[i];
      assert forall i :: 0 <= i < |s.cold| ==> Payload(s)[|s.hot| + i] == s.cold[i];
      HotEncodes(s.hot, 0, row);
      ColdEncodes(s.cold, row);
    }
  }

  lemma {:induction false} HotEncodes(fields: seq<FieldDef>, at: nat, row: ValueMap)
    requires Contiguous(fields, at)
    requires forall i :: 0 <= i < |fields| ==> fields[i].name in row && FixedImage(fields[i], row[fields[i].name]).Some?
    ensures EncodeHot(fields, row).Some? && |EncodeHot(fields, row).value| == WidthOf(fields)
    decreases |fields|
  {
    hide FixedImage, WidthFits;
    if fields != [] {
      FixedWidthIs(fields[0], row[fields[0].name]);
      assert forall i :: 0 <= i < |fields[1..]| ==> fields[1..][i] == fields[i + 1];
      HotEncodes(fields[1..], at + fields[0].width, row);
    }
  }

  lemma {:induction false} ColdEncodes(fields: seq<FieldDef>, row: ValueMap)
    requires forall i :: 0 <= i < |fields| ==>
      ColdFits(fields[i]) && fields[i].name in row
      && if fields[i].ty.StrT? then row[fields[i].name].Str? else FixedImage(fields[i], row[fields[i].name]).Some?
    ensures EncodeCold(fields, row).Some?
    decreases |fields|
  {
    hide FixedImage;
    if fields != [] {
      assert forall i :: 0 <= i < |fields[1..]| ==> fields[1..][i] == fields[i + 1];
      ColdEncodes(fields[1..], row);
    }
  }

  /** The method can make its entries for the row: its predicate or its callable answers, and if it indexes the row, its
      fields and its included fields can be indexed in their order. */
  predicate MethodTakes(s: Schema, m: AccessMethod, row: ValueMap) {
    match m.kind
    case ByPath(_, _) => true
    case Plain => Locates(s, m.fields) && Locates(s, m.includes)
    case Partial(admits) => admits(row).Some? && (admits(row).value ==> Locates(s, m.fields) && Locates(s, m.includes))
    case Func(derive) => derive(row).Some? && Locates(s, m.includes)
  }

  /** Every field is of the payload and of a kind with an image of its own, and none but the last is a text. */
  predicate Locates(s: Schema, names: seq<bytes>) {
    && P.AllIndexable(s, names)
    && forall i :: 0 <= i < |names| - 1 ==> FindField(s, names[i]).Some? && !FindField(s, names[i]).value.ty.StrT?
  }

  lemma {:induction false} LocatesIs(s: Schema, names: seq<bytes>, row: ValueMap)
    requires WellFormed(s) && Conforms(s, row)
    ensures Locates(s, names) <==> OrderFits(s, names) && P.AllIndexable(s, names)
  {
    hide WellFormed, Conforms, FindField;
    forall i | 0 <= i < |names| && !IsKeyField(s, names[i]) && FindField(s, names[i]).Some?
      ensures FindField(s, names[i]).value.width == 0 <==> FindField(s, names[i]).value.ty.StrT?
    {
      FieldOfName(s, row, names[i]);
    }
    if P.AllIndexable(s, names) {
      forall i | 0 <= i < |names| ensures P.Indexable(s, names[i]) {}
    }
  }

  lemma {:induction false} EntriesIff(s: Schema, ns: bytes, methods: seq<AccessMethod>, pkey: bytes, row: ValueMap)
    requires WellFormed(s) && Conforms(s, row)
    ensures IndexEntries(s, ns, methods, pkey, row).Some? <==> forall i :: 0 <= i < |methods| ==> MethodTakes(s, methods[i], row)
    decreases |methods|
  {
    hide WellFormed, Conforms, MethodEntries, MethodTakes;
    if methods != [] {
      EntriesIff(s, ns, methods[1..], pkey, row);
      OneMethodIff(s, ns, methods[0], pkey, row);
      assert forall i :: 0 < i < |methods| ==> methods[i] == methods[1..][i - 1];
      assert forall i :: 0 <= i < |methods[1..]| ==> methods[1..][i] == methods[i + 1];
    }
  }

  lemma {:induction false} OneMethodIff(s: Schema, ns: bytes, m: AccessMethod, pkey: bytes, row: ValueMap)
    requires WellFormed(s) && Conforms(s, row)
    ensures MethodEntries(s, ns, m, pkey, row).Some? <==> MethodTakes(s, m, row)
  {
    hide *;
    HasImage(s, m.fields, row);
    HasImage(s, m.includes, row);
    MethodIs(s, ns, m, pkey, row);
  }

  lemma {:induction false} HasImage(s: Schema, names: seq<bytes>, row: ValueMap)
    requires WellFormed(s) && Conforms(s, row)
    ensures OrderedImages(s, names, row).Some? <==> Locates(s, names)
  {
    P.SegmentIs(s, row, names);
    LocatesIs(s, names, row);
    hide WellFormed, Conforms, Images, OrderFits, P.AllIndexable, Locates, P.ValuesOf, P.Joined;
  }

  lemma MethodIs(s: Schema, ns: bytes, m: AccessMethod, pkey: bytes, row: ValueMap)
    requires OrderedImages(s, m.fields, row).Some? <==> Locates(s, m.fields)
    requires OrderedImages(s, m.includes, row).Some? <==> Locates(s, m.includes)
    ensures MethodEntries(s, ns, m, pkey, row).Some? <==> MethodTakes(s, m, row)
  {
    hide OrderedImages, Locates, EntriesOf;
  }
}
