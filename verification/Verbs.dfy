/** The whole-document verbs: read the stored halves, plan, replay as one commit. */
module Verbs {
  import opened Bytes
  import opened Store
  import opened Value
  import opened Schema
  import opened Index
  import opened Ledger
  import opened Plan
  import opened Health
  import Segment
  import VocabStore

  // --- Reading ---

  /** The stored row: nothing for a key of the wrong width or a payload that does not decode. */
  function StoredRow(t: Table, store: Store, pkey: bytes): Option<Option<ValueMap>> {
    if |pkey| != t.schema.keyLen then None
    else
      match Get(store, PrimaryKey(t, pkey))
      case None => Some(None)
      case Some(raw) =>
        match DecodePayload(t.schema, raw)
        case None => None
        case Some(row) => Some(Some(row))
  }

  function StoredSegment(t: Table, store: Store, pkey: bytes): Option<ValueMap> {
    match Get(store, VocabStore.SegmentKey(t.ns, pkey))
    case None => None
    case Some(raw) => Some(Segment.DecodeSegment(raw, VocabStore.Load(store, t.ns).byId))
  }

  function OrEmpty(m: Option<ValueMap>): ValueMap { if m.Some? then m.value else map[] }

  /** The document as one map: a dynamic name shadows a declared one. */
  function Fetch(t: Table, store: Store, pkey: bytes): Option<Option<ValueMap>> {
    match StoredRow(t, store, pkey)
    case None => None
    case Some(row) =>
      var seg := StoredSegment(t, store, pkey);
      Some(if row.None? && seg.None? then None else Some(OrEmpty(row) + OrEmpty(seg)))
  }

  // --- Splitting and completing ---

  function Declared(t: Table, fields: ValueMap): ValueMap { Restrict(fields, PayloadNames(t.schema)) }

  function Dynamic(t: Table, fields: ValueMap): ValueMap { map n | n in fields && n !in PayloadNames(t.schema) :: fields[n] }

  /** The row a write starts from: the carried fields, then the key's own, then the schema's defaults. */
  function RowBase(t: Table, pkey: bytes, carried: ValueMap): Option<ValueMap> {
    match DecodeKey(t.schema, pkey)
    case None => None
    case Some(key) => Some(FillDefaults(Payload(t.schema), carried + key))
  }

  // --- The verbs ---

  function HasPathIndex(t: Table): bool { exists i :: 0 <= i < |t.methods| && t.methods[i].kind.ByPath? }

  function SegmentOps(t: Table, pkey: bytes, prior: Option<ValueMap>, next: ValueMap,
      v: Segment.Vocab): Option<seq<Op>> {
    PlanSegment(t, pkey, prior, next, v).0
  }

  function RowOpsOf(t: Table, store: Store, pkey: bytes, prior: Option<ValueMap>,
      next: Option<Option<ValueMap>>): Option<seq<Op>> {
    if next.None? then None else PlanRow(t, store, pkey, prior, next.value)
  }

  function Committed(store: Store, rowOps: Option<seq<Op>>, segOps: Option<seq<Op>>): Option<Store> {
    if rowOps.None? || segOps.None? then None else Some(Replay(store, rowOps.value + segOps.value))
  }

  /** Partial update. Each half is read and written only when the map names something of it. */
  function Merge(t: Table, store: Store, pkey: bytes, fields: ValueMap): Option<Store> {
    if |pkey| != t.schema.keyLen then None
    else
      var (declared, dynamic) := (Declared(t, fields), Dynamic(t, fields));
      var seg := StoredSegment(t, store, pkey);
      var segOps := if dynamic == map[] then Some([])
                    else SegmentOps(t, pkey, seg, OrEmpty(seg) + dynamic, VocabStore.Load(store, t.ns));
      if declared == map[] then Committed(store, Some([]), segOps)
      else
        match StoredRow(t, store, pkey)
        case None => None
        case Some(row) =>
          var base := RowBase(t, pkey, OrEmpty(row) + declared);
          Committed(store, RowOpsOf(t, store, pkey, row, if base.None? then None else Some(base)), segOps)
  }

  /** Whole-document replacement: the map is the document. */
  function Replace(t: Table, store: Store, pkey: bytes, fields: ValueMap): Option<Store> {
    match StoredRow(t, store, pkey)
    case None => None
    case Some(row) =>
      var (declared, dynamic) := (Declared(t, fields), Dynamic(t, fields));
      var seg := if HasPathIndex(t) then StoredSegment(t, store, pkey) else None;
      var v := if dynamic == map[] && seg.None? then NO_NAMES else VocabStore.Load(store, t.ns);
      var segOps := SegmentOps(t, pkey, seg, dynamic, v);
      var base := RowBase(t, pkey, declared);
      var rowOps := if declared == map[] then RowOpsOf(t, store, pkey, row, Some(None))
                    else RowOpsOf(t, store, pkey, row, if base.None? then None else Some(base));
      Committed(store, rowOps, segOps)
  }

  /** Remove both halves; the store is as it was when there is nothing to remove. */
  function Purge(t: Table, store: Store, pkey: bytes): Option<Store> {
    match StoredRow(t, store, pkey)
    case None => None
    case Some(row) =>
      var seg := StoredSegment(t, store, pkey);
      if row.None? && seg.None? then Some(store)
      else
        Committed(store, RowOpsOf(t, store, pkey, row, Some(None)),
                  Some(if seg.None? then [] else PlanPurgeSegment(t, pkey, seg.value)))
  }

  // --- What they read is what the documents are ---

  lemma {:induction false} RowIsRead(t: Table, store: Store, d: Docs, pkey: bytes)
    requires Healthy(t, store, d) && |pkey| == t.schema.keyLen
    ensures StoredRow(t, store, pkey) == Some(At(d.rows, pkey))
  {
    hide SegsTell, VocabTells, FacesTell, LedgerTells, DecodePayload, EncodePayload, EntriesOfRow, Key;
    assert RowTells(t, store, pkey, At(d.rows, pkey));
  }

  lemma {:induction false} VocabIsRead(t: Table, store: Store, d: Docs)
    requires Healthy(t, store, d)
    ensures VocabStore.Load(store, t.ns) == d.vocab
  {
    hide SegsTell, RowsTell, FacesTell, LedgerTells, Key, VocabStore.Holds, Segment.Bijective;
    VocabStore.LoadReadsBack(store, t.ns, d.vocab);
  }

  lemma {:induction false} SegIsRead(t: Table, store: Store, d: Docs, pkey: bytes)
    requires Healthy(t, store, d)
    ensures StoredSegment(t, store, pkey) == At(d.segs, pkey)
  {
    VocabIsRead(t, store, d);
    Segment.GrowsItself(d.vocab);
    hide RowsTell, FacesTell, LedgerTells, VocabTells, Key, Segment.DecodeSegment, Segment.Grows, VocabStore.Load;
    assert SegTells(t, store, pkey, At(d.segs, pkey), d.vocab);
  }

  // --- What they do to the documents ---

  function RowDocs(t: Table, d: Docs, pkey: bytes, next: Option<ValueMap>): Docs {
    d.(rows := WithRow(d.rows, pkey, Stored(t, next)), trace := Traced(t, d.trace, pkey, next))
  }

  function SegDocs(t: Table, d: Docs, pkey: bytes, next: ValueMap): Docs {
    d.(segs := WithSeg(d.segs, pkey, StoredSeg(next)), vocab := PlanSegment(t, pkey, At(d.segs, pkey), next, d.vocab).1)
  }

  function MergedDocs(t: Table, d: Docs, pkey: bytes, fields: ValueMap): Docs {
    var (declared, dynamic) := (Declared(t, fields), Dynamic(t, fields));
    var d' := if declared == map[] then d
              else RowDocs(t, d, pkey, RowBase(t, pkey, OrEmpty(At(d.rows, pkey)) + declared));
    if dynamic == map[] then d' else SegDocs(t, d', pkey, OrEmpty(At(d.segs, pkey)) + dynamic)
  }

  function ReplacedDocs(t: Table, d: Docs, pkey: bytes, fields: ValueMap): Docs {
    var (declared, dynamic) := (Declared(t, fields), Dynamic(t, fields));
    SegDocs(t, RowDocs(t, d, pkey, if declared == map[] then None else RowBase(t, pkey, declared)), pkey, dynamic)
  }

  function PurgedDocs(t: Table, d: Docs, pkey: bytes): Docs {
    var d' := RowDocs(t, d, pkey, None);
    if pkey in d.segs then d'.(segs := d.segs - {pkey}) else d'
  }

  /** Nothing a verb writes is too large to hold in memory. */
  predicate Fits(t: Table, d: Docs, pkey: bytes, row: Option<ValueMap>, seg: ValueMap) {
    RowFits(t, row) && SegFits(seg, d.vocab)
  }

  /** A row plan and a segment plan, replayed as one commit: both were made from the store before it. */
  lemma {:induction false} CommitIsHealthy(t: Table, store: Store, d: Docs, pkey: bytes, row: Option<ValueMap>,
      seg: ValueMap)
    requires Sane(t) && Healthy(t, store, d) && |pkey| == t.schema.keyLen && Fits(t, d, pkey, row, seg)
    requires PlanRow(t, store, pkey, At(d.rows, pkey), row).Some? && PlanSegment(t, pkey, At(d.segs, pkey), seg, d.vocab).0.Some?
    ensures Healthy(t, Replay(store, PlanRow(t, store, pkey, At(d.rows, pkey), row).value
                                     + PlanSegment(t, pkey, At(d.segs, pkey), seg, d.vocab).0.value),
                    SegDocs(t, RowDocs(t, d, pkey, row), pkey, seg))
  {
    hide Sane, Healthy, PlanRow, PlanSegment, Replay, RowFits, SegFits, WithRow, Stored, Traced;
    var rowOps := PlanRow(t, store, pkey, At(d.rows, pkey), row).value;
    var segOps := PlanSegment(t, pkey, At(d.segs, pkey), seg, d.vocab).0.value;
    RowWriteIsHealthy(t, store, d, pkey, row);
    SegWriteIsHealthy(t, Replay(store, rowOps), RowDocs(t, d, pkey, row), pkey, seg);
    ReplayJoin(store, rowOps, segOps);
  }

  /** On a healthy store a merge plans exactly the halves its map names. */
  lemma {:induction false} MergePlans(t: Table, store: Store, d: Docs, pkey: bytes, fields: ValueMap)
    requires Healthy(t, store, d) && Merge(t, store, pkey, fields).Some?
    ensures var (declared, dynamic) := (Declared(t, fields), Dynamic(t, fields));
      var rowOps := PlanRow(t, store, pkey, At(d.rows, pkey), RowBase(t, pkey, OrEmpty(At(d.rows, pkey)) + declared));
      var segOps := PlanSegment(t, pkey, At(d.segs, pkey), OrEmpty(At(d.segs, pkey)) + dynamic, d.vocab).0;
      && |pkey| == t.schema.keyLen && (declared != map[] ==> rowOps.Some?) && (dynamic != map[] ==> segOps.Some?)
      && Merge(t, store, pkey, fields).value
         == Replay(store, (if declared == map[] then [] else rowOps.value) + (if dynamic == map[] then [] else segOps.value))
  {
    hide Healthy, PlanRow, PlanSegment, Replay, StoredRow, StoredSegment, RowBase, Declared, Dynamic, VocabStore.Load,
      At, OrEmpty;
    RowIsRead(t, store, d, pkey);
    SegIsRead(t, store, d, pkey);
    VocabIsRead(t, store, d);
  }

  lemma {:induction false} MergeIsHealthy(t: Table, store: Store, d: Docs, pkey: bytes, fields: ValueMap)
    requires Sane(t) && Healthy(t, store, d)
    requires Fits(t, d, pkey, RowBase(t, pkey, OrEmpty(At(d.rows, pkey)) + Declared(t, fields)),
                  OrEmpty(At(d.segs, pkey)) + Dynamic(t, fields))
    ensures Merge(t, store, pkey, fields).Some? ==> Healthy(t, Merge(t, store, pkey, fields).value, MergedDocs(t, d, pkey, fields))
  {
    hide Sane, Healthy, PlanRow, PlanSegment, Replay, RowFits, SegFits, WithRow, Stored, Traced, RowBase, WithSeg,
      StoredSeg, Merge, Declared, Dynamic, At, OrEmpty;
    if Merge(t, store, pkey, fields).Some? {
      MergePlans(t, store, d, pkey, fields);
      var (declared, dynamic) := (Declared(t, fields), Dynamic(t, fields));
      var row := RowBase(t, pkey, OrEmpty(At(d.rows, pkey)) + declared);
      var seg := OrEmpty(At(d.segs, pkey)) + dynamic;
      if declared == map[] && dynamic == map[] {
        NothingReplays(store);
        var nothing: seq<Op> := [];
        assert nothing + nothing == nothing;
      } else if declared == map[] {
        SegWriteIsHealthy(t, store, d, pkey, seg);
        var ops := PlanSegment(t, pkey, At(d.segs, pkey), seg, d.vocab).0.value;
        assert [] + ops == ops;
      } else if dynamic == map[] {
        RowWriteIsHealthy(t, store, d, pkey, row);
        var ops := PlanRow(t, store, pkey, At(d.rows, pkey), row).value;
        assert ops + [] == ops;
      } else {
        CommitIsHealthy(t, store, d, pkey, row, seg);
      }
    }
  }

  /** Without a path method, or with nothing to name, a segment plan does not depend on what was left unread. */
  lemma {:induction false} UnreadSegment(t: Table, pkey: bytes, prior: Option<ValueMap>, next: ValueMap,
      v: Segment.Vocab)
    requires v.written == []
    ensures !HasPathIndex(t) ==> PlanSegment(t, pkey, None, next, v) == PlanSegment(t, pkey, prior, next, v)
    ensures next == map[] ==> PlanSegment(t, pkey, prior, next, NO_NAMES).0 == PlanSegment(t, pkey, prior, next, v).0
  {
    hide PathEntries, Segment.EncodeFields;
    if !HasPathIndex(t) {
      NoMethodsNoEntries(t.ns, t.methods, pkey, next);
      if prior.Some? { NoMethodsNoEntries(t.ns, t.methods, pkey, prior.value); }
    }
    if next == map[] {
      Segment.NoFields(Obj(map[]), v);
      Segment.NoFields(Obj(map[]), NO_NAMES);
      NoKeys();
    }
  }

  lemma NoKeys()
    ensures Segment.EncodeSegment(map[], NO_NAMES).0 == Some([])
    ensures forall v :: Segment.EncodeSegment(map[], v) == (Some([]), v)
  {
    forall v ensures Segment.EncodeSegment(map[], v) == (Some([]), v) {
      var m: ValueMap := map[];
      assert m.Keys == {};
    }
  }

  lemma {:induction false} NoMethodsNoEntries(ns: bytes, methods: seq<AccessMethod>, pkey: bytes, m: ValueMap)
    requires forall i :: 0 <= i < |methods| ==> !methods[i].kind.ByPath?
    ensures PathEntries(ns, methods, pkey, m) == []
    decreases |methods|
  {
    if methods != [] {
      assert forall i :: 0 <= i < |methods[1..]| ==> methods[1..][i] == methods[i + 1];
      NoMethodsNoEntries(ns, methods[1..], pkey, m);
    }
  }

  lemma NothingWritten(t: Table, store: Store, d: Docs)
    requires Healthy(t, store, d)
    ensures d.vocab.written == []
  {
    hide RowsTell, SegsTell, FacesTell, LedgerTells, VocabStore.Holds, Segment.Bijective;
  }

  /** What a replacement plans, whether or not it had to read the old segment. */
  lemma {:induction false} ReplacePlans(t: Table, store: Store, d: Docs, pkey: bytes, fields: ValueMap)
    requires Healthy(t, store, d) && Replace(t, store, pkey, fields).Some?
    ensures var (declared, dynamic) := (Declared(t, fields), Dynamic(t, fields));
      var row := if declared == map[] then None else RowBase(t, pkey, declared);
      var rowOps := PlanRow(t, store, pkey, At(d.rows, pkey), row);
      var segOps := PlanSegment(t, pkey, At(d.segs, pkey), dynamic, d.vocab).0;
      && |pkey| == t.schema.keyLen && rowOps.Some? && segOps.Some?
      && Replace(t, store, pkey, fields).value == Replay(store, rowOps.value + segOps.value)
  {
    hide Healthy, PlanRow, PlanSegment, Replay, StoredSegment, RowBase, HasPathIndex, DecodePayload, Declared, Dynamic,
      VocabStore.Load, At;
    NothingWritten(t, store, d);
    RowIsRead(t, store, d, pkey);
    SegIsRead(t, store, d, pkey);
    VocabIsRead(t, store, d);
    var (prior, dynamic) := (At(d.segs, pkey), Dynamic(t, fields));
    UnreadSegment(t, pkey, prior, dynamic, d.vocab);
    UnreadSegment(t, pkey, None, dynamic, d.vocab);
  }

  lemma {:induction false} ReplaceIsHealthy(t: Table, store: Store, d: Docs, pkey: bytes, fields: ValueMap)
    requires Sane(t) && Healthy(t, store, d)
    requires Fits(t, d, pkey, if Declared(t, fields) == map[] then None else RowBase(t, pkey, Declared(t, fields)), Dynamic(t, fields))
    ensures Replace(t, store, pkey, fields).Some? ==> Healthy(t, Replace(t, store, pkey, fields).value, ReplacedDocs(t, d, pkey, fields))
  {
    hide Sane, Healthy, PlanRow, PlanSegment, Replay, RowFits, SegFits, WithRow, Stored, Traced, RowBase, WithSeg,
      StoredSeg, Replace, Declared, Dynamic, At;
    if Replace(t, store, pkey, fields).Some? {
      ReplacePlans(t, store, d, pkey, fields);
      var (declared, dynamic) := (Declared(t, fields), Dynamic(t, fields));
      CommitIsHealthy(t, store, d, pkey, if declared == map[] then None else RowBase(t, pkey, declared), dynamic);
    }
  }

  lemma {:induction false} PurgeIsHealthy(t: Table, store: Store, d: Docs, pkey: bytes)
    requires Sane(t) && Healthy(t, store, d)
    ensures Purge(t, store, pkey).Some? ==> Healthy(t, Purge(t, store, pkey).value, PurgedDocs(t, d, pkey))
  {
    hide Sane, Healthy, PlanRow, PlanPurgeSegment, Replay, StoredSegment, DecodePayload, Traced;
    if Purge(t, store, pkey).Some? {
      RowIsRead(t, store, d, pkey);
      SegIsRead(t, store, d, pkey);
      var rowOps := PlanRow(t, store, pkey, At(d.rows, pkey), None);
      if pkey !in d.rows && pkey !in d.segs {
        assert d.rows - {pkey} == d.rows;
        NothingTraced(t, d, pkey);
      } else {
        RowWriteIsHealthy(t, store, d, pkey, None);
        if pkey in d.segs {
          SegPurgeIsHealthy(t, Replay(store, rowOps.value), RowDocs(t, d, pkey, None), pkey);
          ReplayJoin(store, rowOps.value, PlanPurgeSegment(t, pkey, d.segs[pkey]));
        } else {
          assert rowOps.value + [] == rowOps.value;
        }
      }
    }
  }

  lemma NothingTraced(t: Table, d: Docs, pkey: bytes)
    ensures Traced(t, d.trace, pkey, None) == d.trace
  {}

  // --- Runs ---

  datatype Verb = MergeV(pkey: bytes, fields: ValueMap) | ReplaceV(pkey: bytes, fields: ValueMap) | PurgeV(pkey: bytes)

  function Perform(t: Table, store: Store, verb: Verb): Option<Store> {
    match verb
    case MergeV(pkey, fields) => Merge(t, store, pkey, fields)
    case ReplaceV(pkey, fields) => Replace(t, store, pkey, fields)
    case PurgeV(pkey) => Purge(t, store, pkey)
  }

  function DocsAfter(t: Table, d: Docs, verb: Verb): Docs {
    match verb
    case MergeV(pkey, fields) => MergedDocs(t, d, pkey, fields)
    case ReplaceV(pkey, fields) => ReplacedDocs(t, d, pkey, fields)
    case PurgeV(pkey) => PurgedDocs(t, d, pkey)
  }

  predicate VerbFits(t: Table, d: Docs, verb: Verb) {
    match verb
    case MergeV(pkey, fields) =>
      Fits(t, d, pkey, RowBase(t, pkey, OrEmpty(At(d.rows, pkey)) + Declared(t, fields)), OrEmpty(At(d.segs, pkey)) + Dynamic(t, fields))
    case ReplaceV(pkey, fields) =>
      Fits(t, d, pkey, if Declared(t, fields) == map[] then None else RowBase(t, pkey, Declared(t, fields)), Dynamic(t, fields))
    case PurgeV(_) => true
  }

  /** A verb either is refused and leaves the store alone, or commits. */
  ghost predicate Goes(t: Table, verb: Verb, before: (Store, Docs), after: (Store, Docs)) {
    && VerbFits(t, before.1, verb)
    && after == match Perform(t, before.0, verb)
                case None => before
                case Some(store) => (store, DocsAfter(t, before.1, verb))
  }

  ghost predicate IsRun(t: Table, verbs: seq<Verb>, states: seq<(Store, Docs)>) {
    |states| == |verbs| + 1 && forall i :: 0 <= i < |verbs| ==> Goes(t, verbs[i], states[i], states[i + 1])
  }

  lemma {:induction false} VerbIsHealthy(t: Table, store: Store, d: Docs, verb: Verb)
    requires Sane(t) && Healthy(t, store, d) && VerbFits(t, d, verb)
    ensures Perform(t, store, verb).Some? ==> Healthy(t, Perform(t, store, verb).value, DocsAfter(t, d, verb))
  {
    hide Sane, Healthy, Merge, Replace, Purge, MergedDocs, ReplacedDocs, PurgedDocs, Fits;
    match verb {
      case MergeV(pkey, fields) => MergeIsHealthy(t, store, d, pkey, fields);
      case ReplaceV(pkey, fields) => ReplaceIsHealthy(t, store, d, pkey, fields);
      case PurgeV(pkey) => PurgeIsHealthy(t, store, d, pkey);
    }
  }

  /** In every state of every run from an empty table, rows, segments, vocabulary, faces and ledger are exactly what
      the documents imply. */
  lemma {:induction false} RunsAreHealthy(t: Table, verbs: seq<Verb>, states: seq<(Store, Docs)>, i: nat)
    requires Sane(t) && IsRun(t, verbs, states) && i < |states| && states[0] == (map[], Docs(map[], map[], NO_NAMES, []))
    ensures Healthy(t, states[i].0, states[i].1)
    decreases i
  {
    hide Sane, Healthy, Perform, DocsAfter, VerbFits;
    if i == 0 {
      EmptyIsHealthy(t);
    } else {
      RunsAreHealthy(t, verbs, states, i - 1);
      assert Goes(t, verbs[i - 1], states[i - 1], states[i]);
      VerbIsHealthy(t, states[i - 1].0, states[i - 1].1, verbs[i - 1]);
    }
  }

  lemma {:induction false} PlanGrows(t: Table, pkey: bytes, prior: Option<ValueMap>, next: ValueMap, v: Segment.Vocab)
    requires Segment.Bijective(v)
    ensures Segment.Grows(v, PlanSegment(t, pkey, prior, next, v).1)
  {
    hide Segment.Bijective, Segment.EncodeSegment, PathEntries;
    EncodeGrows(next, v);
    Segment.GrowsItself(v);
  }

  lemma {:induction false} VerbGrows(t: Table, d: Docs, verb: Verb)
    requires Segment.Bijective(d.vocab)
    ensures Segment.Grows(d.vocab, DocsAfter(t, d, verb).vocab)
  {
    hide Segment.Bijective, Segment.Grows, PlanSegment, RowBase, Traced, WithRow, WithSeg, Stored, StoredSeg;
    Segment.GrowsItself(d.vocab);
    match verb {
      case MergeV(pkey, fields) =>
        PlanGrows(t, pkey, At(d.segs, pkey), OrEmpty(At(d.segs, pkey)) + Dynamic(t, fields), d.vocab);
      case ReplaceV(pkey, fields) => PlanGrows(t, pkey, At(d.segs, pkey), Dynamic(t, fields), d.vocab);
      case PurgeV(_) =>
    }
  }

  /** A name is never rebound and an id never reused: in every run the vocabulary a later store holds gives every name
      and every id of an earlier one's the same meaning. */
  lemma {:induction false} NamesAreForever(t: Table, verbs: seq<Verb>, states: seq<(Store, Docs)>, i: nat, j: nat)
    requires Sane(t) && IsRun(t, verbs, states) && i <= j < |states| && states[0] == (map[], Docs(map[], map[], NO_NAMES, []))
    ensures Segment.Grows(VocabStore.Load(states[i].0, t.ns), VocabStore.Load(states[j].0, t.ns))
    decreases j - i
  {
    hide Sane, Healthy, Perform, DocsAfter, VerbFits, VocabStore.Load, Segment.Grows;
    RunsAreHealthy(t, verbs, states, i);
    VocabIsRead(t, states[i].0, states[i].1);
    if i < j {
      NamesAreForever(t, verbs, states, i + 1, j);
      RunsAreHealthy(t, verbs, states, i + 1);
      VocabIsRead(t, states[i + 1].0, states[i + 1].1);
      assert Goes(t, verbs[i], states[i], states[i + 1]);
      Segment.GrowsItself(states[i].1.vocab);
      HealthyNames(t, states[i].0, states[i].1);
      VerbGrows(t, states[i].1, verbs[i]);
      Segment.GrowsIsTransitive(states[i].1.vocab, states[i + 1].1.vocab, VocabStore.Load(states[j].0, t.ns));
    } else {
      Segment.GrowsItself(states[i].1.vocab);
    }
  }

  lemma HealthyNames(t: Table, store: Store, d: Docs)
    requires Healthy(t, store, d)
    ensures Segment.Bijective(d.vocab)
  {
    hide RowsTell, SegsTell, FacesTell, LedgerTells, VocabStore.Holds, Segment.Bijective;
  }

  // --- What the documents are ---

  predicate NamesDisjoint(s: Schema) { NamesOf(s.keyFields) !! PayloadNames(s) }

  lemma {:induction false} KeyNames(s: Schema, key: bytes)
    requires DecodeKey(s, key).Some?
    ensures DecodeKey(s, key).value.Keys <= NamesOf(s.keyFields)
  {
    HotNames(s.keyFields, key);
  }

  lemma {:induction false} HotNames(fields: seq<FieldDef>, hot: bytes)
    requires DecodeHot(fields, hot).Some?
    ensures DecodeHot(fields, hot).value.Keys <= NamesOf(fields)
    decreases |fields|
  {
    hide DecodeFixed;
    if fields != [] {
      NamesCons(fields);
      HotNames(fields[1..], hot);
    }
  }

  /** As long as no payload field has a key field's name, a written row has, field by field, the carried value, or the
      schema's default where none is carried. */
  lemma {:induction false} RowBaseIs(t: Table, pkey: bytes, carried: ValueMap, i: nat)
    requires WellFormed(t.schema) && NamesDisjoint(t.schema) && RowBase(t, pkey, carried).Some? && i < |Payload(t.schema)|
    ensures var f := Payload(t.schema)[i];
      var row := PayloadOf(t.schema, RowBase(t, pkey, carried).value);
      f.name in row && row[f.name] == if f.name in carried then carried[f.name] else DefaultOf(f)
  {
    hide DecodeKey, FillDefaults, DefaultOf, Contiguous, WidthOf, NamesDiffer, TagsDiffer;
    KeyNames(t.schema, pkey);
    var f := Payload(t.schema)[i];
    assert f.name in PayloadNames(t.schema);
    FilledIs(Payload(t.schema), carried + DecodeKey(t.schema, pkey).value, i);
  }
}
