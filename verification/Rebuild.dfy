/** Rebuilding every face from the documents: sweep the slots, derive the entries again. */
module Rebuild {
  import opened Bytes
  import opened Order
  import opened Store
  import opened Value
  import opened Schema
  import opened Index
  import opened Reduce
  import opened Ledger
  import opened Plan
  import opened Health
  import opened Verbs
  import Path
  import Segment
  import VocabStore

  function DelAll(prefix: bytes, suffixes: seq<bytes>): seq<Op> {
    if suffixes == [] then [] else DelAll(prefix, suffixes[..|suffixes| - 1]) + [(prefix + suffixes[|suffixes| - 1], None)]
  }

  /** A delete of every key under the methods' slots. */
  function SweepOps(t: Table, store: Store, methods: seq<AccessMethod>): seq<Op> {
    if methods == [] then []
    else
      var (init, m) := (methods[..|methods| - 1], methods[|methods| - 1]);
      SweepOps(t, store, init) + DelAll(Key(t.ns, m.slot, []), ScanSuffix(store, Key(t.ns, m.slot, [])))
  }

  /** What one document's visit derives: on the row slot its rows' entries, on both its paths'. */
  function Derived(t: Table, store: Store, pkey: bytes, onRow: bool): Option<seq<Entry>> {
    match Fetch(t, store, pkey)
    case None => None
    case Some(None) => Some([])
    case Some(Some(document)) =>
      match if onRow then IndexEntries(t.schema, t.ns, t.methods, pkey, document) else Some([])
      case None => None
      case Some(entries) => Some(entries + PathEntries(t.ns, t.methods, pkey, document))
  }

  function DerivedAll(t: Table, store: Store, pkeys: seq<bytes>, onRow: bool): Option<seq<Entry>> {
    if pkeys == [] then Some([])
    else
      match (DerivedAll(t, store, pkeys[..|pkeys| - 1], onRow), Derived(t, store, pkeys[|pkeys| - 1], onRow))
      case (Some(before), Some(entries)) => Some(before + entries)
      case _ => None
  }

  lemma {:induction false} FailsLater(t: Table, store: Store, pkeys: seq<bytes>, n: nat, onRow: bool)
    requires n <= |pkeys| && DerivedAll(t, store, pkeys[..n], onRow).None?
    ensures DerivedAll(t, store, pkeys, onRow).None?
    decreases |pkeys|
  {
    hide Derived;
    if n == |pkeys| {
      assert pkeys[..n] == pkeys;
    } else {
      assert pkeys[..|pkeys| - 1][..n] == pkeys[..n];
      FailsLater(t, store, pkeys[..|pkeys| - 1], n, onRow);
    }
  }

  function KeysIn(t: Table, store: Store, at: slot): seq<bytes> { ScanSuffix(store, Key(t.ns, at, [])) }

  function RebuildFaces(t: Table, store: Store): Option<Store> {
    var swept := Replay(store, SweepOps(t, store, t.methods));
    match (DerivedAll(t, swept, KeysIn(t, swept, PRIMARY), true), DerivedAll(t, swept, KeysIn(t, swept, DYNAMIC), false))
    case (Some(a), Some(b)) => Some(Replay(swept, Puts(a + b)))
    case _ => None
  }

  // --- The sweep ---

  lemma {:induction false} LastOfDelAll(prefix: bytes, suffixes: seq<bytes>, key: bytes)
    ensures Last(DelAll(prefix, suffixes), key) == if exists x :: x in suffixes && key == prefix + x then Some(None) else None
    decreases |suffixes|
  {
    if suffixes != [] {
      var init := suffixes[..|suffixes| - 1];
      LastOfDelAll(prefix, init, key);
      var dels := DelAll(prefix, init);
      assert DelAll(prefix, suffixes)[..|dels|] == dels;
      assert suffixes == init + [suffixes[|suffixes| - 1]];
    }
  }

  lemma {:induction false} KeyPrefix(ns: bytes, at: slot, x: bytes)
    ensures Key(ns, at, []) + x == Key(ns, at, x)
  {
    assert ns + SlotBytes(at) + [] == ns + SlotBytes(at);
  }

  lemma {:induction false} SweptKey(t: Table, store: Store, methods: seq<AccessMethod>, at: slot, x: bytes)
    ensures Get(Replay(store, SweepOps(t, store, methods)), Key(t.ns, at, x))
         == if exists m :: m in methods && m.slot == at then None else Get(store, Key(t.ns, at, x))
    decreases |methods|
  {
    hide Key, Last, ScanSuffix, Replay, DelAll;
    var key := Key(t.ns, at, x);
    if methods == [] {
      NothingReplays(store);
    } else {
      var (init, m) := (methods[..|methods| - 1], methods[|methods| - 1]);
      SweptKey(t, store, init, at, x);
      var (prefix, suffixes) := (Key(t.ns, m.slot, []), ScanSuffix(store, Key(t.ns, m.slot, [])));
      LastOfJoin(SweepOps(t, store, init), DelAll(prefix, suffixes), key);
      LastOfDelAll(prefix, suffixes, key);
      ReplayIsLast(store, SweepOps(t, store, init), key);
      ReplayIsLast(store, SweepOps(t, store, methods), key);
      ScanFindsAll(store, prefix, x);
      KeyPrefix(t.ns, m.slot, x);
      assert methods == init + [m];
      if m.slot != at {
        forall y | y in suffixes ensures prefix + y != key {
          KeyPrefix(t.ns, m.slot, y);
          if Key(t.ns, m.slot, y) == key { KeyIsInjective(t.ns, m.slot, y, at, x); }
        }
      } else {
        assert x in suffixes <==> key in store;
      }
    }
  }

  /** Everything but the faces. */
  ghost predicate BaseTells(t: Table, store: Store, d: Docs) {
    && RowsTell(t, store, d.rows) && SegsTell(t, store, d.segs, d.vocab) && VocabTells(t, store, d.vocab)
    && LedgerTells(t, store, d.rows, d.trace)
  }

  /** Two stores that differ on faces only. */
  ghost predicate SameBase(t: Table, a: Store, b: Store) {
    forall at: slot, x :: at !in MethodSlots(t) ==> Get(b, Key(t.ns, at, x)) == Get(a, Key(t.ns, at, x))
  }

  // --- A store being rebuilt reads as before ---

  /** The declared slots are above the fixed faces. */
  predicate FacesApart(t: Table) { forall s :: s in MethodSlots(t) ==> s >= 4096 }

  lemma {:induction false} SuffixesStay(t: Table, a: Store, b: Store, at: slot)
    requires SameBase(t, a, b) && at !in MethodSlots(t)
    ensures Suffixes(a, Key(t.ns, at, [])) == Suffixes(b, Key(t.ns, at, []))
  {
    hide Key, MethodSlots, Suffixes;
    var prefix := Key(t.ns, at, []);
    forall x ensures x in Suffixes(a, prefix) <==> x in Suffixes(b, prefix) {
      SuffixesAre(a, prefix, x);
      SuffixesAre(b, prefix, x);
      KeyPrefix(t.ns, at, x);
      assert Get(b, Key(t.ns, at, x)) == Get(a, Key(t.ns, at, x));
    }
  }

  lemma {:induction false} LoadStays(t: Table, a: Store, b: Store)
    requires FacesApart(t) && SameBase(t, a, b)
    ensures VocabStore.Load(b, t.ns) == VocabStore.Load(a, t.ns)
  {
    hide Key, Suffixes, MethodSlots;
    SuffixesStay(t, a, b, VOCAB_NAME);
    forall name ensures VocabStore.NameEntry(b, t.ns, name) == VocabStore.NameEntry(a, t.ns, name) {
      assert Get(b, VocabStore.NameKey(t.ns, name)) == Get(a, VocabStore.NameKey(t.ns, name));
    }
    forall id: u16 ensures Get(b, VocabStore.IdKey(t.ns, id)) == Get(a, VocabStore.IdKey(t.ns, id)) {}
    assert VocabStore.NamesIn(b, t.ns) == VocabStore.NamesIn(a, t.ns);
    assert VocabStore.IdsIn(b, t.ns) == VocabStore.IdsIn(a, t.ns);
    assert Get(b, VocabStore.CursorKey(t.ns)) == Get(a, VocabStore.CursorKey(t.ns));
  }

  /** However many faces have been swept or written meanwhile, a document reads the same. */
  lemma {:induction false} FetchStays(t: Table, a: Store, b: Store, pkey: bytes)
    requires FacesApart(t) && SameBase(t, a, b)
    ensures Fetch(t, b, pkey) == Fetch(t, a, pkey)
  {
    hide Key, MethodSlots, DecodePayload, Segment.DecodeSegment, VocabStore.Load;
    LoadStays(t, a, b);
    assert Get(b, PrimaryKey(t, pkey)) == Get(a, PrimaryKey(t, pkey));
    assert Get(b, VocabStore.SegmentKey(t.ns, pkey)) == Get(a, VocabStore.SegmentKey(t.ns, pkey));
  }

  lemma {:induction false} DerivedStays(t: Table, a: Store, b: Store, pkey: bytes, onRow: bool)
    requires FacesApart(t) && SameBase(t, a, b)
    ensures Derived(t, b, pkey, onRow) == Derived(t, a, pkey, onRow)
  {
    hide Fetch, IndexEntries, PathEntries;
    FetchStays(t, a, b, pkey);
  }

  lemma {:induction false} KeysStay(t: Table, a: Store, b: Store, at: slot)
    requires FacesApart(t) && SameBase(t, a, b) && at < 4096
    ensures KeysIn(t, b, at) == KeysIn(t, a, at)
  {
    hide Suffixes, Key, Sorted, MethodSlots, SameBase;
    SuffixesStay(t, a, b, at);
  }

  /** What a document's visit derives lies under the declared slots. */
  lemma {:induction false} DerivedUnder(t: Table, store: Store, pkey: bytes, onRow: bool)
    ensures Derived(t, store, pkey, onRow).Some? ==> Under(t.ns, Puts(Derived(t, store, pkey, onRow).value), MethodSlots(t))
  {
    hide Fetch, IndexEntries, PathEntries, Under, MethodSlots, Belongs, Puts;
    NothingUnder(t);
    var fetched := Fetch(t, store, pkey);
    if fetched.Some? && fetched.value.Some? {
      var document := fetched.value.value;
      var rows := if onRow then IndexEntries(t.schema, t.ns, t.methods, pkey, document) else Some([]);
      if rows.Some? {
        if onRow {
          RowEntriesBelong(t.schema, t.ns, t.methods, pkey, document);
          EntriesAreUnder(t, pkey, false, rows.value);
        }
        PathEntriesBelong(t.ns, t.methods, pkey, document);
        EntriesAreUnder(t, pkey, true, PathEntries(t.ns, t.methods, pkey, document));
        PutsJoin(rows.value, PathEntries(t.ns, t.methods, pkey, document));
        UnderJoins(t.ns, Puts(rows.value), Puts(PathEntries(t.ns, t.methods, pkey, document)), MethodSlots(t));
      }
    }
  }

  lemma {:induction false} BaseStays(t: Table, a: Store, b: Store, d: Docs)
    requires Sane(t) && BaseTells(t, a, d) && SameBase(t, a, b)
    ensures BaseTells(t, b, d)
  {
    hide Sane, Key, Frozen, Segment.Bijective, BE, DecodePayload, EncodePayload, EntriesOfRow, Tells, MethodSlots;
    LowSlots(t, PRIMARY);
    LowSlots(t, DYNAMIC);
    forall p ensures RowTells(t, b, p, At(d.rows, p)) { assert RowTells(t, a, p, At(d.rows, p)); }
    forall p ensures SegTells(t, b, p, At(d.segs, p), d.vocab) { assert SegTells(t, a, p, At(d.segs, p), d.vocab); }
    VocabStays(t, a, b, d.vocab);
    forall i, group | 0 <= i < |t.reduces|
      ensures Get(b, Key(t.ns, t.reduces[i].slot, group)) == Get(a, Key(t.ns, t.reduces[i].slot, group))
    {
      ReduceSlotIsNoMethod(t, i);
    }
    LedgerReadsAccs(t, a, b, d.rows, d.trace);
  }

  lemma {:induction false} VocabStays(t: Table, a: Store, b: Store, v: Segment.Vocab)
    requires Sane(t) && VocabTells(t, a, v) && SameBase(t, a, b)
    ensures VocabTells(t, b, v)
  {
    hide Sane, Key, Segment.Bijective, BE, MethodSlots;
    LowSlots(t, VOCAB_ID);
    LowSlots(t, VOCAB_NAME);
    forall id: u16 ensures Get(b, VocabStore.IdKey(t.ns, id)) == Get(a, VocabStore.IdKey(t.ns, id)) {}
    forall name ensures Get(b, VocabStore.NameKey(t.ns, name)) == Get(a, VocabStore.NameKey(t.ns, name)) {}
  }

  lemma {:induction false} SweepIsBase(t: Table, store: Store)
    ensures SameBase(t, store, Replay(store, SweepOps(t, store, t.methods)))
    ensures forall i, x :: 0 <= i < |t.methods| ==> Get(Replay(store, SweepOps(t, store, t.methods)), Key(t.ns, t.methods[i].slot, x)) == None
  {
    hide Key, Replay, SweepOps;
    var swept := Replay(store, SweepOps(t, store, t.methods));
    forall at: slot, x | at !in MethodSlots(t) ensures Get(swept, Key(t.ns, at, x)) == Get(store, Key(t.ns, at, x)) {
      SweptKey(t, store, t.methods, at, x);
    }
    forall i, x | 0 <= i < |t.methods| ensures Get(swept, Key(t.ns, t.methods[i].slot, x)) == None {
      SweptKey(t, store, t.methods, t.methods[i].slot, x);
      assert t.methods[i] in t.methods;
    }
  }

  // --- What the visits derive ---

  /** The two halves of a document share no name, and no path starts at a declared field. */
  predicate HalvesApart(t: Table, d: Docs) {
    && (forall p :: p in d.segs ==> d.segs[p].Keys !! PayloadNames(t.schema))
    && (forall p :: p in d.rows ==> d.rows[p].Keys <= PayloadNames(t.schema))
  }

  predicate PathsAreDynamic(t: Table) {
    forall i :: 0 <= i < |t.methods| && t.methods[i].kind.ByPath? && t.methods[i].kind.path != [] ==>
      var c := t.methods[i].kind.path[0];
      !c.Index? ==> (if c.Field? then c.name else c.key) !in PayloadNames(t.schema)
  }

  lemma {:induction false} PathOfMerged(s: Schema, row: ValueMap, seg: ValueMap, p: Path.Path)
    requires row.Keys <= PayloadNames(s)
    requires p != [] && !p[0].Index? ==> (if p[0].Field? then p[0].name else p[0].key) !in PayloadNames(s)
    ensures Path.ResolvePath(row + seg, p) == Path.ResolvePath(seg, p)
  {
    hide PayloadNames;
  }

  lemma {:induction false} PathEntriesOfMerged(t: Table, methods: seq<AccessMethod>, pkey: bytes, row: ValueMap,
      seg: ValueMap)
    requires PathsAreDynamic(t) && (forall m :: m in methods ==> m in t.methods) && row.Keys <= PayloadNames(t.schema)
    ensures PathEntries(t.ns, methods, pkey, row + seg) == PathEntries(t.ns, methods, pkey, seg)
    decreases |methods|
  {
    hide PathSegments, EntriesOf, Path.ResolvePath, PayloadNames;
    if methods != [] {
      PathEntriesOfMerged(t, methods[1..], pkey, row, seg);
      var m := methods[0];
      if m.kind.ByPath? {
        assert m in t.methods;
        var i :| 0 <= i < |t.methods| && t.methods[i] == m;
        PathOfMerged(t.schema, row, seg, m.kind.path);
      }
    }
  }

  lemma {:induction false} VisitDerives(t: Table, store: Store, d: Docs, pkey: bytes, onRow: bool)
    requires Sane(t) && BaseTells(t, store, d) && HalvesApart(t, d) && PathsAreDynamic(t)
    requires if onRow then pkey in d.rows else pkey in d.segs
    ensures Derived(t, store, pkey, onRow)
         == Some((if onRow then RowEntries(t, pkey, At(d.rows, pkey)) else []) + SegEntries(t, pkey, At(d.segs, pkey)))
  {
    BaseIsRead(t, store, d, pkey);
    assert RowTells(t, store, pkey, At(d.rows, pkey));
    hide BaseTells, StoredRow, StoredSegment, PathEntries, IndexEntries, PayloadNames, EncodePayload, DecodePayload;
    var (row, seg) := (OrEmpty(At(d.rows, pkey)), OrEmpty(At(d.segs, pkey)));
    PathEntriesOfMerged(t, t.methods, pkey, row, seg);
    if seg == map[] { NoFieldsNoEntries(t.ns, t.methods, pkey); }
    if onRow { MergedRowEntries(t, pkey, row, seg); }
  }

  lemma {:induction false} MergedRowEntries(t: Table, pkey: bytes, row: ValueMap, seg: ValueMap)
    requires Sane(t) && row.Keys <= PayloadNames(t.schema) && seg.Keys !! PayloadNames(t.schema)
    ensures IndexEntries(t.schema, t.ns, t.methods, pkey, row + seg) == IndexEntries(t.schema, t.ns, t.methods, pkey, row)
  {
    StoredEntries(t, pkey, Some(row + seg));
    StoredEntries(t, pkey, Some(row));
    hide Sane, IndexEntries, PayloadNames;
    assert PayloadOf(t.schema, row + seg) == PayloadOf(t.schema, row);
  }

  lemma {:induction false} BaseIsRead(t: Table, store: Store, d: Docs, pkey: bytes)
    requires BaseTells(t, store, d) && (pkey in d.rows || pkey in d.segs)
    ensures |pkey| == t.schema.keyLen && StoredRow(t, store, pkey) == Some(At(d.rows, pkey))
    ensures StoredSegment(t, store, pkey) == At(d.segs, pkey)
  {
    hide LedgerTells, DecodePayload, EncodePayload, EntriesOfRow, Key, VocabStore.Load, Segment.DecodeSegment,
      Segment.Bijective, VocabStore.Holds, Segment.Grows;
    VocabStore.LoadReadsBack(store, t.ns, d.vocab);
    Segment.GrowsItself(d.vocab);
    assert RowTells(t, store, pkey, At(d.rows, pkey));
    assert SegTells(t, store, pkey, At(d.segs, pkey), d.vocab);
  }

  function VisitEntries(t: Table, d: Docs, pkey: bytes, onRow: bool): seq<Entry> {
    (if onRow then RowEntries(t, pkey, At(d.rows, pkey)) else []) + SegEntries(t, pkey, At(d.segs, pkey))
  }

  /** A key's entry in a whole pass is that of the visit to its own document. */
  lemma {:induction false} PassLists(t: Table, store: Store, d: Docs, pkeys: seq<bytes>, onRow: bool, i: nat,
      rest: bytes)
    requires Sane(t) && BaseTells(t, store, d) && HalvesApart(t, d) && PathsAreDynamic(t) && i < |t.methods|
    requires forall p :: p in pkeys ==> if onRow then p in d.rows else p in d.segs
    ensures DerivedAll(t, store, pkeys, onRow).Some?
    ensures var (key, kl) := (Key(t.ns, t.methods[i].slot, rest), t.schema.keyLen);
      Listed(DerivedAll(t, store, pkeys, onRow).value, key)
      == if |rest| >= kl && rest[|rest| - kl..] in pkeys then Listed(VisitEntries(t, d, rest[|rest| - kl..], onRow), key) else None
    decreases |pkeys|
  {
    hide Sane, BaseTells, HalvesApart, PathsAreDynamic, Key, Listed, Derived, VisitEntries;
    var key := Key(t.ns, t.methods[i].slot, rest);
    if pkeys == [] {
      NothingListed(key);
    } else {
      var (init, p) := (pkeys[..|pkeys| - 1], pkeys[|pkeys| - 1]);
      assert pkeys == init + [p];
      PassLists(t, store, d, init, onRow, i, rest);
      VisitIs(t, store, d, p, onRow);
      ListedOfJoin(DerivedAll(t, store, init, onRow).value, VisitEntries(t, d, p, onRow), key);
      if !(|rest| >= t.schema.keyLen && rest[|rest| - t.schema.keyLen..] == p) { OtherVisit(t, d, p, onRow, i, rest); }
    }
  }

  lemma VisitIs(t: Table, store: Store, d: Docs, pkey: bytes, onRow: bool)
    requires Sane(t) && BaseTells(t, store, d) && HalvesApart(t, d) && PathsAreDynamic(t)
    requires if onRow then pkey in d.rows else pkey in d.segs
    ensures Derived(t, store, pkey, onRow) == Some(VisitEntries(t, d, pkey, onRow)) && |pkey| == t.schema.keyLen
  {
    VisitDerives(t, store, d, pkey, onRow);
    BaseIsRead(t, store, d, pkey);
    hide Sane, BaseTells, HalvesApart, PathsAreDynamic, Derived, RowEntries, SegEntries;
  }

  lemma {:induction false} OtherVisit(t: Table, d: Docs, pkey: bytes, onRow: bool, i: nat, rest: bytes)
    requires Sane(t) && i < |t.methods| && !OwnTail(pkey, rest)
    ensures Listed(VisitEntries(t, d, pkey, onRow), Key(t.ns, t.methods[i].slot, rest)) == None
  {
    hide Sane, Key, Listed, RowEntries, SegEntries;
    var key := Key(t.ns, t.methods[i].slot, rest);
    RowEntriesUnder(t, pkey, At(d.rows, pkey));
    SegEntriesBelong(t, pkey, At(d.segs, pkey));
    ForeignIsNotListed(t, pkey, false, RowEntries(t, pkey, At(d.rows, pkey)), t.methods[i], rest);
    ForeignIsNotListed(t, pkey, true, SegEntries(t, pkey, At(d.segs, pkey)), t.methods[i], rest);
    ListedOfJoin(if onRow then RowEntries(t, pkey, At(d.rows, pkey)) else [], SegEntries(t, pkey, At(d.segs, pkey)), key);
    NothingListed(key);
  }

  lemma {:induction false} KeysAreDocs(t: Table, store: Store, d: Docs)
    requires BaseTells(t, store, d)
    ensures forall p :: p in KeysIn(t, store, PRIMARY) <==> p in d.rows
    ensures forall p :: p in KeysIn(t, store, DYNAMIC) <==> p in d.segs
  {
    hide LedgerTells, VocabTells, ScanSuffix, Key, DecodePayload, EncodePayload, EntriesOfRow, Frozen;
    forall p ensures p in KeysIn(t, store, PRIMARY) <==> p in d.rows {
      ScanFindsAll(store, Key(t.ns, PRIMARY, []), p);
      KeyPrefix(t.ns, PRIMARY, p);
      assert RowTells(t, store, p, At(d.rows, p));
      assert Get(store, PrimaryKey(t, p)).Some? <==> PrimaryKey(t, p) in store;
    }
    forall p ensures p in KeysIn(t, store, DYNAMIC) <==> p in d.segs {
      ScanFindsAll(store, Key(t.ns, DYNAMIC, []), p);
      KeyPrefix(t.ns, DYNAMIC, p);
      assert SegTells(t, store, p, At(d.segs, p), d.vocab);
      assert Get(store, VocabStore.SegmentKey(t.ns, p)).Some? <==> VocabStore.SegmentKey(t.ns, p) in store;
    }
  }

  /** What both passes list under a face key is what the documents imply. */
  lemma {:induction false} PassesAreFaces(t: Table, store: Store, d: Docs, i: nat, rest: bytes)
    requires Sane(t) && BaseTells(t, store, d) && HalvesApart(t, d) && PathsAreDynamic(t) && i < |t.methods|
    ensures var (a, b) := (DerivedAll(t, store, KeysIn(t, store, PRIMARY), true), DerivedAll(t, store, KeysIn(t, store, DYNAMIC), false));
      && a.Some? && b.Some?
      && Listed(a.value + b.value, Key(t.ns, t.methods[i].slot, rest)) == FaceValue(t, d.rows, d.segs, t.methods[i].slot, rest)
  {
    hide Sane, BaseTells, HalvesApart, PathsAreDynamic, Key, Listed, KeysIn, RowEntries, SegEntries, DerivedAll;
    var key := Key(t.ns, t.methods[i].slot, rest);
    KeysAreDocs(t, store, d);
    PassLists(t, store, d, KeysIn(t, store, PRIMARY), true, i, rest);
    PassLists(t, store, d, KeysIn(t, store, DYNAMIC), false, i, rest);
    ListedOfJoin(DerivedAll(t, store, KeysIn(t, store, PRIMARY), true).value,
                 DerivedAll(t, store, KeysIn(t, store, DYNAMIC), false).value, key);
    if |rest| >= t.schema.keyLen {
      var p := rest[|rest| - t.schema.keyLen..];
      var (row, seg) := (RowEntries(t, p, At(d.rows, p)), SegEntries(t, p, At(d.segs, p)));
      ListedOfJoin(row, seg, key);
      ListedOfJoin([], seg, key);
      NothingListed(key);
      AbsentEntries(t, p);
    }
  }

  lemma AbsentEntries(t: Table, pkey: bytes)
    ensures RowEntries(t, pkey, None) == [] && SegEntries(t, pkey, None) == []
  {}

  lemma {:induction false} PutsAreFaces(t: Table, store: Store, d: Docs)
    requires Sane(t) && BaseTells(t, store, d) && HalvesApart(t, d) && PathsAreDynamic(t)
    requires DerivedAll(t, store, KeysIn(t, store, PRIMARY), true).Some? && DerivedAll(t, store, KeysIn(t, store, DYNAMIC), false).Some?
    ensures var (a, b) := (DerivedAll(t, store, KeysIn(t, store, PRIMARY), true).value,
                           DerivedAll(t, store, KeysIn(t, store, DYNAMIC), false).value);
      Under(t.ns, Puts(a + b), MethodSlots(t))
  {
    KeysAreDocs(t, store, d);
    hide Sane, BaseTells, HalvesApart, PathsAreDynamic, KeysIn, DerivedAll, Under, MethodSlots;
    var (ps, qs) := (KeysIn(t, store, PRIMARY), KeysIn(t, store, DYNAMIC));
    PassUnder(t, store, d, ps, true);
    PassUnder(t, store, d, qs, false);
    PutsJoin(DerivedAll(t, store, ps, true).value, DerivedAll(t, store, qs, false).value);
    UnderJoins(t.ns, Puts(DerivedAll(t, store, ps, true).value), Puts(DerivedAll(t, store, qs, false).value), MethodSlots(t));
  }

  lemma {:induction false} PutsJoin(a: seq<Entry>, b: seq<Entry>)
    ensures Puts(a + b) == Puts(a) + Puts(b)
    decreases |b|
  {
    if b == [] {
      assert a + b == a;
    } else {
      assert (a + b)[..|a + b| - 1] == a + b[..|b| - 1] && (a + b)[|a + b| - 1] == b[|b| - 1];
      PutsJoin(a, b[..|b| - 1]);
    }
  }

  lemma {:induction false} PassUnder(t: Table, store: Store, d: Docs, pkeys: seq<bytes>, onRow: bool)
    requires Sane(t) && BaseTells(t, store, d) && HalvesApart(t, d) && PathsAreDynamic(t)
    requires forall p :: p in pkeys ==> if onRow then p in d.rows else p in d.segs
    ensures DerivedAll(t, store, pkeys, onRow).Some? && Under(t.ns, Puts(DerivedAll(t, store, pkeys, onRow).value), MethodSlots(t))
    decreases |pkeys|
  {
    if pkeys == [] { NothingUnder(t); }
    hide Sane, BaseTells, HalvesApart, PathsAreDynamic, Derived, Under, MethodSlots, Puts;
    if pkeys != [] {
      var (init, p) := (pkeys[..|pkeys| - 1], pkeys[|pkeys| - 1]);
      assert pkeys == init + [p];
      PassUnder(t, store, d, init, onRow);
      VisitIs(t, store, d, p, onRow);
      RowEntriesUnder(t, p, At(d.rows, p));
      SegEntriesBelong(t, p, At(d.segs, p));
      NothingUnder(t);
      var front := if onRow then RowEntries(t, p, At(d.rows, p)) else [];
      PutsJoin(front, SegEntries(t, p, At(d.segs, p)));
      UnderJoins(t.ns, Puts(front), Puts(SegEntries(t, p, At(d.segs, p))), MethodSlots(t));
      PutsJoin(DerivedAll(t, store, init, onRow).value, VisitEntries(t, d, p, onRow));
      UnderJoins(t.ns, Puts(DerivedAll(t, store, init, onRow).value), Puts(VisitEntries(t, d, p, onRow)), MethodSlots(t));
    }
  }

  lemma NothingUnder(t: Table)
    ensures Under(t.ns, Puts([]), MethodSlots(t))
  {}

  /** From any contents of the declared slots, a rebuild ends with exactly the entries maintenance would hold. */
  lemma {:induction false} RebuildIsMaintenance(t: Table, store: Store, d: Docs)
    requires Sane(t) && BaseTells(t, store, d) && HalvesApart(t, d) && PathsAreDynamic(t)
    ensures RebuildFaces(t, store).Some? && Healthy(t, RebuildFaces(t, store).value, d)
    ensures SameBase(t, store, RebuildFaces(t, store).value)
  {
    hide Sane, BaseTells, HalvesApart, PathsAreDynamic, Replay, SweepOps, DerivedAll, KeysIn, Key, MethodSlots, Under,
      Puts, Listed, FaceValue, SameBase;
    var swept := Replay(store, SweepOps(t, store, t.methods));
    SweepIsBase(t, store);
    BaseStays(t, store, swept, d);
    BothPasses(t, swept, d);
    PutsAreFaces(t, swept, d);
    var (a, b) := (DerivedAll(t, swept, KeysIn(t, swept, PRIMARY), true).value, DerivedAll(t, swept, KeysIn(t, swept, DYNAMIC), false).value);
    var after := Replay(swept, Puts(a + b));
    SameBaseAfter(t, swept, Puts(a + b));
    SameBaseJoins(t, store, swept, after);
    BaseStays(t, swept, after, d);
    forall i, rest | 0 <= i < |t.methods|
      ensures Get(after, Key(t.ns, t.methods[i].slot, rest)) == FaceValue(t, d.rows, d.segs, t.methods[i].slot, rest)
    {
      var key := Key(t.ns, t.methods[i].slot, rest);
      PassesAreFaces(t, swept, d, i, rest);
      LastOfPuts(a + b, key);
      ReplayIsLast(swept, Puts(a + b), key);
    }
    BaseAndFaces(t, after, d);
  }

  lemma BothPasses(t: Table, store: Store, d: Docs)
    requires Sane(t) && BaseTells(t, store, d) && HalvesApart(t, d) && PathsAreDynamic(t)
    ensures DerivedAll(t, store, KeysIn(t, store, PRIMARY), true).Some? && DerivedAll(t, store, KeysIn(t, store, DYNAMIC), false).Some?
  {
    KeysAreDocs(t, store, d);
    hide Sane, BaseTells, HalvesApart, PathsAreDynamic, DerivedAll, KeysIn;
    PassUnder(t, store, d, KeysIn(t, store, PRIMARY), true);
    PassUnder(t, store, d, KeysIn(t, store, DYNAMIC), false);
  }

  lemma SameBaseAfter(t: Table, store: Store, ops: seq<Op>)
    requires Under(t.ns, ops, MethodSlots(t))
    ensures SameBase(t, store, Replay(store, ops))
  {
    hide Under, MethodSlots, Replay, Last, Key;
    forall at: slot, x | at !in MethodSlots(t) ensures Get(Replay(store, ops), Key(t.ns, at, x)) == Get(store, Key(t.ns, at, x)) {
      OtherSlotsAvoid(t.ns, ops, MethodSlots(t), at, x);
      ReplayIsLast(store, ops, Key(t.ns, at, x));
    }
  }

  lemma SameBaseJoins(t: Table, a: Store, b: Store, c: Store)
    requires SameBase(t, a, b) && SameBase(t, b, c)
    ensures SameBase(t, a, c)
  {
    hide Key, MethodSlots;
  }

  lemma BaseAndFaces(t: Table, store: Store, d: Docs)
    requires BaseTells(t, store, d)
    requires forall i, rest :: 0 <= i < |t.methods| ==>
      Get(store, Key(t.ns, t.methods[i].slot, rest)) == FaceValue(t, d.rows, d.segs, t.methods[i].slot, rest)
    ensures Healthy(t, store, d)
  {
    hide RowsTell, SegsTell, VocabTells, LedgerTells, FaceValue, Key;
  }

  /** On a healthy table a rebuild changes nothing under any slot of the table. */
  lemma {:induction false} RebuildIsIdentity(t: Table, store: Store, d: Docs, at: slot, x: bytes)
    requires Sane(t) && Healthy(t, store, d) && HalvesApart(t, d) && PathsAreDynamic(t)
    ensures RebuildFaces(t, store).Some?
    ensures Get(RebuildFaces(t, store).value, Key(t.ns, at, x)) == Get(store, Key(t.ns, at, x))
  {
    hide Sane, RowsTell, SegsTell, VocabTells, LedgerTells, HalvesApart, PathsAreDynamic, RebuildFaces, FaceValue, Key;
    RebuildIsMaintenance(t, store, d);
    if at in MethodSlots(t) {
      var i :| 0 <= i < |t.methods| && t.methods[i].slot == at;
      assert Get(store, Key(t.ns, t.methods[i].slot, x)) == FaceValue(t, d.rows, d.segs, t.methods[i].slot, x);
    }
  }

  // --- The halves stay apart over every run ---

  lemma {:induction false} VerbKeepsHalvesApart(t: Table, d: Docs, verb: Verb)
    requires HalvesApart(t, d)
    ensures HalvesApart(t, DocsAfter(t, d, verb))
  {
    hide PayloadNames, RowBase, ReadBack, PlanSegment;
  }

  lemma {:induction false} RunsKeepHalvesApart(t: Table, verbs: seq<Verb>, states: seq<(Store, Docs)>, i: nat)
    requires IsRun(t, verbs, states) && i < |states| && states[0] == (map[], Docs(map[], map[], NO_NAMES, []))
    ensures HalvesApart(t, states[i].1)
    decreases i
  {
    hide HalvesApart, Perform, DocsAfter, VerbFits;
    if i == 0 {
      NothingIsApart(t);
    } else {
      RunsKeepHalvesApart(t, verbs, states, i - 1);
      assert Goes(t, verbs[i - 1], states[i - 1], states[i]);
      VerbKeepsHalvesApart(t, states[i - 1].1, verbs[i - 1]);
    }
  }

  lemma NothingIsApart(t: Table)
    ensures HalvesApart(t, Docs(map[], map[], NO_NAMES, []))
  {}
}
