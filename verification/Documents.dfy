/** A table as its caller sees it: a map from keys to documents, and what every verb makes of one. */
module Documents {
  import opened Bytes
  import opened Store
  import opened Value
  import opened Schema
  import opened Index
  import opened Ledger
  import opened Plan
  import opened Health
  import opened Verbs

  // --- Defaults ---

  /** A field's default is the one it declares; that of a field that declares none is its all-zero image, or no text. */
  lemma {:induction false} DefaultIs(f: FieldDef)
    ensures f.default.Some? ==> DefaultOf(f) == f.default.value
    ensures f.default.None? && WidthFits(f) ==> FixedImage(f, DefaultOf(f)) == Some(Filled(0, f.width))
    ensures f.default.None? && f.ty.StrT? ==> DefaultOf(f) == Str([])
  {
    match f.ty {
      case U8T => assert Filled(0, 1) == [0];
      case U16T => ZeroBytes(2);
      case U32T => ZeroBytes(4);
      case U64T => ZeroBytes(8);
      case OffsetT(base) => ZeroBytes(4);
      case _ =>
    }
  }

  function DefaultNamed(s: Schema, name: bytes): Value
    requires name in PayloadNames(s)
  {
    DefaultOf(FindIn(Payload(s), name).value)
  }

  lemma {:induction false} DefaultNamedIs(s: Schema, i: nat)
    requires NamesDiffer(Payload(s)) && i < |Payload(s)|
    ensures Payload(s)[i].name in PayloadNames(s) && DefaultNamed(s, Payload(s)[i].name) == DefaultOf(Payload(s)[i])
  {
    hide DefaultOf;
    var f := FindIn(Payload(s), Payload(s)[i].name).value;
    var j :| 0 <= j < |Payload(s)| && Payload(s)[j] == f;
  }

  // --- What the verbs mean ---

  /** The document `base` with `fields` written over it: declared fields as given, the others as they read back; once a
      declared field is written every other declared field is there, too, by its default if by nothing else. */
  function Written(s: Schema, base: ValueMap, fields: ValueMap): ValueMap {
    map n | n in base.Keys + fields.Keys + (if fields.Keys !! PayloadNames(s) then {} else PayloadNames(s)) ::
      if n in fields then (if n in PayloadNames(s) then fields[n] else ReadBack(fields[n]))
      else if n in base then base[n]
      else DefaultNamed(s, n)
  }

  /** What a verb that is not refused makes of the document under its key. */
  function Told(s: Schema, document: Option<ValueMap>, verb: Verb): Option<ValueMap> {
    match verb
    case MergeV(_, fields) => if fields == map[] then document else Some(Written(s, OrEmpty(document), fields))
    case ReplaceV(_, fields) => if fields == map[] then None else Some(Written(s, map[], fields))
    case PurgeV(_) => None
  }

  // --- The document behind a key ---

  function DocOf(d: Docs, pkey: bytes): Option<ValueMap> {
    if pkey !in d.rows && pkey !in d.segs then None else Some(OrEmpty(At(d.rows, pkey)) + OrEmpty(At(d.segs, pkey)))
  }

  lemma {:induction false} FetchIs(t: Table, store: Store, d: Docs, pkey: bytes)
    requires Healthy(t, store, d)
    ensures Fetch(t, store, pkey) == if |pkey| == t.schema.keyLen then Some(DocOf(d, pkey)) else None
  {
    hide Healthy, StoredRow, StoredSegment;
    if |pkey| == t.schema.keyLen {
      RowIsRead(t, store, d, pkey);
      SegIsRead(t, store, d, pkey);
    } else {
      WrongWidth(t, store, pkey);
    }
  }

  lemma WrongWidth(t: Table, store: Store, pkey: bytes)
    requires |pkey| != t.schema.keyLen
    ensures StoredRow(t, store, pkey) == None
  {}

  /** Rows have exactly the payload fields and keys that decode, segments none of these fields, and segments are as they
      read back. */
  predicate Clean(t: Table, d: Docs) {
    && (forall p :: p in d.rows ==> d.rows[p].Keys == PayloadNames(t.schema) && DecodeKey(t.schema, p).Some?)
    && (forall p :: p in d.segs ==> d.segs[p].Keys !! PayloadNames(t.schema) && ReadBackMap(d.segs[p]) == d.segs[p])
  }

  // --- Reading back twice ---

  lemma {:induction false} ReadBackTwice(v: Value)
    ensures ReadBack(ReadBack(v)) == ReadBack(v)
    decreases v
  {
    hide ReadInt, IntBytes, SignKept;
    match v {
      case I64(i) => IntReadsTwice(i);
      case Obj(fields) =>
        forall k | k in fields ensures ReadBack(ReadBack(fields[k])) == ReadBack(fields[k]) { ReadBackTwice(fields[k]); }
        assert ReadBack(ReadBack(v)).fields == ReadBack(v).fields;
      case Array(items) =>
        forall i | 0 <= i < |items| ensures ReadBack(ReadBack(items[i])) == ReadBack(items[i]) { ReadBackTwice(items[i]); }
        assert ReadBack(ReadBack(v)).items == ReadBack(v).items;
      case _ =>
    }
  }

  lemma {:induction false} IntReadsTwice(i: i64)
    ensures ReadInt(IntBytes(i)).Some?
    ensures var j := ReadInt(IntBytes(i)).value; ReadInt(IntBytes(j)) == Some(j)
  {
    IntReadsBack(i);
    hide ReadInt, IntBytes;
    if !SignKept(i) {
      SignIsInFirstByte(i);
      SignIsGained(IntBytes(i));
      IntReadsBack(ReadInt(IntBytes(i)).value);
    }
  }

  lemma ReadBackMapTwice(m: ValueMap)
    ensures ReadBackMap(ReadBackMap(m)) == ReadBackMap(m)
  {
    hide ReadBack;
    forall k | k in m ensures ReadBack(ReadBack(m[k])) == ReadBack(m[k]) { ReadBackTwice(m[k]); }
  }

  // --- The two halves of a write ---

  /** A name is either declared or dynamic, with its own value. */
  lemma SplitIs(t: Table, fields: ValueMap)
    ensures Declared(t, fields).Keys <= PayloadNames(t.schema) && Dynamic(t, fields).Keys !! PayloadNames(t.schema)
    ensures Declared(t, fields) + Dynamic(t, fields) == fields && Dynamic(t, fields) + Declared(t, fields) == fields
    ensures Declared(t, fields) == map[] <==> fields.Keys !! PayloadNames(t.schema)
  {
    hide PayloadNames;
    if fields.Keys !! PayloadNames(t.schema) {
      assert forall n :: n in Declared(t, fields) ==> n in fields && n in PayloadNames(t.schema);
    } else {
      var n :| n in fields && n in PayloadNames(t.schema);
      assert n in Declared(t, fields);
    }
  }

  /** The row a write leaves: the carried fields, and the defaults of the others. */
  lemma {:induction false} RowWritten(t: Table, pkey: bytes, carried: ValueMap)
    requires WellFormed(t.schema) && NamesDisjoint(t.schema) && RowBase(t, pkey, carried).Some?
    ensures var row := PayloadOf(t.schema, RowBase(t, pkey, carried).value);
      && row.Keys == PayloadNames(t.schema)
      && forall n :: n in row ==> row[n] == if n in carried then carried[n] else DefaultNamed(t.schema, n)
  {
    hide WellFormed, RowBase, NamesDisjoint, PayloadOf, DefaultNamed, DefaultOf;
    var row := PayloadOf(t.schema, RowBase(t, pkey, carried).value);
    forall n | n in PayloadNames(t.schema)
      ensures n in row && row[n] == if n in carried then carried[n] else DefaultNamed(t.schema, n)
    {
      var i :| 0 <= i < |Payload(t.schema)| && Payload(t.schema)[i].name == n;
      RowBaseIs(t, pkey, carried, i);
      DifferentNames(t.schema);
      DefaultNamedIs(t.schema, i);
    }
    RestrictedNames(t.schema, RowBase(t, pkey, carried).value);
  }

  lemma DifferentNames(s: Schema)
    requires WellFormed(s)
    ensures NamesDiffer(Payload(s))
  {
    hide Contiguous, WidthOf, NamesDiffer, TagsDiffer;
  }

  lemma RestrictedNames(s: Schema, m: ValueMap)
    ensures PayloadOf(s, m).Keys <= PayloadNames(s)
  {
    hide PayloadNames;
  }

  /** The row of the key after a write that carried some declared fields, or none. */
  ghost predicate RowIsWritten(s: Schema, row: Option<ValueMap>, base: ValueMap, declared: ValueMap) {
    && row.Some? && row.value.Keys == PayloadNames(s)
    && forall n :: n in row.value ==> row.value[n] == if n in declared then declared[n] else if n in base then base[n] else DefaultNamed(s, n)
  }

  lemma {:induction false} CarriedIs(t: Table, pkey: bytes, base: ValueMap, declared: ValueMap)
    requires WellFormed(t.schema) && NamesDisjoint(t.schema) && RowBase(t, pkey, base + declared).Some?
    ensures RowIsWritten(t.schema, Stored(t, RowBase(t, pkey, base + declared)), base, declared)
  {
    hide WellFormed, RowBase, NamesDisjoint, PayloadOf, DefaultNamed, PayloadNames;
    RowWritten(t, pkey, base + declared);
  }

  /** Put together, the halves are the document written over. */
  lemma {:induction false} HalvesAreWritten(s: Schema, row: Option<ValueMap>, seg: Option<ValueMap>, declared: ValueMap,
      dynamic: ValueMap, row': Option<ValueMap>, seg': Option<ValueMap>)
    requires declared.Keys <= PayloadNames(s) && dynamic.Keys !! PayloadNames(s) && OrEmpty(seg).Keys !! PayloadNames(s)
    requires row.Some? ==> row.value.Keys == PayloadNames(s)
    requires if declared == map[] then row' == row else RowIsWritten(s, row', OrEmpty(row), declared)
    requires OrEmpty(seg') == ReadBackMap(OrEmpty(seg) + dynamic) && ReadBackMap(OrEmpty(seg)) == OrEmpty(seg)
    ensures OrEmpty(row') + OrEmpty(seg') == Written(s, OrEmpty(row) + OrEmpty(seg), declared + dynamic)
  {
    hide PayloadNames, DefaultNamed, ReadBack;
    var (base, fields) := (OrEmpty(row) + OrEmpty(seg), declared + dynamic);
    var (doc, told) := (OrEmpty(row') + OrEmpty(seg'), Written(s, base, fields));
    assert declared == map[] <==> fields.Keys !! PayloadNames(s) by {
      if n :| n in declared { assert n in fields && n in PayloadNames(s); }
    }
    forall n ensures n in doc <==> n in told {}
    forall n | n in told ensures doc[n] == told[n] {
      if n in OrEmpty(seg') { assert n !in PayloadNames(s); }
      if n in OrEmpty(seg) && n !in fields { assert ReadBackMap(OrEmpty(seg))[n] == OrEmpty(seg)[n]; }
    }
  }

  // --- One verb ---

  lemma {:induction false} MergeMeans(t: Table, d: Docs, pkey: bytes, fields: ValueMap)
    requires WellFormed(t.schema) && NamesDisjoint(t.schema) && Clean(t, d)
    requires Declared(t, fields) != map[] ==> RowBase(t, pkey, OrEmpty(At(d.rows, pkey)) + Declared(t, fields)).Some?
    ensures DocOf(MergedDocs(t, d, pkey, fields), pkey) == Told(t.schema, DocOf(d, pkey), MergeV(pkey, fields))
  {
    hide WellFormed, RowBase, NamesDisjoint, PayloadOf, DefaultNamed, PayloadNames, PlanSegment, Declared, Dynamic,
      Written, ReadBackMap, RowIsWritten, Traced;
    SplitIs(t, fields);
    var (declared, dynamic) := (Declared(t, fields), Dynamic(t, fields));
    var (row, seg) := (At(d.rows, pkey), At(d.segs, pkey));
    var d' := MergedDocs(t, d, pkey, fields);
    if declared != map[] { CarriedIs(t, pkey, OrEmpty(row), declared); }
    NothingReadsBack();
    SegWritten(OrEmpty(seg), dynamic);
    HalvesAreWritten(t.schema, row, seg, declared, dynamic, At(d'.rows, pkey), At(d'.segs, pkey));
    if fields == map[] {
      assert declared == map[] && dynamic == map[];
    } else {
      var nothing: ValueMap := map[];
      assert nothing + nothing == nothing;
      WrittenIsThere(t, declared, row, At(d'.rows, pkey));
    }
  }

  lemma WrittenIsThere(t: Table, declared: ValueMap, row: Option<ValueMap>, row': Option<ValueMap>)
    requires RowIsWritten(t.schema, row', OrEmpty(row), declared) || declared == map[]
    ensures declared != map[] ==> row'.Some?
  {}

  lemma NothingReadsBack()
    ensures ReadBackMap(map[]) == map[]
  {}

  lemma SegWritten(seg: ValueMap, dynamic: ValueMap)
    ensures dynamic == map[] ==> seg + dynamic == seg
    ensures dynamic != map[] ==> seg + dynamic != map[]
    ensures OrEmpty(StoredSeg(seg + dynamic)) == ReadBackMap(seg + dynamic)
    ensures StoredSeg(seg + dynamic).None? <==> seg + dynamic == map[]
  {
    if dynamic != map[] {
      var n :| n in dynamic;
      assert n in seg + dynamic;
    }
  }

  lemma {:induction false} ReplaceMeans(t: Table, d: Docs, pkey: bytes, fields: ValueMap)
    requires WellFormed(t.schema) && NamesDisjoint(t.schema) && Clean(t, d)
    requires Declared(t, fields) != map[] ==> RowBase(t, pkey, Declared(t, fields)).Some?
    ensures DocOf(ReplacedDocs(t, d, pkey, fields), pkey) == Told(t.schema, DocOf(d, pkey), ReplaceV(pkey, fields))
  {
    hide WellFormed, RowBase, NamesDisjoint, PayloadOf, DefaultNamed, PayloadNames, PlanSegment, Declared, Dynamic,
      Written, ReadBackMap, RowIsWritten, Traced;
    SplitIs(t, fields);
    var (declared, dynamic) := (Declared(t, fields), Dynamic(t, fields));
    var d' := ReplacedDocs(t, d, pkey, fields);
    var nothing: ValueMap := map[];
    assert nothing + declared == declared && nothing + dynamic == dynamic && nothing + nothing == nothing;
    if declared != map[] { CarriedIs(t, pkey, nothing, declared); }
    NothingReadsBack();
    SegWritten(nothing, dynamic);
    HalvesAreWritten(t.schema, None, None, declared, dynamic, At(d'.rows, pkey), At(d'.segs, pkey));
    if fields == map[] {
      assert declared == map[] && dynamic == map[];
    } else {
      WrittenIsThere(t, declared, None, At(d'.rows, pkey));
    }
  }

  /** What a verb that succeeds makes of every document. */
  lemma {:induction false} VerbMeans(t: Table, store: Store, d: Docs, verb: Verb, pkey: bytes)
    requires Sane(t) && NamesDisjoint(t.schema) && Healthy(t, store, d) && Clean(t, d) && Perform(t, store, verb).Some?
    ensures DocOf(DocsAfter(t, d, verb), pkey) == if pkey == verb.pkey then Told(t.schema, DocOf(d, pkey), verb) else DocOf(d, pkey)
  {
    SaneIsFormed(t);
    hide Sane, WellFormed, NamesDisjoint, Healthy, Clean, Told, RowBase, PlanSegment, Declared, Dynamic, Traced, Stored,
      StoredSeg, Merge, Replace, Purge;
    OthersStay(t, d, verb, pkey);
    if pkey == verb.pkey {
      match verb {
        case MergeV(p, fields) =>
          MergeHasBase(t, store, d, p, fields);
          MergeMeans(t, d, p, fields);
        case ReplaceV(p, fields) =>
          ReplaceHasBase(t, store, d, p, fields);
          ReplaceMeans(t, d, p, fields);
        case PurgeV(p) => PurgeMeans(t, d, p);
      }
    }
  }

  lemma SaneIsFormed(t: Table)
    requires Sane(t)
    ensures WellFormed(t.schema)
  {
    hide WellFormed, PayloadOnly, LogicPayloadOnly;
  }

  lemma OthersStay(t: Table, d: Docs, verb: Verb, pkey: bytes)
    ensures pkey != verb.pkey ==> DocOf(DocsAfter(t, d, verb), pkey) == DocOf(d, pkey)
  {
    hide RowBase, PlanSegment, Declared, Dynamic, Traced, Stored, StoredSeg;
  }

  lemma PurgeMeans(t: Table, d: Docs, pkey: bytes)
    ensures DocOf(PurgedDocs(t, d, pkey), pkey) == Told(t.schema, DocOf(d, pkey), PurgeV(pkey))
  {
    hide Traced;
  }

  lemma {:induction false} MergeHasBase(t: Table, store: Store, d: Docs, pkey: bytes, fields: ValueMap)
    requires Healthy(t, store, d) && Merge(t, store, pkey, fields).Some?
    ensures Declared(t, fields) != map[] ==> RowBase(t, pkey, OrEmpty(At(d.rows, pkey)) + Declared(t, fields)).Some?
  {
    hide Healthy, PlanRow, PlanSegment, Replay, StoredRow, StoredSegment, RowBase, Declared, Dynamic, At, OrEmpty;
    if |pkey| == t.schema.keyLen { RowIsRead(t, store, d, pkey); }
  }

  lemma {:induction false} ReplaceHasBase(t: Table, store: Store, d: Docs, pkey: bytes, fields: ValueMap)
    requires Healthy(t, store, d) && Replace(t, store, pkey, fields).Some?
    ensures Declared(t, fields) != map[] ==> RowBase(t, pkey, Declared(t, fields)).Some?
  {
    hide Healthy, PlanRow, PlanSegment, Replay, StoredRow, StoredSegment, RowBase, Declared, Dynamic;
  }

  // --- Runs ---

  lemma {:induction false} VerbKeepsClean(t: Table, store: Store, d: Docs, verb: Verb)
    requires Sane(t) && NamesDisjoint(t.schema) && Healthy(t, store, d) && Clean(t, d) && Perform(t, store, verb).Some?
    ensures Clean(t, DocsAfter(t, d, verb))
  {
    SaneIsFormed(t);
    hide *;
    match verb {
      case MergeV(p, fields) =>
        MergeHasBase(t, store, d, p, fields);
        MergeKeepsClean(t, d, p, fields);
        DocsAfterIs(t, d, verb);
      case ReplaceV(p, fields) =>
        ReplaceHasBase(t, store, d, p, fields);
        ReplaceKeepsClean(t, d, p, fields);
        DocsAfterIs(t, d, verb);
      case PurgeV(p) =>
        PurgeKeepsClean(t, d, p);
        DocsAfterIs(t, d, verb);
    }
  }

  lemma DocsAfterIs(t: Table, d: Docs, verb: Verb)
    ensures DocsAfter(t, d, verb)
         == match verb
            case MergeV(p, fields) => MergedDocs(t, d, p, fields)
            case ReplaceV(p, fields) => ReplacedDocs(t, d, p, fields)
            case PurgeV(p) => PurgedDocs(t, d, p)
  {}

  lemma BaseHasKey(t: Table, p: bytes, carried: ValueMap)
    requires RowBase(t, p, carried).Some?
    ensures DecodeKey(t.schema, p).Some?
  {
    hide DecodeKey, FillDefaults;
  }

  lemma RowStaysClean(t: Table, d: Docs, p: bytes, next: Option<ValueMap>)
    requires Clean(t, d)
    requires next.Some? ==> PayloadOf(t.schema, next.value).Keys == PayloadNames(t.schema) && DecodeKey(t.schema, p).Some?
    ensures Clean(t, RowDocs(t, d, p, next))
  {
    hide PayloadOf, PayloadNames, ReadBackMap, Traced, DecodeKey;
  }

  lemma SegStaysClean(t: Table, d: Docs, p: bytes, next: ValueMap)
    requires Clean(t, d) && next.Keys !! PayloadNames(t.schema)
    ensures Clean(t, SegDocs(t, d, p, next))
  {
    SegIsClean(t, next);
    hide PayloadNames, ReadBackMap, PlanSegment, StoredSeg;
  }

  lemma PurgeKeepsClean(t: Table, d: Docs, p: bytes)
    requires Clean(t, d)
    ensures Clean(t, PurgedDocs(t, d, p))
  {
    hide PayloadNames, ReadBackMap, Traced;
  }

  lemma {:induction false} MergeKeepsClean(t: Table, d: Docs, p: bytes, fields: ValueMap)
    requires WellFormed(t.schema) && NamesDisjoint(t.schema) && Clean(t, d)
    requires Declared(t, fields) != map[] ==> RowBase(t, p, OrEmpty(At(d.rows, p)) + Declared(t, fields)).Some?
    ensures Clean(t, MergedDocs(t, d, p, fields))
  {
    SplitIs(t, fields);
    SegNames(t, d, p);
    var (declared, dynamic) := (Declared(t, fields), Dynamic(t, fields));
    hide WellFormed, NamesDisjoint, Clean, RowBase, Declared, Dynamic, PayloadNames, PayloadOf, RowDocs, SegDocs;
    var d' := d;
    if declared != map[] {
      RowWritten(t, p, OrEmpty(At(d.rows, p)) + declared);
      BaseHasKey(t, p, OrEmpty(At(d.rows, p)) + declared);
      RowStaysClean(t, d, p, RowBase(t, p, OrEmpty(At(d.rows, p)) + declared));
      d' := RowDocs(t, d, p, RowBase(t, p, OrEmpty(At(d.rows, p)) + declared));
    }
    if dynamic != map[] { SegStaysClean(t, d', p, OrEmpty(At(d.segs, p)) + dynamic); }
  }

  lemma SegNames(t: Table, d: Docs, p: bytes)
    requires Clean(t, d)
    ensures OrEmpty(At(d.segs, p)).Keys !! PayloadNames(t.schema)
  {
    hide PayloadNames, ReadBackMap;
  }

  lemma {:induction false} ReplaceKeepsClean(t: Table, d: Docs, p: bytes, fields: ValueMap)
    requires WellFormed(t.schema) && NamesDisjoint(t.schema) && Clean(t, d)
    requires Declared(t, fields) != map[] ==> RowBase(t, p, Declared(t, fields)).Some?
    ensures Clean(t, ReplacedDocs(t, d, p, fields))
  {
    SplitIs(t, fields);
    var (declared, dynamic) := (Declared(t, fields), Dynamic(t, fields));
    hide WellFormed, NamesDisjoint, Clean, RowBase, Declared, Dynamic, PayloadNames, PayloadOf, RowDocs, SegDocs;
    var row := if declared == map[] then None else RowBase(t, p, declared);
    if declared != map[] {
      RowWritten(t, p, declared);
      BaseHasKey(t, p, declared);
    }
    RowStaysClean(t, d, p, row);
    SegStaysClean(t, RowDocs(t, d, p, row), p, dynamic);
  }

  lemma SegIsClean(t: Table, next: ValueMap)
    requires next.Keys !! PayloadNames(t.schema)
    ensures StoredSeg(next).Some? ==>
      StoredSeg(next).value.Keys !! PayloadNames(t.schema) && ReadBackMap(StoredSeg(next).value) == StoredSeg(next).value
  {
    hide PayloadNames, ReadBack;
    ReadBackMapTwice(next);
  }

  /** The document under `pkey` after the verbs of a run, told from the verbs and from which of them were refused. */
  function Document(t: Table, verbs: seq<Verb>, states: seq<(Store, Docs)>, n: nat, pkey: bytes): Option<ValueMap>
    requires n <= |verbs| && |states| == |verbs| + 1
  {
    if n == 0 then None
    else
      var before := Document(t, verbs, states, n - 1, pkey);
      if verbs[n - 1].pkey != pkey || Perform(t, states[n - 1].0, verbs[n - 1]).None? then before
      else Told(t.schema, before, verbs[n - 1])
  }

  /** In every state of every run from an empty table, every key gives back exactly the document the verbs told. */
  lemma {:induction false} TableIsAMap(t: Table, verbs: seq<Verb>, states: seq<(Store, Docs)>, n: nat, pkey: bytes)
    requires Sane(t) && NamesDisjoint(t.schema) && IsRun(t, verbs, states) && n <= |verbs|
    requires states[0] == (map[], Docs(map[], map[], NO_NAMES, []))
    ensures Fetch(t, states[n].0, pkey) == if |pkey| == t.schema.keyLen then Some(Document(t, verbs, states, n, pkey)) else None
  {
    hide Sane, NamesDisjoint, Healthy, Perform, DocsAfter, VerbFits, Fetch, DocOf, Clean, Told;
    RunsAreHealthy(t, verbs, states, n);
    FetchIs(t, states[n].0, states[n].1, pkey);
    DocumentIs(t, verbs, states, n, pkey);
  }

  lemma {:induction false} DocumentIs(t: Table, verbs: seq<Verb>, states: seq<(Store, Docs)>, n: nat, pkey: bytes)
    requires Sane(t) && NamesDisjoint(t.schema) && IsRun(t, verbs, states) && n <= |verbs|
    requires states[0] == (map[], Docs(map[], map[], NO_NAMES, []))
    ensures DocOf(states[n].1, pkey) == Document(t, verbs, states, n, pkey) && Clean(t, states[n].1)
    decreases n
  {
    hide Sane, NamesDisjoint, Healthy, Perform, DocsAfter, VerbFits, DocOf, Clean, Told;
    if n == 0 {
      NothingIsClean(t, pkey);
    } else {
      DocumentIs(t, verbs, states, n - 1, pkey);
      RunsAreHealthy(t, verbs, states, n - 1);
      var (store, d) := states[n - 1];
      assert Goes(t, verbs[n - 1], states[n - 1], states[n]);
      if Perform(t, store, verbs[n - 1]).Some? {
        VerbMeans(t, store, d, verbs[n - 1], pkey);
        VerbKeepsClean(t, store, d, verbs[n - 1]);
      }
    }
  }

  lemma NothingIsClean(t: Table, pkey: bytes)
    ensures var d := Docs(map[], map[], NO_NAMES, []); Clean(t, d) && DocOf(d, pkey) == None
  {}
}
