/** What a reduce groups by: the values of its group fields. */
module Groups {
  import opened Bytes
  import opened Store
  import opened Value
  import opened Schema
  import opened Index
  import opened Reduce
  import opened Ledger
  import opened Plan
  import opened Health
  import opened Scans
  import Documents
  import Verbs

  // --- The value of a field ---

  /** The big-endian bytes of a number, the bytes of a blob. */
  function Big(v: Value): bytes {
    match v
    case U8(n) => BE(n, 1)
    case U16(n) => BE(n, 2)
    case U32(n) => BE(n, 4)
    case U64(n) => BE(n, 8)
    case Blob(data) => data
    case _ => []
  }

  /** A key field's value is cut from the key, any other's is the row's. */
  function ValueOf(s: Schema, pkey: bytes, row: ValueMap, name: bytes): Option<Value> {
    if IsKeyField(s, name) then
      var f := FindIn(s.keyFields, name).value;
      if f.offset + f.width <= |pkey| then DecodeFixed(f, pkey[f.offset..f.offset + f.width]) else None
    else if name in row then Some(row[name])
    else None
  }

  function FieldWidth(s: Schema, name: bytes): nat {
    var f := FindIn(if IsKeyField(s, name) then s.keyFields else s.hot + s.cold, name);
    if f.None? then 0 else f.value.width
  }

  function WidthsOf(s: Schema, names: seq<bytes>): nat {
    if names == [] then 0 else FieldWidth(s, names[0]) + WidthsOf(s, names[1..])
  }

  /** A schema and a row as a table holds them. */
  predicate Proper(s: Schema, pkey: bytes, row: ValueMap) {
    WellFormed(s) && NamesDiffer(s.keyFields) && |pkey| == s.keyLen && DecodeKey(s, pkey).Some? && Conforms(s, row)
  }

  lemma {:induction false} KeyPlaces(fields: seq<FieldDef>, at: nat, i: nat)
    requires Contiguous(fields, at) && i < |fields|
    ensures WidthFits(fields[i]) && at <= fields[i].offset && fields[i].offset + fields[i].width <= at + WidthOf(fields)
    decreases |fields|
  {
    if i > 0 { KeyPlaces(fields[1..], at + fields[0].width, i - 1); }
  }

  /** Each field of a key is decoded from its own place. */
  lemma {:induction false} HotFieldIs(fields: seq<FieldDef>, hot: bytes, i: nat)
    requires NamesDiffer(fields) && DecodeHot(fields, hot).Some? && i < |fields|
    requires fields[i].offset + fields[i].width <= |hot|
    ensures var f := fields[i];
      && DecodeFixed(f, hot[f.offset..f.offset + f.width]).Some? && f.name in DecodeHot(fields, hot).value
      && DecodeHot(fields, hot).value[f.name] == DecodeFixed(f, hot[f.offset..f.offset + f.width]).value
    decreases |fields|
  {
    hide DecodeFixed;
    TailsDiffer(fields);
    if i == 0 {
      NotInTail(fields, hot);
    } else {
      assert fields[1..][i - 1] == fields[i];
      HotFieldIs(fields[1..], hot, i - 1);
    }
  }

  lemma {:induction false} NotInTail(fields: seq<FieldDef>, hot: bytes)
    requires fields != [] && NamesDiffer(fields) && DecodeHot(fields[1..], hot).Some?
    ensures fields[0].name !in DecodeHot(fields[1..], hot).value
  {
    hide DecodeFixed;
    Namesakes(fields[1..], hot);
    assert forall i :: 0 <= i < |fields[1..]| ==> fields[1..][i] == fields[i + 1];
  }

  lemma {:induction false} Namesakes(fields: seq<FieldDef>, hot: bytes)
    requires DecodeHot(fields, hot).Some?
    ensures DecodeHot(fields, hot).value.Keys <= NamesOf(fields)
    decreases |fields|
  {
    hide DecodeFixed;
    if fields != [] {
      NamesCons(fields);
      Namesakes(fields[1..], hot);
    }
  }

  lemma {:induction false} KeyFieldIs(s: Schema, pkey: bytes, name: bytes)
    requires WellFormed(s) && NamesDiffer(s.keyFields) && |pkey| == s.keyLen && DecodeKey(s, pkey).Some? && IsKeyField(s, name)
    ensures var f := FindIn(s.keyFields, name).value;
      && f.offset + f.width <= |pkey| && WidthFits(f) && name in KeyOf(s, pkey)
      && Some(KeyOf(s, pkey)[name]) == DecodeFixed(f, pkey[f.offset..f.offset + f.width])
    ensures ValueOf(s, pkey, map[], name) == Some(KeyOf(s, pkey)[name])
  {
    hide DecodeFixed, WidthFits, NamesDiffer, TagsDiffer;
    var f := FindIn(s.keyFields, name).value;
    var i :| 0 <= i < |s.keyFields| && s.keyFields[i] == f;
    KeyPlaces(s.keyFields, 0, i);
    HotFieldIs(s.keyFields, pkey, i);
  }

  /** A decoded value is as wide as its field, and its bytes are the ones it was decoded from. */
  lemma {:induction false} BigOfDecoded(f: FieldDef, raw: bytes)
    requires WidthFits(f) && |raw| == f.width && DecodeFixed(f, raw).Some? && !f.ty.OffsetT?
    ensures FixedIndexImage(f.ty, DecodeFixed(f, raw).value) == Some(raw) && Big(DecodeFixed(f, raw).value) == raw
  {
    hide BE, FromBE;
    BEOfFromBE(raw);
    match f.ty {
      case U8T =>
        OneByte(raw[0]);
        assert raw == [raw[0]];
      case U16T => assert raw[0..2] == raw;
      case U32T => assert raw[0..4] == raw;
      case U64T => assert raw[0..8] == raw;
      case _ =>
    }
  }

  lemma OneByte(n: byte)
    ensures BE(n, 1) == [n]
  {
    assert BE(n, 1) == BE(n / 256, 0) + [n];
  }

  lemma {:induction false} BigOfImage(f: FieldDef, v: Value)
    requires FixedIndexImage(f.ty, v).Some? && FixedImage(f, v).Some? && WidthFits(f)
    ensures FixedIndexImage(f.ty, v) == Some(Big(v)) && |Big(v)| == f.width
  {
    hide BE;
    if v.U8? { OneByte(v.n8); }
  }

  /** The image of a group field is the big-endian image of its value, as wide as the field. */
  lemma {:induction false} OneGroupField(s: Schema, pkey: bytes, row: ValueMap, names: seq<bytes>)
    requires Proper(s, pkey, row) && names != [] && GroupBytes(s, names, KeyOf(s, pkey), row).Some?
    ensures var v := ValueOf(s, pkey, row, names[0]);
      && v.Some? && |Big(v.value)| == FieldWidth(s, names[0]) && GroupBytes(s, names[1..], KeyOf(s, pkey), row).Some?
      && GroupBytes(s, names, KeyOf(s, pkey), row).value == Big(v.value) + GroupBytes(s, names[1..], KeyOf(s, pkey), row).value
  {
    hide FixedIndexImage, DecodeFixed, FixedImage, WidthFits, NamesDiffer, TagsDiffer, Contiguous, WidthOf, KeyOf, Big,
      DecodeKey;
    var name := names[0];
    if IsKeyField(s, name) {
      KeyFieldIs(s, pkey, name);
      var f := FindIn(s.keyFields, name).value;
      NoBiasedImage(f.ty, KeyOf(s, pkey)[name]);
      BigOfDecoded(f, pkey[f.offset..f.offset + f.width]);
    } else {
      PayloadFieldFits(s, row, name);
      BigOfImage(FindIn(s.hot + s.cold, name).value, row[name]);
    }
  }

  lemma NoBiasedImage(ty: FieldKind, v: Value)
    ensures FixedIndexImage(ty, v).Some? ==> !ty.OffsetT?
  {}

  lemma {:induction false} PayloadFieldFits(s: Schema, row: ValueMap, name: bytes)
    requires WellFormed(s) && Conforms(s, row) && FindIn(s.hot + s.cold, name).Some?
    requires name in row && FixedIndexImage(FindIn(s.hot + s.cold, name).value.ty, row[name]).Some?
    ensures var f := FindIn(s.hot + s.cold, name).value; WidthFits(f) && FixedImage(f, row[name]).Some?
  {
    hide FixedImage, WellFormed, WidthFits;
    var f := FindIn(s.hot + s.cold, name).value;
    var i :| 0 <= i < |Payload(s)| && Payload(s)[i] == f;
    assert !f.ty.StrT? && !f.ty.OffsetT?;
    PlainIsHot(s, i);
  }

  lemma PlainIsHot(s: Schema, i: nat)
    requires WellFormed(s) && i < |Payload(s)| && !Payload(s)[i].ty.StrT? && !Payload(s)[i].ty.OffsetT?
    ensures WidthFits(Payload(s)[i])
  {
    HotIsFixed(s.hot, 0);
    hide NamesDiffer, TagsDiffer, WidthOf, Contiguous, WidthFits;
    assert forall j :: 0 <= j < |s.cold| ==> Payload(s)[|s.hot| + j] == s.cold[j];
    if i < |s.hot| { assert Payload(s)[i] == s.hot[i]; }
  }

  /** A field a reduce can group by: declared, and of a kind of fixed width with an image of its own. */
  predicate Groupable(s: Schema, name: bytes) {
    var f := FindIn(if IsKeyField(s, name) then s.keyFields else s.hot + s.cold, name);
    f.Some? && !f.value.ty.StrT? && !f.value.ty.OffsetT?
  }

  lemma {:induction false} PlainHasImage(f: FieldDef, v: Value)
    requires FixedImage(f, v).Some? && !f.ty.OffsetT?
    ensures FixedIndexImage(f.ty, v).Some?
  {
    hide BE;
  }

  lemma {:induction false} DecodedHasImage(f: FieldDef, raw: bytes)
    requires WidthFits(f) && |raw| == f.width && DecodeFixed(f, raw).Some? && !f.ty.OffsetT?
    ensures FixedIndexImage(f.ty, DecodeFixed(f, raw).value).Some?
  {
    hide BE, FromBE;
    BigOfDecoded(f, raw);
  }

  /** A row has a group exactly when every group field can be grouped by. */
  lemma {:induction false} GroupIff(s: Schema, pkey: bytes, row: ValueMap, names: seq<bytes>)
    requires Proper(s, pkey, row)
    ensures GroupBytes(s, names, KeyOf(s, pkey), row).Some? <==> forall i :: 0 <= i < |names| ==> Groupable(s, names[i])
    decreases |names|
  {
    hide FixedIndexImage, DecodeFixed, FixedImage, WidthFits, NamesDiffer, TagsDiffer, Contiguous, WidthOf, KeyOf,
      DecodeKey, Conforms;
    if names != [] {
      GroupIff(s, pkey, row, names[1..]);
      assert forall i :: 0 < i < |names| ==> names[i] == names[1..][i - 1];
      assert forall i :: 0 <= i < |names[1..]| ==> names[1..][i] == names[i + 1];
      FieldHasImage(s, pkey, row, names[0]);
    }
  }

  lemma {:induction false} FieldHasImage(s: Schema, pkey: bytes, row: ValueMap, name: bytes)
    requires Proper(s, pkey, row)
    ensures var fromKey := IsKeyField(s, name);
      var (f, source) := (FindIn(if fromKey then s.keyFields else s.hot + s.cold, name), if fromKey then KeyOf(s, pkey) else row);
      Groupable(s, name) <==> f.Some? && name in source && FixedIndexImage(f.value.ty, source[name]).Some?
  {
    hide DecodeFixed, FixedImage, WidthFits, NamesDiffer, TagsDiffer, Contiguous, WidthOf, KeyOf, DecodeKey;
    var fromKey := IsKeyField(s, name);
    var f := FindIn(if fromKey then s.keyFields else s.hot + s.cold, name);
    if Groupable(s, name) {
      if fromKey {
        KeyFieldIs(s, pkey, name);
        DecodedHasImage(f.value, pkey[f.value.offset..f.value.offset + f.value.width]);
      } else {
        var i :| 0 <= i < |Payload(s)| && Payload(s)[i] == f.value;
        PlainHasImage(f.value, row[name]);
      }
    }
  }

  // --- A group is its values ---

  /** The bytes of a group: field by field the big-endian image of its value, in the order the reduce declares them. */
  lemma {:induction false} GroupIs(s: Schema, pkey: bytes, row: ValueMap, names: seq<bytes>, i: nat)
    requires Proper(s, pkey, row) && GroupBytes(s, names, KeyOf(s, pkey), row).Some? && i < |names|
    ensures var (group, at) := (GroupBytes(s, names, KeyOf(s, pkey), row).value, WidthsOf(s, names[..i]));
      var v := ValueOf(s, pkey, row, names[i]);
      && |group| == WidthsOf(s, names) && v.Some? && at + FieldWidth(s, names[i]) <= |group|
      && group[at..at + FieldWidth(s, names[i])] == Big(v.value)
    decreases |names|
  {
    hide Proper, GroupBytes, KeyOf, ValueOf, FieldWidth, Big;
    OneGroupField(s, pkey, row, names);
    GroupLength(s, pkey, row, names);
    var (first, rest) := (Big(ValueOf(s, pkey, row, names[0]).value), GroupBytes(s, names[1..], KeyOf(s, pkey), row).value);
    if i == 0 {
      assert names[..0] == [];
      assert (first + rest)[..|first|] == first;
    } else {
      GroupIs(s, pkey, row, names[1..], i - 1);
      assert names[..i][0] == names[0] && names[..i][1..] == names[1..][..i - 1] && names[1..][i - 1] == names[i];
      var at := WidthsOf(s, names[1..][..i - 1]);
      SliceOfTail(first, rest, at, FieldWidth(s, names[i]));
    }
  }

  lemma SliceOfTail(first: bytes, rest: bytes, at: nat, w: nat)
    requires at + w <= |rest|
    ensures (first + rest)[|first| + at..|first| + at + w] == rest[at..at + w]
  {}

  lemma {:induction false} GroupLength(s: Schema, pkey: bytes, row: ValueMap, names: seq<bytes>)
    requires Proper(s, pkey, row) && GroupBytes(s, names, KeyOf(s, pkey), row).Some?
    ensures |GroupBytes(s, names, KeyOf(s, pkey), row).value| == WidthsOf(s, names)
    decreases |names|
  {
    if names != [] {
      hide Proper, GroupBytes, KeyOf, ValueOf, FieldWidth, Big;
      OneGroupField(s, pkey, row, names);
      GroupLength(s, pkey, row, names[1..]);
    }
  }

  /** Both rows have the same value in every one of these fields. */
  predicate Agree(s: Schema, names: seq<bytes>, p: bytes, row: ValueMap, q: bytes, other: ValueMap) {
    forall i :: 0 <= i < |names| ==> ValueOf(s, p, row, names[i]) == ValueOf(s, q, other, names[i])
  }

  lemma AgreeCons(s: Schema, names: seq<bytes>, p: bytes, row: ValueMap, q: bytes, other: ValueMap)
    requires names != []
    ensures Agree(s, names, p, row, q, other)
       <==> ValueOf(s, p, row, names[0]) == ValueOf(s, q, other, names[0]) && Agree(s, names[1..], p, row, q, other)
  {
    hide ValueOf;
    assert forall i :: 0 < i < |names| ==> names[i] == names[1..][i - 1];
    assert forall i :: 0 <= i < |names[1..]| ==> names[1..][i] == names[i + 1];
  }

  /** Values of one field's kind are told apart by their bytes. */
  lemma {:induction false} BigTells(s: Schema, names: seq<bytes>, p: bytes, row: ValueMap, q: bytes, other: ValueMap)
    requires Proper(s, p, row) && Proper(s, q, other) && names != []
    requires GroupBytes(s, names, KeyOf(s, p), row).Some? && GroupBytes(s, names, KeyOf(s, q), other).Some?
    ensures var (v, w) := (ValueOf(s, p, row, names[0]), ValueOf(s, q, other, names[0]));
      v.Some? && w.Some? && (Big(v.value) == Big(w.value) <==> v == w)
  {
    KindOfValue(s, names, p, row);
    KindOfValue(s, names, q, other);
    hide *;
    SameKind(KindOf(s, names[0]), ValueOf(s, p, row, names[0]).value, ValueOf(s, q, other, names[0]).value);
  }

  function KindOf(s: Schema, name: bytes): FieldKind {
    var f := FindIn(if IsKeyField(s, name) then s.keyFields else s.hot + s.cold, name);
    if f.None? then StrT else f.value.ty
  }

  lemma {:induction false} KindOfValue(s: Schema, names: seq<bytes>, pkey: bytes, row: ValueMap)
    requires Proper(s, pkey, row) && names != [] && GroupBytes(s, names, KeyOf(s, pkey), row).Some?
    ensures var v := ValueOf(s, pkey, row, names[0]); v.Some? && FixedIndexImage(KindOf(s, names[0]), v.value).Some?
  {
    hide FixedIndexImage, DecodeFixed, WidthFits, NamesDiffer, TagsDiffer, Contiguous, WidthOf, KeyOf, DecodeKey,
      Conforms;
    if IsKeyField(s, names[0]) { KeyFieldIs(s, pkey, names[0]); }
  }

  lemma {:induction false} SameKind(ty: FieldKind, v: Value, w: Value)
    requires FixedIndexImage(ty, v).Some? && FixedIndexImage(ty, w).Some?
    ensures Big(v) == Big(w) <==> v == w
  {
    hide BE, FromBE;
    FixedRoundTrips();
    match v {
      case U8(n) => OneByte(n); OneByte(w.n8);
      case _ =>
    }
  }

  /** Two rows are in one group exactly when they agree on every group field. */
  lemma {:induction false} SameGroup(s: Schema, names: seq<bytes>, p: bytes, row: ValueMap, q: bytes, other: ValueMap)
    requires Proper(s, p, row) && Proper(s, q, other)
    requires GroupBytes(s, names, KeyOf(s, p), row).Some? && GroupBytes(s, names, KeyOf(s, q), other).Some?
    ensures GroupBytes(s, names, KeyOf(s, p), row) == GroupBytes(s, names, KeyOf(s, q), other) <==> Agree(s, names, p, row, q, other)
    decreases |names|
  {
    if names != [] {
      hide Proper, GroupBytes, KeyOf, ValueOf, FieldWidth, Big, Agree;
      OneGroupField(s, p, row, names);
      OneGroupField(s, q, other, names);
      BigTells(s, names, p, row, q, other);
      SameGroup(s, names[1..], p, row, q, other);
      AgreeCons(s, names, p, row, q, other);
      var (a, x) := (Big(ValueOf(s, p, row, names[0]).value), GroupBytes(s, names[1..], KeyOf(s, p), row).value);
      var (b, y) := (Big(ValueOf(s, q, other, names[0]).value), GroupBytes(s, names[1..], KeyOf(s, q), other).value);
      if a + x == b + y {
        assert a == (a + x)[..|a|] == (b + y)[..|b|] == b;
        assert x == (a + x)[|a|..] == (b + y)[|b|..] == y;
      }
    }
  }

  // --- Counts ---

  /** The stored rows that agree with this one on the group fields. */
  function Alike(s: Schema, names: seq<bytes>, rows: Rows, pkey: bytes, row: ValueMap): set<bytes> {
    set q | q in rows && Agree(s, names, q, rows[q], pkey, row)
  }

  lemma {:induction false} RowsAreProper(t: Table, store: Store, d: Docs, p: bytes)
    requires Sane(t) && Healthy(t, store, d) && NamesDiffer(t.schema.keyFields) && p in d.rows && DecodeKey(t.schema, p).Some?
    ensures Proper(t.schema, p, d.rows[p])
  {
    assert RowTells(t, store, p, At(d.rows, p));
    assert WellFormed(t.schema);
    hide Sane, Healthy, WellFormed, EncodePayload, DecodePayload, EntriesOfRow, DecodeKey, Conforms, NamesDiffer;
    EncodedConforms(t.schema, d.rows[p]);
  }

  lemma {:induction false} MembersAreAlike(t: Table, store: Store, d: Docs, i: nat, pkey: bytes, row: ValueMap)
    requires Sane(t) && Healthy(t, store, d) && i < |t.reduces| && Proper(t.schema, pkey, row)
    requires GroupOf(t.schema, t.reduces[i], pkey, row).Some? && forall p :: p in d.rows ==> DecodeKey(t.schema, p).Some?
    ensures Members(t.schema, t.reduces[i], d.rows, GroupOf(t.schema, t.reduces[i], pkey, row).value)
         == Alike(t.schema, t.reduces[i].groupFields, d.rows, pkey, row)
  {
    GroupsThere(t, store, d, i);
    hide Sane, Healthy, GroupBytes, KeyOf, Agree, DecodeKey, Conforms, WellFormed;
    forall q | q in d.rows
      ensures GroupOf(t.schema, t.reduces[i], q, d.rows[q]) == GroupOf(t.schema, t.reduces[i], pkey, row)
         <==> Agree(t.schema, t.reduces[i].groupFields, q, d.rows[q], pkey, row)
    {
      RowsAreProper(t, store, d, q);
      SameGroup(t.schema, t.reduces[i].groupFields, q, d.rows[q], pkey, row);
    }
  }

  lemma GroupsThere(t: Table, store: Store, d: Docs, i: nat)
    requires Healthy(t, store, d) && i < |t.reduces|
    ensures forall p :: p in d.rows ==> GroupOf(t.schema, t.reduces[i], p, d.rows[p]).Some?
  {
    hide RowsTell, SegsTell, VocabTells, FacesTell, GroupOf, Exact, Remembers;
    assert Tells(t.schema, t.ns, t.reduces[i], store, d.rows, d.trace);
  }

  /** A count's accumulator under the group of a row, stored or not, is the number of stored rows that have the row's
      values in the group fields. */
  lemma {:induction false} CountIsByValue(t: Table, store: Store, d: Docs, i: nat, pkey: bytes, row: ValueMap)
    requires Sane(t) && Healthy(t, store, d) && i < |t.reduces| && t.reduces[i].logic == Count()
    requires Proper(t.schema, pkey, row) && GroupOf(t.schema, t.reduces[i], pkey, row).Some?
    requires |d.rows| < U64_END && forall p :: p in d.rows ==> DecodeKey(t.schema, p).Some?
    ensures var n := |Alike(t.schema, t.reduces[i].groupFields, d.rows, pkey, row)|;
      match Get(store, Key(t.ns, t.reduces[i].slot, GroupOf(t.schema, t.reduces[i], pkey, row).value))
      case None => n == 0
      case Some(acc) => n < U64_END && acc == BE(n, 8)
  {
    hide Sane, Healthy, GroupOf, Key, Agree, DecodeKey, Proper, Count, BE;
    MembersAreAlike(t, store, d, i, pkey, row);
    Fewer(Alike(t.schema, t.reduces[i].groupFields, d.rows, pkey, row), d.rows.Keys);
    assert |d.rows.Keys| == |d.rows|;
    CountIsExact(t, store, d, i, GroupOf(t.schema, t.reduces[i], pkey, row).value);
  }

  /** In every state of every run a count's accumulator is the number of stored rows that have the row's values in the
      group fields. */
  lemma {:induction false} CountsInRuns(t: Table, verbs: seq<Verbs.Verb>, states: seq<(Store, Docs)>, n: nat, i: nat,
      pkey: bytes, row: ValueMap)
    requires Sane(t) && Verbs.NamesDisjoint(t.schema) && NamesDiffer(t.schema.keyFields) && Verbs.IsRun(t, verbs, states)
    requires n <= |verbs| && states[0] == (map[], Docs(map[], map[], NO_NAMES, [])) && |states[n].1.rows| < U64_END
    requires i < |t.reduces| && t.reduces[i].logic == Count()
    requires Proper(t.schema, pkey, row) && GroupOf(t.schema, t.reduces[i], pkey, row).Some?
    ensures var (store, d) := states[n];
      var alike := |Alike(t.schema, t.reduces[i].groupFields, d.rows, pkey, row)|;
      match Get(store, Key(t.ns, t.reduces[i].slot, GroupOf(t.schema, t.reduces[i], pkey, row).value))
      case None => alike == 0
      case Some(acc) => alike < U64_END && acc == BE(alike, 8)
  {
    RunLength(t, verbs, states);
    hide *;
    Verbs.RunsAreHealthy(t, verbs, states, n);
    Documents.DocumentIs(t, verbs, states, n, pkey);
    KeysDecode(t, states[n].1);
    CountIsByValue(t, states[n].0, states[n].1, i, pkey, row);
  }

  lemma RunLength(t: Table, verbs: seq<Verbs.Verb>, states: seq<(Store, Docs)>)
    requires Verbs.IsRun(t, verbs, states)
    ensures |states| == |verbs| + 1
  {
    hide Verbs.Goes;
  }

  lemma KeysDecode(t: Table, d: Docs)
    requires Documents.Clean(t, d)
    ensures forall p :: p in d.rows ==> DecodeKey(t.schema, p).Some?
  {
    hide DecodeKey, ReadBackMap;
  }

  lemma Fewer(a: set<bytes>, b: set<bytes>)
    requires a <= b
    ensures |a| <= |b|
  {
    assert b == a + (b - a);
  }
}
