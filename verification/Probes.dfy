/** What an index scan asks for: documents by the values of their fields. */
module Probes {
  import opened Bytes
  import opened Store
  import opened Value
  import opened Schema
  import opened Index
  import opened Plan
  import opened Health
  import opened Scans
  import G = Groups
  import Order
  import Path

  // --- The bytes of a segment ---

  /** A number's big-endian bytes, a blob's bytes, a text's bytes. */
  function ImageOf(v: Value): bytes { if v.Str? then v.text else G.Big(v) }

  function Joined(images: seq<bytes>): bytes { if images == [] then [] else images[0] + Joined(images[1..]) }

  /** The values of these fields, in this order. */
  function ValuesOf(row: ValueMap, names: seq<bytes>): seq<bytes>
    requires forall i :: 0 <= i < |names| ==> names[i] in row
  {
    seq(|names|, i requires 0 <= i < |names| => ImageOf(row[names[i]]))
  }

  /** A field an index can have: of the payload, and of a kind with an image of its own. */
  predicate Indexable(s: Schema, name: bytes) {
    !IsKeyField(s, name) && FindField(s, name).Some? && !FindField(s, name).value.ty.OffsetT?
  }

  predicate AllIndexable(s: Schema, names: seq<bytes>) { forall i :: 0 <= i < |names| ==> Indexable(s, names[i]) }

  lemma {:induction false} OneImage(s: Schema, row: ValueMap, name: bytes)
    requires WellFormed(s) && Conforms(s, row) && !IsKeyField(s, name) && FindField(s, name).Some?
    ensures name in row
    ensures IndexImage(FindField(s, name).value, row[name])
         == if FindField(s, name).value.ty.OffsetT? then None else Some(ImageOf(row[name]))
    ensures var f := FindField(s, name).value; f.width != 0 && !f.ty.OffsetT? ==> |ImageOf(row[name])| == f.width
  {
    FieldOfName(s, row, name);
    hide WellFormed, Conforms, IsKeyField, FindField;
    var f := FindField(s, name).value;
    hide BE;
    if !f.ty.StrT? && !f.ty.OffsetT? { G.BigOfImage(f, row[name]); }
  }

  /** A row that conforms has a segment exactly when every field is indexable and only the last is of variable width; it
      is the values' images one after the other, in the declared order. */
  lemma {:induction false} SegmentIs(s: Schema, row: ValueMap, names: seq<bytes>)
    requires WellFormed(s) && Conforms(s, row)
    ensures Images(s, names, row).Some? <==> AllIndexable(s, names)
    ensures AllIndexable(s, names) ==>
      (forall i :: 0 <= i < |names| ==> names[i] in row) && Images(s, names, row) == Some(Joined(ValuesOf(row, names)))
    decreases |names|
  {
    hide WellFormed, Conforms, IsKeyField, FindField, IndexImage, ImageOf;
    if names != [] {
      SegmentIs(s, row, names[1..]);
      assert forall i :: 0 <= i < |names[1..]| ==> names[1..][i] == names[i + 1];
      assert forall i :: 0 < i < |names| ==> names[i] == names[1..][i - 1];
      if !IsKeyField(s, names[0]) && FindField(s, names[0]).Some? { OneImage(s, row, names[0]); }
      if AllIndexable(s, names) {
        assert Indexable(s, names[0]) && AllIndexable(s, names[1..]);
        assert ValuesOf(row, names)[1..] == ValuesOf(row, names[1..]);
      } else if Indexable(s, names[0]) {
        assert !AllIndexable(s, names[1..]);
      }
    }
  }

  /** Both maps hold the same values under these names. */
  predicate SameValues(names: seq<bytes>, a: ValueMap, b: ValueMap) {
    forall i :: 0 <= i < |names| ==> names[i] in a && names[i] in b && a[names[i]] == b[names[i]]
  }

  /** Rows with one segment hold the same values. */
  lemma {:induction false} SegmentTells(s: Schema, names: seq<bytes>, a: ValueMap, b: ValueMap)
    requires WellFormed(s) && Conforms(s, a) && Conforms(s, b) && OrderFits(s, names)
    requires Images(s, names, a).Some? && Images(s, names, b).Some?
    ensures Images(s, names, a) == Images(s, names, b) <==> SameValues(names, a, b)
  {
    hide WellFormed, Conforms, IsKeyField, FindField, Images, OrderFits, DecodeIncludes;
    SegmentIs(s, a, names);
    SegmentIs(s, b, names);
    if SameValues(names, a, b) { assert ValuesOf(a, names) == ValuesOf(b, names); }
    if Images(s, names, a) == Images(s, names, b) {
      IncludesReadBack(s, names, a);
      IncludesReadBack(s, names, b);
      RestrictTells(names, a, b);
    }
  }

  lemma RestrictTells(names: seq<bytes>, a: ValueMap, b: ValueMap)
    requires Restrict(a, Order.Elements(names)) == Restrict(b, Order.Elements(names))
    requires forall i :: 0 <= i < |names| ==> names[i] in a && names[i] in b
    ensures SameValues(names, a, b)
  {
    forall i | 0 <= i < |names| ensures a[names[i]] == b[names[i]] {
      assert names[i] in Order.Elements(names);
      assert a[names[i]] == Restrict(a, Order.Elements(names))[names[i]] == b[names[i]];
    }
  }

  // --- Exact scans ---

  /** The method indexes the row: it is unconditional, or its predicate says so. */
  predicate Indexes(m: AccessMethod, row: ValueMap) { m.kind.Plain? || (m.kind.Partial? && m.kind.admits(row) == Some(true)) }

  lemma {:induction false} RowConforms(t: Table, store: Store, d: Docs, p: bytes)
    requires Sane(t) && Healthy(t, store, d) && p in d.rows
    ensures WellFormed(t.schema) && Conforms(t.schema, d.rows[p]) && EntriesOfRow(t, p, At(d.rows, p)).Some?
  {
    assert RowTells(t, store, p, At(d.rows, p));
    hide Healthy, EncodePayload, DecodePayload, EntriesOfRow, Conforms;
    assert WellFormed(t.schema);
    EncodedConforms(t.schema, d.rows[p]);
  }

  lemma {:induction false} MethodHasEntries(s: Schema, ns: bytes, methods: seq<AccessMethod>, pkey: bytes,
      row: ValueMap, i: nat)
    requires IndexEntries(s, ns, methods, pkey, row).Some? && i < |methods|
    ensures MethodEntries(s, ns, methods[i], pkey, row).Some?
    decreases |methods|
  {
    hide MethodEntries;
    if i > 0 { MethodHasEntries(s, ns, methods[1..], pkey, row, i - 1); }
  }

  /** What a plain or partial method has of a stored row: the one segment of its declared fields, if it indexes the row. */
  lemma {:induction false} RowSegments(t: Table, store: Store, d: Docs, i: nat, pkey: bytes)
    requires Sane(t) && Healthy(t, store, d) && i < |t.methods| && (t.methods[i].kind.Plain? || t.methods[i].kind.Partial?)
    ensures pkey in d.rows && Indexes(t.methods[i], d.rows[pkey]) ==> OrderedImages(t.schema, t.methods[i].fields, d.rows[pkey]).Some?
    ensures var m := t.methods[i];
      SegmentsUnder(t, d, m, pkey) ==
        if pkey in d.rows && Indexes(m, d.rows[pkey]) then [OrderedImages(t.schema, m.fields, d.rows[pkey]).value] else []
  {
    if pkey in d.rows {
      RowConforms(t, store, d, pkey);
      MethodHasEntries(t.schema, t.ns, t.methods, pkey, d.rows[pkey], i);
    }
    hide Sane, Healthy, OrderedImages, IndexEntries, EntriesOf, WellFormed, Conforms;
  }

  lemma ScanFits(t: Table, store: Store, m: AccessMethod, probe: bytes, exact: bool)
    ensures Scan(t, store, m, probe, exact).Some? <==> ProbeFits(t, m, probe)
  {
    hide ProbeFits;
  }

  /** A segment found on a face decodes, by the method's fields, to the row's own values of them. */
  lemma {:induction false} SegmentDecodes(t: Table, store: Store, d: Docs, i: nat, segment: bytes, pkey: bytes)
    requires Sane(t) && Healthy(t, store, d) && i < |t.methods| && (t.methods[i].kind.Plain? || t.methods[i].kind.Partial?)
    requires |pkey| == t.schema.keyLen && Key(t.ns, t.methods[i].slot, segment + pkey) in store
    ensures pkey in d.rows && Indexes(t.methods[i], d.rows[pkey])
    ensures DecodeIncludes(t.schema, t.methods[i].fields, segment) == Some(Restrict(d.rows[pkey], Order.Elements(t.methods[i].fields)))
  {
    hide *;
    FaceHasSegment(t, store, d, i, segment, pkey);
    RowSegments(t, store, d, i, pkey);
    RowConforms(t, store, d, pkey);
    OrderedIs(t.schema, t.methods[i].fields, d.rows[pkey]);
    IncludesReadBack(t.schema, t.methods[i].fields, d.rows[pkey]);
  }

  /** A scan by a plain or partial method finds a row by the one segment it has. */
  lemma {:induction false} RowHit(t: Table, store: Store, d: Docs, i: nat, probe: bytes, exact: bool, pkey: bytes)
    requires Sane(t) && Healthy(t, store, d) && i < |t.methods| && (t.methods[i].kind.Plain? || t.methods[i].kind.Partial?)
    requires Scan(t, store, t.methods[i], probe, exact).Some?
    ensures var (m, hits) := (t.methods[i], Scan(t, store, t.methods[i], probe, exact).value);
      pkey in hits <==>
        && |pkey| == t.schema.keyLen && pkey in d.rows && Indexes(m, d.rows[pkey])
        && OrderedImages(t.schema, m.fields, d.rows[pkey]).Some?
        && var segment := OrderedImages(t.schema, m.fields, d.rows[pkey]).value; if exact then segment == probe else probe <= segment
  {
    hide *;
    ScanFits(t, store, t.methods[i], probe, exact);
    ScanIsFilter(t, store, d, i, probe, exact, pkey);
    RowSegments(t, store, d, i, pkey);
    OneOrNone(SegmentsUnder(t, d, t.methods[i], pkey), probe, exact);
  }

  /** Of at most one segment. */
  lemma OneOrNone(segments: seq<bytes>, probe: bytes, exact: bool)
    requires |segments| <= 1
    ensures (exists segment :: segment in segments && if exact then segment == probe else probe <= segment)
       <==> |segments| == 1 && if exact then segments[0] == probe else probe <= segments[0]
  {
    if |segments| == 1 { assert segments[0] in segments; }
  }

  lemma OrderedIs(s: Schema, names: seq<bytes>, row: ValueMap)
    ensures OrderedImages(s, names, row).Some? ==> OrderFits(s, names) && OrderedImages(s, names, row) == Images(s, names, row)
  {
    hide Images, OrderFits;
  }

  /** An exact scan for the values `row` has in the declared fields finds exactly the keys of the rows that have these
      values and that the method indexes. */
  lemma {:induction false} ExactScanIsByValue(t: Table, store: Store, d: Docs, i: nat, row: ValueMap, pkey: bytes)
    requires Sane(t) && Healthy(t, store, d) && i < |t.methods| && (t.methods[i].kind.Plain? || t.methods[i].kind.Partial?)
    requires Conforms(t.schema, row) && OrderedImages(t.schema, t.methods[i].fields, row).Some?
    requires Scan(t, store, t.methods[i], OrderedImages(t.schema, t.methods[i].fields, row).value, true).Some?
    ensures var m := t.methods[i];
      pkey in Scan(t, store, m, OrderedImages(t.schema, m.fields, row).value, true).value
      <==> |pkey| == t.schema.keyLen && pkey in d.rows && Indexes(m, d.rows[pkey]) && SameValues(m.fields, row, d.rows[pkey])
  {
    hide *;
    var m := t.methods[i];
    RowHit(t, store, d, i, OrderedImages(t.schema, m.fields, row).value, true, pkey);
    OrderedIs(t.schema, m.fields, row);
    if pkey in d.rows && Indexes(m, d.rows[pkey]) {
      RowConforms(t, store, d, pkey);
      OrderedIs(t.schema, m.fields, d.rows[pkey]);
      HasSegment(t, store, d, i, pkey);
      SegmentTells(t.schema, m.fields, row, d.rows[pkey]);
    }
  }

  lemma {:induction false} HasSegment(t: Table, store: Store, d: Docs, i: nat, pkey: bytes)
    requires Sane(t) && Healthy(t, store, d) && i < |t.methods| && (t.methods[i].kind.Plain? || t.methods[i].kind.Partial?)
    requires pkey in d.rows && Indexes(t.methods[i], d.rows[pkey])
    ensures OrderedImages(t.schema, t.methods[i].fields, d.rows[pkey]).Some?
  {
    hide *;
    RowSegments(t, store, d, i, pkey);
  }

  // --- Prefix scans ---

  /** The leading `k` fields are of fixed width. */
  predicate FixedFront(s: Schema, names: seq<bytes>, k: nat) {
    k <= |names| && forall i :: 0 <= i < k ==> FindField(s, names[i]).Some? && FindField(s, names[i]).value.width != 0
  }

  lemma {:induction false} FrontTells(s: Schema, names: seq<bytes>, k: nat, a: ValueMap, b: ValueMap)
    requires WellFormed(s) && Conforms(s, a) && Conforms(s, b) && FixedFront(s, names, k) && AllIndexable(s, names)
    ensures forall i :: 0 <= i < |names| ==> names[i] in a && names[i] in b
    ensures Joined(ValuesOf(a, names[..k])) <= Joined(ValuesOf(b, names)) <==> SameImages(names[..k], a, b)
    decreases k
  {
    FrontLength(s, names, k);
    hide *;
    SegmentIs(s, a, names);
    SegmentIs(s, b, names);
    if k > 0 {
      TailFits(s, names, k);
      FrontTells(s, names[1..], k - 1, a, b);
      WideAlike(s, a, b, names[0]);
      FrontStep(names, k, a, b);
    } else {
      assert names[..0] == [];
      NothingJoined(a);
      NothingDiffers(a, b);
    }
  }

  /** One field more in front. */
  lemma FrontStep(names: seq<bytes>, k: nat, a: ValueMap, b: ValueMap)
    requires 0 < k <= |names| && forall i :: 0 <= i < |names| ==> names[i] in a && names[i] in b
    requires |ImageOf(a[names[0]])| == |ImageOf(b[names[0]])|
    requires forall i :: 0 <= i < |names[1..]| ==> names[1..][i] in a && names[1..][i] in b
    requires Joined(ValuesOf(a, names[1..][..k - 1])) <= Joined(ValuesOf(b, names[1..])) <==> SameImages(names[1..][..k - 1], a, b)
    ensures Joined(ValuesOf(a, names[..k])) <= Joined(ValuesOf(b, names)) <==> SameImages(names[..k], a, b)
  {
    hide ImageOf, Joined, ValuesOf, SameImages;
    assert names[..k][1..] == names[1..][..k - 1] && names[..k][0] == names[0];
    JoinedFront(a, names[..k]);
    JoinedFront(b, names);
    PrefixCons(ImageOf(a[names[0]]), Joined(ValuesOf(a, names[1..][..k - 1])), ImageOf(b[names[0]]), Joined(ValuesOf(b, names[1..])));
    SameImagesCons(names[..k], a, b);
  }

  /** Both maps have the same images under these names. */
  predicate SameImages(names: seq<bytes>, a: ValueMap, b: ValueMap) {
    forall i :: 0 <= i < |names| && names[i] in a && names[i] in b ==> ImageOf(a[names[i]]) == ImageOf(b[names[i]])
  }

  lemma SameImagesCons(names: seq<bytes>, a: ValueMap, b: ValueMap)
    requires names != [] && names[0] in a && names[0] in b
    ensures SameImages(names, a, b) <==> ImageOf(a[names[0]]) == ImageOf(b[names[0]]) && SameImages(names[1..], a, b)
  {
    hide ImageOf;
    assert forall i :: 0 < i < |names| ==> names[i] == names[1..][i - 1];
    assert forall i :: 0 <= i < |names[1..]| ==> names[1..][i] == names[i + 1];
  }

  lemma NothingDiffers(a: ValueMap, b: ValueMap)
    ensures SameImages([], a, b)
  {}

  lemma TailFits(s: Schema, names: seq<bytes>, k: nat)
    requires k > 0 && FixedFront(s, names, k) && AllIndexable(s, names)
    ensures FixedFront(s, names[1..], k - 1) && AllIndexable(s, names[1..])
    ensures Indexable(s, names[0]) && FindField(s, names[0]).Some? && FindField(s, names[0]).value.width != 0
  {
    hide Indexable, FindField;
    assert forall i :: 0 <= i < |names[1..]| ==> names[1..][i] == names[i + 1];
  }

  lemma NothingJoined(a: ValueMap)
    ensures Joined(ValuesOf(a, [])) == []
  {}

  lemma JoinedFront(a: ValueMap, names: seq<bytes>)
    requires names != [] && forall i :: 0 <= i < |names| ==> names[i] in a
    ensures Joined(ValuesOf(a, names)) == ImageOf(a[names[0]]) + Joined(ValuesOf(a, names[1..]))
  {
    hide ImageOf;
    assert ValuesOf(a, names)[1..] == ValuesOf(a, names[1..]);
  }

  lemma WideAlike(s: Schema, a: ValueMap, b: ValueMap, name: bytes)
    requires WellFormed(s) && Conforms(s, a) && Conforms(s, b) && Indexable(s, name) && FindField(s, name).value.width != 0
    ensures name in a && name in b && |ImageOf(a[name])| == |ImageOf(b[name])|
  {
    hide WellFormed, Conforms, IsKeyField, FindField, ImageOf, IndexImage;
    OneImage(s, a, name);
    OneImage(s, b, name);
  }

  lemma PrefixCons(a: bytes, x: bytes, b: bytes, y: bytes)
    requires |a| == |b|
    ensures a + x <= b + y <==> a == b && x <= y
  {
    if a + x <= b + y {
      assert a == (a + x)[..|a|] == (b + y)[..|a|] == b;
      assert x == (a + x)[|a|..] && y == (b + y)[|b|..];
      assert (b + y)[..|a + x|] == a + x;
      assert y[..|x|] == (b + y)[|b|..|b| + |x|] == x;
    }
    if a == b && x <= y { assert (b + y)[..|a + x|] == a + y[..|x|]; }
  }

  lemma ImagesTell(s: Schema, name: bytes, a: ValueMap, b: ValueMap)
    requires WellFormed(s) && Conforms(s, a) && Conforms(s, b) && Indexable(s, name)
    ensures name in a && name in b && (ImageOf(a[name]) == ImageOf(b[name]) <==> a[name] == b[name])
  {
    FieldOfName(s, a, name);
    FieldOfName(s, b, name);
    hide WellFormed, Conforms, IsKeyField, FindField, BE;
    var f := FindField(s, name).value;
    if !f.ty.StrT? {
      G.BigOfImage(f, a[name]);
      G.BigOfImage(f, b[name]);
      G.SameKind(f.ty, a[name], b[name]);
    }
  }

  /** A prefix scan for the values of the first `k` declared fields, all of fixed width, finds exactly the keys of the
      indexed rows that have these values. */
  lemma {:induction false} PrefixScanIsByValue(t: Table, store: Store, d: Docs, i: nat, k: nat, row: ValueMap,
      pkey: bytes)
    requires Sane(t) && Healthy(t, store, d) && i < |t.methods| && (t.methods[i].kind.Plain? || t.methods[i].kind.Partial?)
    requires Conforms(t.schema, row) && FixedFront(t.schema, t.methods[i].fields, k) && AllIndexable(t.schema, t.methods[i].fields)
    requires forall j :: 0 <= j < k ==> t.methods[i].fields[j] in row
    requires Scan(t, store, t.methods[i], Joined(ValuesOf(row, t.methods[i].fields[..k])), false).Some?
    ensures var m := t.methods[i];
      pkey in Scan(t, store, m, Joined(ValuesOf(row, m.fields[..k])), false).value
      <==> |pkey| == t.schema.keyLen && pkey in d.rows && Indexes(m, d.rows[pkey]) && SameValues(m.fields[..k], row, d.rows[pkey])
  {
    hide *;
    var m := t.methods[i];
    FrontLength(t.schema, m.fields, k);
    RowHit(t, store, d, i, Joined(ValuesOf(row, m.fields[..k])), false, pkey);
    if pkey in d.rows && Indexes(m, d.rows[pkey]) {
      RowConforms(t, store, d, pkey);
      HasSegment(t, store, d, i, pkey);
      OrderedIs(t.schema, m.fields, d.rows[pkey]);
      SegmentIs(t.schema, d.rows[pkey], m.fields);
      FrontTells(t.schema, m.fields, k, row, d.rows[pkey]);
      FrontValues(t.schema, m.fields, k, row, d.rows[pkey]);
    }
  }

  lemma FrontValues(s: Schema, names: seq<bytes>, k: nat, a: ValueMap, b: ValueMap)
    requires WellFormed(s) && Conforms(s, a) && Conforms(s, b) && k <= |names| && AllIndexable(s, names)
    requires forall j :: 0 <= j < |names| ==> names[j] in a && names[j] in b
    ensures SameImages(names[..k], a, b) <==> SameValues(names[..k], a, b)
  {
    hide WellFormed, Conforms, Indexable, ImageOf;
    forall j | 0 <= j < k ensures ImageOf(a[names[j]]) == ImageOf(b[names[j]]) <==> a[names[j]] == b[names[j]] {
      ImagesTell(s, names[j], a, b);
    }
    assert forall j :: 0 <= j < k ==> names[..k][j] == names[j];
  }

  lemma FrontLength(s: Schema, names: seq<bytes>, k: nat)
    requires FixedFront(s, names, k)
    ensures k <= |names| && forall j :: 0 <= j < k ==> names[..k][j] == names[j]
  {}

  // --- Callables and paths ---

  /** A scan by a callable finds a row under exactly the segments the callable derives from it. */
  lemma {:induction false} FuncScanIs(t: Table, store: Store, d: Docs, i: nat, probe: bytes, pkey: bytes)
    requires Sane(t) && Healthy(t, store, d) && i < |t.methods| && t.methods[i].kind.Func?
    requires Scan(t, store, t.methods[i], probe, true).Some?
    ensures pkey in Scan(t, store, t.methods[i], probe, true).value
       <==> |pkey| == t.schema.keyLen && pkey in d.rows && t.methods[i].kind.derive(d.rows[pkey]).Some?
            && probe in t.methods[i].kind.derive(d.rows[pkey]).value
  {
    ScanFits(t, store, t.methods[i], probe, true);
    hide Sane, Healthy, Scan, ProbeFits;
    ScanIsFilter(t, store, d, i, probe, true, pkey);
    FuncSegments(t, store, d, i, pkey);
  }

  lemma FuncSegments(t: Table, store: Store, d: Docs, i: nat, pkey: bytes)
    requires i < |t.methods| && t.methods[i].kind.Func?
    ensures SegmentsUnder(t, d, t.methods[i], pkey)
         == if pkey in d.rows && t.methods[i].kind.derive(d.rows[pkey]).Some? then t.methods[i].kind.derive(d.rows[pkey]).value else []
  {}

  /** The bytes a path index keeps of a value: an unsigned number of any width at the declared width, if it fits; a text
      or a blob as it is; of every other value nothing. */
  lemma {:induction false} PathImageIs(ty: FieldKind, v: Value)
    ensures PathImage(ty, v) == PathBytes(ty, v)
  {
    Pow256Values();
    hide BE, Pow256;
    if Unsigned(v).Some? && ty.U8T? && Unsigned(v).value < 256 { G.OneByte(Unsigned(v).value); }
  }

  function NumberWidth(ty: FieldKind): nat { match ty case U8T => 1 case U16T => 2 case U32T => 4 case U64T => 8 case _ => 0 }

  function PathBytes(ty: FieldKind, v: Value): Option<bytes> {
    if NumberWidth(ty) > 0 then
      if Unsigned(v).Some? && Unsigned(v).value < Pow256(NumberWidth(ty)) then Some(BE(Unsigned(v).value, NumberWidth(ty))) else None
    else if ty.StrT? && v.Str? then Some(v.text)
    else if ty.FixedT? && v.Blob? then Some(v.data)
    else None
  }

  lemma {:induction false} SegmentOfValue(ty: FieldKind, values: seq<Value>, segment: bytes)
    ensures segment in PathSegments(ty, values) <==> exists v :: v in values && PathImage(ty, v) == Some(segment)
    decreases |values|
  {
    hide PathImage;
    if values != [] {
      SegmentOfValue(ty, values[1..], segment);
      assert values == [values[0]] + values[1..];
    }
  }

  /** A scan by a path finds a document exactly when the path reaches a value with these bytes in it. */
  lemma {:induction false} PathScanIs(t: Table, store: Store, d: Docs, i: nat, probe: bytes, pkey: bytes)
    requires Sane(t) && Healthy(t, store, d) && i < |t.methods| && t.methods[i].kind.ByPath?
    requires Scan(t, store, t.methods[i], probe, true).Some?
    ensures pkey in Scan(t, store, t.methods[i], probe, true).value
       <==> |pkey| == t.schema.keyLen && pkey in d.segs
            && exists v :: v in Path.ResolvePath(d.segs[pkey], t.methods[i].kind.path) && PathImage(t.methods[i].kind.ty, v) == Some(probe)
  {
    hide *;
    var m := t.methods[i];
    ScanFits(t, store, m, probe, true);
    ScanIsFilter(t, store, d, i, probe, true, pkey);
    PathSegmentsAre(t, d, m, pkey);
    IsThere(SegmentsUnder(t, d, m, pkey), probe);
    if pkey in d.segs { SegmentOfValue(m.kind.ty, Path.ResolvePath(d.segs[pkey], m.kind.path), probe); }
  }

  lemma PathSegmentsAre(t: Table, d: Docs, m: AccessMethod, pkey: bytes)
    requires m.kind.ByPath?
    ensures SegmentsUnder(t, d, m, pkey)
         == if pkey in d.segs then PathSegments(m.kind.ty, Path.ResolvePath(d.segs[pkey], m.kind.path)) else []
  {}

  lemma IsThere(segments: seq<bytes>, probe: bytes)
    ensures (exists segment :: segment in segments && if true then segment == probe else probe <= segment) <==> probe in segments
  {}

  // --- Which probes are taken ---

  function WidthSum(s: Schema, names: seq<bytes>, k: nat): nat
    requires FixedFront(s, names, k)
  {
    if k == 0 then 0 else WidthSum(s, names, k - 1) + FindField(s, names[k - 1]).value.width
  }

  lemma {:induction false} HeadWidthIs(s: Schema, names: seq<bytes>, k: nat)
    requires FixedFront(s, names, k)
    ensures WidthSum(s, names, k) <= HeadWidth(s, names)
    ensures (k == |names| || FindField(s, names[k]).None? || FindField(s, names[k]).value.width == 0)
            ==> WidthSum(s, names, k) == HeadWidth(s, names)
    decreases |names|
  {
    hide FindField;
    if k > 0 {
      assert FixedFront(s, names[1..], k - 1) by { assert forall i :: 0 <= i < k - 1 ==> names[1..][i] == names[i + 1]; }
      if k < |names| { assert names[1..][k - 1] == names[k]; }
      HeadWidthIs(s, names[1..], k - 1);
      WidthSumCons(s, names, k);
    }
  }

  lemma {:induction false} WidthSumCons(s: Schema, names: seq<bytes>, k: nat)
    requires k > 0 && FixedFront(s, names, k) && FixedFront(s, names[1..], k - 1)
    ensures WidthSum(s, names, k) == FindField(s, names[0]).value.width + WidthSum(s, names[1..], k - 1)
    decreases k
  {
    hide FindField;
    if k > 1 {
      WidthSumCons(s, names, k - 1);
      assert names[1..][k - 2] == names[k - 1];
    }
  }

  /** Where the fixed-width fields in front end. */
  function FrontEnd(s: Schema, names: seq<bytes>, k: nat): (n: nat)
    requires FixedFront(s, names, k)
    ensures n <= |names| && FixedFront(s, names, n)
    ensures n == |names| || FindField(s, names[n]).None? || FindField(s, names[n]).value.width == 0
    decreases |names| - k
  {
    if k == |names| || FindField(s, names[k]).None? || FindField(s, names[k]).value.width == 0 then k
    else FrontEnd(s, names, k + 1)
  }

  /** A callable and a path take every probe. Any other method takes one if its fields can be located, and it is no longer
      than the fixed-width fields in front, or the only field is of variable width. */
  lemma {:induction false} ProbeIff(t: Table, store: Store, m: AccessMethod, probe: bytes, exact: bool)
    ensures Scan(t, store, m, probe, exact).Some? <==>
      || m.kind.Func? || m.kind.ByPath?
      || (OrderFits(t.schema, m.fields)
          && (|probe| <= WidthSum(t.schema, m.fields, FrontEnd(t.schema, m.fields, 0))
              || (|m.fields| == 1 && FindField(t.schema, m.fields[0]).value.width == 0)))
  {
    ScanFits(t, store, m, probe, exact);
    HeadWidthIs(t.schema, m.fields, FrontEnd(t.schema, m.fields, 0));
    hide Scan, FindField, HeadWidth, WidthSum;
  }

  /** The values of leading fixed-width fields are always taken as a probe. */
  lemma {:induction false} FrontIsTaken(t: Table, store: Store, m: AccessMethod, k: nat, row: ValueMap, exact: bool)
    requires WellFormed(t.schema) && Conforms(t.schema, row) && FixedFront(t.schema, m.fields, k)
    requires OrderFits(t.schema, m.fields) && AllIndexable(t.schema, m.fields)
    ensures forall j :: 0 <= j < k ==> m.fields[j] in row
    ensures Scan(t, store, m, Joined(ValuesOf(row, m.fields[..k])), exact).Some?
  {
    SegmentIs(t.schema, row, m.fields);
    FrontWidth(t.schema, m.fields, k, row);
    HeadWidthIs(t.schema, m.fields, k);
    ScanFits(t, store, m, Joined(ValuesOf(row, m.fields[..k])), exact);
    hide Scan, FindField, HeadWidth, WidthSum, Joined, ValuesOf, AllIndexable, WellFormed, Conforms, Images;
  }

  lemma {:induction false} FrontWidth(s: Schema, names: seq<bytes>, k: nat, row: ValueMap)
    requires WellFormed(s) && Conforms(s, row) && FixedFront(s, names, k) && AllIndexable(s, names)
    requires forall j :: 0 <= j < |names| ==> names[j] in row
    ensures |Joined(ValuesOf(row, names[..k]))| == WidthSum(s, names, k)
    decreases k
  {
    hide WellFormed, Conforms, FindField, ImageOf, IndexImage, Indexable;
    if k == 0 {
      assert names[..0] == [];
    } else {
      FrontWidth(s, names, k - 1, row);
      assert Indexable(s, names[k - 1]);
      WidthOfOne(s, row, names[k - 1]);
      assert ValuesOf(row, names[..k]) == ValuesOf(row, names[..k - 1]) + [ImageOf(row[names[k - 1]])];
      JoinedSnoc(ValuesOf(row, names[..k - 1]), ImageOf(row[names[k - 1]]));
    }
  }

  lemma WidthOfOne(s: Schema, row: ValueMap, name: bytes)
    requires WellFormed(s) && Conforms(s, row) && Indexable(s, name) && FindField(s, name).value.width != 0
    ensures name in row && |ImageOf(row[name])| == FindField(s, name).value.width
  {
    hide WellFormed, Conforms, FindField, ImageOf, IndexImage;
    OneImage(s, row, name);
  }

  lemma {:induction false} JoinedSnoc(images: seq<bytes>, image: bytes)
    ensures Joined(images + [image]) == Joined(images) + image
    decreases |images|
  {
    if images == [] {
      assert images + [image] == [image] && [image][1..] == [];
      assert image + [] == image && [] + image == image;
    } else {
      assert (images + [image])[1..] == images[1..] + [image];
      JoinedSnoc(images[1..], image);
      assert images[0] + (Joined(images[1..]) + image) == images[0] + Joined(images[1..]) + image;
    }
  }

  lemma {:induction false} LastIsTail(s: Schema, names: seq<bytes>, row: ValueMap)
    requires WellFormed(s) && Conforms(s, row) && OrderFits(s, names) && AllIndexable(s, names) && names != []
    requires forall j :: 0 <= j < |names| ==> names[j] in row
    ensures FixedFront(s, names, |names| - 1)
    ensures Joined(ValuesOf(row, names)) == Joined(ValuesOf(row, names[..|names| - 1])) + ImageOf(row[names[|names| - 1]])
  {
    hide WellFormed, Conforms, FindField, ImageOf, IndexImage, Indexable;
    var k := |names| - 1;
    assert ValuesOf(row, names) == ValuesOf(row, names[..k]) + [ImageOf(row[names[k]])];
    JoinedSnoc(ValuesOf(row, names[..k]), ImageOf(row[names[k]]));
  }

  lemma {:induction false} WholeWidths(s: Schema, names: seq<bytes>, row: ValueMap)
    requires WellFormed(s) && Conforms(s, row) && OrderFits(s, names) && AllIndexable(s, names) && names != []
    requires forall j :: 0 <= j < |names| ==> names[j] in row
    ensures FindField(s, names[|names| - 1]).Some?
    ensures var (last, width) := (ImageOf(row[names[|names| - 1]]), FindField(s, names[|names| - 1]).value.width);
      && (width != 0 ==> |last| == width) && HeadWidth(s, names) + |last| == |Joined(ValuesOf(row, names))| + width
  {
    var k := |names| - 1;
    LastIsTail(s, names, row);
    FrontWidth(s, names, k, row);
    HeadWidthIs(s, names, k);
    LastIndexable(s, names);
    if FindField(s, names[k]).value.width != 0 {
      OneWider(s, names, k);
      HeadWidthIs(s, names, k + 1);
      WidthOfOne(s, row, names[k]);
    }
    hide FindField, HeadWidth, Joined, ValuesOf, AllIndexable, WellFormed, Conforms, ImageOf, OrderFits, Indexable;
  }

  lemma LastIndexable(s: Schema, names: seq<bytes>)
    requires AllIndexable(s, names) && names != []
    ensures Indexable(s, names[|names| - 1]) && FindField(s, names[|names| - 1]).Some?
  {
    hide FindField;
  }

  lemma OneWider(s: Schema, names: seq<bytes>, k: nat)
    requires FixedFront(s, names, k) && k < |names| && FindField(s, names[k]).Some? && FindField(s, names[k]).value.width != 0
    ensures FixedFront(s, names, k + 1) && WidthSum(s, names, k + 1) == WidthSum(s, names, k) + FindField(s, names[k]).value.width
  {
    hide FindField;
  }

  /** A scan for a row's whole segment is refused exactly when the method has more than one field and the last is of
      variable width, with something in it. */
  lemma {:induction false} WholeProbeIff(t: Table, store: Store, m: AccessMethod, row: ValueMap, exact: bool)
    requires (m.kind.Plain? || m.kind.Partial?) && WellFormed(t.schema) && Conforms(t.schema, row)
    requires OrderFits(t.schema, m.fields) && AllIndexable(t.schema, m.fields)
    ensures Images(t.schema, m.fields, row).Some? && forall j :: 0 <= j < |m.fields| ==> m.fields[j] in row
    ensures m.fields != [] ==> FindField(t.schema, m.fields[|m.fields| - 1]).Some?
    ensures Scan(t, store, m, Images(t.schema, m.fields, row).value, exact).Some? <==>
      || |m.fields| <= 1
      || FindField(t.schema, m.fields[|m.fields| - 1]).value.width != 0
      || ImageOf(row[m.fields[|m.fields| - 1]]) == []
  {
    hide *;
    SegmentIs(t.schema, row, m.fields);
    ProbeFitsIs(t, m, Images(t.schema, m.fields, row));
    ScanFits(t, store, m, Images(t.schema, m.fields, row).value, exact);
    if m.fields != [] { WholeWidths(t.schema, m.fields, row); } else { NothingJoined(row); }
  }

  lemma ProbeFitsIs(t: Table, m: AccessMethod, probe: Option<bytes>)
    requires (m.kind.Plain? || m.kind.Partial?) && OrderFits(t.schema, m.fields)
    ensures probe.Some? ==>
      (ProbeFits(t, m, probe.value)
       <==> |probe.value| <= HeadWidth(t.schema, m.fields)
            || (|m.fields| == 1 && FindField(t.schema, m.fields[0]).value.width == 0))
  {
    hide FindField, HeadWidth;
  }

  // --- What an entry of a path holds ---

  lemma {:induction false} PathListed(t: Table, methods: seq<AccessMethod>, pkey: bytes, document: ValueMap, key: bytes)
    ensures var listed := Listed(PathEntries(t.ns, methods, pkey, document), key); listed.Some? ==> listed.value == []
    decreases |methods|
  {
    hide Path.ResolvePath, PathSegments, Listed, EntriesOf;
    if methods == [] {
      NothingHas(key);
    } else {
      PathListed(t, methods[1..], pkey, document, key);
      var first := match methods[0].kind
        case ByPath(p, ty) => EntriesOf(t.ns, methods[0].slot, PathSegments(ty, Path.ResolvePath(document, p)), pkey, [])
        case _ => [];
      if methods[0].kind.ByPath? {
        SameValue(t.ns, methods[0].slot, PathSegments(methods[0].kind.ty, Path.ResolvePath(document, methods[0].kind.path)), pkey, [], key);
      } else {
        NothingHas(key);
      }
      ListedOfJoin(first, PathEntries(t.ns, methods[1..], pkey, document), key);
    }
  }

  /** An entry of a path index carries no value. */
  lemma {:induction false} PathEntryIsBare(t: Table, store: Store, d: Docs, i: nat, segment: bytes, pkey: bytes)
    requires Sane(t) && Healthy(t, store, d) && i < |t.methods| && t.methods[i].kind.ByPath? && |pkey| == t.schema.keyLen
    requires Key(t.ns, t.methods[i].slot, segment + pkey) in store
    ensures store[Key(t.ns, t.methods[i].slot, segment + pkey)] == []
  {
    var rest := segment + pkey;
    var key := Key(t.ns, t.methods[i].slot, rest);
    assert rest[|rest| - |pkey|..] == pkey;
    assert Get(store, key) == FaceValue(t, d.rows, d.segs, t.methods[i].slot, rest);
    OneKindListed(t, pkey, At(d.rows, pkey), At(d.segs, pkey), i, rest);
    hide Sane, Healthy, Key, Listed, RowEntries, PathEntries;
    if pkey in d.segs { PathListed(t, t.methods, pkey, d.segs[pkey], key); } else { NothingHas(key); }
  }
}
