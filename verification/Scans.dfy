/** Reading a table by its faces: index scans are filters over the documents, accumulators are their aggregates. */
module Scans {
  import opened Bytes
  import opened Order
  import opened Store
  import opened Value
  import opened Schema
  import opened Index
  import opened Reduce
  import opened Ledger
  import opened Plan
  import opened Health
  import Path

  // --- The segments a document has under a method ---

  function SegmentsUnder(t: Table, d: Docs, m: AccessMethod, pkey: bytes): seq<bytes> {
    if m.kind.ByPath? then
      if pkey in d.segs then PathSegments(m.kind.ty, Path.ResolvePath(d.segs[pkey], m.kind.path)) else []
    else if pkey in d.rows && Admitted(m, d.rows[pkey]) == Some(true) && Segments(t.schema, m, d.rows[pkey]).Some? then
      Segments(t.schema, m, d.rows[pkey]).value
    else []
  }

  ghost predicate HasKey(entries: seq<Entry>, key: bytes) { exists i :: 0 <= i < |entries| && entries[i].0 == key }

  lemma {:induction false} SegmentIsKey(ns: bytes, at: slot, segments: seq<bytes>, pkey: bytes, value: bytes,
      segment: bytes)
    ensures HasKey(EntriesOf(ns, at, segments, pkey, value), Key(ns, at, segment + pkey)) <==> segment in segments
    ensures Listed(EntriesOf(ns, at, segments, pkey, value), Key(ns, at, segment + pkey)).Some? ==>
      Listed(EntriesOf(ns, at, segments, pkey, value), Key(ns, at, segment + pkey)) == Some(value)
    decreases |segments|
  {
    hide Key;
    var (entries, key) := (EntriesOf(ns, at, segments, pkey, value), Key(ns, at, segment + pkey));
    SameValue(ns, at, segments, pkey, value, key);
    if segments != [] {
      var rest := EntriesOf(ns, at, segments[1..], pkey, value);
      SegmentIsKey(ns, at, segments[1..], pkey, value, segment);
      HasKeyCons(entries[0], rest, key);
      if entries[0].0 == key {
        KeyIsInjective(ns, at, segments[0] + pkey, at, segment + pkey);
        SameFrontOf(segments[0], segment, pkey);
      }
      InCons(segments, segment);
    }
  }

  lemma InCons(xs: seq<bytes>, x: bytes)
    requires xs != []
    ensures x in xs <==> x == xs[0] || x in xs[1..]
  {
    if x in xs && x != xs[0] {
      var i :| 0 <= i < |xs| && xs[i] == x;
      assert xs[1..][i - 1] == x;
    }
  }

  lemma SameFrontOf(a: bytes, b: bytes, tail: bytes)
    requires a + tail == b + tail
    ensures a == b
  {
    assert |a| == |b|;
    assert a == (a + tail)[..|a|] == (b + tail)[..|b|] == b;
  }

  lemma HasKeyCons(e: Entry, rest: seq<Entry>, key: bytes)
    ensures HasKey([e] + rest, key) <==> e.0 == key || HasKey(rest, key)
  {
    if HasKey(rest, key) {
      var i :| 0 <= i < |rest| && rest[i].0 == key;
      assert ([e] + rest)[i + 1].0 == key;
    }
    if e.0 == key { assert ([e] + rest)[0].0 == key; }
  }

  lemma HasKeyJoin(a: seq<Entry>, b: seq<Entry>, key: bytes)
    ensures HasKey(a + b, key) <==> HasKey(a, key) || HasKey(b, key)
  {
    if HasKey(a, key) {
      var i :| 0 <= i < |a| && a[i].0 == key;
      assert (a + b)[i].0 == key;
    }
    if HasKey(b, key) {
      var i :| 0 <= i < |b| && b[i].0 == key;
      assert (a + b)[|a| + i].0 == key;
    }
  }

  lemma {:induction false} SameValue(ns: bytes, at: slot, segments: seq<bytes>, pkey: bytes, value: bytes, key: bytes)
    ensures Listed(EntriesOf(ns, at, segments, pkey, value), key).Some? ==> Listed(EntriesOf(ns, at, segments, pkey, value), key) == Some(value)
    decreases |segments|
  {
    hide Key;
    var entries := EntriesOf(ns, at, segments, pkey, value);
    if segments != [] {
      var rest := EntriesOf(ns, at, segments[1..], pkey, value);
      SameValue(ns, at, segments[1..], pkey, value, key);
      assert entries == [entries[0]] + rest;
      ListedOfJoin([entries[0]], rest, key);
      ListedOfOne(entries[0], key);
    }
  }

  lemma ListedOfOne(e: Entry, key: bytes)
    ensures Listed([e], key) == if e.0 == key then Some(e.1) else None
  {}

  /** Of a row's entries those under a method's slot are that method's. */
  lemma {:induction false} RowKeys(t: Table, methods: seq<AccessMethod>, m: AccessMethod, pkey: bytes,
      document: ValueMap, segment: bytes)
    requires Sane(t) && (forall x :: x in methods ==> x in t.methods) && m in t.methods && !m.kind.ByPath?
    requires IndexEntries(t.schema, t.ns, methods, pkey, document).Some?
    requires forall i, j :: 0 <= i < j < |methods| ==> methods[i].slot != methods[j].slot
    ensures var entries := IndexEntries(t.schema, t.ns, methods, pkey, document).value;
      var key := Key(t.ns, m.slot, segment + pkey);
      && (HasKey(entries, key)
          <==> m in methods && Admitted(m, document) == Some(true) && Segments(t.schema, m, document).Some?
               && segment in Segments(t.schema, m, document).value)
      && (Listed(entries, key).Some? ==> Listed(entries, key) == OrderedImages(t.schema, m.includes, document))
    decreases |methods|
  {
    hide Key, Sane, Segments, OrderedImages, EntriesOf, HasKey, Listed;
    var key := Key(t.ns, m.slot, segment + pkey);
    if methods == [] {
      NothingHas(key);
    } else {
      var first := MethodEntries(t.schema, t.ns, methods[0], pkey, document).value;
      var rest := IndexEntries(t.schema, t.ns, methods[1..], pkey, document).value;
      assert forall i :: 0 <= i < |methods[1..]| ==> methods[1..][i] == methods[i + 1];
      RowKeys(t, methods[1..], m, pkey, document, segment);
      HasKeyJoin(first, rest, key);
      ListedOfJoin(first, rest, key);
      MethodInCons(methods, m);
      if methods[0] == m {
        NothingHas(key);
        if Admitted(m, document) == Some(true) {
          var (segments, value) := (Segments(t.schema, m, document).value, OrderedImages(t.schema, m.includes, document).value);
          SegmentIsKey(t.ns, m.slot, segments, pkey, value, segment);
        }
        NotAgain(methods, m);
        ListedIff(rest, key);
      } else {
        OtherMethod(t, methods[0], m, pkey, document, segment);
        ListedIff(first, key);
      }
    }
  }

  lemma NotAgain(methods: seq<AccessMethod>, m: AccessMethod)
    requires methods != [] && methods[0] == m
    requires forall i, j :: 0 <= i < j < |methods| ==> methods[i].slot != methods[j].slot
    ensures m !in methods[1..]
  {}

  lemma MethodInCons(methods: seq<AccessMethod>, m: AccessMethod)
    requires methods != []
    ensures m in methods <==> m == methods[0] || m in methods[1..]
  {
    if m in methods && m != methods[0] {
      var i :| 0 <= i < |methods| && methods[i] == m;
      assert methods[1..][i - 1] == m;
    }
  }

  lemma NothingHas(key: bytes)
    ensures !HasKey([], key) && Listed([], key) == None
  {}

  lemma ListedIff(entries: seq<Entry>, key: bytes)
    ensures Listed(entries, key).Some? <==> HasKey(entries, key)
  {
    ListedIsThere(entries, key);
  }

  lemma {:induction false} OtherMethod(t: Table, other: AccessMethod, m: AccessMethod, pkey: bytes, document: ValueMap,
      segment: bytes)
    requires Sane(t) && other in t.methods && m in t.methods && other != m
    requires MethodEntries(t.schema, t.ns, other, pkey, document).Some?
    ensures !HasKey(MethodEntries(t.schema, t.ns, other, pkey, document).value, Key(t.ns, m.slot, segment + pkey))
  {
    hide Key, Segments, OrderedImages;
    SlotsOfTwo(t, other, m);
    hide Sane;
    if Admitted(other, document) == Some(true) {
      OtherSlot(t.ns, other.slot, Segments(t.schema, other, document).value, pkey,
                OrderedImages(t.schema, other.includes, document).value, m.slot, segment + pkey);
    }
  }

  lemma SlotsOfTwo(t: Table, a: AccessMethod, b: AccessMethod)
    requires Sane(t) && a in t.methods && b in t.methods && a != b
    ensures a.slot != b.slot
  {
    hide WellFormed, PayloadOnly, LogicPayloadOnly, Reversible, Ratchet;
    var i :| 0 <= i < |t.methods| && t.methods[i] == a;
    var j :| 0 <= j < |t.methods| && t.methods[j] == b;
    if i < j { assert t.methods[i].slot != t.methods[j].slot; } else { assert t.methods[j].slot != t.methods[i].slot; }
  }

  lemma {:induction false} OtherSlot(ns: bytes, at: slot, segments: seq<bytes>, pkey: bytes, value: bytes, other: slot,
      rest: bytes)
    requires at != other
    ensures !HasKey(EntriesOf(ns, at, segments, pkey, value), Key(ns, other, rest))
    decreases |segments|
  {
    hide Key;
    if segments != [] {
      OtherSlot(ns, at, segments[1..], pkey, value, other, rest);
      var entries := EntriesOf(ns, at, segments, pkey, value);
      if Key(ns, at, segments[0] + pkey) == Key(ns, other, rest) { KeyIsInjective(ns, at, segments[0] + pkey, other, rest); }
      HasKeyCons(entries[0], EntriesOf(ns, at, segments[1..], pkey, value), Key(ns, other, rest));
    }
  }

  /** Of a segment's entries those under a path method's slot are that method's. */
  lemma {:induction false} PathKeys(t: Table, methods: seq<AccessMethod>, m: AccessMethod, pkey: bytes,
      document: ValueMap, segment: bytes)
    requires Sane(t) && (forall x :: x in methods ==> x in t.methods) && m in t.methods && m.kind.ByPath?
    ensures HasKey(PathEntries(t.ns, methods, pkey, document), Key(t.ns, m.slot, segment + pkey))
       <==> m in methods && segment in PathSegments(m.kind.ty, Path.ResolvePath(document, m.kind.path))
    decreases |methods|
  {
    hide Key, Sane, PathSegments, EntriesOf, HasKey;
    var key := Key(t.ns, m.slot, segment + pkey);
    NothingHas(key);
    if methods != [] {
      var other := methods[0];
      PathKeys(t, methods[1..], m, pkey, document, segment);
      MethodInCons(methods, m);
      var first := match other.kind
        case ByPath(p, ty) => EntriesOf(t.ns, other.slot, PathSegments(ty, Path.ResolvePath(document, p)), pkey, [])
        case _ => [];
      HasKeyJoin(first, PathEntries(t.ns, methods[1..], pkey, document), key);
      if other.kind.ByPath? {
        var segments := PathSegments(other.kind.ty, Path.ResolvePath(document, other.kind.path));
        if other == m {
          SegmentIsKey(t.ns, m.slot, segments, pkey, [], segment);
        } else {
          SlotsOfTwo(t, other, m);
          OtherSlot(t.ns, other.slot, segments, pkey, [], m.slot, segment + pkey);
        }
      }
    }
  }

  // --- Scanning a face ---

  /** Which probes a method takes: any under a callable or a path, else no longer than the fixed-width fields, unless
      its only field is of variable width. */
  function HeadWidth(s: Schema, names: seq<bytes>): nat {
    if names == [] || FindField(s, names[0]).None? || FindField(s, names[0]).value.width == 0 then 0
    else FindField(s, names[0]).value.width + HeadWidth(s, names[1..])
  }

  predicate ProbeFits(t: Table, m: AccessMethod, probe: bytes) {
    if m.kind.Func? || m.kind.ByPath? then true
    else if !OrderFits(t.schema, m.fields) then false
    else |probe| <= HeadWidth(t.schema, m.fields) || (|m.fields| == 1 && FindField(t.schema, m.fields[0]).value.width == 0)
  }

  /** The key tails of the suffixes that are long enough: a shorter one was matched by bytes of a key. */
  function Tails(suffixes: seq<bytes>, keyLen: nat, exact: bool): seq<bytes> {
    if suffixes == [] then []
    else
      var s := suffixes[0];
      (if |s| == keyLen || (!exact && |s| > keyLen) then [s[|s| - keyLen..]] else []) + Tails(suffixes[1..], keyLen, exact)
  }

  /** The keys of the documents with a segment that begins with the probe, or is the probe. */
  function Scan(t: Table, store: Store, m: AccessMethod, probe: bytes, exact: bool): Option<seq<bytes>> {
    if !ProbeFits(t, m, probe) then None
    else Some(Tails(ScanSuffix(store, Key(t.ns, m.slot, probe)), t.schema.keyLen, exact))
  }

  lemma {:induction false} TailsAre(suffixes: seq<bytes>, keyLen: nat, exact: bool, pkey: bytes)
    ensures pkey in Tails(suffixes, keyLen, exact)
       <==> |pkey| == keyLen && exists x :: (exact ==> x == []) && x + pkey in suffixes
    decreases |suffixes|
  {
    if suffixes != [] {
      var s := suffixes[0];
      TailsAre(suffixes[1..], keyLen, exact, pkey);
      if pkey in Tails(suffixes, keyLen, exact) {
        if pkey in Tails(suffixes[1..], keyLen, exact) {
          var x :| (exact ==> x == []) && x + pkey in suffixes[1..];
          InCons(suffixes, x + pkey);
        } else {
          var x := s[..|s| - keyLen];
          assert s == x + pkey;
        }
      }
    }
  }

  lemma {:induction false} ProbeKey(ns: bytes, at: slot, probe: bytes, x: bytes, pkey: bytes)
    ensures Key(ns, at, probe) + (x + pkey) == Key(ns, at, probe + x + pkey)
  {
    assert probe + (x + pkey) == probe + x + pkey;
    assert ns + SlotBytes(at) + probe + (x + pkey) == ns + SlotBytes(at) + (probe + x + pkey);
  }

  /** A face has the key of a segment exactly when the document has the segment. */
  lemma {:induction false} FaceHasSegment(t: Table, store: Store, d: Docs, i: nat, segment: bytes, pkey: bytes)
    requires Sane(t) && Healthy(t, store, d) && i < |t.methods| && |pkey| == t.schema.keyLen
    ensures Key(t.ns, t.methods[i].slot, segment + pkey) in store <==> segment in SegmentsUnder(t, d, t.methods[i], pkey)
    ensures !t.methods[i].kind.ByPath? && Key(t.ns, t.methods[i].slot, segment + pkey) in store ==>
      pkey in d.rows
      && Some(store[Key(t.ns, t.methods[i].slot, segment + pkey)]) == OrderedImages(t.schema, t.methods[i].includes, d.rows[pkey])
  {
    hide Key, Sane, RowsTell, SegsTell, VocabTells, LedgerTells, Listed, RowEntries, SegEntries, PathSegments,
      Segments, OrderedImages;
    var (m, rest) := (t.methods[i], segment + pkey);
    var key := Key(t.ns, m.slot, rest);
    assert rest[|rest| - |pkey|..] == pkey;
    assert Get(store, key) == FaceValue(t, d.rows, d.segs, m.slot, rest);
    OneKindListed(t, pkey, At(d.rows, pkey), At(d.segs, pkey), i, rest);
    DocumentKeys(t, store, d, i, segment, pkey);
  }

  lemma DocumentIs(t: Table, store: Store, d: Docs, pkey: bytes)
    requires Sane(t) && Healthy(t, store, d)
    ensures RowTells(t, store, pkey, At(d.rows, pkey))
    ensures forall i, j :: 0 <= i < j < |t.methods| ==> t.methods[i].slot != t.methods[j].slot
  {
    hide RowTells, SegsTell, VocabTells, FacesTell, LedgerTells;
  }

  lemma {:induction false} DocumentKeys(t: Table, store: Store, d: Docs, i: nat, segment: bytes, pkey: bytes)
    requires Sane(t) && Healthy(t, store, d) && i < |t.methods|
    ensures var m := t.methods[i];
      var key := Key(t.ns, m.slot, segment + pkey);
      var listed := Listed(if m.kind.ByPath? then SegEntries(t, pkey, At(d.segs, pkey)) else RowEntries(t, pkey, At(d.rows, pkey)), key);
      && (listed.Some? <==> segment in SegmentsUnder(t, d, m, pkey))
      && (!m.kind.ByPath? && listed.Some? ==> pkey in d.rows && listed == OrderedImages(t.schema, m.includes, d.rows[pkey]))
  {
    DocumentIs(t, store, d, pkey);
    hide RowTells, Key, Sane, Healthy, Listed, PathSegments, Segments, OrderedImages, HasKey, PathEntries,
      IndexEntries, DecodePayload, EncodePayload;
    var m := t.methods[i];
    var key := Key(t.ns, m.slot, segment + pkey);
    NothingHas(key);
    if m.kind.ByPath? {
      if pkey in d.segs { PathKeys(t, t.methods, m, pkey, d.segs[pkey], segment); }
      ListedIff(SegEntries(t, pkey, At(d.segs, pkey)), key);
    } else {
      if pkey in d.rows { RowKeys(t, t.methods, m, pkey, d.rows[pkey], segment); }
      ListedIff(RowEntries(t, pkey, At(d.rows, pkey)), key);
    }
  }

  /** A scan finds exactly the documents with a segment that begins with the probe, an exact scan those with a segment
      equal to it: no hit comes from probe bytes met by a key, none is missed. */
  lemma {:induction false} ScanIsFilter(t: Table, store: Store, d: Docs, i: nat, probe: bytes, exact: bool, pkey: bytes)
    requires Sane(t) && Healthy(t, store, d) && i < |t.methods| && ProbeFits(t, t.methods[i], probe)
    ensures pkey in Scan(t, store, t.methods[i], probe, exact).value
       <==> |pkey| == t.schema.keyLen
            && exists segment :: segment in SegmentsUnder(t, d, t.methods[i], pkey)
                                 && if exact then segment == probe else probe <= segment
  {
    hide Key, Sane, Healthy, SegmentsUnder, ScanSuffix, Tails, ProbeFits;
    var m := t.methods[i];
    var suffixes := ScanSuffix(store, Key(t.ns, m.slot, probe));
    TailsAre(suffixes, t.schema.keyLen, exact, pkey);
    if |pkey| == t.schema.keyLen {
      forall x ensures x + pkey in suffixes <==> probe + x in SegmentsUnder(t, d, m, pkey) {
        ScanFindsAll(store, Key(t.ns, m.slot, probe), x + pkey);
        ProbeKey(t.ns, m.slot, probe, x, pkey);
        FaceHasSegment(t, store, d, i, probe + x, pkey);
      }
      if exists segment :: segment in SegmentsUnder(t, d, m, pkey) && if exact then segment == probe else probe <= segment {
        var segment :| segment in SegmentsUnder(t, d, m, pkey) && if exact then segment == probe else probe <= segment;
        var x := segment[|probe|..];
        assert probe + x == segment;
        assert x + pkey in suffixes;
      }
      if exists x :: (exact ==> x == []) && x + pkey in suffixes {
        var x :| (exact ==> x == []) && x + pkey in suffixes;
        assert probe + x in SegmentsUnder(t, d, m, pkey) && probe <= probe + x;
        assert probe + [] == probe;
      }
    }
  }

  // --- Covered scans ---

  /** The includes of an entry, cut by width alone; a variable-width field takes what is left. */
  function DecodeIncludes(s: Schema, names: seq<bytes>, raw: bytes): Option<ValueMap> {
    if names == [] then (if raw == [] then Some(map[]) else None)
    else if IsKeyField(s, names[0]) || FindField(s, names[0]).None? then None
    else
      var f := FindField(s, names[0]).value;
      if f.width == 0 then
        if !f.ty.StrT? then None
        else
          match DecodeIncludes(s, names[1..], [])
          case None => None
          case Some(rest) => Some(map[names[0] := Str(raw)] + rest)
      else if f.width > |raw| then None
      else
        match (DecodeFixed(f, raw[..f.width]), DecodeIncludes(s, names[1..], raw[f.width..]))
        case (Some(v), Some(rest)) => Some(map[names[0] := v] + rest)
        case _ => None
  }

  /** Every value of the row has the width its field declares. */
  predicate Conforms(s: Schema, row: ValueMap) {
    forall i :: 0 <= i < |Payload(s)| ==>
      var f := Payload(s)[i];
      f.name in row && if f.ty.StrT? then row[f.name].Str? else FixedImage(f, row[f.name]).Some?
  }

  lemma {:induction false} EncodedConforms(s: Schema, row: ValueMap)
    requires EncodePayload(s, row).Some? && WellFormed(s)
    ensures Conforms(s, row)
  {
    hide FixedImage, Contiguous, WidthOf, NamesDiffer, TagsDiffer, EncodeHot, EncodeCold, BE;
    HotConforms(s.hot, row);
    ColdConforms(s.cold, row);
    HotIsFixed(s.hot, 0);
    forall i | 0 <= i < |Payload(s)|
      ensures var f := Payload(s)[i];
        f.name in row && if f.ty.StrT? then row[f.name].Str? else FixedImage(f, row[f.name]).Some?
    {
      if i < |s.hot| { assert Payload(s)[i] == s.hot[i]; } else { assert Payload(s)[i] == s.cold[i - |s.hot|]; }
    }
  }

  lemma {:induction false} HotIsFixed(fields: seq<FieldDef>, at: nat)
    requires Contiguous(fields, at)
    ensures forall i :: 0 <= i < |fields| ==> WidthFits(fields[i]) && !fields[i].ty.StrT?
    decreases |fields|
  {
    if fields != [] {
      HotIsFixed(fields[1..], at + fields[0].width);
      assert forall i :: 0 < i < |fields| ==> fields[i] == fields[1..][i - 1];
    }
  }

  lemma {:induction false} HotConforms(fields: seq<FieldDef>, row: ValueMap)
    requires EncodeHot(fields, row).Some?
    ensures forall i :: 0 <= i < |fields| ==> fields[i].name in row && FixedImage(fields[i], row[fields[i].name]).Some?
    decreases |fields|
  {
    hide FixedImage;
    if fields != [] {
      HotConforms(fields[1..], row);
      assert forall i :: 0 < i < |fields| ==> fields[i] == fields[1..][i - 1];
    }
  }

  lemma {:induction false} ColdConforms(fields: seq<FieldDef>, row: ValueMap)
    requires EncodeCold(fields, row).Some?
    ensures forall i :: 0 <= i < |fields| ==>
      fields[i].name in row && if fields[i].ty.StrT? then row[fields[i].name].Str? else FixedImage(fields[i], row[fields[i].name]).Some?
    decreases |fields|
  {
    hide FixedImage;
    if fields != [] {
      ColdConforms(fields[1..], row);
      assert forall i :: 0 < i < |fields| ==> fields[i] == fields[1..][i - 1];
    }
  }

  lemma {:induction false} FieldOfName(s: Schema, row: ValueMap, name: bytes)
    requires WellFormed(s) && Conforms(s, row) && !IsKeyField(s, name) && FindField(s, name).Some?
    ensures var f := FindField(s, name).value;
      && name in row && f.name == name
      && (f.width == 0 <==> f.ty.StrT?) && (f.ty.StrT? ==> row[name].Str?)
      && (!f.ty.StrT? ==> WidthFits(f) && FixedImage(f, row[name]).Some?)
  {
    hide FixedImage, WidthOf, NamesDiffer, TagsDiffer;
    HotIsFixed(s.hot, 0);
    var f := FindField(s, name).value;
    var all := s.keyFields + s.hot + s.cold;
    var i :| 0 <= i < |all| && all[i] == f;
    if i >= |s.keyFields| {
      var k := i - |s.keyFields|;
      assert Payload(s)[k] == f;
      if k < |s.hot| { assert f == s.hot[k]; } else { assert f == s.cold[k - |s.hot|]; }
    }
  }

  lemma {:induction false} IncludesReadBack(s: Schema, names: seq<bytes>, row: ValueMap)
    requires WellFormed(s) && Conforms(s, row) && OrderFits(s, names) && Images(s, names, row).Some?
    ensures DecodeIncludes(s, names, Images(s, names, row).value) == Some(Restrict(row, Elements(names)))
    decreases |names|
  {
    hide FixedImage, DecodeFixed, FixedIndexImage, WidthFits, WellFormed, Conforms, IsKeyField, FindField;
    if names == [] {
      assert Restrict(row, Elements([])) == map[];
    } else {
      FieldOfName(s, row, names[0]);
      var f := FindField(s, names[0]).value;
      assert forall i :: 0 <= i < |names[1..]| ==> names[1..][i] == names[i + 1];
      IncludesReadBack(s, names[1..], row);
      var (image, rest) := (IndexImage(f, row[names[0]]).value, Images(s, names[1..], row).value);
      RestrictCons(row, names);
      if f.width == 0 {
        assert |names| == 1;
        assert names[1..] == [] && image + [] == image;
      } else {
        SameImage(f, row[names[0]]);
        FixedReadsBack(f, row[names[0]]);
        assert (image + rest)[..f.width] == image && (image + rest)[f.width..] == rest;
      }
    }
  }

  lemma SameImage(f: FieldDef, v: Value)
    requires FixedIndexImage(f.ty, v).Some? && FixedImage(f, v).Some?
    ensures FixedIndexImage(f.ty, v) == FixedImage(f, v)
  {
    hide BE;
  }

  lemma RestrictCons(row: ValueMap, names: seq<bytes>)
    requires names != [] && names[0] in row
    ensures Restrict(row, Elements(names)) == map[names[0] := row[names[0]]] + Restrict(row, Elements(names[1..]))
  {
    forall n | n in names && n != names[0] ensures n in names[1..] { InCons(names, n); }
  }

  /** A covered scan hands back the row's own values of the included fields. */
  lemma {:induction false} CoveredIsTheRow(t: Table, store: Store, d: Docs, i: nat, segment: bytes, pkey: bytes)
    requires Sane(t) && Healthy(t, store, d) && i < |t.methods| && |pkey| == t.schema.keyLen && !t.methods[i].kind.ByPath?
    requires segment in SegmentsUnder(t, d, t.methods[i], pkey)
    ensures var key := Key(t.ns, t.methods[i].slot, segment + pkey);
      && key in store && pkey in d.rows
      && DecodeIncludes(t.schema, t.methods[i].includes, store[key]) == Some(Restrict(d.rows[pkey], Elements(t.methods[i].includes)))
  {
    assert RowTells(t, store, pkey, At(d.rows, pkey));
    assert WellFormed(t.schema);
    hide Key, Sane, Healthy, SegmentsUnder, Images, OrderFits, WellFormed, EncodePayload, DecodePayload, EntriesOfRow;
    FaceHasSegment(t, store, d, i, segment, pkey);
    EncodedConforms(t.schema, d.rows[pkey]);
    IncludesReadBack(t.schema, t.methods[i].includes, d.rows[pkey]);
  }

  // --- Accumulators ---

  /** A count's accumulator is the number of stored rows of its group; it is missing only while there are none. */
  lemma {:induction false} CountIsExact(t: Table, store: Store, d: Docs, i: nat, group: bytes)
    requires Sane(t) && Healthy(t, store, d) && i < |t.reduces| && t.reduces[i].logic == Count()
    requires |Members(t.schema, t.reduces[i], d.rows, group)| < U64_END
    ensures var n := |Members(t.schema, t.reduces[i], d.rows, group)|;
      match Get(store, Key(t.ns, t.reduces[i].slot, group))
      case None => n == 0
      case Some(acc) => acc == BE(n, 8)
  {
    CountIsReversible();
    hide Key, Sane, RowsTell, SegsTell, VocabTells, FacesTell, Reversible, Members, FoldSet, Count, BE, Present,
      Remembers;
    assert Tells(t.schema, t.ns, t.reduces[i], store, d.rows, d.trace);
    CountCounts(t.schema, d.rows, Members(t.schema, t.reduces[i], d.rows, group));
  }

  /** A high water mark, or a low one. */
  function Mark(name: bytes, high: bool): Logic { if high then HighWater(name) else LowWater(name) }

  function Seed(high: bool): u64 { if high then 0 else U64_END - 1 }

  /** The highest, or the lowest, value of `name` among the rows ever written to the group; the seed when there is none. */
  function Extreme(s: Schema, r: Reduce, name: bytes, high: bool, trace: Trace, group: bytes): u64 {
    if trace == [] then Seed(high)
    else
      var before := Extreme(s, r, name, high, trace[..|trace| - 1], group);
      var (pkey, document) := trace[|trace| - 1];
      if GroupOf(s, r, pkey, document) != Some(group) || FieldOf(document, name).None? then before
      else
        var n := FieldOf(document, name).value;
        if high then (if n > before then n else before) else (if n < before then n else before)
  }

  lemma FoldedFront(s: Schema, r: Reduce, trace: Trace)
    requires AllFolded(s, r, trace) && trace != []
    ensures AllFolded(s, r, trace[..|trace| - 1])
  {
    hide GroupOf, TraceAcc;
    var init := trace[..|trace| - 1];
    forall i | 0 <= i < |init|
      ensures GroupOf(s, r, init[i].0, init[i].1).Some? && TraceAcc(s, r, init[..i + 1], GroupOf(s, r, init[i].0, init[i].1).value).Some?
    {
      assert init[i] == trace[i] && init[..i + 1] == trace[..i + 1];
    }
  }

  lemma {:induction false} TraceIsExtreme(s: Schema, r: Reduce, name: bytes, high: bool, trace: Trace, group: bytes)
    requires r.logic == Mark(name, high) && AllFolded(s, r, trace)
    ensures var (acc, most) := (TraceAcc(s, r, trace, group), Extreme(s, r, name, high, trace, group));
      if acc.Some? then acc == Some(BE(most, 8)) else most == Seed(high)
    decreases |trace|
  {
    hide BE, GroupOf, AccOf;
    if trace != [] {
      var init := trace[..|trace| - 1];
      FoldedFront(s, r, trace);
      TraceIsExtreme(s, r, name, high, init, group);
      AccReads(Extreme(s, r, name, high, init, group));
      AccReads(Seed(high));
      assert trace[..|trace|] == trace;
      assert GroupOf(s, r, trace[|trace| - 1].0, trace[|trace| - 1].1) == Some(group) ==> TraceAcc(s, r, trace, group).Some?;
    }
  }

  /** A water mark never goes back: it is the highest, or the lowest, value ever written to its group, deleted rows
      included. */
  lemma {:induction false} WaterMarksRemember(t: Table, store: Store, d: Docs, i: nat, name: bytes, high: bool,
      group: bytes)
    requires Sane(t) && Healthy(t, store, d) && i < |t.reduces| && t.reduces[i].logic == Mark(name, high)
    ensures match Get(store, Key(t.ns, t.reduces[i].slot, group))
            case None => Extreme(t.schema, t.reduces[i], name, high, d.trace, group) == Seed(high)
            case Some(acc) => acc == BE(Extreme(t.schema, t.reduces[i], name, high, d.trace, group), 8)
    ensures (exists p :: p in Members(t.schema, t.reduces[i], d.rows, group)) ==> Get(store, Key(t.ns, t.reduces[i].slot, group)).Some?
  {
    RatchetsHold(name);
    hide Key, Sane, RowsTell, SegsTell, VocabTells, FacesTell, Ratchet, TraceAcc, HighWater, LowWater, BE, Exact,
      GroupOf, Extreme, AllFolded;
    assert Tells(t.schema, t.ns, t.reduces[i], store, d.rows, d.trace);
    TraceIsExtreme(t.schema, t.reduces[i], name, high, d.trace, group);
  }

  /** The row carries this number under the name, and was written to the group. */
  predicate Wrote(s: Schema, r: Reduce, name: bytes, trace: Trace, i: int, group: bytes, n: u64) {
    && 0 <= i < |trace| && GroupOf(s, r, trace[i].0, trace[i].1) == Some(group)
    && name in trace[i].1 && trace[i].1[name] == U64(n)
  }

  /** A mark is one of the numbers written to its group, and none of them is beyond it; it is the seed when there are
      none. */
  lemma {:induction false} ExtremeIs(s: Schema, r: Reduce, name: bytes, high: bool, trace: Trace, group: bytes)
    ensures var most := Extreme(s, r, name, high, trace, group);
      && (forall i, n: u64 :: Wrote(s, r, name, trace, i, group, n) ==> if high then n <= most else most <= n)
      && ((exists i :: Wrote(s, r, name, trace, i, group, most)) || most == if high then 0 else U64_END - 1)
    decreases |trace|
  {
    hide GroupOf;
    if trace != [] {
      var (init, last) := (trace[..|trace| - 1], |trace| - 1);
      ExtremeIs(s, r, name, high, init, group);
      forall i, n: u64 | i < last ensures Wrote(s, r, name, trace, i, group, n) <==> Wrote(s, r, name, init, i, group, n) {}
      var (before, most) := (Extreme(s, r, name, high, init, group), Extreme(s, r, name, high, trace, group));
      if i :| Wrote(s, r, name, init, i, group, before) { assert Wrote(s, r, name, trace, i, group, before); }
      if most != before { assert Wrote(s, r, name, trace, last, group, most); }
    }
  }
}
