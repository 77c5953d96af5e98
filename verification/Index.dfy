/** Access methods: the index entries a document produces. */
module Index {
  import opened Bytes
  import opened Store
  import opened Value
  import opened Schema
  import Path

  /** Host callables are functions of the document; nothing stands for their error. */
  datatype Kind =
    | Plain
    | Partial(admits: ValueMap -> Option<bool>)
    | Func(derive: ValueMap -> Option<seq<bytes>>)
    | ByPath(path: Path.Path, ty: FieldKind)

  datatype AccessMethod = AccessMethod(slot: slot, fields: seq<bytes>, includes: seq<bytes>, kind: Kind)

  type Entry = (bytes, bytes)

  function FindIn(fields: seq<FieldDef>, name: bytes): (r: Option<FieldDef>)
    ensures r.Some? <==> exists i :: 0 <= i < |fields| && fields[i].name == name
    ensures r.Some? ==> r.value in fields && r.value.name == name
  {
    if fields == [] then None else if fields[0].name == name then Some(fields[0]) else FindIn(fields[1..], name)
  }

  function FindField(s: Schema, name: bytes): Option<FieldDef> { FindIn(s.keyFields + s.hot + s.cold, name) }

  predicate IsKeyField(s: Schema, name: bytes) { FindIn(s.keyFields, name).Some? }

  /** Only the last field may be of variable width: whatever follows it could not be located. */
  predicate OrderFits(s: Schema, names: seq<bytes>) {
    forall i :: 0 <= i < |names| ==>
      FindField(s, names[i]).Some? && (i + 1 < |names| ==> FindField(s, names[i]).value.width != 0)
  }

  /** Plain big-endian bytes, or raw text; no wrapper kind has an index encoding. */
  function IndexImage(f: FieldDef, v: Value): Option<bytes> {
    if f.width == 0 then (if f.ty.StrT? && v.Str? then Some(v.text) else None)
    else FixedIndexImage(f.ty, v)
  }

  function FixedIndexImage(ty: FieldKind, v: Value): Option<bytes> {
    match (ty, v)
    case (U8T, U8(n)) => Some([n])
    case (U16T, U16(n)) => Some(BE(n, 2))
    case (U32T, U32(n)) => Some(BE(n, 4))
    case (U64T, U64(n)) => Some(BE(n, 8))
    case (FixedT, Blob(data)) => Some(data)
    case _ => None
  }

  /** The named payload fields one after the other. */
  function Images(s: Schema, names: seq<bytes>, document: ValueMap): Option<bytes> {
    if names == [] then Some([])
    else if IsKeyField(s, names[0]) || names[0] !in document || FindField(s, names[0]).None? then None
    else
      match IndexImage(FindField(s, names[0]).value, document[names[0]])
      case None => None
      case Some(image) =>
        match Images(s, names[1..], document)
        case None => None
        case Some(rest) => Some(image + rest)
  }

  function OrderedImages(s: Schema, names: seq<bytes>, document: ValueMap): Option<bytes> {
    if OrderFits(s, names) then Images(s, names, document) else None
  }

  /** One entry per segment: `[ns][slot][segment][primary key]`. */
  function EntriesOf(ns: bytes, at: slot, segments: seq<bytes>, pkey: bytes, value: bytes): seq<Entry> {
    if segments == [] then []
    else [(Key(ns, at, segments[0] + pkey), value)] + EntriesOf(ns, at, segments[1..], pkey, value)
  }

  /** The indexed segments of a row under one method: nothing when a callable or an encoding fails. */
  function Segments(s: Schema, m: AccessMethod, document: ValueMap): Option<seq<bytes>> {
    match m.kind
    case Func(derive) => derive(document)
    case _ =>
      match OrderedImages(s, m.fields, document)
      case None => None
      case Some(image) => Some([image])
  }

  function Admitted(m: AccessMethod, document: ValueMap): Option<bool> {
    if m.kind.ByPath? then Some(false) else if m.kind.Partial? then m.kind.admits(document) else Some(true)
  }

  function MethodEntries(s: Schema, ns: bytes, m: AccessMethod, pkey: bytes, document: ValueMap): Option<seq<Entry>> {
    match Admitted(m, document)
    case None => None
    case Some(false) => Some([])
    case Some(true) =>
      match (Segments(s, m, document), OrderedImages(s, m.includes, document))
      case (Some(segments), Some(value)) => Some(EntriesOf(ns, m.slot, segments, pkey, value))
      case _ => None
  }

  /** Every entry a row produces; path methods are the dynamic segment's. */
  function IndexEntries(s: Schema, ns: bytes, methods: seq<AccessMethod>, pkey: bytes,
      document: ValueMap): Option<seq<Entry>> {
    if methods == [] then Some([])
    else
      match MethodEntries(s, ns, methods[0], pkey, document)
      case None => None
      case Some(first) =>
        match IndexEntries(s, ns, methods[1..], pkey, document)
        case None => None
        case Some(rest) => Some(first + rest)
  }

  // --- Path methods ---

  function Narrowed(ty: FieldKind, n: u64): Option<Value> {
    match ty
    case U8T => if n < 256 then Some(U8(n)) else None
    case U16T => if n < U16_END then Some(U16(n)) else None
    case U32T => if n < U32_END then Some(U32(n)) else None
    case _ => Some(U64(n))
  }

  function Unsigned(v: Value): Option<u64> {
    match v case U8(n) => Some(n) case U16(n) => Some(n) case U32(n) => Some(n) case U64(n) => Some(n) case _ => None
  }

  /** A resolved value in the declared type: the unsigned kinds are one kind, what does not fit has no entry. */
  function PathImage(ty: FieldKind, v: Value): Option<bytes> {
    match ty
    case StrT => if v.Str? then Some(v.text) else None
    case FixedT => FixedIndexImage(ty, v)
    case OffsetT(_) => None
    case _ =>
      if Unsigned(v).None? || Narrowed(ty, Unsigned(v).value).None? then None
      else FixedIndexImage(ty, Narrowed(ty, Unsigned(v).value).value)
  }

  function PathSegments(ty: FieldKind, values: seq<Value>): seq<bytes> {
    if values == [] then []
    else (if PathImage(ty, values[0]).Some? then [PathImage(ty, values[0]).value] else []) + PathSegments(ty, values[1..])
  }

  function PathEntries(ns: bytes, methods: seq<AccessMethod>, pkey: bytes, document: ValueMap): seq<Entry> {
    if methods == [] then []
    else
      (match methods[0].kind
       case ByPath(p, ty) => EntriesOf(ns, methods[0].slot, PathSegments(ty, Path.ResolvePath(document, p)), pkey, [])
       case _ => [])
      + PathEntries(ns, methods[1..], pkey, document)
  }

  lemma {:induction false} PathImageOfReadBack(ty: FieldKind, v: Value)
    ensures PathImage(ty, ReadBack(v)) == PathImage(ty, v)
  {
    hide ReadInt, IntBytes, BE;
    match v { case U8(_) => case U16(_) => case U32(_) => case I64(_) => case Obj(_) => case Array(_) => case _ => }
  }

  lemma {:induction false} PathSegmentsOfReadBack(ty: FieldKind, values: seq<Value>)
    ensures PathSegments(ty, Path.AllReadBack(values)) == PathSegments(ty, values)
    decreases |values|
  {
    hide PathImage, ReadBack;
    if values != [] {
      PathImageOfReadBack(ty, values[0]);
      assert Path.AllReadBack(values)[1..] == Path.AllReadBack(values[1..]);
      PathSegmentsOfReadBack(ty, values[1..]);
    }
  }

  /** The entries of a written segment are those of the segment read back: the sweep of an overwrite finds them. */
  lemma {:induction false} PathEntriesOfReadBack(ns: bytes, methods: seq<AccessMethod>, pkey: bytes, document: ValueMap)
    ensures PathEntries(ns, methods, pkey, ReadBackMap(document)) == PathEntries(ns, methods, pkey, document)
    decreases |methods|
  {
    hide ReadBack, Path.Walk, PathSegments, EntriesOf;
    if methods != [] {
      PathEntriesOfReadBack(ns, methods[1..], pkey, document);
      if methods[0].kind.ByPath? {
        var (p, ty) := (methods[0].kind.path, methods[0].kind.ty);
        ObjReadBack(document);
        Path.WalkOfReadBack(Obj(document), p);
        PathSegmentsOfReadBack(ty, Path.ResolvePath(document, p));
      }
    }
  }

  lemma ObjReadBack(document: ValueMap)
    ensures ReadBack(Obj(document)) == Obj(ReadBackMap(document))
  {}

  // --- Which keys a document's entries can have ---

  /** `k` is an entry of one of the methods for the row at `pkey`. */
  ghost predicate Belongs(ns: bytes, methods: seq<AccessMethod>, pkey: bytes, paths: bool, k: bytes) {
    exists m, segment :: m in methods && m.kind.ByPath? == paths && k == Key(ns, m.slot, segment + pkey)
  }

  ghost predicate AllBelong(ns: bytes, methods: seq<AccessMethod>, pkey: bytes, paths: bool, entries: seq<Entry>) {
    forall i :: 0 <= i < |entries| ==> Belongs(ns, methods, pkey, paths, entries[i].0)
  }

  lemma {:induction false} EntriesBelong(
    ns: bytes, methods: seq<AccessMethod>, m: AccessMethod, segments: seq<bytes>, pkey: bytes, value: bytes)
    requires m in methods
    ensures AllBelong(ns, methods, pkey, m.kind.ByPath?, EntriesOf(ns, m.slot, segments, pkey, value))
    decreases |segments|
  {
    if segments != [] {
      EntriesBelong(ns, methods, m, segments[1..], pkey, value);
      assert Belongs(ns, methods, pkey, m.kind.ByPath?, Key(ns, m.slot, segments[0] + pkey));
    }
  }

  lemma {:induction false} BelongsToMore(ns: bytes, methods: seq<AccessMethod>, pkey: bytes, paths: bool,
      entries: seq<Entry>)
    requires methods != [] && AllBelong(ns, methods[1..], pkey, paths, entries)
    ensures AllBelong(ns, methods, pkey, paths, entries)
  {
    forall i | 0 <= i < |entries| ensures Belongs(ns, methods, pkey, paths, entries[i].0) {
      var m, segment :| m in methods[1..] && m.kind.ByPath? == paths && entries[i].0 == Key(ns, m.slot, segment + pkey);
      assert m in methods;
    }
  }

  lemma {:induction false} RowEntriesBelong(s: Schema, ns: bytes, methods: seq<AccessMethod>, pkey: bytes,
      document: ValueMap)
    requires IndexEntries(s, ns, methods, pkey, document).Some?
    ensures AllBelong(ns, methods, pkey, false, IndexEntries(s, ns, methods, pkey, document).value)
    decreases |methods|
  {
    hide Belongs, Segments, OrderedImages, EntriesOf;
    if methods != [] {
      RowEntriesBelong(s, ns, methods[1..], pkey, document);
      BelongsToMore(ns, methods, pkey, false, IndexEntries(s, ns, methods[1..], pkey, document).value);
      var m := methods[0];
      if Admitted(m, document) == Some(true) {
        EntriesBelong(ns, methods, m, Segments(s, m, document).value, pkey, OrderedImages(s, m.includes, document).value);
      }
    }
  }

  lemma {:induction false} PathEntriesBelong(ns: bytes, methods: seq<AccessMethod>, pkey: bytes, document: ValueMap)
    ensures AllBelong(ns, methods, pkey, true, PathEntries(ns, methods, pkey, document))
    decreases |methods|
  {
    hide Belongs, PathSegments, EntriesOf;
    if methods != [] {
      PathEntriesBelong(ns, methods[1..], pkey, document);
      BelongsToMore(ns, methods, pkey, true, PathEntries(ns, methods[1..], pkey, document));
      var m := methods[0];
      if m.kind.ByPath? {
        EntriesBelong(ns, methods, m, PathSegments(m.kind.ty, Path.ResolvePath(document, m.kind.path)), pkey, []);
      }
    }
  }

  // --- Callables that look at the payload only ---

  function PayloadNames(s: Schema): set<bytes> { NamesOf(Payload(s)) }

  function PayloadOf(s: Schema, document: ValueMap): ValueMap { Restrict(document, PayloadNames(s)) }

  /** The host's callable gives the same answer for documents that agree on the payload fields. */
  ghost predicate PayloadOnly(s: Schema, m: AccessMethod) {
    && (m.kind.Partial? ==> forall d: ValueMap :: m.kind.admits(d) == m.kind.admits(PayloadOf(s, d)))
    && (m.kind.Func? ==> forall d: ValueMap :: m.kind.derive(d) == m.kind.derive(PayloadOf(s, d)))
  }

  lemma {:induction false} ImagesOfPayload(s: Schema, names: seq<bytes>, document: ValueMap)
    ensures Images(s, names, PayloadOf(s, document)) == Images(s, names, document)
    decreases |names|
  {
    hide IndexImage;
    if names != [] {
      ImagesOfPayload(s, names[1..], document);
      if !IsKeyField(s, names[0]) && FindField(s, names[0]).Some? { PayloadIsFound(s, names[0]); }
    }
  }

  lemma PayloadIsFound(s: Schema, name: bytes)
    requires !IsKeyField(s, name) && FindField(s, name).Some?
    ensures name in PayloadNames(s)
  {
    var all := s.keyFields + s.hot + s.cold;
    var i :| 0 <= i < |all| && all[i].name == name;
    if i >= |s.keyFields| { assert Payload(s)[i - |s.keyFields|].name == name; }
  }

  /** A row's entries are those of its payload fields: the stored row yields what the written map yielded. */
  lemma {:induction false} EntriesOfPayload(s: Schema, ns: bytes, methods: seq<AccessMethod>, pkey: bytes,
      document: ValueMap)
    requires forall i :: 0 <= i < |methods| ==> PayloadOnly(s, methods[i])
    ensures IndexEntries(s, ns, methods, pkey, PayloadOf(s, document)) == IndexEntries(s, ns, methods, pkey, document)
    decreases |methods|
  {
    hide EntriesOf, PayloadOf, Images, OrderFits;
    if methods != [] {
      var m := methods[0];
      assert forall i :: 0 <= i < |methods[1..]| ==> methods[1..][i] == methods[i + 1];
      EntriesOfPayload(s, ns, methods[1..], pkey, document);
      ImagesOfPayload(s, m.fields, document);
      ImagesOfPayload(s, m.includes, document);
      assert PayloadOnly(s, m);
    }
  }
}
