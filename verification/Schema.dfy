/** The payload codec a schema drives: a fixed-width hot segment, then tagged cold frames. */
module Schema {
  import opened Bytes
  import opened Value
  import opened Wire

  /** `OffsetT` is a biased 32-bit integer; `StrT` is variable-width text. */
  datatype FieldKind = U8T | U16T | U32T | U64T | FixedT | OffsetT(base: i64) | StrT

  datatype FieldDef = FieldDef(name: bytes, ty: FieldKind, width: nat, offset: nat, tag: Option<byte>, default: Option<Value>)

  datatype Schema = Schema(
    keyLen: nat, keyFields: seq<FieldDef>, version: byte, hotWidth: nat, hot: seq<FieldDef>, cold: seq<FieldDef>)

  const HEADER_LEN: nat := 3

  // --- Values and their images ---

  /** The image of a fixed-width value; nothing when the value is of another kind, width or window. */
  function FixedImage(f: FieldDef, v: Value): Option<bytes> {
    match (f.ty, v)
    case (U8T, U8(n)) => Some([n])
    case (U16T, U16(n)) => Some(BE(n, 2))
    case (U32T, U32(n)) => Some(BE(n, 4))
    case (U64T, U64(n)) => Some(BE(n, 8))
    case (FixedT, Blob(data)) => if |data| == f.width then Some(data) else None
    case (OffsetT(base), I64(x)) => if 0 <= x - base < U32_END then Some(BE(x - base, 4)) else None
    case _ => None
  }

  function OffsetValue(base: i64, d: u32): Option<Value> {
    if base + d < 0x8000_0000_0000_0000 then Some(I64(base + d)) else None
  }

  function DecodeFixed(f: FieldDef, raw: bytes): Option<Value> {
    match f.ty
    case U8T => if raw == [] then None else Some(U8(raw[0]))
    case U16T => if |raw| != 2 then None else Some(U16(U16At(raw, 0)))
    case U32T => if |raw| != 4 then None else Some(U32(U32At(raw, 0)))
    case U64T => if |raw| != 8 then None else Some(U64(U64At(raw, 0)))
    case FixedT => Some(Blob(raw))
    case OffsetT(base) => if |raw| != 4 then None else OffsetValue(base, U32At(raw, 0))
    case StrT => None
  }

  /** The width the kind has on the wire. */
  predicate WidthFits(f: FieldDef) {
    match f.ty
    case U8T => f.width == 1 case U16T => f.width == 2 case U32T => f.width == 4 case U64T => f.width == 8
    case FixedT => f.width > 0 case OffsetT(_) => f.width == 4 case StrT => false
  }

  lemma {:induction false} FixedReadsBack(f: FieldDef, v: Value)
    requires WidthFits(f) && FixedImage(f, v).Some?
    ensures |FixedImage(f, v).value| == f.width && DecodeFixed(f, FixedImage(f, v).value) == Some(v)
  {
    hide BE, FromBE;
    FixedRoundTrips();
    var raw := FixedImage(f, v).value;
    assert raw[0..|raw|] == raw;
  }

  // --- Encoding ---

  function EncodeHot(fields: seq<FieldDef>, values: ValueMap): Option<bytes> {
    if fields == [] then Some([])
    else if fields[0].name !in values then None
    else
      match FixedImage(fields[0], values[fields[0].name])
      case None => None
      case Some(image) =>
        match EncodeHot(fields[1..], values)
        case None => None
        case Some(rest) => Some(image + rest)
  }

  function ColdImage(f: FieldDef, v: Value): Option<bytes> {
    if f.ty.StrT? then (if v.Str? then Some(v.text) else None) else FixedImage(f, v)
  }

  function ColdFrame(f: FieldDef, v: Value): Option<bytes> {
    if f.tag.None? || ColdImage(f, v).None? then None
    else Some([f.tag.value] + PutLen(Low64(|ColdImage(f, v).value|)) + ColdImage(f, v).value)
  }

  function EncodeCold(fields: seq<FieldDef>, values: ValueMap): Option<bytes> {
    if fields == [] then Some([])
    else if fields[0].name !in values then None
    else
      match ColdFrame(fields[0], values[fields[0].name])
      case None => None
      case Some(frame) =>
        match EncodeCold(fields[1..], values)
        case None => None
        case Some(rest) => Some(frame + rest)
  }

  /** `[version][hot length][hot][cold]` */
  function EncodePayload(s: Schema, values: ValueMap): Option<bytes> {
    match EncodeHot(s.hot, values)
    case None => None
    case Some(hot) =>
      if |hot| != s.hotWidth then None
      else
        match EncodeCold(s.cold, values)
        case None => None
        case Some(cold) => Some([s.version] + BE(|hot|, 2) + hot + cold)
  }

  // --- Decoding ---

  /** Fields the segment is too short for are left out: they were appended after it was written. */
  function DecodeHot(fields: seq<FieldDef>, hot: bytes): Option<ValueMap> {
    if fields == [] then Some(map[])
    else
      match DecodeHot(fields[1..], hot)
      case None => None
      case Some(rest) =>
        var f := fields[0];
        if f.offset + f.width > |hot| then Some(rest)
        else
          match DecodeFixed(f, hot[f.offset..f.offset + f.width])
          case None => None
          case Some(v) => Some(map[f.name := v] + rest)
  }

  function ByTag(fields: seq<FieldDef>, tag: byte): (r: Option<FieldDef>)
    ensures r.Some? ==> r.value in fields && r.value.tag == Some(tag)
  {
    if fields == [] then None
    else if ByTag(fields[1..], tag).Some? then ByTag(fields[1..], tag)
    else if fields[0].tag == Some(tag) then Some(fields[0])
    else None
  }

  function DecodeColdValue(f: FieldDef, raw: bytes): Option<Value> {
    match f.ty
    case StrT => Some(Str(raw))
    case OffsetT(base) => if |raw| != 4 then None else OffsetValue(base, U32At(raw, 0))
    case _ => None
  }

  /** The frame at the front: its tag, its value and what follows. */
  function TakeFrame(s: bytes): (r: Option<(byte, bytes, bytes)>)
    ensures r.Some? ==> |r.value.2| < |s|
  {
    if s == [] then None
    else
      match TakeLen(s[1..])
      case None => None
      case Some((len, used)) =>
        var rest := s[1 + used..];
        if len > |rest| then None else Some((s[0], rest[..len], rest[len..]))
  }

  /** A frame with a tag the schema does not know is skipped. */
  function DecodeCold(fields: seq<FieldDef>, s: bytes): Option<ValueMap>
    decreases |s|
  {
    if s == [] then Some(map[])
    else
      match TakeFrame(s)
      case None => None
      case Some((tag, raw, rest)) =>
        match ByTag(fields, tag)
        case None => DecodeCold(fields, rest)
        case Some(f) =>
          match DecodeColdValue(f, raw)
          case None => None
          case Some(v) =>
            match DecodeCold(fields, rest)
            case None => None
            case Some(later) => Some(map[f.name := v] + later)
  }

  function DefaultOf(f: FieldDef): Value {
    if f.default.Some? then f.default.value
    else
      match f.ty
      case U8T => U8(0) case U16T => U16(0) case U32T => U32(0) case U64T => U64(0)
      case FixedT => Blob(Filled(0, f.width)) case OffsetT(base) => I64(base) case StrT => Str([])
  }

  function FillDefaults(fields: seq<FieldDef>, m: ValueMap): ValueMap {
    if fields == [] then m
    else FillDefaults(fields[1..], if fields[0].name in m then m else m[fields[0].name := DefaultOf(fields[0])])
  }

  function DecodePayload(s: Schema, bytes': bytes): Option<ValueMap> {
    if |bytes'| < HEADER_LEN || bytes'[0] > s.version then None
    else
      var hotEnd := HEADER_LEN + U16At(bytes', 1);
      if hotEnd > |bytes'| then None
      else
        match DecodeHot(s.hot, bytes'[HEADER_LEN..hotEnd])
        case None => None
        case Some(hot) =>
          match DecodeCold(s.cold, bytes'[hotEnd..])
          case None => None
          case Some(cold) => Some(FillDefaults(s.hot + s.cold, hot + cold))
  }

  /** The key's fields at their places. */
  function DecodeKey(s: Schema, key: bytes): Option<ValueMap> {
    if |key| < s.keyLen then None else DecodeHot(s.keyFields, key)
  }

  // --- Well-formed schemas ---

  predicate Contiguous(fields: seq<FieldDef>, at: nat) {
    fields == [] || (fields[0].offset == at && WidthFits(fields[0]) && Contiguous(fields[1..], at + fields[0].width))
  }

  function WidthOf(fields: seq<FieldDef>): nat { if fields == [] then 0 else fields[0].width + WidthOf(fields[1..]) }

  predicate NamesDiffer(fields: seq<FieldDef>) { forall i, j :: 0 <= i < j < |fields| ==> fields[i].name != fields[j].name }

  predicate ColdFits(f: FieldDef) { f.tag.Some? && ((f.ty.StrT? && f.width == 0) || (f.ty.OffsetT? && f.width == 4)) }

  predicate TagsDiffer(fields: seq<FieldDef>) {
    forall i, j :: 0 <= i < j < |fields| ==> fields[i].tag != fields[j].tag
  }

  predicate WellFormed(s: Schema) {
    && Contiguous(s.keyFields, 0) && WidthOf(s.keyFields) == s.keyLen
    && Contiguous(s.hot, 0) && WidthOf(s.hot) == s.hotWidth < U16_END
    && (forall i :: 0 <= i < |s.cold| ==> ColdFits(s.cold[i])) && TagsDiffer(s.cold)
    && NamesDiffer(s.hot + s.cold)
  }

  function Payload(s: Schema): seq<FieldDef> { s.hot + s.cold }

  function NamesOf(fields: seq<FieldDef>): set<bytes> { set i | 0 <= i < |fields| :: fields[i].name }

  function Restrict(m: ValueMap, names: set<bytes>): ValueMap { map n | n in names && n in m :: m[n] }

  // --- The hot segment across schemas ---

  lemma {:induction false} HotWidths(fields: seq<FieldDef>, at: nat, values: ValueMap)
    requires Contiguous(fields, at) && EncodeHot(fields, values).Some?
    ensures |EncodeHot(fields, values).value| == WidthOf(fields)
    decreases |fields|
  {
    hide FixedImage, WidthFits;
    if fields != [] {
      FixedWidthIs(fields[0], values[fields[0].name]);
      HotWidths(fields[1..], at + fields[0].width, values);
    }
  }

  lemma FixedWidthIs(f: FieldDef, v: Value)
    requires WidthFits(f) && FixedImage(f, v).Some?
    ensures |FixedImage(f, v).value| == f.width && f.width > 0
  {
    FixedReadsBack(f, v);
  }

  lemma {:induction false} NothingFits(fields: seq<FieldDef>, at: nat, hot: bytes)
    requires Contiguous(fields, at) && |hot| <= at
    ensures DecodeHot(fields, hot) == Some(map[])
    decreases |fields|
  {
    hide DecodeFixed;
    if fields != [] { NothingFits(fields[1..], at + fields[0].width, hot); }
  }

  /** One list of fields begins the other: a schema that only appended. */
  predicate Nested(a: seq<FieldDef>, b: seq<FieldDef>) { a <= b || b <= a }

  function Shorter(a: seq<FieldDef>, b: seq<FieldDef>): seq<FieldDef> { if |a| <= |b| then a else b }

  /** A segment written for fields `w` gives a reader of fields `r` exactly those both have. */
  lemma {:induction false} HotAcross(w: seq<FieldDef>, r: seq<FieldDef>, values: ValueMap, before: bytes)
    requires Nested(w, r) && Contiguous(w, |before|) && Contiguous(r, |before|) && EncodeHot(w, values).Some?
    requires NamesDiffer(w) && NamesDiffer(r)
    ensures DecodeHot(r, before + EncodeHot(w, values).value) == Some(Restrict(values, NamesOf(Shorter(w, r))))
    decreases |w| + |r|
  {
    hide FixedImage, DecodeFixed, WidthFits, NamesDiffer;
    var hot := before + EncodeHot(w, values).value;
    if r == [] {
      assert Restrict(values, NamesOf([])) == map[];
    } else if w == [] {
      assert hot == before;
      NothingFits(r, |before|, hot);
      assert Restrict(values, NamesOf([])) == map[];
    } else {
      var f := w[0];
      assert r[0] == f;
      FixedReadsBack(f, values[f.name]);
      var image := FixedImage(f, values[f.name]).value;
      var rest := EncodeHot(w[1..], values).value;
      assert hot == before + image + rest;
      assert hot[f.offset..f.offset + f.width] == image;
      TailsDiffer(w);
      TailsDiffer(r);
      TailsNest(w, r);
      HotAcross(w[1..], r[1..], values, before + image);
      assert before + image + rest == hot;
      ShorterCons(w, r, values);
    }
  }

  lemma TailsNest(w: seq<FieldDef>, r: seq<FieldDef>)
    requires Nested(w, r) && w != [] && r != []
    ensures Nested(w[1..], r[1..]) && w[0] == r[0]
  {
    if w <= r {
      assert r[1..][..|w| - 1] == r[..|w|][1..];
    } else {
      assert w[1..][..|r| - 1] == w[..|r|][1..];
    }
  }

  lemma TailsDiffer(fields: seq<FieldDef>)
    requires NamesDiffer(fields) && fields != []
    ensures NamesDiffer(fields[1..])
  {
    assert forall i :: 0 <= i < |fields[1..]| ==> fields[1..][i] == fields[i + 1];
  }

  lemma NamesCons(fields: seq<FieldDef>)
    requires fields != []
    ensures NamesOf(fields) == {fields[0].name} + NamesOf(fields[1..])
  {
    forall n | n in NamesOf(fields) && n != fields[0].name ensures n in NamesOf(fields[1..]) {
      var i :| 0 <= i < |fields| && fields[i].name == n;
      assert fields[1..][i - 1].name == n;
    }
    forall n | n in NamesOf(fields[1..]) ensures n in NamesOf(fields) {
      var i :| 0 <= i < |fields[1..]| && fields[1..][i].name == n;
      assert fields[i + 1].name == n;
    }
  }

  lemma ShorterCons(w: seq<FieldDef>, r: seq<FieldDef>, values: ValueMap)
    requires w != [] && r != [] && w[0] == r[0] && w[0].name in values
    ensures Restrict(values, NamesOf(Shorter(w, r)))
         == map[w[0].name := values[w[0].name]] + Restrict(values, NamesOf(Shorter(w[1..], r[1..])))
  {
    NamesCons(Shorter(w, r));
    assert Shorter(w, r)[1..] == Shorter(w[1..], r[1..]);
  }

  // --- The cold frames across schemas ---

  lemma {:induction false} FrameReadsBack(f: FieldDef, v: Value, rest: bytes)
    requires ColdFrame(f, v).Some? && |ColdImage(f, v).value| < U64_END
    ensures TakeFrame(ColdFrame(f, v).value + rest) == Some((f.tag.value, ColdImage(f, v).value, rest))
  {
    hide PutLen, TakeLen, ColdImage;
    var raw := ColdImage(f, v).value;
    var s := ColdFrame(f, v).value + rest;
    var len := PutLen(|raw|);
    assert s[1..] == len + (raw + rest);
    TakePut(|raw|, raw + rest);
    assert s[1 + |len|..] == raw + rest;
    assert (raw + rest)[..|raw|] == raw && (raw + rest)[|raw|..] == rest;
  }

  lemma {:induction false} ColdValueReadsBack(f: FieldDef, v: Value)
    requires ColdFits(f) && ColdImage(f, v).Some?
    ensures DecodeColdValue(f, ColdImage(f, v).value) == Some(v)
  {
    hide BE, FromBE;
    FixedRoundTrips();
    var raw := ColdImage(f, v).value;
    assert raw[0..|raw|] == raw;
  }

  /** The fields of `w` that `r` knows by tag. */
  function Known(w: seq<FieldDef>, r: seq<FieldDef>): seq<FieldDef> {
    if w == [] then []
    else (if w[0].tag.Some? && ByTag(r, w[0].tag.value).Some? then [w[0]] else []) + Known(w[1..], r)
  }

  /** Tags mean the same field to both sides. */
  predicate TagsAgree(w: seq<FieldDef>, r: seq<FieldDef>) {
    forall i :: 0 <= i < |w| ==> ColdFits(w[i]) && (ByTag(r, w[i].tag.value).None? || ByTag(r, w[i].tag.value) == Some(w[i]))
  }

  lemma {:induction false} ColdAcross(w: seq<FieldDef>, r: seq<FieldDef>, values: ValueMap)
    requires TagsAgree(w, r) && EncodeCold(w, values).Some? && |EncodeCold(w, values).value| < U64_END
    ensures DecodeCold(r, EncodeCold(w, values).value) == Some(Restrict(values, NamesOf(Known(w, r))))
    decreases |w|
  {
    hide ColdImage, DecodeColdValue, TakeFrame, ColdFrame, Restrict, NamesOf, ByTag, DecodeCold;
    if w == [] {
      NothingKnown(r, values);
    } else {
      var f := w[0];
      var v := values[f.name];
      var rest := EncodeCold(w[1..], values).value;
      FrameIsLonger(f, v);
      FrameReadsBack(f, v, rest);
      ColdValueReadsBack(f, v);
      assert forall i :: 0 <= i < |w[1..]| ==> w[1..][i] == w[i + 1];
      ColdAcross(w[1..], r, values);
      OneFrame(r, ColdFrame(f, v).value + rest, f.tag.value, ColdImage(f, v).value, rest);
      KnownCons(w, r, values);
    }
  }

  lemma NothingKnown(r: seq<FieldDef>, values: ValueMap)
    ensures DecodeCold(r, []) == Some(map[]) && Restrict(values, NamesOf([])) == map[]
  {}

  lemma OneFrame(r: seq<FieldDef>, s: bytes, tag: byte, raw: bytes, rest: bytes)
    requires TakeFrame(s) == Some((tag, raw, rest)) && DecodeCold(r, rest).Some?
    requires ByTag(r, tag).Some? ==> DecodeColdValue(ByTag(r, tag).value, raw).Some?
    ensures DecodeCold(r, s)
         == if ByTag(r, tag).None? then DecodeCold(r, rest)
            else Some(map[ByTag(r, tag).value.name := DecodeColdValue(ByTag(r, tag).value, raw).value] + DecodeCold(r, rest).value)
  {
    assert s != [];
    hide TakeFrame, ByTag, DecodeColdValue;
  }

  lemma KnownCons(w: seq<FieldDef>, r: seq<FieldDef>, values: ValueMap)
    requires w != [] && w[0].tag.Some? && w[0].name in values
    ensures Restrict(values, NamesOf(Known(w, r)))
         == if ByTag(r, w[0].tag.value).None? then Restrict(values, NamesOf(Known(w[1..], r)))
            else map[w[0].name := values[w[0].name]] + Restrict(values, NamesOf(Known(w[1..], r)))
  {
    hide ByTag, NamesOf;
    var (known, rest) := (Known(w, r), Known(w[1..], r));
    if ByTag(r, w[0].tag.value).Some? {
      assert known == [w[0]] + rest;
      NamesCons(known);
      assert known[1..] == rest;
    } else {
      assert known == rest;
    }
  }

  lemma FrameIsLonger(f: FieldDef, v: Value)
    requires ColdFrame(f, v).Some?
    ensures f.tag.Some? && ColdImage(f, v).Some? && |ColdImage(f, v).value| < |ColdFrame(f, v).value|
  {}

  // --- Payloads ---

  /** One schema only appended fields to the other, whose tags still mean what they meant. */
  predicate Evolves(w: Schema, r: Schema) {
    WellFormed(w) && WellFormed(r) && Nested(w.hot, r.hot) && TagsAgree(w.cold, r.cold)
  }

  lemma {:induction false} PayloadSplits(s: Schema, values: ValueMap)
    requires WellFormed(s) && EncodePayload(s, values).Some?
    ensures var p := EncodePayload(s, values).value;
      && EncodeHot(s.hot, values).Some? && EncodeCold(s.cold, values).Some?
      && |EncodeHot(s.hot, values).value| == s.hotWidth
      && |p| >= HEADER_LEN && p[0] == s.version && U16At(p, 1) == s.hotWidth && HEADER_LEN + s.hotWidth <= |p|
      && p[HEADER_LEN..HEADER_LEN + s.hotWidth] == EncodeHot(s.hot, values).value
      && p[HEADER_LEN + s.hotWidth..] == EncodeCold(s.cold, values).value
  {
    hide EncodeHot, EncodeCold, BE, FromBE, Contiguous, WidthOf, NamesDiffer, TagsDiffer;
    FixedRoundTrips();
    var (hot, cold) := (EncodeHot(s.hot, values).value, EncodeCold(s.cold, values).value);
    var p := EncodePayload(s, values).value;
    assert p[1..3] == BE(|hot|, 2);
    assert p[3..3 + |hot|] == hot && p[3 + |hot|..] == cold;
  }

  /** A payload of a newer version is refused. */
  lemma {:induction false} NewerIsRefused(w: Schema, r: Schema, values: ValueMap)
    requires EncodePayload(w, values).Some?
    ensures w.version > r.version ==> DecodePayload(r, EncodePayload(w, values).value) == None
  {
    hide EncodeHot, EncodeCold;
  }

  /** Reading under one schema what another wrote: a newer version is refused, any other gives the fields both know, and
      the defaults of the rest. */
  lemma {:induction false} PayloadAcross(w: Schema, r: Schema, values: ValueMap)
    requires Evolves(w, r)
    requires EncodePayload(w, values).Some? && |EncodePayload(w, values).value| < U64_END
    ensures DecodePayload(r, EncodePayload(w, values).value)
         == if w.version > r.version then None
            else Some(FillDefaults(Payload(r), Restrict(values, NamesOf(Shorter(w.hot, r.hot)) + NamesOf(Known(w.cold, r.cold)))))
  {
    NewerIsRefused(w, r, values);
    if w.version <= r.version { KnownAcross(w, r, values); }
  }

  lemma {:induction false} KnownAcross(w: Schema, r: Schema, values: ValueMap)
    requires Evolves(w, r) && w.version <= r.version
    requires EncodePayload(w, values).Some? && |EncodePayload(w, values).value| < U64_END
    ensures DecodePayload(r, EncodePayload(w, values).value)
         == Some(FillDefaults(Payload(r), Restrict(values, NamesOf(Shorter(w.hot, r.hot)) + NamesOf(Known(w.cold, r.cold)))))
  {
    hide EncodeHot, EncodeCold, DecodeHot, DecodeCold, FillDefaults, NamesOf, Known, Contiguous, WidthOf, TagsAgree,
      TagsDiffer, EncodePayload, Nested;
    PayloadSplits(w, values);
    FrontDiffers(w.hot, w.cold);
    FrontDiffers(r.hot, r.cold);
    hide NamesDiffer;
    var hot := EncodeHot(w.hot, values).value;
    assert [] + hot == hot;
    HotAcross(w.hot, r.hot, values, []);
    ColdAcross(w.cold, r.cold, values);
    var (a, b) := (NamesOf(Shorter(w.hot, r.hot)), NamesOf(Known(w.cold, r.cold)));
    assert Restrict(values, a) + Restrict(values, b) == Restrict(values, a + b);
  }

  lemma FrontDiffers(a: seq<FieldDef>, b: seq<FieldDef>)
    requires NamesDiffer(a + b)
    ensures NamesDiffer(a)
  {
    assert forall i :: 0 <= i < |a| ==> (a + b)[i] == a[i];
  }

  lemma {:induction false} ByTagFinds(fields: seq<FieldDef>, i: nat)
    requires TagsDiffer(fields) && i < |fields| && fields[i].tag.Some?
    ensures ByTag(fields, fields[i].tag.value) == Some(fields[i])
    decreases |fields|
  {
    var rest := fields[1..];
    assert forall k :: 0 <= k < |rest| ==> rest[k] == fields[k + 1];
    if i > 0 {
      ByTagFinds(rest, i - 1);
    }
  }

  lemma {:induction false} KnownAll(w: seq<FieldDef>, r: seq<FieldDef>)
    requires forall i :: 0 <= i < |w| ==> w[i].tag.Some? && ByTag(r, w[i].tag.value).Some?
    ensures Known(w, r) == w
    decreases |w|
  {
    hide ByTag;
    if w != [] {
      assert forall i :: 0 <= i < |w[1..]| ==> w[1..][i] == w[i + 1];
      KnownAll(w[1..], r);
    }
  }

  lemma {:induction false} NothingToFill(fields: seq<FieldDef>, m: ValueMap)
    requires NamesOf(fields) <= m.Keys
    ensures FillDefaults(fields, m) == m
    decreases |fields|
  {
    if fields != [] {
      NamesCons(fields);
      NothingToFill(fields[1..], m);
    }
  }

  lemma {:induction false} EncodedNames(fields: seq<FieldDef>, values: ValueMap)
    ensures EncodeHot(fields, values).Some? || EncodeCold(fields, values).Some? ==> NamesOf(fields) <= values.Keys
    decreases |fields|
  {
    hide FixedImage, ColdFrame;
    if fields != [] {
      NamesCons(fields);
      EncodedNames(fields[1..], values);
    }
  }

  lemma NamesJoin(a: seq<FieldDef>, b: seq<FieldDef>)
    ensures NamesOf(a + b) == NamesOf(a) + NamesOf(b)
  {
    forall n | n in NamesOf(a) + NamesOf(b) ensures n in NamesOf(a + b) {
      if n in NamesOf(a) {
        var i :| 0 <= i < |a| && a[i].name == n;
        assert (a + b)[i].name == n;
      } else {
        var i :| 0 <= i < |b| && b[i].name == n;
        assert (a + b)[|a| + i].name == n;
      }
    }
  }

  /** A row reads back as its payload fields, whatever else its map carried. */
  lemma {:induction false} PayloadRoundTrip(s: Schema, values: ValueMap)
    requires WellFormed(s) && EncodePayload(s, values).Some? && |EncodePayload(s, values).value| < U64_END
    ensures DecodePayload(s, EncodePayload(s, values).value) == Some(Restrict(values, NamesOf(Payload(s))))
    ensures NamesOf(Payload(s)) <= values.Keys
  {
    hide EncodeHot, EncodeCold, DecodePayload, FillDefaults, NamesOf, Contiguous, WidthOf, NamesDiffer, TagsDiffer,
      Known;
    forall i | 0 <= i < |s.cold| ensures ByTag(s.cold, s.cold[i].tag.value) == Some(s.cold[i]) { ByTagFinds(s.cold, i); }
    PayloadAcross(s, s, values);
    KnownAll(s.cold, s.cold);
    EncodedNames(s.hot, values);
    EncodedNames(s.cold, values);
    NamesJoin(s.hot, s.cold);
    NothingToFill(Payload(s), Restrict(values, NamesOf(Payload(s))));
  }

  /** `later` appended `hot` and `cold` fields to `s`. */
  predicate Appends(s: Schema, later: Schema) {
    WellFormed(s) && WellFormed(later) && s.hot <= later.hot && s.cold <= later.cold
  }

  lemma {:induction false} AppendedTags(a: seq<FieldDef>, b: seq<FieldDef>)
    requires a <= b && TagsDiffer(b) && forall i :: 0 <= i < |b| ==> ColdFits(b[i])
    ensures TagsAgree(a, b) && TagsAgree(b, a) && Known(a, b) == a && Known(b, a) == a
  {
    hide Known;
    assert TagsDiffer(a) by { assert forall i :: 0 <= i < |a| ==> a[i] == b[i]; }
    forall i | 0 <= i < |a| ensures ByTag(b, a[i].tag.value) == Some(a[i]) && ByTag(a, a[i].tag.value) == Some(a[i]) {
      ByTagFinds(b, i);
      ByTagFinds(a, i);
    }
    forall i | |a| <= i < |b| ensures ByTag(a, b[i].tag.value).None? {}
    assert forall i :: 0 <= i < |a| ==> b[i] == a[i];
    KnownAll(a, b);
    KnownFront(b, a, |a|);
  }

  lemma {:induction false} KnownFront(w: seq<FieldDef>, r: seq<FieldDef>, n: nat)
    requires n <= |w| && forall i :: 0 <= i < |w| ==> w[i].tag.Some? && (ByTag(r, w[i].tag.value).Some? <==> i < n)
    ensures Known(w, r) == w[..n]
    decreases |w|
  {
    hide ByTag;
    if w != [] {
      assert forall i :: 0 <= i < |w[1..]| ==> w[1..][i] == w[i + 1];
      KnownFront(w[1..], r, if n == 0 then 0 else n - 1);
    }
  }

  /** An old payload read under a schema that appended fields: the old values, and the defaults of the new fields only. */
  lemma {:induction false} OldPayloadUnderNewSchema(s: Schema, later: Schema, values: ValueMap)
    requires Appends(s, later) && s.version <= later.version
    requires EncodePayload(s, values).Some? && |EncodePayload(s, values).value| < U64_END
    ensures DecodePayload(later, EncodePayload(s, values).value)
         == Some(FillDefaults(Payload(later), Restrict(values, NamesOf(Payload(s)))))
    ensures NamesOf(Payload(s)) <= values.Keys
  {
    hide EncodeHot, EncodeCold, DecodePayload, EncodePayload, FillDefaults, NamesOf, Contiguous, WidthOf, NamesDiffer,
      Known, TagsAgree;
    AppendedTags(s.cold, later.cold);
    PayloadAcross(s, later, values);
    PayloadSplits(s, values);
    EncodedNames(s.hot, values);
    EncodedNames(s.cold, values);
    NamesJoin(s.hot, s.cold);
  }

  /** A new payload read under the old schema: refused when its version is newer, otherwise its projection on the old
      fields. */
  lemma {:induction false} NewPayloadUnderOldSchema(s: Schema, later: Schema, values: ValueMap)
    requires Appends(s, later)
    requires EncodePayload(later, values).Some? && |EncodePayload(later, values).value| < U64_END
    ensures DecodePayload(s, EncodePayload(later, values).value)
         == if later.version > s.version then None else Some(Restrict(values, NamesOf(Payload(s))))
  {
    hide EncodeHot, EncodeCold, DecodePayload, EncodePayload, FillDefaults, NamesOf, Contiguous, WidthOf, NamesDiffer,
      Known, TagsAgree;
    AppendedTags(s.cold, later.cold);
    PayloadAcross(later, s, values);
    PayloadSplits(later, values);
    EncodedNames(later.hot, values);
    EncodedNames(later.cold, values);
    NamesJoin(s.hot, s.cold);
    PrefixNames(s.hot, later.hot);
    PrefixNames(s.cold, later.cold);
    assert Shorter(later.hot, s.hot) == s.hot;
    NothingToFill(Payload(s), Restrict(values, NamesOf(Payload(s))));
  }

  lemma PrefixNames(a: seq<FieldDef>, b: seq<FieldDef>)
    requires a <= b
    ensures NamesOf(a) <= NamesOf(b)
  {
    forall n | n in NamesOf(a) ensures n in NamesOf(b) {
      var i :| 0 <= i < |a| && a[i].name == n;
      assert b[i].name == n;
    }
  }

  /** What filling in defaults means: every field not there takes its own default, nothing else changes. */
  lemma {:induction false} FilledIs(fields: seq<FieldDef>, m: ValueMap, i: nat)
    requires NamesDiffer(fields) && i < |fields|
    ensures var f := fields[i];
      f.name in FillDefaults(fields, m) && FillDefaults(fields, m)[f.name] == if f.name in m then m[f.name] else DefaultOf(f)
    decreases |fields|
  {
    hide DefaultOf;
    var m' := if fields[0].name in m then m else m[fields[0].name := DefaultOf(fields[0])];
    TailsDiffer(fields);
    if i == 0 {
      FillKeeps(fields[1..], m', fields[0].name);
    } else {
      assert fields[1..][i - 1] == fields[i];
      FilledIs(fields[1..], m', i - 1);
    }
  }

  lemma {:induction false} FillKeeps(fields: seq<FieldDef>, m: ValueMap, name: bytes)
    requires name in m
    ensures name in FillDefaults(fields, m) && FillDefaults(fields, m)[name] == m[name]
    decreases |fields|
  {
    hide DefaultOf;
    if fields != [] {
      FillKeeps(fields[1..], if fields[0].name in m then m else m[fields[0].name := DefaultOf(fields[0])], name);
    }
  }

  /** Encoding looks at the payload fields only. */
  lemma {:induction false} EncodeReadsFields(fields: seq<FieldDef>, values: ValueMap, names: set<bytes>)
    requires NamesOf(fields) <= names
    ensures EncodeHot(fields, Restrict(values, names)) == EncodeHot(fields, values)
    ensures EncodeCold(fields, Restrict(values, names)) == EncodeCold(fields, values)
    decreases |fields|
  {
    hide FixedImage, ColdFrame;
    if fields != [] {
      NamesCons(fields);
      EncodeReadsFields(fields[1..], values, names);
    }
  }

  lemma {:induction false} EncodeReadsPayload(s: Schema, values: ValueMap)
    ensures EncodePayload(s, Restrict(values, NamesOf(Payload(s)))) == EncodePayload(s, values)
  {
    hide EncodeHot, EncodeCold, Restrict;
    NamesJoin(s.hot, s.cold);
    EncodeReadsFields(s.hot, values, NamesOf(Payload(s)));
    EncodeReadsFields(s.cold, values, NamesOf(Payload(s)));
  }
}
