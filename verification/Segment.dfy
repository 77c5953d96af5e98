/** A document's dynamic segment: frames of (name id, type, length, value), and the name vocabulary they share. */
module Segment {
  import opened Bytes
  import opened Order
  import opened Value
  import opened Wire

  // --- The vocabulary ---

  /** Both directions of a table's field names, the next id to hand out, and what the current plan allocated. */
  datatype Vocab = Vocab(byName: map<bytes, u16>, byId: map<u16, bytes>, next: u16, written: seq<(bytes, u16)>)

  /** The id of `name`, allocated on first sight; nothing when the two-byte ids are used up. */
  function Resolve(v: Vocab, name: bytes): (Option<u16>, Vocab) {
    if name in v.byName then (Some(v.byName[name]), v)
    else if v.next + 1 >= U16_END then (None, v)
    else
      (Some(v.next), Vocab(v.byName[name := v.next], v.byId[v.next := name], v.next + 1, v.written + [(name, v.next)]))
  }

  /** Ids are dense from 0, and names and ids are one to one. */
  ghost predicate Bijective(v: Vocab) {
    && (forall id: u16 :: id in v.byId <==> id < v.next)
    && (forall name :: name in v.byName ==> v.byName[name] in v.byId && v.byId[v.byName[name]] == name)
    && (forall id :: id in v.byId ==> v.byId[id] in v.byName && v.byName[v.byId[id]] == id)
  }

  /** Nothing the earlier vocabulary says is taken back. */
  ghost predicate Grows(a: Vocab, b: Vocab) {
    && a.next <= b.next
    && (forall id :: id in a.byId ==> id in b.byId && b.byId[id] == a.byId[id])
    && (forall name :: name in a.byName ==> name in b.byName && b.byName[name] == a.byName[name])
  }

  /** Every id beyond the earlier vocabulary's is in the list of what was allocated, in order. */
  ghost predicate Accounted(a: Vocab, b: Vocab) {
    && a.next <= b.next && a.written <= b.written && |b.written| == |a.written| + b.next - a.next
    && (forall id: u16 :: a.next <= id < b.next ==> id in b.byId && b.written[|a.written| + id - a.next] == (b.byId[id], id))
  }

  lemma {:induction false} ResolveKeeps(v: Vocab, name: bytes)
    requires Bijective(v)
    ensures var (id, v') := Resolve(v, name);
      && Bijective(v') && Grows(v, v') && Accounted(v, v')
      && (id.Some? ==> id.value in v'.byId && v'.byId[id.value] == name)
      && (id.None? <==> name !in v.byName && v.next == U16_END - 1)
  {}

  lemma GrowsIsTransitive(a: Vocab, b: Vocab, c: Vocab)
    requires Grows(a, b) && Grows(b, c)
    ensures Grows(a, c)
    ensures Accounted(a, b) && Accounted(b, c) ==> Accounted(a, c)
  {}

  // --- Frames ---

  const UINT: byte := 0
  const F64_TAG: byte := 1
  const STR: byte := 2
  const BLOB: byte := 3
  const BOOL: byte := 4
  const NULL: byte := 5
  const ARRAY: byte := 6
  const OBJ: byte := 7
  const INT: byte := 8

  function PutId(id: u16): bytes { if id < 255 then [id] else [255] + BE(id, 2) }

  function TypeTag(v: Value): byte {
    match v
    case U8(_) => UINT case U16(_) => UINT case U32(_) => UINT case U64(_) => UINT
    case I64(_) => INT case F64(_) => F64_TAG case Bool(_) => BOOL case Null => NULL
    case Blob(_) => BLOB case Str(_) => STR case Obj(_) => OBJ case Array(_) => ARRAY
  }

  /** `[type][len][body]` */
  function Framed(tag: byte, body: bytes): bytes { [tag] + PutLen(Low64(|body|)) + body }

  /** A value's body. Composites resolve their names through the vocabulary as they go. */
  function EncodeBody(value: Value, v: Vocab): (Option<bytes>, Vocab)
    decreases value, 2, 0
  {
    match value
    case U8(n) => (Some(UIntBytes(n)), v)
    case U16(n) => (Some(UIntBytes(n)), v)
    case U32(n) => (Some(UIntBytes(n)), v)
    case U64(n) => (Some(UIntBytes(n)), v)
    case I64(i) => (Some(IntBytes(i)), v)
    case F64(image) => (Some(image), v)
    case Bool(b) => (Some([if b then 1 else 0]), v)
    case Null => (Some([]), v)
    case Blob(data) => (Some(data), v)
    case Str(text) => (Some(text), v)
    case Obj(fields) => EncodeFields(value, Sorted(fields.Keys), v)
    case Array(items) =>
      var (rest, v') := EncodeItems(value, items, v);
      (if rest.None? then None else Some(PutLen(Low64(|items|)) + rest.value), v')
  }

  function EncodeFields(obj: Value, names: seq<bytes>, v: Vocab): (Option<bytes>, Vocab)
    requires obj.Obj?
    decreases obj, 1, |names|
  {
    if names == [] then (Some([]), v)
    else if names[0] !in obj.fields then EncodeFields(obj, names[1..], v)
    else
      match EncodeField(obj, names[0], v)
      case (None, v') => (None, v')
      case (Some(one), v') =>
        match EncodeFields(obj, names[1..], v')
        case (None, v'') => (None, v'')
        case (Some(rest), v'') => (Some(one + rest), v'')
  }

  /** `[id][type][len][body]` */
  function EncodeField(obj: Value, name: bytes, v: Vocab): (Option<bytes>, Vocab)
    requires obj.Obj? && name in obj.fields
    decreases obj, 0, 0
  {
    match Resolve(v, name)
    case (None, v') => (None, v')
    case (Some(id), v') =>
      match EncodeBody(obj.fields[name], v')
      case (None, v'') => (None, v'')
      case (Some(body), v'') => (Some(PutId(id) + Framed(TypeTag(obj.fields[name]), body)), v'')
  }

  function EncodeItems(list: Value, items: seq<Value>, v: Vocab): (Option<bytes>, Vocab)
    requires list.Array? && |items| <= |list.items| && items == list.items[|list.items| - |items|..]
    decreases list, 1, |items|
  {
    if items == [] then (Some([]), v)
    else
      match EncodeBody(items[0], v)
      case (None, v') => (None, v')
      case (Some(body), v') =>
        match EncodeItems(list, items[1..], v')
        case (None, v'') => (None, v'')
        case (Some(rest), v'') => (Some(Framed(TypeTag(items[0]), body) + rest), v'')
  }

  // --- Reading frames ---

  /** A frame off the front: torn, of a type this reader does not know, or read; and what follows it. */
  datatype Read<T> = Torn | Unknown(rest: bytes) | Got(value: T, rest: bytes)

  function TakeId(s: bytes): Option<(u16, bytes)> {
    if s == [] then None
    else if s[0] < 255 then Some((s[0], s[1..]))
    else if |s| < 3 then None
    else Some((U16At(s, 1), s[3..]))
  }

  /** `[type][len][body]` off the front. */
  function TakeFramed(s: bytes): (r: Option<(byte, bytes, bytes)>)
    ensures r.Some? ==> |r.value.1| + |r.value.2| + 2 <= |s|
  {
    if s == [] then None
    else
      match TakeLen(s[1..])
      case None => None
      case Some((len, used)) =>
        var rest := s[1 + used..];
        if len > |rest| then None else Some((s[0], rest[..len], rest[len..]))
  }

  function DecodeBody(tag: byte, body: bytes, names: map<u16, bytes>): Option<Value>
    decreases |body|, 4
  {
    if tag == UINT then (match ReadUInt(body) case None => None case Some(n) => Some(U64(n)))
    else if tag == INT then (match ReadInt(body) case None => None case Some(i) => Some(I64(i)))
    else if tag == F64_TAG then (if |body| != 8 then None else Some(F64(body)))
    else if tag == STR then Some(Str(body))
    else if tag == BLOB then Some(Blob(body))
    else if tag == BOOL then (if |body| != 1 then None else Some(Bool(body[0] != 0)))
    else if tag == NULL then (if body != [] then None else Some(Null))
    else if tag == ARRAY then
      match TakeLen(body)
      case None => None
      case Some((count, used)) =>
        match DecodeItems(count, body[used..], names)
        case None => None
        case Some(items) => Some(Array(items))
    else if tag == OBJ then
      match DecodeFields(body, names)
      case None => None
      case Some(fields) => Some(Obj(fields))
    else None
  }

  function DecodeItems(count: nat, s: bytes, names: map<u16, bytes>): Option<seq<Value>>
    decreases |s|, 2, count
  {
    if count == 0 then Some([])
    else
      match TakeFramed(s)
      case None => None
      case Some((tag, body, rest)) =>
        match DecodeBody(tag, body, names)
        case None => None
        case Some(item) =>
          match DecodeItems(count - 1, rest, names)
          case None => None
          case Some(items) => Some([item] + items)
  }

  /** One field frame: its id and its value. */
  function DecodeFrame(s: bytes, names: map<u16, bytes>): (r: Read<(u16, Value)>)
    ensures !r.Torn? ==> |r.rest| < |s|
    decreases |s|, 0
  {
    match TakeId(s)
    case None => Torn
    case Some((id, s')) =>
      match TakeFramed(s')
      case None => Torn
      case Some((tag, body, rest)) =>
        if tag > INT then Unknown(rest)
        else
          match DecodeBody(tag, body, names)
          case None => Torn
          case Some(value) => Got((id, value), rest)
  }

  function Digits(n: nat): bytes {
    (if n < 10 then [] else Digits(n / 10)) + [48 + n % 10]
  }

  /** The fields of a nested object. A frame that cannot be read spoils the object; an id without a name shows as its number. */
  function DecodeFields(s: bytes, names: map<u16, bytes>): Option<ValueMap>
    decreases |s|, 3
  {
    if s == [] then Some(map[])
    else
      match DecodeFrame(s, names)
      case Torn => None
      case Unknown(_) => None
      case Got((id, value), rest) =>
        match DecodeFields(rest, names)
        case None => None
        case Some(later) => Some(map[if id in names then names[id] else Digits(id) := value] + later)
  }

  /** The fields of a segment. Unknown types and unnamed ids are skipped, a torn frame ends the list. */
  function DecodeSegment(s: bytes, names: map<u16, bytes>): ValueMap
    decreases |s|
  {
    match DecodeFrame(s, names)
    case Torn => map[]
    case Unknown(rest) => DecodeSegment(rest, names)
    case Got((id, value), rest) =>
      (if id in names then map[names[id] := value] else map[]) + DecodeSegment(rest, names)
  }

  function EncodeSegment(m: ValueMap, v: Vocab): (Option<bytes>, Vocab) { EncodeBody(Obj(m), v) }

  // --- The vocabulary only grows ---

  lemma {:induction false} BodyKeeps(value: Value, v: Vocab)
    requires Bijective(v)
    ensures var v' := EncodeBody(value, v).1; Bijective(v') && Grows(v, v') && Accounted(v, v')
    decreases value, 2, 0
  {
    hide Bijective, Grows, Accounted, Resolve, UIntBytes, IntBytes, Sorted;
    GrowsItself(v);
    match value {
      case Obj(fields) => FieldsKeep(value, Sorted(fields.Keys), v);
      case Array(items) => ItemsKeep(value, items, v);
      case _ =>
    }
  }

  lemma GrowsItself(v: Vocab)
    ensures Grows(v, v) && Accounted(v, v)
  {}

  lemma {:induction false} FieldsKeep(obj: Value, names: seq<bytes>, v: Vocab)
    requires Bijective(v) && obj.Obj?
    ensures var v' := EncodeFields(obj, names, v).1; Bijective(v') && Grows(v, v') && Accounted(v, v')
    decreases obj, 1, |names|
  {
    hide Bijective, Grows, Accounted, EncodeField;
    GrowsItself(v);
    if names != [] {
      if names[0] !in obj.fields {
        FieldsKeep(obj, names[1..], v);
      } else {
        FieldKeeps(obj, names[0], v);
        var (one, v') := EncodeField(obj, names[0], v);
        if one.Some? {
          FieldsKeep(obj, names[1..], v');
          GrowsIsTransitive(v, v', EncodeFields(obj, names[1..], v').1);
        }
      }
    }
  }

  lemma {:induction false} FieldKeeps(obj: Value, name: bytes, v: Vocab)
    requires Bijective(v) && obj.Obj? && name in obj.fields
    ensures var v' := EncodeField(obj, name, v).1; Bijective(v') && Grows(v, v') && Accounted(v, v')
    decreases obj, 0, 0
  {
    hide Bijective, Grows, Accounted, Resolve, EncodeBody;
    ResolveKeeps(v, name);
    var (id, v') := Resolve(v, name);
    if id.Some? {
      BodyKeeps(obj.fields[name], v');
      GrowsIsTransitive(v, v', EncodeBody(obj.fields[name], v').1);
    }
  }

  lemma {:induction false} ItemsKeep(list: Value, items: seq<Value>, v: Vocab)
    requires Bijective(v)
    requires list.Array? && |items| <= |list.items| && items == list.items[|list.items| - |items|..]
    ensures var v' := EncodeItems(list, items, v).1; Bijective(v') && Grows(v, v') && Accounted(v, v')
    decreases list, 1, |items|
  {
    hide Bijective, Grows, Accounted, EncodeBody;
    GrowsItself(v);
    if items != [] {
      BodyKeeps(items[0], v);
      var (body, v') := EncodeBody(items[0], v);
      if body.Some? {
        ItemsKeep(list, items[1..], v');
        GrowsIsTransitive(v, v', EncodeItems(list, items[1..], v').1);
      }
    }
  }

  // --- Reading back ---

  /** `names` resolves every id the vocabulary has. */
  ghost predicate Named(v: Vocab, names: map<u16, bytes>) {
    forall id :: id in v.byId ==> id in names && names[id] == v.byId[id]
  }

  lemma NamedGoesBack(a: Vocab, b: Vocab, names: map<u16, bytes>)
    requires Grows(a, b) && Named(b, names)
    ensures Named(a, names)
  {}

  lemma {:induction false} IdReadsBack(id: u16, rest: bytes)
    ensures TakeId(PutId(id) + rest) == Some((id, rest))
  {
    hide BE, FromBE;
    FixedRoundTrips();
    var s := PutId(id) + rest;
    if id < 255 {
      assert s[1..] == rest;
    } else {
      assert s[1..3] == BE(id, 2) && s[3..] == rest;
    }
  }

  lemma {:induction false} FramedReadsBack(tag: byte, body: bytes, rest: bytes)
    requires |body| < U64_END
    ensures TakeFramed(Framed(tag, body) + rest) == Some((tag, body, rest))
    ensures |Framed(tag, body)| >= |body| + 2
  {
    hide PutLen, TakeLen;
    var s := Framed(tag, body) + rest;
    var len := PutLen(|body|);
    assert s[1..] == len + (body + rest);
    TakePut(|body|, body + rest);
    assert s[1 + |len|..] == body + rest;
    assert (body + rest)[..|body|] == body && (body + rest)[|body|..] == rest;
  }

  lemma {:induction false} ScalarReadsBack(value: Value, v: Vocab, names: map<u16, bytes>)
    requires !value.Obj? && !value.Array?
    ensures EncodeBody(value, v).0.Some? && DecodeBody(TypeTag(value), EncodeBody(value, v).0.value, names) == Some(ReadBack(value))
  {
    hide UIntBytes, IntBytes, ReadUInt, ReadInt;
    match value {
      case U8(n) => UIntReadsBack(n);
      case U16(n) => UIntReadsBack(n);
      case U32(n) => UIntReadsBack(n);
      case U64(n) => UIntReadsBack(n);
      case I64(i) => IntReadsBack(i);
      case _ =>
    }
  }

  /** A value's body reads back, under every vocabulary that has the names it was written with. */
  lemma {:induction false} BodyReadsBack(value: Value, v: Vocab, names: map<u16, bytes>)
    requires Bijective(v) && EncodeBody(value, v).0.Some? && |EncodeBody(value, v).0.value| < U64_END
    requires Named(EncodeBody(value, v).1, names)
    ensures DecodeBody(TypeTag(value), EncodeBody(value, v).0.value, names) == Some(ReadBack(value))
    decreases value, 2, 0
  {
    hide Bijective, Named, Sorted, Elements, EncodeFields, EncodeItems, DecodeFields, DecodeItems, PutLen, TakeLen,
      UIntBytes, IntBytes, ReadUInt, ReadInt;
    match value {
      case Obj(fields) =>
        SortedIsComplete(fields.Keys);
        KeysAreIn(fields);
        FieldsReadBack(value, Sorted(fields.Keys), v, names);
        AllAsRead(fields);
      case Array(items) =>
        assert items == items[|items| - |items|..];
        ItemsReadBack(value, items, v, names);
        var rest := EncodeItems(value, items, v).0.value;
        TakePut(|items|, rest);
        var len := PutLen(|items|);
        assert (len + rest)[|len|..] == rest;
        ReadBackOfItems(items);
      case _ => ScalarReadsBack(value, v, names);
    }
  }

  lemma KeysAreIn(fields: ValueMap)
    requires Elements(Sorted(fields.Keys)) == fields.Keys
    ensures forall i :: 0 <= i < |Sorted(fields.Keys)| ==> Sorted(fields.Keys)[i] in fields
  {
    hide Sorted;
    forall i | 0 <= i < |Sorted(fields.Keys)| ensures Sorted(fields.Keys)[i] in fields {
      assert Sorted(fields.Keys)[i] in Elements(Sorted(fields.Keys));
    }
  }

  lemma ReadBackOfItems(items: seq<Value>)
    ensures ReadBack(Array(items)) == Array(Items(items))
  {}

  function Items(items: seq<Value>): seq<Value> { seq(|items|, i requires 0 <= i < |items| => ReadBack(items[i])) }

  lemma {:induction false} FieldReadsBack(obj: Value, name: bytes, v: Vocab, names: map<u16, bytes>, rest: bytes)
    requires Bijective(v) && obj.Obj? && name in obj.fields
    requires EncodeField(obj, name, v).0.Some? && |EncodeField(obj, name, v).0.value| < U64_END
    requires Named(EncodeField(obj, name, v).1, names)
    ensures var (id, v') := Resolve(v, name);
      && id.Some? && id.value in names && names[id.value] == name
      && DecodeFrame(EncodeField(obj, name, v).0.value + rest, names) == Got((id.value, ReadBack(obj.fields[name])), rest)
    decreases obj, 0, 0
  {
    hide Bijective, Named, Resolve, EncodeBody, DecodeBody, ReadBack, Framed, TakeFramed, PutId, TakeId, Grows;
    ResolveKeeps(v, name);
    var (id, v') := Resolve(v, name);
    var value := obj.fields[name];
    var (body, v'') := EncodeBody(value, v');
    BodyKeeps(value, v');
    NamedGoesBack(v', v'', names);
    NameOf(v', id.value, name, names);
    var framed := Framed(TypeTag(value), body.value);
    FramedIsLonger(TypeTag(value), body.value);
    BodyReadsBack(value, v', names);
    FramedReadsBack(TypeTag(value), body.value, rest);
    assert EncodeField(obj, name, v).0.value + rest == PutId(id.value) + (framed + rest);
    IdReadsBack(id.value, framed + rest);
  }

  lemma FramedIsLonger(tag: byte, body: bytes)
    ensures |body| < |Framed(tag, body)|
  {}

  lemma NameOf(v: Vocab, id: u16, name: bytes, names: map<u16, bytes>)
    requires Named(v, names) && id in v.byId && v.byId[id] == name
    ensures id in names && names[id] == name
  {}

  /** What encoding one field and then the rest gives. */
  lemma {:induction false} FieldsUnfold(obj: Value, names: seq<bytes>, v: Vocab)
    requires obj.Obj? && names != [] && names[0] in obj.fields && EncodeFields(obj, names, v).0.Some?
    ensures var (one, v') := EncodeField(obj, names[0], v);
      && one.Some? && EncodeFields(obj, names[1..], v').0.Some?
      && EncodeFields(obj, names, v).0.value == one.value + EncodeFields(obj, names[1..], v').0.value
      && EncodeFields(obj, names, v).1 == EncodeFields(obj, names[1..], v').1
  {
    hide EncodeField;
  }

  lemma NoFields(obj: Value, v: Vocab)
    requires obj.Obj?
    ensures EncodeFields(obj, [], v) == (Some([]), v)
  {}

  lemma {:induction false} FieldsReadBack(obj: Value, keys: seq<bytes>, v: Vocab, names: map<u16, bytes>)
    requires Bijective(v) && obj.Obj? && forall i :: 0 <= i < |keys| ==> keys[i] in obj.fields
    requires EncodeFields(obj, keys, v).0.Some? && |EncodeFields(obj, keys, v).0.value| < U64_END
    requires Named(EncodeFields(obj, keys, v).1, names)
    ensures var s := EncodeFields(obj, keys, v).0.value;
      && DecodeFields(s, names) == Some(AsRead(obj.fields, Elements(keys)))
      && DecodeSegment(s, names) == AsRead(obj.fields, Elements(keys))
    decreases obj, 1, |keys|
  {
    hide Bijective, Named, EncodeField, EncodeFields, DecodeFrame, ReadBack, Resolve, Grows;
    if keys == [] {
      NoFields(obj, v);
      NothingToRead(names);
    } else {
      FieldsUnfold(obj, keys, v);
      var (one, v') := EncodeField(obj, keys[0], v);
      var rest := EncodeFields(obj, keys[1..], v').0.value;
      FieldKeeps(obj, keys[0], v);
      FieldsKeep(obj, keys[1..], v');
      NamedGoesBack(v', EncodeFields(obj, keys, v).1, names);
      FieldReadsBack(obj, keys[0], v, names, rest);
      FieldsReadBack(obj, keys[1..], v', names);
      ConsElements(keys);
      AsReadCons(obj.fields, keys[0], Elements(keys[1..]));
      var id := Resolve(v, keys[0]).0.value;
      FrameFirst(one.value + rest, id, ReadBack(obj.fields[keys[0]]), rest, names);
    }
  }

  /** The named fields as they read back. */
  function AsRead(fields: ValueMap, keys: set<bytes>): ValueMap { map k | k in keys && k in fields :: ReadBack(fields[k]) }

  lemma AllAsRead(fields: ValueMap)
    ensures AsRead(fields, fields.Keys) == ReadBackMap(fields) && ReadBack(Obj(fields)) == Obj(ReadBackMap(fields))
  {}

  lemma AsReadCons(fields: ValueMap, key: bytes, keys: set<bytes>)
    requires key in fields
    ensures AsRead(fields, {key} + keys) == map[key := ReadBack(fields[key])] + AsRead(fields, keys)
  {
    hide ReadBack;
  }

  lemma NothingToRead(names: map<u16, bytes>)
    ensures DecodeFields([], names) == Some(map[]) && DecodeSegment([], names) == map[]
  {}

  lemma ConsElements(keys: seq<bytes>)
    requires keys != []
    ensures Elements(keys) == {keys[0]} + Elements(keys[1..])
  {
    forall k | k in keys && k != keys[0] ensures k in keys[1..] {
      var i :| 0 <= i < |keys| && keys[i] == k;
      assert keys[1..][i - 1] == k;
    }
  }

  lemma {:induction false} FrameFirst(s: bytes, id: u16, value: Value, rest: bytes, names: map<u16, bytes>)
    requires DecodeFrame(s, names) == Got((id, value), rest) && id in names && DecodeFields(rest, names).Some?
    ensures DecodeFields(s, names) == Some(map[names[id] := value] + DecodeFields(rest, names).value)
    ensures DecodeSegment(s, names) == map[names[id] := value] + DecodeSegment(rest, names)
  {
    assert s != [];
    hide DecodeFrame;
  }

  lemma {:induction false} ItemsReadBack(list: Value, items: seq<Value>, v: Vocab, names: map<u16, bytes>)
    requires Bijective(v) && list.Array? && |items| <= |list.items| && items == list.items[|list.items| - |items|..]
    requires EncodeItems(list, items, v).0.Some? && |EncodeItems(list, items, v).0.value| < U64_END
    requires Named(EncodeItems(list, items, v).1, names)
    ensures var s := EncodeItems(list, items, v).0.value;
      |items| <= |s| && DecodeItems(|items|, s, names) == Some(Items(items))
    decreases list, 1, |items|
  {
    hide Bijective, Named, EncodeBody, DecodeBody, ReadBack, Framed, TakeFramed, Grows, EncodeItems, DecodeItems;
    if items == [] {
      NoItems(list, v, names);
    } else {
      TailOfItems(list.items, items);
      ItemsUnfold(list, items, items[1..], v);
      var (body, v') := EncodeBody(items[0], v);
      var rest := EncodeItems(list, items[1..], v').0.value;
      BodyKeeps(items[0], v);
      ItemsKeep(list, items[1..], v');
      NamedGoesBack(v', EncodeItems(list, items, v).1, names);
      FramedIsLonger(TypeTag(items[0]), body.value);
      BodyReadsBack(items[0], v, names);
      FramedReadsBack(TypeTag(items[0]), body.value, rest);
      ItemsReadBack(list, items[1..], v', names);
      assert Items(items) == [ReadBack(items[0])] + Items(items[1..]);
      ItemIsFirst(|items|, TypeTag(items[0]), body.value, rest, names);
    }
  }

  lemma NoItems(list: Value, v: Vocab, names: map<u16, bytes>)
    requires list.Array?
    ensures EncodeItems(list, [], v).0 == Some([]) && DecodeItems(0, [], names) == Some(Items([]))
  {
    assert |Items([])| == 0;
  }

  lemma TailOfItems(list: seq<Value>, items: seq<Value>)
    requires 0 < |items| <= |list| && items == list[|list| - |items|..]
    ensures items[1..] == list[|list| - |items[1..]|..]
  {}

  lemma ItemsUnfold(list: Value, items: seq<Value>, rest: seq<Value>, v: Vocab)
    requires list.Array? && 0 < |items| <= |list.items| && items == list.items[|list.items| - |items|..]
    requires rest == items[1..] && rest == list.items[|list.items| - |rest|..]
    requires EncodeItems(list, items, v).0.Some?
    ensures var (body, v') := EncodeBody(items[0], v);
      && body.Some? && EncodeItems(list, rest, v').0.Some?
      && EncodeItems(list, items, v) == (Some(Framed(TypeTag(items[0]), body.value) + EncodeItems(list, rest, v').0.value), EncodeItems(list, rest, v').1)
  {
    hide EncodeBody, Framed;
  }

  lemma ItemIsFirst(count: nat, tag: byte, body: bytes, rest: bytes, names: map<u16, bytes>)
    requires count > 0 && TakeFramed(Framed(tag, body) + rest) == Some((tag, body, rest)) && |Framed(tag, body)| > 0
    requires DecodeBody(tag, body, names).Some? && DecodeItems(count - 1, rest, names).Some?
    ensures DecodeItems(count, Framed(tag, body) + rest, names)
         == Some([DecodeBody(tag, body, names).value] + DecodeItems(count - 1, rest, names).value)
  {
    hide Framed, TakeFramed, DecodeBody;
  }

  /** A segment is empty exactly when it has no field. */
  lemma {:induction false} EmptySegment(m: ValueMap, v: Vocab)
    requires EncodeSegment(m, v).0.Some?
    ensures EncodeSegment(m, v).0.value == [] <==> m == map[]
  {
    hide Resolve, Sorted, Elements;
    SortedIsComplete(m.Keys);
    KeysAreIn(m);
    if m == map[] {
      assert Sorted(m.Keys) == [];
      NoFields(Obj(m), v);
    } else {
      assert Sorted(m.Keys) != [];
      FieldsUnfold(Obj(m), Sorted(m.Keys), v);
      IdIsNotEmpty();
    }
  }

  lemma IdIsNotEmpty()
    ensures forall id :: PutId(id) != []
  {}

  /** A segment reads back under the vocabulary it was written with and every later one: the same names, each
      with what its value reads back as. */
  lemma {:induction false} SegmentReadsBack(m: ValueMap, v: Vocab, later: Vocab)
    requires Bijective(v) && EncodeSegment(m, v).0.Some? && |EncodeSegment(m, v).0.value| < U64_END
    requires Grows(EncodeSegment(m, v).1, later)
    ensures DecodeSegment(EncodeSegment(m, v).0.value, later.byId) == ReadBackMap(m)
  {
    hide Bijective, Grows, Accounted, Sorted, EncodeFields, DecodeSegment, DecodeFields, Elements, ReadBack;
    SortedIsComplete(m.Keys);
    KeysAreIn(m);
    var v' := EncodeFields(Obj(m), Sorted(m.Keys), v).1;
    GrownNames(v', later);
    FieldsReadBack(Obj(m), Sorted(m.Keys), v, later.byId);
    AllAsRead(m);
  }

  lemma GrownNames(v: Vocab, later: Vocab)
    requires Grows(v, later)
    ensures Named(v, later.byId)
  {}
}
