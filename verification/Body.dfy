/** A record's body: tagged values, strings inline or as dictionary codes. */
module Body {
  import opened Bytes
  import opened Foreign
  import Dict
  import DictCodes
  import Varint

  const KIND_BYTES: byte := 0
  const KIND_STR: byte := 1
  const KIND_U64: byte := 2
  const KIND_I64: byte := 3
  const KIND_F64: byte := 4

  type eight = s: bytes | |s| == 8 witness [0, 0, 0, 0, 0, 0, 0, 0]

  /** Text is its UTF-8 bytes, a float its eight big-endian bytes. */
  datatype Value = Blob(data: blob) | Str(text: blob) | U64(n: u64) | I64(i: i64) | F64(image: eight)

  type Item = (u16, Value)
  type Body = seq<Item>

  function Kind(v: Value): byte {
    match v case Blob(_) => KIND_BYTES case Str(_) => KIND_STR case U64(_) => KIND_U64 case I64(_) => KIND_I64
            case F64(_) => KIND_F64
  }

  function Payload(v: Value): bytes {
    match v
    case Blob(data) => Varint.Put(|data|) + data
    case Str(text) => Varint.Put(|text|) + text
    case U64(n) => Varint.Put(n)
    case I64(i) => Varint.Put(Varint.Zigzag(i))
    case F64(image) => image
  }

  function Inline(item: Item): bytes { Varint.Put(item.0) + ([Kind(item.1)] + Payload(item.1)) }

  /** The bytes of a coded string; nothing where the encoder would slice eight bytes by more than eight. */
  function Coded(tag: u16, blocks: seq<Dict.Block>, code: byte, id: nat): Option<bytes> {
    var width := if Dict.WidthOf(blocks, code).Some? then Dict.WidthOf(blocks, code).value else 4;
    if width > 8 then None else Some(Varint.Put(tag) + ([code] + BE(id, width)))
  }

  /** One item: its bytes (nothing when the encoder panics) and the dictionary it leaves behind. */
  function EncodeItem(lib: Library, c: Dict.Config, st: Option<Dict.State>,
      item: Item): (r: (Option<bytes>, Option<Dict.State>))
    requires Ready(st)
    ensures Ready(r.1)
  {
    if st.None? || !item.1.Str? then (Some(Inline(item)), st)
    else
      var (st', settled) := Dict.AfterSettle(lib, c, st.value, item.1.text);
      match settled
      case None => (Some(Inline(item)), Some(st'))
      case Some((code, id)) => (Coded(item.0, st'.blocks, code, id), Some(st'))
  }

  predicate Ready(st: Option<Dict.State>) { st.Some? ==> Dict.Writable(st.value) }

  ghost predicate Healthy(st: Option<Dict.State>) { st.Some? ==> Dict.Coherent(st.value) && Dict.Writable(st.value) }

  function Encode(lib: Library, c: Dict.Config, st: Option<Dict.State>,
      items: Body): (r: (Option<bytes>, Option<Dict.State>))
    requires Ready(st)
    ensures Ready(r.1)
    decreases |items|
  {
    if items == [] then (Some([]), st)
    else
      var (head, st') := EncodeItem(lib, c, st, items[0]);
      if head.None? then (None, st')
      else
        var (tail, st'') := Encode(lib, c, st', items[1..]);
        (if tail.None? then None else Some(head.value + tail.value), st'')
  }

  function TakeBlob(s: bytes, pos: nat): (r: Option<(blob, nat)>)
    ensures r.Some? ==> pos < r.value.1 <= |s|
  {
    match Varint.Get(s, pos)
    case None => None
    case Some((len, at)) => if at + len > |s| then None else Some((s[at..at + len], at + len))
  }

  function DecodeValue(s: bytes, kind: byte, pos: nat, blocks: Option<seq<Dict.Block>>): (r: Option<(Value, nat)>)
    ensures r.Some? ==> r.value.1 <= |s| && pos <= r.value.1
  {
    if kind == KIND_BYTES then
      match TakeBlob(s, pos) case None => None case Some((data, end)) => Some((Blob(data), end))
    else if kind == KIND_STR then
      match TakeBlob(s, pos) case None => None case Some((text, end)) => Some((Str(text), end))
    else if kind == KIND_U64 then
      match Varint.Get(s, pos) case None => None case Some((n, end)) => Some((U64(n), end))
    else if kind == KIND_I64 then
      match Varint.Get(s, pos) case None => None case Some((n, end)) => Some((I64(Varint.Unzigzag(n)), end))
    else if kind >= Dict.DICT_BASE then
      if blocks.None? || Dict.WidthOf(blocks.value, kind).None? then None
      else
        var end := pos + Dict.WidthOf(blocks.value, kind).value;
        if end > |s| then None
        else
          match DictCodes.Resolve(blocks.value, kind, s[pos..end])
          case None => None
          case Some(text) => Some((Str(text), end))
    else if kind == KIND_F64 && pos + 8 <= |s| then Some((F64(s[pos..pos + 8]), pos + 8))
    else None
  }

  function DecodeItem(s: bytes, pos: nat, blocks: Option<seq<Dict.Block>>): (r: Option<(Item, nat)>)
    ensures r.Some? ==> pos < r.value.1 <= |s|
  {
    match Varint.Get(s, pos)
    case None => None
    case Some((tag, at)) =>
      if tag >= U16_END || at >= |s| then None
      else
        match DecodeValue(s, s[at], at + 1, blocks)
        case None => None
        case Some((v, end)) => Some(((tag, v), end))
  }

  function DecodeFrom(s: bytes, pos: nat, blocks: Option<seq<Dict.Block>>): Option<Body>
    decreases |s| - pos
  {
    if pos >= |s| then Some([])
    else
      match DecodeItem(s, pos, blocks)
      case None => None
      case Some((item, end)) =>
        match DecodeFrom(s, end, blocks)
        case None => None
        case Some(rest) => Some([item] + rest)
  }

  function Decode(s: bytes, blocks: Option<seq<Dict.Block>>): Option<Body> { DecodeFrom(s, 0, blocks) }

  // --- Reading back ---

  /** `later` is a dictionary a reader may hold for what was encoded up to `st`. */
  ghost predicate Covers(st: Option<Dict.State>, later: Option<seq<Dict.Block>>) {
    st.Some? ==> later.Some? && Dict.Extends(st.value.blocks, later.value) && DictCodes.Sound(later.value)
  }

  lemma {:induction false} EncodeItemKeeps(lib: Library, c: Dict.Config, st: Option<Dict.State>, item: Item)
    requires Healthy(st)
    ensures var st' := EncodeItem(lib, c, st, item).1;
      && Healthy(st') && st'.Some? == st.Some?
      && (st.Some? ==> Dict.Extends(st.value.blocks, st'.value.blocks) && st.value.open <= st'.value.open)
      && (st.Some? && Dict.OnDisk(lib, st.value) ==> Dict.OnDisk(lib, st'.value))
  {
    hide Dict.AfterSettle, Dict.Coherent, Dict.OnDisk;
    if st.Some? && item.1.Str? { Dict.SettleKeeps(lib, c, st.value, item.1.text); }
  }

  /** Encoding, whatever it does to the dictionary, keeps it healthy and moves nothing in it. */
  lemma {:induction false} EncodeKeeps(lib: Library, c: Dict.Config, st: Option<Dict.State>, items: Body)
    requires Healthy(st)
    ensures var st' := Encode(lib, c, st, items).1;
      && Healthy(st') && st'.Some? == st.Some?
      && (st.Some? ==> Dict.Extends(st.value.blocks, st'.value.blocks) && st.value.open <= st'.value.open)
      && (st.Some? && Dict.OnDisk(lib, st.value) ==> Dict.OnDisk(lib, st'.value))
    decreases |items|
  {
    hide EncodeItem, Dict.Coherent, Dict.OnDisk;
    if items != [] {
      EncodeItemKeeps(lib, c, st, items[0]);
      var st' := EncodeItem(lib, c, st, items[0]).1;
      if EncodeItem(lib, c, st, items[0]).0.Some? {
        EncodeKeeps(lib, c, st', items[1..]);
        if st.Some? {
          Dict.ExtendsIsTransitive(st.value.blocks, st'.value.blocks, Encode(lib, c, st, items).1.value.blocks);
        }
      }
    }
  }

  /** The texts of a body, in its order, as the dictionary hears them. */
  function Heard(items: Body): seq<Dict.Op> {
    if items == [] then []
    else (if items[0].1.Str? then [Dict.SettleText(items[0].1.text)] else []) + Heard(items[1..])
  }

  /** Encoding a body settles each of its texts once, in order, and does nothing else to the dictionary. */
  lemma {:induction false} EncodeSettles(lib: Library, c: Dict.Config, st: Option<Dict.State>, items: Body)
    requires Healthy(st) && Encode(lib, c, st, items).0.Some?
    ensures st.Some? ==> Encode(lib, c, st, items).1 == Some(Dict.Run(lib, c, st.value, Heard(items)))
    ensures st.None? ==> Encode(lib, c, st, items).1 == None
    decreases |items|
  {
    hide EncodeItem, Dict.Coherent, Dict.AfterSettle;
    if items != [] {
      EncodeItemKeeps(lib, c, st, items[0]);
      ItemSettles(lib, c, st, items[0]);
      var st' := EncodeItem(lib, c, st, items[0]).1;
      EncodeSettles(lib, c, st', items[1..]);
      if st.Some? {
        var (op, rest) := (Dict.SettleText(if items[0].1.Str? then items[0].1.text else []), Heard(items[1..]));
        if items[0].1.Str? {
          Dict.StepKeeps(lib, c, st.value, op);
          assert ([op] + rest)[1..] == rest;
        } else {
          assert [] + rest == rest;
        }
      }
    }
  }

  /** An item is written inline unless it is a text that has a code by then: then the code's byte stands for its kind and
      the id follows, as wide as the code's block. */
  lemma {:induction false} ItemSettles(lib: Library, c: Dict.Config, st: Option<Dict.State>, item: Item)
    requires Ready(st)
    ensures var (image, st') := EncodeItem(lib, c, st, item);
      if st.None? || !item.1.Str? then st' == st && image == Some(Inline(item))
      else
        var (next, settled) := Dict.AfterSettle(lib, c, st.value, item.1.text);
        && st' == Some(next)
        && (settled.None? ==> image == Some(Inline(item)))
        && (settled.Some? && Dict.WidthOf(next.blocks, settled.value.0).Some? && Dict.WidthOf(next.blocks, settled.value.0).value <= 8 ==>
              image == Some(Varint.Put(item.0) + ([settled.value.0] + BE(settled.value.1, Dict.WidthOf(next.blocks, settled.value.0).value))))
  {
    hide Dict.AfterSettle, BE, Varint.Put;
  }

  lemma {:induction false} CoversGoesBack(lib: Library, st: Option<Dict.State>, st': Option<Dict.State>,
      later: Option<seq<Dict.Block>>)
    requires st.Some? == st'.Some? && (st.Some? ==> Dict.Extends(st.value.blocks, st'.value.blocks))
    requires Covers(st', later)
    ensures Covers(st, later)
  {
    hide DictCodes.Sound;
    if st.Some? { Dict.ExtendsIsTransitive(st.value.blocks, st'.value.blocks, later.value); }
  }

  lemma {:induction false} BlobReadsBack(s: bytes, pos: nat, data: blob)
    requires pos <= |s| && Varint.Put(|data|) + data <= s[pos..]
    ensures TakeBlob(s, pos) == Some((data, pos + |Varint.Put(|data|)| + |data|))
  {
    hide Varint.Put, Varint.Get;
    var head := Varint.Put(|data|);
    assert s[pos..pos + |head|] == (head + data)[..|head|] by { assert s[pos..][..|head + data|] == head + data; }
    Varint.GetPut(s, pos, |data|);
    assert s[pos + |head|..pos + |head| + |data|] == s[pos..][..|head + data|][|head|..];
  }

  lemma {:induction false} VarintReadsBack(s: bytes, pos: nat, v: u64, rest: bytes)
    requires pos <= |s| && Varint.Put(v) + rest <= s[pos..]
    ensures Varint.Get(s, pos) == Some((v, pos + |Varint.Put(v)|))
    ensures pos + |Varint.Put(v)| <= |s| && rest <= s[pos + |Varint.Put(v)|..]
  {
    hide Varint.Put, Varint.Get;
    var head := Varint.Put(v);
    assert s[pos..pos + |head|] == head by { assert s[pos..][..|head + rest|][..|head|] == head; }
    Varint.GetPut(s, pos, v);
    assert s[pos + |head|..][..|rest|] == s[pos..][..|head + rest|][|head|..];
  }

  lemma {:induction false} TagReadsBack(s: bytes, pos: nat, tag: u16, kind: byte, rest: bytes)
    requires pos <= |s| && Varint.Put(tag) + ([kind] + rest) <= s[pos..]
    ensures var at := pos + |Varint.Put(tag)|;
      && Varint.Get(s, pos) == Some((tag, at)) && at < |s| && s[at] == kind && rest <= s[at + 1..]
  {
    hide Varint.Put, Varint.Get;
    VarintReadsBack(s, pos, tag, [kind] + rest);
    var at := pos + |Varint.Put(tag)|;
    assert s[at] == s[at..][0] == kind;
    assert s[at + 1..][..|rest|] == s[at..][..1 + |rest|][1..];
  }

  lemma {:induction false} PayloadReadsBack(s: bytes, at: nat, v: Value, blocks: Option<seq<Dict.Block>>)
    requires at <= |s| && Payload(v) <= s[at..]
    ensures DecodeValue(s, Kind(v), at, blocks) == Some((v, at + |Payload(v)|))
  {
    hide Varint.Put, Varint.Get, TakeBlob;
    match v {
      case Blob(data) => BlobReadsBack(s, at, data);
      case Str(text) => BlobReadsBack(s, at, text);
      case U64(n) =>
        assert Varint.Put(n) + [] == Varint.Put(n);
        VarintReadsBack(s, at, n, []);
      case I64(i) =>
        var n := Varint.Zigzag(i);
        assert Varint.Put(n) + [] == Varint.Put(n);
        VarintReadsBack(s, at, n, []);
        Varint.ZigzagRoundTrip(i);
      case F64(image) => assert s[at..at + 8] == s[at..][..8] == image;
    }
  }

  lemma {:induction false} InlineReadsBack(s: bytes, pos: nat, item: Item, blocks: Option<seq<Dict.Block>>)
    requires pos <= |s| && Inline(item) <= s[pos..]
    ensures DecodeItem(s, pos, blocks) == Some((item, pos + |Inline(item)|))
  {
    hide Varint.Put, Varint.Get, DecodeValue, Payload;
    TagReadsBack(s, pos, item.0, Kind(item.1), Payload(item.1));
    PayloadReadsBack(s, pos + |Varint.Put(item.0)| + 1, item.1, blocks);
  }

  lemma {:induction false} CodedReadsBack(
    lib: Library, c: Dict.Config, st: Dict.State, tag: u16, text: blob, s: bytes, pos: nat, later: seq<Dict.Block>)
    requires Dict.Coherent(st) && Dict.Writable(st)
    requires var (st', settled) := Dict.AfterSettle(lib, c, st, text);
      && settled.Some? && Dict.Extends(st'.blocks, later) && DictCodes.Sound(later)
      && (Coded(tag, st'.blocks, settled.value.0, settled.value.1).Some? ==>
            pos <= |s| && Coded(tag, st'.blocks, settled.value.0, settled.value.1).value <= s[pos..])
    ensures var (st', settled) := Dict.AfterSettle(lib, c, st, text);
      var image := Coded(tag, st'.blocks, settled.value.0, settled.value.1);
      image.Some? && DecodeItem(s, pos, Some(later)) == Some(((tag, Str(text)), pos + |image.value|))
  {
    hide Varint.Put, Varint.Get, Dict.AfterSettle, BE, DictCodes.Resolve, Dict.Extends, DictCodes.Sound, Dict.Coherent;
    var (st', settled) := Dict.AfterSettle(lib, c, st, text);
    DictCodes.SettledReadsBack(lib, c, st, text, later);
    var (code, id) := settled.value;
    var width := Dict.WidthOf(st'.blocks, code).value;
    var raw := BE(id, width);
    TagReadsBack(s, pos, tag, code, raw);
    var at := pos + |Varint.Put(tag)| + 1;
    assert s[at..at + width] == s[at..][..width] == raw;
    assert code >= Dict.DICT_BASE;
  }

  lemma {:induction false} ItemReadsBack(
    lib: Library, c: Dict.Config, st: Option<Dict.State>, item: Item, s: bytes, pos: nat, later: Option<seq<Dict.Block>>)
    requires Healthy(st)
    requires Covers(EncodeItem(lib, c, st, item).1, later)
    requires EncodeItem(lib, c, st, item).0.Some? ==> pos <= |s| && EncodeItem(lib, c, st, item).0.value <= s[pos..]
    ensures var image := EncodeItem(lib, c, st, item).0;
      image.Some? && DecodeItem(s, pos, later) == Some((item, pos + |image.value|))
  {
    hide Dict.AfterSettle, Dict.Extends, DictCodes.Sound, Dict.Coherent, DecodeItem, Inline, Coded;
    if st.None? || !item.1.Str? || Dict.AfterSettle(lib, c, st.value, item.1.text).1.None? {
      InlineReadsBack(s, pos, item, later);
    } else {
      CodedReadsBack(lib, c, st.value, item.0, item.1.text, s, pos, later.value);
    }
  }

  /** A body encoded while the dictionary grew decodes to itself under that dictionary and every later one,
      as long as the later one is sound. */
  lemma {:induction false} BodyReadsBackFrom(
    lib: Library, c: Dict.Config, st: Option<Dict.State>, items: Body, s: bytes, pos: nat, later: Option<seq<Dict.Block>>)
    requires Healthy(st) && Covers(Encode(lib, c, st, items).1, later)
    requires Encode(lib, c, st, items).0.Some? ==> pos <= |s| && s[pos..] == Encode(lib, c, st, items).0.value
    ensures Encode(lib, c, st, items).0.Some?
    ensures DecodeFrom(s, pos, later) == Some(items)
    decreases |items|
  {
    hide EncodeItem, DecodeItem, Covers, Healthy, Dict.Extends, Encode, DecodeFrom;
    HealthyIsReady(st);
    EncodeUnfolds(lib, c, st, items);
    if items == [] {
      DecodeEnds(s, pos, later);
    } else {
      var (head, st') := EncodeItem(lib, c, st, items[0]);
      EncodeSplits(lib, c, st, items, later);
      var tail := Encode(lib, c, st', items[1..]).0;
      if head.Some? {
        if tail.Some? {
          DropHead(s, pos, head.value, tail.value);
        }
        BodyReadsBackFrom(lib, c, st', items[1..], s, pos + |head.value|, later);
      }
      ItemReadsBack(lib, c, st, items[0], s, pos, later);
      DecodePrepends(s, pos, items, pos + |head.value|, later);
    }
  }

  lemma {:induction false} EncodeSplits(lib: Library, c: Dict.Config, st: Option<Dict.State>, items: Body,
      later: Option<seq<Dict.Block>>)
    requires Healthy(st) && items != [] && Covers(Encode(lib, c, st, items).1, later)
    ensures var (head, st') := EncodeItem(lib, c, st, items[0]);
      && Healthy(st') && Covers(st', later)
      && (head.Some? ==> Covers(Encode(lib, c, st', items[1..]).1, later))
  {
    hide EncodeItem, Covers, Healthy, Dict.Extends, Encode;
    HealthyIsReady(st);
    EncodeUnfolds(lib, c, st, items);
    var (head, st') := EncodeItem(lib, c, st, items[0]);
    EncodeItemKeeps(lib, c, st, items[0]);
    EncodeKeeps(lib, c, st', items[1..]);
    if head.Some? {
      CoversGoesBack(lib, st', Encode(lib, c, st, items).1, later);
    }
  }

  lemma HealthyIsReady(st: Option<Dict.State>)
    requires Healthy(st)
    ensures Ready(st)
  {}

  lemma {:induction false} EncodeUnfolds(lib: Library, c: Dict.Config, st: Option<Dict.State>, items: Body)
    requires Ready(st)
    ensures items == [] ==> Encode(lib, c, st, items) == (Some([]), st)
    ensures items != [] ==>
      var (head, st') := EncodeItem(lib, c, st, items[0]);
      var (tail, st'') := Encode(lib, c, st', items[1..]);
      Encode(lib, c, st, items)
      == if head.None? then (None, st') else (if tail.None? then None else Some(head.value + tail.value), st'')
  {
    hide EncodeItem;
  }

  lemma {:induction false} DecodeEnds(s: bytes, pos: nat, blocks: Option<seq<Dict.Block>>)
    requires pos <= |s| && s[pos..] == []
    ensures DecodeFrom(s, pos, blocks) == Some([])
  {
    assert |s[pos..]| == |s| - pos;
  }

  lemma {:induction false} DecodePrepends(s: bytes, pos: nat, items: Body, end: nat, blocks: Option<seq<Dict.Block>>)
    requires items != [] && DecodeItem(s, pos, blocks) == Some((items[0], end))
    requires DecodeFrom(s, end, blocks) == Some(items[1..])
    ensures DecodeFrom(s, pos, blocks) == Some(items)
  {
    hide DecodeItem;
    assert [items[0]] + items[1..] == items;
  }

  lemma DropHead(s: bytes, pos: nat, head: bytes, tail: bytes)
    requires pos <= |s| && s[pos..] == head + tail
    ensures pos + |head| <= |s| && s[pos + |head|..] == tail && head <= s[pos..]
  {
    assert s[pos + |head|..] == s[pos..][|head|..];
  }

  lemma {:induction false} BodyReadsBack(
    lib: Library, c: Dict.Config, st: Option<Dict.State>, items: Body, later: Option<seq<Dict.Block>>)
    requires Healthy(st) && Covers(Encode(lib, c, st, items).1, later)
    ensures Encode(lib, c, st, items).0.Some?
    ensures Decode(Encode(lib, c, st, items).0.value, later) == Some(items)
  {
    hide Encode, DecodeFrom, Covers;
    var image := Encode(lib, c, st, items).0;
    var s := if image.Some? then image.value else [];
    assert s[0..] == s;
    BodyReadsBackFrom(lib, c, st, items, s, 0, later);
  }
}
