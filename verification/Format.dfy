/** The fixed-width structures of a part and the records inside a block. */
module Format {
  import opened Bytes
  import Varint

  const PART_MAGIC: bytes := [79, 75, 77, 83] // OKMS
  const BLOCK_MAGIC: bytes := [79, 75, 77, 66] // OKMB
  const FOOTER_MAGIC: bytes := [79, 75, 77, 70] // OKMF
  const INDEX_MAGIC: bytes := [79, 75, 77, 73] // OKMI
  const VERSION: byte := 1

  const PART_HEADER_LEN: nat := 48
  const BLOCK_HEADER_LEN: nat := 40
  const FOOTER_LEN: nat := 40
  const INDEX_ROW_LEN: nat := 32

  datatype Precision = S | Ms | Us | Ns {
    function Code(): byte {
      match this case S => 0 case Ms => 1 case Us => 2 case Ns => 3
    }

    function PerSecond(): (n: nat)
      ensures n >= 1
    {
      match this case S => 1 case Ms => 1_000 case Us => 1_000_000 case Ns => 1_000_000_000
    }
  }

  function PrecisionOf(code: byte): Option<Precision> {
    match code
    case 0 => Some(S)
    case 1 => Some(Ms)
    case 2 => Some(Us)
    case 3 => Some(Ns)
    case _ => None
  }

  datatype Codec = Raw | Zstd {
    function Code(): byte { if Raw? then 0 else 1 }
  }

  function CodecOf(code: byte): Option<Codec> {
    if code == 0 then Some(Raw) else if code == 1 then Some(Zstd) else None
  }

  datatype PartHeader = PartHeader(precision: Precision, bucket: u64, baseTs: u64, firstOffset: u64, createdMs: u64) {
    function Encode(): (s: bytes)
      ensures |s| == PART_HEADER_LEN
    {
      PART_MAGIC + [VERSION, precision.Code(), 0, 0] + BE(bucket, 8) + BE(baseTs, 8) + BE(firstOffset, 8)
      + BE(createdMs, 8) + [0, 0, 0, 0, 0, 0, 0, 0]
    }
  }

  function DecodePartHeader(s: bytes): Option<PartHeader> {
    if |s| < PART_HEADER_LEN || s[..4] != PART_MAGIC || s[4] != VERSION || PrecisionOf(s[5]).None? then None
    else Some(PartHeader(PrecisionOf(s[5]).value, U64At(s, 8), U64At(s, 16), U64At(s, 24), U64At(s, 32)))
  }

  datatype BlockHeader = BlockHeader(codec: Codec, records: u32, lenC: u32, lenU: u32, firstTs: u64, firstOffset: u64) {
    function Encode(): (s: bytes)
      ensures |s| == BLOCK_HEADER_LEN
    {
      BLOCK_MAGIC + [codec.Code(), 0, 0, 0] + BE(records, 4) + BE(lenC, 4) + BE(lenU, 4) + [0, 0, 0, 0]
      + BE(firstTs, 8) + BE(firstOffset, 8)
    }
  }

  function DecodeBlockHeader(s: bytes): Option<BlockHeader> {
    if |s| < BLOCK_HEADER_LEN || s[..4] != BLOCK_MAGIC || CodecOf(s[4]).None? then None
    else Some(BlockHeader(CodecOf(s[4]).value, U32At(s, 8), U32At(s, 12), U32At(s, 16), U64At(s, 24), U64At(s, 32)))
  }

  /** `digest` is the hash of every raw payload of the part, in order. */
  datatype Footer = Footer(records: u64, lastTs: u64, blocks: u32, digest: u64) {
    function Encode(): (s: bytes)
      ensures |s| == FOOTER_LEN
    {
      FOOTER_MAGIC + [VERSION, 0, 0, 0] + BE(records, 8) + BE(lastTs, 8) + BE(blocks, 4) + [0, 0, 0, 0] + BE(digest, 8)
    }
  }

  function DecodeFooter(s: bytes): Option<Footer> {
    if |s| < FOOTER_LEN || s[..4] != FOOTER_MAGIC || s[4] != VERSION then None
    else Some(Footer(U64At(s, 8), U64At(s, 16), U32At(s, 24), U64At(s, 32)))
  }

  datatype IndexRow = IndexRow(firstTs: u64, firstOffset: u64, fileOffset: u32, lenC: u32, lenU: u32, records: u32) {
    function Encode(): (s: bytes)
      ensures |s| == INDEX_ROW_LEN
    {
      BE(firstTs, 8) + BE(firstOffset, 8) + BE(fileOffset, 4) + BE(lenC, 4) + BE(lenU, 4) + BE(records, 4)
    }
  }

  function DecodeIndexRow(s: bytes): Option<IndexRow> {
    if |s| < INDEX_ROW_LEN then None
    else Some(IndexRow(U64At(s, 0), U64At(s, 8), U32At(s, 16), U32At(s, 20), U32At(s, 24), U32At(s, 28)))
  }

  function RowOf(h: BlockHeader, fileOff: nat): Option<IndexRow> {
    if fileOff >= U32_END then None
    else Some(IndexRow(h.firstTs, h.firstOffset, fileOff, h.lenC, h.lenU, h.records))
  }

  const INDEX_HEADER: bytes := INDEX_MAGIC + [VERSION, 0, 0, 0]

  lemma PartHeaderRoundTrip(h: PartHeader)
    ensures DecodePartHeader(h.Encode()) == Some(h)
  {
    hide BE, FromBE, Pow256;
    FixedRoundTrips();
    var s := h.Encode();
    assert s[..4] == PART_MAGIC && s[5] == h.precision.Code();
    assert s[8..16] == BE(h.bucket, 8) && s[16..24] == BE(h.baseTs, 8);
    assert s[24..32] == BE(h.firstOffset, 8) && s[32..40] == BE(h.createdMs, 8);
  }

  lemma BlockHeaderRoundTrip(h: BlockHeader)
    ensures DecodeBlockHeader(h.Encode()) == Some(h)
  {
    hide BE, FromBE, Pow256;
    FixedRoundTrips();
    var s := h.Encode();
    assert s[..4] == BLOCK_MAGIC && s[4] == h.codec.Code();
    assert s[8..12] == BE(h.records, 4) && s[12..16] == BE(h.lenC, 4) && s[16..20] == BE(h.lenU, 4);
    assert s[24..32] == BE(h.firstTs, 8) && s[32..40] == BE(h.firstOffset, 8);
  }

  lemma FooterRoundTrip(f: Footer)
    ensures DecodeFooter(f.Encode()) == Some(f)
  {
    hide BE, FromBE, Pow256;
    FixedRoundTrips();
    var s := f.Encode();
    assert s[..4] == FOOTER_MAGIC;
    assert s[8..16] == BE(f.records, 8) && s[16..24] == BE(f.lastTs, 8);
    assert s[24..28] == BE(f.blocks, 4) && s[32..40] == BE(f.digest, 8);
  }

  lemma IndexRowRoundTrip(r: IndexRow)
    ensures DecodeIndexRow(r.Encode()) == Some(r)
  {
    hide BE, FromBE, Pow256;
    FixedRoundTrips();
    var s := r.Encode();
    assert s[0..8] == BE(r.firstTs, 8) && s[8..16] == BE(r.firstOffset, 8);
    assert s[16..20] == BE(r.fileOffset, 4) && s[20..24] == BE(r.lenC, 4);
    assert s[24..28] == BE(r.lenU, 4);
    var pre := BE(r.firstTs, 8) + BE(r.firstOffset, 8) + BE(r.fileOffset, 4) + BE(r.lenC, 4) + BE(r.lenU, 4);
    assert s == pre + BE(r.records, 4);
    assert s[28..32] == s[28..] == BE(r.records, 4);
  }

  /** A footer is never mistaken for a block, whole or cut. */
  lemma FooterIsNoBlock(f: Footer, s: bytes)
    requires s <= f.Encode()
    ensures DecodeBlockHeader(s).None?
  {
    if |s| >= BLOCK_HEADER_LEN {
      assert s[0..4] == f.Encode()[0..4] == FOOTER_MAGIC;
      assert s[3] == 70;
    }
  }

  // --- Records: [len u32][delta varint][body] ---

  function RecordBytes(delta: u64, body: bytes): (s: bytes)
    ensures |s| >= 5
  {
    BE(|Varint.Put(delta)| + |body|, 4) + Varint.Put(delta) + body
  }

  predicate RecordFits(delta: u64, body: bytes) {
    |Varint.Put(delta)| + |body| < U32_END
  }

  method PutRecord(out: bytes, delta: u64, body: bytes) returns (r: Option<bytes>)
    ensures r == if RecordFits(delta, body) then Some(out + RecordBytes(delta, body)) else None
  {
    var tail := Varint.PutVarint([], delta);
    var len := |tail| + |body|;
    if len >= U32_END {
      return None;
    }
    assert out + BE(len, 4) + tail + body == out + RecordBytes(delta, body);
    return Some(out + BE(len, 4) + tail + body);
  }

  /** One record out of a block payload: its delta, its body and where the next one starts. */
  function GetRecord(payload: bytes, pos: nat): (r: Option<(u64, bytes, nat)>)
    ensures r.Some? ==> pos + 4 < r.value.2 <= |payload|
  {
    if pos + 4 > |payload| then None
    else
      var end := pos + 4 + U32At(payload, pos);
      if end > |payload| then None
      else
        var slice := payload[pos + 4..end];
        match Varint.Get(slice, 0)
        case None => None
        case Some((delta, at)) => Some((delta, slice[at..], end))
  }

  lemma GetRecordOfBytes(payload: bytes, pos: nat, delta: u64, body: bytes)
    requires RecordFits(delta, body)
    requires pos + |RecordBytes(delta, body)| <= |payload|
    requires payload[pos..pos + |RecordBytes(delta, body)|] == RecordBytes(delta, body)
    ensures GetRecord(payload, pos) == Some((delta, body, pos + |RecordBytes(delta, body)|))
  {
    hide BE, FromBE, Pow256;
    FixedRoundTrips();
    var rec := RecordBytes(delta, body);
    var len := |Varint.Put(delta)| + |body|;
    assert payload[pos..pos + 4] == payload[pos..pos + |rec|][..4] == BE(len, 4);
    var slice := payload[pos + 4..pos + 4 + len];
    assert slice == payload[pos..pos + |rec|][4..] == Varint.Put(delta) + body;
    assert slice[0..|Varint.Put(delta)|] == Varint.Put(delta);
    Varint.GetPut(slice, 0, delta);
    assert slice[|Varint.Put(delta)|..] == body;
  }
}
