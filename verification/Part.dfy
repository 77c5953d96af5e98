/** What a part file says: chunks of timed records, their byte image, and what a scan of those bytes finds. */
module Part {
  import opened Bytes
  import opened Foreign
  import opened Format
  import Body

  /** One record: its body and the bytes the body was encoded to when it was appended. */
  datatype Rec = Rec(ts: u64, body: Body.Body, enc: bytes)

  /** The records of one block, and the codec the writer was set to when it wrote them. */
  datatype Chunk = Chunk(codec: Codec, recs: seq<Rec>)

  // --- Time deltas ---

  function Delta(prev: Option<u64>, ts: u64): u64 {
    if prev.Some? && prev.value <= ts then ts - prev.value else ts
  }

  function EndTs(prev: Option<u64>, recs: seq<Rec>): Option<u64> {
    if recs == [] then prev else Some(recs[|recs| - 1].ts)
  }

  /** Timestamps never decrease, starting from `prev`. */
  predicate Monotone(prev: Option<u64>, recs: seq<Rec>)
    decreases |recs|
  {
    recs == [] || ((prev.Some? ==> prev.value <= recs[0].ts) && Monotone(Some(recs[0].ts), recs[1..]))
  }

  function RawOf(prev: Option<u64>, recs: seq<Rec>): bytes
    decreases |recs|
  {
    if recs == [] then [] else RecordBytes(Delta(prev, recs[0].ts), recs[0].enc) + RawOf(Some(recs[0].ts), recs[1..])
  }

  predicate RecsFit(prev: Option<u64>, recs: seq<Rec>)
    decreases |recs|
  {
    recs == [] || (RecordFits(Delta(prev, recs[0].ts), recs[0].enc) && RecsFit(Some(recs[0].ts), recs[1..]))
  }

  lemma {:induction false} RawSnoc(prev: Option<u64>, recs: seq<Rec>, r: Rec)
    ensures var d := Delta(EndTs(prev, recs), r.ts);
      && RawOf(prev, recs + [r]) == RawOf(prev, recs) + RecordBytes(d, r.enc)
      && (RecsFit(prev, recs + [r]) <==> RecsFit(prev, recs) && RecordFits(d, r.enc))
      && (Monotone(prev, recs + [r])
          <==> Monotone(prev, recs) && (EndTs(prev, recs).Some? ==> EndTs(prev, recs).value <= r.ts))
    decreases |recs|
  {
    hide RecordBytes, RecordFits;
    if recs == [] {
      assert [r][1..] == [];
      var tail := RecordBytes(Delta(prev, r.ts), r.enc);
      assert tail + [] == tail && [] + tail == tail;
      assert recs + [r] == [r];
    } else {
      assert (recs + [r])[0] == recs[0] && (recs + [r])[1..] == recs[1..] + [r];
      RawSnoc(Some(recs[0].ts), recs[1..], r);
    }
  }

  lemma {:induction false} RawBounds(prev: Option<u64>, recs: seq<Rec>)
    ensures |RawOf(prev, recs)| >= 5 * |recs|
    decreases |recs|
  {
    if recs != [] { RawBounds(Some(recs[0].ts), recs[1..]); }
  }

  // --- Blocks ---

  function Packed(lib: Library, codec: Codec, raw: bytes): (Codec, bytes) {
    if codec.Zstd? && |lib.compress(raw)| < |raw| then (Zstd, lib.compress(raw)) else (Raw, raw)
  }

  function HeaderFor(lib: Library, prev: Option<u64>, off: nat, c: Chunk): BlockHeader {
    var raw := RawOf(prev, c.recs);
    var (codec, payload) := Packed(lib, c.codec, raw);
    BlockHeader(codec, Low32(|c.recs|), Low32(|payload|), Low32(|raw|), if c.recs == [] then 0 else c.recs[0].ts, Low64(off))
  }

  function ChunkBytes(lib: Library, prev: Option<u64>, off: nat, c: Chunk): (s: bytes)
    ensures |s| >= BLOCK_HEADER_LEN
  {
    HeaderFor(lib, prev, off, c).Encode() + Packed(lib, c.codec, RawOf(prev, c.recs)).1
  }

  /** What the header's fields can hold, and what the writer guarantees of a block. */
  predicate ChunkFits(prev: Option<u64>, off: nat, c: Chunk) {
    && c.recs != [] && RecsFit(prev, c.recs) && Monotone(prev, c.recs)
    && |RawOf(prev, c.recs)| < U32_END && off + |c.recs| < U64_END
  }

  lemma {:induction false} PackedReadsBack(lib: Library, codec: Codec, raw: bytes)
    requires Lawful(lib) && raw != []
    ensures var (used, payload) := Packed(lib, codec, raw);
      && DecodePayload(lib, used, payload, |raw|) == Some(raw) && payload != [] && |payload| <= |raw|
      && (codec.Zstd? ==> |payload| == (if |lib.compress(raw)| < |raw| then |lib.compress(raw)| else |raw|))
      && (codec.Raw? ==> used.Raw?)
  {}

  function DecodePayload(lib: Library, codec: Codec, payload: bytes, lenU: nat): Option<bytes> {
    if codec.Raw? then Some(payload) else lib.decompress(payload, lenU)
  }

  // --- The whole file ---

  function EndAll(prev: Option<u64>, chunks: seq<Chunk>): Option<u64>
    decreases |chunks|
  {
    if chunks == [] then prev else EndAll(EndTs(prev, chunks[0].recs), chunks[1..])
  }

  function Count(chunks: seq<Chunk>): nat {
    if chunks == [] then 0 else |chunks[0].recs| + Count(chunks[1..])
  }

  function RecsOf(chunks: seq<Chunk>): seq<Rec> {
    if chunks == [] then [] else chunks[0].recs + RecsOf(chunks[1..])
  }

  /** Every raw payload in order: what the part's digest is fed. */
  function Raws(prev: Option<u64>, chunks: seq<Chunk>): bytes
    decreases |chunks|
  {
    if chunks == [] then [] else RawOf(prev, chunks[0].recs) + Raws(EndTs(prev, chunks[0].recs), chunks[1..])
  }

  function BlocksOf(lib: Library, prev: Option<u64>, off: nat, chunks: seq<Chunk>): bytes
    decreases |chunks|
  {
    if chunks == [] then []
    else ChunkBytes(lib, prev, off, chunks[0])
         + BlocksOf(lib, EndTs(prev, chunks[0].recs), off + |chunks[0].recs|, chunks[1..])
  }

  /** `at` is where the first of `chunks` starts in the file; an index row holds a 32-bit file offset. */
  predicate AllFit(lib: Library, prev: Option<u64>, off: nat, at: nat, chunks: seq<Chunk>)
    decreases |chunks|
  {
    chunks == []
    || (&& ChunkFits(prev, off, chunks[0]) && at < U32_END
        && AllFit(lib, EndTs(prev, chunks[0].recs), off + |chunks[0].recs|,
                  at + |ChunkBytes(lib, prev, off, chunks[0])|, chunks[1..]))
  }

  function RowFor(lib: Library, prev: Option<u64>, off: nat, at: nat, c: Chunk): IndexRow {
    var h := HeaderFor(lib, prev, off, c);
    IndexRow(h.firstTs, h.firstOffset, Low32(at), h.lenC, h.lenU, h.records)
  }

  function RowsOf(lib: Library, prev: Option<u64>, off: nat, at: nat, chunks: seq<Chunk>): seq<IndexRow>
    decreases |chunks|
  {
    if chunks == [] then []
    else [RowFor(lib, prev, off, at, chunks[0])]
         + RowsOf(lib, EndTs(prev, chunks[0].recs), off + |chunks[0].recs|,
                  at + |ChunkBytes(lib, prev, off, chunks[0])|, chunks[1..])
  }

  // --- One chunk more ---

  lemma {:induction false} SnocEnd(prev: Option<u64>, chunks: seq<Chunk>, c: Chunk)
    ensures EndAll(prev, chunks + [c]) == EndTs(EndAll(prev, chunks), c.recs)
    ensures Count(chunks + [c]) == Count(chunks) + |c.recs|
    decreases |chunks|
  {
    if chunks == [] {
      assert chunks + [c] == [c] && [c][1..] == [];
    } else {
      assert (chunks + [c])[0] == chunks[0] && (chunks + [c])[1..] == chunks[1..] + [c];
      SnocEnd(EndTs(prev, chunks[0].recs), chunks[1..], c);
    }
  }

  lemma {:induction false} SnocRecs(prev: Option<u64>, chunks: seq<Chunk>, c: Chunk)
    ensures RecsOf(chunks + [c]) == RecsOf(chunks) + c.recs
    ensures Raws(prev, chunks + [c]) == Raws(prev, chunks) + RawOf(EndAll(prev, chunks), c.recs)
    decreases |chunks|
  {
    hide RawOf;
    if chunks == [] {
      assert chunks + [c] == [c] && [c][1..] == [];
      var raw := RawOf(prev, c.recs);
      assert c.recs + [] == [] + c.recs && raw + [] == [] + raw;
    } else {
      assert (chunks + [c])[0] == chunks[0] && (chunks + [c])[1..] == chunks[1..] + [c];
      SnocRecs(EndTs(prev, chunks[0].recs), chunks[1..], c);
    }
  }

  lemma {:induction false} SnocBlocks(lib: Library, prev: Option<u64>, off: nat, chunks: seq<Chunk>, c: Chunk)
    ensures BlocksOf(lib, prev, off, chunks + [c])
         == BlocksOf(lib, prev, off, chunks) + ChunkBytes(lib, EndAll(prev, chunks), off + Count(chunks), c)
    decreases |chunks|
  {
    hide ChunkBytes;
    if chunks == [] {
      assert chunks + [c] == [c] && [c][1..] == [];
      var image := ChunkBytes(lib, prev, off, c);
      assert image + [] == [] + image;
    } else {
      assert (chunks + [c])[0] == chunks[0] && (chunks + [c])[1..] == chunks[1..] + [c];
      SnocBlocks(lib, EndTs(prev, chunks[0].recs), off + |chunks[0].recs|, chunks[1..], c);
    }
  }

  lemma {:induction false} SnocFit(lib: Library, prev: Option<u64>, off: nat, at: nat, chunks: seq<Chunk>, c: Chunk)
    ensures AllFit(lib, prev, off, at, chunks + [c])
       <==> AllFit(lib, prev, off, at, chunks) && ChunkFits(EndAll(prev, chunks), off + Count(chunks), c)
            && at + |BlocksOf(lib, prev, off, chunks)| < U32_END
    decreases |chunks|
  {
    hide ChunkBytes, ChunkFits;
    if chunks == [] {
      assert chunks + [c] == [c] && [c][1..] == [];
    } else {
      assert (chunks + [c])[0] == chunks[0] && (chunks + [c])[1..] == chunks[1..] + [c];
      SnocFit(lib, EndTs(prev, chunks[0].recs), off + |chunks[0].recs|,
              at + |ChunkBytes(lib, prev, off, chunks[0])|, chunks[1..], c);
    }
  }

  lemma {:induction false} SnocRows(lib: Library, prev: Option<u64>, off: nat, at: nat, chunks: seq<Chunk>, c: Chunk)
    ensures RowsOf(lib, prev, off, at, chunks + [c])
         == RowsOf(lib, prev, off, at, chunks)
            + [RowFor(lib, EndAll(prev, chunks), off + Count(chunks), at + |BlocksOf(lib, prev, off, chunks)|, c)]
    decreases |chunks|
  {
    hide ChunkBytes, RowFor;
    if chunks == [] {
      assert chunks + [c] == [c] && [c][1..] == [];
    } else {
      assert (chunks + [c])[0] == chunks[0] && (chunks + [c])[1..] == chunks[1..] + [c];
      SnocRows(lib, EndTs(prev, chunks[0].recs), off + |chunks[0].recs|,
               at + |ChunkBytes(lib, prev, off, chunks[0])|, chunks[1..], c);
    }
  }

  // --- Scanning bytes for blocks ---

  /** How many records can be walked out of a payload before it ends or one does not fit. */
  function Walk(raw: bytes, pos: nat): nat
    decreases |raw| - pos
  {
    match GetRecord(raw, pos)
    case None => 0
    case Some((_, _, next)) => 1 + Walk(raw, next)
  }

  datatype Found = Found(header: BlockHeader, raw: bytes, at: nat)

  /** The block at `at`, if all of it is there and its payload holds exactly the records it announces. */
  function BlockAt(lib: Library, file: bytes, at: nat): (r: Option<Found>)
    ensures r.Some? ==> r.value.at == at && at + BLOCK_HEADER_LEN + r.value.header.lenC <= |file|
  {
    if at + BLOCK_HEADER_LEN > |file| then None
    else
      match DecodeBlockHeader(file[at..at + BLOCK_HEADER_LEN])
      case None => None
      case Some(h) =>
        var end := at + BLOCK_HEADER_LEN + h.lenC;
        if h.records == 0 || h.lenC == 0 || end > |file| then None
        else
          match DecodePayload(lib, h.codec, file[at + BLOCK_HEADER_LEN..end], h.lenU)
          case None => None
          case Some(raw) => if |raw| == h.lenU && Walk(raw, 0) == h.records then Some(Found(h, raw, at)) else None
  }

  function Scan(lib: Library, file: bytes, at: nat): seq<Found>
    decreases |file| - at
  {
    match BlockAt(lib, file, at)
    case None => []
    case Some(found) => [found] + Scan(lib, file, at + BLOCK_HEADER_LEN + found.header.lenC)
  }

  /** What a scan must find for `chunks`. */
  function FoundFor(lib: Library, prev: Option<u64>, off: nat, at: nat, chunks: seq<Chunk>): seq<Found>
    decreases |chunks|
  {
    if chunks == [] then []
    else [Found(HeaderFor(lib, prev, off, chunks[0]), RawOf(prev, chunks[0].recs), at)]
         + FoundFor(lib, EndTs(prev, chunks[0].recs), off + |chunks[0].recs|,
                    at + |ChunkBytes(lib, prev, off, chunks[0])|, chunks[1..])
  }

  lemma {:induction false} WalkCounts(prev: Option<u64>, recs: seq<Rec>, raw: bytes, pos: nat)
    requires RecsFit(prev, recs) && pos <= |raw| && raw[pos..] == RawOf(prev, recs)
    ensures Walk(raw, pos) == |recs|
    decreases |recs|
  {
    hide RecordBytes, RecordFits, GetRecord;
    if recs == [] {
      assert |raw[pos..]| == 0;
      NoRecordAtTheEnd(raw, pos);
    } else {
      var d := Delta(prev, recs[0].ts);
      NextRecord(raw, pos, d, recs[0].enc, RawOf(Some(recs[0].ts), recs[1..]));
      WalkCounts(Some(recs[0].ts), recs[1..], raw, pos + |RecordBytes(d, recs[0].enc)|);
    }
  }

  lemma NoRecordAtTheEnd(raw: bytes, pos: nat)
    requires pos >= |raw|
    ensures GetRecord(raw, pos) == None
  {}

  lemma {:induction false} NextRecord(raw: bytes, pos: nat, delta: u64, enc: bytes, rest: bytes)
    requires RecordFits(delta, enc) && pos <= |raw| && raw[pos..] == RecordBytes(delta, enc) + rest
    ensures var next := pos + |RecordBytes(delta, enc)|;
      GetRecord(raw, pos) == Some((delta, enc, next)) && pos < next <= |raw| && raw[next..] == rest
  {
    hide RecordBytes, RecordFits, GetRecord;
    var head := RecordBytes(delta, enc);
    assert raw[pos..pos + |head|] == raw[pos..][..|head|] == head;
    GetRecordOfBytes(raw, pos, delta, enc);
    assert raw[pos + |head|..] == raw[pos..][|head|..];
  }

  lemma {:induction false} HeaderIsExact(lib: Library, prev: Option<u64>, off: nat, c: Chunk)
    requires Lawful(lib) && ChunkFits(prev, off, c)
    ensures var (h, raw) := (HeaderFor(lib, prev, off, c), RawOf(prev, c.recs));
      var (codec, payload) := Packed(lib, c.codec, raw);
      && h.codec == codec && h.records == |c.recs| && h.lenC == |payload| && h.lenU == |raw|
      && h.firstTs == c.recs[0].ts && h.firstOffset == off
      && h.records > 0 && h.lenC > 0
      && |ChunkBytes(lib, prev, off, c)| == BLOCK_HEADER_LEN + h.lenC
      && DecodePayload(lib, codec, payload, |raw|) == Some(raw)
  {
    RawBounds(prev, c.recs);
    hide RawOf, RecsFit, Monotone;
    PackedReadsBack(lib, c.codec, RawOf(prev, c.recs));
    hide Packed, DecodePayload;
  }

  lemma {:induction false} SplitFront(file: bytes, at: nat, a: bytes, b: bytes)
    requires at <= |file| && a + b <= file[at..]
    ensures at + |a| + |b| <= |file| && file[at..at + |a|] == a && file[at + |a|..at + |a| + |b|] == b
  {
    assert file[at..][..|a + b|] == a + b;
    assert file[at..at + |a|] == (a + b)[..|a|];
    assert file[at + |a|..at + |a| + |b|] == (a + b)[|a|..];
  }

  /** A whole block is found as it was written. */
  lemma {:induction false} WholeBlockIsFound(lib: Library, file: bytes, prev: Option<u64>, off: nat, at: nat, c: Chunk)
    requires Lawful(lib) && ChunkFits(prev, off, c)
    requires at <= |file| && ChunkBytes(lib, prev, off, c) <= file[at..]
    ensures BlockAt(lib, file, at) == Some(Found(HeaderFor(lib, prev, off, c), RawOf(prev, c.recs), at))
  {
    hide RawOf, Packed, DecodePayload, Walk, DecodeBlockHeader, HeaderFor, BlockHeader.Encode, ChunkFits, Lawful;
    var (h, raw) := (HeaderFor(lib, prev, off, c), RawOf(prev, c.recs));
    HeaderIsExact(lib, prev, off, c);
    BlockHeaderRoundTrip(h);
    SplitFront(file, at, h.Encode(), Packed(lib, c.codec, raw).1);
    WholeChunkWalks(prev, off, c);
  }

  lemma WholeChunkWalks(prev: Option<u64>, off: nat, c: Chunk)
    requires ChunkFits(prev, off, c)
    ensures Walk(RawOf(prev, c.recs), 0) == |c.recs|
  {
    hide RawOf, Walk;
    var raw := RawOf(prev, c.recs);
    assert raw[0..] == raw;
    WalkCounts(prev, c.recs, raw, 0);
  }

  /** A block the file ends inside of is not found at all. */
  lemma {:induction false} CutBlockIsNotFound(lib: Library, file: bytes, prev: Option<u64>, off: nat, at: nat, c: Chunk)
    requires Lawful(lib) && ChunkFits(prev, off, c)
    requires at <= |file| && file[at..] <= ChunkBytes(lib, prev, off, c) && |file[at..]| < |ChunkBytes(lib, prev, off, c)|
    ensures BlockAt(lib, file, at) == None
  {
    hide RawOf, Packed, DecodePayload, Walk, DecodeBlockHeader, HeaderFor, BlockHeader.Encode, ChunkFits, Lawful;
    var h := HeaderFor(lib, prev, off, c);
    HeaderIsExact(lib, prev, off, c);
    if at + BLOCK_HEADER_LEN <= |file| {
      BlockHeaderRoundTrip(h);
      assert file[at..at + BLOCK_HEADER_LEN] == file[at..][..BLOCK_HEADER_LEN]
        == ChunkBytes(lib, prev, off, c)[..BLOCK_HEADER_LEN] == h.Encode();
    }
  }

  /** Nothing is found at the end of the file, or where a footer or the start of one lies. */
  lemma {:induction false} FooterIsNotFound(lib: Library, file: bytes, at: nat, f: Footer)
    requires at <= |file| && file[at..] <= f.Encode()
    ensures BlockAt(lib, file, at) == None
  {
    hide DecodeBlockHeader, Footer.Encode;
    if at + BLOCK_HEADER_LEN <= |file| {
      assert file[at..at + BLOCK_HEADER_LEN] == file[at..];
      FooterIsNoBlock(f, file[at..]);
    }
  }
}
