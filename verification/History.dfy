/** What a part's files say, told as the records that were appended: an invariant of every run of the writer,
    crashes included. */
module History {
  import opened Bytes
  import opened Foreign
  import opened Format
  import opened Part
  import opened Recovery
  import opened Writer
  import Body
  import Dict
  import DictCodes
  import DictFile

  /** The records behind a writer: in the file, block by block, and still buffered. `mark` is what the dictionary
      held when the last block of records went to disk. */
  datatype History = History(origin: PartHeader, chunks: seq<Chunk>, pending: seq<Rec>, mark: Option<seq<Dict.Block>>) {
    function Durable(lib: Library): Totals { After(lib, NoBlocks(origin), chunks) }

    function Records(): seq<Rec> { RecsOf(chunks) + pending }
  }

  // --- Records that read back ---

  /** `later` may stand in for `blocks` when a record is read: it holds all of it, and its codes resolve. */
  ghost predicate Serves(blocks: Option<seq<Dict.Block>>, later: Option<seq<Dict.Block>>) {
    blocks.Some? ==> later.Some? && Dict.Extends(blocks.value, later.value) && DictCodes.Sound(later.value)
  }

  /** The record decodes to its own body under every dictionary that may stand in for `blocks`. */
  ghost predicate Readable(r: Rec, blocks: Option<seq<Dict.Block>>) {
    forall later :: Serves(blocks, later) ==> Body.Decode(r.enc, later) == Some(r.body)
  }

  ghost predicate AllReadable(recs: seq<Rec>, blocks: Option<seq<Dict.Block>>) {
    forall i :: 0 <= i < |recs| ==> Readable(recs[i], blocks)
  }

  ghost predicate Grows(before: Option<seq<Dict.Block>>, after: Option<seq<Dict.Block>>) {
    before.Some? ==> after.Some? && Dict.Extends(before.value, after.value)
  }

  lemma {:induction false} ReadableStays(recs: seq<Rec>, before: Option<seq<Dict.Block>>,
      after: Option<seq<Dict.Block>>)
    requires AllReadable(recs, before) && Grows(before, after)
    ensures AllReadable(recs, after)
  {
    hide DictCodes.Sound, Body.Decode, Dict.Extends;
    forall i, later | 0 <= i < |recs| && Serves(after, later)
      ensures Body.Decode(recs[i].enc, later) == Some(recs[i].body)
    {
      if before.Some? { Dict.ExtendsIsTransitive(before.value, after.value, later.value); }
      assert Serves(before, later) && Readable(recs[i], before);
    }
  }

  lemma ReadableJoin(xs: seq<Rec>, ys: seq<Rec>, blocks: Option<seq<Dict.Block>>)
    requires AllReadable(xs, blocks) && AllReadable(ys, blocks)
    ensures AllReadable(xs + ys, blocks) && AllReadable([], blocks)
  {
    hide Readable;
  }

  function BlocksIn(st: Option<Dict.State>): Option<seq<Dict.Block>> {
    if st.None? then None else Some(st.value.blocks)
  }

  lemma {:induction false} EncodedIsReadable(lib: Library, c: Dict.Config, st: Option<Dict.State>, ts: u64,
      body: Body.Body)
    requires Body.Healthy(st) && Body.Ready(st) && Body.Encode(lib, c, st, body).0.Some?
    ensures Readable(Rec(ts, body, Body.Encode(lib, c, st, body).0.value), BlocksIn(Body.Encode(lib, c, st, body).1))
  {
    hide Body.Encode, Body.Decode, Body.Healthy, DictCodes.Sound, Dict.Extends;
    var (enc, st') := Body.Encode(lib, c, st, body);
    forall later | Serves(BlocksIn(st'), later) ensures Body.Decode(enc.value, later) == Some(body) {
      Body.BodyReadsBack(lib, c, st, body, later);
    }
  }

  // --- The dictionary side of the invariant ---

  /** The dictionary is healthy and on disk up to its open block; what is in the part file reads back under `mark`,
      what is buffered under the live blocks; and what `mark` holds is on disk. */
  ghost predicate DictTells(lib: Library, st: Option<Dict.State>, mark: Option<seq<Dict.Block>>, durable: seq<Rec>,
      pending: seq<Rec>) {
    && Body.Healthy(st) && Body.Ready(st)
    && AllReadable(durable, mark) && AllReadable(pending, BlocksIn(st))
    && (mark.Some? <==> st.Some?)
    && (st.Some? ==> Dict.OnDisk(lib, st.value) && Dict.Extends(mark.value, st.value.blocks[..st.value.open]))
  }

  lemma {:induction false} FlushedStays(st: Dict.State, st': Dict.State)
    requires Dict.Writable(st) && Dict.Writable(st') && Dict.Extends(st.blocks, st'.blocks) && st.open <= st'.open
    ensures Dict.Extends(st.blocks[..st.open], st'.blocks[..st'.open])
  {}

  lemma {:induction false} DictAfterEncode(
    lib: Library, c: Dict.Config, st: Option<Dict.State>, mark: Option<seq<Dict.Block>>, durable: seq<Rec>,
    pending: seq<Rec>, body: Body.Body)
    requires DictTells(lib, st, mark, durable, pending)
    ensures DictTells(lib, Body.Encode(lib, c, st, body).1, mark, durable, pending)
    ensures Body.Encode(lib, c, st, body).1.Some? == st.Some?
  {
    hide Body.Encode, AllReadable, Dict.Extends, Dict.Coherent, Dict.OnDisk;
    Body.EncodeKeeps(lib, c, st, body);
    var st' := Body.Encode(lib, c, st, body).1;
    ReadableStays(pending, BlocksIn(st), BlocksIn(st'));
    if st.Some? {
      FlushedStays(st.value, st'.value);
      Dict.ExtendsIsTransitive(mark.value, st.value.blocks[..st.value.open], st'.value.blocks[..st'.value.open]);
    }
  }

  lemma {:induction false} DictAfterBuffer(
    lib: Library, st: Option<Dict.State>, mark: Option<seq<Dict.Block>>, durable: seq<Rec>, pending: seq<Rec>, r: Rec)
    requires DictTells(lib, st, mark, durable, pending) && Readable(r, BlocksIn(st))
    ensures DictTells(lib, st, mark, durable, pending + [r])
  {
    hide Readable, Dict.Extends, Body.Healthy, Dict.OnDisk;
  }

  /** Flushing puts the buffered records, and every string they refer to, on the durable side. */
  lemma {:induction false} DictAfterFlush(
    lib: Library, st: Option<Dict.State>, mark: Option<seq<Dict.Block>>, durable: seq<Rec>, pending: seq<Rec>)
    requires DictTells(lib, st, mark, durable, pending)
    ensures var st' := FlushedDict(lib, st); DictTells(lib, st', BlocksIn(st'), durable + pending, [])
    ensures DictTells(lib, FlushedDict(lib, st), mark, durable, [])
  {
    hide Dict.AfterFlush, Dict.Extends, Dict.Coherent, Dict.OnDisk, AllReadable;
    var st' := FlushedDict(lib, st);
    if st.Some? {
      Dict.FlushKeeps(lib, st.value);
      LiveBlocksExtend(mark.value, st.value, st'.value);
      AllFlushed(st'.value);
      Dict.ExtendsIsTransitive(mark.value, st'.value.blocks, st'.value.blocks[..st'.value.open]);
    }
    ReadableStays(durable, mark, BlocksIn(st'));
    ReadableStays(pending, BlocksIn(st), BlocksIn(st'));
    ReadableJoin(durable, pending, BlocksIn(st'));
  }

  lemma {:induction false} LiveBlocksExtend(mark: seq<Dict.Block>, st: Dict.State, st': Dict.State)
    requires Dict.Writable(st) && Dict.Extends(mark, st.blocks[..st.open]) && Dict.Extends(st.blocks, st'.blocks)
    ensures Dict.Extends(mark, st'.blocks)
  {
    assert Dict.Extends(st.blocks[..st.open], st.blocks);
    hide Dict.Extends;
    Dict.ExtendsIsTransitive(mark, st.blocks[..st.open], st.blocks);
    Dict.ExtendsIsTransitive(mark, st.blocks, st'.blocks);
  }

  lemma {:induction false} AllFlushed(st: Dict.State)
    requires Dict.Coherent(st) && st.blocks[st.open].entries == []
    ensures Dict.Extends(st.blocks, st.blocks[..st.open])
  {
    hide Dict.Recorded, Dict.Located, Dict.Distinct;
  }

  // --- The file side ---

  /** The writer's totals and file after one more block. */
  lemma {:induction false} OneMoreBlock(lib: Library, header: PartHeader, chunks: seq<Chunk>, c: Chunk)
    requires var t := After(lib, NoBlocks(header), chunks);
      WellFormed(lib, header, chunks) && ChunkFits(t.lastTs, t.nextOffset, c) && t.fileOff < U32_END
    ensures var (t, t') := (After(lib, NoBlocks(header), chunks), After(lib, NoBlocks(header), chunks + [c]));
      && WellFormed(lib, header, chunks + [c])
      && FileOf(lib, header, chunks + [c]) == FileOf(lib, header, chunks) + ChunkBytes(lib, t.lastTs, t.nextOffset, c)
      && |FileOf(lib, header, chunks)| == t.fileOff
      && t' == Totals(t.nextOffset + |c.recs|, EndTs(t.lastTs, c.recs), t.records + |c.recs|, t.blocks + 1,
                      t.fileOff + |ChunkBytes(lib, t.lastTs, t.nextOffset, c)|, t.digest + RawOf(t.lastTs, c.recs),
                      t.rows + [RowFor(lib, t.lastTs, t.nextOffset, t.fileOff, c)])
      && RecsOf(chunks + [c]) == RecsOf(chunks) + c.recs
  {
    hide RawOf, ChunkBytes, ChunkFits, RowFor, BlocksOf, RowsOf, Raws, Count, EndAll, AllFit, PartHeader.Encode;
    var off := header.firstOffset;
    SnocEnd(None, chunks, c);
    SnocRecs(None, chunks, c);
    SnocBlocks(lib, None, off, chunks, c);
    SnocFit(lib, None, off, PART_HEADER_LEN, chunks, c);
    SnocRows(lib, None, off, PART_HEADER_LEN, chunks, c);
    var (head, image) := (header.Encode(), BlocksOf(lib, None, off, chunks));
    var t := After(lib, NoBlocks(header), chunks);
    var one := ChunkBytes(lib, t.lastTs, t.nextOffset, c);
    assert head + (image + one) == head + image + one;
    assert [] + Raws(None, chunks) == Raws(None, chunks) && [] + Raws(None, chunks + [c]) == Raws(None, chunks + [c]);
    var (r, r') := (RowsOf(lib, None, off, PART_HEADER_LEN, chunks), RowsOf(lib, None, off, PART_HEADER_LEN, chunks + [c]));
    assert [] + r == r && [] + r' == r';
  }

  lemma {:induction false} OneMoreRow(rows: seq<IndexRow>, row: IndexRow)
    ensures EncodeRows(rows + [row]) == EncodeRows(rows) + row.Encode()
  {
    assert (rows + [row])[..|rows|] == rows;
  }

  /** The file, its index and the running totals say what the chunks say. */
  ghost predicate FileTells(lib: Library, s: State, h: History) {
    var t := h.Durable(lib);
    && WellFormed(lib, h.origin, h.chunks)
    && s.file == FileOf(lib, h.origin, h.chunks) && s.fileOff == t.fileOff == |s.file|
    && s.records == t.records && s.blocks == t.blocks && s.digest == t.digest
    && s.index == INDEX_HEADER + EncodeRows(t.rows)
  }

  /** The buffer and the stream position say what `pending` says, on top of the durable totals. */
  ghost predicate BufferTells(lib: Library, s: State, h: History) {
    var t := h.Durable(lib);
    && s.nextOffset == t.nextOffset + |h.pending| < U64_END && s.lastTs == EndTs(t.lastTs, h.pending)
    && RecsFit(t.lastTs, h.pending) && Monotone(t.lastTs, h.pending)
    && s.block == RawOf(t.lastTs, h.pending) && s.count == |h.pending|
    && (h.pending != [] ==> s.firstTs == h.pending[0].ts && s.firstOffset == t.nextOffset)
  }

  ghost predicate Tells(lib: Library, s: State, h: History) {
    FileTells(lib, s, h) && BufferTells(lib, s, h) && DictTells(lib, s.dict, h.mark, RecsOf(h.chunks), h.pending)
  }

  lemma TellsIsUsable(lib: Library, s: State, h: History)
    requires Tells(lib, s, h)
    ensures Usable(s)
  {
    hide After, DictCodes.Sound, AllReadable, Body.Healthy, Dict.OnDisk, Dict.Extends, WellFormed, FileOf, EncodeRows,
      RecsFit, Monotone, RawOf, Dict.Writable;
  }

  // --- Creation ---

  lemma {:induction false} CreatedTells(lib: Library, header: PartHeader, withDict: bool)
    ensures Tells(lib, Created(header, withDict), History(header, [], [], if withDict then Some([]) else None))
  {
    hide PartHeader.Encode, Dict.Coherent, Dict.Writable, Dict.OnDisk, Readable;
    DictCodes.FreshIsCoherent(lib);
    assert header.Encode() + [] == header.Encode();
    assert INDEX_HEADER + [] == INDEX_HEADER;
  }

  // --- Appending ---

  lemma {:induction false} BufferAfterAppend(lib: Library, s: State, h: History, r: Rec)
    requires FileTells(lib, s, h) && BufferTells(lib, s, h)
    requires s.nextOffset + 1 < U64_END && !Backwards(s, r.ts) && RecordFits(Delta(s.lastTs, r.ts), r.enc)
    ensures var (s', h') := (Buffered(s, r.ts, r.enc), h.(pending := h.pending + [r]));
      FileTells(lib, s', h') && BufferTells(lib, s', h')
  {
    hide RecordBytes, RecordFits, WellFormed, FileOf, EncodeRows, After;
    var t := h.Durable(lib);
    assert h.pending == [] ==> s.block == [];
    RawBounds(t.lastTs, h.pending);
    RawSnoc(t.lastTs, h.pending, r);
    hide RawOf, RecsFit, Monotone;
  }

  lemma {:induction false} BufferedTells(lib: Library, k: Config, s: State, h: History, ts: u64, body: Body.Body)
    requires Tells(lib, s, h) && Usable(s) && s.nextOffset + 1 < U64_END && !Backwards(s, ts)
    requires var enc := Body.Encode(lib, k.dict, s.dict, body).0; enc.Some? && RecordFits(Delta(s.lastTs, ts), enc.value)
    ensures var (enc, dict) := Body.Encode(lib, k.dict, s.dict, body);
      var s' := Buffered(s.(dict := dict), ts, enc.value);
      Tells(lib, s', h.(pending := h.pending + [Rec(ts, body, enc.value)])) && Usable(s')
  {
    hide FileTells, BufferTells, DictTells, Body.Encode, RecordFits;
    var (enc, dict) := Body.Encode(lib, k.dict, s.dict, body);
    var r := Rec(ts, body, enc.value);
    DictIsHealthy(lib, s.dict, h.mark, RecsOf(h.chunks), h.pending);
    EncodedIsReadable(lib, k.dict, s.dict, ts, body);
    DictAfterEncode(lib, k.dict, s.dict, h.mark, RecsOf(h.chunks), h.pending, body);
    DictAfterBuffer(lib, dict, h.mark, RecsOf(h.chunks), h.pending, r);
    OtherDict(lib, s, h, dict);
    BufferAfterAppend(lib, s.(dict := dict), h, r);
    TellsIsUsable(lib, Buffered(s.(dict := dict), ts, enc.value), h.(pending := h.pending + [r]));
  }

  lemma DictIsHealthy(lib: Library, st: Option<Dict.State>, mark: Option<seq<Dict.Block>>, durable: seq<Rec>,
      pending: seq<Rec>)
    requires DictTells(lib, st, mark, durable, pending)
    ensures Body.Healthy(st) && Body.Ready(st)
  {
    hide Body.Healthy, Body.Ready, AllReadable, Dict.Extends, Dict.OnDisk;
  }

  lemma OtherDict(lib: Library, s: State, h: History, dict: Option<Dict.State>)
    requires FileTells(lib, s, h) && BufferTells(lib, s, h)
    ensures FileTells(lib, s.(dict := dict), h) && BufferTells(lib, s.(dict := dict), h)
  {
    hide After, WellFormed, FileOf, EncodeRows, RecsFit, Monotone, RawOf;
  }

  // --- Flushing ---

  /** The block a flush writes is the one the format defines for the buffered records. */
  lemma {:induction false} FlushHeader(lib: Library, k: Config, s: State, h: History)
    requires Lawful(lib) && BufferTells(lib, s, h) && h.pending != []
    ensures var (used, payload) := Packed(lib, k.codec, s.block);
      && |payload| <= |s.block|
      && (|s.block| < U32_END ==>
            var (t, c) := (h.Durable(lib), Chunk(k.codec, h.pending));
            && ChunkFits(t.lastTs, t.nextOffset, c) && s.count == |c.recs| < U32_END
            && HeaderOf(s, used, |payload|) == HeaderFor(lib, t.lastTs, t.nextOffset, c)
            && payload == Packed(lib, k.codec, RawOf(t.lastTs, c.recs)).1)
  {
    hide BufferTells, RawOf, HeaderFor, HeaderOf, Packed, After, ChunkFits, Lawful;
    BufferIs(lib, s, h);
    PendingHasBytes(lib, s, h);
    PackedReadsBack(lib, k.codec, s.block);
    if |s.block| < U32_END {
      PendingFits(lib, k, s, h);
      PendingHeader(lib, k, s, h);
    }
  }

  lemma {:induction false} PendingHasBytes(lib: Library, s: State, h: History)
    requires BufferTells(lib, s, h) && h.pending != []
    ensures s.block != []
  {
    hide RawOf, BufferTells;
    BufferIs(lib, s, h);
    RawBounds(h.Durable(lib).lastTs, h.pending);
  }

  lemma {:induction false} PendingFits(lib: Library, k: Config, s: State, h: History)
    requires BufferTells(lib, s, h) && h.pending != [] && |s.block| < U32_END
    ensures ChunkFits(h.Durable(lib).lastTs, h.Durable(lib).nextOffset, Chunk(k.codec, h.pending))
    ensures s.count == |h.pending| < U32_END
    ensures s.firstTs == h.pending[0].ts && s.firstOffset == h.Durable(lib).nextOffset < U64_END
  {
    hide RawOf, RecsFit, Monotone, After;
    RawBounds(h.Durable(lib).lastTs, h.pending);
  }

  lemma {:induction false} PendingHeader(lib: Library, k: Config, s: State, h: History)
    requires Lawful(lib) && BufferTells(lib, s, h) && h.pending != [] && |s.block| < U32_END
    ensures var (used, payload) := Packed(lib, k.codec, s.block);
      HeaderOf(s, used, Low32(|payload|)) == HeaderFor(lib, h.Durable(lib).lastTs, h.Durable(lib).nextOffset, Chunk(k.codec, h.pending))
    ensures |Packed(lib, k.codec, s.block).1| <= |s.block|
  {
    hide BufferTells, RawOf, Packed, After, ChunkFits, Lawful;
    BufferIs(lib, s, h);
    PendingFits(lib, k, s, h);
    PendingHasBytes(lib, s, h);
    PackedReadsBack(lib, k.codec, s.block);
    HeaderIsExact(lib, h.Durable(lib).lastTs, h.Durable(lib).nextOffset, Chunk(k.codec, h.pending));
  }

  function FlushedHistory(lib: Library, k: Config, s: State, h: History): History
    requires Usable(s)
  {
    if h.pending == [] then h
    else History(h.origin, h.chunks + [Chunk(k.codec, h.pending)], [], BlocksIn(FlushedDict(lib, s.dict)))
  }

  predicate FlushFits(s: State, h: History) {
    h.pending == [] || (|s.block| < U32_END && s.fileOff < U32_END)
  }

  lemma {:induction false} FileAfterFlush(lib: Library, k: Config, s: State, h: History)
    requires FileTells(lib, s, h) && Usable(s) && s.fileOff < U32_END && s.count == |h.pending|
    requires var (t, c) := (h.Durable(lib), Chunk(k.codec, h.pending));
      var (used, payload) := Packed(lib, k.codec, s.block);
      && s.block == RawOf(t.lastTs, h.pending) && ChunkFits(t.lastTs, t.nextOffset, c)
      && |payload| < U32_END && HeaderOf(s, used, |payload|) == HeaderFor(lib, t.lastTs, t.nextOffset, c)
    ensures var h' := h.(chunks := h.chunks + [Chunk(k.codec, h.pending)], pending := []);
      var (used, payload) := Packed(lib, k.codec, s.block);
      var head := HeaderOf(s, used, |payload|);
      && FileTells(lib, Indexed(Written(s, head, payload), RowOf(head, s.fileOff).value), h')
      && h'.Durable(lib).nextOffset == h.Durable(lib).nextOffset + |h.pending|
      && h'.Durable(lib).lastTs == EndTs(h.Durable(lib).lastTs, h.pending)
      && RecsOf(h'.chunks) == RecsOf(h.chunks) + h.pending
  {
    hide FileOf, WellFormed, After, HeaderFor, RawOf, Packed, ChunkFits, BlockHeader.Encode, IndexRow.Encode,
      EncodeRows;
    var (t, c) := (h.Durable(lib), Chunk(k.codec, h.pending));
    OneMoreBlock(lib, h.origin, h.chunks, c);
    OneMoreRow(t.rows, RowFor(lib, t.lastTs, t.nextOffset, t.fileOff, c));
    var row := RowFor(lib, t.lastTs, t.nextOffset, t.fileOff, c).Encode();
    assert INDEX_HEADER + (EncodeRows(t.rows) + row) == INDEX_HEADER + EncodeRows(t.rows) + row;
    var image := ChunkBytes(lib, t.lastTs, t.nextOffset, c);
    assert WriteAt(s.file, s.fileOff, image) == s.file + image;
  }

  lemma FileTellsOfSame(lib: Library, s: State, s': State, h: History, h': History)
    requires FileTells(lib, s, h) && h'.origin == h.origin && h'.chunks == h.chunks
    requires s'.file == s.file && s'.fileOff == s.fileOff && s'.records == s.records && s'.blocks == s.blocks
    requires s'.digest == s.digest && s'.index == s.index
    ensures FileTells(lib, s', h')
  {
    hide After, WellFormed, FileOf, EncodeRows;
  }

  lemma BufferAfterFlush(lib: Library, s: State, s': State, h: History, h': History)
    requires BufferTells(lib, s, h) && h'.pending == []
    requires s'.nextOffset == s.nextOffset && s'.lastTs == s.lastTs && s'.block == [] && s'.count == 0
    requires h'.Durable(lib).nextOffset == h.Durable(lib).nextOffset + |h.pending|
    requires h'.Durable(lib).lastTs == EndTs(h.Durable(lib).lastTs, h.pending)
    ensures BufferTells(lib, s', h')
  {
    hide After;
  }

  lemma BufferIs(lib: Library, s: State, h: History)
    requires BufferTells(lib, s, h)
    ensures s.count == |h.pending| && s.block == RawOf(h.Durable(lib).lastTs, h.pending)
  {
    hide After, RawOf, RecsFit, Monotone;
  }

  lemma {:induction false} FlushAssembles(lib: Library, k: Config, s: State, h: History)
    requires Lawful(lib) && Tells(lib, s, h) && Usable(s) && h.pending != [] && FlushFits(s, h)
    ensures var (r, s') := Flushed(lib, k, s);
      && r.Ok? && Tells(lib, s', FlushedHistory(lib, k, s, h)) && s'.nextOffset == s.nextOffset && s'.lastTs == s.lastTs
  {
    hide FileTells, BufferTells, DictTells, Packed, BlockHeader.Encode, IndexRow.Encode, RawOf, ChunkFits, HeaderFor,
      WriteAt, Lawful, After, FlushedDict, RecsOf, Body.Ready, EndTs;
    BufferIs(lib, s, h);
    FlushHeader(lib, k, s, h);
    FileAfterFlush(lib, k, s, h);
    DictAfterFlush(lib, s.dict, h.mark, RecsOf(h.chunks), h.pending);
    var (used, payload) := Packed(lib, k.codec, s.block);
    var head := HeaderOf(s, used, |payload|);
    var (s', h') := (Flushed(lib, k, s).1, FlushedHistory(lib, k, s, h));
    var plain := Indexed(Written(s, head, payload), RowOf(head, s.fileOff).value);
    FileTellsOfSame(lib, plain, s', h.(chunks := h.chunks + [Chunk(k.codec, h.pending)], pending := []), h');
    BufferAfterFlush(lib, s, s', h, h');
  }

  /** What is durable in a part is untouched: its bytes are still the first ones of the file, the index is the same, and
      its records still read back. */
  ghost predicate DurableStays(lib: Library, s: State, s': State, h: History) {
    s.file <= s'.file && s'.index == s.index && DictTells(lib, s'.dict, h.mark, RecsOf(h.chunks), [])
  }

  lemma DurableStaysFor(lib: Library, s: State, s': State, h: History)
    requires DictTells(lib, s'.dict, h.mark, RecsOf(h.chunks), h.pending) && s'.file == s.file && s'.index == s.index
    ensures DurableStays(lib, s, s', h)
  {
    hide Readable, Dict.Extends, Body.Healthy, Body.Ready, Dict.OnDisk;
  }

  /** A flush that fails for size loses the buffer, and nothing that is durable. */
  lemma {:induction false} FailedFlush(lib: Library, k: Config, s: State, h: History)
    requires Tells(lib, s, h) && Usable(s) && Flushed(lib, k, s).0.Err?
    ensures DurableStays(lib, s, Flushed(lib, k, s).1, h) && Flushed(lib, k, s).1.block == []
  {
    hide FileTells, BufferTells, DictTells, Flushed, FlushedDict, Packed;
    FileEnds(lib, s, h);
    FailedFiles(lib, k, s);
    DictAfterFlush(lib, s.dict, h.mark, RecsOf(h.chunks), h.pending);
  }

  lemma {:induction false} FailedFiles(lib: Library, k: Config, s: State)
    requires Usable(s) && s.fileOff == |s.file| && Flushed(lib, k, s).0.Err?
    ensures var s' := Flushed(lib, k, s).1;
      s.file <= s'.file && s'.index == s.index && s'.block == [] && s'.dict == FlushedDict(lib, s.dict)
  {
    hide Packed, BlockHeader.Encode, FlushedDict, IndexRow.Encode;
    var flushed := s.(dict := FlushedDict(lib, s.dict));
    var (used, payload) := Packed(lib, k.codec, s.block);
    if |payload| < U32_END && |s.block| < U32_END {
      var bytes := HeaderOf(flushed, used, |payload|).Encode() + payload;
      assert WriteAt(s.file, s.fileOff, bytes) == s.file + bytes;
    }
  }

  lemma FileEnds(lib: Library, s: State, h: History)
    requires FileTells(lib, s, h)
    ensures s.fileOff == |s.file|
  {
    hide After, WellFormed, FileOf, EncodeRows;
  }

  /** A flush succeeds exactly when the block and its place fit their 32-bit fields, and then the buffered records
      are one more block of the file; a failed one loses them, and nothing that is durable. */
  lemma {:induction false} FlushTells(lib: Library, k: Config, s: State, h: History)
    requires Lawful(lib) && Tells(lib, s, h) && Usable(s)
    ensures var (r, s') := Flushed(lib, k, s);
      && (r.Ok? <==> FlushFits(s, h)) && (r.Err? ==> r.error == Overflow)
      && (r.Ok? ==> Tells(lib, s', FlushedHistory(lib, k, s, h)) && s'.nextOffset == s.nextOffset && s'.lastTs == s.lastTs)
      && (r.Err? ==> DurableStays(lib, s, s', h) && s'.block == [])
  {
    hide DurableStays;
    if Flushed(lib, k, s).0.Err? { FailedFlush(lib, k, s, h); }
    hide FileTells, BufferTells, DictTells, Packed, BlockHeader.Encode, IndexRow.Encode, WriteAt, Lawful, After,
      FlushedDict;
    BufferIs(lib, s, h);
    if h.pending != [] {
      FlushHeader(lib, k, s, h);
      if FlushFits(s, h) { FlushAssembles(lib, k, s, h); }
    }
  }

  // --- Append, with the flush a full block triggers ---

  function AppendedHistory(lib: Library, k: Config, s: State, h: History, ts: u64, body: Body.Body): History
    requires Usable(s) && Body.Encode(lib, k.dict, s.dict, body).0.Some?
  {
    var (enc, dict) := Body.Encode(lib, k.dict, s.dict, body);
    var full := Buffered(s.(dict := dict), ts, enc.value);
    var h' := h.(pending := h.pending + [Rec(ts, body, enc.value)]);
    if |full.block| < k.blockBytes then h' else FlushedHistory(lib, k, full, h')
  }

  /** Whether an append flushes or not, the part's records are the old ones and the new one. */
  lemma {:induction false} AppendAddsOneRecord(lib: Library, k: Config, s: State, h: History, ts: u64, body: Body.Body)
    requires Usable(s) && Body.Encode(lib, k.dict, s.dict, body).0.Some?
    ensures AppendedHistory(lib, k, s, h, ts, body).Records()
         == h.Records() + [Rec(ts, body, Body.Encode(lib, k.dict, s.dict, body).0.value)]
    ensures AppendedHistory(lib, k, s, h, ts, body).origin == h.origin
  {
    hide Body.Encode, FlushedDict, RecsOf;
    var rec := Rec(ts, body, Body.Encode(lib, k.dict, s.dict, body).0.value);
    var now := h.pending + [rec];
    SnocRecs(None, h.chunks, Chunk(k.codec, now));
    assert RecsOf(h.chunks) + now == h.Records() + [rec];
    assert h.Records() + [rec] + [] == h.Records() + [rec];
  }

  /** A record too large for its length field only touches the block's opening, and of an empty block only. */
  lemma {:induction false} OpenedTells(lib: Library, s: State, h: History, ts: u64)
    requires Tells(lib, s, h)
    ensures Tells(lib, Opened(s, ts), h)
  {
    hide FileOf, WellFormed, EncodeRows, DictTells, Monotone, After;
    if h.pending != [] { PendingHasBytes(lib, s, h); }
  }

  /** What an append does, in every case: a refused record leaves the history as it was, an accepted one gets the next
      offset and is in the history exactly once; and where the flush behind it fails, what was durable still is. */
  lemma {:induction false} AppendTells(lib: Library, k: Config, s: State, h: History, ts: u64, body: Body.Body)
    requires Lawful(lib) && Tells(lib, s, h) && Usable(s) && s.nextOffset + 1 < U64_END
    ensures var (r, s') := Appended(lib, k, s, ts, body);
      var enc := Body.Encode(lib, k.dict, s.dict, body).0;
      && (r == Err(CodeTooWide) <==> enc.None?)
      && ((r.Err? && r.error.TimeBackwards?) <==> enc.Some? && Backwards(s, ts))
      && (enc.None? || Backwards(s, ts) ==> Tells(lib, s', h) && s'.nextOffset == s.nextOffset && s'.lastTs == s.lastTs)
      && (r.Ok? ==> && r.value == s.nextOffset && s'.nextOffset == s.nextOffset + 1 && s'.lastTs == Some(ts)
                    && Tells(lib, s', AppendedHistory(lib, k, s, h, ts, body)))
      && (enc.Some? && !Backwards(s, ts) && !RecordFits(Delta(s.lastTs, ts), enc.value) ==> r == Err(Overflow) && Tells(lib, s', h))
      && (r.Err? ==> DurableStays(lib, s, s', h))
  {
    hide FileTells, BufferTells, DictTells, Body.Encode, RecordFits, Flushed, Usable, Buffered, FlushedHistory, Opened,
      DurableStays;
    UsableIsReady(s);
    var (enc, dict) := Body.Encode(lib, k.dict, s.dict, body);
    if enc.None? || Backwards(s, ts) {
      DictAfterEncode(lib, k.dict, s.dict, h.mark, RecsOf(h.chunks), h.pending, body);
      OtherDict(lib, s, h, dict);
      DurableStaysFor(lib, s, s.(dict := dict), h);
    } else if !RecordFits(Delta(s.lastTs, ts), enc.value) {
      DictAfterEncode(lib, k.dict, s.dict, h.mark, RecsOf(h.chunks), h.pending, body);
      OtherDict(lib, s, h, dict);
      OpenedTells(lib, s.(dict := dict), h, ts);
      OpenedIs(s.(dict := dict), ts);
      DurableStaysFor(lib, s, Opened(s.(dict := dict), ts), h);
    } else {
      BufferedTells(lib, k, s, h, ts, body);
      var full := Buffered(s.(dict := dict), ts, enc.value);
      BufferedIs(s.(dict := dict), ts, enc.value);
      if |full.block| >= k.blockBytes {
        FlushTells(lib, k, full, h.(pending := h.pending + [Rec(ts, body, enc.value)]));
        SameDurable(lib, s, full, Flushed(lib, k, full).1, h, h.(pending := h.pending + [Rec(ts, body, enc.value)]));
      }
    }
  }

  /** When an append writes its block out: exactly when the buffer, with the record's bytes behind it, has reached the
      block size. */
  lemma {:induction false} AppendFlushesWhenFull(lib: Library, k: Config, s: State, ts: u64, body: Body.Body)
    requires Usable(s) && s.count > 0 && Appended(lib, k, s, ts, body).0.Ok?
    ensures var s' := Appended(lib, k, s, ts, body).1;
      var block := s.block + RecordBytes(Delta(s.lastTs, ts), Body.Encode(lib, k.dict, s.dict, body).0.value);
      if |block| < k.blockBytes then s'.block == block && s'.blocks == s.blocks && s'.file == s.file
      else s'.block == [] && s'.blocks == s.blocks + 1
  {
    hide Body.Encode, RecordBytes, Packed, BlockHeader.Encode, IndexRow.Encode, WriteAt, FlushedDict, RecordFits;
  }

  /** The header in memory takes the time of the first record of a part that was made without one, even if the record is
      then refused for its size; nothing else ever changes it. */
  lemma {:induction false} BaseTimeIs(lib: Library, k: Config, s: State, ts: u64, body: Body.Body)
    requires Usable(s)
    ensures Appended(lib, k, s, ts, body).1.header
         == if Body.Encode(lib, k.dict, s.dict, body).0.Some? && s.lastTs.None? && s.header.baseTs == 0 && s.records == 0
            then s.header.(baseTs := ts) else s.header
    ensures Flushed(lib, k, s).1.header == s.header && Sealed(lib, k, s).1.header == s.header
  {
    hide Body.Encode, RecordBytes, Packed, BlockHeader.Encode, IndexRow.Encode, WriteAt, FlushedDict, RecordFits,
      Footer.Encode;
  }

  lemma OpenedIs(s: State, ts: u64)
    ensures var s' := Opened(s, ts); s'.file == s.file && s'.index == s.index && s'.dict == s.dict
  {}

  lemma SameDurable(lib: Library, s: State, full: State, s': State, h: History, h': History)
    requires full.file == s.file && full.index == s.index && h'.mark == h.mark && h'.chunks == h.chunks
    ensures DurableStays(lib, full, s', h') ==> DurableStays(lib, s, s', h)
  {
    hide DictTells;
  }

  lemma UsableIsReady(s: State)
    requires Usable(s)
    ensures Body.Ready(s.dict)
  {
    hide Body.Ready;
  }

  lemma BufferedIs(s: State, ts: u64, enc: bytes)
    ensures var s' := Buffered(s, ts, enc);
      && s'.nextOffset == s.nextOffset + 1 && s'.lastTs == Some(ts) && s'.file == s.file && s'.index == s.index
  {}

  // --- Adoption ---

  /** What a crash must have left of the dictionary: a file that loads as some dictionary's first blocks, at least
      one, and with everything the last flushed records may refer to. */
  ghost predicate DictSurvives(lib: Library, mark: seq<Dict.Block>, file: bytes) {
    exists blocks, m :: LoadsAs(lib, file, blocks, m) && Dict.Extends(mark, blocks[..m])
  }

  ghost predicate LoadsAs(lib: Library, file: bytes, blocks: seq<Dict.Block>, m: nat) {
    && 0 < m <= |blocks| && Dict.Distinct(blocks) && Dict.Placed(lib, blocks, m)
    && Dict.Image(lib, blocks, m) <= file
    && DictFile.Load(lib, file) == (blocks[..m], |Dict.Image(lib, blocks, m)|)
  }

  ghost predicate Survives(lib: Library, mark: Option<seq<Dict.Block>>, file: Option<bytes>) {
    mark.Some? == file.Some? && (mark.Some? ==> DictSurvives(lib, mark.value, file.value))
  }

  function LoadedBlocks(lib: Library, file: Option<bytes>): Option<seq<Dict.Block>> {
    if file.None? then None else Some(DictFile.Load(lib, file.value).0)
  }

  lemma {:induction false} DictAfterAdopt(lib: Library, mark: Option<seq<Dict.Block>>, file: Option<bytes>,
      recs: seq<Rec>)
    requires Survives(lib, mark, file) && AllReadable(recs, mark)
    ensures DictTells(lib, if file.None? then None else Some(DictFile.Adopted(lib, file.value)), LoadedBlocks(lib, file), recs, [])
  {
    hide AllReadable, Dict.Extends, Dict.Coherent, Dict.OnDisk, Dict.Image, DictFile.Load, Dict.Placed, Dict.Distinct;
    ReadableStaysIfServed(recs, mark, LoadedBlocks(lib, file), lib, file);
    NothingToRead(if file.None? then None else Some(DictFile.Adopted(lib, file.value).blocks));
    if file.Some? {
      var blocks, m :| LoadsAs(lib, file.value, blocks, m) && Dict.Extends(mark.value, blocks[..m]);
      DictFile.AdoptionCarriesOn(lib, file.value, blocks, m);
      ExtendsItself(blocks[..m]);
    }
  }

  lemma ReadableStaysIfServed(recs: seq<Rec>, mark: Option<seq<Dict.Block>>, loaded: Option<seq<Dict.Block>>,
      lib: Library, file: Option<bytes>)
    requires Survives(lib, mark, file) && AllReadable(recs, mark) && loaded == LoadedBlocks(lib, file)
    ensures AllReadable(recs, loaded)
  {
    hide AllReadable, Dict.Extends, Dict.Image, DictFile.Load, Dict.Placed, Dict.Distinct;
    ReadableStays(recs, mark, loaded);
  }

  lemma NothingToRead(blocks: Option<seq<Dict.Block>>)
    ensures AllReadable([], blocks)
  {}

  lemma ExtendsItself(blocks: seq<Dict.Block>)
    ensures Dict.Extends(blocks, blocks)
  {}

  lemma {:induction false} RecsOfPrefix(chunks: seq<Chunk>, all: seq<Chunk>)
    requires chunks <= all
    ensures RecsOf(chunks) <= RecsOf(all)
    decreases |chunks|
  {
    if chunks != [] {
      assert chunks[1..] <= all[1..] by { assert all[1..][..|chunks| - 1] == all[..|chunks|][1..]; }
      RecsOfPrefix(chunks[1..], all[1..]);
      assert chunks[0] == all[0];
      var (a, b) := (RecsOf(chunks[1..]), RecsOf(all[1..]));
      assert (all[0].recs + b)[..|all[0].recs + a|] == all[0].recs + b[..|a|];
    }
  }

  lemma PrefixIsReadable(xs: seq<Rec>, all: seq<Rec>, blocks: Option<seq<Dict.Block>>)
    requires xs <= all && AllReadable(all, blocks)
    ensures AllReadable(xs, blocks)
  {
    hide Readable;
    assert forall i :: 0 <= i < |xs| ==> xs[i] == all[i];
  }

  /** A dictionary file without left-over bytes may be cut anywhere after the block that ends what `mark` refers to. */
  lemma {:induction false} CutDictSurvives(lib: Library, blocks: seq<Dict.Block>, n: nat, mark: seq<Dict.Block>,
      m: nat, cut: nat)
    requires Lawful(lib) && 0 < m <= n <= |blocks|
    requires Dict.Distinct(blocks) && Dict.Placed(lib, blocks, n) && DictFile.AllReloadable(blocks, n)
    requires Dict.Extends(mark, blocks[..m])
    requires |Dict.Image(lib, blocks, m)| <= cut <= |Dict.Image(lib, blocks, n)|
    ensures DictSurvives(lib, mark, Dict.Image(lib, blocks, n)[..cut])
  {
    hide Dict.Distinct, DictFile.Load, Dict.Extends, DictFile.AllReloadable, Dict.Placed, Lawful, Dict.Image,
      DictFile.Whole;
    DictFile.CutLoadsWholeBlocks(lib, blocks, n, cut);
    DictFile.NothingAfterTheCut(lib, blocks, n, cut);
    var w := DictFile.Whole(lib, blocks, n, cut);
    WholeKeepsMark(lib, blocks, n, cut, m);
    PlacedPrefix(lib, blocks, w, n);
    PrefixGrows(mark, blocks, m, w);
    assert LoadsAs(lib, Dict.Image(lib, blocks, n)[..cut], blocks, w);
  }

  lemma {:induction false} WholeKeepsMark(lib: Library, blocks: seq<Dict.Block>, n: nat, cut: nat, m: nat)
    requires m <= n <= |blocks| && |Dict.Image(lib, blocks, m)| <= cut
    ensures m <= DictFile.Whole(lib, blocks, n, cut)
    decreases n
  {
    hide Dict.Image;
    if m < n && |Dict.Image(lib, blocks, n)| > cut { WholeKeepsMark(lib, blocks, n - 1, cut, m); }
  }

  lemma PlacedPrefix(lib: Library, blocks: seq<Dict.Block>, m: nat, n: nat)
    requires m <= n <= |blocks| && Dict.Placed(lib, blocks, n)
    ensures Dict.Placed(lib, blocks, m)
  {
    hide Dict.Image;
  }

  lemma PrefixGrows(mark: seq<Dict.Block>, blocks: seq<Dict.Block>, m: nat, w: nat)
    requires m <= w <= |blocks| && Dict.Extends(mark, blocks[..m])
    ensures Dict.Extends(mark, blocks[..w])
  {
    assert forall b :: 0 <= b < m ==> blocks[..m][b] == blocks[..w][b];
  }

  function Recovered(lib: Library, h: History, cut: nat, dictFile: Option<bytes>): History
    requires cut >= PART_HEADER_LEN
  {
    History(h.origin, Surviving(lib, None, h.origin.firstOffset, h.chunks, cut - PART_HEADER_LEN), [], LoadedBlocks(lib, dictFile))
  }

  lemma {:induction false} FileAfterAdopt(lib: Library, s: State, h: History, footer: Footer, cut: nat,
      dictFile: Option<bytes>)
    requires Lawful(lib) && FileTells(lib, s, h)
    requires PART_HEADER_LEN <= cut <= |s.file + footer.Encode()|
    requires h.Durable(lib).nextOffset < U64_END
    ensures var r := Adopted(lib, (s.file + footer.Encode())[..cut], dictFile);
      && r.Ok? && FileTells(lib, r.value, Recovered(lib, h, cut, dictFile))
      && BufferTells(lib, r.value, Recovered(lib, h, cut, dictFile))
  {
    hide FileOf, WellFormed, After, EncodeRows, Surviving, DictFile.Adopted, LoadedBlocks, AbsorbAll, Scan,
      DecodePartHeader, Footer.Encode, Lawful, RawOf, RecsFit, Monotone;
    CrashRecovery(lib, h.origin, h.chunks, footer, cut);
    var kept := Surviving(lib, None, h.origin.firstOffset, h.chunks, cut - PART_HEADER_LEN);
    var file := (s.file + footer.Encode())[..cut];
    assert FileOf(lib, h.origin, kept) == file[..|FileOf(lib, h.origin, kept)|];
    CountOfPrefix(kept, h.chunks);
    NextOffsetIs(lib, h.origin, kept);
    NextOffsetIs(lib, h.origin, h.chunks);
    EmptyBuffer(After(lib, NoBlocks(h.origin), kept).lastTs);
  }

  lemma EmptyBuffer(prev: Option<u64>)
    ensures RecsFit(prev, []) && Monotone(prev, []) && RawOf(prev, []) == [] && EndTs(prev, []) == prev
  {}

  lemma NextOffsetIs(lib: Library, header: PartHeader, chunks: seq<Chunk>)
    ensures After(lib, NoBlocks(header), chunks).nextOffset == header.firstOffset + Count(chunks)
  {
    hide Count, BlocksOf, Raws, RowsOf, EndAll;
  }

  lemma {:induction false} CountOfPrefix(chunks: seq<Chunk>, all: seq<Chunk>)
    requires chunks <= all
    ensures Count(chunks) <= Count(all)
    decreases |chunks|
  {
    if chunks != [] {
      assert chunks[1..] <= all[1..] by { assert all[1..][..|chunks| - 1] == all[..|chunks|][1..]; }
      CountOfPrefix(chunks[1..], all[1..]);
      assert chunks[0] == all[0];
    }
  }

  lemma DurableIsReadable(lib: Library, st: Option<Dict.State>, mark: Option<seq<Dict.Block>>, durable: seq<Rec>,
      pending: seq<Rec>)
    requires DictTells(lib, st, mark, durable, pending)
    ensures AllReadable(durable, mark)
  {
    hide Body.Healthy, Body.Ready, AllReadable, Dict.Extends, Dict.OnDisk;
  }

  lemma DurableIsBelow(lib: Library, s: State, h: History)
    requires BufferTells(lib, s, h)
    ensures h.Durable(lib).nextOffset < U64_END
  {
    hide After, RecsFit, Monotone, RawOf;
  }

  /** A crash at any time, the part file cut anywhere at or after its header: adoption succeeds, and the new writer's
      history is what the old one had put on disk, up to the last block wholly inside the cut. */
  lemma {:induction false} AdoptTells(lib: Library, s: State, h: History, footer: Footer, cut: nat,
      dictFile: Option<bytes>)
    requires Lawful(lib) && Tells(lib, s, h) && Survives(lib, h.mark, dictFile)
    requires PART_HEADER_LEN <= cut <= |s.file + footer.Encode()|
    ensures var r := Adopted(lib, (s.file + footer.Encode())[..cut], dictFile);
      var h' := Recovered(lib, h, cut, dictFile);
      && r.Ok? && Tells(lib, r.value, h') && Usable(r.value)
      && h'.Records() <= RecsOf(h.chunks) && h'.origin == h.origin
  {
    hide FileTells, BufferTells, DictTells, AllReadable, Survives, LoadedBlocks, Surviving, Lawful, After, RecsOf,
      DictFile.Adopted, AbsorbAll, Scan, DecodePartHeader, EncodeRows, Footer.Encode, Usable;
    DurableIsReadable(lib, s.dict, h.mark, RecsOf(h.chunks), h.pending);
    DurableIsBelow(lib, s, h);
    FileAfterAdopt(lib, s, h, footer, cut, dictFile);
    var h' := Recovered(lib, h, cut, dictFile);
    RecsOfPrefix(h'.chunks, h.chunks);
    PrefixIsReadable(RecsOf(h'.chunks), RecsOf(h.chunks), h.mark);
    DictAfterAdopt(lib, h.mark, dictFile, RecsOf(h'.chunks));
    var r := Adopted(lib, (s.file + footer.Encode())[..cut], dictFile);
    assert r.value.dict == if dictFile.None? then None else Some(DictFile.Adopted(lib, dictFile.value));
    TellsIsUsable(lib, r.value, h');
    assert RecsOf(h'.chunks) + [] == RecsOf(h'.chunks);
  }

  // --- Sealing ---

  /** A seal leaves every record in the file and a footer that counts them, names the last timestamp and digests
      every raw payload in order. */
  lemma {:induction false} SealTells(lib: Library, k: Config, s: State, h: History)
    requires Lawful(lib) && Tells(lib, s, h) && Usable(s)
    ensures var (r, s') := Sealed(lib, k, s);
      var all := FlushedHistory(lib, k, s, h);
      && (r.Ok? <==> FlushFits(s, h))
      && (r.Ok? ==> var t := all.Durable(lib);
                    && RecsOf(all.chunks) == h.Records() && WellFormed(lib, all.origin, all.chunks)
                    && s'.file == FileOf(lib, all.origin, all.chunks) + r.value.Encode()
                    && s'.index == INDEX_HEADER + EncodeRows(t.rows)
                    && r.value == Footer(Low64(t.records), if t.lastTs.Some? then t.lastTs.value else 0,
                                         Low32(t.blocks), lib.hash(t.digest)))
  {
    hide DictTells, Flushed, After, FileOf, WellFormed, EncodeRows, Footer.Encode, RecsFit, Monotone, RawOf, Lawful,
      RecsOf, FlushedDict;
    FlushTells(lib, k, s, h);
    var (r, s') := Flushed(lib, k, s);
    if r.Ok? {
      var f := FooterOf(lib, s');
      AppendToEnd(s'.file, f.Encode());
      if h.pending != [] { SnocRecs(None, h.chunks, Chunk(k.codec, h.pending)); }
      assert RecsOf(h.chunks) + [] == RecsOf(h.chunks);
    }
  }

  lemma AppendToEnd(file: bytes, data: bytes)
    ensures WriteAt(file, |file|, data) == file + data
  {}

  // --- Runs ---

  /** `Crash`: the process dies with the part file cut at `cut`, perhaps while a footer was being written, and with
      `dictFile` as the dictionary's file; then the part is adopted. */
  datatype Op = Append(ts: u64, body: Body.Body) | Flush | Crash(footer: Footer, cut: nat, dictFile: Option<bytes>)

  ghost predicate Allowed(lib: Library, s: State, h: History, op: Op) {
    match op
    case Append(_, _) => s.nextOffset + 1 < U64_END
    case Flush => true
    case Crash(footer, cut, dictFile) =>
      PART_HEADER_LEN <= cut <= |s.file + footer.Encode()| && Survives(lib, h.mark, dictFile)
  }

  /** One step of a run. A record refused for its time leaves the run going; an overflow or a code too wide ends it. */
  function Step(lib: Library, k: Config, s: State, h: History, op: Op): Option<(State, History)>
    requires Usable(s)
  {
    match op
    case Append(ts, body) =>
      (match Appended(lib, k, s, ts, body)
       case (Ok(_), s') => Some((s', AppendedHistory(lib, k, s, h, ts, body)))
       case (Err(TimeBackwards(_, _)), s') => Some((s', h))
       case (Err(_), _) => None)
    case Flush =>
      (match Flushed(lib, k, s)
       case (Ok(_), s') => Some((s', FlushedHistory(lib, k, s, h)))
       case (Err(_), _) => None)
    case Crash(footer, cut, dictFile) =>
      if !(PART_HEADER_LEN <= cut <= |s.file + footer.Encode()|) then None
      else
        match Adopted(lib, (s.file + footer.Encode())[..cut], dictFile)
        case Ok(s') => Some((s', Recovered(lib, h, cut, dictFile)))
        case Err(_) => None
  }

  lemma {:induction false} StepTells(lib: Library, k: Config, s: State, h: History, op: Op)
    requires Lawful(lib) && Tells(lib, s, h) && Usable(s) && Allowed(lib, s, h, op)
    ensures var next := Step(lib, k, s, h, op);
      && (next.Some? ==> Tells(lib, next.value.0, next.value.1) && Usable(next.value.0))
      && (op.Crash? ==> next.Some?)
  {
    hide Tells, Flushed, Appended, Adopted, Survives, Usable, FlushedHistory, AppendedHistory, Recovered, Lawful;
    match op {
      case Append(ts, body) => AppendTells(lib, k, s, h, ts, body);
      case Flush => FlushTells(lib, k, s, h);
      case Crash(footer, cut, dictFile) => AdoptTells(lib, s, h, footer, cut, dictFile);
    }
    var next := Step(lib, k, s, h, op);
    if next.Some? { TellsIsUsable(lib, next.value.0, next.value.1); }
  }

  /** The states a run can be in: `states[i + 1]` is what step `ops[i]` made of `states[i]`. */
  ghost predicate IsRun(lib: Library, k: Config, ops: seq<Op>, states: seq<(State, History)>) {
    && |states| == |ops| + 1
    && forall i :: 0 <= i < |ops| ==>
         var (s, h) := states[i];
         Usable(s) && Allowed(lib, s, h, ops[i]) && Step(lib, k, s, h, ops[i]) == Some(states[i + 1])
  }

  /** In every state of every run of appends, flushes and crashes from a fresh part, the files and the writer's fields
      are exactly what the history says. */
  lemma {:induction false} RunsTell(
    lib: Library, k: Config, header: PartHeader, withDict: bool, ops: seq<Op>, states: seq<(State, History)>, i: nat)
    requires Lawful(lib) && IsRun(lib, k, ops, states) && i < |states|
    requires states[0] == (Created(header, withDict), History(header, [], [], if withDict then Some([]) else None))
    ensures Tells(lib, states[i].0, states[i].1)
    decreases i
  {
    hide Tells, Step, Usable, Allowed, Lawful, Created;
    if i == 0 {
      CreatedTells(lib, header, withDict);
    } else {
      RunsTell(lib, k, header, withDict, ops, states, i - 1);
      var (s, h) := states[i - 1];
      TellsIsUsable(lib, s, h);
      assert Step(lib, k, s, h, ops[i - 1]) == Some(states[i]);
      StepTells(lib, k, s, h, ops[i - 1]);
    }
  }
}
