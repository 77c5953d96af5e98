/** Opening a part for reading, and the read loops. */
module PartReader {
  import opened Bytes
  import opened Foreign
  import opened Format
  import opened Part
  import opened Recovery
  import opened Reader
  import Body
  import BodyCodec
  import Dict
  import DictCodes
  import DictFile
  import History
  import Writer

  function RowsFrom(body: bytes): seq<IndexRow>
    decreases |body|
  {
    if |body| < INDEX_ROW_LEN then []
    else
      match DecodeIndexRow(body[..INDEX_ROW_LEN])
      case None => []
      case Some(row) => [row] + RowsFrom(body[INDEX_ROW_LEN..])
  }

  /** The rows of an index file. Its header is skipped unread, a torn last row is dropped. */
  function RowsIn(index: bytes): seq<IndexRow> {
    if |index| < |INDEX_HEADER| then [] else RowsFrom(index[|INDEX_HEADER|..])
  }

  function FooterIn(file: bytes): Option<Footer> {
    if |file| < FOOTER_LEN + PART_HEADER_LEN then None else DecodeFooter(file[|file| - FOOTER_LEN..])
  }

  /** The timestamp of the last record of the block `row` points at. */
  function TailTs(lib: Library, file: bytes, row: IndexRow): Option<u64> {
    var at := row.fileOffset;
    if at + BLOCK_HEADER_LEN > |file| then None
    else
      match DecodeBlockHeader(file[at..at + BLOCK_HEADER_LEN])
      case None => None
      case Some(h) =>
        var end := at + BLOCK_HEADER_LEN + row.lenC;
        if end > |file| then None
        else
          match DecodePayload(lib, h.codec, file[at + BLOCK_HEADER_LEN..end], h.lenU)
          case None => None
          case Some(raw) => LastTsFrom(raw, 0, h.firstTs, true)
  }

  function SpanOf(lib: Library, file: bytes, rows: seq<IndexRow>, footer: Option<Footer>): Result<Option<(u64,
      u64)>, Error> {
    if rows == [] then Ok(None)
    else if footer.Some? then Ok(Some((rows[0].firstTs, footer.value.lastTs)))
    else
      match TailTs(lib, file, rows[|rows| - 1])
      case None => Err(BadFrame)
      case Some(last) => Ok(Some((rows[0].firstTs, last)))
  }

  function Open(lib: Library, file: bytes, index: Option<bytes>, dictFile: Option<bytes>,
      sealed: bool): Result<Reader, Error> {
    match DecodePartHeader(file)
    case None => Err(BadFrame)
    case Some(header) =>
      var footer := if sealed then FooterIn(file) else None;
      var rows := if index.None? then [] else RowsIn(index.value);
      match SpanOf(lib, file, rows, footer)
      case Err(e) => Err(e)
      case Ok(span) =>
        Ok(Reader(header, footer, rows, if dictFile.None? then None else Some(DictFile.Load(lib, dictFile.value).0), span, file))
  }

  /** Records the part covers, from the first offset up to but not including the second. */
  function OffsetSpan(r: Reader): (nat, nat) {
    var start := r.header.firstOffset;
    if r.footer.Some? then (start, start + r.footer.value.records)
    else if r.rows != [] then (start, r.rows[|r.rows| - 1].firstOffset + r.rows[|r.rows| - 1].records)
    else (start, start)
  }

  // --- The index file ---

  lemma {:induction false} FirstRowBytes(row: IndexRow, rest: bytes)
    ensures RowsFrom(row.Encode() + rest) == [row] + RowsFrom(rest)
  {
    hide IndexRow.Encode, DecodeIndexRow;
    IndexRowRoundTrip(row);
    var body := row.Encode() + rest;
    assert body[..INDEX_ROW_LEN] == row.Encode() && body[INDEX_ROW_LEN..] == rest;
  }

  lemma {:induction false} RowsOfEncoded(rows: seq<IndexRow>, rest: bytes)
    ensures RowsFrom(Writer.EncodeRows(rows) + rest) == rows + RowsFrom(rest)
    decreases |rows|
  {
    hide IndexRow.Encode, RowsFrom;
    if rows == [] {
      assert Writer.EncodeRows(rows) + rest == rest;
      assert rows + RowsFrom(rest) == RowsFrom(rest);
    } else {
      var (init, last) := (rows[..|rows| - 1], rows[|rows| - 1]);
      assert Writer.EncodeRows(rows) + rest == Writer.EncodeRows(init) + (last.Encode() + rest);
      RowsOfEncoded(init, last.Encode() + rest);
      FirstRowBytes(last, rest);
      assert init + ([last] + RowsFrom(rest)) == rows + RowsFrom(rest);
    }
  }

  /** Reading an index file gives the rows written, and any torn row after them is dropped. */
  lemma {:induction false} IndexReadsBack(rows: seq<IndexRow>, torn: bytes)
    requires |torn| < INDEX_ROW_LEN
    ensures RowsIn(INDEX_HEADER + Writer.EncodeRows(rows) + torn) == rows
  {
    hide RowsFrom, Writer.EncodeRows;
    var index := INDEX_HEADER + Writer.EncodeRows(rows) + torn;
    assert index[|INDEX_HEADER|..] == Writer.EncodeRows(rows) + torn;
    RowsOfEncoded(rows, torn);
    NoRows(torn);
    assert rows + [] == rows;
  }

  lemma NoRows(torn: bytes)
    requires |torn| < INDEX_ROW_LEN
    ensures RowsFrom(torn) == []
  {}

  // --- Spans ---

  lemma {:induction false} TailOfChunk(lib: Library, file: bytes, prev: Option<u64>, off: nat, at: nat, c: Chunk)
    requires Lawful(lib) && ChunkFits(prev, off, c) && at < U32_END
    requires at <= |file| && ChunkBytes(lib, prev, off, c) <= file[at..]
    ensures c.recs != [] && TailTs(lib, file, RowFor(lib, prev, off, at, c)) == Some(c.recs[|c.recs| - 1].ts)
  {
    hide RawOf, DecodeBlockHeader, DecodePayload, Walk, LastTsFrom, RecsFit, Monotone, Lawful, ChunkBytes, HeaderFor;
    WholeBlockIsFound(lib, file, prev, off, at, c);
    FoundIsRead(lib, file, at);
    HeaderStarts(lib, prev, off, c);
    LastTsOfChunk(prev, off, c);
    RowIs(lib, prev, off, at, c);
  }

  /** The last row of the index, and the bytes it points at. */
  lemma {:induction false} LastRow(lib: Library, origin: PartHeader, chunks: seq<Chunk>, tail: bytes)
    requires Lawful(lib) && WellFormed(lib, origin, chunks) && chunks != []
    ensures var file := FileOf(lib, origin, chunks) + tail;
      var rows := RowsOf(lib, None, origin.firstOffset, PART_HEADER_LEN, chunks);
      var c := chunks[|chunks| - 1];
      && rows != [] && c.recs != [] && TailTs(lib, file, rows[|rows| - 1]) == Some(c.recs[|c.recs| - 1].ts)
      && rows[|rows| - 1].firstOffset + rows[|rows| - 1].records == origin.firstOffset + Count(chunks)
      && RecsOf(chunks) != [] && RecsOf(chunks)[|RecsOf(chunks)| - 1] == c.recs[|c.recs| - 1]
  {
    hide ChunkBytes, ChunkFits, RowFor, TailTs, BlocksOf, RowsOf, AllFit, PartHeader.Encode, Lawful, RecsOf, Count,
      Raws, EndAll;
    var (init, c) := (chunks[..|chunks| - 1], chunks[|chunks| - 1]);
    var off := origin.firstOffset;
    assert chunks == init + [c];
    SnocFit(lib, None, off, PART_HEADER_LEN, init, c);
    SnocRows(lib, None, off, PART_HEADER_LEN, init, c);
    SnocBlocks(lib, None, off, init, c);
    SnocEnd(None, init, c);
    SnocRecs(None, init, c);
    var (head, before) := (origin.Encode(), BlocksOf(lib, None, off, init));
    var (prev, off') := (EndAll(None, init), off + Count(init));
    var image := ChunkBytes(lib, prev, off', c);
    var file := FileOf(lib, origin, chunks) + tail;
    assert file == (head + before) + image + tail;
    AfterHead(head + before, image, tail);
    TailOfChunk(lib, file, prev, off', |head + before|, c);
    RowCounts(lib, prev, off', |head + before|, c);
  }

  lemma {:induction false} RowCounts(lib: Library, prev: Option<u64>, off: nat, at: nat, c: Chunk)
    requires Lawful(lib) && ChunkFits(prev, off, c)
    ensures RowFor(lib, prev, off, at, c).records == |c.recs| && RowFor(lib, prev, off, at, c).firstOffset == off
  {
    hide RawOf, RecsFit, Monotone, Lawful;
    HeaderIsExact(lib, prev, off, c);
  }

  lemma {:induction false} FirstRowIs(lib: Library, origin: PartHeader, chunks: seq<Chunk>)
    requires Lawful(lib) && WellFormed(lib, origin, chunks) && chunks != []
    ensures var rows := RowsOf(lib, None, origin.firstOffset, PART_HEADER_LEN, chunks);
      rows != [] && RecsOf(chunks) != [] && rows[0].firstTs == RecsOf(chunks)[0].ts
  {
    hide ChunkBytes, RawOf, RecsFit, Monotone, Lawful, RowFor;
    RowIs(lib, None, origin.firstOffset, PART_HEADER_LEN, chunks[0]);
  }

  lemma {:induction false} FooterAtTheEnd(head: bytes, footer: Footer)
    requires |head| >= PART_HEADER_LEN
    ensures FooterIn(head + footer.Encode()) == Some(footer)
  {
    hide Footer.Encode, DecodeFooter;
    FooterRoundTrip(footer);
    var file := head + footer.Encode();
    assert file[|file| - FOOTER_LEN..] == footer.Encode();
  }

  /** The footer of a sealed part tells its record count and last timestamp. */
  predicate TellsTheEnd(footer: Footer, chunks: seq<Chunk>) {
    footer.records == Count(chunks) && (chunks != [] ==> EndAll(None, chunks) == Some(footer.lastTs))
  }

  /** Opening a part, open or sealed, finds its index, its dictionary and the spans its records cover. */
  lemma {:induction false} OpensExactly(
    lib: Library, origin: PartHeader, chunks: seq<Chunk>, tail: bytes, footer: Option<Footer>, torn: bytes, dictFile: Option<bytes>)
    requires Lawful(lib) && WellFormed(lib, origin, chunks) && |torn| < INDEX_ROW_LEN
    requires footer.Some? ==> TellsTheEnd(footer.value, chunks) && tail == footer.value.Encode()
    ensures var rows := RowsOf(lib, None, origin.firstOffset, PART_HEADER_LEN, chunks);
      var file := FileOf(lib, origin, chunks) + tail;
      var r := Open(lib, file, Some(INDEX_HEADER + Writer.EncodeRows(rows) + torn), dictFile, footer.Some?);
      var recs := RecsOf(chunks);
      && r.Ok? && r.value.header == origin && r.value.rows == rows && r.value.file == file && r.value.footer == footer
      && r.value.dict == History.LoadedBlocks(lib, dictFile)
      && (recs == [] <==> chunks == [])
      && r.value.span == (if recs == [] then None else Some((recs[0].ts, recs[|recs| - 1].ts)))
      && OffsetSpan(r.value) == (origin.firstOffset, origin.firstOffset + Count(chunks))
  {
    hide FileOf, WellFormed, RowsOf, RowsIn, TailTs, DecodePartHeader, FooterIn, Footer.Encode, DictFile.Load, EndAll,
      Count, RecsOf, Writer.EncodeRows, Lawful;
    var rows := RowsOf(lib, None, origin.firstOffset, PART_HEADER_LEN, chunks);
    IndexReadsBack(rows, torn);
    HeaderIsRead(lib, origin, chunks, tail);
    if footer.Some? { FooterAtTheEnd(FileOf(lib, origin, chunks), footer.value); }
    NothingIn(lib, origin.firstOffset);
    if chunks != [] {
      LastRow(lib, origin, chunks, tail);
      FirstRowIs(lib, origin, chunks);
      EndIs(chunks);
    }
  }

  lemma NothingIn(lib: Library, off: nat)
    ensures RowsOf(lib, None, off, PART_HEADER_LEN, []) == [] && RecsOf([]) == [] && Count([]) == 0
  {}

  lemma {:induction false} EndIs(chunks: seq<Chunk>)
    requires chunks != [] && chunks[|chunks| - 1].recs != []
    ensures EndAll(None, chunks) == Some(chunks[|chunks| - 1].recs[|chunks[|chunks| - 1].recs| - 1].ts)
  {
    hide EndAll;
    assert chunks == chunks[..|chunks| - 1] + [chunks[|chunks| - 1]];
    SnocEnd(None, chunks[..|chunks| - 1], chunks[|chunks| - 1]);
  }

  lemma {:induction false} HeaderIsRead(lib: Library, origin: PartHeader, chunks: seq<Chunk>, tail: bytes)
    ensures var file := FileOf(lib, origin, chunks) + tail;
      DecodePartHeader(file) == Some(origin) && |FileOf(lib, origin, chunks)| >= PART_HEADER_LEN
  {
    hide BlocksOf, PartHeader.Encode, DecodePartHeader;
    var rest := BlocksOf(lib, None, origin.firstOffset, chunks) + tail;
    var file := FileOf(lib, origin, chunks) + tail;
    assert file == origin.Encode() + rest == (origin.Encode() + rest)[..|file|];
    HeaderSurvives(origin, rest, |file|);
  }

  // --- What is durable is what is read ---

  lemma {:induction false} ReadableDecode(recs: seq<Rec>, mark: Option<seq<Dict.Block>>, dict: Option<seq<Dict.Block>>)
    requires History.AllReadable(recs, mark) && History.Serves(mark, dict)
    ensures AllDecode(recs, dict)
  {
    hide Body.Decode, Dict.Extends, DictCodes.Sound;
    forall i | 0 <= i < |recs| ensures Body.Decode(recs[i].enc, dict) == Some(recs[i].body) {
      assert History.Readable(recs[i], mark);
    }
  }

  /** The dictionary as it lies in its file serves every record of the part, as long as its codes are sound. */
  lemma {:induction false} LoadedDictServes(lib: Library, st: Dict.State, mark: seq<Dict.Block>)
    requires Lawful(lib) && Dict.OnDisk(lib, st) && DictFile.AllReloadable(st.blocks, st.open)
    requires Dict.Extends(mark, st.blocks[..st.open]) && DictCodes.Sound(DictFile.Load(lib, st.file).0)
    ensures History.Serves(Some(mark), Some(DictFile.Load(lib, st.file).0))
  {
    hide DictFile.Load, Dict.Image, DictCodes.Sound, DictFile.AllReloadable, Lawful;
    DictFile.ReloadKeepsBlocks(lib, st);
    PrefixExtends(st.blocks[..st.open], DictFile.Load(lib, st.file).0);
    Dict.ExtendsIsTransitive(mark, st.blocks[..st.open], DictFile.Load(lib, st.file).0);
  }

  lemma PrefixExtends(xs: seq<Dict.Block>, ys: seq<Dict.Block>)
    requires xs <= ys
    ensures Dict.Extends(xs, ys)
  {
    assert forall b :: 0 <= b < |xs| ==> xs[b] == ys[b];
  }

  /** What the dictionary file must be for a reader: loadable, with sound codes. */
  ghost predicate DictReloads(lib: Library, dict: Option<Dict.State>) {
    dict.Some? ==>
      && dict.value.open <= |dict.value.blocks| && DictFile.AllReloadable(dict.value.blocks, dict.value.open)
      && DictCodes.Sound(DictFile.Load(lib, dict.value.file).0)
  }

  function FileOfDict(dict: Option<Dict.State>): Option<bytes> { if dict.None? then None else Some(dict.value.file) }

  /** Whatever run of appends, flushes and crashes led to this writer: a reader that opens its files reads exactly the
      durable records, by offset or by time, with their own timestamps, offsets and bodies. */
  lemma {:induction false} DurableRecordsAreRead(
    lib: Library, s: Writer.State, h: History.History, sel: Select, max: nat, out: seq<Hit>)
    requires Lawful(lib) && History.Tells(lib, s, h) && DictReloads(lib, s.dict)
    ensures var r := Open(lib, s.file, Some(s.index), FileOfDict(s.dict), false);
      && r.Ok?
      && Read(lib, r.value, sel, max, out) == Ok(Fill(out, Pick(sel, Hits(h.origin.firstOffset, RecsOf(h.chunks))), max))
      && OffsetSpan(r.value) == (h.origin.firstOffset, h.origin.firstOffset + |RecsOf(h.chunks)|)
  {
    hide FileOf, RowsOf, Open, Fill, Pick, Hits, RecsOf, Writer.EncodeRows, OffsetSpan, Read, AllDecode,
      History.AllReadable,
      Dict.OnDisk, Dict.Extends, DictCodes.Sound, DictFile.Load, Body.Healthy, History.BufferTells, Lawful, AllFit, Raws, BlocksOf,
      DictFile.AllReloadable, Count, EndAll;
    var rows := RowsOf(lib, None, h.origin.firstOffset, PART_HEADER_LEN, h.chunks);
    assert [] + rows == rows;
    assert s.file + [] == s.file && s.index + [] == s.index;
    OpensExactly(lib, h.origin, h.chunks, [], None, [], FileOfDict(s.dict));
    if s.dict.Some? { LoadedDictServes(lib, s.dict.value, h.mark.value); }
    ReadableDecode(RecsOf(h.chunks), h.mark, History.LoadedBlocks(lib, FileOfDict(s.dict)));
    CountIsLength(h.chunks);
    ReadsAreExact(lib, h.origin, h.chunks, [], Open(lib, s.file, Some(s.index), FileOfDict(s.dict), false).value, sel, max, out);
  }

  lemma {:induction false} CountIsLength(chunks: seq<Chunk>)
    ensures Count(chunks) == |RecsOf(chunks)|
    decreases |chunks|
  {
    if chunks != [] { CountIsLength(chunks[1..]); }
  }

  // --- The loops ---

  /** Read records from logical offset `from`, until `out` holds `max`. */
  method ReadFrom(lib: Library, r: Reader, from: nat, max: nat, out: seq<Hit>) returns (res: Result<seq<Hit>, Error>)
    ensures res == Read(lib, r, ByOffset(from), max, out)
  {
    hide ScanFrom, ReadAt, FirstRow;
    var sel := ByOffset(from);
    var start := FirstRow(r.rows, sel);
    var hits := out;
    var i := start;
    while i < |r.rows| && |hits| < max
      invariant start <= i <= |r.rows|
      invariant Read(lib, r, sel, max, out) == ReadRows(lib, r.file, r.rows[i..], sel, max, r.dict, hits)
    {
      var block := ReadBlock(lib, r.file, r.rows[i]);
      if block.None? {
        return Err(BadFrame);
      }
      var (h, raw) := block.value;
      var scanned := ScanBlock(h, raw, sel, max, r.dict, hits);
      if scanned.Err? {
        return Err(scanned.error);
      }
      assert r.rows[i..][1..] == r.rows[i + 1..];
      hits := scanned.value.0;
      i := i + 1;
    }
    return Ok(hits);
  }

  /** Read the records whose timestamp is in `[fromTs, toTs]`, until `out` holds `max`. */
  method ReadByTime(lib: Library, r: Reader, fromTs: nat, toTs: nat, max: nat, out: seq<Hit>)
      returns (res: Result<seq<Hit>, Error>)
    ensures res == Read(lib, r, ByTime(fromTs, toTs), max, out)
  {
    hide ScanFrom, ReadAt, FirstRow;
    var sel := ByTime(fromTs, toTs);
    var start := FirstRow(r.rows, sel);
    var hits := out;
    var i := start;
    while i < |r.rows|
      invariant start <= i <= |r.rows|
      invariant Read(lib, r, sel, max, out) == ReadRows(lib, r.file, r.rows[i..], sel, max, r.dict, hits)
    {
      if |hits| >= max || r.rows[i].firstTs > toTs {
        return Ok(hits);
      }
      var block := ReadBlock(lib, r.file, r.rows[i]);
      if block.None? {
        return Err(BadFrame);
      }
      var (h, raw) := block.value;
      var scanned := ScanBlock(h, raw, sel, max, r.dict, hits);
      if scanned.Err? {
        return Err(scanned.error);
      }
      assert r.rows[i..][1..] == r.rows[i + 1..];
      hits := scanned.value.0;
      if scanned.value.1 > toTs {
        return Ok(hits);
      }
      i := i + 1;
    }
    return Ok(hits);
  }

  method ReadBlock(lib: Library, file: bytes, row: IndexRow) returns (r: Option<(BlockHeader, bytes)>)
    ensures r == ReadAt(lib, file, row.fileOffset)
  {
    var at := row.fileOffset;
    if at + BLOCK_HEADER_LEN > |file| {
      return None;
    }
    var h := DecodeBlockHeader(file[at..at + BLOCK_HEADER_LEN]);
    if h.None? || at + BLOCK_HEADER_LEN + h.value.lenC > |file| {
      return None;
    }
    var raw := DecodePayload(lib, h.value.codec, file[at + BLOCK_HEADER_LEN..at + BLOCK_HEADER_LEN + h.value.lenC], h.value.lenU);
    if raw.None? {
      return None;
    }
    return Some((h.value, raw.value));
  }

  /** Walk one payload. The first record takes its time from the block's header, the others from their deltas. */
  method ScanBlock(h: BlockHeader, raw: bytes, sel: Select, max: nat, dict: Option<seq<Dict.Block>>, out: seq<Hit>)
    returns (r: Result<(seq<Hit>, u64), Error>)
    ensures r == ScanFrom(raw, 0, h.firstOffset, h.firstTs, true, sel, max, dict, out)
  {
    hide GetRecord, Body.Decode;
    var pos := 0;
    var offset: nat := h.firstOffset;
    var ts: u64 := h.firstTs;
    var first := true;
    var hits := out;
    while pos < |raw|
      invariant ScanFrom(raw, 0, h.firstOffset, h.firstTs, true, sel, max, dict, out)
             == ScanFrom(raw, pos, offset, ts, first, sel, max, dict, hits)
      decreases |raw| - pos
    {
      var rec := GetRecord(raw, pos);
      if rec.None? {
        return Ok((hits, ts));
      }
      var (delta, enc, next) := rec.value;
      if !first {
        ts := SatAdd(ts, delta);
      }
      if sel.Wants(ts, offset) && |hits| < max {
        var body := BodyCodec.DecodeWith(enc, dict);
        if body.None? {
          return Err(BadFrame);
        }
        hits := hits + [(ts, offset, body.value)];
      }
      offset := offset + 1;
      first := false;
      pos := next;
    }
    NoRecordAtTheEnd(raw, pos);
    return Ok((hits, ts));
  }
}
