/** The writer of one part as a state machine: create, append, flush, seal, and adoption after a crash. */
module Writer {
  import opened Bytes
  import opened Foreign
  import opened Format
  import opened Part
  import opened Recovery
  import Body
  import Dict
  import DictCodes
  import DictFile

  datatype Config = Config(blockBytes: nat, codec: Codec, dict: Dict.Config)

  /** What the fields of a `PartWriter` hold, with the files it writes. */
  datatype State = State(
    header: PartHeader, file: bytes, index: bytes, nextOffset: nat, lastTs: Option<u64>, fileOff: nat,
    block: bytes, firstTs: u64, firstOffset: nat, count: nat, records: nat, blocks: nat, digest: bytes,
    dict: Option<Dict.State>)

  predicate Usable(s: State) { s.fileOff <= |s.file| && Body.Ready(s.dict) }

  function EncodeRows(rows: seq<IndexRow>): bytes {
    if rows == [] then [] else EncodeRows(rows[..|rows| - 1]) + rows[|rows| - 1].Encode()
  }

  // --- The steps ---

  function Created(header: PartHeader, withDict: bool): (s: State)
    ensures Usable(s)
  {
    State(header, header.Encode(), INDEX_HEADER, header.firstOffset, None, PART_HEADER_LEN, [], 0, header.firstOffset, 0,
          0, 0, [], if withDict then Some(DictCodes.FRESH) else None)
  }

  function FlushedDict(lib: Library, dict: Option<Dict.State>): (d: Option<Dict.State>)
    requires Body.Ready(dict)
    ensures Body.Ready(d)
  {
    if dict.None? then None else Some(Dict.AfterFlush(lib, dict.value))
  }

  function HeaderOf(s: State, used: Codec, size: u32): BlockHeader {
    BlockHeader(used, Low32(s.count), size, Low32(|s.block|), s.firstTs, Low64(s.firstOffset))
  }

  /** The buffered block moved to the file, under header `h`. */
  function Written(s: State, h: BlockHeader, payload: bytes): State
    requires Usable(s)
  {
    s.(block := [], file := WriteAt(s.file, s.fileOff, h.Encode() + payload), records := s.records + s.count,
       blocks := s.blocks + 1, digest := s.digest + s.block)
  }

  function Indexed(s: State, row: IndexRow): State {
    s.(index := s.index + row.Encode(), fileOff := s.fileOff + BLOCK_HEADER_LEN + row.lenC, count := 0,
       firstOffset := s.nextOffset)
  }

  /** The buffered block written at `fileOff`, and where it went recorded in the index. */
  function Emitted(lib: Library, k: Config, s: State): (r: (Result<(), Error>, State))
    requires Usable(s)
    ensures r.0.Ok? ==> Usable(r.1)
  {
    var (used, payload) := Packed(lib, k.codec, s.block);
    if |payload| >= U32_END || |s.block| >= U32_END then (Err(Overflow), s.(block := []))
    else
      var h := HeaderOf(s, used, |payload|);
      match RowOf(h, s.fileOff)
      case None => (Err(Overflow), Written(s, h, payload))
      case Some(row) => (Ok(()), Indexed(Written(s, h, payload), row))
  }

  function Flushed(lib: Library, k: Config, s: State): (r: (Result<(), Error>, State))
    requires Usable(s)
    ensures r.0.Ok? ==> Usable(r.1)
  {
    if s.count == 0 then (Ok(()), s) else Emitted(lib, k, s.(dict := FlushedDict(lib, s.dict)))
  }

  /** The first record of a part without a base time gives the header in memory its base; the first of a block
      gives the block its time and offset. */
  function Opened(s: State, ts: u64): State {
    var s' := if s.lastTs.None? && s.header.baseTs == 0 && s.records == 0 then s.(header := s.header.(baseTs := ts)) else s;
    if s.block == [] then s'.(firstTs := ts, firstOffset := s.nextOffset) else s'
  }

  function Buffered(s: State, ts: u64, enc: bytes): State {
    Opened(s, ts).(block := s.block + RecordBytes(Delta(s.lastTs, ts), enc), nextOffset := s.nextOffset + 1,
                   count := s.count + 1, lastTs := Some(ts))
  }

  predicate Backwards(s: State, ts: u64) { s.lastTs.Some? && ts < s.lastTs.value }

  /** The record is turned down for what it is, before anything is written: it is older than the last one, or too large
      for its length field. */
  predicate Refuses(lib: Library, k: Config, s: State, ts: u64, body: Body.Body)
    requires Usable(s)
  {
    var enc := Body.Encode(lib, k.dict, s.dict, body).0;
    enc.Some? && (Backwards(s, ts) || !RecordFits(Delta(s.lastTs, ts), enc.value))
  }

  /** Append one body at `ts`: its offset, or why it was refused. Encoding it may already have grown the dictionary. */
  function Appended(lib: Library, k: Config, s: State, ts: u64, body: Body.Body): (r: (Result<nat, Error>, State))
    requires Usable(s)
    ensures r.0.Ok? || Refuses(lib, k, s, ts, body) ==> Usable(r.1)
    ensures Refuses(lib, k, s, ts, body) ==> r.0.Err?
  {
    var (enc, dict) := Body.Encode(lib, k.dict, s.dict, body);
    var s' := s.(dict := dict);
    if enc.None? then (Err(CodeTooWide), s')
    else if Backwards(s, ts) then (Err(TimeBackwards(s.lastTs.value, ts)), s')
    else if !RecordFits(Delta(s.lastTs, ts), enc.value) then (Err(Overflow), Opened(s', ts))
    else
      var full := Buffered(s', ts, enc.value);
      if |full.block| < k.blockBytes then (Ok(s.nextOffset), full)
      else
        match Flushed(lib, k, full)
        case (Ok(_), s'') => (Ok(s.nextOffset), s'')
        case (Err(e), s'') => (Err(e), s'')
  }

  function FooterOf(lib: Library, s: State): Footer {
    Footer(Low64(s.records), if s.lastTs.Some? then s.lastTs.value else 0, Low32(s.blocks), lib.hash(s.digest))
  }

  function Sealed(lib: Library, k: Config, s: State): (r: (Result<Footer, Error>, State))
    requires Usable(s)
    ensures r.0.Ok? ==> Body.Ready(r.1.dict)
  {
    match Flushed(lib, k, s)
    case (Err(e), s') => (Err(e), s')
    case (Ok(_), s') =>
      var f := FooterOf(lib, s');
      (Ok(f), s'.(file := WriteAt(s'.file, s'.fileOff, f.Encode()),
                  dict := if s'.dict.None? then None else Some(Dict.AfterWrite(lib, s'.dict.value))))
  }

  /** Take over the files of a part: keep its good blocks, cut the rest, rebuild the index. */
  function Adopted(lib: Library, file: bytes, dictFile: Option<bytes>): Result<State, Error> {
    match DecodePartHeader(file)
    case None => Err(BadFrame)
    case Some(header) =>
      match AbsorbAll(NoBlocks(header), Scan(lib, file, PART_HEADER_LEN))
      case Err(e) => Err(e)
      case Ok(t) =>
        Ok(State(header, if t.fileOff < |file| then file[..t.fileOff] else file, INDEX_HEADER + EncodeRows(t.rows),
                 t.nextOffset, t.lastTs, t.fileOff, [], 0, t.nextOffset, 0, t.records, t.blocks, t.digest,
                 if dictFile.None? then None else Some(DictFile.Adopted(lib, dictFile.value))))
  }
}
