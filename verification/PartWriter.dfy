/** The part writer as one object: its methods update fields and files in place, and land where `Writer` says. */
module PartWriter {
  import opened Bytes
  import opened Foreign
  import opened Format
  import opened Part
  import opened Recovery
  import Body
  import BodyCodec
  import Dict
  import DictFile
  import Dictionary
  import Writer

  class PartWriter {
    const lib: Library
    const config: Writer.Config
    var header: PartHeader
    var file: bytes
    var index: bytes
    var nextOffset: nat
    var lastTs: Option<u64>
    var fileOff: nat
    var block: bytes
    var blockFirstTs: u64
    var blockFirstOffset: nat
    var blockRecords: nat
    var records: nat
    var blocks: nat
    var digest: bytes
    var dict: Dictionary.Dictionary?

    function Now(): Writer.State
      reads this, dict
    {
      Writer.State(header, file, index, nextOffset, lastTs, fileOff, block, blockFirstTs, blockFirstOffset, blockRecords,
                   records, blocks, digest, BodyCodec.StateOf(dict))
    }

    /** The dictionary works with the writer's library and tuning. */
    ghost predicate Wired()
      reads this, dict
    {
      Writer.Usable(Now()) && (dict != null ==> dict.lib == lib && dict.config == config.dict)
    }

    constructor Create(lib: Library, config: Writer.Config, header: PartHeader, withDict: bool)
      ensures Now() == Writer.Created(header, withDict) && Wired() && fresh(BodyCodec.Owned(dict))
      ensures this.lib == lib && this.config == config
    {
      this.lib, this.config := lib, config;
      this.header := header;
      file, fileOff := header.Encode(), PART_HEADER_LEN;
      index := INDEX_HEADER;
      nextOffset, lastTs := header.firstOffset, None;
      block, blockFirstTs, blockFirstOffset, blockRecords := [], 0, header.firstOffset, 0;
      records, blocks, digest := 0, 0, [];
      dict := null;
      new;
      if withDict {
        dict := new Dictionary.Dictionary(lib, config.dict);
      }
    }

    /** Take over the totals a scan of the file came to. */
    constructor Resume(lib: Library, config: Writer.Config, header: PartHeader, file: bytes, t: Totals,
        dict: Dictionary.Dictionary?)
      ensures this.lib == lib && this.config == config && this.dict == dict
      ensures Now() == Writer.State(header, if t.fileOff < |file| then file[..t.fileOff] else file,
                                    INDEX_HEADER + Writer.EncodeRows(t.rows), t.nextOffset, t.lastTs, t.fileOff, [], 0,
                                    t.nextOffset, 0, t.records, t.blocks, t.digest, BodyCodec.StateOf(dict))
    {
      this.lib, this.config, this.header, this.dict := lib, config, header, dict;
      this.file := if t.fileOff < |file| then file[..t.fileOff] else file;
      var rows := RebuildIndex(t.rows);
      index := rows;
      nextOffset, lastTs, fileOff := t.nextOffset, t.lastTs, t.fileOff;
      block, blockFirstTs, blockFirstOffset, blockRecords := [], 0, t.nextOffset, 0;
      records, blocks, digest := t.records, t.blocks, t.digest;
    }

    /** Append one body at `ts`, giving its offset. A record older than its predecessor is refused. */
    method Append(ts: u64, body: Body.Body) returns (r: Result<nat, Error>)
      requires Wired()
      modifies this, dict
      ensures dict == old(dict) && (r, Now()) == Writer.Appended(lib, config, old(Now()), ts, body)
      ensures r.Ok? ==> Wired()
    {
      hide Body.Encode, RecordBytes, RecordFits, Writer.Flushed, Dict.Writable, Writer.Opened, Delta;
      var encoded := BodyCodec.EncodeWith(lib, config.dict, body, dict);
      if encoded.None? {
        return Err(CodeTooWide);
      }
      if lastTs.Some? && ts < lastTs.value {
        return Err(TimeBackwards(lastTs.value, ts));
      }
      var offset := nextOffset;
      var room := Buffer(ts, encoded.value);
      if !room {
        return Err(Overflow);
      }
      if |block| >= config.blockBytes {
        var flushed := FlushBlock();
        if flushed.Err? {
          return Err(flushed.error);
        }
      }
      return Ok(offset);
    }

    /** The first record of a part gives it its base time, the first of a block its time and offset. */
    method OpenAt(ts: u64)
      modifies `header, `blockFirstTs, `blockFirstOffset
      ensures Now() == Writer.Opened(old(Now()), ts)
    {
      if lastTs.None? && header.baseTs == 0 && records == 0 {
        header := header.(baseTs := ts);
      }
      if block == [] {
        blockFirstTs := ts;
        blockFirstOffset := nextOffset;
      }
    }

    /** Open the part and the block if this record is their first, and put the record in the buffer. */
    method Buffer(ts: u64, enc: bytes) returns (room: bool)
      requires !Writer.Backwards(Now(), ts)
      modifies `header, `blockFirstTs, `blockFirstOffset, `block, `nextOffset, `blockRecords, `lastTs
      ensures room == RecordFits(Delta(old(lastTs), ts), enc)
      ensures Now() == if room then Writer.Buffered(old(Now()), ts, enc) else Writer.Opened(old(Now()), ts)
    {
      hide RecordBytes, RecordFits, Writer.Opened;
      var delta := if lastTs.None? then ts else ts - lastTs.value;
      OpenAt(ts);
      var grown := PutRecord(block, delta, enc);
      if grown.None? {
        return false;
      }
      block := grown.value;
      nextOffset := nextOffset + 1;
      blockRecords := blockRecords + 1;
      lastTs := Some(ts);
      return true;
    }

    /** Put the buffered block on disk. The dictionary goes first: the block may refer to strings still in memory. */
    method FlushBlock() returns (r: Result<(), Error>)
      requires Wired()
      modifies this, dict
      ensures dict == old(dict) && (r, Now()) == Writer.Flushed(lib, config, old(Now()))
      ensures r.Ok? ==> Wired()
    {
      hide Writer.Emitted, Dict.AfterFlush;
      if blockRecords == 0 {
        return Ok(());
      }
      if dict != null {
        dict.FlushIfDirty();
      }
      r := Emit();
    }

    /** Compress the buffered block, write it and record where it went. */
    method Emit() returns (r: Result<(), Error>)
      requires Writer.Usable(Now())
      modifies `block, `file, `records, `blocks, `digest, `index, `fileOff, `blockRecords, `blockFirstOffset
      ensures (r, Now()) == Writer.Emitted(lib, config, old(Now()))
    {
      hide Packed, Writer.Written, Writer.Indexed;
      var (used, payload) := Packed(lib, config.codec, block);
      if |payload| >= U32_END || |block| >= U32_END {
        block := [];
        return Err(Overflow);
      }
      var h := BlockHeader(used, Low32(blockRecords), |payload|, |block|, blockFirstTs, Low64(blockFirstOffset));
      var row := RowOf(h, fileOff);
      WriteBlock(h, payload);
      if row.None? {
        return Err(Overflow);
      }
      RecordRow(row.value);
      return Ok(());
    }

    method WriteBlock(h: BlockHeader, payload: bytes)
      requires Writer.Usable(Now())
      modifies `block, `file, `records, `blocks, `digest
      ensures Now() == Writer.Written(old(Now()), h, payload)
    {
      hide BlockHeader.Encode, WriteAt;
      file := WriteAt(file, fileOff, h.Encode() + payload);
      records := records + blockRecords;
      blocks := blocks + 1;
      digest := digest + block;
      block := [];
    }

    method RecordRow(row: IndexRow)
      modifies `index, `fileOff, `blockRecords, `blockFirstOffset
      ensures Now() == Writer.Indexed(old(Now()), row)
    {
      hide IndexRow.Encode;
      index := index + row.Encode();
      fileOff := fileOff + BLOCK_HEADER_LEN + row.lenC;
      blockRecords := 0;
      blockFirstOffset := nextOffset;
    }

    /** Flush, let the dictionary finish, and write the footer. */
    method Seal() returns (r: Result<Footer, Error>)
      requires Wired()
      modifies this, dict
      ensures dict == old(dict) && (r, Now()) == Writer.Sealed(lib, config, old(Now()))
    {
      hide Writer.Flushed, Footer.Encode, WriteAt, Dict.AfterWrite, Dict.Writable;
      var flushed := FlushBlock();
      if flushed.Err? {
        return Err(flushed.error);
      }
      if dict != null {
        dict.Finish();
      }
      var footer := Footer(Low64(records), if lastTs.Some? then lastTs.value else 0, Low32(blocks), lib.hash(digest));
      file := WriteAt(file, fileOff, footer.Encode());
      return Ok(footer);
    }
  }

  method RebuildIndex(rows: seq<IndexRow>) returns (index: bytes)
    ensures index == INDEX_HEADER + Writer.EncodeRows(rows)
  {
    hide IndexRow.Encode;
    index := INDEX_HEADER;
    for i := 0 to |rows|
      invariant index == INDEX_HEADER + Writer.EncodeRows(rows[..i])
    {
      assert rows[..i + 1][..i] == rows[..i];
      index := AppendRow(index, rows[i], Writer.EncodeRows(rows[..i]));
    }
    assert rows[..|rows|] == rows;
  }

  method AppendRow(rows: bytes, row: IndexRow, ghost before: bytes) returns (r: bytes)
    requires rows == INDEX_HEADER + before
    ensures r == INDEX_HEADER + (before + row.Encode())
  {
    r := rows + row.Encode();
  }

  /** Take over an existing part: walk its blocks, cut whatever follows the last good one, rebuild the index. */
  method Adopt(lib: Library, config: Writer.Config, file: bytes, dictFile: Option<bytes>)
      returns (r: Result<PartWriter, Error>)
    ensures r.Err? ==> Writer.Adopted(lib, file, dictFile) == Err(r.error)
    ensures r.Ok? ==> fresh(r.value) && r.value.lib == lib && r.value.config == config && Writer.Adopted(lib, file, dictFile) == Ok(r.value.Now())
    ensures r.Ok? ==> r.value.dict == null || (r.value.dict.lib == lib && r.value.dict.config == config.dict)
  {
    hide DecodePartHeader, BlockAt, Absorb, DictFile.Adopted;
    var dict: Dictionary.Dictionary? := null;
    if dictFile.Some? {
      dict := new Dictionary.Dictionary.Adopt(lib, config.dict, dictFile.value);
    }
    var header := DecodePartHeader(file);
    if header.None? {
      return Err(BadFrame);
    }
    var t := NoBlocks(header.value);
    ghost var all := AbsorbAll(t, Scan(lib, file, PART_HEADER_LEN));
    ghost var st := BodyCodec.StateOf(dict);
    var going := true;
    while going
      invariant BodyCodec.StateOf(dict) == st
      invariant all == AbsorbAll(t, if going then Scan(lib, file, t.fileOff) else [])
      decreases going, |file| - t.fileOff
    {
      var found := ReadBlock(lib, file, t.fileOff);
      if found.None? {
        going := false;
        ScanStops(lib, file, t.fileOff);
      } else {
        ScanSteps(lib, file, t.fileOff, found.value);
        ghost var rest := Scan(lib, file, t.fileOff + BLOCK_HEADER_LEN + found.value.header.lenC);
        assert ([found.value] + rest)[1..] == rest;
        var next := AbsorbBlock(t, found.value);
        if next.Err? {
          return Err(next.error);
        }
        t := next.value;
      }
    }
    assert all == Ok(t);
    var w := new PartWriter.Resume(lib, config, header.value, file, t, dict);
    return Ok(w);
  }

  method AbsorbBlock(t: Totals, f: Found) returns (r: Result<Totals, Error>)
    ensures r == Absorb(t, f) && (r.Ok? ==> r.value.fileOff == t.fileOff + BLOCK_HEADER_LEN + f.header.lenC)
  {
    var row := RowOf(f.header, f.at);
    if row.None? {
      return Err(Overflow);
    }
    var last := LastTs(f.raw, f.header.firstTs);
    if last.Err? {
      return Err(BadFrame);
    }
    return Ok(Totals(f.header.firstOffset + f.header.records, last.value, t.records + f.header.records, t.blocks + 1,
                     t.fileOff + BLOCK_HEADER_LEN + f.header.lenC, t.digest + f.raw, t.rows + [row.value]));
  }

  /** The timestamp of a payload's last record: the deltas add up, the first one apart. */
  method LastTs(raw: bytes, firstTs: u64) returns (r: Result<Option<u64>, ()>)
    ensures var last := LastTsFrom(raw, 0, firstTs, true);
      r == if last.None? then Err(()) else Ok(if raw == [] then None else last)
  {
    hide GetRecord;
    var pos, first := 0, true;
    var ts: u64 := firstTs;
    var last: Option<u64> := None;
    while pos < |raw|
      invariant LastTsFrom(raw, 0, firstTs, true) == LastTsFrom(raw, pos, ts, first)
      invariant first || raw != []
      invariant if first then pos == 0 && last == None && ts == firstTs else last == Some(ts)
      decreases |raw| - pos
    {
      var rec := GetRecord(raw, pos);
      if rec.None? {
        return Err(());
      }
      if !first {
        if ts + rec.value.0 >= U64_END {
          return Err(());
        }
        ts := ts + rec.value.0;
      }
      last := Some(ts);
      first := false;
      pos := rec.value.2;
    }
    return Ok(last);
  }

  /** The block at `at`, when its records can all be walked out. */
  method ReadBlock(lib: Library, file: bytes, at: nat) returns (r: Option<Found>)
    ensures r == BlockAt(lib, file, at)
  {
    hide GetRecord, DecodeBlockHeader;
    if at + BLOCK_HEADER_LEN > |file| {
      return None;
    }
    var head := DecodeBlockHeader(file[at..at + BLOCK_HEADER_LEN]);
    if head.None? || head.value.records == 0 || head.value.lenC == 0 {
      return None;
    }
    var h, end := head.value, at + BLOCK_HEADER_LEN + head.value.lenC;
    if end > |file| {
      return None;
    }
    var raw := DecodePayload(lib, h.codec, file[at + BLOCK_HEADER_LEN..end], h.lenU);
    if raw.None? || |raw.value| != h.lenU {
      return None;
    }
    var pos, walked := 0, 0;
    var whole := true;
    while whole && pos < |raw.value|
      invariant Walk(raw.value, 0) == walked + if whole then Walk(raw.value, pos) else 0
      decreases whole, |raw.value| - pos
    {
      var rec := GetRecord(raw.value, pos);
      if rec.None? {
        whole := false;
      } else {
        walked := walked + 1;
        pos := rec.value.2;
      }
    }
    if whole { NoRecordAtTheEnd(raw.value, pos); }
    if walked != h.records {
      return None;
    }
    return Some(Found(h, raw.value, at));
  }
}
