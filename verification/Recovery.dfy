/** What adoption makes of a part file: the blocks that survived a cut, and the writer state they add up to. */
module Recovery {
  import opened Bytes
  import opened Foreign
  import opened Format
  import opened Part

  datatype Error = BadFrame | Overflow | TimeBackwards(last: u64, given: u64) | CodeTooWide | MissingPartition

  /** The totals `adopt` rebuilds while it walks the file. */
  datatype Totals = Totals(
    nextOffset: nat, lastTs: Option<u64>, records: nat, blocks: nat, fileOff: nat, digest: bytes, rows: seq<IndexRow>)

  /** The timestamp of a payload's last record: nothing when a record does not parse or time overflows. */
  function LastTsFrom(raw: bytes, pos: nat, ts: u64, first: bool): Option<u64>
    decreases |raw| - pos
  {
    if pos >= |raw| then Some(ts)
    else
      match GetRecord(raw, pos)
      case None => None
      case Some((delta, _, next)) =>
        var now := if first then ts else ts + delta;
        if now >= U64_END then None else LastTsFrom(raw, next, now, false)
  }

  function Absorb(t: Totals, f: Found): Result<Totals, Error> {
    var row := RowOf(f.header, f.at);
    var last := LastTsFrom(f.raw, 0, f.header.firstTs, true);
    if row.None? then Err(Overflow)
    else if last.None? then Err(BadFrame)
    else
      Ok(Totals(f.header.firstOffset + f.header.records, if f.raw == [] then None else last,
                t.records + f.header.records, t.blocks + 1,
                t.fileOff + BLOCK_HEADER_LEN + f.header.lenC, t.digest + f.raw, t.rows + [row.value]))
  }

  function AbsorbAll(t: Totals, founds: seq<Found>): Result<Totals, Error>
    decreases |founds|
  {
    if founds == [] then Ok(t)
    else
      match Absorb(t, founds[0])
      case Err(e) => Err(e)
      case Ok(t') => AbsorbAll(t', founds[1..])
  }

  function NoBlocks(header: PartHeader): Totals {
    Totals(header.firstOffset, None, 0, 0, PART_HEADER_LEN, [], [])
  }

  /** The state a writer reaches by writing `chunks` from the state `t`. */
  function After(lib: Library, t: Totals, chunks: seq<Chunk>): Totals {
    Totals(t.nextOffset + Count(chunks), EndAll(t.lastTs, chunks), t.records + Count(chunks), t.blocks + |chunks|,
           t.fileOff + |BlocksOf(lib, t.lastTs, t.nextOffset, chunks)|, t.digest + Raws(t.lastTs, chunks),
           t.rows + RowsOf(lib, t.lastTs, t.nextOffset, t.fileOff, chunks))
  }

  lemma {:induction false} LastTsOfRecs(prev: Option<u64>, recs: seq<Rec>, raw: bytes, pos: nat, ts: u64, first: bool)
    requires RecsFit(prev, recs) && Monotone(prev, recs) && pos <= |raw| && raw[pos..] == RawOf(prev, recs)
    requires if first then recs != [] && ts == recs[0].ts else prev == Some(ts)
    ensures LastTsFrom(raw, pos, ts, first) == Some(if recs == [] then ts else recs[|recs| - 1].ts)
    decreases |recs|
  {
    hide RecordBytes, RecordFits, GetRecord;
    if recs == [] {
      assert |raw[pos..]| == 0;
    } else {
      NextRecord(raw, pos, Delta(prev, recs[0].ts), recs[0].enc, RawOf(Some(recs[0].ts), recs[1..]));
      LastTsOfRecs(Some(recs[0].ts), recs[1..], raw,
                   pos + |RecordBytes(Delta(prev, recs[0].ts), recs[0].enc)|, recs[0].ts, false);
    }
  }

  /** One block written by the writer is absorbed into exactly the totals the writer had after it. */
  lemma {:induction false} AbsorbChunk(lib: Library, t: Totals, c: Chunk)
    requires Lawful(lib) && ChunkFits(t.lastTs, t.nextOffset, c) && t.fileOff < U32_END
    ensures Absorb(t, Found(HeaderFor(lib, t.lastTs, t.nextOffset, c), RawOf(t.lastTs, c.recs), t.fileOff))
         == Ok(Totals(t.nextOffset + |c.recs|, EndTs(t.lastTs, c.recs), t.records + |c.recs|, t.blocks + 1,
                      t.fileOff + |ChunkBytes(lib, t.lastTs, t.nextOffset, c)|, t.digest + RawOf(t.lastTs, c.recs),
                      t.rows + [RowFor(lib, t.lastTs, t.nextOffset, t.fileOff, c)]))
  {
    hide RawOf, HeaderFor, ChunkBytes, ChunkFits, LastTsFrom, Lawful, DecodePayload, Packed;
    LastTsOfChunk(t.lastTs, t.nextOffset, c);
    HeaderIsExact(lib, t.lastTs, t.nextOffset, c);
  }

  lemma {:induction false} LastTsOfChunk(prev: Option<u64>, off: nat, c: Chunk)
    requires ChunkFits(prev, off, c)
    ensures c.recs != []
    ensures LastTsFrom(RawOf(prev, c.recs), 0, c.recs[0].ts, true) == Some(c.recs[|c.recs| - 1].ts)
    ensures RawOf(prev, c.recs) != []
  {
    RawBounds(prev, c.recs);
    hide RawOf, LastTsFrom;
    var raw := RawOf(prev, c.recs);
    assert raw[0..] == raw;
    LastTsOfRecs(prev, c.recs, raw, 0, c.recs[0].ts, true);
  }

  lemma {:induction false} AbsorbChunks(lib: Library, t: Totals, chunks: seq<Chunk>)
    requires Lawful(lib) && AllFit(lib, t.lastTs, t.nextOffset, t.fileOff, chunks)
    ensures AbsorbAll(t, FoundFor(lib, t.lastTs, t.nextOffset, t.fileOff, chunks)) == Ok(After(lib, t, chunks))
    decreases |chunks|
  {
    hide RawOf, HeaderFor, ChunkBytes, ChunkFits, Absorb, Lawful, RowFor;
    if chunks != [] {
      AbsorbChunk(lib, t, chunks[0]);
      var f := Found(HeaderFor(lib, t.lastTs, t.nextOffset, chunks[0]), RawOf(t.lastTs, chunks[0].recs), t.fileOff);
      var t' := Absorb(t, f).value;
      AbsorbChunks(lib, t', chunks[1..]);
      var rest := FoundFor(lib, t'.lastTs, t'.nextOffset, t'.fileOff, chunks[1..]);
      assert ([f] + rest)[1..] == rest;
      AfterUnfolds(lib, t, chunks, t');
    } else {
      assert t.digest + [] == t.digest && t.rows + [] == t.rows;
    }
  }

  lemma {:induction false} AfterUnfolds(lib: Library, t: Totals, chunks: seq<Chunk>, t': Totals)
    requires chunks != []
    requires t' == Totals(
      t.nextOffset + |chunks[0].recs|, EndTs(t.lastTs, chunks[0].recs), t.records + |chunks[0].recs|, t.blocks + 1,
      t.fileOff + |ChunkBytes(lib, t.lastTs, t.nextOffset, chunks[0])|, t.digest + RawOf(t.lastTs, chunks[0].recs),
      t.rows + [RowFor(lib, t.lastTs, t.nextOffset, t.fileOff, chunks[0])])
    ensures After(lib, t, chunks) == After(lib, t', chunks[1..])
  {
    hide RawOf, ChunkBytes, RowFor;
    var (a, b) := (RawOf(t.lastTs, chunks[0].recs), Raws(t'.lastTs, chunks[1..]));
    assert t.digest + (a + b) == t.digest + a + b;
    var (r, rest) := (RowFor(lib, t.lastTs, t.nextOffset, t.fileOff, chunks[0]),
                      RowsOf(lib, t'.lastTs, t'.nextOffset, t'.fileOff, chunks[1..]));
    assert t.rows + ([r] + rest) == t.rows + [r] + rest;
  }

  // --- Cuts ---

  /** The chunks that lie wholly inside the first `room` bytes of their image. */
  function Surviving(lib: Library, prev: Option<u64>, off: nat, chunks: seq<Chunk>, room: nat): (kept: seq<Chunk>)
    ensures kept <= chunks
    decreases |chunks|
  {
    if chunks == [] || |ChunkBytes(lib, prev, off, chunks[0])| > room then []
    else
      [chunks[0]] + Surviving(lib, EndTs(prev, chunks[0].recs), off + |chunks[0].recs|, chunks[1..],
                              room - |ChunkBytes(lib, prev, off, chunks[0])|)
  }

  /** What survives is the longest run of whole blocks: it fits, and one block more would not. */
  lemma {:induction false} SurvivingIsLongest(lib: Library, prev: Option<u64>, off: nat, chunks: seq<Chunk>, room: nat)
    ensures var kept := Surviving(lib, prev, off, chunks, room);
      && |BlocksOf(lib, prev, off, kept)| <= room
      && (|kept| < |chunks| ==> room < |BlocksOf(lib, prev, off, chunks[..|kept| + 1])|)
    decreases |chunks|
  {
    hide ChunkBytes;
    var kept := Surviving(lib, prev, off, chunks, room);
    if chunks != [] && |ChunkBytes(lib, prev, off, chunks[0])| <= room {
      var (prev', off', room') := (EndTs(prev, chunks[0].recs), off + |chunks[0].recs|,
                                   room - |ChunkBytes(lib, prev, off, chunks[0])|);
      SurvivingIsLongest(lib, prev', off', chunks[1..], room');
      var tail := Surviving(lib, prev', off', chunks[1..], room');
      assert kept == [chunks[0]] + tail;
      hide BlocksOf, Surviving;
      FirstBlock(lib, prev, off, chunks[0], tail);
      if |kept| < |chunks| {
        assert chunks[..|kept| + 1] == [chunks[0]] + chunks[1..][..|tail| + 1];
        FirstBlock(lib, prev, off, chunks[0], chunks[1..][..|tail| + 1]);
      }
    } else if chunks != [] {
      assert chunks[..1] == [chunks[0]] + [];
      FirstBlock(lib, prev, off, chunks[0], []);
    }
  }

  lemma FirstBlock(lib: Library, prev: Option<u64>, off: nat, c: Chunk, rest: seq<Chunk>)
    ensures BlocksOf(lib, prev, off, [c] + rest)
         == ChunkBytes(lib, prev, off, c) + BlocksOf(lib, EndTs(prev, c.recs), off + |c.recs|, rest)
  {
    hide ChunkBytes;
    assert ([c] + rest)[1..] == rest;
  }

  lemma {:induction false} ScanStops(lib: Library, file: bytes, at: nat)
    requires BlockAt(lib, file, at).None?
    ensures Scan(lib, file, at) == []
  {
    hide BlockAt;
  }

  lemma {:induction false} ScanSteps(lib: Library, file: bytes, at: nat, found: Found)
    requires BlockAt(lib, file, at) == Some(found)
    ensures Scan(lib, file, at) == [found] + Scan(lib, file, at + BLOCK_HEADER_LEN + found.header.lenC)
  {
    hide BlockAt;
  }

  lemma {:induction false} CutFront(file: bytes, at: nat, a: bytes, b: bytes)
    requires at <= |file| && file[at..] <= a + b
    ensures |file| - at < |a| ==> file[at..] <= a
    ensures |a| <= |file| - at ==> a <= file[at..] && file[at + |a|..] <= b
  {
    var rest := file[at..];
    if |a| <= |rest| {
      assert rest[..|a|] == (a + b)[..|a|] == a;
      assert file[at + |a|..] == rest[|a|..] == (a + b)[..|rest|][|a|..] == b[..|rest| - |a|];
    } else {
      assert rest == (a + b)[..|rest|] == a[..|rest|];
    }
  }

  /** Scanning a part cut anywhere, inside a block, inside a footer or after one, finds exactly the blocks that
      lie wholly before the cut. */
  lemma {:induction false} ScanOfCut(
    lib: Library, prev: Option<u64>, off: nat, at: nat, chunks: seq<Chunk>, footer: Footer, file: bytes)
    requires Lawful(lib) && AllFit(lib, prev, off, at, chunks)
    requires at <= |file| && file[at..] <= BlocksOf(lib, prev, off, chunks) + footer.Encode()
    ensures Scan(lib, file, at)
         == FoundFor(lib, prev, off, at, Surviving(lib, prev, off, chunks, |file| - at))
    decreases |chunks|
  {
    hide ChunkBytes, ChunkFits, BlockAt, Footer.Encode, HeaderFor, RawOf, Lawful, Scan;
    if chunks == [] {
      assert [] + footer.Encode() == footer.Encode();
      FooterIsNotFound(lib, file, at, footer);
      ScanStops(lib, file, at);
    } else {
      var c := chunks[0];
      var image := ChunkBytes(lib, prev, off, c);
      var (prev', off', at') := (EndTs(prev, c.recs), off + |c.recs|, at + |image|);
      var rest := BlocksOf(lib, prev', off', chunks[1..]);
      assert image + rest + footer.Encode() == image + (rest + footer.Encode());
      CutFront(file, at, image, rest + footer.Encode());
      if |file| - at < |image| {
        CutBlockIsNotFound(lib, file, prev, off, at, c);
        ScanStops(lib, file, at);
      } else {
        WholeBlockIsFound(lib, file, prev, off, at, c);
        HeaderIsExact(lib, prev, off, c);
        ScanSteps(lib, file, at, Found(HeaderFor(lib, prev, off, c), RawOf(prev, c.recs), at));
        ScanOfCut(lib, prev', off', at', chunks[1..], footer, file);
        SurvivingUnfolds(lib, prev, off, at, chunks, |file| - at);
      }
    }
  }

  lemma {:induction false} SurvivingUnfolds(lib: Library, prev: Option<u64>, off: nat, at: nat, chunks: seq<Chunk>,
      room: nat)
    requires chunks != [] && |ChunkBytes(lib, prev, off, chunks[0])| <= room
    ensures var c := chunks[0];
      var (prev', off', size) := (EndTs(prev, c.recs), off + |c.recs|, |ChunkBytes(lib, prev, off, c)|);
      FoundFor(lib, prev, off, at, Surviving(lib, prev, off, chunks, room))
      == [Found(HeaderFor(lib, prev, off, c), RawOf(prev, c.recs), at)]
         + FoundFor(lib, prev', off', at + size, Surviving(lib, prev', off', chunks[1..], room - size))
  {
    hide ChunkBytes, HeaderFor, RawOf;
    var kept := Surviving(lib, prev, off, chunks, room);
    assert kept[0] == chunks[0];
    assert kept[1..] == Surviving(lib, EndTs(prev, chunks[0].recs), off + |chunks[0].recs|, chunks[1..],
                                  room - |ChunkBytes(lib, prev, off, chunks[0])|);
  }

  lemma {:induction false} SurvivingFit(lib: Library, prev: Option<u64>, off: nat, at: nat, chunks: seq<Chunk>,
      room: nat)
    requires AllFit(lib, prev, off, at, chunks)
    ensures AllFit(lib, prev, off, at, Surviving(lib, prev, off, chunks, room))
    decreases |chunks|
  {
    hide ChunkBytes, ChunkFits;
    if chunks != [] && |ChunkBytes(lib, prev, off, chunks[0])| <= room {
      var size := |ChunkBytes(lib, prev, off, chunks[0])|;
      var kept := Surviving(lib, prev, off, chunks, room);
      var tail := Surviving(lib, EndTs(prev, chunks[0].recs), off + |chunks[0].recs|, chunks[1..], room - size);
      assert kept[0] == chunks[0] && kept[1..] == tail;
      SurvivingFit(lib, EndTs(prev, chunks[0].recs), off + |chunks[0].recs|, at + size, chunks[1..], room - size);
    }
  }

  /** The bytes before the end of the last surviving block are the image of what survived. */
  lemma {:induction false} SurvivingImage(lib: Library, prev: Option<u64>, off: nat, chunks: seq<Chunk>, room: nat)
    ensures var kept := BlocksOf(lib, prev, off, Surviving(lib, prev, off, chunks, room));
      kept <= BlocksOf(lib, prev, off, chunks) && |kept| <= room
    decreases |chunks|
  {
    hide ChunkBytes;
    if chunks != [] && |ChunkBytes(lib, prev, off, chunks[0])| <= room {
      var image := ChunkBytes(lib, prev, off, chunks[0]);
      var (prev', off') := (EndTs(prev, chunks[0].recs), off + |chunks[0].recs|);
      SurvivingImage(lib, prev', off', chunks[1..], room - |image|);
      var tail := Surviving(lib, prev', off', chunks[1..], room - |image|);
      assert Surviving(lib, prev, off, chunks, room) == [chunks[0]] + tail && chunks == [chunks[0]] + chunks[1..];
      hide BlocksOf, Surviving;
      FirstBlock(lib, prev, off, chunks[0], tail);
      FirstBlock(lib, prev, off, chunks[0], chunks[1..]);
      var (x, y) := (BlocksOf(lib, prev', off', tail), BlocksOf(lib, prev', off', chunks[1..]));
      assert (image + y)[..|image + x|] == image + y[..|x|] == image + x;
    }
  }

  /** The whole file of a part that was created with `header`. */
  function FileOf(lib: Library, header: PartHeader, chunks: seq<Chunk>): bytes {
    header.Encode() + BlocksOf(lib, None, header.firstOffset, chunks)
  }

  predicate WellFormed(lib: Library, header: PartHeader, chunks: seq<Chunk>) {
    AllFit(lib, None, header.firstOffset, PART_HEADER_LEN, chunks)
  }

  /** Crash recovery: cut a part anywhere at or after its header, before, inside or after a footer, and adoption
      rebuilds exactly the totals the writer had when the last block wholly inside the cut had been written. */
  lemma {:induction false} CrashRecovery(lib: Library, header: PartHeader, chunks: seq<Chunk>, footer: Footer, cut: nat)
    requires Lawful(lib) && WellFormed(lib, header, chunks)
    requires PART_HEADER_LEN <= cut <= |FileOf(lib, header, chunks) + footer.Encode()|
    ensures var file := (FileOf(lib, header, chunks) + footer.Encode())[..cut];
      var kept := Surviving(lib, None, header.firstOffset, chunks, cut - PART_HEADER_LEN);
      && DecodePartHeader(file) == Some(header)
      && AbsorbAll(NoBlocks(header), Scan(lib, file, PART_HEADER_LEN)) == Ok(After(lib, NoBlocks(header), kept))
      && FileOf(lib, header, kept) <= file && |FileOf(lib, header, kept)| == After(lib, NoBlocks(header), kept).fileOff
      && WellFormed(lib, header, kept)
  {
    hide PartHeader.Encode, Footer.Encode, BlocksOf, DecodePartHeader, Scan, FoundFor, AbsorbAll, Lawful, AllFit,
      Surviving;
    var (head, blocks, foot) := (header.Encode(), BlocksOf(lib, None, header.firstOffset, chunks), footer.Encode());
    var kept := Surviving(lib, None, header.firstOffset, chunks, cut - PART_HEADER_LEN);
    SurvivingImage(lib, None, header.firstOffset, chunks, cut - PART_HEADER_LEN);
    CutPieces(head, blocks, foot, cut, BlocksOf(lib, None, header.firstOffset, kept));
    HeaderSurvives(header, blocks + foot, cut);
    ScanOfCut(lib, None, header.firstOffset, PART_HEADER_LEN, chunks, footer, (head + blocks + foot)[..cut]);
    SurvivingFit(lib, None, header.firstOffset, PART_HEADER_LEN, chunks, cut - PART_HEADER_LEN);
    AbsorbChunks(lib, NoBlocks(header), kept);
  }

  lemma {:induction false} CutPieces(head: bytes, blocks: bytes, foot: bytes, cut: nat, kept: bytes)
    requires |head| <= cut <= |head + blocks + foot| && kept <= blocks && |kept| <= cut - |head|
    ensures var file := (head + blocks + foot)[..cut];
      && file == (head + (blocks + foot))[..cut]
      && file[|head|..] <= blocks + foot
      && head + kept <= file
  {
    var rest := blocks + foot;
    assert head + blocks + foot == head + rest;
    var file := (head + rest)[..cut];
    assert file[|head|..] == rest[..cut - |head|];
    assert file[..|head| + |kept|] == head + rest[..|kept|];
    assert rest[..|kept|] == blocks[..|kept|] == kept;
  }

  lemma {:induction false} HeaderSurvives(header: PartHeader, rest: bytes, cut: nat)
    requires PART_HEADER_LEN <= cut <= PART_HEADER_LEN + |rest|
    ensures DecodePartHeader((header.Encode() + rest)[..cut]) == Some(header)
  {
    var file := (header.Encode() + rest)[..cut];
    var head := header.Encode();
    PartHeaderRoundTrip(header);
    hide PartHeader.Encode, FromBE;
    assert file[..PART_HEADER_LEN] == head;
    assert file[4] == head[4] && file[5] == head[5] && file[..4] == head[..4];
    assert file[8..16] == head[8..16] && file[16..24] == head[16..24];
    assert file[24..32] == head[24..32] && file[32..40] == head[32..40];
  }
}
