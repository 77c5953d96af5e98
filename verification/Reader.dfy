/** Reading a part: spans, binary search by offset or time, and the scan of a block. */
module Reader {
  import opened Bytes
  import opened Foreign
  import opened Format
  import opened Part
  import opened Recovery
  import Body
  import Dict

  /** A record as a read returns it: timestamp, offset, body. */
  type Hit = (u64, nat, Body.Body)

  datatype Select = ByOffset(from: nat) | ByTime(from: nat, to: nat) {
    predicate Wants(ts: u64, offset: nat) {
      match this case ByOffset(a) => offset >= a case ByTime(a, b) => a <= ts <= b
    }

    /** A time scan is over once it passes its upper bound. */
    predicate IsPast(ts: u64) { ByTime? && ts > to }

    /** The predicate of the search: rows for which it holds come first. */
    predicate StartsBefore(row: IndexRow) { if ByOffset? then row.firstOffset <= from else row.firstTs < from }
  }

  /** What a reader holds after opening a part. `file` is what it reads blocks from. */
  datatype Reader = Reader(
    header: PartHeader, footer: Option<Footer>, rows: seq<IndexRow>, dict: Option<seq<Dict.Block>>,
    span: Option<(u64, u64)>, file: bytes)

  function SatAdd(a: u64, b: u64): u64 { if a + b < U64_END then a + b else U64_END - 1 }

  /** Walk one payload, adding to `out` what the selection wants; also the timestamp of the last record walked. */
  function ScanFrom(
    raw: bytes, pos: nat, offset: nat, ts: u64, first: bool, sel: Select, max: nat, dict: Option<seq<Dict.Block>>,
    out: seq<Hit>): Result<(seq<Hit>, u64), Error>
    decreases |raw| - pos
  {
    match GetRecord(raw, pos)
    case None => Ok((out, ts))
    case Some((delta, enc, next)) =>
      var now := if first then ts else SatAdd(ts, delta);
      if sel.Wants(now, offset) && |out| < max then
        match Body.Decode(enc, dict)
        case None => Err(BadFrame)
        case Some(body) => ScanFrom(raw, next, offset + 1, now, false, sel, max, dict, out + [(now, offset, body)])
      else ScanFrom(raw, next, offset + 1, now, false, sel, max, dict, out)
  }

  function ReadAt(lib: Library, file: bytes, at: nat): Option<(BlockHeader, bytes)> {
    if at + BLOCK_HEADER_LEN > |file| then None
    else
      match DecodeBlockHeader(file[at..at + BLOCK_HEADER_LEN])
      case None => None
      case Some(h) =>
        var end := at + BLOCK_HEADER_LEN + h.lenC;
        if end > |file| then None
        else
          match DecodePayload(lib, h.codec, file[at + BLOCK_HEADER_LEN..end], h.lenU)
          case None => None
          case Some(raw) => Some((h, raw))
  }

  function ReadRows(
    lib: Library, file: bytes, rows: seq<IndexRow>, sel: Select, max: nat, dict: Option<seq<Dict.Block>>,
    out: seq<Hit>): Result<seq<Hit>, Error>
    decreases |rows|
  {
    if rows == [] || |out| >= max || sel.IsPast(rows[0].firstTs) then Ok(out)
    else
      match ReadAt(lib, file, rows[0].fileOffset)
      case None => Err(BadFrame)
      case Some((h, raw)) =>
        match ScanFrom(raw, 0, h.firstOffset, h.firstTs, true, sel, max, dict, out)
        case Err(e) => Err(e)
        case Ok((out', last)) =>
          if sel.IsPast(last) then Ok(out') else ReadRows(lib, file, rows[1..], sel, max, dict, out')
  }

  /** How many leading rows start before the selection. */
  function PartitionPoint(rows: seq<IndexRow>, sel: Select): (n: nat)
    ensures n <= |rows|
  {
    if rows == [] || !sel.StartsBefore(rows[0]) then 0 else 1 + PartitionPoint(rows[1..], sel)
  }

  function FirstRow(rows: seq<IndexRow>, sel: Select): (i: nat)
    ensures i <= |rows|
  {
    var n := PartitionPoint(rows, sel);
    if n == 0 then 0 else n - 1
  }

  function Read(lib: Library, r: Reader, sel: Select, max: nat, out: seq<Hit>): Result<seq<Hit>, Error> {
    ReadRows(lib, r.file, r.rows[FirstRow(r.rows, sel)..], sel, max, r.dict, out)
  }

  // --- The list a read is measured against ---

  function Hits(off: nat, recs: seq<Rec>): seq<Hit>
    decreases |recs|
  {
    if recs == [] then [] else [(recs[0].ts, off, recs[0].body)] + Hits(off + 1, recs[1..])
  }

  function Pick(sel: Select, hits: seq<Hit>): seq<Hit> {
    if hits == [] then []
    else (if sel.Wants(hits[0].0, hits[0].1) then [hits[0]] else []) + Pick(sel, hits[1..])
  }

  /** `out` topped up from `more` to at most `max` elements. */
  function Fill(out: seq<Hit>, more: seq<Hit>, max: nat): seq<Hit> {
    if |out| >= max then out else if |out| + |more| <= max then out + more else out + more[..max - |out|]
  }

  predicate AllDecode(recs: seq<Rec>, dict: Option<seq<Dict.Block>>) {
    forall i :: 0 <= i < |recs| ==> Body.Decode(recs[i].enc, dict) == Some(recs[i].body)
  }

  lemma {:induction false} FillOne(out: seq<Hit>, x: Hit, more: seq<Hit>, max: nat)
    requires |out| < max
    ensures Fill(out, [x] + more, max) == Fill(out + [x], more, max)
  {
    if |out| + 1 + |more| <= max {
      assert out + ([x] + more) == out + [x] + more;
    } else if |out| + 1 < max {
      assert ([x] + more)[..max - |out|] == [x] + more[..max - |out| - 1];
      assert out + ([x] + more)[..max - |out|] == out + [x] + more[..max - |out| - 1];
    } else {
      assert ([x] + more)[..1] == [x];
    }
  }

  lemma {:induction false} FillTwice(out: seq<Hit>, xs: seq<Hit>, ys: seq<Hit>, max: nat)
    ensures Fill(Fill(out, xs, max), ys, max) == Fill(out, xs + ys, max)
  {
    if |out| < max {
      if |out| + |xs| <= max {
        FillFirst(out, xs, ys, max);
      } else {
        assert (xs + ys)[..max - |out|] == xs[..max - |out|];
      }
    }
  }

  lemma FillFirst(out: seq<Hit>, xs: seq<Hit>, ys: seq<Hit>, max: nat)
    requires |out| + |xs| <= max
    ensures Fill(out + xs, ys, max) == Fill(out, xs + ys, max)
  {
    assert out + (xs + ys) == out + xs + ys;
    if |out| + |xs| + |ys| > max {
      var (n, k) := (max - |out|, max - |out| - |xs|);
      assert (xs + ys)[..n] == xs + ys[..k];
      assert out + (xs + ys[..k]) == out + xs + ys[..k];
    }
    if |out| == max { assert xs == [] && out + xs == out; }
  }

  lemma {:induction false} PickJoins(sel: Select, xs: seq<Hit>, ys: seq<Hit>)
    ensures Pick(sel, xs + ys) == Pick(sel, xs) + Pick(sel, ys)
    decreases |xs|
  {
    if xs == [] {
      assert [] + ys == ys;
    } else {
      PickJoins(sel, xs[1..], ys);
      assert (xs + ys)[0] == xs[0] && (xs + ys)[1..] == xs[1..] + ys;
      var one := if sel.Wants(xs[0].0, xs[0].1) then [xs[0]] else [];
      assert one + (Pick(sel, xs[1..]) + Pick(sel, ys)) == one + Pick(sel, xs[1..]) + Pick(sel, ys);
    }
  }

  lemma {:induction false} HitsJoin(off: nat, xs: seq<Rec>, ys: seq<Rec>)
    ensures Hits(off, xs + ys) == Hits(off, xs) + Hits(off + |xs|, ys)
    decreases |xs|
  {
    if xs == [] {
      assert [] + ys == ys;
    } else {
      HitsJoin(off + 1, xs[1..], ys);
      assert (xs + ys)[0] == xs[0] && (xs + ys)[1..] == xs[1..] + ys;
    }
  }

  /** Nothing is wanted of records that start past the upper bound. */
  lemma {:induction false} NoneIsWantedLate(prev: Option<u64>, recs: seq<Rec>, off: nat, sel: Select)
    requires Monotone(prev, recs) && recs != [] && sel.IsPast(recs[0].ts)
    ensures Pick(sel, Hits(off, recs)) == []
    decreases |recs|
  {
    var rest := Hits(off + 1, recs[1..]);
    assert Hits(off, recs)[1..] == rest;
    if |recs| > 1 {
      assert recs[1..][0] == recs[1];
      NoneIsWantedLate(Some(recs[0].ts), recs[1..], off + 1, sel);
    }
  }

  /** Nothing is wanted of records that end before the lower bound. */
  lemma {:induction false} NoneIsWantedEarly(prev: Option<u64>, recs: seq<Rec>, off: nat, sel: Select)
    requires Monotone(prev, recs)
    requires recs != [] ==> if sel.ByOffset? then off + |recs| <= sel.from else recs[|recs| - 1].ts < sel.from
    ensures Pick(sel, Hits(off, recs)) == []
    decreases |recs|
  {
    if recs != [] {
      assert Hits(off, recs)[1..] == Hits(off + 1, recs[1..]);
      LastIsLatest(prev, recs);
      if |recs| > 1 { assert recs[1..][|recs| - 2] == recs[|recs| - 1]; }
      NoneIsWantedEarly(Some(recs[0].ts), recs[1..], off + 1, sel);
    }
  }

  lemma {:induction false} LastIsLatest(prev: Option<u64>, recs: seq<Rec>)
    requires Monotone(prev, recs) && recs != []
    ensures recs[0].ts <= recs[|recs| - 1].ts && (prev.Some? ==> prev.value <= recs[0].ts)
    decreases |recs|
  {
    if |recs| > 1 {
      assert recs[1..][0] == recs[1] && recs[1..][|recs| - 2] == recs[|recs| - 1];
      LastIsLatest(Some(recs[0].ts), recs[1..]);
    }
  }

  lemma {:induction false} MonotoneJoins(prev: Option<u64>, xs: seq<Rec>, ys: seq<Rec>)
    requires Monotone(prev, xs) && Monotone(EndTs(prev, xs), ys)
    ensures Monotone(prev, xs + ys)
    decreases |xs|
  {
    if xs == [] {
      assert xs + ys == ys;
    } else {
      assert (xs + ys)[0] == xs[0] && (xs + ys)[1..] == xs[1..] + ys;
      MonotoneJoins(Some(xs[0].ts), xs[1..], ys);
    }
  }

  lemma {:induction false} AllMonotone(lib: Library, prev: Option<u64>, off: nat, at: nat, chunks: seq<Chunk>)
    requires AllFit(lib, prev, off, at, chunks)
    ensures Monotone(prev, RecsOf(chunks))
    decreases |chunks|
  {
    hide ChunkBytes, RecsFit, RawOf, Monotone;
    if chunks == [] {
      NothingIsMonotone(prev);
    } else {
      AllMonotone(lib, EndTs(prev, chunks[0].recs), off + |chunks[0].recs|, at + |ChunkBytes(lib, prev, off, chunks[0])|, chunks[1..]);
      MonotoneJoins(prev, chunks[0].recs, RecsOf(chunks[1..]));
    }
  }

  lemma NothingIsMonotone(prev: Option<u64>)
    ensures Monotone(prev, [])
  {}

  // --- One block ---

  lemma {:induction false} ScanEnds(
    raw: bytes, pos: nat, offset: nat, ts: u64, first: bool, sel: Select, max: nat, dict: Option<seq<Dict.Block>>, out: seq<Hit>)
    requires pos >= |raw|
    ensures ScanFrom(raw, pos, offset, ts, first, sel, max, dict, out) == Ok((out, ts))
  {}

  lemma ScanSteps(
    raw: bytes, pos: nat, off: nat, ts: u64, first: bool, sel: Select, max: nat, dict: Option<seq<Dict.Block>>, out: seq<Hit>,
    d: u64, r: Rec, next: nat)
    requires GetRecord(raw, pos) == Some((d, r.enc, next)) && Body.Decode(r.enc, dict) == Some(r.body)
    requires r.ts == if first then ts else SatAdd(ts, d)
    ensures ScanFrom(raw, pos, off, ts, first, sel, max, dict, out)
         == ScanFrom(raw, next, off + 1, r.ts, false, sel, max, dict,
                     if sel.Wants(r.ts, off) && |out| < max then out + [(r.ts, off, r.body)] else out)
  {
    hide GetRecord, Body.Decode;
  }

  /** The scan of a block finds its records: timestamps rebuilt from the deltas, the first delta apart. */
  lemma {:induction false} ScanFinds(
    prev: Option<u64>, recs: seq<Rec>, raw: bytes, pos: nat, off: nat, ts: u64, first: bool, sel: Select, max: nat,
    dict: Option<seq<Dict.Block>>, out: seq<Hit>)
    requires RecsFit(prev, recs) && Monotone(prev, recs) && pos <= |raw| && raw[pos..] == RawOf(prev, recs)
    requires AllDecode(recs, dict)
    requires if first then recs != [] && ts == recs[0].ts else prev == Some(ts)
    ensures ScanFrom(raw, pos, off, ts, first, sel, max, dict, out)
         == Ok((Fill(out, Pick(sel, Hits(off, recs)), max), if recs == [] then ts else recs[|recs| - 1].ts))
    decreases |recs|
  {
    hide RecordBytes, RecordFits, GetRecord, Body.Decode, ScanFrom;
    if recs == [] {
      assert |raw[pos..]| == 0;
      ScanEnds(raw, pos, off, ts, first, sel, max, dict, out);
      assert out + [] == out;
    } else {
      var (r, rest) := (recs[0], recs[1..]);
      var d := Delta(prev, r.ts);
      NextRecord(raw, pos, d, r.enc, RawOf(Some(r.ts), rest));
      var next := pos + |RecordBytes(d, r.enc)|;
      assert Body.Decode(r.enc, dict) == Some(r.body);
      var hit := (r.ts, off, r.body);
      assert Hits(off, recs)[1..] == Hits(off + 1, rest);
      var later := Pick(sel, Hits(off + 1, rest));
      assert Pick(sel, Hits(off, recs)) == if sel.Wants(r.ts, off) then [hit] + later else [] + later;
      assert [] + later == later;
      assert rest != [] ==> rest[|rest| - 1] == recs[|recs| - 1];
      var out' := if sel.Wants(r.ts, off) && |out| < max then out + [hit] else out;
      hide Pick, Hits;
      ScanSteps(raw, pos, off, ts, first, sel, max, dict, out, d, r, next);
      ScanFinds(Some(r.ts), rest, raw, next, off + 1, r.ts, false, sel, max, dict, out');
      if sel.Wants(r.ts, off) && |out| < max { FillOne(out, hit, later, max); }
    }
  }

  lemma {:induction false} BlockScanFinds(
    prev: Option<u64>, off: nat, c: Chunk, sel: Select, max: nat, dict: Option<seq<Dict.Block>>, out: seq<Hit>)
    requires ChunkFits(prev, off, c) && AllDecode(c.recs, dict)
    ensures ScanFrom(RawOf(prev, c.recs), 0, off, c.recs[0].ts, true, sel, max, dict, out)
         == Ok((Fill(out, Pick(sel, Hits(off, c.recs)), max), c.recs[|c.recs| - 1].ts))
  {
    hide RawOf, ScanFrom;
    var raw := RawOf(prev, c.recs);
    assert raw[0..] == raw;
    ScanFinds(prev, c.recs, raw, 0, off, c.recs[0].ts, true, sel, max, dict, out);
  }

  lemma FoundIsRead(lib: Library, file: bytes, at: nat)
    requires BlockAt(lib, file, at).Some?
    ensures ReadAt(lib, file, at) == Some((BlockAt(lib, file, at).value.header, BlockAt(lib, file, at).value.raw))
  {
    hide DecodeBlockHeader, DecodePayload, Walk;
  }

  // --- All blocks ---

  lemma {:induction false} RowIs(lib: Library, prev: Option<u64>, off: nat, at: nat, c: Chunk)
    requires Lawful(lib) && ChunkFits(prev, off, c) && at < U32_END
    ensures var row := RowFor(lib, prev, off, at, c);
      row.firstTs == c.recs[0].ts && row.firstOffset == off && row.fileOffset == at
  {
    hide RawOf, RecsFit, Monotone, Lawful;
    HeaderIsExact(lib, prev, off, c);
  }

  lemma {:induction false} FrontOf(file: bytes, at: nat, a: bytes, b: bytes)
    requires at <= |file| && a + b <= file[at..]
    ensures a <= file[at..] && at + |a| <= |file| && b <= file[at + |a|..]
  {
    SplitFront(file, at, a, b);
    assert file[at..][..|a|] == file[at..at + |a|];
    assert file[at + |a|..][..|b|] == file[at + |a|..at + |a| + |b|];
  }

  lemma {:induction false} DecodeSplits(xs: seq<Rec>, ys: seq<Rec>, dict: Option<seq<Dict.Block>>)
    requires AllDecode(xs + ys, dict)
    ensures AllDecode(xs, dict) && AllDecode(ys, dict)
  {
    forall i | 0 <= i < |xs| ensures Body.Decode(xs[i].enc, dict) == Some(xs[i].body) { assert (xs + ys)[i] == xs[i]; }
    forall i | 0 <= i < |ys| ensures Body.Decode(ys[i].enc, dict) == Some(ys[i].body) { assert (xs + ys)[|xs| + i] == ys[i]; }
  }

  /** Reading row after row from the first finds what a filter of the records finds, early exits and all. */
  lemma {:induction false} RowsFind(
    lib: Library, file: bytes, prev: Option<u64>, off: nat, at: nat, chunks: seq<Chunk>, sel: Select, max: nat,
    dict: Option<seq<Dict.Block>>, out: seq<Hit>)
    requires Lawful(lib) && AllFit(lib, prev, off, at, chunks) && AllDecode(RecsOf(chunks), dict)
    requires at <= |file| && BlocksOf(lib, prev, off, chunks) <= file[at..]
    ensures ReadRows(lib, file, RowsOf(lib, prev, off, at, chunks), sel, max, dict, out)
         == Ok(Fill(out, Pick(sel, Hits(off, RecsOf(chunks))), max))
    decreases |chunks|
  {
    hide ChunkBytes, ChunkFits, RowFor, ReadAt, ScanFrom, AllDecode, Lawful, Hits, Pick, Fill, RawOf, HeaderFor,
      BlockAt, ReadRows, RecsOf;
    if chunks == [] {
      NothingFound(off, sel, max, out);
      NoRowsLeft(lib, file, sel, max, dict, out);
    } else {
      var c := chunks[0];
      var image := ChunkBytes(lib, prev, off, c);
      var (prev', off', at') := (EndTs(prev, c.recs), off + |c.recs|, at + |image|);
      var rest := RecsOf(chunks[1..]);
      RecsSplit(chunks);
      DecodeSplits(c.recs, rest, dict);
      FrontOf(file, at, image, BlocksOf(lib, prev', off', chunks[1..]));
      WholeBlockIsFound(lib, file, prev, off, at, c);
      FoundIsRead(lib, file, at);
      var row := RowFor(lib, prev, off, at, c);
      RowIs(lib, prev, off, at, c);
      HeaderStarts(lib, prev, off, c);
      BlockScanFinds(prev, off, c, sel, max, dict, out);
      var out' := Fill(out, Pick(sel, Hits(off, c.recs)), max);
      RowsFind(lib, file, prev', off', at', chunks[1..], sel, max, dict, out');
      var later := RowsOf(lib, prev', off', at', chunks[1..]);
      OneRowRead(lib, file, row, later, sel, max, dict, out);
      HitsJoin(off, c.recs, rest);
      PickJoins(sel, Hits(off, c.recs), Hits(off', rest));
      FillTwice(out, Pick(sel, Hits(off, c.recs)), Pick(sel, Hits(off', rest)), max);
      EarlyExits(lib, prev, off, at, chunks, sel, max, out);
    }
  }

  lemma RecsSplit(chunks: seq<Chunk>)
    requires chunks != []
    ensures RecsOf(chunks) == chunks[0].recs + RecsOf(chunks[1..])
  {}

  lemma NothingFound(off: nat, sel: Select, max: nat, out: seq<Hit>)
    ensures RecsOf([]) == [] && Fill(out, Pick(sel, Hits(off, [])), max) == out
  {
    assert out + [] == out;
  }

  lemma NoRowsLeft(lib: Library, file: bytes, sel: Select, max: nat, dict: Option<seq<Dict.Block>>, out: seq<Hit>)
    ensures ReadRows(lib, file, [], sel, max, dict, out) == Ok(out)
  {}

  lemma HeaderStarts(lib: Library, prev: Option<u64>, off: nat, c: Chunk)
    requires Lawful(lib) && ChunkFits(prev, off, c)
    ensures c.recs != [] && HeaderFor(lib, prev, off, c).firstTs == c.recs[0].ts && HeaderFor(lib, prev, off, c).firstOffset == off
  {
    hide RawOf, RecsFit, Monotone, Lawful;
    HeaderIsExact(lib, prev, off, c);
  }

  lemma {:induction false} OneRowRead(
    lib: Library, file: bytes, row: IndexRow, later: seq<IndexRow>, sel: Select, max: nat, dict: Option<seq<Dict.Block>>,
    out: seq<Hit>)
    ensures ReadRows(lib, file, [row] + later, sel, max, dict, out)
         == if |out| >= max || sel.IsPast(row.firstTs) then Ok(out)
            else if ReadAt(lib, file, row.fileOffset).None? then Err(BadFrame)
            else
              var (h, raw) := ReadAt(lib, file, row.fileOffset).value;
              match ScanFrom(raw, 0, h.firstOffset, h.firstTs, true, sel, max, dict, out)
              case Err(e) => Err(e)
              case Ok((out', last)) => if sel.IsPast(last) then Ok(out') else ReadRows(lib, file, later, sel, max, dict, out')
  {
    hide ReadAt, ScanFrom;
    assert ([row] + later)[1..] == later;
  }

  /** Where a scan stops early, what is left of the part has nothing for it. */
  lemma {:induction false} EarlyExits(
    lib: Library, prev: Option<u64>, off: nat, at: nat, chunks: seq<Chunk>, sel: Select, max: nat, out: seq<Hit>)
    requires AllFit(lib, prev, off, at, chunks) && chunks != []
    ensures var c := chunks[0];
      var out' := Fill(out, Pick(sel, Hits(off, c.recs)), max);
      var all := Fill(out, Pick(sel, Hits(off, RecsOf(chunks))), max);
      && c.recs != []
      && (|out| >= max || sel.IsPast(c.recs[0].ts) ==> all == out)
      && (sel.IsPast(c.recs[|c.recs| - 1].ts) ==> all == out')
  {
    hide ChunkBytes, RawOf, RecsFit, Hits, Pick, Monotone;
    AllMonotone(lib, prev, off, at, chunks);
    var (c, rest) := (chunks[0], RecsOf(chunks[1..]));
    assert RecsOf(chunks)[0] == c.recs[0];
    if sel.IsPast(c.recs[0].ts) {
      NoneIsWantedLate(prev, RecsOf(chunks), off, sel);
      assert out + [] == out;
    }
    if sel.IsPast(c.recs[|c.recs| - 1].ts) {
      NothingAfterPast(lib, prev, off, at, chunks, sel);
      HitsJoin(off, c.recs, rest);
      PickJoins(sel, Hits(off, c.recs), Hits(off + |c.recs|, rest));
      assert Pick(sel, Hits(off, c.recs)) + [] == Pick(sel, Hits(off, c.recs));
    }
  }

  lemma {:induction false} NothingAfterPast(lib: Library, prev: Option<u64>, off: nat, at: nat, chunks: seq<Chunk>,
      sel: Select)
    requires AllFit(lib, prev, off, at, chunks) && chunks != [] && chunks[0].recs != []
    requires sel.IsPast(chunks[0].recs[|chunks[0].recs| - 1].ts)
    ensures Pick(sel, Hits(off + |chunks[0].recs|, RecsOf(chunks[1..]))) == []
  {
    hide ChunkBytes, RawOf, RecsFit;
    var (c, rest) := (chunks[0], RecsOf(chunks[1..]));
    AllMonotone(lib, EndTs(prev, c.recs), off + |c.recs|, at + |ChunkBytes(lib, prev, off, c)|, chunks[1..]);
    if rest != [] { NoneIsWantedLate(EndTs(prev, c.recs), rest, off + |c.recs|, sel); }
  }

  // --- Starting in the middle ---

  lemma {:induction false} RowsStartLater(lib: Library, prev: Option<u64>, off: nat, at: nat, chunks: seq<Chunk>,
      i: nat)
    requires Lawful(lib) && AllFit(lib, prev, off, at, chunks) && i < |chunks|
    ensures var rows := RowsOf(lib, prev, off, at, chunks);
      |rows| == |chunks| && rows[i].firstOffset >= off && (prev.Some? ==> prev.value <= rows[i].firstTs)
    decreases |chunks|
  {
    hide ChunkBytes, RowFor, RecsFit, RawOf, Lawful, Monotone;
    var c := chunks[0];
    var (prev', off', at') := (EndTs(prev, c.recs), off + |c.recs|, at + |ChunkBytes(lib, prev, off, c)|);
    RowIs(lib, prev, off, at, c);
    LastIsLatest(prev, c.recs);
    if i > 0 {
      RowsStartLater(lib, prev', off', at', chunks[1..], i - 1);
    } else {
      RowsPerChunk(lib, prev', off', at', chunks[1..]);
    }
  }

  lemma {:induction false} RowsPerChunk(lib: Library, prev: Option<u64>, off: nat, at: nat, chunks: seq<Chunk>)
    ensures |RowsOf(lib, prev, off, at, chunks)| == |chunks|
    decreases |chunks|
  {
    hide ChunkBytes, RowFor;
    if chunks != [] {
      RowsPerChunk(lib, EndTs(prev, chunks[0].recs), off + |chunks[0].recs|, at + |ChunkBytes(lib, prev, off, chunks[0])|, chunks[1..]);
    }
  }

  /** Index rows are in offset order and in time order: the search may halve them. */
  lemma {:induction false} RowsAreSorted(lib: Library, prev: Option<u64>, off: nat, at: nat, chunks: seq<Chunk>,
      i: nat, j: nat)
    requires Lawful(lib) && AllFit(lib, prev, off, at, chunks) && i < j < |chunks|
    ensures var rows := RowsOf(lib, prev, off, at, chunks);
      |rows| == |chunks| && rows[i].firstOffset < rows[j].firstOffset && rows[i].firstTs <= rows[j].firstTs
    decreases |chunks|
  {
    hide ChunkBytes, RowFor, RecsFit, RawOf, Lawful, Monotone;
    var c := chunks[0];
    var (prev', off', at') := (EndTs(prev, c.recs), off + |c.recs|, at + |ChunkBytes(lib, prev, off, c)|);
    if i > 0 {
      RowsAreSorted(lib, prev', off', at', chunks[1..], i - 1, j - 1);
    } else {
      RowIs(lib, prev, off, at, c);
      LastIsLatest(prev, c.recs);
      RowsStartLater(lib, prev', off', at', chunks[1..], j - 1);
    }
  }

  /** Reading from a row that still starts before the selection misses nothing. */
  lemma {:induction false} RowsFindFrom(
    lib: Library, file: bytes, prev: Option<u64>, off: nat, at: nat, chunks: seq<Chunk>, start: nat, sel: Select, max: nat,
    dict: Option<seq<Dict.Block>>, out: seq<Hit>)
    requires Lawful(lib) && AllFit(lib, prev, off, at, chunks) && AllDecode(RecsOf(chunks), dict)
    requires at <= |file| && BlocksOf(lib, prev, off, chunks) <= file[at..]
    requires start <= |RowsOf(lib, prev, off, at, chunks)|
    requires start > 0 ==> start < |chunks| == |RowsOf(lib, prev, off, at, chunks)|
                           && sel.StartsBefore(RowsOf(lib, prev, off, at, chunks)[start])
    ensures ReadRows(lib, file, RowsOf(lib, prev, off, at, chunks)[start..], sel, max, dict, out)
         == Ok(Fill(out, Pick(sel, Hits(off, RecsOf(chunks))), max))
    decreases |chunks|
  {
    hide *;
    var rows := RowsOf(lib, prev, off, at, chunks);
    if start == 0 {
      assert rows[0..] == rows;
      RowsFind(lib, file, prev, off, at, chunks, sel, max, dict, out);
    } else {
      var c := chunks[0];
      var image := ChunkBytes(lib, prev, off, c);
      var (prev', off', at') := (EndTs(prev, c.recs), off + |c.recs|, at + |image|);
      var (later, rest) := (RowsOf(lib, prev', off', at', chunks[1..]), RecsOf(chunks[1..]));
      ChunksSplit(lib, prev, off, at, chunks);
      assert rows[start..] == later[start - 1..] && rows[start] == later[start - 1];
      RecsSplit(chunks);
      DecodeSplits(c.recs, rest, dict);
      FrontOf(file, at, image, BlocksOf(lib, prev', off', chunks[1..]));
      RowsPerChunk(lib, prev', off', at', chunks[1..]);
      RowsFindFrom(lib, file, prev', off', at', chunks[1..], start - 1, sel, max, dict, out);
      RowsStartLater(lib, prev', off', at', chunks[1..], start - 1);
      ChunkIsEarly(prev, off, c, sel, later[start - 1]);
      HitsJoin(off, c.recs, rest);
      PickJoins(sel, Hits(off, c.recs), Hits(off', rest));
      assert [] + Pick(sel, Hits(off', rest)) == Pick(sel, Hits(off', rest));
    }
  }

  lemma ChunksSplit(lib: Library, prev: Option<u64>, off: nat, at: nat, chunks: seq<Chunk>)
    requires chunks != [] && AllFit(lib, prev, off, at, chunks)
    ensures var c := chunks[0];
      var (prev', off', at') := (EndTs(prev, c.recs), off + |c.recs|, at + |ChunkBytes(lib, prev, off, c)|);
      && RowsOf(lib, prev, off, at, chunks) == [RowFor(lib, prev, off, at, c)] + RowsOf(lib, prev', off', at', chunks[1..])
      && BlocksOf(lib, prev, off, chunks) == ChunkBytes(lib, prev, off, c) + BlocksOf(lib, prev', off', chunks[1..])
      && AllFit(lib, prev', off', at', chunks[1..]) && ChunkFits(prev, off, c)
  {
    hide ChunkBytes, ChunkFits, RowFor, RecsOf, RawOf;
  }

  lemma {:induction false} ChunkIsEarly(prev: Option<u64>, off: nat, c: Chunk, sel: Select, row: IndexRow)
    requires ChunkFits(prev, off, c) && sel.StartsBefore(row)
    requires row.firstOffset >= off + |c.recs| && (EndTs(prev, c.recs).Some? ==> EndTs(prev, c.recs).value <= row.firstTs)
    ensures Pick(sel, Hits(off, c.recs)) == []
  {
    hide RecsFit, RawOf, Pick, Hits, Monotone;
    NoneIsWantedEarly(prev, c.recs, off, sel);
  }

  lemma {:induction false} FirstRowStartsBefore(rows: seq<IndexRow>, sel: Select)
    ensures var i := FirstRow(rows, sel);
      i > 0 ==> i < |rows| && sel.StartsBefore(rows[i])
    decreases |rows|
  {
    if rows != [] && sel.StartsBefore(rows[0]) {
      var tail := rows[1..];
      FirstRowStartsBefore(tail, sel);
      if PartitionPoint(tail, sel) == 1 { assert tail != [] && sel.StartsBefore(tail[0]); }
    }
  }

  /** Reading a part, whatever follows its last block: exactly the first wanted records, as many as there is room for. */
  lemma {:induction false} ReadsAreExact(
    lib: Library, origin: PartHeader, chunks: seq<Chunk>, tail: bytes, r: Reader, sel: Select, max: nat, out: seq<Hit>)
    requires Lawful(lib) && WellFormed(lib, origin, chunks) && AllDecode(RecsOf(chunks), r.dict)
    requires r.file == FileOf(lib, origin, chunks) + tail
    requires r.rows == RowsOf(lib, None, origin.firstOffset, PART_HEADER_LEN, chunks)
    ensures Read(lib, r, sel, max, out) == Ok(Fill(out, Pick(sel, Hits(origin.firstOffset, RecsOf(chunks))), max))
  {
    hide AllFit, AllDecode, BlocksOf, RowsOf, ReadRows, FirstRow, Fill, Pick, Hits, RecsOf, PartHeader.Encode, Lawful;
    var image := BlocksOf(lib, None, origin.firstOffset, chunks);
    AfterHead(origin.Encode(), image, tail);
    FirstRowStartsBefore(r.rows, sel);
    RowsPerChunk(lib, None, origin.firstOffset, PART_HEADER_LEN, chunks);
    RowsFindFrom(lib, r.file, None, origin.firstOffset, PART_HEADER_LEN, chunks, FirstRow(r.rows, sel), sel, max, r.dict, out);
  }

  lemma AfterHead(head: bytes, image: bytes, tail: bytes)
    ensures image <= (head + image + tail)[|head|..]
  {
    assert (head + image + tail)[|head|..][..|image|] == image;
  }
}
