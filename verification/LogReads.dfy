/** Reading a log, one stream or all, part after part, through readers kept from earlier reads. */
module LogReads {
  import opened Bytes
  import opened Foreign
  import opened Format
  import opened Part
  import opened Recovery
  import opened Reader
  import opened Shelf
  import opened Log
  import H = History
  import Body
  import Dict
  import DictFile
  import DictCodes
  import DictRoom
  import PartReader
  import W = Writer

  const CACHE_LIMIT: nat := 48

  /** Sealing renames a part, so a part has another path once it is sealed. */
  datatype Path = Path(dir: Dir, number: nat, open: bool)

  datatype Item = Item(path: Path, files: Files)

  /** A reader and the length of the part file it was built from. */
  datatype Cached = Cached(length: nat, reader: Reader)

  type Cache = map<Path, Cached>

  // --- Listing parts ---

  function Items(s: State, d: Dir): seq<Item> {
    seq(|SealedIn(s, d)|, i requires 0 <= i < |SealedIn(s, d)| => Item(Path(d, i, false), SealedIn(s, d)[i]))
    + (if d in s.active then [Item(Path(d, |SealedIn(s, d)|, true), FilesOf(s.active[d]))] else [])
  }

  function AllItems(s: State, dirs: seq<Dir>): seq<Item> {
    if dirs == [] then [] else AllItems(s, dirs[..|dirs| - 1]) + Items(s, dirs[|dirs| - 1])
  }

  /** The offset a part starts at, from its header alone. */
  function FirstOffset(item: Item): Option<u64> {
    match DecodePartHeader(item.files.file) case None => None case Some(h) => Some(h.firstOffset)
  }

  function FirstOf(item: Item): nat { if FirstOffset(item).Some? then FirstOffset(item).value else 0 }

  function Insert(items: seq<Item>, x: Item): seq<Item> {
    if items == [] || FirstOf(items[|items| - 1]) <= FirstOf(x) then items + [x]
    else Insert(items[..|items| - 1], x) + [items[|items| - 1]]
  }

  /** Parts by the offset they start at, ties in the order given; one without a readable header is left out. */
  function Sorted(items: seq<Item>): seq<Item> {
    if items == [] then []
    else
      var (rest, x) := (Sorted(items[..|items| - 1]), items[|items| - 1]);
      if FirstOffset(x).None? then rest else Insert(rest, x)
  }

  function OfStream(items: seq<Item>, stream: Stream): seq<Item> {
    if items == [] then []
    else OfStream(items[..|items| - 1], stream) + (if items[|items| - 1].path.dir.stream == stream then [items[|items| - 1]] else [])
  }

  predicate Ascending(items: seq<Item>) {
    forall i, j :: 0 <= i <= j < |items| ==> FirstOf(items[i]) <= FirstOf(items[j])
  }

  lemma {:induction false} InsertAscends(items: seq<Item>, x: Item)
    requires Ascending(items)
    ensures Ascending(Insert(items, x)) && |Insert(items, x)| == |items| + 1
    ensures forall y :: y in Insert(items, x) <==> y in items || y == x
    decreases |items|
  {
    hide FirstOf;
    if items != [] && FirstOf(items[|items| - 1]) > FirstOf(x) {
      var (init, last) := (items[..|items| - 1], items[|items| - 1]);
      InsertAscends(init, x);
      var more := Insert(init, x);
      assert Insert(items, x) == more + [last] && items == init + [last];
      forall i | 0 <= i < |more| ensures FirstOf(more[i]) <= FirstOf(last) { assert more[i] in init || more[i] == x; }
    }
  }

  lemma {:induction false} SortedAscends(items: seq<Item>)
    ensures Ascending(Sorted(items))
    decreases |items|
  {
    hide Insert, Ascending, FirstOffset;
    if items == [] {
      NothingAscends();
    } else {
      SortedAscends(items[..|items| - 1]);
      InsertAscends(Sorted(items[..|items| - 1]), items[|items| - 1]);
    }
  }

  lemma NothingAscends()
    ensures Ascending([])
  {}

  lemma OfStreamSnoc(items: seq<Item>, x: Item, stream: Stream)
    ensures OfStream(items + [x], stream) == if x.path.dir.stream == stream then OfStream(items, stream) + [x] else OfStream(items, stream)
  {
    assert (items + [x])[..|items|] == items;
    assert OfStream(items, stream) + [] == OfStream(items, stream);
  }

  lemma {:induction false} OfStreamIn(items: seq<Item>, stream: Stream, y: Item)
    ensures y in OfStream(items, stream) <==> y in items && y.path.dir.stream == stream
    decreases |items|
  {
    if items != [] {
      OfStreamIn(items[..|items| - 1], stream, y);
      assert items == items[..|items| - 1] + [items[|items| - 1]];
    }
  }

  lemma InsertBefore(items: seq<Item>, last: Item, x: Item)
    requires FirstOf(last) > FirstOf(x)
    ensures Insert(items + [last], x) == Insert(items, x) + [last]
  {
    hide FirstOf;
    assert (items + [last])[..|items|] == items;
  }

  lemma InsertAfter(items: seq<Item>, x: Item)
    requires items == [] || FirstOf(items[|items| - 1]) <= FirstOf(x)
    ensures Insert(items, x) == items + [x]
  {}

  lemma {:induction false} StreamEndsInOrder(items: seq<Item>, stream: Stream)
    requires Ascending(items) && OfStream(items, stream) != []
    ensures var kept := OfStream(items, stream); items != [] && FirstOf(kept[|kept| - 1]) <= FirstOf(items[|items| - 1])
  {
    hide FirstOf;
    var kept := OfStream(items, stream);
    OfStreamIn(items, stream, kept[|kept| - 1]);
    var i :| 0 <= i < |items| && items[i] == kept[|kept| - 1];
    assert FirstOf(items[i]) <= FirstOf(items[|items| - 1]);
  }

  /** Inserting and then keeping one stream is keeping the stream and then inserting, on items in order. */
  lemma {:induction false} InsertKeepsStream(items: seq<Item>, x: Item, stream: Stream)
    requires Ascending(items)
    ensures OfStream(Insert(items, x), stream)
         == if x.path.dir.stream == stream then Insert(OfStream(items, stream), x) else OfStream(items, stream)
    decreases |items|
  {
    hide FirstOf, Insert, OfStream;
    var kept := OfStream(items, stream);
    if items == [] || FirstOf(items[|items| - 1]) <= FirstOf(x) {
      InsertAfter(items, x);
      OfStreamSnoc(items, x, stream);
      if kept != [] { StreamEndsInOrder(items, stream); }
      InsertAfter(kept, x);
    } else {
      var (init, last) := (items[..|items| - 1], items[|items| - 1]);
      assert items == init + [last];
      InsertKeepsStream(init, x, stream);
      InsertBefore(init, last, x);
      OfStreamSnoc(init, last, stream);
      OfStreamSnoc(Insert(init, x), last, stream);
      InsertBefore(OfStream(init, stream), last, x);
    }
  }

  lemma {:induction false} SortingKeepsStream(items: seq<Item>, stream: Stream)
    ensures OfStream(Sorted(items), stream) == Sorted(OfStream(items, stream))
    decreases |items|
  {
    hide Insert, FirstOffset;
    if items != [] {
      var (init, x) := (items[..|items| - 1], items[|items| - 1]);
      SortingKeepsStream(init, stream);
      SortedAscends(init);
      assert items == init + [x];
      OfStreamSnoc(init, x, stream);
      if FirstOffset(x).Some? { InsertKeepsStream(Sorted(init), x, stream); }
      var kept := OfStream(init, stream);
      if x.path.dir.stream == stream { assert (kept + [x])[..|kept|] == kept; }
    }
  }

  lemma {:induction false} SortedIsItself(items: seq<Item>)
    requires Ascending(items) && forall i :: 0 <= i < |items| ==> FirstOffset(items[i]).Some?
    ensures Sorted(items) == items
    decreases |items|
  {
    hide FirstOf, FirstOffset;
    if items != [] {
      SortedIsItself(items[..|items| - 1]);
      assert items == items[..|items| - 1] + [items[|items| - 1]];
      if |items| > 1 { assert FirstOf(items[|items| - 2]) <= FirstOf(items[|items| - 1]); }
    }
  }

  lemma {:induction false} OfStreamJoins(xs: seq<Item>, ys: seq<Item>, stream: Stream)
    ensures OfStream(xs + ys, stream) == OfStream(xs, stream) + OfStream(ys, stream)
    decreases |ys|
  {
    if ys == [] {
      assert xs + ys == xs;
    } else {
      var (init, y) := (ys[..|ys| - 1], ys[|ys| - 1]);
      OfStreamJoins(xs, init, stream);
      assert xs + ys == (xs + init) + [y];
      OfStreamSnoc(xs + init, y, stream);
    }
  }

  lemma {:induction false} OfStreamAll(items: seq<Item>, stream: Stream, mine: bool)
    requires forall i :: 0 <= i < |items| ==> (items[i].path.dir.stream == stream) == mine
    ensures OfStream(items, stream) == if mine then items else []
    decreases |items|
  {
    if items != [] {
      OfStreamAll(items[..|items| - 1], stream, mine);
      assert items == items[..|items| - 1] + [items[|items| - 1]];
    }
  }

  predicate NoRepeats(dirs: seq<Dir>) { forall i, j :: 0 <= i < j < |dirs| ==> dirs[i] != dirs[j] }

  /** When one directory of the listing is of the stream, the stream's parts are that directory's. */
  lemma {:induction false} StreamIsOneDir(s: State, dirs: seq<Dir>, stream: Stream, d: Dir)
    requires NoRepeats(dirs) && d.stream == stream
    requires forall i :: 0 <= i < |dirs| && dirs[i].stream == stream ==> dirs[i] == d
    ensures OfStream(AllItems(s, dirs), stream) == if d in dirs then Items(s, d) else []
    decreases |dirs|
  {
    hide OfStream, Items;
    if dirs == [] {
      OfStreamAll([], stream, false);
    } else {
      var (init, last) := (dirs[..|dirs| - 1], dirs[|dirs| - 1]);
      assert forall i :: 0 <= i < |init| ==> init[i] == dirs[i];
      StreamIsOneDir(s, init, stream, d);
      OfStreamJoins(AllItems(s, init), Items(s, last), stream);
      ItemsAreOf(s, last);
      OfStreamAll(Items(s, last), stream, last == d);
      assert dirs == init + [last];
    }
  }

  lemma ItemsAreOf(s: State, d: Dir)
    ensures forall i :: 0 <= i < |Items(s, d)| ==> Items(s, d)[i].path.dir == d && Items(s, d)[i].path.number == i
  {}

  // --- Reading ---

  function ReaderFor(lib: Library, item: Item, cache: Cache): (Result<Reader, Error>, Cache) {
    var f := item.files;
    if item.path in cache && cache[item.path].length == |f.file| then (Ok(cache[item.path].reader), cache)
    else
      match PartReader.Open(lib, f.file, Some(f.index), f.dictFile, !item.path.open)
      case Err(e) => (Err(e), cache)
      case Ok(r) => (Ok(r), (if |cache| >= CACHE_LIMIT then map[] else cache)[item.path := Cached(|f.file|, r)])
  }

  /** Whether a part has nothing for the selection, by the spans its reader knows. */
  predicate Skips(r: Reader, sel: Select) {
    match sel
    case ByOffset(from) => PartReader.OffsetSpan(r).1 <= from
    case ByTime(from, to) => r.span.None? || r.span.value.1 < from || r.span.value.0 > to
  }

  /** An offset that retention took away starts at the oldest record there is. */
  function Narrowed(r: Reader, sel: Select): Select {
    match sel
    case ByOffset(from) => ByOffset(if from < PartReader.OffsetSpan(r).0 then PartReader.OffsetSpan(r).0 else from)
    case ByTime(_, _) => sel
  }

  /** The streams a read is about. */
  datatype Which = Every | Of(stream: Stream) {
    predicate Covers(item: Item) { Every? || item.path.dir.stream == stream }
  }

  /** A kept reader reads from the file as it is now. */
  function ReadItems(lib: Library, items: seq<Item>, which: Which, sel: Select, max: nat, cache: Cache,
      rows: seq<Hit>): (Result<seq<Hit>, Error>, Cache)
    decreases |items|
  {
    if items == [] || |rows| >= max then (Ok(rows), cache)
    else if !which.Covers(items[0]) then ReadItems(lib, items[1..], which, sel, max, cache, rows)
    else
      match ReaderFor(lib, items[0], cache)
      case (Err(e), cache') => (Err(e), cache')
      case (Ok(r), cache') =>
        if Skips(r, sel) then ReadItems(lib, items[1..], which, sel, max, cache', rows)
        else
          match Read(lib, r.(file := items[0].files.file), Narrowed(r, sel), max, rows)
          case Err(e) => (Err(e), cache')
          case Ok(rows') => ReadItems(lib, items[1..], which, sel, max, cache', rows')
  }

  /** Earlier rows first, and of rows with one timestamp those with the lower offset. */
  predicate Before(x: Hit, y: Hit) { x.0 < y.0 || (x.0 == y.0 && x.1 <= y.1) }

  function Place(rows: seq<Hit>, x: Hit): seq<Hit> {
    if rows == [] || Before(rows[|rows| - 1], x) then rows + [x]
    else Place(rows[..|rows| - 1], x) + [rows[|rows| - 1]]
  }

  /** Rows in the order of their times and offsets, ties as they came. */
  function InTime(rows: seq<Hit>): seq<Hit> {
    if rows == [] then [] else Place(InTime(rows[..|rows| - 1]), rows[|rows| - 1])
  }

  /** Read up to `max` records of one stream or of all; `dirs` is the directory listing. Rows of many streams are put in
      the order of time once they are found. */
  function ReadStreams(lib: Library, s: State, dirs: seq<Dir>, which: Which, sel: Select, max: nat,
      cache: Cache): (Result<seq<Hit>, Error>, Cache) {
    var (r, cache') := ReadItems(lib, Sorted(AllItems(s, dirs)), which, sel, max, cache, []);
    (if r.Ok? && which.Every? then Ok(InTime(r.value)) else r, cache')
  }

  // --- Readers that tell the truth ---

  /** The reader answers every question about these records exactly. */
  ghost predicate Exact(lib: Library, r: Reader, off: nat, recs: seq<Rec>) {
    && PartReader.OffsetSpan(r) == (off, off + |recs|)
    && r.span == (if recs == [] then None else Some((recs[0].ts, recs[|recs| - 1].ts)))
    && (exists prev :: Monotone(prev, recs))
    && forall sel, max, out :: Read(lib, r, sel, max, out) == Ok(Fill(out, Pick(sel, Hits(off, recs)), max))
  }

  /** What part `n` of a directory says: where it started and its chunks. */
  function PartAt(sh: Shelf, n: nat): Option<(PartHeader, seq<Chunk>)> {
    if n < |sh.views| then Some((sh.views[n].origin, sh.views[n].chunks))
    else if n == |sh.views| && sh.open.Some? then Some((sh.open.value.origin, sh.open.value.chunks))
    else None
  }

  function FootAt(sh: Shelf, n: nat): bytes { if n < |sh.views| then sh.views[n].footer.Encode() else [] }

  /** A kept reader is exact for the part as it was when its file had that length. */
  ghost predicate KeptTells(lib: Library, c: Cached, origin: PartHeader, chunks: seq<Chunk>, n: nat) {
    && n <= |chunks| && c.reader.file == FileOf(lib, origin, chunks[..n]) && c.length == |c.reader.file|
    && Exact(lib, c.reader, origin.firstOffset, RecsOf(chunks[..n]))
  }

  ghost predicate EntryTells(lib: Library, sh: Shelf, p: Path, c: Cached) {
    var part := PartAt(sh, p.number);
    && part.Some?
    && (if p.open then exists n: nat :: KeptTells(lib, c, part.value.0, part.value.1, n)
        else && p.number < |sh.views| && c.reader.file == FileOf(lib, part.value.0, part.value.1) + FootAt(sh, p.number)
             && c.length == |c.reader.file| && Exact(lib, c.reader, part.value.0.firstOffset, RecsOf(part.value.1)))
  }

  ghost predicate CacheTells(lib: Library, g: Shelves, cache: Cache) {
    forall p :: p in cache ==> EntryTells(lib, ShelfAt(g, p.dir), p, cache[p])
  }

  /** Whatever a part grows into, a reader kept from before stays true to what it saw. */
  lemma {:induction false} EntryStays(lib: Library, sh: Shelf, later: Shelf, p: Path, c: Cached)
    requires EntryTells(lib, sh, p, c) && Continues(sh, later)
    ensures EntryTells(lib, later, p, c)
  {
    hide Exact, FileOf, RecsOf, Footer.Encode;
    if p.open {
      var (a, b) := (PartAt(sh, p.number).value, PartAt(later, p.number).value);
      var n: nat :| KeptTells(lib, c, a.0, a.1, n);
      assert b.0 == a.0 && a.1 <= b.1;
      assert b.1[..n] == a.1[..n];
      assert KeptTells(lib, c, b.0, b.1, n);
    }
  }

  /** Readers kept by one read serve the reads after any appends and flushes. */
  lemma {:induction false} CacheStays(lib: Library, g: Shelves, g': Shelves, cache: Cache)
    requires CacheTells(lib, g, cache) && AllContinue(g, g')
    ensures CacheTells(lib, g', cache)
  {
    hide EntryTells, Continues;
    forall p | p in cache ensures EntryTells(lib, ShelfAt(g', p.dir), p, cache[p]) {
      EntryStays(lib, ShelfAt(g, p.dir), ShelfAt(g', p.dir), p, cache[p]);
    }
  }

  // --- Opening afresh ---

  /** The dictionary beside every part loads with all that the part's records refer to. */
  ghost predicate ShelfServed(lib: Library, sealed: seq<Files>, open: Option<W.State>, sh: Shelf) {
    && (forall i :: 0 <= i < |sealed| && i < |sh.views| ==> H.Serves(sh.views[i].mark, H.LoadedBlocks(lib, sealed[i].dictFile)))
    && (open.Some? && sh.open.Some? ==> H.Serves(sh.open.value.mark, H.LoadedBlocks(lib, FilesOf(open.value).dictFile)))
  }

  ghost predicate AllServed(lib: Library, s: State, g: Shelves) {
    forall d: Dir :: ShelfServed(lib, SealedIn(s, d), OpenIn(s, d), ShelfAt(g, d))
  }

  /** A sealed part's dictionary, within its limits, loads as the blocks its file was written from. */
  lemma {:induction false} SealedIsServed(lib: Library, f: Files, v: View)
    requires Lawful(lib) && Holds(lib, f, v) && (v.dict.Some? ==> DictRoom.BlocksFit(v.dict.value))
    ensures H.Serves(v.mark, H.LoadedBlocks(lib, f.dictFile))
  {
    hide WellFormed, FileOf, After, W.EncodeRows, PartReader.TellsTheEnd, H.AllReadable, RecsOf, Footer.Encode,
      Dict.Image, Dict.Placed, Dict.Extends, DictRoom.BlocksFit, DictFile.Load, DictCodes.Sound, Lawful;
    if v.mark.Some? { DictRoom.FitFileLoads(lib, v.dict.value); }
  }

  /** And so does an open part's. */
  lemma {:induction false} OpenIsServed(lib: Library, w: W.State, h: H.History)
    requires Lawful(lib) && H.Tells(lib, w, h) && DictRoom.Tight(w.dict) && DictRoom.Fits(w.dict)
    ensures H.Serves(h.mark, H.LoadedBlocks(lib, FilesOf(w).dictFile))
  {
    hide H.Tells, Dict.Image, Dict.Placed, Dict.Extends, DictRoom.BlocksFit, DictRoom.Tight, DictFile.Load,
      DictCodes.Sound, Dict.OnDisk, Lawful, H.AllReadable;
    ReadableMark(lib, w, h);
    if w.dict.Some? {
      var st := w.dict.value;
      OpenIsLast(lib, st, h.mark, RecsOf(h.chunks), h.pending);
      DictRoom.OpenFileIs(lib, st);
      FrontFits(st);
      DictRoom.FitFileLoads(lib, st.blocks[..st.open]);
    }
  }

  lemma FrontFits(st: Dict.State)
    requires st.open < |st.blocks| && DictRoom.BlocksFit(DictRoom.Used(st))
    ensures DictRoom.BlocksFit(st.blocks[..st.open])
  {
    hide Dict.Texts, Pow256;
    var (a, b) := (DictRoom.Used(st), st.blocks[..st.open]);
    forall i | 0 <= i < |b| ensures DictRoom.BlockFits(b, i) { assert DictRoom.BlockFits(a, i); }
  }

  /** While every dictionary is within its limits, each part's file serves the part's records. */
  lemma {:induction false} WithinLimitsServe(lib: Library, s: State, g: Shelves)
    requires Lawful(lib) && ShelvesTell(lib, s, g) && Roomy(s) && ViewsFit(g)
    ensures AllServed(lib, s, g)
  {
    hide Holds, H.Tells, Tiled, ViewRecs, H.Serves, H.LoadedBlocks, FilesOf, DictRoom.Tight, DictRoom.Fits,
      DictRoom.BlocksFit, Lawful;
    forall d: Dir ensures ShelfServed(lib, SealedIn(s, d), OpenIn(s, d), ShelfAt(g, d)) {
      var sh := ShelfAt(g, d);
      assert Tells(lib, SealedIn(s, d), OpenIn(s, d), sh) && ShelfFits(sh);
      forall i | 0 <= i < |SealedIn(s, d)| && i < |sh.views|
        ensures H.Serves(sh.views[i].mark, H.LoadedBlocks(lib, SealedIn(s, d)[i].dictFile))
      {
        SealedIsServed(lib, SealedIn(s, d)[i], sh.views[i]);
      }
      if d in s.active { OpenIsServed(lib, s.active[d], sh.open.value); }
    }
  }

  lemma {:induction false} OpensExact(
    lib: Library, origin: PartHeader, chunks: seq<Chunk>, tail: bytes, footer: Option<Footer>, index: bytes, dictFile: Option<bytes>, mark: Option<seq<Dict.Block>>)
    requires Lawful(lib) && WellFormed(lib, origin, chunks) && H.AllReadable(RecsOf(chunks), mark)
    requires H.Serves(mark, H.LoadedBlocks(lib, dictFile))
    requires if footer.Some? then PartReader.TellsTheEnd(footer.value, chunks) && tail == footer.value.Encode() else tail == []
    requires index == INDEX_HEADER + W.EncodeRows(After(lib, NoBlocks(origin), chunks).rows)
    ensures var r := PartReader.Open(lib, FileOf(lib, origin, chunks) + tail, Some(index), dictFile, footer.Some?);
      && r.Ok? && r.value.file == FileOf(lib, origin, chunks) + tail
      && Exact(lib, r.value, origin.firstOffset, RecsOf(chunks))
  {
    hide WellFormed, FileOf, RowsOf, PartReader.Open, W.EncodeRows, PartReader.TellsTheEnd, PartReader.OffsetSpan,
      RecsOf, Lawful,
      H.AllReadable, H.Serves, Footer.Encode, Count, EndAll, BlocksOf, Raws, Read, Fill, Pick, Hits, AllDecode, H.LoadedBlocks, Monotone;
    var rows := RowsOf(lib, None, origin.firstOffset, PART_HEADER_LEN, chunks);
    assert [] + rows == rows && index + [] == index;
    PartReader.OpensExactly(lib, origin, chunks, tail, footer, [], dictFile);
    PartReader.CountIsLength(chunks);
    PartReader.ReadableDecode(RecsOf(chunks), mark, H.LoadedBlocks(lib, dictFile));
    var r := PartReader.Open(lib, FileOf(lib, origin, chunks) + tail, Some(index), dictFile, footer.Some?).value;
    ChunksAreMonotone(lib, origin, chunks);
    forall sel, max, out ensures Read(lib, r, sel, max, out) == Ok(Fill(out, Pick(sel, Hits(origin.firstOffset, RecsOf(chunks))), max)) {
      ReadsAreExact(lib, origin, chunks, tail, r, sel, max, out);
    }
  }

  lemma ChunksAreMonotone(lib: Library, origin: PartHeader, chunks: seq<Chunk>)
    requires WellFormed(lib, origin, chunks)
    ensures Monotone(None, RecsOf(chunks))
  {
    hide AllFit, Monotone, RecsOf;
    AllMonotone(lib, None, origin.firstOffset, PART_HEADER_LEN, chunks);
  }

  // --- A reader for a part of the listing ---

  lemma {:induction false} OneMoreGrows(lib: Library, origin: PartHeader, chunks: seq<Chunk>, c: Chunk)
    ensures |FileOf(lib, origin, chunks)| < |FileOf(lib, origin, chunks + [c])|
  {
    hide BlocksOf, ChunkBytes, PartHeader.Encode;
    SnocBlocks(lib, None, origin.firstOffset, chunks, c);
  }

  /** A part's length tells how many of its blocks are there. */
  lemma {:induction false} LengthTells(lib: Library, origin: PartHeader, chunks: seq<Chunk>, n: nat)
    requires n <= |chunks|
    ensures |FileOf(lib, origin, chunks[..n])| <= |FileOf(lib, origin, chunks)|
    ensures |FileOf(lib, origin, chunks[..n])| == |FileOf(lib, origin, chunks)| ==> n == |chunks|
    decreases |chunks|
  {
    hide FileOf;
    if n == |chunks| {
      assert chunks[..n] == chunks;
    } else {
      var (init, c) := (chunks[..|chunks| - 1], chunks[|chunks| - 1]);
      assert chunks == init + [c] && init[..n] == chunks[..n];
      LengthTells(lib, origin, init, n);
      OneMoreGrows(lib, origin, init, c);
    }
  }

  /** What a listed part is, by the shelf it stands on. */
  ghost predicate ItemTells(lib: Library, item: Item, sh: Shelf) {
    var (f, n) := (item.files, item.path.number);
    && PartAt(sh, n).Some? && (item.path.open <==> n == |sh.views|)
    && var (origin, chunks) := PartAt(sh, n).value;
       var mark := if n < |sh.views| then sh.views[n].mark else sh.open.value.mark;
       && WellFormed(lib, origin, chunks) && f.file == FileOf(lib, origin, chunks) + FootAt(sh, n)
       && f.index == INDEX_HEADER + W.EncodeRows(After(lib, NoBlocks(origin), chunks).rows)
       && (n < |sh.views| ==> PartReader.TellsTheEnd(sh.views[n].footer, chunks))
       && H.AllReadable(RecsOf(chunks), mark) && H.Serves(mark, H.LoadedBlocks(lib, f.dictFile))
       && origin.firstOffset == |ViewRecs(sh.views[..n])|
  }

  lemma {:induction false} OpenItemTells(lib: Library, w: W.State, h: H.History)
    requires H.Tells(lib, w, h)
    ensures WellFormed(lib, h.origin, h.chunks) && w.file == FileOf(lib, h.origin, h.chunks) + []
    ensures w.index == INDEX_HEADER + W.EncodeRows(After(lib, NoBlocks(h.origin), h.chunks).rows)
    ensures H.AllReadable(RecsOf(h.chunks), h.mark)
  {
    hide H.BufferTells, H.DictTells, WellFormed, After, FileOf, W.EncodeRows, H.AllReadable, RecsOf;
    H.DurableIsReadable(lib, w.dict, h.mark, RecsOf(h.chunks), h.pending);
  }

  lemma {:induction false} ItemsTell(lib: Library, s: State, g: Shelves, d: Dir, j: nat)
    requires ShelvesTell(lib, s, g) && AllServed(lib, s, g) && j < |Items(s, d)|
    ensures ItemTells(lib, Items(s, d)[j], ShelfAt(g, d))
    ensures |Items(s, d)| == |ShelfAt(g, d).views| + if ShelfAt(g, d).open.Some? then 1 else 0
  {
    hide WellFormed, FileOf, H.Tells, After, W.EncodeRows, PartReader.TellsTheEnd, H.AllReadable, RecsOf, H.Serves,
      H.LoadedBlocks, ViewRecs, Footer.Encode;
    var sh := ShelfAt(g, d);
    assert Tells(lib, SealedIn(s, d), OpenIn(s, d), sh);
    assert ShelfServed(lib, SealedIn(s, d), OpenIn(s, d), sh);
    if j < |sh.views| {
      assert Holds(lib, SealedIn(s, d)[j], sh.views[j]);
    } else {
      OpenItemTells(lib, s.active[d], sh.open.value);
      assert sh.views[..j] == sh.views;
    }
  }

  /** A kept reader is as good as a fresh one, as long as the file has the length it was built from. */
  lemma {:induction false} HitIsExact(lib: Library, item: Item, sh: Shelf, c: Cached)
    requires ItemTells(lib, item, sh) && EntryTells(lib, sh, item.path, c) && c.length == |item.files.file|
    ensures var (origin, chunks) := PartAt(sh, item.path.number).value;
      c.reader.file == item.files.file && Exact(lib, c.reader, origin.firstOffset, RecsOf(chunks))
  {
    hide WellFormed, FileOf, After, W.EncodeRows, PartReader.TellsTheEnd, H.AllReadable, RecsOf, H.Serves,
      H.LoadedBlocks, ViewRecs, Exact, Footer.Encode;
    var (origin, chunks) := PartAt(sh, item.path.number).value;
    if item.path.open {
      var n: nat :| KeptTells(lib, c, origin, chunks, n);
      assert item.files.file == FileOf(lib, origin, chunks);
      LengthTells(lib, origin, chunks, n);
      assert chunks[..|chunks|] == chunks;
    }
  }

  lemma {:induction false} MissIsExact(lib: Library, item: Item, sh: Shelf)
    requires Lawful(lib) && ItemTells(lib, item, sh)
    ensures var (origin, chunks) := PartAt(sh, item.path.number).value;
      var f := item.files;
      var r := PartReader.Open(lib, f.file, Some(f.index), f.dictFile, !item.path.open);
      && r.Ok? && r.value.file == f.file && Exact(lib, r.value, origin.firstOffset, RecsOf(chunks))
      && EntryTells(lib, sh, item.path, Cached(|f.file|, r.value))
  {
    hide WellFormed, FileOf, After, W.EncodeRows, PartReader.TellsTheEnd, H.AllReadable, RecsOf, H.Serves,
      H.LoadedBlocks, ViewRecs, Exact, Footer.Encode, PartReader.Open, Lawful;
    var (origin, chunks) := PartAt(sh, item.path.number).value;
    var (f, n) := (item.files, item.path.number);
    var footer := if n < |sh.views| then Some(sh.views[n].footer) else None;
    var mark := if n < |sh.views| then sh.views[n].mark else sh.open.value.mark;
    OpensExact(lib, origin, chunks, FootAt(sh, n), footer, f.index, f.dictFile, mark);
    if item.path.open {
      assert chunks[..|chunks|] == chunks && FileOf(lib, origin, chunks) + [] == FileOf(lib, origin, chunks);
      var r := PartReader.Open(lib, f.file, Some(f.index), f.dictFile, false).value;
      assert KeptTells(lib, Cached(|f.file|, r), origin, chunks, |chunks|);
    }
  }

  /** The reader found for a listed part is exact, kept or fresh, and the ones kept afterwards are true. */
  lemma {:induction false} ReaderForIsExact(lib: Library, g: Shelves, item: Item, cache: Cache)
    requires Lawful(lib) && ItemTells(lib, item, ShelfAt(g, item.path.dir)) && CacheTells(lib, g, cache)
    ensures var (r, cache') := ReaderFor(lib, item, cache);
      var (origin, chunks) := PartAt(ShelfAt(g, item.path.dir), item.path.number).value;
      && r.Ok? && r.value.file == item.files.file && Exact(lib, r.value, origin.firstOffset, RecsOf(chunks))
      && CacheTells(lib, g, cache')
  {
    hide ItemTells, EntryTells, Exact, PartReader.Open, RecsOf, Lawful;
    var sh := ShelfAt(g, item.path.dir);
    MissIsExact(lib, item, sh);
    if item.path in cache && cache[item.path].length == |item.files.file| { HitIsExact(lib, item, sh, cache[item.path]); }
  }

  // --- The list a stream read is measured against ---

  function RecsAt(sh: Shelf, j: nat): seq<Rec> { if PartAt(sh, j).Some? then RecsOf(PartAt(sh, j).value.1) else [] }

  /** The durable records from part `j` on. */
  function From(sh: Shelf, j: nat): seq<Rec>
    decreases |sh.views| + 1 - j
  {
    if j > |sh.views| then [] else RecsAt(sh, j) + From(sh, j + 1)
  }

  lemma {:induction false} FromIsTheRest(sh: Shelf, j: nat)
    requires j <= |sh.views|
    ensures ViewRecs(sh.views[..j]) + From(sh, j) == sh.Durable()
    decreases |sh.views| - j
  {
    hide RecsOf;
    if j == |sh.views| {
      assert sh.views[..j] == sh.views;
      assert From(sh, j) == RecsAt(sh, j) + [] == RecsAt(sh, j);
    } else {
      FromIsTheRest(sh, j + 1);
      assert sh.views[..j + 1][..j] == sh.views[..j];
      assert ViewRecs(sh.views[..j]) + (RecsAt(sh, j) + From(sh, j + 1)) == ViewRecs(sh.views[..j]) + RecsAt(sh, j) + From(sh, j + 1);
    }
  }

  lemma {:induction false} NoOffsetIsWanted(off: nat, recs: seq<Rec>, from: nat)
    requires off + |recs| <= from
    ensures Pick(ByOffset(from), Hits(off, recs)) == []
    decreases |recs|
  {
    if recs != [] {
      NoOffsetIsWanted(off + 1, recs[1..], from);
      assert Hits(off, recs)[1..] == Hits(off + 1, recs[1..]);
    }
  }

  lemma {:induction false} NarrowingPicksTheSame(off: nat, low: nat, recs: seq<Rec>, from: nat)
    requires from <= low <= off
    ensures Pick(ByOffset(low), Hits(off, recs)) == Pick(ByOffset(from), Hits(off, recs))
    decreases |recs|
  {
    if recs != [] {
      NarrowingPicksTheSame(off + 1, low, recs[1..], from);
      assert Hits(off, recs)[1..] == Hits(off + 1, recs[1..]);
    }
  }

  lemma {:induction false} SkippedHasNothing(lib: Library, r: Reader, off: nat, recs: seq<Rec>, sel: Select)
    requires Exact(lib, r, off, recs) && Skips(r, sel)
    ensures Pick(sel, Hits(off, recs)) == []
  {
    hide PartReader.OffsetSpan, Monotone, Read, Fill, Pick, Hits;
    match sel {
      case ByOffset(from) => NoOffsetIsWanted(off, recs, from);
      case ByTime(from, to) =>
        var prev :| Monotone(prev, recs);
        if recs == [] {
          NothingIsPicked(off, sel);
        } else if r.span.value.1 < from {
          NoneIsWantedEarly(prev, recs, off, sel);
        } else {
          NoneIsWantedLate(prev, recs, off, sel);
        }
    }
  }

  lemma NothingIsPicked(off: nat, sel: Select)
    ensures Pick(sel, Hits(off, [])) == []
  {}

  lemma {:induction false} NarrowedReads(lib: Library, r: Reader, off: nat, recs: seq<Rec>, sel: Select, max: nat,
      rows: seq<Hit>)
    requires Exact(lib, r, off, recs)
    ensures Read(lib, r, Narrowed(r, sel), max, rows) == Ok(Fill(rows, Pick(sel, Hits(off, recs)), max))
  {
    hide PartReader.OffsetSpan, Monotone, Read, Fill, Pick, Hits;
    if sel.ByOffset? && sel.from < off { NarrowingPicksTheSame(off, off, recs, sel.from); }
  }

  lemma FillNothing(rows: seq<Hit>, max: nat)
    ensures Fill(rows, [], max) == rows
  {
    assert rows + [] == rows;
  }

  lemma FilledAlready(rows: seq<Hit>, more: seq<Hit>, max: nat)
    requires |rows| >= max
    ensures Fill(rows, more, max) == rows
  {}

  lemma {:induction false} ReadingOne(
    lib: Library, items: seq<Item>, which: Which, sel: Select, max: nat, cache: Cache, rows: seq<Hit>, off: nat, recs: seq<Rec>)
    requires items != [] && which.Covers(items[0]) && |rows| < max
    requires var r := ReaderFor(lib, items[0], cache).0; r.Ok? && r.value.file == items[0].files.file && Exact(lib, r.value, off, recs)
    ensures ReadItems(lib, items, which, sel, max, cache, rows)
         == ReadItems(lib, items[1..], which, sel, max, ReaderFor(lib, items[0], cache).1, Fill(rows, Pick(sel, Hits(off, recs)), max))
  {
    hide Exact, ReaderFor, Skips, Narrowed, Read, Fill, Pick, Hits;
    var r := ReaderFor(lib, items[0], cache).0.value;
    assert r.(file := items[0].files.file) == r;
    if Skips(r, sel) {
      SkippedHasNothing(lib, r, off, recs, sel);
      FillNothing(rows, max);
    } else {
      NarrowedReads(lib, r, off, recs, sel, max, rows);
    }
  }

  function OffsetAt(sh: Shelf, j: nat): nat { if j <= |sh.views| then |ViewRecs(sh.views[..j])| else |sh.Durable()| }

  lemma {:induction false} OffsetMoves(sh: Shelf, j: nat)
    requires j <= |sh.views|
    ensures OffsetAt(sh, j + 1) == OffsetAt(sh, j) + |RecsAt(sh, j)|
  {
    hide RecsOf;
    if j == |sh.views| {
      assert sh.views[..j] == sh.views;
    } else {
      assert sh.views[..j + 1][..j] == sh.views[..j];
    }
  }

  lemma PartIsAt(lib: Library, item: Item, sh: Shelf)
    requires ItemTells(lib, item, sh)
    ensures var n := item.path.number;
      && n <= |sh.views| && PartAt(sh, n).Some? && RecsAt(sh, n) == RecsOf(PartAt(sh, n).value.1)
      && PartAt(sh, n).value.0.firstOffset == OffsetAt(sh, n)
  {
    hide WellFormed, FileOf, After, W.EncodeRows, PartReader.TellsTheEnd, H.AllReadable, RecsOf, H.Serves,
      H.LoadedBlocks, ViewRecs, Footer.Encode;
  }

  lemma NothingLeft(sh: Shelf, j: nat)
    requires j >= |sh.views| + if sh.open.Some? then 1 else 0
    ensures From(sh, j) == []
  {
    hide RecsOf;
    if j == |sh.views| { assert From(sh, j) == [] + []; }
  }

  // --- What is found in a list of parts ---

  /** The wanted durable records of one part, at their offsets. */
  function FoundIn(g: Shelves, which: Which, sel: Select, item: Item): seq<Hit> {
    var (sh, n) := (ShelfAt(g, item.path.dir), item.path.number);
    if which.Covers(item) then Pick(sel, Hits(OffsetAt(sh, n), RecsAt(sh, n))) else []
  }

  function Found(g: Shelves, which: Which, sel: Select, items: seq<Item>): seq<Hit> {
    if items == [] then [] else FoundIn(g, which, sel, items[0]) + Found(g, which, sel, items[1..])
  }

  ghost predicate AllTell(lib: Library, g: Shelves, items: seq<Item>) {
    forall i :: 0 <= i < |items| ==> ItemTells(lib, items[i], ShelfAt(g, items[i].path.dir))
  }

  /** Reading parts in any order finds the first `max` of what is wanted in them, through however old a cache. */
  lemma {:induction false} ReadingItems(
    lib: Library, g: Shelves, items: seq<Item>, which: Which, sel: Select, max: nat, cache: Cache, rows: seq<Hit>)
    requires Lawful(lib) && AllTell(lib, g, items) && CacheTells(lib, g, cache)
    ensures var (r, cache') := ReadItems(lib, items, which, sel, max, cache, rows);
      r == Ok(Fill(rows, Found(g, which, sel, items), max)) && CacheTells(lib, g, cache')
    decreases |items|
  {
    hide CacheTells, Lawful, Fill, Pick, Hits, ItemTells, Exact, ReaderFor, OffsetAt, RecsAt, PartAt, Which.Covers,
      Skips, Narrowed, Read, FoundIn;
    var found := Found(g, which, sel, items);
    if items == [] {
      FillNothing(rows, max);
    } else if |rows| >= max {
      FilledAlready(rows, found, max);
    } else {
      var (item, rest) := (items[0], items[1..]);
      assert ItemTells(lib, item, ShelfAt(g, item.path.dir));
      assert AllTell(lib, g, rest) by { assert forall i :: 0 <= i < |rest| ==> rest[i] == items[i + 1]; }
      var one := FoundIn(g, which, sel, item);
      FillTwice(rows, one, Found(g, which, sel, rest), max);
      FoundInIs(g, which, sel, item);
      if which.Covers(item) {
        var sh := ShelfAt(g, item.path.dir);
        PartIsAt(lib, item, sh);
        ReaderForIsExact(lib, g, item, cache);
        ReadingOne(lib, items, which, sel, max, cache, rows, OffsetAt(sh, item.path.number), RecsAt(sh, item.path.number));
        ReadingItems(lib, g, rest, which, sel, max, ReaderFor(lib, item, cache).1, Fill(rows, one, max));
      } else {
        FillNothing(rows, max);
        ReadingItems(lib, g, rest, which, sel, max, cache, rows);
      }
    }
  }

  lemma FoundInIs(g: Shelves, which: Which, sel: Select, item: Item)
    ensures FoundIn(g, which, sel, item)
         == var (sh, n) := (ShelfAt(g, item.path.dir), item.path.number);
            if which.Covers(item) then Pick(sel, Hits(OffsetAt(sh, n), RecsAt(sh, n))) else []
  {}

  lemma {:induction false} FoundJoins(g: Shelves, which: Which, sel: Select, xs: seq<Item>, ys: seq<Item>)
    ensures Found(g, which, sel, xs + ys) == Found(g, which, sel, xs) + Found(g, which, sel, ys)
    decreases |xs|
  {
    hide FoundIn;
    if xs == [] {
      assert xs + ys == ys;
    } else {
      assert (xs + ys)[1..] == xs[1..] + ys;
      FoundJoins(g, which, sel, xs[1..], ys);
      var (a, b, c) := (FoundIn(g, which, sel, xs[0]), Found(g, which, sel, xs[1..]), Found(g, which, sel, ys));
      assert a + (b + c) == a + b + c;
    }
  }

  lemma FoundOne(g: Shelves, which: Which, sel: Select, x: Item)
    ensures Found(g, which, sel, [x]) == FoundIn(g, which, sel, x)
  {
    hide FoundIn;
    assert [x][1..] == [];
    assert FoundIn(g, which, sel, x) + [] == FoundIn(g, which, sel, x);
  }

  /** Parts of other streams do not count. */
  lemma {:induction false} FoundOfStream(g: Shelves, stream: Stream, sel: Select, items: seq<Item>)
    ensures Found(g, Of(stream), sel, OfStream(items, stream)) == Found(g, Of(stream), sel, items)
    decreases |items|
  {
    hide OfStream, Found, FoundIn;
    if items == [] {
      OfStreamAll([], stream, false);
    } else {
      var (init, x) := (items[..|items| - 1], items[|items| - 1]);
      assert items == init + [x];
      FoundOfStream(g, stream, sel, init);
      OfStreamSnoc(init, x, stream);
      FoundJoins(g, Of(stream), sel, init, [x]);
      FoundJoins(g, Of(stream), sel, OfStream(init, stream), [x]);
      FoundOne(g, Of(stream), sel, x);
      FoundInIs(g, Of(stream), sel, x);
      var found := Found(g, Of(stream), sel, init);
      assert found + [] == found;
    }
  }

  /** The parts of one directory, from the `j`th on, have its durable records from there. */
  lemma {:induction false} FoundInDir(lib: Library, s: State, g: Shelves, d: Dir, j: nat, which: Which, sel: Select)
    requires ShelvesTell(lib, s, g) && AllServed(lib, s, g) && j <= |Items(s, d)|
    ensures Found(g, which, sel, Items(s, d)[j..])
         == if which.Every? || which.stream == d.stream then Pick(sel, Hits(OffsetAt(ShelfAt(g, d), j), From(ShelfAt(g, d), j))) else []
    decreases |Items(s, d)| - j
  {
    hide ShelvesTell, AllServed, Items, Pick, Hits, ItemTells, OffsetAt, From, RecsAt, PartAt, FoundIn;
    var sh := ShelfAt(g, d);
    var items := Items(s, d)[j..];
    if j == |Items(s, d)| {
      AllListed(lib, s, g, d);
      NothingLeft(sh, j);
      NothingIsPicked(OffsetAt(sh, j), sel);
    } else {
      ItemsTell(lib, s, g, d, j);
      ItemsAreOf(s, d);
      assert items[0] == Items(s, d)[j] && items[1..] == Items(s, d)[j + 1..];
      FoundInIs(g, which, sel, items[0]);
      FoundInDir(lib, s, g, d, j + 1, which, sel);
      OffsetMoves(sh, j);
      FromUnfolds(sh, j);
      HitsJoin(OffsetAt(sh, j), RecsAt(sh, j), From(sh, j + 1));
      PickJoins(sel, Hits(OffsetAt(sh, j), RecsAt(sh, j)), Hits(OffsetAt(sh, j + 1), From(sh, j + 1)));
    }
  }

  lemma {:induction false} FoundInAll(lib: Library, s: State, g: Shelves, d: Dir, which: Which, sel: Select)
    requires ShelvesTell(lib, s, g) && AllServed(lib, s, g)
    ensures Found(g, which, sel, Items(s, d)) == WantedIn(g, which, sel, d)
  {
    hide ShelvesTell, AllServed, Items, Pick, Hits, From, Found, Shelf.Durable;
    assert Items(s, d)[0..] == Items(s, d);
    FoundInDir(lib, s, g, d, 0, which, sel);
    FromIsTheRest(ShelfAt(g, d), 0);
    assert ViewRecs(ShelfAt(g, d).views[..0]) == [] && [] + From(ShelfAt(g, d), 0) == From(ShelfAt(g, d), 0);
  }

  lemma FromUnfolds(sh: Shelf, j: nat)
    requires j <= |sh.views|
    ensures From(sh, j) == RecsAt(sh, j) + From(sh, j + 1)
  {
    hide RecsAt;
  }

  lemma AllListed(lib: Library, s: State, g: Shelves, d: Dir)
    requires ShelvesTell(lib, s, g)
    ensures |Items(s, d)| == |ShelfAt(g, d).views| + if ShelfAt(g, d).open.Some? then 1 else 0
  {
    hide Holds, Tiled, H.Tells, ViewRecs;
    assert Tells(lib, SealedIn(s, d), OpenIn(s, d), ShelfAt(g, d));
  }

  // --- Reading a stream ---

  /** What a filter of a directory's durable records keeps. */
  function WantedIn(g: Shelves, which: Which, sel: Select, d: Dir): seq<Hit> {
    if which.Every? || which.stream == d.stream then Pick(sel, Hits(0, ShelfAt(g, d).Durable())) else []
  }

  /** The parts of a directory stand in order of their offsets already. */
  lemma {:induction false} ItemsAscend(lib: Library, s: State, g: Shelves, d: Dir)
    requires ShelvesTell(lib, s, g) && AllServed(lib, s, g)
    ensures Ascending(Items(s, d)) && forall i :: 0 <= i < |Items(s, d)| ==> FirstOffset(Items(s, d)[i]).Some?
  {
    hide ShelvesTell, AllServed, Items, ItemTells, OffsetAt;
    var (items, sh) := (Items(s, d), ShelfAt(g, d));
    ItemsAreOf(s, d);
    forall i | 0 <= i < |items| ensures i <= |sh.views| && FirstOffset(items[i]) == Some(OffsetAt(sh, i)) {
      ItemsTell(lib, s, g, d, i);
      StartIs(lib, items[i], sh);
    }
    forall i, j | 0 <= i <= j < |items| ensures FirstOf(items[i]) <= FirstOf(items[j]) {
      assert FirstOffset(items[i]) == Some(OffsetAt(sh, i)) && FirstOffset(items[j]) == Some(OffsetAt(sh, j));
      OffsetsAscend(sh, i, j);
    }
  }

  lemma {:induction false} StartIs(lib: Library, item: Item, sh: Shelf)
    requires ItemTells(lib, item, sh)
    ensures item.path.number <= |sh.views| && FirstOffset(item) == Some(OffsetAt(sh, item.path.number))
  {
    hide WellFormed, FileOf, After, W.EncodeRows, PartReader.TellsTheEnd, H.AllReadable, RecsOf, H.Serves,
      H.LoadedBlocks, ViewRecs, Footer.Encode, DecodePartHeader;
    var (origin, chunks) := PartAt(sh, item.path.number).value;
    PartReader.HeaderIsRead(lib, origin, chunks, FootAt(sh, item.path.number));
  }

  lemma {:induction false} OffsetsAscend(sh: Shelf, i: nat, j: nat)
    requires i <= j <= |sh.views|
    ensures OffsetAt(sh, i) <= OffsetAt(sh, j)
    decreases j - i
  {
    hide OffsetAt, RecsAt;
    if i < j {
      OffsetMoves(sh, i);
      OffsetsAscend(sh, i + 1, j);
    }
  }

  lemma {:induction false} SortedHas(items: seq<Item>, y: Item)
    requires y in Sorted(items)
    ensures y in items
    decreases |items|
  {
    hide Insert, FirstOffset;
    if items != [] {
      var (init, x) := (items[..|items| - 1], items[|items| - 1]);
      assert items == init + [x];
      SortedAscends(init);
      if FirstOffset(x).Some? { InsertAscends(Sorted(init), x); }
      if y in Sorted(init) { SortedHas(init, y); }
    }
  }

  lemma {:induction false} SortedKeeps(items: seq<Item>, y: Item)
    requires y in items && FirstOffset(y).Some?
    ensures y in Sorted(items)
    decreases |items|
  {
    hide Insert, FirstOffset;
    var (init, x) := (items[..|items| - 1], items[|items| - 1]);
    assert items == init + [x];
    SortedAscends(init);
    if FirstOffset(x).Some? { InsertAscends(Sorted(init), x); }
    if y in init { SortedKeeps(init, y); }
  }

  /** The parts a read walks: all with a readable header, by the offsets their headers say they start at. */
  lemma {:induction false} SortedIsByOffset(items: seq<Item>)
    ensures forall y :: y in Sorted(items) <==> y in items && FirstOffset(y).Some?
    ensures forall i, j :: 0 <= i <= j < |Sorted(items)| ==>
      FirstOffset(Sorted(items)[i]).Some? && FirstOffset(Sorted(items)[j]).Some?
      && FirstOffset(Sorted(items)[i]).value <= FirstOffset(Sorted(items)[j]).value
  {
    hide Insert, FirstOffset, Sorted;
    forall y ensures y in Sorted(items) <==> y in items && FirstOffset(y).Some? {
      if y in Sorted(items) {
        SortedHas(items, y);
        SortedReads(items, y);
      } else if y in items && FirstOffset(y).Some? {
        SortedKeeps(items, y);
      }
    }
    SortedAscends(items);
    assert forall i :: 0 <= i < |Sorted(items)| ==> Sorted(items)[i] in Sorted(items);
  }

  lemma {:induction false} SortedReads(items: seq<Item>, y: Item)
    requires y in Sorted(items)
    ensures FirstOffset(y).Some?
    decreases |items|
  {
    hide Insert, FirstOffset;
    if items != [] {
      var (init, x) := (items[..|items| - 1], items[|items| - 1]);
      SortedAscends(init);
      if FirstOffset(x).Some? { InsertAscends(Sorted(init), x); }
      if y in Sorted(init) { SortedReads(init, y); }
    }
  }

  lemma {:induction false} ListedTell(lib: Library, s: State, g: Shelves, dirs: seq<Dir>, y: Item)
    requires ShelvesTell(lib, s, g) && AllServed(lib, s, g) && y in AllItems(s, dirs)
    ensures ItemTells(lib, y, ShelfAt(g, y.path.dir)) && FirstOffset(y).Some?
    decreases |dirs|
  {
    hide ShelvesTell, AllServed, Items, ItemTells, FirstOffset;
    var (init, d) := (dirs[..|dirs| - 1], dirs[|dirs| - 1]);
    if y in AllItems(s, init) {
      ListedTell(lib, s, g, init, y);
    } else {
      var j :| 0 <= j < |Items(s, d)| && Items(s, d)[j] == y;
      ItemsAreOf(s, d);
      ItemsTell(lib, s, g, d, j);
      StartIs(lib, y, ShelfAt(g, d));
    }
  }

  lemma {:induction false} SortedTell(lib: Library, s: State, g: Shelves, dirs: seq<Dir>)
    requires ShelvesTell(lib, s, g) && AllServed(lib, s, g)
    ensures AllTell(lib, g, Sorted(AllItems(s, dirs)))
  {
    hide ShelvesTell, AllServed, ItemTells, Sorted, AllItems;
    var items := Sorted(AllItems(s, dirs));
    forall i | 0 <= i < |items| ensures ItemTells(lib, items[i], ShelfAt(g, items[i].path.dir)) {
      SortedHas(AllItems(s, dirs), items[i]);
      ListedTell(lib, s, g, dirs, items[i]);
    }
  }

  // --- Many directories: what is found is what is wanted, in some order ---

  /** What a filter of the durable records of every listed directory keeps, counted. */
  function Wanted(g: Shelves, which: Which, sel: Select, dirs: seq<Dir>): multiset<Hit> {
    if dirs == [] then multiset{}
    else Wanted(g, which, sel, dirs[..|dirs| - 1]) + multiset(WantedIn(g, which, sel, dirs[|dirs| - 1]))
  }

  lemma {:induction false} InsertFinds(g: Shelves, which: Which, sel: Select, items: seq<Item>, x: Item)
    ensures multiset(Found(g, which, sel, Insert(items, x))) == multiset(Found(g, which, sel, items)) + multiset(FoundIn(g, which, sel, x))
    decreases |items|
  {
    hide Found, FoundIn, FirstOf;
    if items == [] || FirstOf(items[|items| - 1]) <= FirstOf(x) {
      FoundJoins(g, which, sel, items, [x]);
      FoundOne(g, which, sel, x);
    } else {
      var (init, last) := (items[..|items| - 1], items[|items| - 1]);
      assert items == init + [last];
      InsertFinds(g, which, sel, init, x);
      FoundJoins(g, which, sel, init, [last]);
      FoundJoins(g, which, sel, Insert(init, x), [last]);
    }
  }

  lemma {:induction false} SortingFinds(g: Shelves, which: Which, sel: Select, items: seq<Item>)
    requires forall y :: y in items ==> FirstOffset(y).Some?
    ensures multiset(Found(g, which, sel, Sorted(items))) == multiset(Found(g, which, sel, items))
    decreases |items|
  {
    hide Found, FoundIn, Insert, FirstOffset;
    if items != [] {
      var (init, x) := (items[..|items| - 1], items[|items| - 1]);
      assert items == init + [x];
      SortingFinds(g, which, sel, init);
      InsertFinds(g, which, sel, Sorted(init), x);
      FoundJoins(g, which, sel, init, [x]);
      FoundOne(g, which, sel, x);
    }
  }

  lemma {:induction false} ListingFinds(lib: Library, s: State, g: Shelves, dirs: seq<Dir>, which: Which, sel: Select)
    requires ShelvesTell(lib, s, g) && AllServed(lib, s, g)
    ensures multiset(Found(g, which, sel, AllItems(s, dirs))) == Wanted(g, which, sel, dirs)
    decreases |dirs|
  {
    hide ShelvesTell, AllServed, Items, FoundIn, WantedIn;
    if dirs != [] {
      var (init, d) := (dirs[..|dirs| - 1], dirs[|dirs| - 1]);
      ListingFinds(lib, s, g, init, which, sel);
      FoundJoins(g, which, sel, AllItems(s, init), Items(s, d));
      FoundInAll(lib, s, g, d, which, sel);
    }
  }

  lemma {:induction false} PlaceKeeps(rows: seq<Hit>, x: Hit)
    requires forall i, j :: 0 <= i <= j < |rows| ==> Before(rows[i], rows[j])
    ensures var all := Place(rows, x);
      multiset(all) == multiset(rows) + multiset{x} && forall i, j :: 0 <= i <= j < |all| ==> Before(all[i], all[j])
    decreases |rows|
  {
    if rows != [] && !Before(rows[|rows| - 1], x) {
      var (init, last) := (rows[..|rows| - 1], rows[|rows| - 1]);
      assert rows == init + [last];
      PlaceKeeps(init, x);
      var more := Place(init, x);
      forall i | 0 <= i < |more| ensures Before(more[i], last) {
        assert more[i] in multiset(init) + multiset{x};
        assert more[i] in init || more[i] == x;
      }
    }
  }

  lemma {:induction false} InTimeKeeps(rows: seq<Hit>)
    ensures var all := InTime(rows);
      multiset(all) == multiset(rows) && forall i, j :: 0 <= i <= j < |all| ==> Before(all[i], all[j])
    decreases |rows|
  {
    hide Place, Before;
    if rows != [] {
      InTimeKeeps(rows[..|rows| - 1]);
      PlaceKeeps(InTime(rows[..|rows| - 1]), rows[|rows| - 1]);
      assert rows == rows[..|rows| - 1] + [rows[|rows| - 1]];
    }
  }

  /** The first `max` of what is wanted, walking the parts in the order of the offsets they start at; of many streams put
      in the order of time afterwards. */
  function FirstFound(g: Shelves, which: Which, sel: Select, items: seq<Item>, max: nat): seq<Hit> {
    var rows := Fill([], Found(g, which, sel, items), max);
    if which.Every? then InTime(rows) else rows
  }

  /** A read, of one stream or of all, over any number of buckets, by offset or by time: the wanted durable records of the
      parts in the order of their first offsets, the first `max` of them, through however old a cache. Short of `max` it
      is exactly what filtering every listed directory keeps, and over all streams it is in the order of time. */
  lemma {:induction false} LogReadsAreExact(
    lib: Library, s: State, g: Shelves, dirs: seq<Dir>, which: Which, sel: Select, max: nat, cache: Cache)
    requires Lawful(lib) && ShelvesTell(lib, s, g) && Roomy(s) && ViewsFit(g) && CacheTells(lib, g, cache)
    ensures var (r, cache') := ReadStreams(lib, s, dirs, which, sel, max, cache);
      && r == Ok(FirstFound(g, which, sel, Sorted(AllItems(s, dirs)), max)) && CacheTells(lib, g, cache')
      && (|r.value| < max ==> multiset(r.value) == Wanted(g, which, sel, dirs))
      && |r.value| == (if |Wanted(g, which, sel, dirs)| < max then |Wanted(g, which, sel, dirs)| else max)
      && (which.Every? ==> TimeOrdered(r.value))
  {
    hide TimeOrdered, ShelvesTell, AllServed, CacheTells, Lawful, Found, AllItems, Sorted, ReadItems, Roomy, ViewsFit,
      AllTell,
      InTime, Before, Wanted, FirstOffset, Fill;
    WithinLimitsServe(lib, s, g);
    var items := Sorted(AllItems(s, dirs));
    SortedTell(lib, s, g, dirs);
    ReadingItems(lib, g, items, which, sel, max, cache, []);
    forall y | y in AllItems(s, dirs) ensures FirstOffset(y).Some? { ListedTell(lib, s, g, dirs, y); }
    SortingFinds(g, which, sel, AllItems(s, dirs));
    ListingFinds(lib, s, g, dirs, which, sel);
    FilledUp(Found(g, which, sel, items), max);
    InTimeKeeps(Fill([], Found(g, which, sel, items), max));
    OrderedByTime(InTime(Fill([], Found(g, which, sel, items), max)));
    var rows := Fill([], Found(g, which, sel, items), max);
    assert |multiset(InTime(rows))| == |multiset(rows)|;
  }

  /** Time never goes back from row to row, nor does the offset while the time stays. */
  predicate TimeOrdered(rows: seq<Hit>) {
    forall i, j :: 0 <= i <= j < |rows| ==> rows[i].0 < rows[j].0 || (rows[i].0 == rows[j].0 && rows[i].1 <= rows[j].1)
  }

  lemma OrderedByTime(rows: seq<Hit>)
    ensures (forall i, j :: 0 <= i <= j < |rows| ==> Before(rows[i], rows[j])) <==> TimeOrdered(rows)
  {
    if forall i, j :: 0 <= i <= j < |rows| ==> Before(rows[i], rows[j]) {
      forall i, j | 0 <= i <= j < |rows|
        ensures rows[i].0 < rows[j].0 || (rows[i].0 == rows[j].0 && rows[i].1 <= rows[j].1)
      {
        assert Before(rows[i], rows[j]);
      }
    }
  }

  /** The rows with one time and offset. */
  function At(rows: seq<Hit>, ts: u64, offset: nat): seq<Hit> {
    if rows == [] then []
    else At(rows[..|rows| - 1], ts, offset)
         + if rows[|rows| - 1].0 == ts && rows[|rows| - 1].1 == offset then [rows[|rows| - 1]] else []
  }

  lemma {:induction false} PlaceIsStable(rows: seq<Hit>, x: Hit, ts: u64, offset: nat)
    ensures At(Place(rows, x), ts, offset) == At(rows, ts, offset) + if x.0 == ts && x.1 == offset then [x] else []
    decreases |rows|
  {
    if rows == [] || Before(rows[|rows| - 1], x) {
      assert (rows + [x])[..|rows|] == rows;
    } else {
      var (init, last) := (rows[..|rows| - 1], rows[|rows| - 1]);
      PlaceIsStable(init, x, ts, offset);
      var more := Place(init, x);
      assert (more + [last])[..|more|] == more;
      assert At(init, ts, offset) + [] == At(init, ts, offset);
    }
  }

  /** Rows of one time and offset stay in the order they were found in. */
  lemma {:induction false} InTimeIsStable(rows: seq<Hit>, ts: u64, offset: nat)
    ensures At(InTime(rows), ts, offset) == At(rows, ts, offset)
    decreases |rows|
  {
    hide Place;
    if rows != [] {
      InTimeIsStable(rows[..|rows| - 1], ts, offset);
      PlaceIsStable(InTime(rows[..|rows| - 1]), rows[|rows| - 1], ts, offset);
    }
  }

  /** No more than 48 readers are ever kept. */
  lemma {:induction false} FewAreKept(lib: Library, items: seq<Item>, which: Which, sel: Select, max: nat, cache: Cache,
      rows: seq<Hit>)
    requires |cache| <= 48
    ensures |ReadItems(lib, items, which, sel, max, cache, rows).1| <= 48
    decreases |items|
  {
    hide Read, Skips, Narrowed, PartReader.Open, Which.Covers;
    if items != [] && |rows| < max {
      var (item, rest) := (items[0], items[1..]);
      if !which.Covers(item) {
        FewAreKept(lib, rest, which, sel, max, cache, rows);
      } else {
        OneMoreKept(lib, item, cache);
        var (r, cache') := ReaderFor(lib, item, cache);
        hide ReaderFor;
        if r.Ok? {
          FewAreKept(lib, rest, which, sel, max, cache', rows);
          var read := Read(lib, r.value.(file := item.files.file), Narrowed(r.value, sel), max, rows);
          if read.Ok? { FewAreKept(lib, rest, which, sel, max, cache', read.value); }
        }
      }
    }
  }

  lemma OneMoreKept(lib: Library, item: Item, cache: Cache)
    requires |cache| <= 48
    ensures |ReaderFor(lib, item, cache).1| <= 48
  {
    hide PartReader.Open;
    var (f, kept) := (item.files, if |cache| >= CACHE_LIMIT then map[] else cache);
    var res := PartReader.Open(lib, f.file, Some(f.index), f.dictFile, !item.path.open);
    if res.Ok? { KeySize(kept, item.path, Cached(|f.file|, res.value)); }
  }

  lemma KeySize(m: Cache, p: Path, c: Cached)
    ensures |m[p := c]| <= |m| + 1
  {
    assert m[p := c].Keys == m.Keys + {p};
    assert |m.Keys| == |m| && |m[p := c].Keys| == |m[p := c]|;
  }

  lemma FilledUp(all: seq<Hit>, max: nat)
    ensures var rows := Fill([], all, max);
      |rows| == (if |all| < max then |all| else max) && (|rows| < max ==> rows == all)
  {
    assert [] + all == all;
  }

  /** A read of a stream that lies in one bucket returns the stream's durable records from the offset on, or in the
      span of time, the first `max` of them: over however many parts, open or sealed, through however old a cache. */
  lemma {:induction false} StreamReadsAreExact(
    lib: Library, s: State, g: Shelves, dirs: seq<Dir>, d: Dir, sel: Select, max: nat, cache: Cache)
    requires Lawful(lib) && ShelvesTell(lib, s, g) && Roomy(s) && ViewsFit(g) && CacheTells(lib, g, cache)
    requires NoRepeats(dirs) && d in dirs && forall i :: 0 <= i < |dirs| && dirs[i].stream == d.stream ==> dirs[i] == d
    ensures var (r, cache') := ReadStreams(lib, s, dirs, Of(d.stream), sel, max, cache);
      && r == Ok(Fill([], Pick(sel, Hits(0, ShelfAt(g, d).Durable())), max))
      && CacheTells(lib, g, cache')
  {
    hide ShelvesTell, AllServed, CacheTells, Items, Lawful, Fill, Pick, Hits, AllItems, Sorted, OfStream, ReadItems,
      Ascending, FirstOffset, Found, Shelf.Durable, NoRepeats, Roomy, ViewsFit, ReadStreams;
    LogReadsAreExact(lib, s, g, dirs, Of(d.stream), sel, max, cache);
    WithinLimitsServe(lib, s, g);
    var all := AllItems(s, dirs);
    FoundOfStream(g, d.stream, sel, Sorted(all));
    SortingKeepsStream(all, d.stream);
    StreamIsOneDir(s, dirs, d.stream, d);
    ItemsAscend(lib, s, g, d);
    SortedIsItself(Items(s, d));
    FoundInAll(lib, s, g, d, Of(d.stream), sel);
  }

  // --- Runs of a log that is read while it is written ---

  datatype Call = LogCall(op: Op) | ReadCall(dirs: seq<Dir>, which: Which, sel: Select, max: nat)

  /** The log with the readers it keeps. Sealing everything and retention throw them away. */
  datatype Kept = Kept(log: State, cache: Cache)

  function Answered(lib: Library, k: Settings, s: Kept, call: Call): Option<Kept>
    requires Usable(s.log)
  {
    match call
    case ReadCall(dirs, which, sel, max) => Some(s.(cache := ReadStreams(lib, s.log, dirs, which, sel, max, s.cache).1))
    case LogCall(op) =>
      match Step(lib, k, s.log, op)
      case None => None
      case Some(log) => Some(Kept(log, if op.SealOp? || op.RetainOp? then map[] else s.cache))
  }

  function LogOps(calls: seq<Call>): seq<Op> {
    if calls == [] then []
    else LogOps(calls[..|calls| - 1]) + match calls[|calls| - 1] case LogCall(op) => [op] case ReadCall(_, _, _, _) => []
  }

  predicate NoDictionaries(s: State) { forall d :: d in s.active ==> s.active[d].dict.None? }

  /** A log that writes no dictionaries is within the limits in every state of every run. */
  lemma {:induction false} PlainLogsAreRoomy(lib: Library, k: Settings, ops: seq<Op>, states: seq<State>, i: nat)
    requires IsRun(lib, k, ops, states) && !k.withDict && i < |states|
    ensures Roomy(states[i]) && NoDictionaries(states[i])
    decreases i
  {
    hide Step, Usable;
    if i > 0 {
      PlainLogsAreRoomy(lib, k, ops, states, i - 1);
      assert Usable(states[i - 1]) && Step(lib, k, states[i - 1], ops[i - 1]) == Some(states[i]);
      PlainStep(lib, k, states[i - 1], ops[i - 1]);
    }
  }

  lemma {:induction false} PlainStep(lib: Library, k: Settings, s: State, op: Op)
    requires Usable(s) && !k.withDict && NoDictionaries(s)
    ensures Step(lib, k, s, op).Some? ==> NoDictionaries(Step(lib, k, s, op).value)
  {
    match op {
      case AppendOp(raw, now, body, taken) => PlainAppend(lib, k, s, raw, now, body);
      case FlushOp =>
        hide W.Usable, W.Flushed;
        forall d | d in s.active { NoDictionaryStays(lib, k.writer, s.active[d]); }
      case SealOp =>
        hide W.Usable, W.Sealed;
      case RetainOp(ts) =>
        hide W.Usable, W.Sealed, BucketOf, Idle;
    }
  }

  lemma {:induction false} PlainAppend(lib: Library, k: Settings, s: State, raw: u64, now: u64, body: Body.Body)
    requires Usable(s) && !k.withDict && NoDictionaries(s)
    ensures var next := Append(lib, k, s, raw, now, body).1; next.Some? ==> NoDictionaries(next.value)
  {
    hide EnsurePart, W.Appended, W.Refuses, W.Usable, BucketOf, StreamOf, Clamped, NoDictionaries;
    if StreamOf(k, body).Some? {
      var ts := Clamped(s.lastTs, StreamOf(k, body).value, raw);
      var d := Dir(BucketOf(k, ts), StreamOf(k, body).value);
      PlainPart(lib, k, s, d, ts, now);
      var ready := EnsurePart(lib, k, s, d, ts, now);
      if ready.Some? {
        PlainAt(ready.value, d);
        NoDictionaryStaysOnAppend(lib, k.writer, ready.value.active[d], ts, body);
        var next := Append(lib, k, s, raw, now, body).1;
        if next.Some? { PlainWith(ready.value, d, W.Appended(lib, k.writer, ready.value.active[d], ts, body).1, next.value); }
      }
    }
  }

  lemma {:induction false} PlainPart(lib: Library, k: Settings, s: State, d: Dir, ts: u64, now: u64)
    requires Usable(s) && !k.withDict && NoDictionaries(s)
    ensures var ready := EnsurePart(lib, k, s, d, ts, now); ready.Some? ==> NoDictionaries(ready.value)
  {
    hide W.Sealed, W.Usable, NextOffset;
  }

  lemma PlainAt(s: State, d: Dir)
    requires NoDictionaries(s) && d in s.active
    ensures s.active[d].dict.None?
  {}

  lemma PlainWith(s: State, d: Dir, w: W.State, s': State)
    requires NoDictionaries(s) && w.dict.None? && s'.active == s.active[d := w]
    ensures NoDictionaries(s')
  {}

  lemma NoDictionaryStays(lib: Library, k: W.Config, w: W.State)
    requires W.Usable(w) && w.dict.None?
    ensures W.Flushed(lib, k, w).0.Ok? ==> W.Flushed(lib, k, w).1.dict.None?
  {
    hide Packed, W.HeaderOf, BlockHeader.Encode, IndexRow.Encode, WriteAt;
  }

  lemma {:induction false} NoDictionaryStaysOnAppend(lib: Library, k: W.Config, w: W.State, ts: u64, body: Body.Body)
    requires W.Usable(w) && w.dict.None?
    ensures W.Appended(lib, k, w, ts, body).0.Ok? || W.Refuses(lib, k, w, ts, body)
            ==> W.Appended(lib, k, w, ts, body).1.dict.None?
  {
    hide W.Flushed, RecordBytes, RecordFits, Delta;
    InlineLeavesNone(lib, k.dict, body);
    hide Body.Encode;
    var (enc, dict) := Body.Encode(lib, k.dict, w.dict, body);
    if enc.Some? && !W.Backwards(w, ts) && RecordFits(Delta(w.lastTs, ts), enc.value) {
      var full := W.Buffered(w.(dict := dict), ts, enc.value);
      if |full.block| >= k.blockBytes { NoDictionaryStays(lib, k, full); }
    }
  }

  lemma {:induction false} InlineLeavesNone(lib: Library, c: Dict.Config, body: Body.Body)
    ensures Body.Encode(lib, c, None, body).1.None?
    decreases |body|
  {
    hide Body.Inline;
    if body != [] { InlineLeavesNone(lib, c, body[1..]); }
  }

  /** The listing names every directory at most once, and one of the stream. */
  predicate Lists(dirs: seq<Dir>, stream: Stream, d: Dir) {
    && NoRepeats(dirs) && d in dirs && d.stream == stream
    && forall i :: 0 <= i < |dirs| && dirs[i].stream == stream ==> dirs[i] == d
  }

  /** A run in which no open dictionary ever passes its limits: 240 blocks, eight bytes of width, what its fields hold. */
  ghost predicate IsRunWithReads(lib: Library, k: Settings, calls: seq<Call>, states: seq<Kept>) {
    && |states| == |calls| + 1 && states[0] == Kept(NEW, map[])
    && forall i :: 0 <= i < |calls| ==>
         && Usable(states[i].log) && Roomy(states[i].log)
         && Answered(lib, k, states[i], calls[i]) == Some(states[i + 1])
  }

  lemma {:induction false} CallTells(lib: Library, k: Settings, s: Kept, g: Shelves, b: Book, call: Call)
      returns (g': Shelves)
    requires Lawful(lib) && Sound(lib, k, s.log, g, b) && CacheTells(lib, g, s.cache) && Usable(s.log)
    requires Roomy(s.log) && ViewsFit(g) && forall d: Dir :: |b.In(d)| + 1 < U64_END
    ensures var next := Answered(lib, k, s, call);
      next.Some? ==>
        && Sound(lib, k, next.value.log, g', if call.LogCall? then BookStep(k, b, call.op) else b)
        && CacheTells(lib, g', next.value.cache) && ViewsFit(g')
        && (if call.LogCall? then DiskGrows(k, call.op, b, g, g') else g' == g)
  {
    hide Usable, Lawful, Step, BookStep, ReadStreams, AllServed, ShelvesTell, Sound, FirstFound, Wanted, TimeOrdered,
      AllContinue, Roomy, ViewsFit,
      EntryTells, DiskGrows;
    g' := g;
    match call {
      case ReadCall(dirs, which, sel, max) =>
        SoundTells(lib, k, s.log, g, b);
        LogReadsAreExact(lib, s.log, g, dirs, which, sel, max, s.cache);
      case LogCall(op) =>
        g' := StepFiles(lib, k, s.log, g, b, op);
        if Step(lib, k, s.log, op).Some? && (op.AppendOp? || op.FlushOp?) { CacheStays(lib, g, g', s.cache); }
    }
  }

  lemma SoundTells(lib: Library, k: Settings, s: State, g: Shelves, b: Book)
    requires Sound(lib, k, s, g, b)
    ensures ShelvesTell(lib, s, g)
  {
    hide ShelvesTell, Agrees, Orderly;
  }

  lemma ListsOne(dirs: seq<Dir>, stream: Stream, d: Dir)
    requires Lists(dirs, stream, d)
    ensures NoRepeats(dirs) && d in dirs && d.stream == stream
    ensures forall i :: 0 <= i < |dirs| && dirs[i].stream == d.stream ==> dirs[i] == d
  {}

  lemma {:induction false} RunsWithReadsTell(lib: Library, k: Settings, calls: seq<Call>, states: seq<Kept>, i: nat)
      returns (g: Shelves)
    requires Lawful(lib) && IsRunWithReads(lib, k, calls, states) && i < |states| && |calls| + 1 < U64_END
    ensures Sound(lib, k, states[i].log, g, BookOf(k, LogOps(calls[..i]))) && CacheTells(lib, g, states[i].cache)
    ensures ViewsFit(g) && Reaches(k, LogOps(calls[..i]), g)
    decreases i
  {
    hide Sound, Answered, Usable, BookStep, Lawful, EntryTells, Roomy, ViewsFit, Reaches, DiskGrows;
    if i == 0 {
      g := map[];
      NothingReached(k);
      NewIsSound(lib, k);
    } else {
      var g0 := RunsWithReadsTell(lib, k, calls, states, i - 1);
      var (before, call) := (calls[..i - 1], calls[i - 1]);
      assert calls[..i][..i - 1] == before && calls[..i][i - 1] == call;
      var (ops, b) := (LogOps(before), BookOf(k, LogOps(before)));
      OpsAreFewer(before);
      forall d: Dir ensures |b.In(d)| + 1 < U64_END { BooksAreSmall(k, ops, d); }
      assert Answered(lib, k, states[i - 1], call) == Some(states[i]);
      g := CallTells(lib, k, states[i - 1], g0, b, call);
      if call.LogCall? {
        assert (ops + [call.op])[..|ops|] == ops;
        FloorHolds(k, ops, call.op, g0, g);
      } else {
        assert ops + [] == ops;
      }
    }
  }

  lemma {:induction false} OpsAreFewer(calls: seq<Call>)
    ensures |LogOps(calls)| <= |calls|
    decreases |calls|
  {
    if calls != [] { OpsAreFewer(calls[..|calls| - 1]); }
  }

  lemma DurableIsPrefix(sh: Shelf)
    ensures sh.Durable() <= sh.Records()
  {
    hide ViewRecs, RecsOf;
    if sh.open.Some? {
      var h := sh.open.value;
      assert sh.Records() == ViewRecs(sh.views) + RecsOf(h.chunks) + h.pending;
    }
  }

  /** In every run of appends, flushes, seals, retention and reads, whichever records are refused, each read returns the
      first `max` of the wanted durable records, and short of `max` all of them; a read of a stream in one bucket returns
      what filtering that bucket's records returns. Durable are the first records the log took there, at least all there
      were at the last flush. */
  lemma {:induction false} ReadsInRunsAreExact(lib: Library, k: Settings, calls: seq<Call>, states: seq<Kept>, i: nat)
      returns (g: Shelves)
    requires Lawful(lib) && IsRunWithReads(lib, k, calls, states) && i < |calls| && |calls| + 1 < U64_END
    requires calls[i].ReadCall?
    ensures var ReadCall(dirs, which, sel, max) := calls[i];
      var r := ReadStreams(lib, states[i].log, dirs, which, sel, max, states[i].cache).0;
      && r == Ok(FirstFound(g, which, sel, Sorted(AllItems(states[i].log, dirs)), max))
      && (|r.value| < max ==> multiset(r.value) == Wanted(g, which, sel, dirs))
      && (which.Every? ==> TimeOrdered(r.value))
      && (forall d | which.Of? && Lists(dirs, which.stream, d) ::
            r == Ok(Fill([], Pick(sel, Hits(0, ShelfAt(g, d).Durable())), max)))
    ensures forall d: Dir ::
      && Plain(ShelfAt(g, d).Durable()) <= BookOf(k, LogOps(calls[..i])).In(d)
      && Floor(k, LogOps(calls[..i]), d) <= |ShelfAt(g, d).Durable()|
  {
    hide Answered, Lawful, ReadStreams, AllServed, ShelvesTell, Orderly, Lists, CacheTells, Fill, Pick, Hits, Usable,
      Shelf.Records, Shelf.Durable, BookOf, LogOps, Floor, Roomy, ViewsFit, FirstFound, Wanted, Sorted, AllItems, TimeOrdered;
    g := RunsWithReadsTell(lib, k, calls, states, i);
    var ReadCall(dirs, which, sel, max) := calls[i];
    var (s, cache) := (states[i].log, states[i].cache);
    LogReadsAreExact(lib, s, g, dirs, which, sel, max, cache);
    forall d | which.Of? && Lists(dirs, which.stream, d)
      ensures ReadStreams(lib, s, dirs, which, sel, max, cache).0 == Ok(Fill([], Pick(sel, Hits(0, ShelfAt(g, d).Durable())), max))
    {
      ListsOne(dirs, which.stream, d);
      StreamReadsAreExact(lib, s, g, dirs, d, sel, max, cache);
    }
    forall d: Dir
      ensures Plain(ShelfAt(g, d).Durable()) <= BookOf(k, LogOps(calls[..i])).In(d)
      ensures Floor(k, LogOps(calls[..i]), d) <= |ShelfAt(g, d).Durable()|
    {
      DurableIsPrefix(ShelfAt(g, d));
      assert Plain(ShelfAt(g, d).Records()) == BookOf(k, LogOps(calls[..i])).In(d);
    }
  }
}
