/** One directory of a log: sealed parts, perhaps an open one, and what they hold together. */
module Shelf {
  import opened Bytes
  import opened Foreign
  import opened Format
  import opened Part
  import opened Recovery
  import Body
  import Dict
  import DictRoom
  import H = History
  import PartReader
  import W = Writer

  /** A part's bytes on disk: the part, the index beside it and the dictionary beside it. */
  datatype Files = Files(file: bytes, index: bytes, dictFile: Option<bytes>)

  function FilesOf(w: W.State): Files { Files(w.file, w.index, PartReader.FileOfDict(w.dict)) }

  /** What a sealed part says. `mark` is what its records refer to, `dict` what its dictionary's file holds. */
  datatype View = View(origin: PartHeader, chunks: seq<Chunk>, mark: Option<seq<Dict.Block>>, dict: Option<seq<Dict.Block>>,
      footer: Footer)

  function ViewRecs(views: seq<View>): seq<Rec> {
    if views == [] then [] else ViewRecs(views[..|views| - 1]) + RecsOf(views[|views| - 1].chunks)
  }

  /** What a directory says: its sealed parts in order of their numbers, then the open one's history. */
  datatype Shelf = Shelf(views: seq<View>, open: Option<H.History>) {
    function Records(): seq<Rec> { ViewRecs(views) + if open.Some? then open.value.Records() else [] }

    function Durable(): seq<Rec> { ViewRecs(views) + if open.Some? then RecsOf(open.value.chunks) else [] }
  }

  const EMPTY: Shelf := Shelf([], None)

  ghost predicate Holds(lib: Library, f: Files, v: View) {
    && WellFormed(lib, v.origin, v.chunks)
    && f.file == FileOf(lib, v.origin, v.chunks) + v.footer.Encode()
    && f.index == INDEX_HEADER + W.EncodeRows(After(lib, NoBlocks(v.origin), v.chunks).rows)
    && PartReader.TellsTheEnd(v.footer, v.chunks)
    && H.AllReadable(RecsOf(v.chunks), v.mark) && DictHolds(lib, f.dictFile, v.mark, v.dict)
  }

  /** The dictionary beside a sealed part: its file is the image of `blocks`, and they hold what the records refer to. */
  ghost predicate DictHolds(lib: Library, file: Option<bytes>, mark: Option<seq<Dict.Block>>,
      blocks: Option<seq<Dict.Block>>) {
    && (mark.Some? <==> file.Some?) && (blocks.Some? <==> file.Some?)
    && (file.Some? ==>
          && file.value == Dict.Image(lib, blocks.value, |blocks.value|) && Dict.Placed(lib, blocks.value, |blocks.value|)
          && Dict.Extends(mark.value, blocks.value))
  }

  /** Every sealed dictionary is within its limits. */
  predicate ShelfFits(sh: Shelf) {
    forall i :: 0 <= i < |sh.views| && sh.views[i].dict.Some? ==> DictRoom.BlocksFit(sh.views[i].dict.value)
  }

  /** Every part starts at the offset where the one before it ended, the first at zero. */
  ghost predicate Tiled(views: seq<View>) {
    forall i :: 0 <= i < |views| ==> views[i].origin.firstOffset == |ViewRecs(views[..i])|
  }

  ghost predicate AllHold(lib: Library, sealed: seq<Files>, views: seq<View>) {
    |sealed| == |views| && forall i :: 0 <= i < |sealed| ==> Holds(lib, sealed[i], views[i])
  }

  ghost predicate OpenTells(lib: Library, open: Option<W.State>, sh: Shelf) {
    && open.Some? == sh.open.Some?
    && (open.Some? ==>
          && H.Tells(lib, open.value, sh.open.value) && sh.open.value.origin.firstOffset == |ViewRecs(sh.views)|
          && DictRoom.Tight(open.value.dict))
  }

  ghost predicate Tells(lib: Library, sealed: seq<Files>, open: Option<W.State>, sh: Shelf) {
    AllHold(lib, sealed, sh.views) && Tiled(sh.views) && OpenTells(lib, open, sh)
  }

  /** Some record of the directory has this offset: its part's first one plus its place in the part. */
  ghost predicate HasOffset(sh: Shelf, offset: nat) {
    AnyHas(sh.views, offset) || (sh.open.Some? && PartHas(sh.open.value.origin, sh.open.value.Records(), offset))
  }

  ghost predicate AnyHas(views: seq<View>, offset: nat) {
    exists i :: 0 <= i < |views| && PartHas(views[i].origin, RecsOf(views[i].chunks), offset)
  }

  predicate PartHas(origin: PartHeader, recs: seq<Rec>, offset: nat) {
    exists j :: 0 <= j < |recs| && offset == OffsetAt(origin, recs, j)
  }

  function OffsetAt(origin: PartHeader, recs: seq<Rec>, j: nat): nat { origin.firstOffset + j }

  lemma PartHasIs(origin: PartHeader, recs: seq<Rec>, offset: nat)
    ensures PartHas(origin, recs, offset) <==> origin.firstOffset <= offset < origin.firstOffset + |recs|
  {
    if origin.firstOffset <= offset < origin.firstOffset + |recs| {
      assert offset == OffsetAt(origin, recs, offset - origin.firstOffset);
    }
  }

  lemma AnyHasSnoc(views: seq<View>, v: View, offset: nat)
    ensures AnyHas(views + [v], offset) <==> AnyHas(views, offset) || PartHas(v.origin, RecsOf(v.chunks), offset)
  {
    hide PartHas, RecsOf;
    assert (views + [v])[|views|] == v;
    forall i | 0 <= i < |views| && PartHas(views[i].origin, RecsOf(views[i].chunks), offset) ensures AnyHas(views + [v], offset) {
      assert (views + [v])[i] == views[i];
    }
  }

  lemma TiledBefore(views: seq<View>, v: View)
    requires Tiled(views + [v])
    ensures Tiled(views) && v.origin.firstOffset == |ViewRecs(views)|
  {
    hide ViewRecs;
    assert (views + [v])[|views|] == v && (views + [v])[..|views|] == views;
    forall i | 0 <= i < |views| ensures views[i].origin.firstOffset == |ViewRecs(views[..i])| {
      assert (views + [v])[i] == views[i] && (views + [v])[..i] == views[..i];
    }
  }

  lemma {:induction false} ViewsHave(views: seq<View>, offset: nat)
    requires Tiled(views)
    ensures AnyHas(views, offset) <==> offset < |ViewRecs(views)|
    decreases |views|
  {
    hide PartHas, RecsOf, Tiled;
    if views != [] {
      var (init, v) := (views[..|views| - 1], views[|views| - 1]);
      assert views == init + [v];
      hide AnyHas;
      TiledBefore(init, v);
      ViewsHave(init, offset);
      AnyHasSnoc(init, v, offset);
      PartHasIs(v.origin, RecsOf(v.chunks), offset);
      assert ViewRecs(views) == ViewRecs(init) + RecsOf(v.chunks);
    }
  }

  /** The offsets of a directory's records are exactly those below their number. */
  lemma {:induction false} OffsetsAre(lib: Library, sealed: seq<Files>, open: Option<W.State>, sh: Shelf, offset: nat)
    requires Tells(lib, sealed, open, sh)
    ensures HasOffset(sh, offset) <==> offset < |sh.Records()|
  {
    hide AllHold, AnyHas, H.Tells, PartHas, RecsOf, ViewRecs, Tiled;
    ViewsHave(sh.views, offset);
    if sh.open.Some? { PartHasIs(sh.open.value.origin, sh.open.value.Records(), offset); }
  }

  lemma {:induction false} ViewsSnoc(views: seq<View>, v: View)
    ensures ViewRecs(views + [v]) == ViewRecs(views) + RecsOf(v.chunks)
  {
    assert (views + [v])[..|views|] == views;
  }

  lemma {:induction false} TiledSnoc(views: seq<View>, v: View)
    requires Tiled(views) && v.origin.firstOffset == |ViewRecs(views)|
    ensures Tiled(views + [v])
  {
    hide ViewRecs;
    forall i | 0 <= i < |views| + 1 ensures (views + [v])[i].origin.firstOffset == |ViewRecs((views + [v])[..i])| {
      assert (views + [v])[..i] == views[..i];
      if i == |views| { assert views[..i] == views; }
    }
  }

  lemma AllHoldSnoc(lib: Library, sealed: seq<Files>, views: seq<View>, f: Files, v: View)
    requires AllHold(lib, sealed, views) && Holds(lib, f, v)
    ensures AllHold(lib, sealed + [f], views + [v])
  {
    hide Holds;
  }

  /** The next offset a writer will give is the number of records its directory holds. */
  lemma {:induction false} NextOffsetCounts(lib: Library, w: W.State, sh: Shelf)
    requires OpenTells(lib, Some(w), sh)
    ensures w.nextOffset == |sh.Records()| < U64_END
  {
    hide H.FileTells, H.DictTells, ViewRecs, RecsOf, After, WellFormed, RecsFit, Monotone, RawOf;
    var h := sh.open.value;
    H.NextOffsetIs(lib, h.origin, h.chunks);
    PartReader.CountIsLength(h.chunks);
  }

  /** The writer's last timestamp is its last record's. */
  lemma {:induction false} LastTsIs(lib: Library, w: W.State, h: H.History)
    requires Lawful(lib) && H.Tells(lib, w, h)
    ensures w.lastTs == EndTs(None, h.Records())
  {
    hide H.DictTells, RecsOf, RecsFit, Monotone, RawOf, FileOf, W.EncodeRows, Lawful, PartHeader.Encode, EndAll,
      RowsOf, Raws, Count, BlocksOf, AllFit;
    EndOfRecs(lib, h.origin, h.chunks);
  }

  lemma {:induction false} EndOfRecs(lib: Library, origin: PartHeader, chunks: seq<Chunk>)
    requires Lawful(lib) && WellFormed(lib, origin, chunks)
    ensures EndAll(None, chunks) == EndTs(None, RecsOf(chunks))
  {
    hide WellFormed, EndAll, RecsOf;
    if chunks != [] {
      PartReader.LastRow(lib, origin, chunks, []);
      PartReader.EndIs(chunks);
    } else {
      NothingEnds();
    }
  }

  lemma NothingEnds()
    ensures EndAll(None, []) == None && RecsOf([]) == []
  {}

  // --- What a step makes of a directory ---

  /** Parts only grow: sealed ones are as they were, the open one has the same origin and its chunks first, whether it
      is still open or sealed by now. */
  ghost predicate Continues(sh: Shelf, later: Shelf) {
    && sh.views <= later.views
    && (sh.open.Some? ==>
          if |later.views| > |sh.views| then
            later.views[|sh.views|].origin == sh.open.value.origin && sh.open.value.chunks <= later.views[|sh.views|].chunks
          else later.open.Some? && later.open.value.origin == sh.open.value.origin && sh.open.value.chunks <= later.open.value.chunks)
  }

  lemma ContinuesIsTransitive(a: Shelf, b: Shelf, c: Shelf)
    requires Continues(a, b) && Continues(b, c)
    ensures Continues(a, c)
  {
    if a.open.Some? && |b.views| > |a.views| { assert c.views[|a.views|] == b.views[|a.views|]; }
  }

  lemma {:induction false} HistoryContinues(lib: Library, k: W.Config, w: W.State, h: H.History)
    requires W.Usable(w)
    ensures H.FlushedHistory(lib, k, w, h).origin == h.origin && h.chunks <= H.FlushedHistory(lib, k, w, h).chunks
  {
    hide W.FlushedDict, W.Usable;
  }

  lemma {:induction false} AppendContinues(lib: Library, k: W.Config, w: W.State, h: H.History, ts: u64,
      body: Body.Body)
    requires W.Usable(w) && Body.Encode(lib, k.dict, w.dict, body).0.Some?
    ensures var h' := H.AppendedHistory(lib, k, w, h, ts, body); h'.origin == h.origin && h.chunks <= h'.chunks
  {
    hide Body.Encode, W.FlushedDict, RecordBytes, Delta;
  }

  /** The blocks in the dictionary's file once the writer has finished. */
  function FinishedBlocks(dict: Option<Dict.State>): Option<seq<Dict.Block>>
    requires Body.Ready(dict)
  {
    if dict.None? then None else Some(DictRoom.Used(dict.value))
  }

  function ViewOf(lib: Library, k: W.Config, w: W.State, h: H.History): View
    requires W.Usable(w) && W.Sealed(lib, k, w).0.Ok?
  {
    var (all, sealed) := (H.FlushedHistory(lib, k, w, h), W.Sealed(lib, k, w));
    View(all.origin, all.chunks, all.mark, FinishedBlocks(sealed.1.dict), sealed.0.value)
  }

  function Sealing(lib: Library, k: W.Config, w: W.State, sh: Shelf): Shelf
    requires W.Usable(w) && sh.open.Some? && W.Sealed(lib, k, w).0.Ok?
  {
    Shelf(sh.views + [ViewOf(lib, k, w, sh.open.value)], None)
  }

  lemma TotalsAre(lib: Library, header: PartHeader, chunks: seq<Chunk>)
    ensures var t := After(lib, NoBlocks(header), chunks); t.records == Count(chunks) && t.lastTs == EndAll(None, chunks)
  {
    hide Count, BlocksOf, Raws, RowsOf, EndAll;
  }

  lemma {:induction false} FooterTells(lib: Library, s: W.State, all: H.History)
    requires Lawful(lib) && H.Tells(lib, s, all)
    ensures var t := all.Durable(lib);
      PartReader.TellsTheEnd(Footer(Low64(t.records), if t.lastTs.Some? then t.lastTs.value else 0, Low32(t.blocks), lib.hash(t.digest)), all.chunks)
  {
    hide *;
    H.NextOffsetIs(lib, all.origin, all.chunks);
    BufferIsBelow(lib, s, all);
    TotalsAre(lib, all.origin, all.chunks);
    WellFormedIs(lib, s, all);
    EndIsSome(lib, all.origin, all.chunks);
    FooterIs(all.chunks, all.Durable(lib).records, all.Durable(lib).lastTs, Low32(all.Durable(lib).blocks), lib.hash(all.Durable(lib).digest));
  }

  lemma FooterIs(chunks: seq<Chunk>, records: nat, lastTs: Option<u64>, blocks: u32, digest: u64)
    requires records == Count(chunks) < U64_END && lastTs == EndAll(None, chunks) && (chunks != [] ==> lastTs.Some?)
    ensures PartReader.TellsTheEnd(Footer(Low64(records), if lastTs.Some? then lastTs.value else 0, blocks, digest), chunks)
  {
    hide Count, EndAll;
  }

  lemma BufferIsBelow(lib: Library, s: W.State, h: H.History)
    requires H.Tells(lib, s, h)
    ensures After(lib, NoBlocks(h.origin), h.chunks) == h.Durable(lib) && h.Durable(lib).nextOffset < U64_END
  {
    hide H.FileTells, H.BufferTells, H.DictTells, After;
    H.DurableIsBelow(lib, s, h);
  }

  lemma {:induction false} EndIsSome(lib: Library, origin: PartHeader, chunks: seq<Chunk>)
    requires Lawful(lib) && WellFormed(lib, origin, chunks)
    ensures chunks != [] ==> EndAll(None, chunks).Some?
  {
    hide WellFormed, EndAll, RecsOf, Lawful;
    if chunks != [] {
      PartReader.LastRow(lib, origin, chunks, []);
      PartReader.EndIs(chunks);
    }
  }

  lemma WellFormedIs(lib: Library, s: W.State, h: H.History)
    requires H.Tells(lib, s, h)
    ensures WellFormed(lib, h.origin, h.chunks)
  {
    hide H.BufferTells, H.DictTells, WellFormed, After, FileOf, W.EncodeRows;
  }

  /** Sealing keeps every record, and leaves them all on disk behind a footer. */
  lemma {:induction false} SealingTells(lib: Library, k: W.Config, sealed: seq<Files>, w: W.State, sh: Shelf)
    requires Lawful(lib) && Tells(lib, sealed, Some(w), sh) && W.Usable(w) && W.Sealed(lib, k, w).0.Ok?
    ensures var sh' := Sealing(lib, k, w, sh);
      && Tells(lib, sealed + [FilesOf(W.Sealed(lib, k, w).1)], None, sh')
      && sh'.Records() == sh.Records() == sh'.Durable() && Continues(sh, sh')
      && (ShelfFits(sh) && DictRoom.Fits(w.dict) ==> ShelfFits(sh'))
  {
    hide AllHold, Tiled, ViewRecs, RecsOf, H.Tells, H.FlushedHistory, W.Sealed, Lawful, W.Usable, Holds,
      PartReader.FileOfDict, DictRoom.Fits, DictRoom.BlocksFit, DictRoom.Tight, FinishedBlocks;
    var h := sh.open.value;
    HistoryContinues(lib, k, w, h);
    SealedHolds(lib, k, w, h);
    var v := ViewOf(lib, k, w, h);
    TiledSnoc(sh.views, v);
    AllHoldSnoc(lib, sealed, sh.views, FilesOf(W.Sealed(lib, k, w).1), v);
    ViewsSnoc(sh.views, v);
    assert sh.Records() + [] == sh.Records();
  }

  lemma {:induction false} SealedHolds(lib: Library, k: W.Config, w: W.State, h: H.History)
    requires Lawful(lib) && H.Tells(lib, w, h) && W.Usable(w) && W.Sealed(lib, k, w).0.Ok? && DictRoom.Tight(w.dict)
    ensures var v := ViewOf(lib, k, w, h);
      && Holds(lib, FilesOf(W.Sealed(lib, k, w).1), v) && RecsOf(v.chunks) == h.Records()
      && (DictRoom.Fits(w.dict) && v.dict.Some? ==> DictRoom.BlocksFit(v.dict.value))
  {
    hide H.Tells, H.FlushedHistory, W.Sealed, Lawful, W.Usable, After, FileOf, WellFormed, W.EncodeRows, Footer.Encode,
      RecsOf, PartReader.TellsTheEnd, H.AllReadable, PartReader.FileOfDict, DictHolds, DictRoom.Fits,
      DictRoom.BlocksFit, DictRoom.Tight, FinishedBlocks;
    H.SealTells(lib, k, w, h);
    H.FlushTells(lib, k, w, h);
    SealIsFlush(lib, k, w);
    var (all, w') := (H.FlushedHistory(lib, k, w, h), W.Flushed(lib, k, w).1);
    FooterTells(lib, w', all);
    ReadableMark(lib, w', all);
    FlushedDictIs(lib, k, w, h);
    FinishedDictHolds(lib, w'.dict, all.mark, RecsOf(all.chunks), all.pending);
  }

  lemma SealIsFlush(lib: Library, k: W.Config, w: W.State)
    requires W.Usable(w) && W.Sealed(lib, k, w).0.Ok?
    ensures W.Flushed(lib, k, w).0.Ok? && Body.Ready(W.Flushed(lib, k, w).1.dict)
    ensures W.Sealed(lib, k, w).1.dict == AfterFinish(lib, W.Flushed(lib, k, w).1.dict)
  {
    hide W.Flushed, Footer.Encode, Dict.AfterWrite, Dict.Writable;
  }

  function AfterFinish(lib: Library, dict: Option<Dict.State>): (d: Option<Dict.State>)
    requires Body.Ready(dict)
    ensures Body.Ready(d)
  {
    if dict.None? then None else Some(Dict.AfterWrite(lib, dict.value))
  }

  lemma ReadableMark(lib: Library, s: W.State, h: H.History)
    requires H.Tells(lib, s, h)
    ensures H.AllReadable(RecsOf(h.chunks), h.mark) && H.DictTells(lib, s.dict, h.mark, RecsOf(h.chunks), h.pending)
  {
    hide H.FileTells, H.BufferTells, H.AllReadable, Body.Healthy, Dict.OnDisk, Dict.Extends, Body.Ready;
  }

  lemma {:induction false} FlushingIsTight(lib: Library, k: W.Config, w: W.State)
    requires W.Usable(w) && W.Flushed(lib, k, w).0.Ok? && DictRoom.Tight(w.dict)
    ensures DictRoom.Tight(W.Flushed(lib, k, w).1.dict)
  {
    hide Dict.AfterFlush, Packed, W.HeaderOf, BlockHeader.Encode, IndexRow.Encode, WriteAt, DictRoom.Tight;
    if w.dict.Some? { DictRoom.FlushIsTight(lib, w.dict.value); }
  }

  lemma {:induction false} AppendingIsTight(lib: Library, k: W.Config, w: W.State, ts: u64, body: Body.Body)
    requires W.Usable(w) && W.Appended(lib, k, w, ts, body).0.Ok? && DictRoom.Tight(w.dict)
    ensures DictRoom.Tight(W.Appended(lib, k, w, ts, body).1.dict)
  {
    hide W.Flushed, Body.Encode, RecordBytes, RecordFits, Delta, DictRoom.Tight;
    DictRoom.EncodeIsTight(lib, k.dict, w.dict, body);
    var (enc, dict) := Body.Encode(lib, k.dict, w.dict, body);
    var full := W.Buffered(w.(dict := dict), ts, enc.value);
    if |full.block| >= k.blockBytes { FlushingIsTight(lib, k, full); }
  }

  lemma CreatedIsTight(header: PartHeader, withDict: bool)
    ensures DictRoom.Tight(W.Created(header, withDict).dict)
  {}

  /** A flush leaves no torn bytes in the dictionary's file and keeps it within its limits. */
  lemma {:induction false} FlushedDictIs(lib: Library, k: W.Config, w: W.State, h: H.History)
    requires H.Tells(lib, w, h) && W.Usable(w) && W.Flushed(lib, k, w).0.Ok? && DictRoom.Tight(w.dict)
    ensures DictRoom.Tight(W.Flushed(lib, k, w).1.dict)
    ensures DictRoom.Fits(w.dict) ==> DictRoom.Fits(W.Flushed(lib, k, w).1.dict)
  {
    hide H.Tells, Dict.AfterFlush, Packed, W.HeaderOf, BlockHeader.Encode, IndexRow.Encode, WriteAt, DictRoom.Fits,
      DictRoom.Tight;
    ReadableMark(lib, w, h);
    FlushingIsTight(lib, k, w);
    if w.dict.Some? {
      OpenIsLast(lib, w.dict.value, h.mark, RecsOf(h.chunks), h.pending);
      if DictRoom.Fits(w.dict) { DictRoom.FitsAfterFlush(lib, w.dict.value); }
    }
  }

  lemma OpenIsLast(lib: Library, st: Dict.State, mark: Option<seq<Dict.Block>>, durable: seq<Rec>, pending: seq<Rec>)
    requires H.DictTells(lib, Some(st), mark, durable, pending)
    ensures st.open + 1 == |st.blocks| && Dict.Writable(st) && Dict.OnDisk(lib, st) && mark.Some?
    ensures Dict.Extends(mark.value, st.blocks[..st.open])
  {
    hide H.AllReadable, Dict.Recorded, Dict.Located, Dict.Distinct, Dict.Image, Dict.Extends;
  }

  lemma {:induction false} FinishedDictHolds(lib: Library, dict: Option<Dict.State>, mark: Option<seq<Dict.Block>>,
      durable: seq<Rec>, pending: seq<Rec>)
    requires H.DictTells(lib, dict, mark, durable, pending) && Body.Ready(dict) && DictRoom.Tight(dict)
    ensures var blocks := FinishedBlocks(AfterFinish(lib, dict));
      && DictHolds(lib, PartReader.FileOfDict(AfterFinish(lib, dict)), mark, blocks)
      && (DictRoom.Fits(dict) && blocks.Some? ==> DictRoom.BlocksFit(blocks.value))
  {
    hide H.DictTells, Dict.Image, Dict.Placed, Dict.Extends, DictRoom.BlocksFit, DictRoom.Used, Dict.AfterWrite,
      Dict.OnDisk,
      DictRoom.Tight;
    if dict.Some? {
      var st := dict.value;
      OpenIsLast(lib, st, mark, durable, pending);
      DictRoom.FinishedFileIs(lib, st);
      Dict.ExtendsIsTransitive(mark.value, st.blocks[..st.open], DictRoom.Used(Dict.AfterWrite(lib, st)));
    } else {
      NoMark(lib, mark, durable, pending);
    }
  }

  lemma NoMark(lib: Library, mark: Option<seq<Dict.Block>>, durable: seq<Rec>, pending: seq<Rec>)
    requires H.DictTells(lib, None, mark, durable, pending)
    ensures mark.None?
  {
    hide H.AllReadable;
  }

  /** A new part in a directory whose other parts are all sealed. */
  lemma {:induction false} CreatingTells(lib: Library, sealed: seq<Files>, sh: Shelf, header: PartHeader,
      withDict: bool)
    requires Tells(lib, sealed, None, sh) && header.firstOffset == |ViewRecs(sh.views)|
    ensures var sh' := sh.(open := Some(H.History(header, [], [], if withDict then Some([]) else None)));
      && Tells(lib, sealed, Some(W.Created(header, withDict)), sh')
      && sh'.Records() == sh.Records() && sh'.Durable() == sh.Durable() && Continues(sh, sh')
  {
    hide H.Tells, AllHold, Tiled, ViewRecs, W.Created, DictRoom.Tight;
    H.CreatedTells(lib, header, withDict);
    CreatedIsTight(header, withDict);
    assert RecsOf([]) == [] && RecsOf([]) + [] == [];
  }

  /** A refused record leaves its directory as it was. */
  lemma {:induction false} RefusingTells(lib: Library, k: W.Config, sealed: seq<Files>, w: W.State, sh: Shelf,
      ts: u64, body: Body.Body)
    requires Lawful(lib) && Tells(lib, sealed, Some(w), sh) && W.Usable(w) && W.Refuses(lib, k, w, ts, body)
    requires w.nextOffset + 1 < U64_END
    ensures Tells(lib, sealed, Some(W.Appended(lib, k, w, ts, body).1), sh)
  {
    hide H.Tells, AllHold, Tiled, ViewRecs, Body.Encode, RecsOf, Lawful, W.Usable, DictRoom.Tight, RecordFits, Delta,
      W.Opened;
    H.UsableIsReady(w);
    DictRoom.EncodeIsTight(lib, k.dict, w.dict, body);
    H.AppendTells(lib, k, w, sh.open.value, ts, body);
    H.OpenedIs(w.(dict := Body.Encode(lib, k.dict, w.dict, body).1), ts);
    assert W.Appended(lib, k, w, ts, body).1.dict == Body.Encode(lib, k.dict, w.dict, body).1;
  }

  lemma {:induction false} AppendingTells(lib: Library, k: W.Config, sealed: seq<Files>, w: W.State, sh: Shelf,
      ts: u64, body: Body.Body)
    requires Lawful(lib) && Tells(lib, sealed, Some(w), sh) && W.Usable(w) && W.Appended(lib, k, w, ts, body).0.Ok?
    requires w.nextOffset + 1 < U64_END
    ensures Body.Ready(w.dict) && Body.Encode(lib, k.dict, w.dict, body).0.Some?
    ensures var h' := H.AppendedHistory(lib, k, w, sh.open.value, ts, body);
      var sh' := sh.(open := Some(h'));
      && Tells(lib, sealed, Some(W.Appended(lib, k, w, ts, body).1), sh')
      && sh'.Records() == sh.Records() + [Rec(ts, body, Body.Encode(lib, k.dict, w.dict, body).0.value)]
      && W.Appended(lib, k, w, ts, body).0.value == |sh.Records()|
      && W.Appended(lib, k, w, ts, body).1.lastTs == Some(ts) && Continues(sh, sh')
  {
    hide H.Tells, AllHold, Tiled, ViewRecs, W.Appended, H.AppendedHistory, Body.Encode, RecsOf, Lawful, W.Usable,
      DictRoom.Tight;
    AppendingIsTight(lib, k, w, ts, body);
    H.UsableIsReady(w);
    H.AppendTells(lib, k, w, sh.open.value, ts, body);
    H.AppendAddsOneRecord(lib, k, w, sh.open.value, ts, body);
    NextOffsetCounts(lib, w, sh);
    AppendContinues(lib, k, w, sh.open.value, ts, body);
    var h := sh.open.value;
    var rec := Rec(ts, body, Body.Encode(lib, k.dict, w.dict, body).0.value);
    assert ViewRecs(sh.views) + (h.Records() + [rec]) == ViewRecs(sh.views) + h.Records() + [rec];
  }

  lemma {:induction false} FlushingTells(lib: Library, k: W.Config, sealed: seq<Files>, w: W.State, sh: Shelf)
    requires Lawful(lib) && Tells(lib, sealed, Some(w), sh) && W.Usable(w) && W.Flushed(lib, k, w).0.Ok?
    ensures var sh' := sh.(open := Some(H.FlushedHistory(lib, k, w, sh.open.value)));
      && Tells(lib, sealed, Some(W.Flushed(lib, k, w).1), sh')
      && sh'.Records() == sh.Records() == sh'.Durable() && W.Flushed(lib, k, w).1.lastTs == w.lastTs && Continues(sh, sh')
  {
    hide H.Tells, AllHold, Tiled, ViewRecs, W.Flushed, Lawful, W.Usable, RecsOf, DictRoom.Tight;
    FlushingIsTight(lib, k, w);
    var h := sh.open.value;
    H.FlushTells(lib, k, w, h);
    SnocRecs(None, h.chunks, Chunk(k.codec, h.pending));
    assert RecsOf(h.chunks) + [] == RecsOf(h.chunks);
    assert RecsOf(h.chunks + [Chunk(k.codec, h.pending)]) + [] == RecsOf(h.chunks + [Chunk(k.codec, h.pending)]);
  }

  lemma TellsIsUsable(lib: Library, sealed: seq<Files>, w: W.State, sh: Shelf)
    requires Tells(lib, sealed, Some(w), sh)
    ensures W.Usable(w)
  {
    hide H.Tells, AllHold, Tiled, ViewRecs, W.Usable;
    H.TellsIsUsable(lib, w, sh.open.value);
  }

  // --- Where the offsets of a directory continue ---

  function Ending(lib: Library, f: Files): Option<nat> {
    match PartReader.Open(lib, f.file, Some(f.index), f.dictFile, true)
    case Err(_) => None
    case Ok(r) => Some(PartReader.OffsetSpan(r).1)
  }

  /** The highest end any sealed part reports; a part that cannot be opened is passed over. */
  function NextOffset(lib: Library, sealed: seq<Files>): nat {
    if sealed == [] then 0
    else
      var (n, end) := (NextOffset(lib, sealed[..|sealed| - 1]), Ending(lib, sealed[|sealed| - 1]));
      if end.Some? && end.value > n then end.value else n
  }

  lemma {:induction false} EndingIs(lib: Library, f: Files, v: View)
    requires Lawful(lib) && Holds(lib, f, v)
    ensures Ending(lib, f) == Some(v.origin.firstOffset + |RecsOf(v.chunks)|)
  {
    hide WellFormed, FileOf, RowsOf, PartReader.Open, W.EncodeRows, PartReader.TellsTheEnd, PartReader.OffsetSpan,
      RecsOf, Lawful, H.AllReadable, Footer.Encode, Count, EndAll, BlocksOf, Raws;
    var rows := RowsOf(lib, None, v.origin.firstOffset, PART_HEADER_LEN, v.chunks);
    assert [] + rows == rows && f.index + [] == f.index;
    PartReader.OpensExactly(lib, v.origin, v.chunks, v.footer.Encode(), Some(v.footer), [], f.dictFile);
    PartReader.CountIsLength(v.chunks);
  }

  /** Offsets continue where the sealed parts of the directory end. */
  lemma {:induction false} NextOffsetIs(lib: Library, sealed: seq<Files>, views: seq<View>)
    requires Lawful(lib) && AllHold(lib, sealed, views) && Tiled(views)
    ensures NextOffset(lib, sealed) == |ViewRecs(views)|
    decreases |views|
  {
    hide Holds, Ending, RecsOf, Lawful;
    if views != [] {
      var n := |views| - 1;
      assert forall i :: 0 <= i < n ==> views[..n][..i] == views[..i];
      NextOffsetIs(lib, sealed[..n], views[..n]);
      EndingIs(lib, sealed[n], views[n]);
    }
  }
}
