/** The limits of a dictionary, and what its file loads as while they are kept. */
module DictRoom {
  import opened Bytes
  import opened Foreign
  import opened Dict
  import opened DictFile
  import Body
  import DictCodes

  // --- Nothing behind the last block ---

  /** The next block will be written at the end of the file: no torn bytes were left behind. */
  predicate Tight(st: Option<State>) { st.Some? ==> |st.value.file| == st.value.fileOffset }

  lemma AppendedIsTight(file: bytes, data: bytes)
    ensures WriteAt(file, |file|, data) == file + data
  {}

  lemma {:induction false} WriteIsTight(lib: Library, st: State)
    requires Writable(st) && Tight(Some(st))
    ensures Tight(Some(AfterWrite(lib, st)))
  {
    hide BlockImage, WriteAt;
    var b := st.blocks[st.open];
    AppendedIsTight(st.file, BlockImage(lib, b.width, b.entries, PrevOffset(st.blocks, st.open)));
  }

  lemma {:induction false} FlushIsTight(lib: Library, st: State)
    requires Writable(st) && Tight(Some(st))
    ensures Tight(Some(AfterFlush(lib, st)))
  {
    hide AfterWrite;
    WriteIsTight(lib, st);
  }

  lemma {:induction false} SettleIsTight(lib: Library, c: Config, st: State, text: blob)
    requires Writable(st) && Tight(Some(st))
    ensures Tight(Some(AfterSettle(lib, c, st, text).0))
  {
    hide AfterWrite, ThresholdFor;
    var counted := Count(st, lib.hash(text));
    WriteIsTight(lib, counted.(counts := counted.counts - {lib.hash(text)}));
  }

  lemma {:induction false} EncodeIsTight(lib: Library, c: Config, st: Option<State>, items: Body.Body)
    requires Body.Ready(st) && Tight(st)
    ensures Tight(Body.Encode(lib, c, st, items).1)
    decreases |items|
  {
    hide AfterSettle, Body.Coded, Body.Inline;
    if items != [] {
      if st.Some? && items[0].1.Str? { SettleIsTight(lib, c, st.value, items[0].1.text); }
      var (head, st') := Body.EncodeItem(lib, c, st, items[0]);
      if head.Some? { EncodeIsTight(lib, c, st', items[1..]); }
    }
  }

  // --- The limits ---

  /** One of the first 240 blocks, at most eight bytes wide, its ids within the width, its texts below 4 GiB. */
  predicate BlockFits(blocks: seq<Block>, b: nat)
    requires b < |blocks|
  {
    && b < 240 && blocks[b].width in {2, 4, 8}
    && |blocks[b].entries| <= Pow256(blocks[b].width) && |Texts(blocks[b].entries)| < U32_END
  }

  predicate BlocksFit(blocks: seq<Block>) { forall b :: 0 <= b < |blocks| ==> BlockFits(blocks, b) }

  /** The blocks that are or will be in the file: the open one counts once it has an entry. */
  function Used(st: State): seq<Block>
    requires st.open < |st.blocks|
  {
    if st.blocks[st.open].entries == [] then st.blocks[..st.open] else st.blocks[..st.open + 1]
  }

  predicate Fits(st: Option<State>) { st.Some? ==> st.value.open < |st.value.blocks| && BlocksFit(Used(st.value)) }

  lemma {:induction false} FitBlocksReload(blocks: seq<Block>)
    requires BlocksFit(blocks)
    ensures DictCodes.Sound(blocks) && AllReloadable(blocks, |blocks|)
  {
    hide Texts, Pow256;
    forall b | 0 <= b < |blocks|
      ensures b < 240 && blocks[b].width in {2, 4, 8} && |blocks[b].entries| <= Pow256(blocks[b].width)
      ensures Reloadable(blocks[b].width, blocks[b].entries)
    {
      assert BlockFits(blocks, b);
    }
  }

  /** The file of blocks within the limits loads as exactly those blocks. */
  lemma {:induction false} FitFileLoads(lib: Library, blocks: seq<Block>)
    requires Lawful(lib) && BlocksFit(blocks) && Placed(lib, blocks, |blocks|)
    ensures Load(lib, Image(lib, blocks, |blocks|)).0 == blocks && DictCodes.Sound(blocks)
  {
    hide Texts, Image, Load, BlockFits, Lawful, Placed, DictCodes.Sound, AllReloadable;
    FitBlocksReload(blocks);
    var (n, file) := (|blocks|, Image(lib, blocks, |blocks|));
    ImageIsLong(lib, blocks, n);
    CutLoadsWholeBlocks(lib, blocks, n, |file|);
    assert file[..|file|] == file && blocks[..n] == blocks;
  }

  lemma ImageIsLong(lib: Library, blocks: seq<Block>, n: nat)
    requires n <= |blocks|
    ensures |FILE_HEADER| <= |Image(lib, blocks, n)|
  {
    hide BlockImage;
    if n > 0 { ImageIsLong(lib, blocks, n - 1); }
  }

  // --- The file a writer leaves ---

  /** What is in the file while the part is open. */
  lemma {:induction false} OpenFileIs(lib: Library, st: State)
    requires OnDisk(lib, st) && Tight(Some(st))
    ensures st.file == Image(lib, st.blocks[..st.open], st.open) && Placed(lib, st.blocks[..st.open], st.open)
  {
    hide Image;
    var front := st.blocks[..st.open];
    ImageOfPrefix(lib, st.blocks, front, st.open);
    forall i | 0 <= i < st.open ensures front[i].fileOffset == |Image(lib, front, i)| {
      ImageOfPrefix(lib, st.blocks, front, i);
    }
  }

  /** What is in the file once the writer has finished: the open block too, if it has an entry. */
  lemma {:induction false} FinishedFileIs(lib: Library, st: State)
    requires Writable(st) && OnDisk(lib, st) && Tight(Some(st))
    ensures var (st', blocks) := (AfterWrite(lib, st), Used(AfterWrite(lib, st)));
      && st'.file == Image(lib, blocks, |blocks|) && Placed(lib, blocks, |blocks|)
      && Extends(st.blocks[..st.open], blocks) && (BlocksFit(Used(st)) ==> BlocksFit(blocks))
  {
    hide Image, BlockFits, OnDisk, BlockImage, WriteAt, Placed, Extends;
    OpenIsLast(lib, st);
    FirstBlocksExtend(lib, st);
    if st.blocks[st.open].entries == [] {
      OpenFileIs(lib, st);
    } else {
      FlushAndPushReachesDisk(lib, st, 2);
      WriteIsTight(lib, st);
      var next := WithNewBlock(AfterWrite(lib, st), 2);
      OpenFileIs(lib, next);
      assert next.blocks[..next.open] == AfterWrite(lib, st).blocks == Used(AfterWrite(lib, st));
      if BlocksFit(Used(st)) { FitsAfterWrite(lib, st); }
    }
  }

  lemma OpenIsLast(lib: Library, st: State)
    requires OnDisk(lib, st)
    ensures st.open + 1 == |st.blocks|
  {
    hide Image;
  }

  lemma FirstBlocksExtend(lib: Library, st: State)
    requires Writable(st) && st.open + 1 == |st.blocks|
    ensures Extends(st.blocks[..st.open], Used(AfterWrite(lib, st)))
  {
    hide BlockImage, WriteAt;
  }

  lemma FitsAfterWrite(lib: Library, st: State)
    requires Writable(st) && BlocksFit(Used(st))
    ensures BlocksFit(Used(AfterWrite(lib, st)))
  {
    hide BlockImage, WriteAt, Texts, Pow256;
    var (a, b) := (Used(st), Used(AfterWrite(lib, st)));
    forall i | 0 <= i < |b| ensures BlockFits(b, i) { assert BlockFits(a, i); }
  }

  lemma FitsAfterFlush(lib: Library, st: State)
    requires Writable(st) && st.open + 1 == |st.blocks| && Fits(Some(st))
    ensures Fits(Some(AfterFlush(lib, st)))
  {
    hide BlockImage, WriteAt, Texts, Pow256;
    var (a, b) := (Used(st), Used(AfterFlush(lib, st)));
    forall i | 0 <= i < |b| ensures BlockFits(b, i) { assert BlockFits(a, i); }
  }
}
