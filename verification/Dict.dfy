/** The part's string dictionary: promotion, blocks that widen, and the file they land in. */
module Dict {
  import opened Bytes
  import opened Foreign
  import Format
  import Varint

  const FILE_HEADER: bytes := [79, 75, 77, 68, 1, 0, 0, 0] // OKMD
  const FILE_MAGIC: bytes := [79, 75, 77, 68]
  const BLOCK_MAGIC: bytes := [79, 75, 77, 75] // OKMK
  const BLOCK_HEADER_LEN: nat := 32
  const DICT_BASE: nat := 16
  const COUNT_TRACK_LIMIT: nat := 0x10_0000

  datatype Config = Config(tiers: seq<(nat, nat)>, blockEntries: nat)

  /** `fileOffset` is where the block starts in the file, 0 while it is only in memory. */
  datatype Block = Block(width: nat, entries: seq<blob>, fileOffset: nat)

  /** What the fields of a `Dictionary` hold. */
  datatype State = State(
    file: bytes, fileOffset: nat, blocks: seq<Block>, open: nat,
    counts: map<u64, nat>, promoted: map<blob, (byte, nat)>)

  // --- Codes ---

  function CodeOf(block: nat): (code: byte)
    ensures code >= DICT_BASE
  {
    var index := if block < 256 then block else 255 - DICT_BASE;
    if DICT_BASE + index < 256 then DICT_BASE + index else 255
  }

  /** A kind byte names its block exactly for the first 240 blocks; every later one reads as block 239. */
  lemma {:induction false} CodeNamesItsBlock(block: nat)
    ensures CodeOf(block) - DICT_BASE == block <==> block < 240
    ensures block >= 240 ==> CodeOf(block) - DICT_BASE == 239
  {}

  function Lookup(blocks: seq<Block>, code: byte, id: nat): Option<blob> {
    if code < DICT_BASE || code - DICT_BASE >= |blocks| then None
    else
      var entries := blocks[code - DICT_BASE].entries;
      if id < |entries| then Some(entries[id]) else None
  }

  function WidthOf(blocks: seq<Block>, code: byte): Option<nat> {
    if code < DICT_BASE || code - DICT_BASE >= |blocks| then None else Some(blocks[code - DICT_BASE].width)
  }

  function ThresholdFrom(len: nat, width: nat, tiers: seq<(nat, nat)>): Option<nat> {
    if tiers == [] then None
    else if tiers[0].0 == 0 || len <= tiers[0].0 * width then Some(tiers[0].1)
    else ThresholdFrom(len, width, tiers[1..])
  }

  function ThresholdFor(len: nat, width: nat, tiers: seq<(nat, nat)>): Option<nat> {
    if len <= width then None else ThresholdFrom(len, width, tiers)
  }

  // --- The file image of a block ---

  function Texts(entries: seq<blob>): bytes {
    if entries == [] then [] else Varint.Put(|entries[0]|) + entries[0] + Texts(entries[1..])
  }

  function Stored(lib: Library, payload: bytes): (Format.Codec, bytes) {
    var compressed := lib.compress(payload);
    if |compressed| < |payload| then (Format.Zstd, compressed) else (Format.Raw, payload)
  }

  function WidthCode(width: nat): byte {
    if width == 2 then 0 else if width == 4 then 1 else 2
  }

  /** `as u32` in the source: the low 32 bits. */
  datatype Head = Head(codec: Format.Codec, width: nat, count: u32, lenC: u32, lenU: u32)

  function EncodeHead(h: Head, prev: nat): (s: bytes)
    ensures |s| == BLOCK_HEADER_LEN
  {
    BLOCK_MAGIC + [1, h.codec.Code(), WidthCode(h.width), 0] + BE(h.count, 4) + [0, 0, 0, 0]
    + BE(prev, 8) + BE(h.lenC, 4) + BE(h.lenU, 4)
  }

  function HeadOf(lib: Library, width: nat, entries: seq<blob>): Head {
    var (codec, data) := Stored(lib, Texts(entries));
    Head(codec, width, Low32(|entries|), Low32(|data|), Low32(|Texts(entries)|))
  }

  function BlockImage(lib: Library, width: nat, entries: seq<blob>, prev: nat): (s: bytes)
    ensures |s| >= BLOCK_HEADER_LEN
  {
    EncodeHead(HeadOf(lib, width, entries), prev) + Stored(lib, Texts(entries)).1
  }

  function PrevOffset(blocks: seq<Block>, i: nat): nat
    requires i <= |blocks|
  {
    if i == 0 then 0 else blocks[i - 1].fileOffset
  }

  /** The first `n` blocks as they lie in the file, header included. */
  function Image(lib: Library, blocks: seq<Block>, n: nat): (s: bytes)
    requires n <= |blocks|
    ensures |s| >= |FILE_HEADER| && s[..8] == FILE_HEADER
  {
    if n == 0 then FILE_HEADER
    else Image(lib, blocks, n - 1) + BlockImage(lib, blocks[n - 1].width, blocks[n - 1].entries, PrevOffset(blocks, n - 1))
  }

  // --- The writer's steps ---

  predicate Writable(st: State) {
    st.open < |st.blocks| && st.fileOffset <= |st.file|
  }

  function AfterWrite(lib: Library, st: State): (st': State)
    requires Writable(st)
    ensures Writable(st')
  {
    var b := st.blocks[st.open];
    if b.entries == [] then st
    else
      var image := BlockImage(lib, b.width, b.entries, PrevOffset(st.blocks, st.open));
      st.(file := WriteAt(st.file, st.fileOffset, image),
          fileOffset := st.fileOffset + |image|,
          blocks := st.blocks[st.open := b.(fileOffset := st.fileOffset)])
  }

  function WithNewBlock(st: State, width: nat): (st': State)
    ensures st'.open + 1 == |st'.blocks| && st'.file == st.file && st'.fileOffset == st.fileOffset
  {
    st.(blocks := st.blocks + [Block(width, [], 0)], open := |st.blocks|)
  }

  function AfterClose(lib: Library, st: State): (st': State)
    requires Writable(st)
    ensures Writable(st')
  {
    WithNewBlock(AfterWrite(lib, st), 2 * st.blocks[st.open].width)
  }

  function AfterFlush(lib: Library, st: State): (st': State)
    requires Writable(st)
    ensures Writable(st')
  {
    if st.blocks[st.open].entries == [] then st else WithNewBlock(AfterWrite(lib, st), st.blocks[st.open].width)
  }

  function AddEntry(st: State, text: blob): State
    requires st.open < |st.blocks|
  {
    var b := st.blocks[st.open];
    st.(blocks := st.blocks[st.open := b.(entries := b.entries + [text])],
        promoted := st.promoted[text := (CodeOf(st.open), |b.entries|)])
  }

  function AfterPromote(lib: Library, c: Config, st: State, text: blob): (st': State)
    requires Writable(st)
    ensures Writable(st')
  {
    var full := |st.blocks[st.open].entries| >= if c.blockEntries > 1 then c.blockEntries else 1;
    AddEntry(if full then AfterClose(lib, st) else st, text)
  }

  function Seen(st: State, key: u64): nat {
    if key in st.counts then st.counts[key] + 1 else 1
  }

  function Count(st: State, key: u64): State {
    if key in st.counts || |st.counts| < COUNT_TRACK_LIMIT then st.(counts := st.counts[key := Seen(st, key)]) else st
  }

  /** Count a string and decide its form: the next state, and its code when it has one. */
  function AfterSettle(lib: Library, c: Config, st: State, text: blob): (r: (State, Option<(byte, nat)>))
    requires Writable(st)
    ensures Writable(r.0)
  {
    if text in st.promoted then (st, Some(st.promoted[text]))
    else
      var key := lib.hash(text);
      var counted := Count(st, key);
      match ThresholdFor(|text|, st.blocks[st.open].width, c.tiers)
      case None => (counted, None)
      case Some(threshold) =>
        if Seen(st, key) < threshold then (counted, None)
        else
          var st' := AfterPromote(lib, c, counted.(counts := counted.counts - {key}), text);
          (st', Some(st'.promoted[text]))
  }

  // --- Invariants ---

  predicate Holds(blocks: seq<Block>, b: int, i: int, t: blob) {
    0 <= b < |blocks| && 0 <= i < |blocks[b].entries| && blocks[b].entries[i] == t
  }

  /** Every entry has its code on record. */
  ghost predicate Recorded(st: State) {
    forall b, i, t :: Holds(st.blocks, b, i, t) ==> t in st.promoted && st.promoted[t] == (CodeOf(b), i)
  }

  /** Every code on record has its entry. */
  ghost predicate Located(st: State) {
    forall t :: t in st.promoted ==> exists b, i :: Holds(st.blocks, b, i, t) && st.promoted[t] == (CodeOf(b), i)
  }

  /** No text is stored twice. */
  ghost predicate Distinct(blocks: seq<Block>) {
    forall b, i, b', i', t :: Holds(blocks, b, i, t) && Holds(blocks, b', i', t) ==> b == b' && i == i'
  }

  ghost predicate Coherent(st: State) {
    st.open + 1 == |st.blocks| && Recorded(st) && Located(st) && Distinct(st.blocks)
  }

  /** Each of the first `n` blocks records where it starts in the file. */
  ghost predicate Placed(lib: Library, blocks: seq<Block>, n: nat)
    requires n <= |blocks|
  {
    forall i :: 0 <= i < n ==> blocks[i].fileOffset == |Image(lib, blocks, i)|
  }

  /** Every block but the open one lies in the file, in order; anything after them is left-over bytes. */
  ghost predicate OnDisk(lib: Library, st: State) {
    && st.open + 1 == |st.blocks|
    && Image(lib, st.blocks, st.open) <= st.file
    && st.fileOffset == |Image(lib, st.blocks, st.open)|
    && Placed(lib, st.blocks, st.open)
  }

  /** `later` has every entry of `blocks` at the place it had. A block without entries asks for nothing. */
  ghost predicate Extends(blocks: seq<Block>, later: seq<Block>) {
    forall b :: 0 <= b < |blocks| && blocks[b].entries != [] ==>
      b < |later| && blocks[b].width == later[b].width && blocks[b].entries <= later[b].entries
  }

  lemma ExtendsIsTransitive(a: seq<Block>, b: seq<Block>, c: seq<Block>)
    requires Extends(a, b) && Extends(b, c)
    ensures Extends(a, c)
  {
    forall k | 0 <= k < |a| && a[k].entries != []
      ensures k < |c| && a[k].width == c[k].width && a[k].entries <= c[k].entries
    {
      assert a[k].entries <= b[k].entries <= c[k].entries;
    }
  }

  lemma LookupIsStable(blocks: seq<Block>, later: seq<Block>, code: byte, id: nat)
    requires Extends(blocks, later) && Lookup(blocks, code, id).Some?
    ensures Lookup(later, code, id) == Lookup(blocks, code, id)
    ensures WidthOf(later, code) == WidthOf(blocks, code)
  {
    var k := code - DICT_BASE;
    assert blocks[k].entries <= later[k].entries;
  }

  /** The image of the first blocks does not look at the later ones. */
  lemma {:induction false} ImageOfPrefix(lib: Library, xs: seq<Block>, ys: seq<Block>, n: nat)
    requires n <= |xs| && n <= |ys| && xs[..n] == ys[..n]
    ensures Image(lib, xs, n) == Image(lib, ys, n)
  {
    hide BlockImage;
    if n > 0 {
      assert xs[..n - 1] == xs[..n][..n - 1] && ys[..n - 1] == ys[..n][..n - 1];
      ImageOfPrefix(lib, xs, ys, n - 1);
      hide Image;
      ImageGrows(lib, xs, n - 1);
      ImageGrows(lib, ys, n - 1);
      SameLast(xs, ys, n);
    }
  }

  lemma SameLast(xs: seq<Block>, ys: seq<Block>, n: nat)
    requires 0 < n <= |xs| && n <= |ys| && xs[..n] == ys[..n]
    ensures xs[n - 1] == ys[n - 1] && PrevOffset(xs, n - 1) == PrevOffset(ys, n - 1)
  {
    assert xs[n - 1] == xs[..n][n - 1] && ys[n - 1] == ys[..n][n - 1];
    if n > 1 { assert xs[n - 2] == xs[..n][n - 2] && ys[n - 2] == ys[..n][n - 2]; }
  }

  lemma {:induction false} OnDiskTransfers(lib: Library, st: State, st': State)
    requires OnDisk(lib, st)
    requires st'.open == st.open && |st'.blocks| == |st.blocks| && st'.blocks[..st.open] == st.blocks[..st.open]
    requires st'.file == st.file && st'.fileOffset == st.fileOffset
    ensures OnDisk(lib, st')
  {
    hide Image, BlockImage;
    ImagesAgree(lib, st.blocks, st'.blocks, st.open);
    forall i | 0 <= i < st.open ensures st'.blocks[i] == st.blocks[i] {
      assert st'.blocks[i] == st'.blocks[..st.open][i] == st.blocks[..st.open][i];
    }
  }

  lemma {:induction false} AddEntryKeeps(lib: Library, st: State, text: blob)
    requires Coherent(st) && text !in st.promoted
    ensures var st' := AddEntry(st, text); Coherent(st') && Extends(st.blocks, st'.blocks)
    ensures OnDisk(lib, st) ==> OnDisk(lib, AddEntry(st, text))
  {
    hide Image, BlockImage;
    var st' := AddEntry(st, text);
    var n := |st.blocks[st.open].entries|;
    assert Holds(st'.blocks, st.open, n, text);
    forall b, i, t | Holds(st'.blocks, b, i, t)
      ensures if b == st.open && i == n then t == text else Holds(st.blocks, b, i, t) && t != text
    {
    }
    forall b, i, t | Holds(st.blocks, b, i, t) ensures Holds(st'.blocks, b, i, t) {
    }
    if OnDisk(lib, st) {
      assert st'.blocks[..st.open] == st.blocks[..st.open];
      OnDiskTransfers(lib, st, st');
    }
  }

  /** Renumbering file offsets and pushing an empty block leaves the in-memory dictionary as it was. */
  lemma {:induction false} SameEntriesKeepCoherent(st: State, st': State)
    requires Coherent(st) && st'.promoted == st.promoted && st'.open + 1 == |st'.blocks|
    requires |st.blocks| <= |st'.blocks|
    requires forall b :: 0 <= b < |st.blocks| ==> st'.blocks[b].entries == st.blocks[b].entries
    requires forall b :: |st.blocks| <= b < |st'.blocks| ==> st'.blocks[b].entries == []
    ensures Coherent(st')
  {
    assert forall b, i, t :: Holds(st'.blocks, b, i, t) <==> Holds(st.blocks, b, i, t);
  }

  lemma {:induction false} WrittenPrefix(file: bytes, before: bytes, data: bytes)
    requires before <= file
    ensures before + data <= WriteAt(file, |before|, data)
    ensures |before + data| <= |WriteAt(file, |before|, data)|
  {
    var written := WriteAt(file, |before|, data);
    assert file[..|before|] == before;
    assert written[..|before + data|] == before + data;
  }

  lemma {:induction false} FlushAndPushReachesDisk(lib: Library, st: State, width: nat)
    requires OnDisk(lib, st) && st.blocks[st.open].entries != []
    ensures OnDisk(lib, WithNewBlock(AfterWrite(lib, st), width))
  {
    hide BlockImage, WriteAt, Image;
    var st' := WithNewBlock(AfterWrite(lib, st), width);
    var b := st.blocks[st.open];
    assert st'.blocks[st.open] == b.(fileOffset := st.fileOffset);
    assert PrevOffset(st'.blocks, st.open) == PrevOffset(st.blocks, st.open);
    var image := BlockImage(lib, b.width, b.entries, PrevOffset(st.blocks, st.open));
    ImageGrows(lib, st'.blocks, st.open);
    assert st'.blocks[..st.open] == st.blocks[..st.open];
    ImagesAgree(lib, st.blocks, st'.blocks, st.open);
    WrittenPrefix(st.file, Image(lib, st.blocks, st.open), image);
  }

  lemma {:induction false} ImageGrows(lib: Library, blocks: seq<Block>, n: nat)
    requires n < |blocks|
    ensures Image(lib, blocks, n + 1)
         == Image(lib, blocks, n) + BlockImage(lib, blocks[n].width, blocks[n].entries, PrevOffset(blocks, n))
  {}

  lemma {:induction false} ImagesAgree(lib: Library, xs: seq<Block>, ys: seq<Block>, n: nat)
    requires n <= |xs| && n <= |ys| && xs[..n] == ys[..n]
    ensures forall i {:trigger Image(lib, ys, i)} :: 0 <= i <= n ==> Image(lib, xs, i) == Image(lib, ys, i)
  {
    hide Image;
    forall i | 0 <= i <= n ensures Image(lib, xs, i) == Image(lib, ys, i) {
      assert xs[..i] == xs[..n][..i] == ys[..n][..i] == ys[..i];
      ImageOfPrefix(lib, xs, ys, i);
    }
  }

  lemma {:induction false} FlushAndPushKeeps(lib: Library, st: State, width: nat)
    requires Coherent(st) && Writable(st) && st.blocks[st.open].entries != []
    ensures var st' := WithNewBlock(AfterWrite(lib, st), width);
      && Coherent(st') && Writable(st') && Extends(st.blocks, st'.blocks)
      && st'.promoted == st.promoted
      && (OnDisk(lib, st) ==> OnDisk(lib, st'))
  {
    hide Image, BlockImage;
    SameEntriesKeepCoherent(st, WithNewBlock(AfterWrite(lib, st), width));
    if OnDisk(lib, st) {
      FlushAndPushReachesDisk(lib, st, width);
    }
  }

  /** Settling a string keeps the dictionary coherent, moves no entry, and its answer is on record. */
  lemma {:induction false} SettleKeeps(lib: Library, c: Config, st: State, text: blob)
    requires Coherent(st) && Writable(st)
    ensures var (st', code) := AfterSettle(lib, c, st, text);
      && Coherent(st') && Writable(st') && Extends(st.blocks, st'.blocks) && st.open <= st'.open
      && (forall t :: t in st.promoted ==> t in st'.promoted && st'.promoted[t] == st.promoted[t])
      && (code.Some? ==> text in st'.promoted && st'.promoted[text] == code.value)
      && (code.None? ==> text !in st'.promoted)
      && (OnDisk(lib, st) ==> OnDisk(lib, st'))
  {
    hide Image, BlockImage, AfterWrite, Recorded, Located, Distinct, OnDisk;
    var key := lib.hash(text);
    var counted := Count(st, key);
    if text !in st.promoted {
      SameEntriesKeepCoherent(st, counted);
      if OnDisk(lib, st) { OnDiskTransfers(lib, st, counted); }
      var reset := counted.(counts := counted.counts - {key});
      SameEntriesKeepCoherent(counted, reset);
      if OnDisk(lib, st) { OnDiskTransfers(lib, counted, reset); }
      if AfterSettle(lib, c, st, text).1.Some? { PromoteKeeps(lib, c, reset, text); }
    }
  }

  lemma {:induction false} PromoteKeeps(lib: Library, c: Config, st: State, text: blob)
    requires Coherent(st) && Writable(st) && text !in st.promoted
    ensures var st' := AfterPromote(lib, c, st, text);
      && Coherent(st') && Writable(st') && Extends(st.blocks, st'.blocks) && st.open <= st'.open
      && (forall t :: t in st.promoted ==> t in st'.promoted && st'.promoted[t] == st.promoted[t])
      && text in st'.promoted
      && (OnDisk(lib, st) ==> OnDisk(lib, st'))
  {
    hide Image, BlockImage, AfterWrite, Recorded, Located, Distinct, OnDisk;
    if |st.blocks[st.open].entries| >= if c.blockEntries > 1 then c.blockEntries else 1 {
      FlushAndPushKeeps(lib, st, 2 * st.blocks[st.open].width);
      var closed := AfterClose(lib, st);
      AddEntryKeeps(lib, closed, text);
      ExtendsIsTransitive(st.blocks, closed.blocks, AddEntry(closed, text).blocks);
    } else {
      AddEntryKeeps(lib, st, text);
    }
  }

  lemma {:induction false} FlushKeeps(lib: Library, st: State)
    requires Coherent(st) && Writable(st)
    ensures var st' := AfterFlush(lib, st);
      && Coherent(st') && Writable(st') && Extends(st.blocks, st'.blocks) && st.open <= st'.open
      && st'.promoted == st.promoted
      && st'.blocks[st'.open].entries == []
      && (OnDisk(lib, st) ==> OnDisk(lib, st'))
  {
    if st.blocks[st.open].entries != [] {
      FlushAndPushKeeps(lib, st, st.blocks[st.open].width);
    }
  }

  // --- Runs ---

  datatype Op = SettleText(text: blob) | Flush

  function Step(lib: Library, c: Config, st: State, op: Op): State
    requires Writable(st)
  {
    match op
    case SettleText(text) => AfterSettle(lib, c, st, text).0
    case Flush => AfterFlush(lib, st)
  }

  ghost function Run(lib: Library, c: Config, st: State, ops: seq<Op>): State
    requires Coherent(st) && Writable(st)
    decreases |ops|
  {
    if ops == [] then st
    else
      StepKeeps(lib, c, st, ops[0]);
      Run(lib, c, Step(lib, c, st, ops[0]), ops[1..])
  }

  lemma {:induction false} StepKeeps(lib: Library, c: Config, st: State, op: Op)
    requires Coherent(st) && Writable(st)
    ensures var st' := Step(lib, c, st, op);
      && Coherent(st') && Writable(st') && Extends(st.blocks, st'.blocks)
      && (forall t :: t in st.promoted ==> t in st'.promoted && st'.promoted[t] == st.promoted[t])
      && (OnDisk(lib, st) ==> OnDisk(lib, st'))
  {
    match op
    case SettleText(text) => SettleKeeps(lib, c, st, text);
    case Flush => FlushKeeps(lib, st);
  }

  /** Over every run a code, once handed out, stays the string's code, and the pair it names stays that string. */
  lemma {:induction false} CodesAreForever(lib: Library, c: Config, st: State, ops: seq<Op>)
    requires Coherent(st) && Writable(st)
    ensures var st' := Run(lib, c, st, ops);
      && Coherent(st') && Writable(st') && Extends(st.blocks, st'.blocks)
      && (forall t :: t in st.promoted ==> t in st'.promoted && st'.promoted[t] == st.promoted[t])
      && (OnDisk(lib, st) ==> OnDisk(lib, st'))
    decreases |ops|
  {
    if ops != [] {
      var next := Step(lib, c, st, ops[0]);
      StepKeeps(lib, c, st, ops[0]);
      CodesAreForever(lib, c, next, ops[1..]);
      ExtendsIsTransitive(st.blocks, next.blocks, Run(lib, c, st, ops).blocks);
    }
  }
}
