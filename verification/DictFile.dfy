/** Reading a dictionary file back: what a reload finds, and what adoption starts from. */
module DictFile {
  import opened Bytes
  import opened Foreign
  import opened Dict
  import Format
  import Varint

  datatype Found = Found(width: nat, entries: seq<blob>, next: nat)

  function WidthOfCode(code: byte): Option<nat> {
    if code == 0 then Some(2) else if code == 1 then Some(4) else if code == 2 then Some(8) else None
  }

  function EntriesFrom(payload: bytes, pos: nat, count: nat): seq<blob>
    decreases |payload| - pos
  {
    if pos >= |payload| || count == 0 then []
    else
      match Varint.Get(payload, pos)
      case None => []
      case Some((len, at)) =>
        if at + len > |payload| then [] else [payload[at..at + len]] + EntriesFrom(payload, at + len, count - 1)
  }

  /** An unknown codec byte reads as uncompressed. */
  function DecodeHead(h: bytes): Option<Head>
    requires |h| == BLOCK_HEADER_LEN
  {
    if h[..4] != BLOCK_MAGIC || WidthOfCode(h[6]).None? then None
    else
      var codec := if Format.CodecOf(h[5]).Some? then Format.CodecOf(h[5]).value else Format.Raw;
      Some(Head(codec, WidthOfCode(h[6]).value, U32At(h, 8), U32At(h, 24), U32At(h, 28)))
  }

  function PayloadOf(lib: Library, codec: Format.Codec, data: bytes, lenU: nat): Option<bytes> {
    if codec.Zstd? then lib.decompress(data, lenU) else Some(data)
  }

  function ReadBlock(lib: Library, file: bytes, at: nat): (r: Option<Found>)
    ensures r.Some? ==> at + BLOCK_HEADER_LEN <= r.value.next <= |file|
  {
    if at + BLOCK_HEADER_LEN > |file| then None
    else
      match DecodeHead(file[at..at + BLOCK_HEADER_LEN])
      case None => None
      case Some(h) =>
        var next := at + BLOCK_HEADER_LEN + h.lenC;
        if next > |file| then None
        else
          match PayloadOf(lib, h.codec, file[at + BLOCK_HEADER_LEN..next], h.lenU)
          case None => None
          case Some(payload) =>
            if |payload| != h.lenU then None else Some(Found(h.width, EntriesFrom(payload, 0, h.count), next))
  }

  /** A block is stored the shorter way. */
  lemma StoredIsShorter(lib: Library, payload: bytes)
    ensures var (codec, data) := Stored(lib, payload);
      && |data| == (if |lib.compress(payload)| < |payload| then |lib.compress(payload)| else |payload|)
      && (codec.Zstd? <==> |lib.compress(payload)| < |payload|)
  {}

  /** Every block of the file says where the one before it starts, the first says zero. */
  lemma {:induction false} HeadsLinkBack(lib: Library, blocks: seq<Block>, i: nat)
    requires i < |blocks| && Placed(lib, blocks, |blocks|) && |Image(lib, blocks, i)| < U64_END
    ensures var (at, file) := (|Image(lib, blocks, i)|, Image(lib, blocks, i + 1));
      && at + BLOCK_HEADER_LEN <= |file|
      && U64At(file, at + 16) == if i == 0 then 0 else |Image(lib, blocks, i - 1)|
  {
    hide *;
    var (before, prev) := (Image(lib, blocks, i), PrevOffset(blocks, i));
    var head := EncodeHead(HeadOf(lib, blocks[i].width, blocks[i].entries), prev);
    var data := Stored(lib, Texts(blocks[i].entries)).1;
    PrevIs(lib, blocks, i);
    HeadHasPrev(HeadOf(lib, blocks[i].width, blocks[i].entries), prev);
    ImageParts(lib, blocks, i);
    LongAt(before, head, data, prev);
  }

  lemma PrevIs(lib: Library, blocks: seq<Block>, i: nat)
    requires i < |blocks| && Placed(lib, blocks, |blocks|)
    ensures PrevOffset(blocks, i) == if i == 0 then 0 else |Image(lib, blocks, i - 1)|
    ensures PrevOffset(blocks, i) <= |Image(lib, blocks, i)|
  {
    hide Image, BlockImage;
    if i > 0 { ImageGrows(lib, blocks, i - 1); }
  }

  lemma ImageParts(lib: Library, blocks: seq<Block>, i: nat)
    requires i < |blocks|
    ensures Image(lib, blocks, i + 1)
         == Image(lib, blocks, i)
            + (EncodeHead(HeadOf(lib, blocks[i].width, blocks[i].entries), PrevOffset(blocks, i)) + Stored(lib, Texts(blocks[i].entries)).1)
  {
    hide EncodeHead, HeadOf, Texts, Stored;
  }

  lemma HeadHasPrev(h: Head, prev: nat)
    ensures EncodeHead(h, prev)[16..24] == BE(prev, 8)
  {
    hide BE;
  }

  lemma LongAt(before: bytes, head: bytes, data: bytes, prev: u64)
    requires |head| == BLOCK_HEADER_LEN && head[16..24] == BE(prev, 8)
    ensures U64At(before + (head + data), |before| + 16) == prev
  {
    hide BE, FromBE;
    FixedRoundTrips();
    var s := before + (head + data);
    assert s[|before| + 16..|before| + 16 + 8] == head[16..24];
  }

  /** The blocks from `cursor` on, up to the first that is not whole, and where they end. */
  function LoadFrom(lib: Library, file: bytes, cursor: nat): (seq<Block>, nat)
    decreases |file| - cursor
  {
    match ReadBlock(lib, file, cursor)
    case None => ([], cursor)
    case Some(found) =>
      var (rest, end) := LoadFrom(lib, file, found.next);
      ([Block(found.width, found.entries, cursor)] + rest, end)
  }

  function Load(lib: Library, file: bytes): (seq<Block>, nat) {
    if |file| >= 8 && file[..4] == FILE_MAGIC then
      var (blocks, end) := LoadFrom(lib, file, 8);
      (blocks, if blocks == [] then 0 else end)
    else ([], 0)
  }

  function PromotedOfBlock(entries: seq<blob>, b: nat, n: nat): map<blob, (byte, nat)>
    requires n <= |entries|
  {
    if n == 0 then map[] else PromotedOfBlock(entries, b, n - 1)[entries[n - 1] := (CodeOf(b), n - 1)]
  }

  function PromotedOf(blocks: seq<Block>, n: nat): map<blob, (byte, nat)>
    requires n <= |blocks|
  {
    if n == 0 then map[]
    else PromotedOf(blocks, n - 1) + PromotedOfBlock(blocks[n - 1].entries, n - 1, |blocks[n - 1].entries|)
  }

  /** What a writer takes over from a dictionary file: its blocks, closed, and a fresh one of the last width. */
  function Adopted(lib: Library, file: bytes): State {
    var (blocks, end) := Load(lib, file);
    var width := if blocks == [] then 2 else blocks[|blocks| - 1].width;
    State(file, end, blocks + [Block(width, [], 0)], |blocks|, map[], PromotedOf(blocks, |blocks|))
  }

  // --- A block read back ---

  lemma {:induction false} EntriesOfTexts(payload: bytes, pos: nat, entries: seq<blob>)
    requires pos <= |payload| && payload[pos..] == Texts(entries)
    ensures EntriesFrom(payload, pos, |entries|) == entries
    decreases |entries|
  {
    if entries == [] {
      assert |payload[pos..]| == 0;
    } else {
      var (text, rest) := (entries[0], Texts(entries[1..]));
      var head := Varint.Put(|text|);
      FirstText(payload, pos, head, text, rest);
      Varint.GetPut(payload, pos, |text|);
      EntriesOfTexts(payload, pos + |head| + |text|, entries[1..]);
    }
  }

  lemma {:induction false} FirstText(payload: bytes, pos: nat, head: bytes, text: bytes, rest: bytes)
    requires pos <= |payload| && payload[pos..] == head + text + rest
    ensures var at := pos + |head|;
      && at + |text| <= |payload| && payload[pos..at] == head && payload[at..at + |text|] == text
      && payload[at + |text|..] == rest
  {
    var (at, tail) := (pos + |head|, payload[pos..]);
    assert payload[pos..at] == tail[..|head|];
    assert payload[at..at + |text|] == tail[|head|..|head| + |text|];
    assert payload[at + |text|..] == tail[|head + text|..];
  }

  lemma {:induction false} TextsAreAtLeastTheirCount(entries: seq<blob>)
    ensures |Texts(entries)| >= |entries|
    decreases |entries|
  {
    if entries != [] { TextsAreAtLeastTheirCount(entries[1..]); }
  }

  /** A block whose width has a code and whose texts fit the header's length field. */
  predicate Reloadable(width: nat, entries: seq<blob>) {
    width in {2, 4, 8} && |Texts(entries)| < U32_END
  }

  lemma {:induction false} HeadRoundTrip(h: Head, prev: nat)
    requires h.width in {2, 4, 8}
    ensures DecodeHead(EncodeHead(h, prev)) == Some(h)
  {
    FixedRoundTrips();
    hide BE, FromBE, Pow256;
    var s := EncodeHead(h, prev);
    assert s[..4] == BLOCK_MAGIC && s[5] == h.codec.Code() && s[6] == WidthCode(h.width);
    var a := BLOCK_MAGIC + [1, h.codec.Code(), WidthCode(h.width), 0] + BE(h.count, 4) + [0, 0, 0, 0] + BE(prev, 8);
    assert |a| == 24 && s == a + BE(h.lenC, 4) + BE(h.lenU, 4);
    assert s[8..12] == BE(h.count, 4) && s[24..28] == BE(h.lenC, 4) && s[28..32] == BE(h.lenU, 4);
  }

  lemma {:induction false} StoredReadsBack(lib: Library, payload: bytes)
    requires Lawful(lib)
    ensures var (codec, data) := Stored(lib, payload);
      PayloadOf(lib, codec, data, |payload|) == Some(payload) && |data| <= |payload|
  {}

  lemma {:induction false} HeadIsExact(lib: Library, width: nat, entries: seq<blob>)
    requires Lawful(lib) && Reloadable(width, entries)
    ensures var (codec, data) := Stored(lib, Texts(entries));
      var h := HeadOf(lib, width, entries);
      h.codec == codec && h.width == width
      && h.count == |entries| && h.lenC == |data| && h.lenU == |Texts(entries)|
  {
    TextsAreAtLeastTheirCount(entries);
    hide Texts;
    StoredReadsBack(lib, Texts(entries));
  }

  lemma {:induction false} ReadBlockOfImage(lib: Library, file: bytes, at: nat, width: nat, entries: seq<blob>,
      prev: nat)
    requires Lawful(lib) && Reloadable(width, entries)
    requires at <= |file| && BlockImage(lib, width, entries, prev) <= file[at..]
    ensures ReadBlock(lib, file, at)
         == Some(Found(width, entries, at + |BlockImage(lib, width, entries, prev)|))
  {
    hide Texts, PayloadOf, Stored, EntriesFrom, Lawful, EncodeHead, DecodeHead, HeadOf;
    var (s, payload, head) := (BlockImage(lib, width, entries, prev), Texts(entries), HeadOf(lib, width, entries));
    HeadIsExact(lib, width, entries);
    HeadRoundTrip(head, prev);
    StoredReadsBack(lib, payload);
    SplitAt(file, at, EncodeHead(head, prev), Stored(lib, payload).1);
    assert payload[0..] == payload;
    EntriesOfTexts(payload, 0, entries);
  }

  lemma {:induction false} SplitAt(file: bytes, at: nat, a: bytes, b: bytes)
    requires at <= |file| && a + b <= file[at..]
    ensures at + |a| + |b| <= |file| && file[at..at + |a|] == a && file[at + |a|..at + |a| + |b|] == b
  {
    assert file[at..][..|a + b|] == a + b;
    assert file[at..at + |a|] == (a + b)[..|a|];
    assert file[at + |a|..at + |a| + |b|] == (a + b)[|a|..];
  }

  /** A cut inside a block leaves nothing readable of it. */
  lemma {:induction false} CutBlockIsUnreadable(lib: Library, file: bytes, at: nat, width: nat, entries: seq<blob>,
      prev: nat)
    requires Lawful(lib) && Reloadable(width, entries)
    requires at <= |file| && file[at..] <= BlockImage(lib, width, entries, prev)
    requires |file[at..]| < |BlockImage(lib, width, entries, prev)|
    ensures ReadBlock(lib, file, at) == None
  {
    hide Texts, Stored, EntriesFrom, Lawful, EncodeHead, DecodeHead, HeadOf;
    var head := HeadOf(lib, width, entries);
    HeadIsExact(lib, width, entries);
    if at + BLOCK_HEADER_LEN <= |file| {
      HeadRoundTrip(head, prev);
      assert file[at..at + BLOCK_HEADER_LEN] == file[at..][..BLOCK_HEADER_LEN]
        == BlockImage(lib, width, entries, prev)[..BLOCK_HEADER_LEN] == EncodeHead(head, prev);
    }
  }

  // --- The whole file ---

  ghost predicate AllReloadable(blocks: seq<Block>, n: nat)
    requires n <= |blocks|
  {
    forall i :: 0 <= i < n ==> Reloadable(blocks[i].width, blocks[i].entries)
  }

  /** Loading walks exactly over the blocks written, then goes on with whatever follows them. */
  lemma {:induction false} LoadWalksBlocks(lib: Library, file: bytes, blocks: seq<Block>, k: nat, n: nat)
    requires Lawful(lib) && k <= n <= |blocks| && AllReloadable(blocks, n)
    requires Image(lib, blocks, n) <= file
    requires Placed(lib, blocks, n)
    ensures var (rest, end) := LoadFrom(lib, file, |Image(lib, blocks, n)|);
      LoadFrom(lib, file, |Image(lib, blocks, k)|) == (blocks[k..n] + rest, end)
    decreases n - k
  {
    hide BlockImage, ReadBlock, Texts, LoadFrom, Placed, AllReloadable, Lawful, Reloadable;
    if k == n {
      assert blocks[k..n] == [];
      var (rest, end) := LoadFrom(lib, file, |Image(lib, blocks, n)|);
      assert [] + rest == rest;
    } else {
      var at := |Image(lib, blocks, k)|;
      var image := BlockImage(lib, blocks[k].width, blocks[k].entries, PrevOffset(blocks, k));
      ImageGrows(lib, blocks, k);
      ImageIsPrefix(lib, blocks, k + 1, n);
      hide Image;
      PrefixAt(file, Image(lib, blocks, k), image);
      PlacedAt(lib, blocks, n, k);
      ReadBlockOfImage(lib, file, at, blocks[k].width, blocks[k].entries, PrevOffset(blocks, k));
      LoadWalksBlocks(lib, file, blocks, k + 1, n);
      LoadStep(lib, file, at);
      var (rest, end) := LoadFrom(lib, file, |Image(lib, blocks, n)|);
      assert [blocks[k]] + (blocks[k + 1..n] + rest) == blocks[k..n] + rest;
    }
  }

  lemma {:induction false} PlacedAt(lib: Library, blocks: seq<Block>, n: nat, k: nat)
    requires k < n <= |blocks| && Placed(lib, blocks, n) && AllReloadable(blocks, n)
    ensures blocks[k].fileOffset == |Image(lib, blocks, k)| && Reloadable(blocks[k].width, blocks[k].entries)
  {
    hide Image, Reloadable;
  }

  lemma {:induction false} LoadStep(lib: Library, file: bytes, at: nat)
    requires ReadBlock(lib, file, at).Some?
    ensures var found := ReadBlock(lib, file, at).value;
      var (rest, end) := LoadFrom(lib, file, found.next);
      LoadFrom(lib, file, at) == ([Block(found.width, found.entries, at)] + rest, end)
  {
    hide ReadBlock;
  }

  lemma {:induction false} PrefixAt(file: bytes, before: bytes, data: bytes)
    requires before + data <= file
    ensures data <= file[|before|..]
  {
    assert file[|before|..][..|data|] == (before + data)[|before|..] == data;
  }

  lemma {:induction false} ImageIsPrefix(lib: Library, blocks: seq<Block>, k: nat, n: nat)
    requires k <= n <= |blocks|
    ensures Image(lib, blocks, k) <= Image(lib, blocks, n)
    decreases n - k
  {
    hide BlockImage;
    if k < n { ImageIsPrefix(lib, blocks, k, n - 1); }
  }

  /** Every block the writer has flushed is in the reloaded dictionary, at its index. */
  lemma {:induction false} ReloadKeepsBlocks(lib: Library, st: State)
    requires Lawful(lib) && OnDisk(lib, st) && AllReloadable(st.blocks, st.open)
    ensures st.blocks[..st.open] <= Load(lib, st.file).0
    ensures st.file == Image(lib, st.blocks, st.open) ==>
              Load(lib, st.file).0 == st.blocks[..st.open]
  {
    hide BlockImage, ReadBlock, Texts, LoadFrom, Load, Lawful, Reloadable, Image;
    LoadOfPrefix(lib, st.file, st.blocks, st.open);
    if st.file == Image(lib, st.blocks, st.open) {
      NothingAtTheEnd(lib, st.file);
      assert st.blocks[..st.open] + [] == st.blocks[..st.open];
    }
  }

  lemma {:induction false} NothingAtTheEnd(lib: Library, file: bytes)
    ensures LoadFrom(lib, file, |file|) == ([], |file|)
  {}

  /** How many of the first `n` blocks lie wholly inside the first `cut` bytes. */
  function Whole(lib: Library, blocks: seq<Block>, n: nat, cut: nat): (m: nat)
    requires n <= |blocks|
    ensures m <= n
  {
    if n == 0 || |Image(lib, blocks, n)| <= cut then n else Whole(lib, blocks, n - 1, cut)
  }

  lemma {:induction false} WholeBounds(lib: Library, blocks: seq<Block>, n: nat, cut: nat)
    requires n <= |blocks| && |FILE_HEADER| <= cut
    ensures var m := Whole(lib, blocks, n, cut);
      |Image(lib, blocks, m)| <= cut && (m < n ==> cut < |Image(lib, blocks, m + 1)|)
  {
    hide BlockImage;
    if n > 0 && |Image(lib, blocks, n)| > cut { WholeBounds(lib, blocks, n - 1, cut); }
  }

  lemma {:induction false} PrefixesNest(a: bytes, b: bytes, n: nat, s: bytes)
    requires a <= s && b <= s && |a| <= n <= |b|
    ensures a <= s[..n] <= b && s[..n][|a|..] <= b[|a|..]
  {
    assert s[..n][..|a|] == a;
    assert b[..n] == s[..n];
    assert b[|a|..][..n - |a|] == s[..n][|a|..];
  }

  lemma {:induction false} NothingAfterTheCut(lib: Library, blocks: seq<Block>, n: nat, cut: nat)
    requires Lawful(lib) && n <= |blocks| && AllReloadable(blocks, n)
    requires |FILE_HEADER| <= cut <= |Image(lib, blocks, n)|
    ensures var (m, file) := (Whole(lib, blocks, n, cut), Image(lib, blocks, n)[..cut]);
      && Image(lib, blocks, m) <= file
      && LoadFrom(lib, file, |Image(lib, blocks, m)|) == ([], |Image(lib, blocks, m)|)
  {
    hide BlockImage, ReadBlock, Texts, LoadFrom, Lawful, Reloadable, Whole, Image;
    var (m, file) := (Whole(lib, blocks, n, cut), Image(lib, blocks, n)[..cut]);
    WholeBounds(lib, blocks, n, cut);
    ImageIsPrefix(lib, blocks, m, n);
    if m < n {
      var (b, prev) := (blocks[m], PrevOffset(blocks, m));
      ImageIsPrefix(lib, blocks, m + 1, n);
      ImageGrows(lib, blocks, m);
      PrefixesNest(Image(lib, blocks, m), Image(lib, blocks, m + 1), cut, Image(lib, blocks, n));
      assert Image(lib, blocks, m + 1)[|Image(lib, blocks, m)|..] == BlockImage(lib, b.width, b.entries, prev);
      CutBlockIsUnreadable(lib, file, |Image(lib, blocks, m)|, b.width, b.entries, prev);
      LoadStops(lib, file, |Image(lib, blocks, m)|);
    } else {
      assert file == Image(lib, blocks, m);
      NothingAtTheEnd(lib, file);
    }
  }

  /** A dictionary file cut anywhere after its header loads exactly the blocks wholly before the cut. */
  lemma {:induction false} CutLoadsWholeBlocks(lib: Library, blocks: seq<Block>, n: nat, cut: nat)
    requires Lawful(lib) && n <= |blocks| && AllReloadable(blocks, n) && Placed(lib, blocks, n)
    requires |FILE_HEADER| <= cut <= |Image(lib, blocks, n)|
    ensures var m := Whole(lib, blocks, n, cut);
      Load(lib, Image(lib, blocks, n)[..cut])
      == (blocks[..m], if m == 0 then 0 else |Image(lib, blocks, m)|)
  {
    hide BlockImage, ReadBlock, Texts, LoadFrom, Lawful, Reloadable, Whole, Image;
    var (m, file) := (Whole(lib, blocks, n, cut), Image(lib, blocks, n)[..cut]);
    NothingAfterTheCut(lib, blocks, n, cut);
    LoadOfPrefix(lib, file, blocks, m);
    assert blocks[..m] + [] == blocks[..m];
  }

  /** Loading from the start: the blocks written, then what follows them. */
  lemma {:induction false} LoadOfPrefix(lib: Library, file: bytes, blocks: seq<Block>, n: nat)
    requires Lawful(lib) && n <= |blocks| && AllReloadable(blocks, n) && Placed(lib, blocks, n)
    requires Image(lib, blocks, n) <= file
    ensures var (rest, end) := LoadFrom(lib, file, |Image(lib, blocks, n)|);
      Load(lib, file) == (blocks[..n] + rest, if n == 0 && rest == [] then 0 else end)
  {
    hide BlockImage, ReadBlock, Texts, LoadFrom, Lawful, Reloadable;
    ImageIsPrefix(lib, blocks, 0, n);
    assert Image(lib, blocks, 0) == FILE_HEADER;
    hide Image;
    assert file[..4] == FILE_MAGIC by { assert file[..8] == FILE_HEADER; }
    LoadWalksBlocks(lib, file, blocks, 0, n);
    assert blocks[0..n] == blocks[..n];
  }

  lemma {:induction false} LoadStops(lib: Library, file: bytes, at: nat)
    requires ReadBlock(lib, file, at).None?
    ensures LoadFrom(lib, file, at) == ([], at)
  {
    hide ReadBlock;
  }

  lemma {:induction false} TooShortToRead(lib: Library, file: bytes, at: nat)
    requires at + BLOCK_HEADER_LEN > |file|
    ensures ReadBlock(lib, file, at) == None && LoadFrom(lib, file, at) == ([], at)
  {}

  // --- Adoption ---

  lemma {:induction false} PromotedOfBlockIs(entries: seq<blob>, b: nat, n: nat)
    requires n <= |entries|
    requires forall i, j | 0 <= i < j < |entries| :: entries[i] != entries[j]
    ensures var p := PromotedOfBlock(entries, b, n);
      && (forall i :: 0 <= i < n ==> entries[i] in p && p[entries[i]] == (CodeOf(b), i))
      && (forall t :: t in p ==> exists i :: 0 <= i < n && entries[i] == t)
  {
    if n > 0 { PromotedOfBlockIs(entries, b, n - 1); }
  }

  lemma TextsDiffer(blocks: seq<Block>, b: nat)
    requires Distinct(blocks) && b < |blocks|
    ensures forall i, j | 0 <= i < j < |blocks[b].entries| :: blocks[b].entries[i] != blocks[b].entries[j]
  {
    var entries := blocks[b].entries;
    forall i, j | 0 <= i < j < |entries| ensures entries[i] != entries[j] {
      assert Holds(blocks, b, i, entries[i]) && Holds(blocks, b, j, entries[j]);
    }
  }

  lemma NotInLater(blocks: seq<Block>, b: nat, i: nat, c: nat, j: nat)
    requires Distinct(blocks) && b < c < |blocks| && i < |blocks[b].entries| && j < |blocks[c].entries|
    ensures blocks[c].entries[j] != blocks[b].entries[i]
  {
    assert Holds(blocks, b, i, blocks[b].entries[i]) && Holds(blocks, c, j, blocks[c].entries[j]);
  }

  /** An entry has its own code. */
  lemma {:induction false} EntryIsPromoted(blocks: seq<Block>, n: nat, b: nat, i: nat)
    requires n <= |blocks| && Distinct(blocks) && b < n && i < |blocks[b].entries|
    ensures blocks[b].entries[i] in PromotedOf(blocks, n) && PromotedOf(blocks, n)[blocks[b].entries[i]] == (CodeOf(b), i)
    decreases n
  {
    hide PromotedOfBlock, CodeOf, Distinct;
    var (entries, t) := (blocks[n - 1].entries, blocks[b].entries[i]);
    TextsDiffer(blocks, n - 1);
    PromotedOfBlockIs(entries, n - 1, |entries|);
    if b < n - 1 {
      EntryIsPromoted(blocks, n - 1, b, i);
      forall j | 0 <= j < |entries| ensures entries[j] != t { NotInLater(blocks, b, i, n - 1, j); }
      assert t !in PromotedOfBlock(entries, n - 1, |entries|);
      assert PromotedOf(blocks, n) == PromotedOf(blocks, n - 1) + PromotedOfBlock(entries, n - 1, |entries|);
    }
  }

  /** The codes rebuilt from a file are those of its entries, as long as no text occurs twice. */
  lemma {:induction false} PromotedOfIs(blocks: seq<Block>, n: nat)
    requires n <= |blocks| && Distinct(blocks)
    ensures var p := PromotedOf(blocks, n);
      && (forall b, i, t :: Holds(blocks, b, i, t) && b < n ==> t in p && p[t] == (CodeOf(b), i))
      && (forall t :: t in p ==> exists b, i :: b < n && Holds(blocks, b, i, t))
  {
    hide PromotedOf, CodeOf, Distinct;
    forall b, i, t | Holds(blocks, b, i, t) && b < n
      ensures t in PromotedOf(blocks, n) && PromotedOf(blocks, n)[t] == (CodeOf(b), i)
    {
      EntryIsPromoted(blocks, n, b, i);
    }
    forall t | t in PromotedOf(blocks, n) ensures exists b, i :: b < n && Holds(blocks, b, i, t) {
      var b, i := PromotedAt(blocks, n, t);
    }
  }

  /** Every code rebuilt is an entry's. */
  lemma {:induction false} PromotedAt(blocks: seq<Block>, n: nat, t: blob) returns (b: nat, i: nat)
    requires n <= |blocks| && Distinct(blocks) && t in PromotedOf(blocks, n)
    ensures b < n && Holds(blocks, b, i, t) && PromotedOf(blocks, n)[t] == (CodeOf(b), i)
    decreases n
  {
    hide PromotedOfBlock, CodeOf, Distinct;
    var entries := blocks[n - 1].entries;
    TextsDiffer(blocks, n - 1);
    PromotedOfBlockIs(entries, n - 1, |entries|);
    if t in PromotedOfBlock(entries, n - 1, |entries|) {
      var j :| 0 <= j < |entries| && entries[j] == t;
      b, i := n - 1, j;
    } else {
      b, i := PromotedAt(blocks, n - 1, t);
    }
  }

  /** Adopting a file that holds the first `m` blocks of a coherent dictionary carries that dictionary on
      exactly when there is at least one: with none, the next block would be written over the file's header. */
  lemma {:induction false} AdoptionCarriesOn(lib: Library, file: bytes, blocks: seq<Block>, m: nat)
    requires m <= |blocks| && Distinct(blocks) && Placed(lib, blocks, m)
    requires Image(lib, blocks, m) <= file
    requires Load(lib, file) == (blocks[..m], if m == 0 then 0 else |Image(lib, blocks, m)|)
    ensures var st := Adopted(lib, file);
      && Coherent(st) && Writable(st) && st.blocks[..m] == blocks[..m]
      && Extends(blocks[..m], st.blocks)
      && (OnDisk(lib, st) <==> m > 0)
  {
    hide BlockImage, Load, PromotedOf, Image;
    var st := Adopted(lib, file);
    assert forall b, i, t :: Holds(blocks[..m], b, i, t) ==> Holds(blocks, b, i, t);
    assert forall b, i, t :: Holds(st.blocks, b, i, t) <==> Holds(blocks[..m], b, i, t);
    PromotedOfIs(blocks[..m], m);
    assert st.promoted == PromotedOf(blocks[..m], m);
    forall t | t in st.promoted
      ensures exists b, i :: Holds(st.blocks, b, i, t) && st.promoted[t] == (CodeOf(b), i)
    {
      var b, i := PromotedAt(blocks[..m], m, t);
      assert Holds(st.blocks, b, i, t);
    }
    assert st.blocks[..m] == blocks[..m];
    ImagesAgree(lib, blocks, st.blocks, m);
    assert |Image(lib, st.blocks, st.open)| >= 8;
  }

  /** The first block flushed after adopting a file without blocks destroys the file: no reload finds anything. */
  lemma {:induction false} AdoptingAnEmptyFileLosesTheDictionary(lib: Library, file: bytes, text: blob)
    requires Load(lib, file).0 == []
    ensures var st := AddEntry(Adopted(lib, file), text);
      Load(lib, AfterFlush(lib, st).file).0 == []
  {
    hide *;
    var image := BlockImage(lib, 2, [text], 0);
    ImageStarts(lib, [text]);
    WrittenFirst(file, image);
    FlushOverHeader(lib, file, text);
    NoHeader(lib, WriteAt(file, 0, image), image);
  }

  lemma ImageStarts(lib: Library, entries: seq<blob>)
    ensures var image := BlockImage(lib, 2, entries, 0); |image| >= 4 && image[..4] == BLOCK_MAGIC
  {
    hide HeadOf, Stored, Texts, BE;
  }

  lemma WrittenFirst(file: bytes, image: bytes)
    ensures var written := WriteAt(file, 0, image); |image| <= |written| && written[..|image|] == image
  {}

  lemma FlushOverHeader(lib: Library, file: bytes, text: blob)
    requires Load(lib, file).0 == []
    ensures AfterFlush(lib, AddEntry(Adopted(lib, file), text)).file == WriteAt(file, 0, BlockImage(lib, 2, [text], 0))
  {
    hide LoadFrom, BlockImage, WriteAt;
    var none: seq<blob> := [];
    assert none + [text] == [text];
  }

  lemma NoHeader(lib: Library, file: bytes, image: bytes)
    requires |image| >= 4 && image[..4] == BLOCK_MAGIC && |image| <= |file| && file[..|image|] == image
    ensures Load(lib, file).0 == []
  {
    hide LoadFrom;
    assert file[..4] == image[..4];
    assert file[3] == 75;
  }
}
