/** The dictionary as the writer holds it: one object whose fields the appends and flushes update. */
module Dictionary {
  import opened Bytes
  import opened Foreign
  import Dict
  import DictFile
  import DictCodes
  import Format
  import Varint

  class Dictionary {
    const lib: Library
    const config: Dict.Config
    var file: bytes
    var fileOffset: nat
    var blocks: seq<Dict.Block>
    var open: nat
    var counts: map<u64, nat>
    var promoted: map<blob, (byte, nat)>

    function Now(): Dict.State
      reads this
    {
      Dict.State(file, fileOffset, blocks, open, counts, promoted)
    }

    constructor (lib: Library, config: Dict.Config)
      ensures Now() == DictCodes.FRESH && this.lib == lib && this.config == config
    {
      this.lib, this.config := lib, config;
      file, fileOffset := Dict.FILE_HEADER, 8;
      blocks, open := [Dict.Block(2, [], 0)], 0;
      counts, promoted := map[], map[];
    }

    /** Take over the file of an existing part: what is on disk is closed, a fresh block opens. */
    constructor Adopt(lib: Library, config: Dict.Config, bytes': bytes)
      ensures Now() == DictFile.Adopted(lib, bytes') && this.lib == lib && this.config == config
    {
      this.lib, this.config := lib, config;
      var loaded, end := Load(lib, bytes');
      var codes: map<blob, (byte, nat)> := map[];
      for b := 0 to |loaded|
        invariant codes == DictFile.PromotedOf(loaded, b)
      {
        var entries := loaded[b].entries;
        var before := codes;
        for i := 0 to |entries|
          invariant codes == before + DictFile.PromotedOfBlock(entries, b, i)
        {
          codes := codes[entries[i] := (Dict.CodeOf(b), i)];
        }
      }
      var width := if loaded == [] then 2 else loaded[|loaded| - 1].width;
      file, fileOffset := bytes', end;
      blocks, open := loaded + [Dict.Block(width, [], 0)], |loaded|;
      counts, promoted := map[], codes;
    }

    /** Count a string and decide its form: a code, or nothing for an inline string. */
    method Settle(text: blob) returns (code: Option<(byte, nat)>)
      requires Dict.Writable(Now())
      modifies this
      ensures (Now(), code) == Dict.AfterSettle(lib, config, old(Now()), text)
    {
      if text in promoted {
        return Some(promoted[text]);
      }
      var key := lib.hash(text);
      var count := 1;
      if key in counts {
        count := counts[key] + 1;
        counts := counts[key := count];
      } else if |counts| < Dict.COUNT_TRACK_LIMIT {
        counts := counts[key := 1];
      }
      var threshold := Dict.ThresholdFor(|text|, blocks[open].width, config.tiers);
      if threshold.None? || count < threshold.value {
        return None;
      }
      counts := counts - {key};
      var given := Promote(text);
      code := Some(given);
    }

    method Promote(text: blob) returns (code: (byte, nat))
      requires Dict.Writable(Now())
      modifies this
      ensures Now() == Dict.AfterPromote(lib, config, old(Now()), text)
      ensures text in promoted && code == promoted[text]
    {
      if |blocks[open].entries| >= if config.blockEntries > 1 then config.blockEntries else 1 {
        CloseBlock();
      }
      var b := blocks[open];
      code := (Dict.CodeOf(open), |b.entries|);
      blocks := blocks[open := b.(entries := b.entries + [text])];
      promoted := promoted[text := code];
    }

    /** Write the open block and start one of twice its width. */
    method CloseBlock()
      requires Dict.Writable(Now())
      modifies this
      ensures Now() == Dict.AfterClose(lib, old(Now()))
      ensures Dict.Writable(Now())
    {
      FlushOpenBlock();
      blocks := blocks + [Dict.Block(2 * blocks[open].width, [], 0)];
      open := |blocks| - 1;
    }

    method FlushOpenBlock()
      requires Dict.Writable(Now())
      modifies this
      ensures Now() == Dict.AfterWrite(lib, old(Now()))
      ensures Dict.Writable(Now()) && open == old(open) && |blocks| == old(|blocks|)
      ensures blocks[open].width == old(blocks[open].width)
    {
      var b := blocks[open];
      if b.entries == [] {
        return;
      }
      hide Dict.BlockImage, WriteAt;
      var prev := if open == 0 then 0 else blocks[open - 1].fileOffset;
      var image := ImageOf(lib, b.width, b.entries, prev);
      var at := fileOffset;
      file := WriteAt(file, at, image);
      fileOffset := at + |image|;
      blocks := blocks[open := b.(fileOffset := at)];
    }

    /** Put what has been promoted on disk before the records that refer to it. */
    method FlushIfDirty()
      requires Dict.Writable(Now())
      modifies this
      ensures Now() == Dict.AfterFlush(lib, old(Now()))
      ensures Dict.Writable(Now())
    {
      if blocks[open].entries == [] {
        return;
      }
      FlushOpenBlock();
      blocks := blocks + [Dict.Block(blocks[open].width, [], 0)];
      open := |blocks| - 1;
    }

    /** At the seal: whatever is still in memory lands on disk. */
    method Finish()
      requires Dict.Writable(Now())
      modifies this
      ensures Now() == Dict.AfterWrite(lib, old(Now()))
    {
      FlushOpenBlock();
    }
  }

  /** A block as it is written: its header, and its texts stored the shorter way. */
  method ImageOf(lib: Library, width: nat, entries: seq<blob>, prev: nat) returns (image: bytes)
    ensures image == Dict.BlockImage(lib, width, entries, prev)
  {
    hide Dict.Texts, Dict.EncodeHead;
    var payload := EncodeTexts(entries);
    var compressed := lib.compress(payload);
    var codec, data := Format.Raw, payload;
    if |compressed| < |payload| {
      codec, data := Format.Zstd, compressed;
    }
    var head := Dict.Head(codec, width, Low32(|entries|), Low32(|data|), Low32(|payload|));
    image := Dict.EncodeHead(head, prev) + data;
  }

  method EncodeTexts(entries: seq<blob>) returns (payload: bytes)
    ensures payload == Dict.Texts(entries)
  {
    hide Varint.Put;
    payload := [];
    for i := 0 to |entries|
      invariant payload + Dict.Texts(entries[i..]) == Dict.Texts(entries)
    {
      ghost var before, rest := payload, Dict.Texts(entries[i + 1..]);
      assert entries[i..][0] == entries[i] && entries[i..][1..] == entries[i + 1..];
      payload := Varint.PutVarint(payload, |entries[i]|);
      payload := payload + entries[i];
      assert payload + rest == before + (Varint.Put(|entries[i]|) + entries[i] + rest);
    }
  }

  method Load(lib: Library, file: bytes) returns (blocks: seq<Dict.Block>, end: nat)
    ensures (blocks, end) == DictFile.Load(lib, file)
  {
    hide DictFile.LoadFrom, DictFile.ReadBlock;
    blocks, end := [], 0;
    if |file| < 8 || file[..4] != Dict.FILE_MAGIC {
      return;
    }
    var cursor := 8;
    ghost var (all, last) := DictFile.LoadFrom(lib, file, 8);
    assert [] + all == all;
    while cursor + Dict.BLOCK_HEADER_LEN <= |file|
      invariant all == blocks + DictFile.LoadFrom(lib, file, cursor).0
      invariant last == DictFile.LoadFrom(lib, file, cursor).1
      invariant end == if blocks == [] then 0 else cursor
      decreases |file| - cursor
    {
      var found := ReadBlock(lib, file, cursor);
      if found.None? {
        DictFile.LoadStops(lib, file, cursor);
        assert blocks + [] == blocks;
        return;
      }
      DictFile.LoadStep(lib, file, cursor);
      blocks := Extend(blocks, Dict.Block(found.value.width, found.value.entries, cursor),
                       DictFile.LoadFrom(lib, file, found.value.next).0);
      cursor := found.value.next;
      end := cursor;
    }
    DictFile.TooShortToRead(lib, file, cursor);
    assert blocks + [] == blocks;
  }

  method Extend<T>(xs: seq<T>, x: T, ghost rest: seq<T>) returns (ys: seq<T>)
    ensures ys == xs + [x] && ys + rest == xs + ([x] + rest)
  {
    ys := xs + [x];
  }

  method ReadBlock(lib: Library, file: bytes, at: nat) returns (r: Option<DictFile.Found>)
    ensures r == DictFile.ReadBlock(lib, file, at)
  {
    if at + Dict.BLOCK_HEADER_LEN > |file| {
      return None;
    }
    var head := DictFile.DecodeHead(file[at..at + Dict.BLOCK_HEADER_LEN]);
    if head.None? || at + Dict.BLOCK_HEADER_LEN + head.value.lenC > |file| {
      return None;
    }
    var h, next := head.value, at + Dict.BLOCK_HEADER_LEN + head.value.lenC;
    var payload := DictFile.PayloadOf(lib, h.codec, file[at + Dict.BLOCK_HEADER_LEN..next], h.lenU);
    if payload.None? || |payload.value| != h.lenU {
      return None;
    }
    var entries := ReadEntries(payload.value, h.count);
    r := Some(DictFile.Found(h.width, entries, next));
  }

  method ReadEntries(payload: bytes, count: nat) returns (entries: seq<blob>)
    ensures entries == DictFile.EntriesFrom(payload, 0, count)
  {
    hide Varint.Get, DictFile.EntriesFrom;
    entries := [];
    var pos := 0;
    ghost var all := DictFile.EntriesFrom(payload, 0, count);
    assert [] + all == all;
    while pos < |payload| && |entries| < count
      invariant |entries| <= count && all == entries + DictFile.EntriesFrom(payload, pos, count - |entries|)
      decreases |payload| - pos
    {
      EntriesUnfold(payload, pos, count - |entries|);
      var len := Varint.GetVarint(payload, pos);
      if len.None? || len.value.1 + len.value.0 > |payload| {
        assert entries + [] == entries;
        return;
      }
      var (n, at) := len.value;
      entries := Extend(entries, payload[at..at + n], DictFile.EntriesFrom(payload, at + n, count - |entries| - 1));
      pos := at + n;
    }
    NoEntriesLeft(payload, pos, count - |entries|);
    assert entries + [] == entries;
  }

  lemma EntriesUnfold(payload: bytes, pos: nat, count: nat)
    requires pos < |payload| && count > 0
    ensures DictFile.EntriesFrom(payload, pos, count)
         == match Varint.Get(payload, pos)
            case None => []
            case Some((n, at)) => if at + n > |payload| then [] else [payload[at..at + n]] + DictFile.EntriesFrom(payload, at + n, count - 1)
  {
    hide Varint.Get;
  }

  lemma NoEntriesLeft(payload: bytes, pos: nat, count: nat)
    requires pos >= |payload| || count == 0
    ensures DictFile.EntriesFrom(payload, pos, count) == []
  {
    hide Varint.Get;
  }
}
