/** When a code resolves to the string it was handed out for. */
module DictCodes {
  import opened Bytes
  import opened Foreign
  import opened Dict

  /** The `w` low bytes of the id are what a record carries; this is what a reader makes of them. */
  function Resolve(blocks: seq<Block>, code: byte, raw: bytes): Option<blob> {
    Lookup(blocks, code, FromBE(raw))
  }

  /** A handed-out code resolves to its string exactly when its block is one of the first 240 and its id
      fits the block's width. Otherwise a reader gets another string, or none. */
  lemma {:induction false} ResolvesExactly(st: State, b: nat, i: nat, t: blob)
    requires Coherent(st) && Holds(st.blocks, b, i, t)
    ensures WidthOf(st.blocks, CodeOf(b)).Some?
    ensures Resolve(st.blocks, CodeOf(b), BE(i, WidthOf(st.blocks, CodeOf(b)).value)) == Some(t)
       <==> b < 240 && i < Pow256(st.blocks[b].width)
  {
    hide Recorded, Located, Pow256, BE, FromBE;
    CodeNamesItsBlock(b);
    var home := CodeOf(b) - DICT_BASE;
    var w := st.blocks[home].width;
    var id := FromBE(BE(i, w));
    FromBEOfBE(i, w);
    if id < |st.blocks[home].entries| {
      assert Holds(st.blocks, home, id, st.blocks[home].entries[id]);
    }
  }

  /** Every block that holds strings is one of the first 240, at most eight bytes wide, and its ids fit. */
  ghost predicate Sound(blocks: seq<Block>) {
    forall b :: 0 <= b < |blocks| && blocks[b].entries != [] ==>
      b < 240 && blocks[b].width in {2, 4, 8} && |blocks[b].entries| <= Pow256(blocks[b].width)
  }

  lemma {:induction false} SoundGoesBack(earlier: seq<Block>, later: seq<Block>)
    requires Extends(earlier, later) && Sound(later)
    ensures Sound(earlier)
  {
    hide Pow256;
    forall b | 0 <= b < |earlier| && earlier[b].entries != []
      ensures b < 240 && earlier[b].width in {2, 4, 8} && |earlier[b].entries| <= Pow256(earlier[b].width)
    {
      assert earlier[b].entries <= later[b].entries;
    }
  }

  /** A settled string, written now, reads back from the dictionary as it is at any later time. */
  lemma {:induction false} SettledReadsBack(lib: Library, c: Config, st: State, text: blob, later: seq<Block>)
    requires Coherent(st) && Writable(st)
    requires AfterSettle(lib, c, st, text).1.Some?
    requires Extends(AfterSettle(lib, c, st, text).0.blocks, later) && Sound(later)
    ensures var (st', code) := AfterSettle(lib, c, st, text);
      && WidthOf(st'.blocks, code.value.0).Some? && WidthOf(st'.blocks, code.value.0).value in {2, 4, 8}
      && WidthOf(later, code.value.0) == WidthOf(st'.blocks, code.value.0)
      && Resolve(later, code.value.0, BE(code.value.1, WidthOf(later, code.value.0).value)) == Some(text)
  {
    hide AfterSettle, Extends, Recorded, Distinct, OnDisk, Pow256, BE, FromBE;
    var (st', code) := AfterSettle(lib, c, st, text);
    SettleKeeps(lib, c, st, text);
    SoundGoesBack(st'.blocks, later);
    var b, i :| Holds(st'.blocks, b, i, text) && st'.promoted[text] == (CodeOf(b), i);
    CodeNamesItsBlock(b);
    FromBEOfBE(i, st'.blocks[b].width);
    LookupIsStable(st'.blocks, later, CodeOf(b), i);
  }

  // --- How a fresh part stays inside the bounds ---

  const FRESH: State := State(FILE_HEADER, 8, [Block(2, [], 0)], 0, map[], map[])

  lemma FreshIsCoherent(lib: Library)
    ensures Coherent(FRESH) && Writable(FRESH) && OnDisk(lib, FRESH)
  {}

  function Capacity(c: Config): nat { if c.blockEntries > 1 then c.blockEntries else 1 }

  ghost predicate Regular(c: Config, blocks: seq<Block>) {
    forall b :: 0 <= b < |blocks| ==>
      |blocks[b].entries| <= Capacity(c) && (blocks[b].width in {2, 4, 8} || blocks[b].width >= 16)
  }

  lemma {:induction false} StepStaysRegular(lib: Library, c: Config, st: State, op: Op)
    requires Coherent(st) && Writable(st) && Regular(c, st.blocks)
    ensures Regular(c, Step(lib, c, st, op).blocks)
  {
    hide Recorded, Located, Distinct, AfterPromote, AfterFlush, ThresholdFor;
    match op {
      case SettleText(text) =>
        var counted := Count(st, lib.hash(text));
        PromoteStaysRegular(lib, c, counted.(counts := counted.counts - {lib.hash(text)}), text);
      case Flush => FlushStaysRegular(lib, c, st);
    }
  }

  lemma {:induction false} PromoteStaysRegular(lib: Library, c: Config, st: State, text: blob)
    requires Writable(st) && st.open + 1 == |st.blocks| && Regular(c, st.blocks)
    ensures Regular(c, AfterPromote(lib, c, st, text).blocks)
  {
    hide BlockImage, WriteAt;
  }

  lemma {:induction false} FlushStaysRegular(lib: Library, c: Config, st: State)
    requires Writable(st) && Regular(c, st.blocks)
    ensures Regular(c, AfterFlush(lib, st).blocks)
  {
    hide BlockImage, WriteAt;
  }

  lemma {:induction false} RunStaysRegular(lib: Library, c: Config, st: State, ops: seq<Op>)
    requires Coherent(st) && Writable(st) && Regular(c, st.blocks)
    ensures Regular(c, Run(lib, c, st, ops).blocks)
    decreases |ops|
  {
    hide Coherent, Step;
    if ops != [] {
      StepKeeps(lib, c, st, ops[0]);
      StepStaysRegular(lib, c, st, ops[0]);
      RunStaysRegular(lib, c, Step(lib, c, st, ops[0]), ops[1..]);
    }
  }

  /** With blocks of at most 65536 entries, a run from a fresh part stays sound exactly as long as its strings
      lie in the first 240 blocks and in no block wider than eight bytes. */
  lemma {:induction false} FreshRunsAreSound(lib: Library, c: Config, ops: seq<Op>)
    requires c.blockEntries <= U16_END
    ensures Coherent(FRESH) && Writable(FRESH)
    ensures var blocks := Run(lib, c, FRESH, ops).blocks;
      Sound(blocks)
      <==> forall b :: 0 <= b < |blocks| && blocks[b].entries != [] ==> b < 240 && blocks[b].width <= 8
  {
    hide Run, Pow256;
    FreshIsCoherent(lib);
    RunStaysRegular(lib, c, FRESH, ops);
    Pow256Values();
    WiderHoldsMore();
    var blocks := Run(lib, c, FRESH, ops).blocks;
    if forall b :: 0 <= b < |blocks| && blocks[b].entries != [] ==> b < 240 && blocks[b].width <= 8 {
      forall b | 0 <= b < |blocks| && blocks[b].entries != []
        ensures b < 240 && blocks[b].width in {2, 4, 8} && |blocks[b].entries| <= Pow256(blocks[b].width)
      {
        assert |blocks[b].entries| <= Capacity(c) <= U16_END;
      }
    }
  }

  lemma WiderHoldsMore()
    ensures forall w {:trigger Pow256(w)} :: w in {2, 4, 8} ==> Pow256(w) >= U16_END
  {
    Pow256Values();
  }

  // --- The bound of 240 blocks is reached in practice ---

  const EAGER: Config := Config([(0, 1)], 1)

  function ChainOps(n: nat): seq<Op> {
    if n == 0 then [] else ChainOps(n - 1) + [SettleText(BE(n - 1, 3)), Flush]
  }

  lemma {:induction false} RunSplits(lib: Library, c: Config, st: State, xs: seq<Op>, ys: seq<Op>)
    requires Coherent(st) && Writable(st)
    ensures var mid := Run(lib, c, st, xs);
      Coherent(mid) && Writable(mid) && Run(lib, c, st, xs + ys) == Run(lib, c, mid, ys)
    decreases |xs|
  {
    hide Coherent, Step;
    if xs == [] {
      assert xs + ys == ys;
    } else {
      StepKeeps(lib, c, st, xs[0]);
      assert (xs + ys)[0] == xs[0] && (xs + ys)[1..] == xs[1..] + ys;
      RunSplits(lib, c, Step(lib, c, st, xs[0]), xs[1..], ys);
    }
  }

  ghost predicate ChainShape(st: State, n: nat) {
    && Coherent(st) && Writable(st) && st.open == n
    && st.blocks[n] == Block(2, [], 0)
    && forall k :: 0 <= k < n ==> st.blocks[k].width == 2 && st.blocks[k].entries == [BE(k, 3)]
  }

  lemma ThreeBytesDiffer(j: nat, k: nat)
    requires j < k < 0x100_0000
    ensures BE(j, 3) != BE(k, 3)
  {
    assert Pow256(3) == 256 * Pow256(2) && Pow256(2) == 256 * Pow256(1);
    FromBEOfBE(j, 3);
    FromBEOfBE(k, 3);
  }

  lemma {:induction false} ChainStep(lib: Library, st: State, n: nat)
    requires ChainShape(st, n) && n < 0x100_0000
    ensures ChainShape(Step(lib, EAGER, Step(lib, EAGER, st, SettleText(BE(n, 3))), Flush), n + 1)
  {
    hide BE, Step, Extends, OnDisk, Coherent;
    var text := BE(n, 3);
    var settled := Step(lib, EAGER, st, SettleText(text));
    EagerSettle(lib, st, n);
    StepKeeps(lib, EAGER, st, SettleText(text));
    var b := settled.blocks[n];
    assert settled.open < |settled.blocks|;
    DirtyFlush(lib, settled);
    StepKeeps(lib, EAGER, settled, Flush);
  }

  lemma {:induction false} EagerSettle(lib: Library, st: State, n: nat)
    requires ChainShape(st, n) && n < 0x100_0000
    ensures var st' := Step(lib, EAGER, st, SettleText(BE(n, 3)));
      st'.open == n && st'.blocks == st.blocks[n := Block(2, [BE(n, 3)], 0)]
  {
    ChainTextIsNew(st, n);
    hide BE, BlockImage, WriteAt, Coherent;
    assert ThresholdFor(3, 2, EAGER.tiers) == Some(1);
    assert [] + [BE(n, 3)] == [BE(n, 3)];
  }

  lemma {:induction false} DirtyFlush(lib: Library, st: State)
    requires Writable(st) && st.open + 1 == |st.blocks| && st.blocks[st.open].entries != []
    ensures var (b, st') := (st.blocks[st.open], Step(lib, EAGER, st, Flush));
      && st'.open == |st.blocks|
      && st'.blocks == st.blocks[st.open := b.(fileOffset := st.fileOffset)] + [Block(b.width, [], 0)]
  {
    hide BlockImage, WriteAt;
  }

  lemma {:induction false} ChainTextIsNew(st: State, n: nat)
    requires ChainShape(st, n) && n < 0x100_0000
    ensures BE(n, 3) !in st.promoted
  {
    hide BE;
    if BE(n, 3) in st.promoted {
      var b, i :| Holds(st.blocks, b, i, BE(n, 3)) && st.promoted[BE(n, 3)] == (CodeOf(b), i);
      ThreeBytesDiffer(b, n);
    }
  }

  lemma {:induction false} ChainRuns(lib: Library, n: nat)
    requires n <= 0x100_0000
    ensures Coherent(FRESH) && Writable(FRESH) && ChainShape(Run(lib, EAGER, FRESH, ChainOps(n)), n)
  {
    FreshIsCoherent(lib);
    if n == 0 {
      assert FRESH.blocks[0] == Block(2, [], 0);
    } else {
      hide Coherent, Writable, ChainShape, Step, BE;
      ChainRuns(lib, n - 1);
      ShapeIsCoherent(Run(lib, EAGER, FRESH, ChainOps(n - 1)), n - 1);
      var mid := Run(lib, EAGER, FRESH, ChainOps(n - 1));
      var two := [SettleText(BE(n - 1, 3)), Flush];
      RunSplits(lib, EAGER, FRESH, ChainOps(n - 1), two);
      ChainStep(lib, mid, n - 1);
      var next := Step(lib, EAGER, mid, two[0]);
      StepKeeps(lib, EAGER, mid, two[0]);
      StepKeeps(lib, EAGER, next, two[1]);
      assert two[1..] == [Flush] && two[1..][1..] == [];
      assert Run(lib, EAGER, mid, two) == Run(lib, EAGER, next, two[1..]) == Step(lib, EAGER, next, Flush);
    }
  }

  lemma ShapeIsCoherent(st: State, n: nat)
    requires ChainShape(st, n)
    ensures Coherent(st) && Writable(st)
  {
    hide Coherent, BE;
  }

  /** 241 flushes that each found one new string: the last string's code reads back as an earlier string. */
  lemma {:induction false} CodesCollideAfter240Flushes(lib: Library)
    ensures Coherent(FRESH) && Writable(FRESH)
    ensures var st := Run(lib, EAGER, FRESH, ChainOps(241));
      && BE(240, 3) in st.promoted && st.promoted[BE(240, 3)] == (255, 0)
      && Resolve(st.blocks, 255, BE(0, 2)) == Some(BE(239, 3))
      && BE(239, 3) != BE(240, 3)
  {
    hide Run, BE;
    ChainRuns(lib, 241);
    var st := Run(lib, EAGER, FRESH, ChainOps(241));
    assert Holds(st.blocks, 240, 0, BE(240, 3));
    ThreeBytesDiffer(239, 240);
    FromBEOfBE(0, 2);
  }
}
