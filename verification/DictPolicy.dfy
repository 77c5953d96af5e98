/** The promotion policy, told from the calls: which settle earns a string its code, and where its entry lands. */
module DictPolicy {
  import opened Bytes
  import opened Foreign
  import opened Dict
  import DictCodes

  // --- Thresholds ---

  predicate Covers(tier: (nat, nat), len: nat, width: nat) { tier.0 == 0 || len <= tier.0 * width }

  /** A string no longer than a code, or beyond every tier, is never interned; for any other the first tier that covers it
      says how often it must be seen. */
  lemma {:induction false} ThresholdIs(len: nat, width: nat, tiers: seq<(nat, nat)>)
    ensures ThresholdFor(len, width, tiers).None? <==> len <= width || forall i :: 0 <= i < |tiers| ==> !Covers(tiers[i], len, width)
    ensures forall i :: 0 <= i < |tiers| && len > width && Covers(tiers[i], len, width)
                        && (forall j :: 0 <= j < i ==> !Covers(tiers[j], len, width))
                        ==> ThresholdFor(len, width, tiers) == Some(tiers[i].1)
    decreases |tiers|
  {
    if tiers != [] {
      ThresholdIs(len, width, tiers[1..]);
      assert forall i :: 0 < i < |tiers| ==> tiers[i] == tiers[1..][i - 1];
      assert forall i :: 0 <= i < |tiers| - 1 ==> tiers[1..][i] == tiers[i + 1];
      forall i | 0 < i < |tiers| && len > width && Covers(tiers[i], len, width) && forall j :: 0 <= j < i ==> !Covers(tiers[j], len, width)
        ensures ThresholdFor(len, width, tiers) == Some(tiers[i].1)
      {
        assert !Covers(tiers[0], len, width);
        assert forall j :: 0 <= j < i - 1 ==> !Covers(tiers[1..][j], len, width);
        assert tiers[1..][i - 1] == tiers[i];
      }
    }
  }

  // --- What has been heard of a hash ---

  /** A fresh dictionary after the calls. */
  ghost function After(lib: Library, c: Config, ops: seq<Op>): (st: State)
    ensures Coherent(st) && Writable(st)
  {
    DictCodes.FreshIsCoherent(lib);
    CodesAreForever(lib, c, DictCodes.FRESH, ops);
    Run(lib, c, DictCodes.FRESH, ops)
  }

  /** The string has a code after the calls. */
  ghost predicate Coded(lib: Library, c: Config, ops: seq<Op>, text: blob) { text in After(lib, c, ops).promoted }

  /** How many settles of strings with this hash, none of them coded by then, came since one of them last got its code. */
  ghost function Heard(lib: Library, c: Config, ops: seq<Op>, hash: u64): nat {
    if ops == [] then 0
    else
      var (init, op) := (ops[..|ops| - 1], ops[|ops| - 1]);
      if op.Flush? || lib.hash(op.text) != hash || Coded(lib, c, init, op.text) then Heard(lib, c, init, hash)
      else if Coded(lib, c, ops, op.text) then 0
      else Heard(lib, c, init, hash) + 1
  }

  function Hashes(lib: Library, ops: seq<Op>): set<u64> {
    set i | 0 <= i < |ops| && ops[i].SettleText? :: lib.hash(ops[i].text)
  }

  lemma {:induction false} AfterSnoc(lib: Library, c: Config, ops: seq<Op>, op: Op)
    ensures After(lib, c, ops + [op]) == Step(lib, c, After(lib, c, ops), op)
  {
    hide Step, Coherent;
    DictCodes.FreshIsCoherent(lib);
    DictCodes.RunSplits(lib, c, DictCodes.FRESH, ops, [op]);
    var st := After(lib, c, ops);
    assert [op][1..] == [];
    StepKeeps(lib, c, st, op);
    assert Run(lib, c, st, [op]) == Run(lib, c, Step(lib, c, st, op), []);
  }

  lemma HashesSnoc(lib: Library, ops: seq<Op>, op: Op)
    ensures Hashes(lib, ops + [op]) == Hashes(lib, ops) + if op.SettleText? then {lib.hash(op.text)} else {}
  {
    var all := ops + [op];
    forall h | h in Hashes(lib, ops) ensures h in Hashes(lib, all) {
      var i :| 0 <= i < |ops| && ops[i].SettleText? && lib.hash(ops[i].text) == h;
      assert all[i] == ops[i];
    }
    if op.SettleText? { assert all[|ops|] == op; }
  }

  lemma SmallerSet(a: set<u64>, b: set<u64>)
    requires a <= b
    ensures |a| <= |b|
  {
    assert b == a + (b - a);
  }

  ghost function CountAt(st: State, h: u64): nat { if h in st.counts then st.counts[h] else 0 }

  /** One settle: what it does to the counts, and when it gives a code. */
  lemma {:induction false} SettleCounts(lib: Library, c: Config, st: State, text: blob)
    requires Writable(st) && text !in st.promoted
    requires lib.hash(text) in st.counts || |st.counts| < COUNT_TRACK_LIMIT
    ensures var (st', code) := AfterSettle(lib, c, st, text);
      var threshold := ThresholdFor(|text|, st.blocks[st.open].width, c.tiers);
      && (code.Some? <==> threshold.Some? && CountAt(st, lib.hash(text)) + 1 >= threshold.value)
      && st'.counts == (if code.Some? then st.counts - {lib.hash(text)}
                        else st.counts[lib.hash(text) := CountAt(st, lib.hash(text)) + 1])
      && (text in st'.promoted <==> code.Some?)
  {
    hide BlockImage, WriteAt, ThresholdFor;
  }

  /** While no more hashes are heard than the table tracks, its counts are what the calls say. */
  lemma {:induction false} CountsAreHeard(lib: Library, c: Config, ops: seq<Op>)
    requires |Hashes(lib, ops)| <= COUNT_TRACK_LIMIT
    ensures forall h: u64 :: CountAt(After(lib, c, ops), h) == Heard(lib, c, ops, h)
    ensures After(lib, c, ops).counts.Keys <= Hashes(lib, ops)
    decreases |ops|
  {
    hide *;
    if ops == [] {
      NothingHeard(lib, c);
    } else {
      var (init, op) := (ops[..|ops| - 1], ops[|ops| - 1]);
      assert ops == init + [op];
      HashesSnoc(lib, init, op);
      SmallerSet(Hashes(lib, init), Hashes(lib, ops));
      CountsAreHeard(lib, c, init);
      var st := After(lib, c, init);
      CodedIs(lib, c, init, op);
      if op.SettleText? && op.text !in st.promoted {
        var key := lib.hash(op.text);
        if key !in st.counts { SmallerSet(st.counts.Keys, Hashes(lib, ops) - {key}); }
        CountedOneMore(lib, c, init, op.text);
      } else {
        HeardNoMore(lib, c, init, op);
      }
    }
  }

  lemma CodedIs(lib: Library, c: Config, ops: seq<Op>, op: Op)
    ensures op.SettleText? ==> (Coded(lib, c, ops, op.text) <==> op.text in After(lib, c, ops).promoted)
  {}

  lemma NothingHeard(lib: Library, c: Config)
    ensures After(lib, c, []) == DictCodes.FRESH && forall h: u64 :: CountAt(DictCodes.FRESH, h) == Heard(lib, c, [], h)
    ensures After(lib, c, []).counts.Keys == {}
  {}

  lemma {:induction false} CountedOneMore(lib: Library, c: Config, init: seq<Op>, text: blob)
    requires var st := After(lib, c, init); text !in st.promoted && (lib.hash(text) in st.counts || |st.counts| < COUNT_TRACK_LIMIT)
    requires forall h: u64 :: CountAt(After(lib, c, init), h) == Heard(lib, c, init, h)
    ensures var ops := init + [SettleText(text)];
      && (forall h: u64 :: CountAt(After(lib, c, ops), h) == Heard(lib, c, ops, h))
      && After(lib, c, ops).counts.Keys <= After(lib, c, init).counts.Keys + {lib.hash(text)}
  {
    hide AfterSettle, Coherent, Writable, After, ThresholdFor;
    var ops := init + [SettleText(text)];
    AfterSnoc(lib, c, init, SettleText(text));
    SettleCounts(lib, c, After(lib, c, init), text);
    assert ops[..|init|] == init;
  }

  lemma {:induction false} HeardNoMore(lib: Library, c: Config, init: seq<Op>, op: Op)
    requires op.Flush? || Coded(lib, c, init, op.text)
    ensures After(lib, c, init + [op]).counts == After(lib, c, init).counts
    ensures forall h: u64 :: Heard(lib, c, init + [op], h) == Heard(lib, c, init, h)
    ensures forall h: u64 :: CountAt(After(lib, c, init + [op]), h) == CountAt(After(lib, c, init), h)
  {
    hide AfterSettle, AfterFlush, Coherent, Writable, After;
    AfterSnoc(lib, c, init, op);
    NothingCounted(lib, c, After(lib, c, init), op);
    assert (init + [op])[..|init|] == init;
  }

  lemma NothingCounted(lib: Library, c: Config, st: State, op: Op)
    requires Writable(st) && (op.Flush? || op.text in st.promoted)
    ensures Step(lib, c, st, op).counts == st.counts
  {
    hide BlockImage, WriteAt;
  }

  /** A string without a code gets one exactly when this settle makes the settles of its hash reach the threshold its
      length has at the width of the open block. */
  lemma {:induction false} SettleEarns(lib: Library, c: Config, ops: seq<Op>, text: blob)
    requires |Hashes(lib, ops + [SettleText(text)])| <= 1_048_576 && !Coded(lib, c, ops, text)
    ensures var st := After(lib, c, ops);
      var threshold := ThresholdFor(|text|, st.blocks[st.open].width, c.tiers);
      && (AfterSettle(lib, c, st, text).1.Some? <==> threshold.Some? && Heard(lib, c, ops, lib.hash(text)) + 1 >= threshold.value)
      && (Coded(lib, c, ops + [SettleText(text)], text) <==> AfterSettle(lib, c, st, text).1.Some?)
  {
    hide AfterSettle, Coherent, ThresholdFor, Heard;
    var (st, key) := (After(lib, c, ops), lib.hash(text));
    HashesSnoc(lib, ops, SettleText(text));
    SmallerSet(Hashes(lib, ops), Hashes(lib, ops + [SettleText(text)]));
    CountsAreHeard(lib, c, ops);
    AfterSnoc(lib, c, ops, SettleText(text));
    if key !in st.counts {
      SmallerSet(st.counts.Keys, Hashes(lib, ops + [SettleText(text)]) - {key});
    }
    SettleCounts(lib, c, st, text);
  }

  /** A full table counts no new hash: such a string gets a code at once or not at all. */
  lemma {:induction false} FullTableForgets(lib: Library, c: Config, st: State, text: blob)
    requires Writable(st) && text !in st.promoted
    requires lib.hash(text) !in st.counts && |st.counts| >= 1_048_576
    ensures var (st', code) := AfterSettle(lib, c, st, text);
      var threshold := ThresholdFor(|text|, st.blocks[st.open].width, c.tiers);
      st'.counts == st.counts && (code.Some? <==> threshold.Some? && threshold.value <= 1)
  {
    hide BlockImage, WriteAt, ThresholdFor;
    assert st.counts - {lib.hash(text)} == st.counts;
  }

  // --- Where an entry lands ---

  /** Widths and strings of the blocks. */
  function Shape(blocks: seq<Block>): seq<(nat, seq<blob>)> {
    seq(|blocks|, i requires 0 <= i < |blocks| => (blocks[i].width, blocks[i].entries))
  }

  /** A string that earns its code goes behind the last entry of the open block, or, when that holds all it may, into a
      new one of twice its width; no other settle changes the blocks. */
  lemma {:induction false} EntryLands(lib: Library, c: Config, st: State, text: blob)
    requires Coherent(st) && Writable(st)
    ensures var (st', code) := AfterSettle(lib, c, st, text);
      var (n, width, entries) := (st.open, st.blocks[st.open].width, st.blocks[st.open].entries);
      if text in st.promoted || code.None? then Shape(st'.blocks) == Shape(st.blocks)
      else if |entries| < c.blockEntries || entries == [] then
        Shape(st'.blocks) == Shape(st.blocks)[..n] + [(width, entries + [text])] && code == Some((CodeOf(n), |entries|))
      else
        Shape(st'.blocks) == Shape(st.blocks) + [(2 * width, [text])] && code == Some((CodeOf(n + 1), 0))
  {
    var counted := Count(st, lib.hash(text));
    SettleIs(lib, c, st, text);
    PromoteLands(lib, c, counted.(counts := counted.counts - {lib.hash(text)}), text);
    hide AfterSettle, AfterPromote, Recorded, Located, Distinct, ThresholdFor;
  }

  lemma SettleIs(lib: Library, c: Config, st: State, text: blob)
    requires Writable(st)
    ensures var (st', code) := AfterSettle(lib, c, st, text);
      var counted := Count(st, lib.hash(text));
      if text in st.promoted || code.None? then st'.blocks == st.blocks
      else
        var promoted := AfterPromote(lib, c, counted.(counts := counted.counts - {lib.hash(text)}), text);
        st' == promoted && text in promoted.promoted && code == Some(promoted.promoted[text])
  {
    hide AfterClose, ThresholdFor;
  }

  lemma {:induction false} PromoteLands(lib: Library, c: Config, st: State, text: blob)
    requires st.open + 1 == |st.blocks| && Writable(st)
    ensures var st' := AfterPromote(lib, c, st, text);
      var (n, width, entries) := (st.open, st.blocks[st.open].width, st.blocks[st.open].entries);
      && text in st'.promoted
      && if |entries| < c.blockEntries || entries == [] then
           Shape(st'.blocks) == Shape(st.blocks)[..n] + [(width, entries + [text])] && st'.promoted[text] == (CodeOf(n), |entries|)
         else Shape(st'.blocks) == Shape(st.blocks) + [(2 * width, [text])] && st'.promoted[text] == (CodeOf(n + 1), 0)
  {
    hide AfterClose, AddEntry, Shape;
    var (n, b) := (st.open, st.blocks[st.open]);
    if |b.entries| < c.blockEntries || b.entries == [] {
      AddLands(st, text);
    } else {
      CloseLands(lib, st);
      AddLands(AfterClose(lib, st), text);
      var none: seq<blob> := [];
      assert none + [text] == [text];
      ShapeLength(st);
      assert (Shape(st.blocks) + [(2 * b.width, [])])[..n + 1] == Shape(st.blocks);
    }
  }

  lemma ShapeLength(st: State)
    ensures |Shape(st.blocks)| == |st.blocks|
  {}

  lemma AddLands(st: State, text: blob)
    requires st.open + 1 == |st.blocks|
    ensures var (st', n, b) := (AddEntry(st, text), st.open, st.blocks[st.open]);
      && Shape(st'.blocks) == Shape(st.blocks)[..n] + [(b.width, b.entries + [text])]
      && text in st'.promoted && st'.promoted[text] == (CodeOf(n), |b.entries|)
  {}

  lemma CloseLands(lib: Library, st: State)
    requires st.open + 1 == |st.blocks| && Writable(st)
    ensures var (st', b) := (AfterClose(lib, st), st.blocks[st.open]);
      && st'.open == |st.blocks| && |st'.blocks| == |st.blocks| + 1 && st'.blocks[st'.open].entries == []
      && st'.blocks[st'.open].width == 2 * b.width && Shape(st'.blocks) == Shape(st.blocks) + [(2 * b.width, [])]
  {
    hide BlockImage, WriteAt;
  }

  /** A flush ends the open block if it holds anything, and goes on at the same width. */
  lemma {:induction false} FlushLands(lib: Library, st: State)
    requires Coherent(st) && Writable(st)
    ensures var (st', open) := (AfterFlush(lib, st), st.blocks[st.open]);
      Shape(st'.blocks) == Shape(st.blocks) + if open.entries == [] then [] else [(open.width, [])]
  {
    hide BlockImage, WriteAt, Recorded, Located, Distinct;
    assert Shape(st.blocks) + [] == Shape(st.blocks);
  }

  // --- One string over and over ---

  function Repeated(text: blob, n: nat): seq<Op> { seq(n, _ => SettleText(text)) }

  /** In a fresh dictionary a string that keeps coming has a code from the settle on that reaches its threshold at width
      two; it is the first entry of the first block. */
  lemma {:induction false} RepeatsEarn(lib: Library, c: Config, text: blob, n: nat)
    ensures var (st, threshold) := (After(lib, c, Repeated(text, n)), ThresholdFor(|text|, 2, c.tiers));
      && (Coded(lib, c, Repeated(text, n), text) <==> threshold.Some? && n >= 1 && n >= threshold.value)
      && (Coded(lib, c, Repeated(text, n), text) ==> Shape(st.blocks) == [(2, [text])] && text in st.promoted && st.promoted[text] == (DICT_BASE, 0))
      && (!Coded(lib, c, Repeated(text, n), text) ==>
            Shape(st.blocks) == [(2, [])] && st.open == 0 && Heard(lib, c, Repeated(text, n), lib.hash(text)) == n)
    decreases n
  {
    hide *;
    if n == 0 {
      NothingRepeated(lib, c, text);
    } else {
      var before := Repeated(text, n - 1);
      RepeatsEarn(lib, c, text, n - 1);
      RepeatedSnoc(text, n);
      OneMoreTime(lib, c, text, before);
      if !Coded(lib, c, before, text) {
        OneHash(lib, text, n);
        SettleEarns(lib, c, before, text);
        FirstIsOpen(After(lib, c, before));
        if !Coded(lib, c, before + [SettleText(text)], text) { HeardAgain(lib, c, text, before); }
      }
    }
  }

  lemma NothingRepeated(lib: Library, c: Config, text: blob)
    ensures var st := After(lib, c, Repeated(text, 0));
      && !Coded(lib, c, Repeated(text, 0), text) && Shape(st.blocks) == [(2, [])] && st.open == 0
      && Heard(lib, c, Repeated(text, 0), lib.hash(text)) == 0
  {
    assert Repeated(text, 0) == [];
    NothingHeard(lib, c);
  }

  lemma RepeatedSnoc(text: blob, n: nat)
    requires n > 0
    ensures Repeated(text, n) == Repeated(text, n - 1) + [SettleText(text)]
  {}

  lemma FirstIsOpen(st: State)
    requires Shape(st.blocks) == [(2, [])] && st.open == 0
    ensures Writable(st) ==> st.blocks[st.open].width == 2
  {
    assert Shape(st.blocks)[0] == (st.blocks[0].width, st.blocks[0].entries);
  }

  lemma HeardAgain(lib: Library, c: Config, text: blob, before: seq<Op>)
    requires !Coded(lib, c, before, text) && !Coded(lib, c, before + [SettleText(text)], text)
    ensures Heard(lib, c, before + [SettleText(text)], lib.hash(text)) == Heard(lib, c, before, lib.hash(text)) + 1
  {
    hide After, Coded;
    assert (before + [SettleText(text)])[..|before|] == before;
  }

  lemma {:induction false} OneMoreTime(lib: Library, c: Config, text: blob, before: seq<Op>)
    ensures var (st, st') := (After(lib, c, before), After(lib, c, before + [SettleText(text)]));
      && (Coded(lib, c, before, text) ==>
            && Coded(lib, c, before + [SettleText(text)], text) && Shape(st'.blocks) == Shape(st.blocks)
            && text in st.promoted && text in st'.promoted && st'.promoted[text] == st.promoted[text])
      && (!Coded(lib, c, before, text) && !Coded(lib, c, before + [SettleText(text)], text) ==>
            Shape(st'.blocks) == Shape(st.blocks) && st'.open == st.open)
      && (!Coded(lib, c, before, text) && Coded(lib, c, before + [SettleText(text)], text) && Shape(st.blocks) == [(2, [])] ==>
            Shape(st'.blocks) == [(2, [text])] && text in st'.promoted && st'.promoted[text] == (DICT_BASE, 0))
  {
    hide AfterSettle, ThresholdFor, After, Recorded, Located, Distinct;
    var st := After(lib, c, before);
    AfterSnoc(lib, c, before, SettleText(text));
    EntryLands(lib, c, st, text);
    SettleKeeps(lib, c, st, text);
    assert |Shape(st.blocks)| == |st.blocks|;
    if Shape(st.blocks) == [(2, [])] {
      assert Shape(st.blocks)[0] == (st.blocks[0].width, st.blocks[0].entries);
      assert st.open == 0 && Shape(st.blocks)[..0] == [];
      var none: seq<blob> := [];
      assert none + [text] == [text] && st.blocks[0].entries == none;
    }
  }

  lemma OneHash(lib: Library, text: blob, n: nat)
    ensures |Hashes(lib, Repeated(text, n))| <= 1_048_576
  {
    SmallerSet(Hashes(lib, Repeated(text, n)), {lib.hash(text)});
  }

  const DEFAULT_TIERS: seq<(nat, nat)> := [(4, 10), (8, 5), (16, 3), (0, 2)]

  /** With the default tiers a string of sixteen bytes is inline four times and a code from the fifth on. */
  lemma {:induction false} FifthTimeEarns(lib: Library, blockEntries: nat, text: blob, n: nat)
    requires |text| == 16
    ensures Coded(lib, Config(DEFAULT_TIERS, blockEntries), Repeated(text, n), text) <==> n >= 5
  {
    RepeatsEarn(lib, Config(DEFAULT_TIERS, blockEntries), text, n);
    assert DEFAULT_TIERS[1..] == [(8, 5), (16, 3), (0, 2)];
  }
}
