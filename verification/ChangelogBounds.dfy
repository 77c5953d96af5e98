/** What bounds a change log: the size of its segments, and the buffer it keeps for another try. */
module ChangelogBounds {
  import opened Bytes
  import opened Store
  import opened Changelog
  import OpFrame

  // --- When a call tries to rotate ---

  /** A write with this answer leaves the buffer empty and reports no failure. */
  predicate Lands(c: Config, f: Fate) { f.write && (!c.sync || f.synced) }

  /** The segment gets its sealed name and the next one is created. */
  predicate Opens(f: Fate) { f.rename && f.create }

  /** Does this call come as far as the rename? A commit does when the segment is due and its bytes can be written; a
      seal does when there is nothing to write or it can be written. */
  predicate Tries(c: Config, header: bytes, s: State, call: Call) {
    match call
    case Commit(ops, f) =>
      && Staged(header, ops) != [] && s.open && Lands(c, f)
      && (|s.current| + |s.pending| + |Staged(header, ops)| >= c.segmentBytes || f.aged)
    case Seal(f) => s.pending == [] || (s.open && Lands(c, f))
  }

  /** One call: the handle is open after it if its rotation went through, or it tried none and found it open. A closed
      handle with bytes to write is given up on. */
  lemma {:induction false} HandleAfter(c: Config, header: bytes, s: State, call: Call)
    ensures var s' := After(c, header, s, call);
      && (s'.open <==> if Tries(c, header, s, call) then Opens(call.fate) else s.open)
      && (Tries(c, header, s, call) ==> s'.pending == [])
  {
    hide Trimmed, Staged;
  }

  /** After any call the buffer is within its cap, or the handle was closed before and after. */
  lemma {:induction false} BufferAfter(c: Config, header: bytes, s: State, call: Call)
    requires |s.pending| <= Cap(c)
    ensures var s' := After(c, header, s, call); s.open || s'.open ==> |s'.pending| <= Cap(c)
  {
    hide Staged;
    HandleAfter(c, header, s, call);
  }

  /** A closed handle and something to write: nothing is written, trimmed or sealed any more. */
  lemma {:induction false} ShutAfter(c: Config, header: bytes, s: State, call: Call)
    requires !s.open && (s.pending != [] || call.Commit?)
    ensures After(c, header, s, call) == s.(pending := s.pending + if call.Commit? then Staged(header, call.ops) else [])
  {
    hide Trimmed, Staged;
    if call.Commit? {
      assert s.(pending := s.pending + []) == s by { assert s.pending + [] == s.pending; }
    } else {
      assert s.pending + [] == s.pending;
    }
  }

  // --- Over runs ---

  lemma {:induction false} RunSnoc(c: Config, header: bytes, calls: seq<Call>, call: Call)
    ensures Run(c, header, calls + [call]) == After(c, header, Run(c, header, calls), call)
  {
    hide After;
    assert (calls + [call])[..|calls|] == calls;
  }

  /** A rotation was tried at this call of the run. */
  predicate TriedAt(c: Config, header: bytes, calls: seq<Call>, i: nat) {
    i < |calls| && Tries(c, header, Run(c, header, calls[..i]), calls[i])
  }

  /** The last rotation tried, if there was one, went through. */
  ghost predicate LastWentThrough(c: Config, header: bytes, calls: seq<Call>) {
    forall i: nat | TriedAt(c, header, calls, i) && !Opens(calls[i].fate) ::
      exists j: nat :: i < j && TriedAt(c, header, calls, j) && Opens(calls[j].fate)
  }

  lemma {:induction false} TriedEarlier(c: Config, header: bytes, calls: seq<Call>, call: Call, i: nat)
    ensures var all := calls + [call];
      TriedAt(c, header, all, i) <==>
        (if i == |calls| then Tries(c, header, Run(c, header, calls), call) else TriedAt(c, header, calls, i))
  {
    hide Run, Tries;
    if i <= |calls| { assert (calls + [call])[..i] == calls[..i]; }
    assert calls[..|calls|] == calls;
  }

  /** In every run the handle is open if and only if the last rotation tried went through, and then the buffer is
      within its cap. */
  lemma {:induction false} OpenIs(c: Config, header: bytes, calls: seq<Call>)
    ensures var s := Run(c, header, calls);
      && (s.open <==> LastWentThrough(c, header, calls))
      && (s.open ==> |s.pending| <= Cap(c))
    decreases |calls|
  {
    hide After, Tries, Opens;
    if calls == [] {
      assert forall i: nat :: !TriedAt(c, header, calls, i);
    } else {
      var (init, call) := (calls[..|calls| - 1], calls[|calls| - 1]);
      assert calls == init + [call];
      OpenIs(c, header, init);
      var s := Run(c, header, init);
      HandleAfter(c, header, s, call);
      forall i: nat
        ensures TriedAt(c, header, calls, i) <==>
                  (if i == |init| then Tries(c, header, s, call) else TriedAt(c, header, init, i))
      {
        TriedEarlier(c, header, init, call, i);
      }
      LastTriedIs(c, header, init, call);
      if s.open { BufferAfter(c, header, s, call); }
    }
  }

  lemma {:induction false} LastTriedIs(c: Config, header: bytes, init: seq<Call>, call: Call)
    requires forall i: nat :: TriedAt(c, header, init + [call], i) <==>
      (if i == |init| then Tries(c, header, Run(c, header, init), call) else TriedAt(c, header, init, i))
    ensures LastWentThrough(c, header, init + [call]) <==>
      (if Tries(c, header, Run(c, header, init), call) then Opens(call.fate) else LastWentThrough(c, header, init))
  {
    hide Tries, Opens, Run;
    var (calls, n) := (init + [call], |init|);
    assert forall i: nat :: TriedAt(c, header, init, i) ==> i < n && calls[i] == init[i];
    var tries := Tries(c, header, Run(c, header, init), call);
    if tries && Opens(call.fate) {
      assert TriedAt(c, header, calls, n) && calls[n] == call;
      forall i: nat | TriedAt(c, header, calls, i) && !Opens(calls[i].fate)
        ensures exists j: nat :: i < j && TriedAt(c, header, calls, j) && Opens(calls[j].fate)
      {
        assert i < n;
      }
    } else if tries {
      assert TriedAt(c, header, calls, n) && calls[n] == call;
      assert forall j: nat :: TriedAt(c, header, calls, j) ==> j <= n;
    } else {
      assert forall i: nat :: TriedAt(c, header, calls, i) <==> TriedAt(c, header, init, i);
    }
  }

  /** Once a handle is closed with bytes to write it stays closed in every continuation, whatever the file system
      answers, and the buffer gains every later frame. */
  lemma {:induction false} ShutForever(c: Config, header: bytes, calls: seq<Call>, more: seq<Call>)
    requires !Run(c, header, calls).open && Run(c, header, calls).pending != []
    ensures var (s, s') := (Run(c, header, calls), Run(c, header, calls + more));
      s' == s.(pending := s.pending + Stream(StagedBy(header, more)))
    decreases |more|
  {
    hide After, Staged, Stream, Framed;
    var s := Run(c, header, calls);
    if more == [] {
      assert calls + more == calls;
      NothingQueued();
      assert s.pending + [] == s.pending;
    } else {
      var (init, call) := (more[..|more| - 1], more[|more| - 1]);
      ShutForever(c, header, calls, init);
      assert calls + more == calls + init + [call];
      RunSnoc(c, header, calls + init, call);
      ShutAfter(c, header, Run(c, header, calls + init), call);
      StagedSnoc(header, more);
      var (a, b) := (Stream(StagedBy(header, init)), if call.Commit? then Staged(header, call.ops) else []);
      assert s.pending + a + b == s.pending + (a + b);
    }
  }

  /** The frames a run staged, as bytes. */
  lemma {:induction false} StagedSnoc(header: bytes, calls: seq<Call>)
    requires calls != []
    ensures var call := calls[|calls| - 1];
      Stream(StagedBy(header, calls)) ==
        Stream(StagedBy(header, calls[..|calls| - 1])) + if call.Commit? then Staged(header, call.ops) else []
  {
    hide Stream, Framed, OpFrame.Encode, CarriedOf, OpFrame.WireOfAll;
    var (before, call) := (StagedBy(header, calls[..|calls| - 1]), calls[|calls| - 1]);
    assert Stream(before) + [] == Stream(before);
    if call.Commit? && Staged(header, call.ops) != [] {
      var body := OpFrame.Encode(OpFrame.WireOfAll(CarriedOf(header, call.ops)));
      StreamJoins(before, [body]);
      OneFrame(body);
    }
  }

  // --- Is the buffer bounded? ---

  /** From here on every rename and create that is tried succeeds. */
  predicate Renaming(more: seq<Call>) { forall i :: 0 <= i < |more| ==> Opens(more[i].fate) }

  lemma {:induction false} OpenStaysOpen(c: Config, header: bytes, calls: seq<Call>, more: seq<Call>)
    requires Run(c, header, calls).open && Renaming(more)
    ensures Run(c, header, calls + more).open
    decreases |more|
  {
    hide After, Tries, Opens;
    if more == [] {
      assert calls + more == calls;
    } else {
      var (init, call) := (more[..|more| - 1], more[|more| - 1]);
      assert forall i :: 0 <= i < |init| ==> init[i] == more[i];
      OpenStaysOpen(c, header, calls, init);
      assert calls + more == calls + init + [call];
      RunSnoc(c, header, calls + init, call);
      HandleAfter(c, header, Run(c, header, calls + init), call);
    }
  }

  const GOOD: Fate := Fate(false, true, true, true, true)

  /** The same batch, over and over, with a file system that never fails again. */
  function Again(ops: seq<Op>, n: nat): seq<Call> { seq(n, _ => Commit(ops, GOOD)) }

  lemma {:induction false} ShutGrows(c: Config, header: bytes, calls: seq<Call>, ops: seq<Op>, n: nat)
    requires !Run(c, header, calls).open && Staged(header, ops) != []
    ensures !Run(c, header, calls + Again(ops, n)).open && |Run(c, header, calls + Again(ops, n)).pending| >= n
    decreases n
  {
    hide After, Staged;
    if n == 0 {
      assert calls + Again(ops, 0) == calls;
    } else {
      ShutGrows(c, header, calls, ops, n - 1);
      var before := calls + Again(ops, n - 1);
      assert Again(ops, n) == Again(ops, n - 1) + [Commit(ops, GOOD)];
      assert calls + Again(ops, n) == before + [Commit(ops, GOOD)];
      RunSnoc(c, header, before, Commit(ops, GOOD));
      ShutAfter(c, header, Run(c, header, before), Commit(ops, GOOD));
    }
  }

  /** The retry buffer stays within its cap in every continuation that meets no failed rename or create if and only if
      the last rotation tried so far went through. */
  lemma {:induction false} BufferIsBoundedIff(c: Config, header: bytes, calls: seq<Call>, ops: seq<Op>)
    requires Staged(header, ops) != []
    ensures LastWentThrough(c, header, calls) <==>
      forall more | Renaming(more) :: |Run(c, header, calls + more).pending| <= if c.bufferBytes > 0 then 8 * c.bufferBytes else 1
  {
    assert Cap(c) == if c.bufferBytes > 0 then 8 * c.bufferBytes else 1;
    hide After, Staged, Run, LastWentThrough, Cap;
    OpenIs(c, header, calls);
    if Run(c, header, calls).open {
      forall more | Renaming(more) ensures |Run(c, header, calls + more).pending| <= Cap(c) {
        OpenStaysOpen(c, header, calls, more);
        OpenIs(c, header, calls + more);
      }
    } else {
      var more := Again(ops, Cap(c) + 1);
      assert Renaming(more);
      ShutGrows(c, header, calls, ops, Cap(c) + 1);
    }
  }

  /** Removing one row. */
  function OneDelete(header: bytes): seq<Op> { [(header + [0, 0], None)] }

  lemma {:induction false} OneDeleteIsStaged(header: bytes)
    requires |header| + 18 < U32_END
    ensures Staged(header, OneDelete(header)) != []
  {
    var ops := OneDelete(header);
    var op := ops[0];
    assert op.0[|header|..] == [0, 0];
    assert ops[1..] == [] && CarriedOf(header, ops) == ops;
    var wire := OpFrame.WireOfAll(ops);
    assert wire == [OpFrame.WireOf(op)] + OpFrame.WireOfAll(ops[1..]) == [OpFrame.WireOf(op)];
    assert wire[1..] == [];
    assert OpFrame.EncodeOps(wire) == OpFrame.EncodeOp(wire[0]);
  }

  /** The run that breaks the bound: one rename or create fails as a segment falls due, and from then on, with a file
      system that never fails again, every commit stays in the buffer, past any number of bytes. */
  lemma {:induction false} OneFailureUnbounds(c: Config, header: bytes, failed: Fate, n: nat)
    requires |header| + 18 < U32_END
    requires failed.aged && failed.write && failed.synced && !Opens(failed)
    ensures var ops := OneDelete(header);
      |Run(c, header, [Commit(ops, failed)] + Again(ops, n + 1)).pending| > n
  {
    var ops := OneDelete(header);
    OneDeleteIsStaged(header);
    hide *;
    FailureShuts(c, header, ops, failed);
    ShutGrows(c, header, [Commit(ops, failed)], ops, n + 1);
  }

  lemma {:induction false} FailureShuts(c: Config, header: bytes, ops: seq<Op>, failed: Fate)
    requires Staged(header, ops) != [] && failed.aged && failed.write && failed.synced && !Opens(failed)
    ensures !Run(c, header, [Commit(ops, failed)]).open
  {
    hide After, Staged;
    assert [] + [Commit(ops, failed)] == [Commit(ops, failed)];
    RunSnoc(c, header, [], Commit(ops, failed));
    HandleAfter(c, header, FRESH, Commit(ops, failed));
  }

  // --- Bounds ---

  /** While nothing fails a segment stays below its size between calls, and a sealed one is over it by at most its last
      frame. */
  ghost predicate Bounded(c: Config, s: State, h: History) {
    && s.open && (s.current != [] || s.pending != [] ==> |s.current| + |s.pending| < Limit(c))
    && |h.sealed| == |s.sealed|
    && (forall i :: 0 <= i < |s.sealed| ==>
          s.sealed[i] == [] || (h.sealed[i] != [] && |s.sealed[i]| < Limit(c) + |Framed(h.sealed[i][|h.sealed[i]| - 1])|))
  }

  function Limit(c: Config): nat { if c.segmentBytes > 1 then c.segmentBytes else 1 }

  predicate Good(c: Config, f: Fate) { Lands(c, f) && Opens(f) }

  lemma {:induction false} GoodCommitIsBounded(c: Config, s: State, h: History, staged: seq<bytes>, body: bytes,
      f: Fate) returns (h': History)
    requires Tells(s, h, staged) && Bounded(c, s, h) && |body| < U32_END && Good(c, f)
    ensures var (ok, s') := Committed(c, s, Framed(body), f);
      ok && Tells(s', h', staged + [body]) && Bounded(c, s', h')
  {
    hide Stream, Firsts, Kept, Lost, Marked, Trimmed, Flat, Framed, AllFit;
    FramedIsSome(body);
    var added := h.(queue := h.queue + [body]);
    var frames := h.current + added.queue;
    OneFrame(body);
    StreamJoins(h.queue, [body]);
    StreamJoins(h.current, added.queue);
    MarkedIs(h.settled, added.queue, true);
    NothingQueued();
    AllFitSnoc(h.queue, body);
    var written := added.(current := frames, queue := [], settled := h.settled + Marked(added.queue, true));
    var total := |s.current| + |s.pending| + |Framed(body)|;
    assert Firsts(h.settled) + added.queue == staged + [body];
    assert Kept(written.settled) == Flat(h.sealed) + frames;
    assert Firsts(written.settled) + [] == staged + [body];
    assert s.current + (s.pending + Framed(body)) == Stream(frames);
    if total >= c.segmentBytes || f.aged {
      h' := written.(sealed := h.sealed + [frames], current := []);
      assert h'.sealed[..|h.sealed|] == h.sealed;
      FlatSnoc(h.sealed, frames);
      assert frames[|frames| - 1] == body;
      assert |Stream(frames)| == total;
      assert Flat(h'.sealed) + [] == Flat(h'.sealed);
    } else if |s.pending| + |Framed(body)| >= c.bufferBytes {
      h' := written;
    } else {
      h' := added;
    }
  }

  lemma AllFitSnoc(bodies: seq<bytes>, body: bytes)
    requires AllFit(bodies) && |body| < U32_END
    ensures AllFit(bodies + [body])
  {}

  lemma FlatSnoc(segments: seq<seq<bytes>>, one: seq<bytes>)
    ensures Flat(segments + [one]) == Flat(segments) + one
  {
    assert (segments + [one])[..|segments|] == segments;
  }

  lemma {:induction false} GoodSealIsBounded(c: Config, s: State, h: History, staged: seq<bytes>, f: Fate)
      returns (h': History)
    requires Tells(s, h, staged) && Bounded(c, s, h) && Good(c, f)
    ensures var (ok, s') := Sealed(c, s, f); ok && Tells(s', h', staged) && Bounded(c, s', h')
  {
    hide Stream, Firsts, Kept, Lost, Marked, Trimmed, Flat, Framed, AllFit;
    var frames := h.current + h.queue;
    StreamJoins(h.current, h.queue);
    MarkedIs(h.settled, h.queue, true);
    NothingQueued();
    FlatSnoc(h.sealed, frames);
    h' := History(h.sealed + [frames], [], [], h.settled + Marked(h.queue, true));
    assert Kept(h'.settled) == Flat(h.sealed) + frames && Flat(h'.sealed) + [] == Flat(h'.sealed);
    assert Firsts(h'.settled) + [] == staged;
    assert s.current + s.pending == Stream(frames);
    assert s.pending == [] ==> s.current == Stream(frames) by { assert s.current + [] == s.current; }
  }

  predicate AllGood(c: Config, calls: seq<Call>) { forall i :: 0 <= i < |calls| ==> Good(c, calls[i].fate) }

  /** Over every run without failures: nothing is dropped, the handle stays open, the open segment with its buffer is
      below the size limit, and every sealed segment is a stream of whole frames that passes the limit by at most its
      last frame less one byte. */
  lemma {:induction false} GoodRunIsBounded(c: Config, header: bytes, calls: seq<Call>) returns (h: History)
    requires AllGood(c, calls)
    ensures var s := Run(c, header, calls);
      Tells(s, h, StagedBy(header, calls)) && Bounded(c, s, h) && s.dropped == 0
    decreases |calls|
  {
    hide Committed, Sealed, CarriedOf, OpFrame.Encode;
    if calls == [] {
      h := History([], [], [], []);
    } else {
      var (init, call) := (calls[..|calls| - 1], calls[|calls| - 1]);
      assert AllGood(c, init) by { assert forall i :: 0 <= i < |init| ==> init[i] == calls[i]; }
      h := GoodRunIsBounded(c, header, init);
      var s := Run(c, header, init);
      NothingIsDropped(c, header, s, call);
      hide Tells, Framed, Bounded;
      match call {
        case Commit(ops, f) =>
          if Staged(header, ops) == [] {
            NothingCommitted(c, s, f);
          } else {
            h := GoodCommitIsBounded(c, s, h, StagedBy(header, init),
                                     OpFrame.Encode(OpFrame.WireOfAll(CarriedOf(header, ops))), f);
          }
        case Seal(f) => h := GoodSealIsBounded(c, s, h, StagedBy(header, init), f);
      }
    }
  }

  lemma NothingIsDropped(c: Config, header: bytes, s: State, call: Call)
    requires Good(c, call.fate)
    ensures After(c, header, s, call).dropped == s.dropped
  {
    hide Staged;
  }
}
