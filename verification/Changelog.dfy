/** The change log: one frame per committed batch, buffered, written and sealed into segments. */
module Changelog {
  import opened Bytes
  import opened Store
  import OpFrame

  datatype Config = Config(segmentBytes: nat, bufferBytes: nat, sync: bool)

  /** What the clock and the file system answer during one call. A write is all or nothing. */
  datatype Fate = Fate(aged: bool, write: bool, synced: bool, rename: bool, create: bool)

  /** What the fields of a `Changelog` hold, with the files it writes: the sealed segments, the bytes of the current
      one, whether its handle is open, and the buffer. */
  datatype State = State(sealed: seq<bytes>, current: bytes, open: bool, pending: bytes, dropped: nat)

  // --- Which writes are carried ---

  /** The truth half of a batch, by slot; whatever is not recognised is left out. */
  predicate Carried(header: bytes, key: bytes) {
    && header <= key
    && var rest := key[|header|..];
       && rest != []
       && (if rest[0] <= 0x0F then |rest| > 1 && rest[0] <= 5
           else |rest| > 2 && rest[0] / 16 in {1, 2})
  }

  /** Of a table's keys exactly those of rows, segments, vocabularies and predicates are carried, and no bare face. */
  lemma {:induction false} CarriedIsTheTruth(ns: bytes, s: slot, x: bytes)
    ensures Carried(ns, Key(ns, s, x)) <==> x != [] && (s <= 5 || s / 4096 in {1, 2})
  {
    var key := Key(ns, s, x);
    assert key == ns + (SlotBytes(s) + x);
    assert key[|ns|..] == SlotBytes(s) + x;
  }

  function CarriedOf(header: bytes, ops: seq<Op>): seq<Op> {
    if ops == [] then []
    else (if Carried(header, ops[0].0) then [ops[0]] else []) + CarriedOf(header, ops[1..])
  }

  /** What a batch carries: of each operation that is recognised itself, of every other nothing, in order. */
  lemma {:induction false} CarriedIs(header: bytes, ops: seq<Op>, op: Op)
    ensures CarriedOf(header, []) == []
    ensures CarriedOf(header, ops + [op]) == CarriedOf(header, ops) + if Carried(header, op.0) then [op] else []
    decreases |ops|
  {
    hide Carried;
    var more := if Carried(header, op.0) then [op] else [];
    if ops == [] {
      assert ops + [op] == [op] && [op][1..] == [];
      assert CarriedOf(header, [op]) == more + [] == [] + more;
    } else {
      var first := if Carried(header, ops[0].0) then [ops[0]] else [];
      assert (ops + [op])[0] == ops[0] && (ops + [op])[1..] == ops[1..] + [op];
      CarriedIs(header, ops[1..], op);
      assert first + (CarriedOf(header, ops[1..]) + more) == first + CarriedOf(header, ops[1..]) + more;
    }
  }

  /** What a frame says of an operation: tag 0 for a put, tag 1 for a delete. */
  function Said(op: OpFrame.WireOp): Option<Op> {
    if op.0 == 0 then Some((op.1, Some(op.2))) else if op.0 == 1 && op.2 == [] then Some((op.1, None)) else None
  }

  /** A frame says every operation it was made from, in order. */
  lemma {:induction false} WireSays(ops: seq<Op>)
    ensures |OpFrame.WireOfAll(ops)| == |ops|
    ensures forall i :: 0 <= i < |ops| ==> Said(OpFrame.WireOfAll(ops)[i]) == Some(ops[i])
    decreases |ops|
  {
    if ops != [] {
      WireSays(ops[1..]);
      assert forall i :: 0 < i < |ops| ==> ops[i] == ops[1..][i - 1];
    }
  }

  // --- Frames in a byte stream ---

  function Framed(body: bytes): bytes { BE(|body|, 4) + body }

  /** One commit's frame; nothing for a batch without truth, or one too large to be framed. */
  function Staged(header: bytes, ops: seq<Op>): bytes {
    var carried := OpFrame.WireOfAll(CarriedOf(header, ops));
    var body := OpFrame.Encode(carried);
    if carried == [] || |body| >= U32_END then [] else Framed(body)
  }

  function Stream(bodies: seq<bytes>): bytes { if bodies == [] then [] else Framed(bodies[0]) + Stream(bodies[1..]) }

  /** The end of the first record, if it is complete. */
  function FirstEnd(s: bytes): (r: Option<nat>)
    ensures r.Some? ==> 4 <= r.value <= |s|
  {
    if |s| < 4 || 4 + U32At(s, 0) > |s| then None else Some(4 + U32At(s, 0))
  }

  datatype Outcome = Corrupt | Frames(frames: seq<seq<OpFrame.WireOp>>)

  /** Read a segment: a sealed one must end where a frame ends, an open one may have a torn tail. */
  function FramesOf(s: bytes, strict: bool): Outcome
    decreases |s|
  {
    match FirstEnd(s)
    case None => if strict && s != [] then Corrupt else Frames([])
    case Some(end) =>
      match OpFrame.Decode(s[4..end])
      case None => Corrupt
      case Some(frame) =>
        match FramesOf(s[end..], strict)
        case Corrupt => Corrupt
        case Frames(rest) => Frames([frame] + rest)
  }

  // --- The steps ---

  function Cap(c: Config): nat { if 8 * c.bufferBytes > 1 then 8 * c.bufferBytes else 1 }

  /** Drop whole records from the front until the rest fits, and count them. */
  function Trimmed(pending: bytes, cap: nat): (r: (bytes, nat))
    ensures |r.0| <= cap
    decreases |pending|
  {
    if |pending| <= cap then (pending, 0)
    else
      match FirstEnd(pending)
      case None => ([], 1)
      case Some(end) =>
        var (rest, n) := Trimmed(pending[end..], cap);
        (rest, n + 1)
  }

  function WritePending(c: Config, s: State, f: Fate): (bool, State) {
    if s.pending == [] then (true, s)
    else if !s.open then (false, s)
    else if !f.write then
      var (rest, n) := Trimmed(s.pending, Cap(c));
      (false, s.(pending := rest, dropped := s.dropped + n))
    else (!c.sync || f.synced, s.(current := s.current + s.pending, pending := []))
  }

  function Sealed(c: Config, s: State, f: Fate): (bool, State) {
    var (ok, s') := WritePending(c, s, f);
    if !ok then (false, s')
    else if !f.rename then (false, s'.(open := false))
    else (f.create, s'.(sealed := s'.sealed + [s'.current], current := [], open := f.create))
  }

  function Rotated(c: Config, s: State, f: Fate): (bool, State) {
    var total := |s.current| + |s.pending|;
    if !(total >= c.segmentBytes || f.aged) || total == 0 then (true, s) else Sealed(c, s, f)
  }

  function Committed(c: Config, s: State, staged: bytes, f: Fate): (bool, State) {
    if staged == [] then (true, s)
    else
      var s' := s.(pending := s.pending + staged);
      if |s'.pending| >= c.bufferBytes || |s'.current| + |s'.pending| >= c.segmentBytes then
        var (ok, s'') := WritePending(c, s', f);
        if ok then Rotated(c, s'', f) else (false, s'')
      else Rotated(c, s', f)
  }

  const FRESH: State := State([], [], true, [], 0)

  // --- Where every frame is ---

  /** The frames behind a log: those of each sealed segment, those of the current one, those still buffered; and every
      frame that left the buffer, in order, with whether it was written. */
  datatype History = History(sealed: seq<seq<bytes>>, current: seq<bytes>, queue: seq<bytes>, settled: seq<(bytes, bool)>)

  function Flat(segments: seq<seq<bytes>>): seq<bytes> {
    if segments == [] then [] else Flat(segments[..|segments| - 1]) + segments[|segments| - 1]
  }

  function Firsts(settled: seq<(bytes, bool)>): seq<bytes> {
    if settled == [] then [] else Firsts(settled[..|settled| - 1]) + [settled[|settled| - 1].0]
  }

  function Kept(settled: seq<(bytes, bool)>): seq<bytes> {
    if settled == [] then []
    else Kept(settled[..|settled| - 1]) + if settled[|settled| - 1].1 then [settled[|settled| - 1].0] else []
  }

  function Lost(settled: seq<(bytes, bool)>): nat {
    if settled == [] then 0 else Lost(settled[..|settled| - 1]) + if settled[|settled| - 1].1 then 0 else 1
  }

  function Marked(bodies: seq<bytes>, written: bool): seq<(bytes, bool)> {
    if bodies == [] then [] else Marked(bodies[..|bodies| - 1], written) + [(bodies[|bodies| - 1], written)]
  }

  predicate AllFit(bodies: seq<bytes>) { forall i :: 0 <= i < |bodies| ==> |bodies[i]| < U32_END }

  /** Conservation: what was staged is what was delivered, what is buffered and what was counted as dropped, in order,
      and every segment is a stream of whole frames. */
  ghost predicate Tells(s: State, h: History, staged: seq<bytes>) {
    && |s.sealed| == |h.sealed| && (forall i :: 0 <= i < |s.sealed| ==> s.sealed[i] == Stream(h.sealed[i]))
    && s.current == Stream(h.current) && s.pending == Stream(h.queue) && AllFit(h.queue)
    && Kept(h.settled) == Flat(h.sealed) + h.current
    && Lost(h.settled) == s.dropped
    && Firsts(h.settled) + h.queue == staged
  }

  lemma {:induction false} StreamJoins(a: seq<bytes>, b: seq<bytes>)
    ensures Stream(a + b) == Stream(a) + Stream(b)
    decreases |a|
  {
    hide Framed;
    if a == [] {
      assert a + b == b;
    } else {
      assert (a + b)[0] == a[0] && (a + b)[1..] == a[1..] + b;
      StreamJoins(a[1..], b);
    }
  }

  lemma {:induction false} FirstFrame(body: bytes, rest: bytes)
    requires |body| < U32_END
    ensures FirstEnd(Framed(body) + rest) == Some(4 + |body|)
    ensures (Framed(body) + rest)[4 + |body|..] == rest && (Framed(body) + rest)[4..4 + |body|] == body
  {
    hide BE, FromBE;
    FixedRoundTrips();
    var s := Framed(body) + rest;
    assert s[0..4] == BE(|body|, 4);
    assert s[4..4 + |body|] == body && s[4 + |body|..] == rest;
  }

  /** The `k` oldest frames are dropped, and one less would not have been enough. */
  ghost predicate DropsFirst(queue: seq<bytes>, cap: nat, k: nat) {
    && k <= |queue| && Trimmed(Stream(queue), cap) == (Stream(queue[k..]), k)
    && (k > 0 ==> |Stream(queue[k - 1..])| > cap)
  }

  /** Trimming drops whole frames, the oldest ones, one count each, and no more of them than it takes. */
  lemma {:induction false} TrimDropsFrames(queue: seq<bytes>, cap: nat) returns (k: nat)
    requires AllFit(queue)
    ensures DropsFirst(queue, cap, k)
    decreases |queue|
  {
    hide Framed, FirstEnd;
    if |Stream(queue)| <= cap {
      k := 0;
      assert queue[0..] == queue;
    } else {
      FirstFrame(queue[0], Stream(queue[1..]));
      assert AllFit(queue[1..]) by { assert forall i :: 0 <= i < |queue[1..]| ==> queue[1..][i] == queue[i + 1]; }
      var n := TrimDropsFrames(queue[1..], cap);
      k := n + 1;
      assert queue[1..][n..] == queue[k..] && queue[0..] == queue;
      if n > 0 { assert queue[1..][n - 1..] == queue[k - 1..]; }
    }
  }

  lemma {:induction false} MarkedIs(settled: seq<(bytes, bool)>, bodies: seq<bytes>, written: bool)
    ensures var all := settled + Marked(bodies, written);
      && Firsts(all) == Firsts(settled) + bodies
      && Kept(all) == Kept(settled) + (if written then bodies else [])
      && Lost(all) == Lost(settled) + (if written then 0 else |bodies|)
    decreases |bodies|
  {
    var all := settled + Marked(bodies, written);
    if bodies == [] {
      assert all == settled;
      assert Firsts(settled) + bodies == Firsts(settled) && Kept(settled) + [] == Kept(settled);
    } else {
      var (init, last) := (bodies[..|bodies| - 1], bodies[|bodies| - 1]);
      MarkedIs(settled, init, written);
      assert all == settled + Marked(init, written) + [(last, written)];
      MarkedSnoc(settled + Marked(init, written), last, written);
      hide *;
      assert bodies == init + [last];
      assert Firsts(settled) + init + [last] == Firsts(settled) + bodies;
      assert Kept(settled) + (if written then init else []) + (if written then [last] else [])
          == Kept(settled) + if written then bodies else [];
    }
  }

  lemma MarkedSnoc(settled: seq<(bytes, bool)>, last: bytes, written: bool)
    ensures var all := settled + [(last, written)];
      && Firsts(all) == Firsts(settled) + [last]
      && Kept(all) == Kept(settled) + (if written then [last] else [])
      && Lost(all) == Lost(settled) + if written then 0 else 1
  {
    assert (settled + [(last, written)])[..|settled|] == settled;
  }

  // --- Conservation, step by step ---

  /** The history after a write was tried: everything buffered is in the segment, or the oldest of it is lost. */
  ghost predicate WroteTo(c: Config, s: State, h: History, f: Fate, h': History) {
    if s.pending == [] || !s.open then h' == h
    else if f.write then
      h' == h.(current := h.current + h.queue, queue := [], settled := h.settled + Marked(h.queue, true))
    else exists k :: 0 <= k <= |h.queue| && Trimmed(Stream(h.queue), Cap(c)) == (Stream(h.queue[k..]), k)
                     && h' == h.(queue := h.queue[k..], settled := h.settled + Marked(h.queue[..k], false))
  }

  lemma {:induction false} WriteConserves(c: Config, s: State, h: History, staged: seq<bytes>, f: Fate)
      returns (h': History)
    requires Tells(s, h, staged)
    ensures WroteTo(c, s, h, f, h') && Tells(WritePending(c, s, f).1, h', staged)
  {
    hide Framed, Stream, Firsts, Kept, Lost, Marked, Flat, Trimmed, AllFit;
    h' := h;
    if s.pending != [] && s.open {
      if f.write {
        h' := h.(current := h.current + h.queue, queue := [], settled := h.settled + Marked(h.queue, true));
        AllWritten(s, h, staged);
      } else {
        var k := TrimDropsFrames(h.queue, Cap(c));
        h' := h.(queue := h.queue[k..], settled := h.settled + Marked(h.queue[..k], false));
        OldestLost(s, h, staged, k);
      }
    }
  }

  lemma {:induction false} AllWritten(s: State, h: History, staged: seq<bytes>)
    requires Tells(s, h, staged)
    ensures Tells(s.(current := s.current + s.pending, pending := []),
                  h.(current := h.current + h.queue, queue := [], settled := h.settled + Marked(h.queue, true)), staged)
  {
    hide Framed, Stream, Firsts, Kept, Lost, Marked, Flat, Trimmed, AllFit;
    StreamJoins(h.current, h.queue);
    MarkedIs(h.settled, h.queue, true);
    NothingQueued();
    assert Flat(h.sealed) + h.current + h.queue == Flat(h.sealed) + (h.current + h.queue);
    assert Firsts(h.settled) + h.queue + [] == staged;
  }

  lemma {:induction false} OldestLost(s: State, h: History, staged: seq<bytes>, k: nat)
    requires Tells(s, h, staged) && k <= |h.queue|
    ensures Tells(s.(pending := Stream(h.queue[k..]), dropped := s.dropped + k),
                  h.(queue := h.queue[k..], settled := h.settled + Marked(h.queue[..k], false)), staged)
  {
    hide Framed, Stream, Firsts, Kept, Lost, Marked, Flat, Trimmed;
    MarkedIs(h.settled, h.queue[..k], false);
    assert Kept(h.settled) + [] == Kept(h.settled);
    assert h.queue[..k] + h.queue[k..] == h.queue;
    assert Firsts(h.settled) + h.queue[..k] + h.queue[k..] == Firsts(h.settled) + (h.queue[..k] + h.queue[k..]);
  }

  lemma NothingQueued()
    ensures Stream([]) == [] && AllFit([])
  {}

  lemma {:induction false} SealConserves(c: Config, s: State, h: History, staged: seq<bytes>, f: Fate)
      returns (h': History)
    requires Tells(s, h, staged)
    ensures Tells(Sealed(c, s, f).1, h', staged)
  {
    hide Framed, Stream, Firsts, Kept, Lost, Marked, Trimmed, WroteTo, WritePending;
    h' := WriteConserves(c, s, h, staged, f);
    var (ok, s') := WritePending(c, s, f);
    if ok && f.rename {
      var before := h';
      h' := before.(sealed := before.sealed + [before.current], current := []);
      assert h'.sealed[..|before.sealed|] == before.sealed;
      NothingQueued();
      assert Flat(h'.sealed) + [] == Flat(before.sealed) + before.current;
    }
  }

  /** Whatever the file system answers, a committed frame is delivered, buffered or counted as dropped, in its place. */
  lemma {:induction false} CommitConserves(c: Config, s: State, h: History, staged: seq<bytes>, body: bytes, f: Fate)
      returns (h': History)
    requires Tells(s, h, staged) && |body| < U32_END
    ensures Tells(Committed(c, s, Framed(body), f).1, h', staged + [body])
  {
    hide Stream, Firsts, Kept, Lost, Marked, Trimmed, WroteTo, WritePending, Sealed, Flat, Framed;
    FramedIsSome(body);
    var s' := s.(pending := s.pending + Framed(body));
    h' := h.(queue := h.queue + [body]);
    OneFrame(body);
    StreamJoins(h.queue, [body]);
    assert Firsts(h.settled) + (h.queue + [body]) == staged + [body];
    if |s'.pending| >= c.bufferBytes || |s'.current| + |s'.pending| >= c.segmentBytes {
      h' := WriteConserves(c, s', h', staged + [body], f);
      var (ok, s'') := WritePending(c, s', f);
      if ok { h' := RotateConserves(c, s'', h', staged + [body], f); }
    } else {
      h' := RotateConserves(c, s', h', staged + [body], f);
    }
  }

  lemma {:induction false} RotateConserves(c: Config, s: State, h: History, staged: seq<bytes>, f: Fate)
      returns (h': History)
    requires Tells(s, h, staged)
    ensures Tells(Rotated(c, s, f).1, h', staged)
  {
    hide Tells, Sealed;
    h' := h;
    var total := |s.current| + |s.pending|;
    if (total >= c.segmentBytes || f.aged) && total != 0 { h' := SealConserves(c, s, h, staged, f); }
  }

  lemma FramedIsSome(body: bytes)
    ensures |Framed(body)| == 4 + |body|
  {}

  lemma OneFrame(body: bytes)
    ensures Stream([body]) == Framed(body)
  {
    assert [body][1..] == [];
    assert Framed(body) + [] == Framed(body);
  }

  // --- Runs ---

  /** A batch is committed, or the host asks for a seal. */
  datatype Call = Commit(ops: seq<Op>, fate: Fate) | Seal(fate: Fate)

  function After(c: Config, header: bytes, s: State, call: Call): State {
    match call case Commit(ops, f) => Committed(c, s, Staged(header, ops), f).1 case Seal(f) => Sealed(c, s, f).1
  }

  function Run(c: Config, header: bytes, calls: seq<Call>): State {
    if calls == [] then FRESH else After(c, header, Run(c, header, calls[..|calls| - 1]), calls[|calls| - 1])
  }

  /** The frames a run staged, in order. */
  function StagedBy(header: bytes, calls: seq<Call>): seq<bytes> {
    if calls == [] then []
    else
      var before := StagedBy(header, calls[..|calls| - 1]);
      match calls[|calls| - 1]
      case Commit(ops, _) =>
        if Staged(header, ops) == [] then before else before + [OpFrame.Encode(OpFrame.WireOfAll(CarriedOf(header, ops)))]
      case Seal(_) => before
  }

  /** Over every run, with any failures, no frame is lost without being counted and none is out of order. */
  lemma {:induction false} RunConserves(c: Config, header: bytes, calls: seq<Call>) returns (h: History)
    ensures Tells(Run(c, header, calls), h, StagedBy(header, calls))
    decreases |calls|
  {
    hide Committed, Sealed, CarriedOf, OpFrame.Encode;
    if calls == [] {
      h := History([], [], [], []);
    } else {
      var init := calls[..|calls| - 1];
      h := RunConserves(c, header, init);
      hide Tells, Framed;
      match calls[|calls| - 1] {
        case Commit(ops, f) =>
          if Staged(header, ops) == [] {
            NothingCommitted(c, Run(c, header, init), f);
          } else {
            h := CommitConserves(c, Run(c, header, init), h, StagedBy(header, init),
                                 OpFrame.Encode(OpFrame.WireOfAll(CarriedOf(header, ops))), f);
          }
        case Seal(f) => h := SealConserves(c, Run(c, header, init), h, StagedBy(header, init), f);
      }
    }
  }

  lemma NothingCommitted(c: Config, s: State, f: Fate)
    ensures Committed(c, s, [], f).1 == s
  {}

  /** A commit that fills neither the buffer nor the segment, in a segment that is not too old, touches no file: its frame
      waits in the buffer. One that fills either writes the buffer out. */
  lemma {:induction false} CommitBuffers(c: Config, s: State, staged: bytes, f: Fate)
    requires staged != []
    ensures |s.pending| + |staged| < c.bufferBytes && |s.current| + |s.pending| + |staged| < c.segmentBytes && !f.aged ==>
      Committed(c, s, staged, f) == (true, s.(pending := s.pending + staged))
    ensures s.open && f.write && f.synced && !f.aged && |s.pending| + |staged| >= c.bufferBytes
            && |s.current| + |s.pending| + |staged| < c.segmentBytes ==>
      Committed(c, s, staged, f) == (true, s.(current := s.current + (s.pending + staged), pending := []))
  {
    hide Trimmed;
  }

  // --- Reading back ---

  /** How many of the frames lie wholly inside the first `n` bytes of their stream. */
  function WholeFrames(bodies: seq<bytes>, n: nat): (k: nat)
    ensures k <= |bodies|
  {
    if bodies == [] || |Framed(bodies[0])| > n then 0 else 1 + WholeFrames(bodies[1..], n - |Framed(bodies[0])|)
  }

  predicate AllDecode(bodies: seq<bytes>) { forall i :: 0 <= i < |bodies| ==> OpFrame.Decode(bodies[i]).Some? }

  function Decoded(bodies: seq<bytes>): seq<seq<OpFrame.WireOp>> {
    if bodies == [] then []
    else [if OpFrame.Decode(bodies[0]).Some? then OpFrame.Decode(bodies[0]).value else []] + Decoded(bodies[1..])
  }

  /** Reading an open segment cut anywhere gives exactly the frames wholly before the cut; reading it as sealed works
      exactly when the cut is where a frame ends. */
  lemma {:induction false} CutReadsWholeFrames(bodies: seq<bytes>, n: nat)
    requires AllFit(bodies) && AllDecode(bodies) && n <= |Stream(bodies)|
    ensures var k := WholeFrames(bodies, n);
      && FramesOf(Stream(bodies)[..n], false) == Frames(Decoded(bodies[..k]))
      && FramesOf(Stream(bodies)[..n], true) == (if n == |Stream(bodies[..k])| then Frames(Decoded(bodies[..k])) else Corrupt)
    decreases |bodies|
  {
    hide OpFrame.Decode, Framed, FirstEnd;
    var s := Stream(bodies)[..n];
    if bodies == [] {
      ShortHasNoFrame(s);
    } else if |Framed(bodies[0])| > n {
      CutInsideFirst(bodies[0], Stream(bodies[1..]), n);
      FramedIsSome(bodies[0]);
      assert bodies[..0] == [];
    } else {
      var (body, rest) := (bodies[0], bodies[1..]);
      FramedIsSome(body);
      var m := n - |Framed(body)|;
      assert s == Framed(body) + Stream(rest)[..m];
      FirstFrame(body, Stream(rest)[..m]);
      assert forall i :: 0 <= i < |rest| ==> rest[i] == bodies[i + 1];
      CutReadsWholeFrames(rest, m);
      var k := WholeFrames(rest, m);
      assert bodies[..k + 1][0] == body && bodies[..k + 1][1..] == rest[..k];
    }
  }

  lemma ShortHasNoFrame(s: bytes)
    requires |s| < 4
    ensures FirstEnd(s) == None
  {}

  lemma {:induction false} CutInsideFirst(body: bytes, rest: bytes, n: nat)
    requires |body| < U32_END && n < |Framed(body)|
    ensures FirstEnd((Framed(body) + rest)[..n]) == None
  {
    hide BE, FromBE;
    FixedRoundTrips();
    if n >= 4 { assert (Framed(body) + rest)[..n][0..4] == BE(|body|, 4); }
  }

  /** What a batch staged reads back as the ops it carried. */
  lemma {:induction false} StagedReadsBack(header: bytes, ops: seq<Op>)
    requires Staged(header, ops) != []
    ensures FramesOf(Staged(header, ops), true) == Frames([OpFrame.WireOfAll(CarriedOf(header, ops))])
  {
    var wire := OpFrame.WireOfAll(CarriedOf(header, ops));
    var body := OpFrame.Encode(wire);
    WireFits(CarriedOf(header, ops));
    hide OpFrame.Encode, OpFrame.Decode, Framed, FirstEnd, CarriedOf, OpFrame.OpFits;
    OpFrame.FrameRoundTrip(wire);
    FirstFrame(body, []);
    assert Framed(body) + [] == Framed(body);
    ShortHasNoFrame([]);
    assert [wire] + [] == [wire];
  }

  lemma {:induction false} WireFits(ops: seq<Op>)
    requires |OpFrame.Encode(OpFrame.WireOfAll(ops))| < U32_END
    ensures var wire := OpFrame.WireOfAll(ops);
      |wire| < U32_END && forall i :: 0 <= i < |wire| ==> OpFrame.OpFits(wire[i])
  {
    hide OpFrame.WireOfAll, OpFrame.EncodeOps, OpFrame.PutSize;
    TagsFit(ops);
    EncodedLength(OpFrame.WireOfAll(ops));
  }

  lemma {:induction false} TagsFit(ops: seq<Op>)
    ensures forall i :: 0 <= i < |OpFrame.WireOfAll(ops)| ==> OpFrame.WireOfAll(ops)[i].0 <= 1
    decreases |ops|
  {
    if ops != [] { TagsFit(ops[1..]); }
  }

  /** A body below 4 GiB has fewer ops than that, each with a shorter key and value. */
  lemma {:induction false} EncodedLength(ops: seq<OpFrame.WireOp>)
    ensures |OpFrame.EncodeOps(ops)| >= 3 * |ops|
    ensures forall i :: 0 <= i < |ops| ==> |ops[i].1| + |ops[i].2| < |OpFrame.EncodeOps(ops)|
    decreases |ops|
  {
    hide OpFrame.PutSize;
    if ops != [] {
      EncodedLength(ops[1..]);
      assert forall i :: 0 < i < |ops| ==> ops[i] == ops[1..][i - 1];
    }
  }
}
