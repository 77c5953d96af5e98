/** The change log as one object: staging, the buffered writes, trimming and rotation. */
module ChangelogWriter {
  import opened Bytes
  import opened Store
  import opened Changelog
  import OpFrame

  class ChangelogWriter {
    const config: Config
    const header: bytes
    var sealed: seq<bytes>
    var current: bytes
    var open: bool
    var pending: bytes
    var staged: bytes
    var dropped: nat

    function Now(): State
      reads this
    {
      State(sealed, current, open, pending, dropped)
    }

    constructor (config: Config, header: bytes)
      ensures Now() == FRESH && staged == [] && this.config == config && this.header == header
    {
      this.config, this.header := config, header;
      sealed, current, open, pending, staged, dropped := [], [], true, [], [], 0;
    }

    /** Build one commit's frame before the commit: only what this log carries of the batch. */
    method Stage(ops: seq<Op>)
      modifies `staged
      ensures staged == Staged(header, ops)
    {
      hide OpFrame.EncodeOp, OpFrame.PutSize, Carried;
      var count := 0;
      assert ops[0..] == ops;
      for i := 0 to |ops|
        invariant count + |CarriedOf(header, ops[i..])| == |CarriedOf(header, ops)|
      {
        assert ops[i..][0] == ops[i] && ops[i..][1..] == ops[i + 1..];
        if Carried(header, ops[i].0) {
          count := count + 1;
        }
      }
      WireCount(CarriedOf(header, ops));
      if count == 0 {
        staged := [];
        return;
      }
      var body := OpFrame.PutSize(Low32(count));
      ghost var all := OpFrame.Encode(OpFrame.WireOfAll(CarriedOf(header, ops)));
      for i := 0 to |ops|
        invariant body + OpFrame.EncodeOps(OpFrame.WireOfAll(CarriedOf(header, ops[i..]))) == all
      {
        assert ops[i..][0] == ops[i] && ops[i..][1..] == ops[i + 1..];
        ghost var rest := CarriedOf(header, ops[i + 1..]);
        if Carried(header, ops[i].0) {
          ghost var before := body;
          var one := OpFrame.EncodeOp(OpFrame.WireOf(ops[i]));
          FirstWire(ops[i], rest);
          body := body + one;
          assert before + (one + OpFrame.EncodeOps(OpFrame.WireOfAll(rest))) == body + OpFrame.EncodeOps(OpFrame.WireOfAll(rest));
        } else {
          assert [] + rest == rest;
        }
      }
      assert body + [] == body;
      staged := if |body| >= U32_END then [] else Framed(body);
    }

    /** After the commit: move the frame into the buffer, write and rotate when due. */
    method CommitStaged(f: Fate) returns (ok: bool)
      modifies this
      ensures (ok, Now()) == Committed(config, old(Now()), old(staged), f) && staged == []
    {
      hide Trimmed, Changelog.Sealed;
      if staged == [] {
        return true;
      }
      pending, staged := pending + staged, [];
      if |pending| >= config.bufferBytes || |current| + |pending| >= config.segmentBytes {
        var written := Write(f);
        if !written {
          return false;
        }
      }
      ok := MaybeRotate(f);
    }

    method Write(f: Fate) returns (ok: bool)
      modifies `pending, `current, `dropped
      ensures (ok, Now()) == WritePending(config, old(Now()), f)
    {
      if pending == [] {
        return true;
      }
      if !open {
        return false;
      }
      if !f.write {
        var lost := TrimToCap();
        dropped := dropped + lost;
        return false;
      }
      current, pending := current + pending, [];
      return !config.sync || f.synced;
    }

    /** Bound the retry buffer: drop whole records from the front. */
    method TrimToCap() returns (lost: nat)
      modifies `pending
      ensures (pending, lost) == Trimmed(old(pending), Cap(config))
    {
      hide FirstEnd;
      lost := 0;
      while |pending| > Cap(config)
        invariant Trimmed(old(pending), Cap(config))
               == (Trimmed(pending, Cap(config)).0, lost + Trimmed(pending, Cap(config)).1)
        decreases |pending|
      {
        var end := FirstEnd(pending);
        if end.None? {
          pending := [];
          return lost + 1;
        }
        pending := pending[end.value..];
        lost := lost + 1;
      }
    }

    method MaybeRotate(f: Fate) returns (ok: bool)
      modifies `sealed, `current, `open, `pending, `dropped
      ensures (ok, Now()) == Rotated(config, old(Now()), f)
    {
      hide WritePending;
      var total := |current| + |pending|;
      if !(total >= config.segmentBytes || f.aged) || total == 0 {
        return true;
      }
      ok := Seal(f);
    }

    /** Write what is buffered, close the segment under its sealed name and start the next. */
    method Seal(f: Fate) returns (ok: bool)
      modifies `sealed, `current, `open, `pending, `dropped
      ensures (ok, Now()) == Changelog.Sealed(config, old(Now()), f)
    {
      hide Trimmed;
      var written := Write(f);
      if !written {
        return false;
      }
      open := false;
      if !f.rename {
        return false;
      }
      sealed, current := sealed + [current], [];
      open := f.create;
      return f.create;
    }
  }

  lemma {:induction false} WireCount(ops: seq<Op>)
    ensures |OpFrame.WireOfAll(ops)| == |ops|
    decreases |ops|
  {
    if ops != [] { WireCount(ops[1..]); }
  }

  lemma FirstWire(op: Op, rest: seq<Op>)
    ensures OpFrame.EncodeOps(OpFrame.WireOfAll([op] + rest))
         == OpFrame.EncodeOp(OpFrame.WireOf(op)) + OpFrame.EncodeOps(OpFrame.WireOfAll(rest))
  {
    hide OpFrame.EncodeOp;
    assert ([op] + rest)[1..] == rest;
    var wire := OpFrame.WireOfAll(rest);
    assert ([OpFrame.WireOf(op)] + wire)[1..] == wire;
  }

  method AddFrame(out: seq<seq<OpFrame.WireOp>>, frame: seq<OpFrame.WireOp>, ghost later: Outcome)
      returns (more: seq<seq<OpFrame.WireOp>>)
    ensures more == out + [frame] && (later.Frames? ==> out + ([frame] + later.frames) == more + later.frames)
  {
    more := out + [frame];
  }

  /** Read a segment's frames, strictly when it is sealed. */
  method ReadFrames(s: bytes, strict: bool) returns (r: Outcome)
    ensures r == FramesOf(s, strict)
  {
    hide FirstEnd, OpFrame.Decode;
    var out: seq<seq<OpFrame.WireOp>> := [];
    var rest := s;
    while true
      invariant FramesOf(s, strict) == match FramesOf(rest, strict) case Corrupt => Corrupt case Frames(fs) => Frames(out + fs)
      decreases |rest|
    {
      var end := FirstEnd(rest);
      if end.None? {
        if strict && rest != [] {
          return Corrupt;
        }
        assert out + [] == out;
        return Frames(out);
      }
      var frame := OpFrame.Decode(rest[4..end.value]);
      if frame.None? {
        return Corrupt;
      }
      out := AddFrame(out, frame.value, FramesOf(rest[end.value..], strict));
      rest := rest[end.value..];
    }
  }
}
