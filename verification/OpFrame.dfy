/** The op frame codec: a counted batch of puts and deletes with bucketed length prefixes. */
module OpFrame {
  import opened Bytes
  import opened Store

  // --- Bucketed lengths ---

  /** The two high bits of the first byte pick the width. */
  function PutSize(v: u32): (s: bytes)
    ensures 1 <= |s| <= 5
  {
    if v < 0x40 then [v]
    else if v < 0x4000 then [0x40 + v / 0x100, v % 0x100]
    else if v < 0x40_0000 then [0x80 + v / 0x1_0000] + BE(v % 0x1_0000, 2)
    else [0xC0] + BE(v, 4)
  }

  function High(s: bytes, prefix: nat): (n: nat)
    requires s != [] && prefix <= s[0] < prefix + 0x40
    ensures n < 0x40
  {
    s[0] - prefix
  }

  /** The length at the front, and what follows it. */
  function TakeSize(s: bytes): (r: Option<(u32, bytes)>)
    ensures r.Some? ==> |r.value.1| < |s|
  {
    if s == [] then None
    else if s[0] < 0x40 then Some((s[0], s[1..]))
    else if s[0] < 0x80 then (if |s| < 2 then None else Some((High(s, 0x40) * 0x100 + s[1], s[2..])))
    else if s[0] < 0xC0 then (if |s| < 3 then None else Some((High(s, 0x80) * 0x1_0000 + U16At(s, 1), s[3..])))
    else if |s| < 5 then None
    else Some((U32At(s, 1), s[5..]))
  }

  lemma {:induction false} SizeReadsBack(v: u32, rest: bytes)
    ensures TakeSize(PutSize(v) + rest) == Some((v, rest))
  {
    hide BE, FromBE;
    FixedRoundTrips();
    var s := PutSize(v) + rest;
    if v < 0x40 {
      assert s[1..] == rest;
    } else if v < 0x4000 {
      assert s[2..] == rest;
    } else if v < 0x40_0000 {
      assert s[1..3] == BE(v % 0x1_0000, 2) && s[3..] == rest;
    } else {
      assert s[1..5] == BE(v, 4) && s[5..] == rest;
    }
  }

  // --- Frames ---

  const OP_PUT: byte := 0
  const OP_DELETE: byte := 1
  const OP_SCAN_STREAM: byte := 4

  /** Tag, key and value of one op. */
  type WireOp = (byte, bytes, bytes)

  function WireOf(op: Op): WireOp { if op.1.Some? then (OP_PUT, op.0, op.1.value) else (OP_DELETE, op.0, []) }

  function WireOfAll(ops: seq<Op>): seq<WireOp> {
    if ops == [] then [] else [WireOf(ops[0])] + WireOfAll(ops[1..])
  }

  function EncodeOp(op: WireOp): bytes {
    [op.0 % 16 * 16] + PutSize(Low32(|op.1|)) + PutSize(Low32(|op.2|)) + op.1 + op.2
  }

  function EncodeOps(ops: seq<WireOp>): bytes { if ops == [] then [] else EncodeOp(ops[0]) + EncodeOps(ops[1..]) }

  function Encode(ops: seq<WireOp>): bytes { PutSize(Low32(|ops|)) + EncodeOps(ops) }

  function DecodeOp(s: bytes): (r: Option<(WireOp, bytes)>)
    ensures r.Some? ==> |r.value.1| < |s|
  {
    if s == [] || s[0] / 16 > OP_SCAN_STREAM then None
    else
      match TakeSize(s[1..])
      case None => None
      case Some((kl, s1)) =>
        match TakeSize(s1)
        case None => None
        case Some((vl, s2)) =>
          if kl + vl > |s2| then None else Some(((s[0] / 16, s2[..kl], s2[kl..kl + vl]), s2[kl + vl..]))
  }

  function DecodeOps(count: nat, s: bytes): Option<seq<WireOp>> {
    if count == 0 then Some([])
    else
      match DecodeOp(s)
      case None => None
      case Some((op, rest)) =>
        match DecodeOps(count - 1, rest)
        case None => None
        case Some(ops) => Some([op] + ops)
  }

  function Decode(s: bytes): Option<seq<WireOp>> {
    match TakeSize(s) case None => None case Some((count, rest)) => DecodeOps(count, rest)
  }

  predicate OpFits(op: WireOp) { op.0 <= OP_SCAN_STREAM && |op.1| < U32_END && |op.2| < U32_END }

  lemma {:induction false} OpReadsBack(op: WireOp, rest: bytes)
    requires OpFits(op)
    ensures DecodeOp(EncodeOp(op) + rest) == Some((op, rest))
  {
    hide PutSize, TakeSize;
    var s := EncodeOp(op) + rest;
    var (k, v) := (PutSize(|op.1|), PutSize(|op.2|));
    assert s[1..] == k + (v + (op.1 + op.2 + rest));
    SizeReadsBack(|op.1|, v + (op.1 + op.2 + rest));
    SizeReadsBack(|op.2|, op.1 + op.2 + rest);
    var s2 := op.1 + op.2 + rest;
    assert s2[..|op.1|] == op.1 && s2[|op.1|..|op.1| + |op.2|] == op.2 && s2[|op.1| + |op.2|..] == rest;
  }

  lemma {:induction false} OpsReadBack(ops: seq<WireOp>)
    requires forall i :: 0 <= i < |ops| ==> OpFits(ops[i])
    ensures DecodeOps(|ops|, EncodeOps(ops)) == Some(ops)
    decreases |ops|
  {
    hide EncodeOp, DecodeOp, OpFits;
    if ops != [] {
      assert forall i :: 0 <= i < |ops[1..]| ==> ops[1..][i] == ops[i + 1];
      OpReadsBack(ops[0], EncodeOps(ops[1..]));
      OpsReadBack(ops[1..]);
      assert [ops[0]] + ops[1..] == ops;
    }
  }

  /** A batch of ops reads back as it was sent. */
  lemma {:induction false} FrameRoundTrip(ops: seq<WireOp>)
    requires |ops| < U32_END && forall i :: 0 <= i < |ops| ==> OpFits(ops[i])
    ensures Decode(Encode(ops)) == Some(ops)
  {
    hide EncodeOps, PutSize, TakeSize, DecodeOps, OpFits;
    SizeReadsBack(|ops|, EncodeOps(ops));
    OpsReadBack(ops);
  }
}
