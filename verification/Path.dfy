/** Field paths: how they resolve in a document, and their canonical bytes. */
module Path {
  import opened Bytes
  import opened Value
  import Segment

  /** A field by its interned name, an array position, or an object key carried literally. */
  datatype Component = Field(name: bytes) | Index(i: u32) | Literal(key: bytes)

  type Path = seq<Component>

  // --- Resolving ---

  /** The values a path addresses in `v`: an array not followed by a position fans out, a path that ends at an array
      yields its scalar leaves, and whatever is not there yields nothing. */
  function Walk(v: Value, p: Path): seq<Value>
    decreases v
  {
    match v
    case Obj(fields) =>
      if p == [] || p[0].Index? then []
      else
        var name := if p[0].Field? then p[0].name else p[0].key;
        if name in fields then Walk(fields[name], p[1..]) else []
    case Array(items) =>
      if p == [] then LeavesOfAll(items)
      else if p[0].Index? then (if p[0].i < |items| then Walk(items[p[0].i], p[1..]) else [])
      else WalkAll(items, p)
    case _ => if p == [] then [v] else []
  }

  function WalkAll(items: seq<Value>, p: Path): seq<Value>
    decreases items
  {
    if items == [] then [] else Walk(items[0], p) + WalkAll(items[1..], p)
  }

  function Leaves(v: Value): seq<Value>
    decreases v
  {
    match v
    case Array(items) => LeavesOfAll(items)
    case Obj(_) => []
    case _ => [v]
  }

  function LeavesOfAll(items: seq<Value>): seq<Value>
    decreases items
  {
    if items == [] then [] else Leaves(items[0]) + LeavesOfAll(items[1..])
  }

  function ResolvePath(document: ValueMap, p: Path): seq<Value> { Walk(Obj(document), p) }

  function AllReadBack(vs: seq<Value>): seq<Value> {
    if vs == [] then [] else [ReadBack(vs[0])] + AllReadBack(vs[1..])
  }

  lemma {:induction false} AllReadBackJoins(xs: seq<Value>, ys: seq<Value>)
    ensures AllReadBack(xs + ys) == AllReadBack(xs) + AllReadBack(ys)
    decreases |xs|
  {
    hide ReadBack;
    if xs == [] {
      assert xs + ys == ys;
    } else {
      assert (xs + ys)[0] == xs[0] && (xs + ys)[1..] == xs[1..] + ys;
      AllReadBackJoins(xs[1..], ys);
    }
  }

  /** Storing a document and reading it back changes the values a path finds only by what storing does to each. */
  lemma {:induction false} WalkOfReadBack(v: Value, p: Path)
    ensures Walk(ReadBack(v), p) == AllReadBack(Walk(v, p))
    decreases v
  {
    hide ReadInt, IntBytes, LeavesOfAll, WalkAll;
    match v {
      case Obj(fields) =>
        if p != [] && !p[0].Index? {
          var name := if p[0].Field? then p[0].name else p[0].key;
          if name in fields { WalkOfReadBack(fields[name], p[1..]); }
        }
      case Array(items) =>
        var back := ReadBack(v).items;
        if p == [] {
          LeavesOfReadBack(items, back);
        } else if p[0].Index? {
          if p[0].i < |items| { WalkOfReadBack(items[p[0].i], p[1..]); }
        } else {
          WalkAllOfReadBack(items, back, p);
        }
      case _ => assert p == [] ==> [v][1..] == [];
    }
  }

  lemma {:induction false} WalkAllOfReadBack(items: seq<Value>, back: seq<Value>, p: Path)
    requires |back| == |items| && forall i :: 0 <= i < |items| ==> back[i] == ReadBack(items[i])
    ensures WalkAll(back, p) == AllReadBack(WalkAll(items, p))
    decreases items
  {
    hide ReadBack, Walk;
    if items != [] {
      WalkOfReadBack(items[0], p);
      WalkAllOfReadBack(items[1..], back[1..], p);
      AllReadBackJoins(Walk(items[0], p), WalkAll(items[1..], p));
    }
  }

  lemma {:induction false} LeavesOfReadBack(items: seq<Value>, back: seq<Value>)
    requires |back| == |items| && forall i :: 0 <= i < |items| ==> back[i] == ReadBack(items[i])
    ensures LeavesOfAll(back) == AllReadBack(LeavesOfAll(items))
    decreases items
  {
    hide ReadBack;
    if items != [] {
      LeafOfReadBack(items[0]);
      LeavesOfReadBack(items[1..], back[1..]);
      AllReadBackJoins(Leaves(items[0]), LeavesOfAll(items[1..]));
    }
  }

  lemma {:induction false} LeafOfReadBack(v: Value)
    ensures Leaves(ReadBack(v)) == AllReadBack(Leaves(v))
    decreases v
  {
    hide ReadInt, IntBytes, LeavesOfAll;
    match v {
      case Array(items) => LeavesOfReadBack(items, ReadBack(v).items);
      case Obj(_) =>
      case _ => assert [v][1..] == [];
    }
  }

  // --- Canonical bytes ---

  const TAG_FIELD: byte := 1
  const TAG_INDEX: byte := 2
  const TAG_KEY: byte := 3

  /** One component: a tag, then a handle, a position or a length and the key it cuts. */
  function EncodeOne(c: Component, handle: bytes -> u16): bytes {
    match c
    case Field(name) => [TAG_FIELD] + Segment.PutId(handle(name))
    case Index(i) => [TAG_INDEX] + BE(i, 4)
    case Literal(key) =>
      var n := if |key| < U16_END then |key| else U16_END - 1;
      [TAG_KEY] + Segment.PutId(n) + key[..n]
  }

  function Encode(p: Path, handle: bytes -> u16): bytes {
    if p == [] then [] else EncodeOne(p[0], handle) + Encode(p[1..], handle)
  }

  /** The component at the front and what follows it; nothing for truncated bytes, an unknown tag or handle. */
  function TakeOne(s: bytes, nameOf: u16 -> Option<bytes>): (r: Option<(Component, bytes)>)
    ensures r.Some? ==> |r.value.1| < |s|
  {
    if s == [] then None
    else if s[0] == TAG_FIELD then
      match Segment.TakeId(s[1..])
      case None => None
      case Some((id, rest)) => if nameOf(id).None? then None else Some((Field(nameOf(id).value), rest))
    else if s[0] == TAG_INDEX then
      if |s| < 5 then None else Some((Index(U32At(s, 1)), s[5..]))
    else if s[0] == TAG_KEY then
      match Segment.TakeId(s[1..])
      case None => None
      case Some((n, rest)) => if |rest| < n then None else Some((Literal(rest[..n]), rest[n..]))
    else None
  }

  function Decode(s: bytes, nameOf: u16 -> Option<bytes>): Option<Path>
    decreases |s|
  {
    if s == [] then Some([])
    else
      match TakeOne(s, nameOf)
      case None => None
      case Some((c, rest)) =>
        match Decode(rest, nameOf)
        case None => None
        case Some(p) => Some([c] + p)
  }

  /** What a component can be read back as: a literal key longer than its two-byte length is cut. */
  function Cut(c: Component): Component {
    if c.Literal? && |c.key| >= U16_END then Literal(c.key[..U16_END - 1]) else c
  }

  function CutAll(p: Path): Path { if p == [] then [] else [Cut(p[0])] + CutAll(p[1..]) }

  predicate Resolves(p: Path, handle: bytes -> u16, nameOf: u16 -> Option<bytes>) {
    forall i :: 0 <= i < |p| && p[i].Field? ==> nameOf(handle(p[i].name)) == Some(p[i].name)
  }

  lemma {:induction false} OneReadsBack(c: Component, rest: bytes, handle: bytes -> u16, nameOf: u16 -> Option<bytes>)
    requires c.Field? ==> nameOf(handle(c.name)) == Some(c.name)
    ensures TakeOne(EncodeOne(c, handle) + rest, nameOf) == Some((Cut(c), rest))
  {
    hide BE, FromBE, Segment.PutId, Segment.TakeId;
    var s := EncodeOne(c, handle) + rest;
    match c {
      case Field(name) =>
        var id := Segment.PutId(handle(name));
        assert s[1..] == id + rest;
        Segment.IdReadsBack(handle(name), rest);
      case Index(i) =>
        FixedRoundTrips();
        assert s[1..5] == BE(i, 4) && s[5..] == rest;
      case Literal(key) =>
        var n := if |key| < U16_END then |key| else U16_END - 1;
        assert s[1..] == Segment.PutId(n) + (key[..n] + rest);
        Segment.IdReadsBack(n, key[..n] + rest);
        assert (key[..n] + rest)[..n] == key[..n] && (key[..n] + rest)[n..] == rest;
        assert |key| < U16_END ==> key[..n] == key;
    }
  }

  lemma {:induction false} DecodeOfEncode(p: Path, handle: bytes -> u16, nameOf: u16 -> Option<bytes>)
    requires Resolves(p, handle, nameOf)
    ensures Decode(Encode(p, handle), nameOf) == Some(CutAll(p))
    decreases |p|
  {
    hide EncodeOne, TakeOne, Cut;
    if p != [] {
      var rest := Encode(p[1..], handle);
      OneReadsBack(p[0], rest, handle, nameOf);
      forall i | 0 <= i < |p[1..]| && p[1..][i].Field? ensures nameOf(handle(p[1..][i].name)) == Some(p[1..][i].name) {
        assert p[1..][i] == p[i + 1];
      }
      DecodeOfEncode(p[1..], handle, nameOf);
    }
  }

  predicate KeysFit(p: Path) { forall i :: 0 <= i < |p| && p[i].Literal? ==> |p[i].key| < U16_END }

  lemma {:induction false} CutAllIs(p: Path)
    ensures CutAll(p) == p <==> KeysFit(p)
    decreases |p|
  {
    if p != [] {
      CutAllIs(p[1..]);
      assert forall i :: 0 <= i < |p[1..]| ==> p[1..][i] == p[i + 1];
      assert p == [p[0]] + p[1..];
      if KeysFit(p) {
        assert KeysFit(p[1..]);
      } else if KeysFit(p[1..]) {
        var i :| 0 <= i < |p| && p[i].Literal? && |p[i].key| >= U16_END;
      }
    }
  }

  /** A path whose names resolve reads back as itself exactly when no literal key is longer than 65535 bytes. */
  lemma {:induction false} PathRoundTrip(p: Path, handle: bytes -> u16, nameOf: u16 -> Option<bytes>)
    requires Resolves(p, handle, nameOf)
    ensures Decode(Encode(p, handle), nameOf) == Some(p) <==> KeysFit(p)
  {
    hide Encode, Decode, KeysFit, CutAll;
    DecodeOfEncode(p, handle, nameOf);
    CutAllIs(p);
  }

  function Zeros(n: nat): bytes { seq(n, _ => 0) }

  /** A path that does not come back: one literal key of 65536 bytes reads back one byte shorter, and it has the same
      bytes as the path with that shorter key. */
  lemma {:induction false} LongKeysAreCut(handle: bytes -> u16, nameOf: u16 -> Option<bytes>)
    ensures var (long, short) := ([Literal(Zeros(65536))], [Literal(Zeros(65535))]);
      && Encode(long, handle) == Encode(short, handle) && long != short
      && Decode(Encode(long, handle), nameOf) == Some(short)
  {
    var long: Path, short: Path := [Literal(Zeros(65536))], [Literal(Zeros(65535))];
    assert Zeros(65536)[..65535] == Zeros(65535) && |Zeros(65536)| != |Zeros(65535)|;
    hide Zeros, Encode, Decode, EncodeOne;
    DecodeOfEncode(long, handle, nameOf);
    OneIsAll(long[0], handle);
    OneIsAll(short[0], handle);
    KeyBytesAreCut(long[0], handle);
  }

  lemma OneIsAll(c: Component, handle: bytes -> u16)
    ensures Encode([c], handle) == EncodeOne(c, handle) && CutAll([c]) == [Cut(c)]
  {
    assert [c][1..] == [] && EncodeOne(c, handle) + [] == EncodeOne(c, handle);
  }

  lemma KeyBytesAreCut(c: Component, handle: bytes -> u16)
    ensures EncodeOne(Cut(c), handle) == EncodeOne(c, handle)
  {
    if c.Literal? && |c.key| >= U16_END { assert Cut(c).key[..U16_END - 1] == c.key[..U16_END - 1]; }
  }

  lemma {:induction false} SameFront(c: Component, x: bytes, d: Component, y: bytes, handle: bytes -> u16,
      nameOf: u16 -> Option<bytes>)
    requires c.Field? ==> nameOf(handle(c.name)) == Some(c.name)
    requires d.Field? ==> nameOf(handle(d.name)) == Some(d.name)
    requires EncodeOne(c, handle) + x <= EncodeOne(d, handle) + y
    ensures Cut(c) == Cut(d) && x <= y
  {
    hide EncodeOne, TakeOne, Cut;
    var (s, t) := (EncodeOne(c, handle) + x, EncodeOne(d, handle) + y);
    var z := t[|s|..];
    assert t == EncodeOne(c, handle) + (x + z);
    OneReadsBack(c, x + z, handle, nameOf);
    OneReadsBack(d, y, handle, nameOf);
    assert y == x + z;
  }

  /** One path's bytes begin another's exactly when its components begin the other's: everything under a path
      is one prefix scan. */
  lemma {:induction false} PrefixIsPrefix(p: Path, q: Path, handle: bytes -> u16, nameOf: u16 -> Option<bytes>)
    requires Resolves(p, handle, nameOf) && Resolves(q, handle, nameOf) && KeysFit(p) && KeysFit(q)
    ensures Encode(p, handle) <= Encode(q, handle) <==> p <= q
    decreases |p|
  {
    hide EncodeOne, TakeOne;
    if p == [] {
    } else if q == [] {
      OneIsNotEmpty(p[0], handle);
    } else {
      var (x, y) := (Encode(p[1..], handle), Encode(q[1..], handle));
      assert forall i :: 0 <= i < |p[1..]| ==> p[1..][i] == p[i + 1];
      assert forall i :: 0 <= i < |q[1..]| ==> q[1..][i] == q[i + 1];
      PrefixIsPrefix(p[1..], q[1..], handle, nameOf);
      ConsPrefix(p, q);
      if Encode(p, handle) <= Encode(q, handle) {
        SameFront(p[0], x, q[0], y, handle, nameOf);
      } else if p <= q {
        assert x <= y;
        JoinPrefix(EncodeOne(p[0], handle), x, y);
      }
    }
  }

  lemma OneIsNotEmpty(c: Component, handle: bytes -> u16)
    ensures EncodeOne(c, handle) != []
  {}

  lemma ConsPrefix(p: Path, q: Path)
    requires p != [] && q != []
    ensures p <= q <==> p[0] == q[0] && p[1..] <= q[1..]
  {
    if p[0] == q[0] && p[1..] <= q[1..] {
      assert p == [p[0]] + p[1..] && q == [q[0]] + q[1..];
    }
  }

  lemma JoinPrefix(a: bytes, x: bytes, y: bytes)
    requires x <= y
    ensures a + x <= a + y
  {
    assert (a + y)[..|a + x|] == a + y[..|x|];
  }

  // --- The loops ---

  method EncodePath(p: Path, handle: bytes -> u16) returns (buf: bytes)
    ensures buf == Encode(p, handle)
  {
    hide EncodeOne;
    buf := [];
    for i := 0 to |p|
      invariant buf + Encode(p[i..], handle) == Encode(p, handle)
    {
      assert p[i..][0] == p[i] && p[i..][1..] == p[i + 1..];
      ghost var before, rest := buf, Encode(p[i + 1..], handle);
      var one := EncodeOne(p[i], handle);
      buf := buf + one;
      assert before + (one + rest) == buf + rest;
    }
  }

  method DecodePath(s: bytes, nameOf: u16 -> Option<bytes>) returns (r: Option<Path>)
    ensures r == Decode(s, nameOf)
  {
    hide TakeOne;
    var components: Path := [];
    var rest := s;
    ghost var all := Decode(s, nameOf);
    assert all.Some? ==> [] + all.value == all.value;
    while rest != []
      invariant all == var more := Decode(rest, nameOf); if more.None? then None else Some(components + more.value)
      decreases |rest|
    {
      var one := TakeOne(rest, nameOf);
      if one.None? {
        return None;
      }
      ghost var before, more := components, Decode(one.value.1, nameOf);
      components := components + [one.value.0];
      assert more.Some? ==> before + ([one.value.0] + more.value) == components + more.value;
      rest := one.value.1;
    }
    assert components + [] == components;
    return Some(components);
  }
}
