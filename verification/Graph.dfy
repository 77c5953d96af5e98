/** The dynamic graph: edges and the four traversal faces that mirror them. */
module Graph {
  import opened Bytes
  import opened Order
  import opened Store
  import opened Wire
  import Schema

  type pair = s: bytes | |s| == 2 witness [0, 0]

  /** A node of any collection: its table header and its key, of any length. */
  datatype Ref = Ref(ns: pair, pkey: blob) {
    /** `[ns][len][pkey]` */
    function Encode(): (s: bytes)
      ensures |s| >= 3
    {
      ns + PutLen(|pkey|) + pkey
    }
  }

  /** An edge as it is stored: its predicate by id, its attributes as frames. */
  datatype Edge = Edge(src: Ref, dst: Ref, kind: u16, attrs: bytes)

  type Edges = map<u64, Edge>

  const OUT: slot := 6
  const IN: slot := 7
  const TYPED_OUT: slot := 8
  const TYPED_IN: slot := 9

  function TakeRef(s: bytes): Option<(Ref, bytes)> {
    if |s| < 3 then None
    else
      match TakeLen(s[2..])
      case None => None
      case Some((len, used)) =>
        var end := 2 + used + len;
        if end > |s| then None else Some((Ref(s[..2], s[2 + used..end]), s[end..]))
  }

  /** References delimit themselves: one reads back whatever follows it. */
  lemma {:induction false} RefReadsBack(r: Ref, rest: bytes)
    ensures TakeRef(r.Encode() + rest) == Some((r, rest))
  {
    hide PutLen, TakeLen;
    var s := r.Encode() + rest;
    var len := PutLen(|r.pkey|);
    TakePut(|r.pkey|, r.pkey + rest);
    assert s[2..] == len + (r.pkey + rest);
    assert s[..2] == r.ns && s[2 + |len|..2 + |len| + |r.pkey|] == r.pkey && s[2 + |len| + |r.pkey|..] == rest;
  }

  lemma {:induction false} SameRef(a: Ref, x: bytes, b: Ref, y: bytes)
    requires a.Encode() + x == b.Encode() + y
    ensures a == b && x == y
  {
    hide Ref.Encode, TakeRef;
    RefReadsBack(a, x);
    RefReadsBack(b, y);
  }

  // --- Keys and bodies ---

  function IdBytes(id: u64): bytes { BE(id, 8) }

  /** `[src][dst][predicate]` and an empty payload's header. */
  function BodyOf(e: Edge): bytes { e.src.Encode() + e.dst.Encode() + BE(e.kind, 2) + [1, 0, 0] }

  /** What follows the slot in an edge's key on a face. */
  function FaceTail(face: slot, e: Edge, id: u64): bytes {
    if face == OUT then e.src.Encode() + e.dst.Encode() + IdBytes(id)
    else if face == IN then e.dst.Encode() + e.src.Encode() + IdBytes(id)
    else if face == TYPED_OUT then BE(e.kind, 2) + (e.src.Encode() + e.dst.Encode() + IdBytes(id))
    else BE(e.kind, 2) + (e.dst.Encode() + e.src.Encode() + IdBytes(id))
  }

  predicate IsFace(s: slot) { s == OUT || s == IN || s == TYPED_OUT || s == TYPED_IN }

  /** The head of a body: both references and the predicate. */
  function ParseHead(body: bytes): Option<(Ref, Ref, u16)> {
    match TakeRef(body)
    case None => None
    case Some((src, rest)) =>
      match TakeRef(rest)
      case None => None
      case Some((dst, rest')) => if |rest'| < 2 then None else Some((src, dst, U16At(rest', 0)))
  }

  lemma {:induction false} BodyReadsBack(e: Edge)
    ensures ParseHead(BodyOf(e)) == Some((e.src, e.dst, e.kind))
  {
    hide Ref.Encode, TakeRef, BE, FromBE;
    FixedRoundTrips();
    var (p, tail) := (BE(e.kind, 2), [1, 0, 0]);
    assert BodyOf(e) == e.src.Encode() + (e.dst.Encode() + (p + tail));
    RefReadsBack(e.src, e.dst.Encode() + (p + tail));
    RefReadsBack(e.dst, p + tail);
    assert (p + tail)[0..2] == p;
  }

  // --- Linking and unlinking ---

  predicate MembersOf(members: seq<u16>, e: Edge) {
    members == [] || (U16At(e.src.ns, 0) in members && U16At(e.dst.ns, 0) in members)
  }

  /** Whoever names no members admits every node; otherwise both ends must be of a collection named. */
  lemma {:induction false} MembersAre(members: seq<u16>, e: Edge)
    ensures MembersOf(members, e) <==>
      members == [] || ((exists i :: 0 <= i < |members| && e.src.ns == BE(members[i], 2))
                        && exists j :: 0 <= j < |members| && e.dst.ns == BE(members[j], 2))
  {
    OneOfThem(members, e.src.ns);
    OneOfThem(members, e.dst.ns);
    hide BE, FromBE;
  }

  lemma {:induction false} OneOfThem(members: seq<u16>, ns: pair)
    ensures U16At(ns, 0) in members <==> exists i :: 0 <= i < |members| && ns == BE(members[i], 2)
  {
    hide BE, FromBE;
    FixedRoundTrips();
    assert ns[0..2] == ns;
    BEOfFromBE(ns);
    if i :| 0 <= i < |members| && ns == BE(members[i], 2) { assert U16At(ns, 0) == members[i]; }
  }

  /** The body ends in the payload of a row without fields, of version one. */
  lemma {:induction false} BodyEndsInPayload(e: Edge)
    ensures |BodyOf(e)| >= 3
    ensures Schema.EncodePayload(Schema.Schema(0, [], 1, 0, [], []), map[]) == Some(BodyOf(e)[|BodyOf(e)| - 3..])
  {
    hide Ref.Encode, BE;
    EmptyPayload();
    BodyTail(e);
  }

  lemma BodyTail(e: Edge)
    ensures |BodyOf(e)| >= 3 && BodyOf(e)[|BodyOf(e)| - 3..] == [1, 0, 0]
  {
    hide Ref.Encode, BE;
  }

  lemma EmptyPayload()
    ensures Schema.EncodePayload(Schema.Schema(0, [], 1, 0, [], []), map[]) == Some([1, 0, 0])
  {
    assert BE(0, 2) == BE(0, 1) + [0] && BE(0, 1) == BE(0, 0) + [0];
    assert BE(0, 2) == [0, 0];
    assert [1] + [0, 0] + [] + [] == [1, 0, 0];
  }

  function FacePuts(ns: bytes, id: u64, e: Edge): seq<Op> {
    [(Key(ns, OUT, FaceTail(OUT, e, id)), Some([])), (Key(ns, IN, FaceTail(IN, e, id)), Some([])),
     (Key(ns, TYPED_OUT, FaceTail(TYPED_OUT, e, id)), Some([])), (Key(ns, TYPED_IN, FaceTail(TYPED_IN, e, id)), Some([]))]
  }

  function FaceDels(ns: bytes, id: u64, e: Edge): seq<Op> {
    [(Key(ns, OUT, FaceTail(OUT, e, id)), None), (Key(ns, IN, FaceTail(IN, e, id)), None),
     (Key(ns, TYPED_OUT, FaceTail(TYPED_OUT, e, id)), None), (Key(ns, TYPED_IN, FaceTail(TYPED_IN, e, id)), None)]
  }

  function LinkOps(ns: bytes, id: u64, e: Edge): seq<Op> {
    [(Key(ns, PRIMARY, IdBytes(id)), Some(BodyOf(e)))]
    + (if e.attrs == [] then [] else [(Key(ns, DYNAMIC, IdBytes(id)), Some(e.attrs))])
    + FacePuts(ns, id, e)
  }

  function UnlinkOps(ns: bytes, id: u64, e: Edge): seq<Op> {
    [(Key(ns, PRIMARY, IdBytes(id)), None), (Key(ns, DYNAMIC, IdBytes(id)), None)] + FaceDels(ns, id, e)
  }

  /** One edge in one batch; refused when the id is live or an endpoint is no member. */
  function Link(ns: bytes, members: seq<u16>, store: Store, id: u64, e: Edge): Option<Store> {
    if Get(store, Key(ns, PRIMARY, IdBytes(id))).Some? || !MembersOf(members, e) then None
    else Some(Replay(store, LinkOps(ns, id, e)))
  }

  /** The faces to remove are derived from the stored body alone. */
  function Unlink(ns: bytes, store: Store, id: u64): Option<Store> {
    match Get(store, Key(ns, PRIMARY, IdBytes(id)))
    case None => None
    case Some(body) =>
      match ParseHead(body)
      case None => None
      case Some((src, dst, kind)) => Some(Replay(store, UnlinkOps(ns, id, Edge(src, dst, kind, []))))
  }

  // --- The faces mirror the edges ---

  function IdOf(tail: bytes): Option<u64> { if |tail| < 8 then None else Some(U64At(tail, |tail| - 8)) }

  /** The edge a face tail belongs to, if there is one. */
  predicate OnFace(edges: Edges, face: slot, tail: bytes) {
    && IdOf(tail).Some? && IdOf(tail).value in edges
    && tail == FaceTail(face, edges[IdOf(tail).value], IdOf(tail).value)
  }

  function Attrs(edges: Edges, x: bytes): Option<bytes> {
    if |x| == 8 && U64At(x, 0) in edges && edges[U64At(x, 0)].attrs != [] then Some(edges[U64At(x, 0)].attrs) else None
  }

  function Body(edges: Edges, x: bytes): Option<bytes> {
    if |x| == 8 && U64At(x, 0) in edges then Some(BodyOf(edges[U64At(x, 0)])) else None
  }

  /** Bodies, attributes and all four faces are exactly the image of the live edges. */
  ghost predicate Mirrors(ns: bytes, store: Store, edges: Edges) {
    && (forall x :: Get(store, Key(ns, PRIMARY, x)) == Body(edges, x))
    && (forall x :: Get(store, Key(ns, DYNAMIC, x)) == Attrs(edges, x))
    && (forall face: slot, x :: IsFace(face) ==> Get(store, Key(ns, face, x)) == if OnFace(edges, face, x) then Some([]) else None)
  }

  lemma {:induction false} IdOfTail(face: slot, e: Edge, id: u64)
    ensures IdOf(FaceTail(face, e, id)) == Some(id)
  {
    hide Ref.Encode, BE, FromBE;
    FixedRoundTrips();
    var tail := FaceTail(face, e, id);
    assert tail[|tail| - 8..|tail| - 8 + 8] == IdBytes(id);
  }

  lemma {:induction false} IdBytesRead(id: u64, x: bytes)
    ensures |IdBytes(id)| == 8 && U64At(IdBytes(id), 0) == id
    ensures |x| == 8 && U64At(x, 0) == id ==> x == IdBytes(id)
  {
    hide BE, FromBE;
    FixedRoundTrips();
    assert IdBytes(id)[0..8] == IdBytes(id);
    if |x| == 8 {
      assert x[0..8] == x;
      BEOfFromBE(x);
    }
  }

  /** Another edge's key on the same face is another key. */
  lemma {:induction false} TailIsOwn(face: slot, e: Edge, id: u64, x: bytes)
    ensures x == FaceTail(face, e, id) ==> IdOf(x) == Some(id)
  {
    IdOfTail(face, e, id);
  }

  lemma KeysEqual(ns: bytes, a: slot, x: bytes, b: slot, y: bytes)
    ensures Key(ns, a, x) == Key(ns, b, y) <==> a == b && x == y
  {
    if Key(ns, a, x) == Key(ns, b, y) { KeyIsInjective(ns, a, x, b, y); }
  }

  lemma LastOfFour(a: Op, b: Op, c: Op, d: Op, key: bytes)
    ensures Last([a, b, c, d], key)
         == if d.0 == key then Some(d.1) else if c.0 == key then Some(c.1) else if b.0 == key then Some(b.1)
            else if a.0 == key then Some(a.1) else None
  {
    assert [a, b, c, d][..3] == [a, b, c] && [a, b, c][..2] == [a, b] && [a, b][..1] == [a];
    assert Last([a, b, c], key) == if c.0 == key then Some(c.1) else Last([a, b], key);
    assert Last([a, b], key) == if b.0 == key then Some(b.1) else Last([a], key);
  }

  lemma {:induction false} LastOfFaces(ns: bytes, id: u64, e: Edge, put: bool, s: slot, x: bytes)
    ensures Last(if put then FacePuts(ns, id, e) else FaceDels(ns, id, e), Key(ns, s, x))
         == if IsFace(s) && x == FaceTail(s, e, id) then Some(if put then Some([]) else None) else None
  {
    hide Key, FaceTail, Last;
    var v := if put then Some([]) else None;
    KeysEqual(ns, s, x, OUT, FaceTail(OUT, e, id));
    KeysEqual(ns, s, x, IN, FaceTail(IN, e, id));
    KeysEqual(ns, s, x, TYPED_OUT, FaceTail(TYPED_OUT, e, id));
    KeysEqual(ns, s, x, TYPED_IN, FaceTail(TYPED_IN, e, id));
    LastOfFour((Key(ns, OUT, FaceTail(OUT, e, id)), v), (Key(ns, IN, FaceTail(IN, e, id)), v),
               (Key(ns, TYPED_OUT, FaceTail(TYPED_OUT, e, id)), v), (Key(ns, TYPED_IN, FaceTail(TYPED_IN, e, id)), v), Key(ns, s, x));
  }

  /** What a link leaves under any key of the table. */
  lemma {:induction false} AfterLink(ns: bytes, store: Store, id: u64, e: Edge, s: slot, x: bytes)
    ensures Get(Replay(store, LinkOps(ns, id, e)), Key(ns, s, x))
         == if IsFace(s) && x == FaceTail(s, e, id) then Some([])
            else if s == DYNAMIC && x == IdBytes(id) && e.attrs != [] then Some(e.attrs)
            else if s == PRIMARY && x == IdBytes(id) then Some(BodyOf(e))
            else Get(store, Key(ns, s, x))
  {
    hide Key, FaceTail, Last, Replay, FacePuts, BodyOf;
    var key := Key(ns, s, x);
    var body: Op := (Key(ns, PRIMARY, IdBytes(id)), Some(BodyOf(e)));
    var attrs: seq<Op> := if e.attrs == [] then [] else [(Key(ns, DYNAMIC, IdBytes(id)), Some(e.attrs))];
    LastOfFaces(ns, id, e, true, s, x);
    KeysEqual(ns, s, x, PRIMARY, IdBytes(id));
    KeysEqual(ns, s, x, DYNAMIC, IdBytes(id));
    LastOfJoin([body] + attrs, FacePuts(ns, id, e), key);
    LastOfJoin([body], attrs, key);
    LastOfOne(body, key);
    if e.attrs != [] { LastOfOne(attrs[0], key); } else { NothingLast(key); }
    ReplayIsLast(store, LinkOps(ns, id, e), key);
  }

  lemma NothingLast(key: bytes)
    ensures Last([], key) == None
  {}

  lemma {:induction false} AfterUnlink(ns: bytes, store: Store, id: u64, e: Edge, s: slot, x: bytes)
    ensures Get(Replay(store, UnlinkOps(ns, id, e)), Key(ns, s, x))
         == if (IsFace(s) && x == FaceTail(s, e, id)) || ((s == DYNAMIC || s == PRIMARY) && x == IdBytes(id)) then None
            else Get(store, Key(ns, s, x))
  {
    hide Key, FaceTail, Last, Replay, FaceDels;
    var key := Key(ns, s, x);
    var body: Op := (Key(ns, PRIMARY, IdBytes(id)), None);
    var attrs: Op := (Key(ns, DYNAMIC, IdBytes(id)), None);
    LastOfFaces(ns, id, e, false, s, x);
    KeysEqual(ns, s, x, PRIMARY, IdBytes(id));
    KeysEqual(ns, s, x, DYNAMIC, IdBytes(id));
    assert [body, attrs] == [body] + [attrs];
    LastOfJoin([body, attrs], FaceDels(ns, id, e), key);
    LastOfJoin([body], [attrs], key);
    LastOfOne(body, key);
    LastOfOne(attrs, key);
    ReplayIsLast(store, UnlinkOps(ns, id, e), key);
  }

  // --- Steps keep the mirror ---

  lemma {:induction false} LinkMirrors(ns: bytes, members: seq<u16>, store: Store, edges: Edges, id: u64, e: Edge)
    requires Mirrors(ns, store, edges)
    ensures Link(ns, members, store, id, e).Some? <==> id !in edges && MembersOf(members, e)
    ensures Link(ns, members, store, id, e).Some? ==> Mirrors(ns, Link(ns, members, store, id, e).value, edges[id := e])
  {
    hide Key, FaceTail, Replay, LinkOps, BodyOf, IdBytes, MembersOf;
    var edges' := edges[id := e];
    var after := Replay(store, LinkOps(ns, id, e));
    IdBytesRead(id, []);
    assert Get(store, Key(ns, PRIMARY, IdBytes(id))) == Body(edges, IdBytes(id));
    if id !in edges {
      forall x ensures Get(after, Key(ns, PRIMARY, x)) == Body(edges', x) {
        AfterLink(ns, store, id, e, PRIMARY, x);
        IdBytesRead(id, x);
        assert Get(store, Key(ns, PRIMARY, x)) == Body(edges, x);
      }
      forall x ensures Get(after, Key(ns, DYNAMIC, x)) == Attrs(edges', x) {
        AfterLink(ns, store, id, e, DYNAMIC, x);
        IdBytesRead(id, x);
        assert Get(store, Key(ns, DYNAMIC, x)) == Attrs(edges, x);
      }
      forall face: slot, x | IsFace(face) ensures Get(after, Key(ns, face, x)) == if OnFace(edges', face, x) then Some([]) else None {
        AfterLink(ns, store, id, e, face, x);
        TailIsOwn(face, e, id, x);
        assert Get(store, Key(ns, face, x)) == if OnFace(edges, face, x) then Some([]) else None;
      }
    }
  }

  /** A link succeeds exactly when the id is not live and every end is of a collection named, if any are. */
  lemma {:induction false} LinkSucceeds(ns: bytes, members: seq<u16>, store: Store, edges: Edges, id: u64, e: Edge)
    requires Mirrors(ns, store, edges)
    ensures Link(ns, members, store, id, e).Some? <==>
      id !in edges && (members == [] || ((exists i :: 0 <= i < |members| && e.src.ns == BE(members[i], 2))
                                         && exists j :: 0 <= j < |members| && e.dst.ns == BE(members[j], 2)))
  {
    hide *;
    LinkMirrors(ns, members, store, edges, id, e);
    MembersAre(members, e);
  }

  lemma {:induction false} UnlinkMirrors(ns: bytes, store: Store, edges: Edges, id: u64)
    requires Mirrors(ns, store, edges)
    ensures Unlink(ns, store, id).Some? <==> id in edges
    ensures id in edges ==> Mirrors(ns, Unlink(ns, store, id).value, edges - {id})
  {
    hide Key, FaceTail, Replay, UnlinkOps, BodyOf, IdBytes, ParseHead;
    IdBytesRead(id, []);
    assert Get(store, Key(ns, PRIMARY, IdBytes(id))) == Body(edges, IdBytes(id));
    if id in edges {
      BodyReadsBack(edges[id]);
      var e := Edge(edges[id].src, edges[id].dst, edges[id].kind, []);
      var after := Replay(store, UnlinkOps(ns, id, e));
      var edges' := edges - {id};
      forall x ensures Get(after, Key(ns, PRIMARY, x)) == Body(edges', x) {
        AfterUnlink(ns, store, id, e, PRIMARY, x);
        IdBytesRead(id, x);
        assert Get(store, Key(ns, PRIMARY, x)) == Body(edges, x);
      }
      forall x ensures Get(after, Key(ns, DYNAMIC, x)) == Attrs(edges', x) {
        AfterUnlink(ns, store, id, e, DYNAMIC, x);
        IdBytesRead(id, x);
        assert Get(store, Key(ns, DYNAMIC, x)) == Attrs(edges, x);
      }
      forall face: slot, x | IsFace(face) ensures Get(after, Key(ns, face, x)) == if OnFace(edges', face, x) then Some([]) else None {
        AfterUnlink(ns, store, id, e, face, x);
        TailIgnoresAttrs(face, edges[id], id);
        assert Get(store, Key(ns, face, x)) == if OnFace(edges, face, x) then Some([]) else None;
        TailIsOwn(face, e, id, x);
      }
    }
  }

  lemma TailIgnoresAttrs(face: slot, e: Edge, id: u64)
    ensures FaceTail(face, Edge(e.src, e.dst, e.kind, []), id) == FaceTail(face, e, id)
  {}

  /** Vocabulary growth writes other slots. */
  lemma {:induction false} GrowthMirrors(ns: bytes, store: Store, edges: Edges, s: slot, x: bytes, value: bytes)
    requires Mirrors(ns, store, edges) && s != PRIMARY && s != DYNAMIC && !IsFace(s)
    ensures Mirrors(ns, store[Key(ns, s, x) := value], edges)
  {
    hide Key, OnFace, Body, Attrs;
    var after := store[Key(ns, s, x) := value];
    forall y ensures Get(after, Key(ns, PRIMARY, y)) == Body(edges, y) { KeysEqual(ns, s, x, PRIMARY, y); }
    forall y ensures Get(after, Key(ns, DYNAMIC, y)) == Attrs(edges, y) { KeysEqual(ns, s, x, DYNAMIC, y); }
    forall face: slot, y | IsFace(face) ensures Get(after, Key(ns, face, y)) == if OnFace(edges, face, y) then Some([]) else None {
      KeysEqual(ns, s, x, face, y);
    }
  }

  // --- Runs ---

  datatype Verb = LinkV(id: u64, edge: Edge) | UnlinkV(id: u64) | GrowV(at: slot, rest: bytes, value: bytes)

  /** Names go under the vocabulary faces only. */
  predicate Proper(v: Verb) { v.GrowV? ==> 2 <= v.at <= 5 }

  function After(ns: bytes, members: seq<u16>, store: Store, v: Verb): Store {
    match v
    case LinkV(id, e) => (match Link(ns, members, store, id, e) case None => store case Some(s) => s)
    case UnlinkV(id) => (match Unlink(ns, store, id) case None => store case Some(s) => s)
    case GrowV(at, rest, value) => store[Key(ns, at, rest) := value]
  }

  function EdgesAfter(members: seq<u16>, edges: Edges, v: Verb): Edges {
    match v
    case LinkV(id, e) => if id in edges || !MembersOf(members, e) then edges else edges[id := e]
    case UnlinkV(id) => edges - {id}
    case GrowV(_, _, _) => edges
  }

  function Run(ns: bytes, members: seq<u16>, verbs: seq<Verb>): (Store, Edges) {
    if verbs == [] then (map[], map[])
    else
      var (store, edges) := Run(ns, members, verbs[..|verbs| - 1]);
      (After(ns, members, store, verbs[|verbs| - 1]), EdgesAfter(members, edges, verbs[|verbs| - 1]))
  }

  /** Over every run of links and unlinks the four faces are exactly the image of the live edges. */
  lemma {:induction false} RunsMirror(ns: bytes, members: seq<u16>, verbs: seq<Verb>)
    requires forall i :: 0 <= i < |verbs| ==> Proper(verbs[i])
    ensures var (store, edges) := Run(ns, members, verbs); Mirrors(ns, store, edges)
    decreases |verbs|
  {
    if verbs == [] {
      NothingMirrors(ns);
    } else {
      hide Mirrors, Link, Unlink, MembersOf, Key;
      var (init, v) := (verbs[..|verbs| - 1], verbs[|verbs| - 1]);
      assert forall i :: 0 <= i < |init| ==> init[i] == verbs[i];
      RunsMirror(ns, members, init);
      var (store, edges) := Run(ns, members, init);
      assert Proper(v);
      match v {
        case LinkV(id, e) => LinkMirrors(ns, members, store, edges, id, e);
        case UnlinkV(id) =>
          UnlinkMirrors(ns, store, edges, id);
          assert id !in edges ==> edges - {id} == edges;
        case GrowV(at, rest, value) => GrowthMirrors(ns, store, edges, at, rest, value);
      }
    }
  }

  lemma NothingMirrors(ns: bytes)
    ensures Mirrors(ns, map[], map[])
  {
    hide Key;
  }

  /** What a link and then its unlink leave under any key. */
  lemma {:induction false} AfterBoth(ns: bytes, store: Store, id: u64, e: Edge, s: slot, x: bytes)
    ensures Get(Replay(Replay(store, LinkOps(ns, id, e)), UnlinkOps(ns, id, Edge(e.src, e.dst, e.kind, []))), Key(ns, s, x))
         == if (IsFace(s) && x == FaceTail(s, e, id)) || ((s == DYNAMIC || s == PRIMARY) && x == IdBytes(id)) then None
            else Get(store, Key(ns, s, x))
  {
    hide *;
    AfterLink(ns, store, id, e, s, x);
    AfterUnlink(ns, Replay(store, LinkOps(ns, id, e)), id, Edge(e.src, e.dst, e.kind, []), s, x);
    TailIgnoresAttrs(s, e, id);
  }

  /** Under an id that is not live the table holds nothing. */
  lemma {:induction false} NothingOfTheDead(ns: bytes, store: Store, edges: Edges, id: u64, e: Edge, s: slot)
    requires Mirrors(ns, store, edges) && id !in edges
    ensures Get(store, Key(ns, PRIMARY, IdBytes(id))) == None && Get(store, Key(ns, DYNAMIC, IdBytes(id))) == None
    ensures IsFace(s) ==> Get(store, Key(ns, s, FaceTail(s, e, id))) == None
  {
    hide Key, FaceTail, IdBytes;
    IdBytesRead(id, []);
    IdOfTail(s, e, id);
    assert Get(store, Key(ns, PRIMARY, IdBytes(id))) == Body(edges, IdBytes(id));
    assert Get(store, Key(ns, DYNAMIC, IdBytes(id))) == Attrs(edges, IdBytes(id));
    if IsFace(s) { assert Get(store, Key(ns, s, FaceTail(s, e, id))) == if OnFace(edges, s, FaceTail(s, e, id)) then Some([]) else None; }
  }

  /** Unlinking what was just linked restores every key of the table. */
  lemma {:induction false} UnlinkUndoesLink(ns: bytes, members: seq<u16>, store: Store, edges: Edges, id: u64, e: Edge,
      s: slot, x: bytes)
    requires Mirrors(ns, store, edges) && Link(ns, members, store, id, e).Some?
    ensures var linked := Link(ns, members, store, id, e).value;
      && Unlink(ns, linked, id).Some?
      && Get(Unlink(ns, linked, id).value, Key(ns, s, x)) == Get(store, Key(ns, s, x))
  {
    hide Key, FaceTail, Replay, LinkOps, UnlinkOps, BodyOf, IdBytes, ParseHead, MembersOf, Mirrors, Get;
    LinkMirrors(ns, members, store, edges, id, e);
    NothingOfTheDead(ns, store, edges, id, e, s);
    AfterLink(ns, store, id, e, PRIMARY, IdBytes(id));
    BodyReadsBack(e);
    AfterBoth(ns, store, id, e, s, x);
  }

  // --- Traversal ---

  /** The ids at the ends of the suffixes: of all longer than an id, or of those that are one. */
  function Ids(suffixes: seq<bytes>, exact: bool): seq<u64> {
    if suffixes == [] then []
    else
      var s := suffixes[0];
      (if (exact && |s| == 8) || (!exact && |s| > 8) then [U64At(s, |s| - 8)] else []) + Ids(suffixes[1..], exact)
  }

  lemma {:induction false} IdsAre(suffixes: seq<bytes>, exact: bool, id: u64)
    ensures id in Ids(suffixes, exact)
       <==> exists s :: s in suffixes && (if exact then |s| == 8 else |s| > 8) && IdOf(s) == Some(id)
    decreases |suffixes|
  {
    if suffixes != [] {
      IdsAre(suffixes[1..], exact, id);
      var s := suffixes[0];
      if id in Ids(suffixes, exact) && id in Ids(suffixes[1..], exact) {
        var s' :| s' in suffixes[1..] && (if exact then |s'| == 8 else |s'| > 8) && IdOf(s') == Some(id);
        assert s' in suffixes;
      }
      if exists s' :: s' in suffixes && (if exact then |s'| == 8 else |s'| > 8) && IdOf(s') == Some(id) {
        var s' :| s' in suffixes && (if exact then |s'| == 8 else |s'| > 8) && IdOf(s') == Some(id);
        var i :| 0 <= i < |suffixes| && suffixes[i] == s';
        if i > 0 { assert suffixes[1..][i - 1] == s'; }
      }
    }
  }

  /** What a scan is asked for: the edges of a node on a face, of a node under a predicate, between two nodes, of a
      predicate. */
  datatype Probe =
    | EdgesOf(face: slot, node: Ref)
    | Typed(face: slot, kind: u16, node: Ref)
    | Between(face: slot, node: Ref, other: Ref)
    | TypedBetween(kind: u16, src: Ref, dst: Ref)
    | OfPredicate(kind: u16)

  function FaceOf(p: Probe): slot {
    match p
    case EdgesOf(face, _) => face case Typed(face, _, _) => face case Between(face, _, _) => face
    case TypedBetween(_, _, _) => TYPED_OUT case OfPredicate(_) => TYPED_OUT
  }

  function PrefixOf(p: Probe): bytes {
    match p
    case EdgesOf(_, node) => node.Encode()
    case Typed(_, kind, node) => BE(kind, 2) + node.Encode()
    case Between(_, node, other) => node.Encode() + other.Encode()
    case TypedBetween(kind, src, dst) => BE(kind, 2) + (src.Encode() + dst.Encode())
    case OfPredicate(kind) => BE(kind, 2)
  }

  predicate IsExact(p: Probe) { p.Between? || p.TypedBetween? }

  predicate Sensible(p: Probe) {
    match p
    case EdgesOf(face, _) => face == OUT || face == IN
    case Typed(face, _, _) => face == TYPED_OUT || face == TYPED_IN
    case Between(face, _, _) => face == OUT || face == IN
    case _ => true
  }

  /** The edges a probe asks for. */
  predicate Wanted(p: Probe, e: Edge) {
    match p
    case EdgesOf(face, node) => node == if face == OUT then e.src else e.dst
    case Typed(face, kind, node) => kind == e.kind && node == if face == TYPED_OUT then e.src else e.dst
    case Between(face, node, other) => if face == OUT then e.src == node && e.dst == other else e.dst == node && e.src == other
    case TypedBetween(kind, src, dst) => e.kind == kind && e.src == src && e.dst == dst
    case OfPredicate(kind) => e.kind == kind
  }

  function Scan(ns: bytes, store: Store, p: Probe): seq<u64> {
    Ids(ScanSuffix(store, Key(ns, FaceOf(p), PrefixOf(p))), IsExact(p))
  }

  lemma {:induction false} SameId(p: u16, x: bytes, q: u16, y: bytes)
    requires BE(p, 2) + x == BE(q, 2) + y
    ensures p == q && x == y
  {
    hide BE, FromBE;
    FixedRoundTrips();
    assert (BE(p, 2) + x)[..2] == BE(p, 2) && (BE(q, 2) + y)[..2] == BE(q, 2);
    assert (BE(p, 2) + x)[2..] == x && (BE(q, 2) + y)[2..] == y;
  }

  /** Of a pair of references and an id: the first is the node exactly when the bytes begin with the node. */
  lemma {:induction false} PairStarts(node: Ref, rest: bytes, a: Ref, b: Ref, id: u64)
    ensures node.Encode() + rest == a.Encode() + b.Encode() + IdBytes(id) <==> node == a && rest == b.Encode() + IdBytes(id)
  {
    hide Ref.Encode, IdBytes;
    assert a.Encode() + b.Encode() + IdBytes(id) == a.Encode() + (b.Encode() + IdBytes(id));
    if node.Encode() + rest == a.Encode() + b.Encode() + IdBytes(id) { SameRef(node, rest, a, b.Encode() + IdBytes(id)); }
  }

  lemma {:induction false} PairIs(node: Ref, other: Ref, rest: bytes, a: Ref, b: Ref, id: u64)
    ensures node.Encode() + other.Encode() + rest == a.Encode() + b.Encode() + IdBytes(id)
       <==> node == a && other == b && rest == IdBytes(id)
  {
    hide Ref.Encode, IdBytes;
    assert node.Encode() + other.Encode() + rest == node.Encode() + (other.Encode() + rest);
    PairStarts(node, other.Encode() + rest, a, b, id);
    if other.Encode() + rest == b.Encode() + IdBytes(id) { SameRef(other, rest, b, IdBytes(id)); }
  }

  /** A face key of the edge begins with the probe exactly when the edge is wanted; what follows has the length the
      scan looks for. */
  lemma {:induction false} ProbeMeetsTail(p: Probe, e: Edge, id: u64)
    requires Sensible(p)
    ensures Wanted(p, e) <==> exists s :: PrefixOf(p) + s == FaceTail(FaceOf(p), e, id) && (if IsExact(p) then |s| == 8 else |s| > 8)
  {
    hide Ref.Encode, IdBytes;
    IdBytesRead(id, []);
    var (a, b) := if FaceOf(p) == OUT || FaceOf(p) == TYPED_OUT then (e.src, e.dst) else (e.dst, e.src);
    match p {
      case EdgesOf(face, node) => EdgesMeet(node, a, b, id);
      case Typed(face, kind, node) => TypedMeet(kind, node, e.kind, a, b, id);
      case Between(face, node, other) => BetweenMeet(node, other, a, b, id);
      case TypedBetween(kind, src, dst) => TypedBetweenMeet(kind, src, dst, e.kind, a, b, id);
      case OfPredicate(kind) => PredicateMeets(kind, e.kind, a, b, id);
    }
  }

  lemma {:induction false} EdgesMeet(node: Ref, a: Ref, b: Ref, id: u64)
    ensures node == a <==> exists s :: node.Encode() + s == a.Encode() + b.Encode() + IdBytes(id) && |s| > 8
  {
    IdBytesRead(id, []);
    hide Ref.Encode, IdBytes;
    PairStarts(node, b.Encode() + IdBytes(id), a, b, id);
    forall s | node.Encode() + s == a.Encode() + b.Encode() + IdBytes(id) ensures node == a { PairStarts(node, s, a, b, id); }
    assert |b.Encode() + IdBytes(id)| > 8;
  }

  lemma {:induction false} TypedMeet(p: u16, node: Ref, q: u16, a: Ref, b: Ref, id: u64)
    ensures (p == q && node == a)
       <==> exists s :: BE(p, 2) + node.Encode() + s == BE(q, 2) + (a.Encode() + b.Encode() + IdBytes(id)) && |s| > 8
  {
    IdBytesRead(id, []);
    hide Ref.Encode, IdBytes, BE;
    var refs := a.Encode() + b.Encode() + IdBytes(id);
    var tail := b.Encode() + IdBytes(id);
    if p == q && node == a {
      PairStarts(node, tail, a, b, id);
      assert BE(p, 2) + node.Encode() + tail == BE(p, 2) + (node.Encode() + tail);
    }
    forall s | BE(p, 2) + node.Encode() + s == BE(q, 2) + refs ensures p == q && node == a {
      assert BE(p, 2) + node.Encode() + s == BE(p, 2) + (node.Encode() + s);
      SameId(p, node.Encode() + s, q, refs);
      PairStarts(node, s, a, b, id);
    }
  }

  lemma {:induction false} BetweenMeet(node: Ref, other: Ref, a: Ref, b: Ref, id: u64)
    ensures (node == a && other == b)
       <==> exists s :: node.Encode() + other.Encode() + s == a.Encode() + b.Encode() + IdBytes(id) && |s| == 8
  {
    IdBytesRead(id, []);
    hide Ref.Encode, IdBytes;
    PairIs(node, other, IdBytes(id), a, b, id);
    forall s | node.Encode() + other.Encode() + s == a.Encode() + b.Encode() + IdBytes(id) ensures node == a && other == b {
      PairIs(node, other, s, a, b, id);
    }
  }

  lemma {:induction false} TypedBetweenMeet(p: u16, node: Ref, other: Ref, q: u16, a: Ref, b: Ref, id: u64)
    ensures (p == q && node == a && other == b)
       <==> exists s :: BE(p, 2) + (node.Encode() + other.Encode()) + s == BE(q, 2) + (a.Encode() + b.Encode() + IdBytes(id)) && |s| == 8
  {
    IdBytesRead(id, []);
    hide Ref.Encode, IdBytes, BE;
    var refs := a.Encode() + b.Encode() + IdBytes(id);
    if p == q && node == a && other == b {
      assert BE(p, 2) + (node.Encode() + other.Encode()) + IdBytes(id) == BE(p, 2) + (node.Encode() + other.Encode() + IdBytes(id));
    }
    forall s | BE(p, 2) + (node.Encode() + other.Encode()) + s == BE(q, 2) + refs ensures p == q && node == a && other == b {
      assert BE(p, 2) + (node.Encode() + other.Encode()) + s == BE(p, 2) + (node.Encode() + other.Encode() + s);
      SameId(p, node.Encode() + other.Encode() + s, q, refs);
      PairIs(node, other, s, a, b, id);
    }
  }

  lemma {:induction false} PredicateMeets(p: u16, q: u16, a: Ref, b: Ref, id: u64)
    ensures p == q <==> exists s :: BE(p, 2) + s == BE(q, 2) + (a.Encode() + b.Encode() + IdBytes(id)) && |s| > 8
  {
    IdBytesRead(id, []);
    hide Ref.Encode, IdBytes, BE;
    var refs := a.Encode() + b.Encode() + IdBytes(id);
    forall s | BE(p, 2) + s == BE(q, 2) + refs ensures p == q { SameId(p, s, q, refs); }
    assert |refs| > 8 && (p == q ==> BE(p, 2) + refs == BE(q, 2) + refs);
  }

  /** Every traversal returns exactly the ids of the edges it asks for. */
  lemma {:induction false} ScanFindsEdges(ns: bytes, store: Store, edges: Edges, p: Probe, id: u64)
    requires Mirrors(ns, store, edges) && Sensible(p)
    ensures id in Scan(ns, store, p) <==> id in edges && Wanted(p, edges[id])
  {
    hide Key, ScanSuffix, Ids, FaceTail, PrefixOf, Wanted, Body, Attrs;
    var (face, prefix) := (FaceOf(p), PrefixOf(p));
    var suffixes := ScanSuffix(store, Key(ns, face, prefix));
    IdsAre(suffixes, IsExact(p), id);
    forall s ensures s in suffixes <==> OnFace(edges, face, prefix + s) {
      ScanFindsAll(store, Key(ns, face, prefix), s);
      PrefixedKey(ns, face, prefix, s);
      assert Get(store, Key(ns, face, prefix + s)) == if OnFace(edges, face, prefix + s) then Some([]) else None;
    }
    if id in edges && Wanted(p, edges[id]) {
      ProbeMeetsTail(p, edges[id], id);
      var s :| prefix + s == FaceTail(face, edges[id], id) && (if IsExact(p) then |s| == 8 else |s| > 8);
      IdOfTail(face, edges[id], id);
      IdOfSuffix(prefix, s);
      assert s in suffixes;
    }
    if exists s :: s in suffixes && (if IsExact(p) then |s| == 8 else |s| > 8) && IdOf(s) == Some(id) {
      var s :| s in suffixes && (if IsExact(p) then |s| == 8 else |s| > 8) && IdOf(s) == Some(id);
      IdOfSuffix(prefix, s);
      ProbeMeetsTail(p, edges[id], id);
    }
  }

  lemma PrefixedKey(ns: bytes, face: slot, prefix: bytes, s: bytes)
    ensures Key(ns, face, prefix) + s == Key(ns, face, prefix + s)
  {
    assert ns + SlotBytes(face) + prefix + s == ns + SlotBytes(face) + (prefix + s);
  }

  lemma IdOfSuffix(prefix: bytes, s: bytes)
    requires |s| >= 8
    ensures IdOf(prefix + s) == IdOf(s)
  {
    hide FromBE;
    var t := prefix + s;
    assert t[|t| - 8..|t| - 8 + 8] == s[|s| - 8..|s| - 8 + 8];
  }

  predicate Qualifies(s: bytes, exact: bool) { if exact then |s| == 8 else |s| > 8 }

  lemma {:induction false} IdsOnce(suffixes: seq<bytes>, exact: bool)
    requires Ascending(suffixes)
    requires forall s, t :: s in suffixes && t in suffixes && Qualifies(s, exact) && Qualifies(t, exact) && IdOf(s) == IdOf(t) ==> s == t
    ensures var ids := Ids(suffixes, exact); forall i, j :: 0 <= i < j < |ids| ==> ids[i] != ids[j]
    decreases |suffixes|
  {
    if suffixes != [] {
      hide Ascending, IdOf;
      var (s, rest) := (suffixes[0], suffixes[1..]);
      HeadIsNotAgain(suffixes);
      RestAscends(suffixes);
      IdsOnce(rest, exact);
      var later := Ids(rest, exact);
      if Qualifies(s, exact) {
        forall j | 0 <= j < |later| ensures later[j] != U64At(s, |s| - 8) {
          IdsAre(rest, exact, later[j]);
          var t :| t in rest && Qualifies(t, exact) && IdOf(t) == Some(later[j]);
          SuffixId(s);
          assert t in suffixes && s in suffixes;
        }
        assert Ids(suffixes, exact) == [U64At(s, |s| - 8)] + later;
      } else {
        assert Ids(suffixes, exact) == [] + later == later;
      }
    }
  }

  lemma SuffixId(s: bytes)
    requires |s| >= 8
    ensures IdOf(s) == Some(U64At(s, |s| - 8))
  {}

  lemma RestAscends(xs: seq<bytes>)
    requires Ascending(xs) && xs != []
    ensures Ascending(xs[1..])
  {
    hide Less;
    forall i | 0 < i < |xs[1..]| ensures Less(xs[1..][i - 1], xs[1..][i]) { assert Less(xs[i], xs[i + 1]); }
  }

  /** And each of them once. */
  lemma {:induction false} ScanNamesEachOnce(ns: bytes, store: Store, edges: Edges, p: Probe)
    requires Mirrors(ns, store, edges) && Sensible(p)
    ensures var ids := Scan(ns, store, p); forall i, j :: 0 <= i < j < |ids| ==> ids[i] != ids[j]
  {
    hide Key, ScanSuffix, Ids, FaceTail, PrefixOf, Body, Attrs, Ascending;
    var (face, prefix) := (FaceOf(p), PrefixOf(p));
    var suffixes := ScanSuffix(store, Key(ns, face, prefix));
    ScanFindsAll(store, Key(ns, face, prefix), []);
    forall s, t | s in suffixes && t in suffixes && Qualifies(s, IsExact(p)) && Qualifies(t, IsExact(p)) && IdOf(s) == IdOf(t) ensures s == t {
      SuffixIsTail(ns, store, edges, face, prefix, s);
      SuffixIsTail(ns, store, edges, face, prefix, t);
      SameTail(prefix, s, t);
    }
    IdsOnce(suffixes, IsExact(p));
    assert Scan(ns, store, p) == Ids(suffixes, IsExact(p));
  }

  lemma SameTail(prefix: bytes, s: bytes, t: bytes)
    requires prefix + s == prefix + t
    ensures s == t
  {
    assert (prefix + s)[|prefix|..] == s && (prefix + t)[|prefix|..] == t;
  }

  lemma {:induction false} SuffixIsTail(ns: bytes, store: Store, edges: Edges, face: slot, prefix: bytes, s: bytes)
    requires Mirrors(ns, store, edges) && IsFace(face) && |s| >= 8 && s in ScanSuffix(store, Key(ns, face, prefix))
    ensures IdOf(s).Some? && IdOf(s).value in edges && prefix + s == FaceTail(face, edges[IdOf(s).value], IdOf(s).value)
  {
    hide Key, ScanSuffix, FaceTail, Body, Attrs;
    ScanFindsAll(store, Key(ns, face, prefix), s);
    PrefixedKey(ns, face, prefix, s);
    assert Get(store, Key(ns, face, prefix + s)) == if OnFace(edges, face, prefix + s) then Some([]) else None;
    IdOfSuffix(prefix, s);
  }

  // --- The object ---

  lemma IdsUnfold(suffixes: seq<bytes>, i: nat, exact: bool)
    requires i <= |suffixes|
    ensures i == |suffixes| ==> Ids(suffixes[i..], exact) == []
    ensures i < |suffixes| ==>
              Ids(suffixes[i..], exact)
              == if (exact && |suffixes[i]| == 8) || (!exact && |suffixes[i]| > 8) then [U64At(suffixes[i], |suffixes[i]| - 8)] + Ids(suffixes[i + 1..], exact)
                 else Ids(suffixes[i + 1..], exact)
  {
    if i < |suffixes| {
      assert suffixes[i..][0] == suffixes[i] && suffixes[i..][1..] == suffixes[i + 1..];
      assert [] + Ids(suffixes[i + 1..], exact) == Ids(suffixes[i + 1..], exact);
    }
  }

  method AddId(ids: seq<u64>, id: u64, ghost rest: seq<u64>) returns (more: seq<u64>)
    ensures more == ids + [id] && ids + ([id] + rest) == more + rest
  {
    more := ids + [id];
  }

  class Graph {
    const ns: bytes
    const members: seq<u16>
    var store: Store

    constructor (ns: bytes, members: seq<u16>)
      ensures this.ns == ns && this.members == members && store == map[]
    {
      this.ns, this.members := ns, members;
      store := map[];
    }

    method LinkEdge(id: u64, e: Edge) returns (ok: bool)
      modifies this
      ensures var r := Link(ns, members, old(store), id, e);
        ok == r.Some? && store == if r.Some? then r.value else old(store)
    {
      hide Key, Replay, FaceTail, BodyOf;
      if Get(store, Key(ns, PRIMARY, IdBytes(id))).Some? || !MembersOf(members, e) {
        return false;
      }
      var batch: seq<Op> := [(Key(ns, PRIMARY, IdBytes(id)), Some(BodyOf(e)))];
      if e.attrs != [] {
        batch := batch + [(Key(ns, DYNAMIC, IdBytes(id)), Some(e.attrs))];
      }
      batch := batch + FacePuts(ns, id, e);
      assert batch == LinkOps(ns, id, e);
      Commit(batch);
      return true;
    }

    method UnlinkEdge(id: u64) returns (ok: bool)
      modifies this
      ensures var r := Unlink(ns, old(store), id);
        ok == r.Some? && store == if r.Some? then r.value else old(store)
    {
      hide Key, Replay, FaceTail, ParseHead;
      var body := Get(store, Key(ns, PRIMARY, IdBytes(id)));
      if body.None? {
        return false;
      }
      var head := ParseHead(body.value);
      if head.None? {
        return false;
      }
      var (src, dst, kind) := head.value;
      Commit(UnlinkOps(ns, id, Edge(src, dst, kind, [])));
      return true;
    }

    /** The ids of the edges a probe asks for. */
    method Traverse(p: Probe) returns (ids: seq<u64>)
      ensures ids == Scan(ns, store, p)
    {
      hide Key, ScanSuffix, Ids, PrefixOf;
      var suffixes := ScanSuffix(store, Key(ns, FaceOf(p), PrefixOf(p)));
      ids := [];
      ghost var all := Ids(suffixes, IsExact(p));
      assert suffixes[0..] == suffixes && [] + all == all;
      for i := 0 to |suffixes|
        invariant all == ids + Ids(suffixes[i..], IsExact(p))
      {
        var s := suffixes[i];
        IdsUnfold(suffixes, i, IsExact(p));
        ghost var rest := Ids(suffixes[i + 1..], IsExact(p));
        if (IsExact(p) && |s| == 8) || (!IsExact(p) && |s| > 8) {
          ids := AddId(ids, U64At(s, |s| - 8), rest);
        }
      }
      IdsUnfold(suffixes, |suffixes|, IsExact(p));
      assert ids + [] == ids;
    }

    method Commit(ops: seq<Op>)
      modifies this
      ensures store == Replay(old(store), ops)
    {
      hide Apply;
      for i := 0 to |ops|
        invariant store == Replay(old(store), ops[..i])
      {
        assert ops[..i + 1][..i] == ops[..i];
        store := Apply(store, ops[i]);
      }
      assert ops[..|ops|] == ops;
    }
  }
}
