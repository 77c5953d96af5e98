/** Reduces: accumulators per group, folded and unfolded as rows come and go. */
module Reduce {
  import opened Bytes
  import opened Order
  import opened Store
  import opened Value
  import opened Schema
  import opened Index

  /** The host's logic. The key arrives decoded; nothing stands for its error. `fits` tells its accumulators. */
  datatype Logic = Logic(
    seed: bytes, fits: bytes -> bool, fold: (bytes, ValueMap, ValueMap) -> Option<bytes>,
    unfold: (bytes, ValueMap, ValueMap) -> Option<bytes>)

  datatype Reduce = Reduce(slot: slot, groupFields: seq<bytes>, logic: Logic)

  /** The group fields one after the other, the key's own before the payload's of the same name. */
  function GroupBytes(s: Schema, names: seq<bytes>, key: ValueMap, document: ValueMap): Option<bytes> {
    if names == [] then Some([])
    else
      var fromKey := IsKeyField(s, names[0]);
      var f := FindIn(if fromKey then s.keyFields else s.hot + s.cold, names[0]);
      var source := if fromKey then key else document;
      if f.None? || names[0] !in source then None
      else
        match FixedIndexImage(f.value.ty, source[names[0]])
        case None => None
        case Some(image) =>
          match GroupBytes(s, names[1..], key, document)
          case None => None
          case Some(rest) => Some(image + rest)
  }

  lemma {:induction false} GroupOfPayload(s: Schema, names: seq<bytes>, key: ValueMap, document: ValueMap)
    ensures GroupBytes(s, names, key, PayloadOf(s, document)) == GroupBytes(s, names, key, document)
    decreases |names|
  {
    hide FixedIndexImage;
    if names != [] {
      GroupOfPayload(s, names[1..], key, document);
      if !IsKeyField(s, names[0]) && FindIn(s.hot + s.cold, names[0]).Some? {
        var i :| 0 <= i < |s.hot + s.cold| && (s.hot + s.cold)[i].name == names[0];
        assert Payload(s)[i].name == names[0];
      }
    }
  }

  // --- Laws ---

  /** Folding keeps the layout, unfolding takes back what folding did, and the order of folds does not matter. */
  ghost predicate Reversible(l: Logic) {
    && l.fits(l.seed)
    && (forall a, k, d {:trigger l.fold(a, k, d)} :: l.fits(a) && l.fold(a, k, d).Some? ==>
          l.fits(l.fold(a, k, d).value) && l.unfold(l.fold(a, k, d).value, k, d) == Some(a))
    && (forall a, k, d, k', d' {:trigger l.fold(a, k, d), l.fold(a, k', d')} :: l.fits(a) ==>
          Then(l, l.fold(a, k, d), k', d') == Then(l, l.fold(a, k', d'), k, d))
  }

  function Then(l: Logic, a: Option<bytes>, k: ValueMap, d: ValueMap): Option<bytes> {
    if a.None? then None else l.fold(a.value, k, d)
  }

  /** A watermark: unfolding leaves it where it is. */
  ghost predicate Ratchet(l: Logic) { forall a, k, d {:trigger l.unfold(a, k, d)} :: l.unfold(a, k, d) == Some(a) }

  // --- Folding a set of rows ---

  /** The rows `members` of a table folded from the seed, in key order. */
  function FoldSet(s: Schema, l: Logic, rows: map<bytes, ValueMap>, members: set<bytes>): Option<bytes>
    decreases |members|
  {
    if members == {} then Some(l.seed)
    else
      var p := Least(members);
      Then(l, FoldSet(s, l, rows, members - {p}), KeyOf(s, p), if p in rows then rows[p] else map[])
  }

  function KeyOf(s: Schema, pkey: bytes): ValueMap {
    if DecodeKey(s, pkey).Some? then DecodeKey(s, pkey).value else map[]
  }

  function RowOr(rows: map<bytes, ValueMap>, p: bytes): ValueMap { if p in rows then rows[p] else map[] }

  lemma {:induction false} FoldSetFits(s: Schema, l: Logic, rows: map<bytes, ValueMap>, members: set<bytes>)
    requires Reversible(l)
    ensures FoldSet(s, l, rows, members).Some? ==> l.fits(FoldSet(s, l, rows, members).value)
    decreases |members|
  {
    if members != {} {
      var p := Least(members);
      FoldSetFits(s, l, rows, members - {p});
    }
  }

  lemma Swap(l: Logic, a: Option<bytes>, k: ValueMap, d: ValueMap, k': ValueMap, d': ValueMap)
    requires Reversible(l) && (a.Some? ==> l.fits(a.value))
    ensures Then(l, Then(l, a, k, d), k', d') == Then(l, Then(l, a, k', d'), k, d)
  {}

  /** Any row may be taken as the one folded last. */
  lemma {:induction false} FoldAnyLast(s: Schema, l: Logic, rows: map<bytes, ValueMap>, members: set<bytes>, p: bytes)
    requires Reversible(l) && p in members
    ensures FoldSet(s, l, rows, members) == Then(l, FoldSet(s, l, rows, members - {p}), KeyOf(s, p), RowOr(rows, p))
    decreases |members|
  {
    hide Reversible, KeyOf, Then, IsLeast;
    var m := Least(members);
    if m != p {
      var rest := members - {m} - {p};
      FoldAnyLast(s, l, rows, members - {m}, p);
      assert members - {p} - {m} == rest;
      LeastOfLess(members, p);
      FoldSetFits(s, l, rows, rest);
      Swap(l, FoldSet(s, l, rows, rest), KeyOf(s, p), RowOr(rows, p), KeyOf(s, m), RowOr(rows, m));
    }
  }

  lemma LeastOfLess(members: set<bytes>, p: bytes)
    requires p in members && p != Least(members)
    ensures members - {p} != {} && Least(members - {p}) == Least(members)
  {
    hide Less;
    assert Least(members) in members - {p};
    assert IsLeast(Least(members), members - {p});
    LeastIsUnique(Least(members), Least(members - {p}), members - {p});
  }

  /** Only the members' own rows matter. */
  lemma {:induction false} FoldSetAgrees(s: Schema, l: Logic, rows: map<bytes, ValueMap>, rows': map<bytes, ValueMap>,
      members: set<bytes>)
    requires forall p :: p in members ==> RowOr(rows, p) == RowOr(rows', p)
    ensures FoldSet(s, l, rows, members) == FoldSet(s, l, rows', members)
    decreases |members|
  {
    hide KeyOf, Then, IsLeast;
    if members != {} {
      assert Least(members) in members by { LeastIsIn(members); }
      FoldSetAgrees(s, l, rows, rows', members - {Least(members)});
    }
  }

  lemma LeastIsIn(members: set<bytes>)
    requires members != {}
    ensures Least(members) in members
  {}

  // --- The presets ---

  function AccOf(acc: bytes): u64 { if |acc| == 8 then U64At(acc, 0) else 0 }

  function FoldCount(acc: bytes, key: ValueMap, document: ValueMap): Option<bytes> {
    if AccOf(acc) + 1 < U64_END then Some(BE(AccOf(acc) + 1, 8)) else None
  }

  /** Saturating at zero. */
  function UnfoldCount(acc: bytes, key: ValueMap, document: ValueMap): Option<bytes> {
    Some(BE(if AccOf(acc) == 0 then 0 else AccOf(acc) - 1, 8))
  }

  function EightBytes(acc: bytes): bool { |acc| == 8 }

  function Count(): Logic { Logic(BE(0, 8), EightBytes, FoldCount, UnfoldCount) }

  function FieldOf(document: ValueMap, name: bytes): Option<u64> {
    if name in document && document[name].U64? then Some(document[name].n64) else None
  }

  function FoldHigh(name: bytes, acc: bytes, document: ValueMap): Option<bytes> {
    match FieldOf(document, name) case None => None case Some(n) => Some(BE(if n > AccOf(acc) then n else AccOf(acc), 8))
  }

  function FoldLow(name: bytes, acc: bytes, document: ValueMap): Option<bytes> {
    match FieldOf(document, name) case None => None case Some(n) => Some(BE(if n < AccOf(acc) then n else AccOf(acc), 8))
  }

  function HighWater(name: bytes): Logic {
    Logic(BE(0, 8), EightBytes, (acc, key, document) => FoldHigh(name, acc, document), (acc, key, document) => Some(acc))
  }

  function LowWater(name: bytes): Logic {
    Logic(BE(U64_END - 1, 8), EightBytes, (acc, key, document) => FoldLow(name, acc, document), (acc, key, document) => Some(acc))
  }

  lemma AccReads(n: u64)
    ensures AccOf(BE(n, 8)) == n
  {
    hide BE, FromBE;
    FixedRoundTrips();
    assert BE(n, 8)[0..8] == BE(n, 8);
  }

  lemma AccWrites(acc: bytes)
    requires |acc| == 8
    ensures BE(AccOf(acc), 8) == acc
  {
    hide BE, FromBE;
    BEOfFromBE(acc);
    assert acc[0..8] == acc;
  }

  /** The count is a reversible logic: its saturating subtraction never saturates after a fold. */
  lemma {:induction false} CountIsReversible()
    ensures Reversible(Count())
  {
    hide BE, AccOf;
    var l := Count();
    forall a, k, d | l.fits(a) && l.fold(a, k, d).Some?
      ensures l.fits(l.fold(a, k, d).value) && l.unfold(l.fold(a, k, d).value, k, d) == Some(a)
    {
      AccReads(AccOf(a) + 1);
      AccWrites(a);
    }
    forall a, k, d, k', d' | l.fits(a) ensures Then(l, l.fold(a, k, d), k', d') == Then(l, l.fold(a, k', d'), k, d) {}
  }

  lemma RatchetsHold(name: bytes)
    ensures Ratchet(HighWater(name)) && Ratchet(LowWater(name))
  {}

  /** Counting a set of rows gives their number. */
  lemma {:induction false} CountCounts(s: Schema, rows: map<bytes, ValueMap>, members: set<bytes>)
    requires |members| < U64_END
    ensures FoldSet(s, Count(), rows, members) == Some(BE(|members|, 8))
    decreases |members|
  {
    hide BE, AccOf, KeyOf;
    if members != {} {
      var p := Least(members);
      assert p in members by { LeastIsIn(members); }
      CountCounts(s, rows, members - {p});
      assert |members - {p}| == |members| - 1;
      AccReads(|members| - 1);
    }
  }

  // --- Planning ---

  /** What a later step of the same plan reads: what an earlier one wrote, else the store. */
  function AccAt(store: Store, written: map<bytes, bytes>, key: bytes): Option<bytes> {
    if key in written then Some(written[key]) else Get(store, key)
  }

  /** Fold a row into its groups, or unfold it: the operations and the overlay they leave. A group that is missing
      when a row is unfolded ends the plan early. */
  function PlanReduces(
    s: Schema, ns: bytes, reduces: seq<Reduce>, pkey: bytes, document: ValueMap, add: bool, store: Store,
    written: map<bytes, bytes>): Option<(seq<Op>, map<bytes, bytes>)>
    decreases |reduces|
  {
    if reduces == [] then Some(([], written))
    else
      var (r, key) := (reduces[0], KeyOf(s, pkey));
      match GroupBytes(s, r.groupFields, key, document)
      case None => None
      case Some(group) =>
        var ek := Key(ns, r.slot, group);
        match AccAt(store, written, ek)
        case None =>
          if !add then Some(([], written))
          else PlanOne(s, ns, reduces, pkey, document, add, store, written, ek, r.logic.fold(r.logic.seed, key, document))
        case Some(acc) =>
          PlanOne(s, ns, reduces, pkey, document, add, store, written, ek,
                  if add then r.logic.fold(acc, key, document) else r.logic.unfold(acc, key, document))
  }

  function PlanOne(
    s: Schema, ns: bytes, reduces: seq<Reduce>, pkey: bytes, document: ValueMap, add: bool, store: Store,
    written: map<bytes, bytes>, ek: bytes, acc: Option<bytes>): Option<(seq<Op>, map<bytes, bytes>)>
    requires reduces != []
    decreases |reduces|, 0
  {
    match acc
    case None => None
    case Some(image) =>
      match PlanReduces(s, ns, reduces[1..], pkey, document, add, store, written[ek := image])
      case None => None
      case Some((ops, written')) => Some(([(ek, Some(image))] + ops, written'))
  }
}
