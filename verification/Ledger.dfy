/** The reduce ledger: every group's accumulator is what its rows fold to. */
module Ledger {
  import opened Bytes
  import opened Store
  import opened Value
  import opened Schema
  import opened Index
  import opened Reduce

  type Rows = map<bytes, ValueMap>

  /** Every row written, in order. */
  type Trace = seq<(bytes, ValueMap)>

  function GroupOf(s: Schema, r: Reduce, pkey: bytes, document: ValueMap): Option<bytes> {
    GroupBytes(s, r.groupFields, KeyOf(s, pkey), document)
  }

  function Members(s: Schema, r: Reduce, rows: Rows, group: bytes): set<bytes> {
    set p | p in rows && GroupOf(s, r, p, rows[p]) == Some(group)
  }

  /** Everything ever folded into a group; nothing when no row was. */
  function TraceAcc(s: Schema, r: Reduce, trace: Trace, group: bytes): Option<bytes> {
    if trace == [] then None
    else
      var before := TraceAcc(s, r, trace[..|trace| - 1], group);
      var (pkey, document) := trace[|trace| - 1];
      if GroupOf(s, r, pkey, document) != Some(group) then before
      else r.logic.fold(if before.Some? then before.value else r.logic.seed, KeyOf(s, pkey), document)
  }

  /** Every stored row's group has an accumulator: unfolding a row never finds it missing. */
  ghost predicate Present(s: Schema, ns: bytes, r: Reduce, store: Store, rows: Rows) {
    forall p :: p in rows ==>
      GroupOf(s, r, p, rows[p]).Some? && Get(store, Key(ns, r.slot, GroupOf(s, r, p, rows[p]).value)).Some?
  }

  /** The accumulator is the fold of the group's current rows, and it is missing only while there are none. */
  ghost predicate Exact(s: Schema, ns: bytes, r: Reduce, store: Store, rows: Rows) {
    forall group ::
      match Get(store, Key(ns, r.slot, group))
      case None => Members(s, r, rows, group) == {}
      case Some(acc) => FoldSet(s, r.logic, rows, Members(s, r, rows, group)) == Some(acc)
  }

  /** Every row written had a group and was folded into it. */
  ghost predicate AllFolded(s: Schema, r: Reduce, trace: Trace) {
    forall i :: 0 <= i < |trace| ==>
      GroupOf(s, r, trace[i].0, trace[i].1).Some? && TraceAcc(s, r, trace[..i + 1], GroupOf(s, r, trace[i].0, trace[i].1).value).Some?
  }

  /** A watermark's accumulator is the fold of everything ever written to the group. */
  ghost predicate Remembers(s: Schema, ns: bytes, r: Reduce, store: Store, trace: Trace) {
    AllFolded(s, r, trace) && forall group :: Get(store, Key(ns, r.slot, group)) == TraceAcc(s, r, trace, group)
  }

  ghost predicate Tells(s: Schema, ns: bytes, r: Reduce, store: Store, rows: Rows, trace: Trace) {
    && Present(s, ns, r, store, rows)
    && (Reversible(r.logic) ==> Exact(s, ns, r, store, rows))
    && (Ratchet(r.logic) ==> Remembers(s, ns, r, store, trace))
  }

  ghost predicate LogicPayloadOnly(s: Schema, l: Logic) {
    && (forall a, k, d {:trigger l.fold(a, k, d)} :: l.fold(a, k, d) == l.fold(a, k, PayloadOf(s, d)))
    && (forall a, k, d {:trigger l.unfold(a, k, d)} :: l.unfold(a, k, d) == l.unfold(a, k, PayloadOf(s, d)))
  }

  // --- One row in or out ---

  function Moving(l: Logic, add: bool, acc: Option<bytes>, key: ValueMap, document: ValueMap): Option<bytes> {
    if acc.None? then (if add then l.fold(l.seed, key, document) else None)
    else if add then l.fold(acc.value, key, document)
    else l.unfold(acc.value, key, document)
  }

  /** The row's group has moved by one fold or unfold, no other group of the reduce has. */
  ghost predicate Moved(
    s: Schema, ns: bytes, r: Reduce, pkey: bytes, document: ValueMap, add: bool, before: Store, after: Store)
  {
    var g := GroupOf(s, r, pkey, document);
    && g.Some?
    && (var ek := Key(ns, r.slot, g.value);
        var acc := Moving(r.logic, add, Get(before, ek), KeyOf(s, pkey), document);
        acc.Some? && Get(after, ek) == acc)
    && (forall group :: group != g.value ==> Get(after, Key(ns, r.slot, group)) == Get(before, Key(ns, r.slot, group)))
  }

  /** A plan is its first operation and the plan of the other reduces over the overlay with it. */
  lemma {:induction false} PlanUnfolds(
    s: Schema, ns: bytes, reduces: seq<Reduce>, pkey: bytes, document: ValueMap, add: bool, store: Store, written: map<bytes, bytes>)
    requires PlanReduces(s, ns, reduces, pkey, document, add, store, written).Some?
    ensures var (ops, written') := PlanReduces(s, ns, reduces, pkey, document, add, store, written).value;
      if ops == [] then written' == written
      else reduces != [] && ops[0].1.Some?
           && PlanReduces(s, ns, reduces[1..], pkey, document, add, store, written[ops[0].0 := ops[0].1.value])
              == Some((ops[1..], written'))
  {
    hide GroupBytes, KeyOf, Key;
  }

  lemma {:induction false} OverlayIsReplay(
    s: Schema, ns: bytes, reduces: seq<Reduce>, pkey: bytes, document: ValueMap, add: bool, store: Store, written: map<bytes, bytes>)
    requires PlanReduces(s, ns, reduces, pkey, document, add, store, written).Some?
    ensures var (ops, written') := PlanReduces(s, ns, reduces, pkey, document, add, store, written).value;
      Replay(store + written, ops) == store + written'
    decreases |reduces|
  {
    hide PlanReduces, Replay, Apply;
    PlanUnfolds(s, ns, reduces, pkey, document, add, store, written);
    var (ops, written') := PlanReduces(s, ns, reduces, pkey, document, add, store, written).value;
    if ops == [] {
      NothingReplays(store + written);
    } else {
      var (ek, image) := (ops[0].0, ops[0].1.value);
      OverlayIsReplay(s, ns, reduces[1..], pkey, document, add, store, written[ek := image]);
      assert ops == [ops[0]] + ops[1..];
      ReplayCons(store + written, ops[0], ops[1..]);
      PutOverlays(store, written, ek, image);
    }
  }

  lemma PutOverlays(store: Store, written: map<bytes, bytes>, ek: bytes, image: bytes)
    ensures Apply(store + written, (ek, Some(image))) == store + written[ek := image]
  {}

  function SlotsOf(reduces: seq<Reduce>): set<slot> { set i | 0 <= i < |reduces| :: reduces[i].slot }

  predicate SlotsDiffer(reduces: seq<Reduce>) { forall i, j :: 0 <= i < j < |reduces| ==> reduces[i].slot != reduces[j].slot }

  lemma {:induction false} ReduceOpsUnder(
    s: Schema, ns: bytes, reduces: seq<Reduce>, pkey: bytes, document: ValueMap, add: bool, store: Store, written: map<bytes, bytes>)
    requires PlanReduces(s, ns, reduces, pkey, document, add, store, written).Some?
    ensures Under(ns, PlanReduces(s, ns, reduces, pkey, document, add, store, written).value.0, SlotsOf(reduces))
    decreases |reduces|
  {
    hide GroupBytes, KeyOf, Key;
    var ops := PlanReduces(s, ns, reduces, pkey, document, add, store, written).value.0;
    if ops != [] {
      ReduceOpsUnder(s, ns, reduces[1..], pkey, document, add, store, written[ops[0].0 := ops[0].1.value]);
      var group := GroupOf(s, reduces[0], pkey, document).value;
      assert reduces[0].slot in SlotsOf(reduces) && ops[0].0 == Key(ns, reduces[0].slot, group);
      assert InSlots(ns, SlotsOf(reduces), ops[0].0);
      TailSlots(reduces);
      forall i | 0 < i < |ops| ensures InSlots(ns, SlotsOf(reduces), ops[i].0) {
        var rest := ops[1..];
        assert InSlots(ns, SlotsOf(reduces[1..]), rest[i - 1].0);
      }
    }
  }

  lemma TailSlots(reduces: seq<Reduce>)
    requires reduces != []
    ensures SlotsOf(reduces[1..]) <= SlotsOf(reduces)
    ensures SlotsDiffer(reduces) ==> SlotsDiffer(reduces[1..]) && reduces[0].slot !in SlotsOf(reduces[1..])
  {
    assert forall i :: 0 <= i < |reduces[1..]| ==> reduces[1..][i] == reduces[i + 1];
  }

  /** No group of the row is missing: the plan does not end early. */
  ghost predicate NoneMissing(s: Schema, ns: bytes, reduces: seq<Reduce>, pkey: bytes, document: ValueMap,
      store: Store) {
    forall i :: 0 <= i < |reduces| ==>
      GroupOf(s, reduces[i], pkey, document).Some?
      && Get(store, Key(ns, reduces[i].slot, GroupOf(s, reduces[i], pkey, document).value)).Some?
  }

  /** Planning the reduces of a row moves each of its groups once. */
  lemma {:induction false} ReducesMove(
    s: Schema, ns: bytes, reduces: seq<Reduce>, pkey: bytes, document: ValueMap, add: bool, store: Store,
    written: map<bytes, bytes>, i: nat)
    requires PlanReduces(s, ns, reduces, pkey, document, add, store, written).Some? && SlotsDiffer(reduces) && i < |reduces|
    requires !add ==> NoneMissing(s, ns, reduces, pkey, document, store + written)
    ensures var written' := PlanReduces(s, ns, reduces, pkey, document, add, store, written).value.1;
      Moved(s, ns, reduces[i], pkey, document, add, store + written, store + written')
    decreases |reduces|
  {
    hide GroupBytes, KeyOf, Key, Moved, SlotsDiffer, NoneMissing;
    TailSlots(reduces);
    FirstMoves(s, ns, reduces, pkey, document, add, store, written);
    var ek := Key(ns, reduces[0].slot, GroupOf(s, reduces[0], pkey, document).value);
    var image := Moving(reduces[0].logic, add, AccAt(store, written, ek), KeyOf(s, pkey), document).value;
    var next := written[ek := image];
    var written' := PlanReduces(s, ns, reduces, pkey, document, add, store, written).value.1;
    if i == 0 {
      OthersStay(s, ns, reduces[1..], pkey, document, add, store, next);
      FirstIsMoved(s, ns, reduces[0], pkey, document, add, store, written, next, written', SlotsOf(reduces[1..]));
    } else {
      if !add { StillThere(s, ns, reduces, pkey, document, store, written, ek, image); }
      ReducesMove(s, ns, reduces[1..], pkey, document, add, store, next, i - 1);
      assert reduces[1..][i - 1] == reduces[i];
      assert reduces[i].slot != reduces[0].slot by { DifferAt(reduces, i); }
      MovedAlike(s, ns, reduces[i], pkey, document, add, store, written, ek, image, written', reduces[0].slot);
    }
  }

  lemma DifferAt(reduces: seq<Reduce>, i: nat)
    requires SlotsDiffer(reduces) && 0 < i < |reduces|
    ensures reduces[i].slot != reduces[0].slot
  {}

  lemma {:induction false} FirstMoves(
    s: Schema, ns: bytes, reduces: seq<Reduce>, pkey: bytes, document: ValueMap, add: bool, store: Store, written: map<bytes, bytes>)
    requires PlanReduces(s, ns, reduces, pkey, document, add, store, written).Some? && reduces != []
    requires !add ==> NoneMissing(s, ns, reduces, pkey, document, store + written)
    ensures var g := GroupOf(s, reduces[0], pkey, document);
      && g.Some?
      && (var ek := Key(ns, reduces[0].slot, g.value);
          var image := Moving(reduces[0].logic, add, AccAt(store, written, ek), KeyOf(s, pkey), document);
          && image.Some?
          && PlanReduces(s, ns, reduces[1..], pkey, document, add, store, written[ek := image.value]).Some?
          && PlanReduces(s, ns, reduces, pkey, document, add, store, written).value.1
             == PlanReduces(s, ns, reduces[1..], pkey, document, add, store, written[ek := image.value]).value.1)
  {
    hide GroupBytes, KeyOf, Key;
    var g := GroupOf(s, reduces[0], pkey, document);
    var ek := Key(ns, reduces[0].slot, g.value);
    assert Get(store + written, ek) == AccAt(store, written, ek);
  }

  lemma {:induction false} OthersStay(
    s: Schema, ns: bytes, reduces: seq<Reduce>, pkey: bytes, document: ValueMap, add: bool, store: Store, written: map<bytes, bytes>)
    requires PlanReduces(s, ns, reduces, pkey, document, add, store, written).Some?
    ensures var written' := PlanReduces(s, ns, reduces, pkey, document, add, store, written).value.1;
      forall a, x :: a !in SlotsOf(reduces) ==> Get(store + written', Key(ns, a, x)) == Get(store + written, Key(ns, a, x))
  {
    hide PlanReduces, Key, SlotsOf, Replay, Last, Under;
    var (ops, written') := PlanReduces(s, ns, reduces, pkey, document, add, store, written).value;
    OverlayIsReplay(s, ns, reduces, pkey, document, add, store, written);
    ReduceOpsUnder(s, ns, reduces, pkey, document, add, store, written);
    forall a: slot, x | a !in SlotsOf(reduces) ensures Get(store + written', Key(ns, a, x)) == Get(store + written, Key(ns, a, x)) {
      OtherSlotsAvoid(ns, ops, SlotsOf(reduces), a, x);
      ReplayIsLast(store + written, ops, Key(ns, a, x));
    }
  }

  lemma {:induction false} FirstIsMoved(
    s: Schema, ns: bytes, r: Reduce, pkey: bytes, document: ValueMap, add: bool, store: Store, written: map<bytes, bytes>,
    next: map<bytes, bytes>, written': map<bytes, bytes>, later: set<slot>)
    requires GroupOf(s, r, pkey, document).Some? && r.slot !in later
    requires var ek := Key(ns, r.slot, GroupOf(s, r, pkey, document).value);
      var image := Moving(r.logic, add, AccAt(store, written, ek), KeyOf(s, pkey), document);
      image.Some? && next == written[ek := image.value]
    requires forall a: slot, x :: a !in later ==> Get(store + written', Key(ns, a, x)) == Get(store + next, Key(ns, a, x))
    ensures Moved(s, ns, r, pkey, document, add, store + written, store + written')
  {
    hide GroupBytes, KeyOf, Key;
    var g := GroupOf(s, r, pkey, document).value;
    var ek := Key(ns, r.slot, g);
    assert Get(store + written, ek) == AccAt(store, written, ek);
    forall group | group != g
      ensures Get(store + written', Key(ns, r.slot, group)) == Get(store + written, Key(ns, r.slot, group))
    {
      if Key(ns, r.slot, group) == ek { KeyIsInjective(ns, r.slot, group, r.slot, g); }
    }
  }

  lemma {:induction false} StillThere(
    s: Schema, ns: bytes, reduces: seq<Reduce>, pkey: bytes, document: ValueMap, store: Store, written: map<bytes, bytes>,
    ek: bytes, image: bytes)
    requires reduces != [] && NoneMissing(s, ns, reduces, pkey, document, store + written)
    ensures NoneMissing(s, ns, reduces[1..], pkey, document, store + written[ek := image])
  {
    hide GroupBytes, KeyOf, Key;
    assert forall i :: 0 <= i < |reduces[1..]| ==> reduces[1..][i] == reduces[i + 1];
  }

  lemma {:induction false} MovedAlike(
    s: Schema, ns: bytes, r: Reduce, pkey: bytes, document: ValueMap, add: bool, store: Store, written: map<bytes, bytes>,
    ek: bytes, image: bytes, written': map<bytes, bytes>, other: slot)
    requires Moved(s, ns, r, pkey, document, add, store + written[ek := image], store + written')
    requires r.slot != other && exists x :: ek == Key(ns, other, x)
    ensures Moved(s, ns, r, pkey, document, add, store + written, store + written')
  {
    hide GroupBytes, KeyOf, Key;
    var x :| ek == Key(ns, other, x);
    forall group ensures Get(store + written[ek := image], Key(ns, r.slot, group)) == Get(store + written, Key(ns, r.slot, group)) {
      if Key(ns, r.slot, group) == ek { KeyIsInjective(ns, r.slot, group, other, x); }
    }
  }

  // --- The invariant over one move ---

  lemma {:induction false} MembersWithout(s: Schema, r: Reduce, rows: Rows, pkey: bytes, group: bytes)
    ensures Members(s, r, rows - {pkey}, group) == Members(s, r, rows, group) - {pkey}
  {
    hide GroupOf;
  }

  lemma {:induction false} MembersWith(s: Schema, r: Reduce, rows: Rows, pkey: bytes, document: ValueMap, group: bytes)
    requires pkey !in rows
    ensures Members(s, r, rows[pkey := document], group)
         == Members(s, r, rows, group) + if GroupOf(s, r, pkey, document) == Some(group) then {pkey} else {}
    ensures pkey !in Members(s, r, rows, group)
  {
    hide GroupOf;
  }

  lemma {:induction false} ExactAfterUnfold(s: Schema, ns: bytes, r: Reduce, rows: Rows, pkey: bytes, before: Store,
      after: Store)
    requires Reversible(r.logic) && pkey in rows && Exact(s, ns, r, before, rows)
    requires Moved(s, ns, r, pkey, rows[pkey], false, before, after)
    ensures Exact(s, ns, r, after, rows - {pkey})
  {
    hide GroupOf, Key, Reversible, Members, KeyOf, FoldSet;
    var rows' := rows - {pkey};
    var g := GroupOf(s, r, pkey, rows[pkey]).value;
    forall group
      ensures match Get(after, Key(ns, r.slot, group))
              case None => Members(s, r, rows', group) == {}
              case Some(acc) => FoldSet(s, r.logic, rows', Members(s, r, rows', group)) == Some(acc)
    {
      MembersWithout(s, r, rows, pkey, group);
      var members := Members(s, r, rows, group);
      FoldSetAgrees(s, r.logic, rows, rows', members - {pkey});
      MemberIf(s, r, rows, pkey, group);
      if group == g {
        UnfoldTakesBack(s, r.logic, rows, members, pkey, Get(before, Key(ns, r.slot, g)));
      } else {
        assert members - {pkey} == members;
        assert Get(after, Key(ns, r.slot, group)) == Get(before, Key(ns, r.slot, group));
      }
    }
  }

  lemma MemberIf(s: Schema, r: Reduce, rows: Rows, pkey: bytes, group: bytes)
    requires pkey in rows
    ensures pkey in Members(s, r, rows, group) <==> GroupOf(s, r, pkey, rows[pkey]) == Some(group)
  {
    hide GroupOf;
  }

  lemma {:induction false} UnfoldTakesBack(s: Schema, l: Logic, rows: Rows, members: set<bytes>, pkey: bytes,
      acc: Option<bytes>)
    requires Reversible(l) && pkey in members && pkey in rows && acc.Some? && FoldSet(s, l, rows, members) == acc
    ensures FoldSet(s, l, rows, members - {pkey}) == l.unfold(acc.value, KeyOf(s, pkey), rows[pkey])
  {
    FoldAnyLast(s, l, rows, members, pkey);
    FoldSetFits(s, l, rows, members - {pkey});
    hide FoldSet, KeyOf;
  }

  lemma {:induction false} ExactAfterFold(
    s: Schema, ns: bytes, r: Reduce, rows: Rows, pkey: bytes, document: ValueMap, before: Store, after: Store)
    requires Reversible(r.logic) && pkey !in rows && Exact(s, ns, r, before, rows)
    requires Moved(s, ns, r, pkey, document, true, before, after)
    ensures Exact(s, ns, r, after, rows[pkey := document])
  {
    hide GroupOf, Key, Reversible, Members, KeyOf, FoldSet;
    var rows' := rows[pkey := document];
    var g := GroupOf(s, r, pkey, document).value;
    forall group
      ensures match Get(after, Key(ns, r.slot, group))
              case None => Members(s, r, rows', group) == {}
              case Some(acc) => FoldSet(s, r.logic, rows', Members(s, r, rows', group)) == Some(acc)
    {
      MembersWith(s, r, rows, pkey, document, group);
      var members := Members(s, r, rows, group);
      FoldSetAgrees(s, r.logic, rows, rows', members);
      if group == g {
        NothingFolded(s, r.logic, rows);
        FoldAnyLast(s, r.logic, rows', members + {pkey}, pkey);
        assert members + {pkey} - {pkey} == members;
      } else {
        assert members + {} == members;
        assert Get(after, Key(ns, r.slot, group)) == Get(before, Key(ns, r.slot, group));
      }
    }
  }

  lemma NothingFolded(s: Schema, l: Logic, rows: Rows)
    ensures FoldSet(s, l, rows, {}) == Some(l.seed)
  {}

  lemma {:induction false} RemembersAfterUnfold(
    s: Schema, ns: bytes, r: Reduce, trace: Trace, pkey: bytes, document: ValueMap, before: Store, after: Store)
    requires Ratchet(r.logic) && Remembers(s, ns, r, before, trace)
    requires Moved(s, ns, r, pkey, document, false, before, after)
    ensures Remembers(s, ns, r, after, trace)
  {
    hide GroupOf, Key, TraceAcc;
  }

  lemma {:induction false} RemembersAfterFold(
    s: Schema, ns: bytes, r: Reduce, trace: Trace, pkey: bytes, document: ValueMap, before: Store, after: Store)
    requires Remembers(s, ns, r, before, trace)
    requires Moved(s, ns, r, pkey, document, true, before, after)
    ensures Remembers(s, ns, r, after, trace + [(pkey, document)])
  {
    hide GroupOf, Key;
    var trace' := trace + [(pkey, document)];
    assert trace'[..|trace|] == trace && trace'[..|trace| + 1] == trace';
    forall i | 0 <= i < |trace|
      ensures GroupOf(s, r, trace'[i].0, trace'[i].1).Some?
           && TraceAcc(s, r, trace'[..i + 1], GroupOf(s, r, trace'[i].0, trace'[i].1).value).Some?
    {
      assert trace'[..i + 1] == trace[..i + 1];
    }
    forall group ensures Get(after, Key(ns, r.slot, group)) == TraceAcc(s, r, trace', group) {
      assert Get(before, Key(ns, r.slot, group)) == TraceAcc(s, r, trace, group);
    }
  }

  lemma {:induction false} PresentAfterUnfold(s: Schema, ns: bytes, r: Reduce, rows: Rows, pkey: bytes, before: Store,
      after: Store)
    requires pkey in rows && Present(s, ns, r, before, rows) && Moved(s, ns, r, pkey, rows[pkey], false, before, after)
    ensures Present(s, ns, r, after, rows - {pkey})
  {
    hide GroupOf, Key;
  }

  lemma {:induction false} PresentAfterFold(
    s: Schema, ns: bytes, r: Reduce, rows: Rows, pkey: bytes, document: ValueMap, before: Store, after: Store)
    requires Present(s, ns, r, before, rows) && Moved(s, ns, r, pkey, document, true, before, after)
    ensures Present(s, ns, r, after, rows[pkey := document])
  {
    hide GroupOf, Key;
  }

  /** Unfolding a row keeps the ledger right for the rows without it. */
  lemma {:induction false} TellsAfterUnfold(
    s: Schema, ns: bytes, r: Reduce, rows: Rows, trace: Trace, pkey: bytes, before: Store, after: Store)
    requires pkey in rows && Tells(s, ns, r, before, rows, trace) && Moved(s, ns, r, pkey, rows[pkey], false, before, after)
    ensures Tells(s, ns, r, after, rows - {pkey}, trace)
  {
    hide Present, Exact, Remembers, Moved, Reversible, Ratchet;
    PresentAfterUnfold(s, ns, r, rows, pkey, before, after);
    if Reversible(r.logic) { ExactAfterUnfold(s, ns, r, rows, pkey, before, after); }
    if Ratchet(r.logic) { RemembersAfterUnfold(s, ns, r, trace, pkey, rows[pkey], before, after); }
  }

  /** Folding a row keeps the ledger right for the rows with it. */
  lemma {:induction false} TellsAfterFold(
    s: Schema, ns: bytes, r: Reduce, rows: Rows, trace: Trace, pkey: bytes, document: ValueMap, before: Store, after: Store)
    requires pkey !in rows && Tells(s, ns, r, before, rows, trace) && Moved(s, ns, r, pkey, document, true, before, after)
    ensures Tells(s, ns, r, after, rows[pkey := document], trace + [(pkey, document)])
  {
    hide Present, Exact, Remembers, Moved, Reversible, Ratchet;
    PresentAfterFold(s, ns, r, rows, pkey, document, before, after);
    if Reversible(r.logic) { ExactAfterFold(s, ns, r, rows, pkey, document, before, after); }
    if Ratchet(r.logic) { RemembersAfterFold(s, ns, r, trace, pkey, document, before, after); }
  }

  /** A fold of the written map is a fold of its payload. */
  lemma {:induction false} MovedByPayload(
    s: Schema, ns: bytes, r: Reduce, pkey: bytes, document: ValueMap, add: bool, before: Store, after: Store)
    requires LogicPayloadOnly(s, r.logic) && Moved(s, ns, r, pkey, document, add, before, after)
    ensures Moved(s, ns, r, pkey, PayloadOf(s, document), add, before, after)
  {
    hide GroupBytes, Key, KeyOf, PayloadOf;
    GroupOfPayload(s, r.groupFields, KeyOf(s, pkey), document);
  }
}
