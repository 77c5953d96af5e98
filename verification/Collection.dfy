/** The table as one object over its store: the planning loops, the replay, the scans and the rebuild. */
module Collection {
  import opened Bytes
  import opened Order
  import opened Store
  import opened Value
  import opened Schema
  import opened Index
  import opened Reduce
  import opened Plan
  import opened Health
  import Verbs
  import Scans
  import Rebuild
  import VocabStore

  // --- The planning loops ---

  method NamedImages(s: Schema, names: seq<bytes>, document: ValueMap) returns (r: Option<bytes>)
    ensures r == OrderedImages(s, names, document)
  {
    hide IndexImage, FindField, IsKeyField;
    for i := 0 to |names|
      invariant forall k :: 0 <= k < i ==> FindField(s, names[k]).Some? && (k + 1 < |names| ==> FindField(s, names[k]).value.width != 0)
    {
      if FindField(s, names[i]).None? || (i + 1 < |names| && FindField(s, names[i]).value.width == 0) {
        return None;
      }
    }
    var buf: bytes := [];
    assert names[0..] == names;
    ghost var all := Images(s, names, document);
    assert all.Some? ==> [] + all.value == all.value;
    for i := 0 to |names|
      invariant Resumes(all, buf, Images(s, names[i..], document))
    {
      assert names[i..][0] == names[i] && names[i..][1..] == names[i + 1..];
      if IsKeyField(s, names[i]) || names[i] !in document {
        return None;
      }
      var image := IndexImage(FindField(s, names[i]).value, document[names[i]]);
      if image.None? {
        return None;
      }
      ghost var before, rest := buf, Images(s, names[i + 1..], document);
      buf := buf + image.value;
      assert rest.Some? ==> before + (image.value + rest.value) == buf + rest.value;
    }
    assert buf + [] == buf;
    return Some(buf);
  }

  /** What is out already, followed by what is still to come, is the whole. */
  ghost predicate Resumes<T>(all: Option<seq<T>>, done: seq<T>, rest: Option<seq<T>>) {
    all == if rest.None? then None else Some(done + rest.value)
  }

  method EntriesOfRow(t: Table, pkey: bytes, document: ValueMap) returns (r: Option<seq<Entry>>)
    ensures r == IndexEntries(t.schema, t.ns, t.methods, pkey, document)
  {
    hide OrderedImages, EntriesOf;
    var entries: seq<Entry> := [];
    assert t.methods[0..] == t.methods;
    ghost var all := IndexEntries(t.schema, t.ns, t.methods, pkey, document);
    assert all.Some? ==> [] + all.value == all.value;
    for i := 0 to |t.methods|
      invariant Resumes(all, entries, IndexEntries(t.schema, t.ns, t.methods[i..], pkey, document))
    {
      var m := t.methods[i];
      assert t.methods[i..][0] == m && t.methods[i..][1..] == t.methods[i + 1..];
      ghost var before, rest := entries, IndexEntries(t.schema, t.ns, t.methods[i + 1..], pkey, document);
      var one := EntriesOfMethod(t, m, pkey, document);
      if one.None? {
        return None;
      }
      entries := entries + one.value;
      assert rest.Some? ==> before + (one.value + rest.value) == entries + rest.value;
    }
    assert entries + [] == entries;
    return Some(entries);
  }

  method EntriesOfMethod(t: Table, m: AccessMethod, pkey: bytes, document: ValueMap) returns (r: Option<seq<Entry>>)
    ensures r == MethodEntries(t.schema, t.ns, m, pkey, document)
  {
    hide OrderedImages, EntriesOf;
    var admitted := Admitted(m, document);
    if admitted.None? {
      return None;
    }
    if !admitted.value {
      return Some([]);
    }
    var segments: seq<bytes>;
    if m.kind.Func? {
      var derived := m.kind.derive(document);
      if derived.None? {
        return None;
      }
      segments := derived.value;
    } else {
      var image := NamedImages(t.schema, m.fields, document);
      if image.None? {
        return None;
      }
      segments := [image.value];
    }
    var value := NamedImages(t.schema, m.includes, document);
    if value.None? {
      return None;
    }
    var entries := KeyedEntries(t.ns, m.slot, segments, pkey, value.value);
    return Some(entries);
  }

  method KeyedEntries(ns: bytes, at: slot, segments: seq<bytes>, pkey: bytes, value: bytes)
      returns (entries: seq<Entry>)
    ensures entries == EntriesOf(ns, at, segments, pkey, value)
  {
    hide Key;
    entries := [];
    assert segments[0..] == segments;
    for i := 0 to |segments|
      invariant entries + EntriesOf(ns, at, segments[i..], pkey, value) == EntriesOf(ns, at, segments, pkey, value)
    {
      assert segments[i..][0] == segments[i] && segments[i..][1..] == segments[i + 1..];
      ghost var before, rest := entries, EntriesOf(ns, at, segments[i + 1..], pkey, value);
      var e := (Key(ns, at, segments[i] + pkey), value);
      entries := entries + [e];
      assert before + ([e] + rest) == entries + rest;
    }
  }

  method AddOp<T>(ops: seq<Op>, op: Op, ghost rest: Option<(seq<Op>, T)>) returns (more: seq<Op>)
    ensures more == ops + [op] && (rest.Some? ==> ops + ([op] + rest.value.0) == more + rest.value.0)
  {
    more := ops + [op];
  }

  /** Fold the row into every group, or unfold it, reading through what this plan has written so far. */
  method MoveGroups(t: Table, pkey: bytes, document: ValueMap, add: bool, store: Store, overlay: map<bytes, bytes>)
    returns (r: Option<(seq<Op>, map<bytes, bytes>)>)
    ensures r == PlanReduces(t.schema, t.ns, t.reduces, pkey, document, add, store, overlay)
  {
    hide GroupBytes, Key, KeyOf;
    var ops: seq<Op> := [];
    var written := overlay;
    var key := KeyOf(t.schema, pkey);
    assert t.reduces[0..] == t.reduces;
    ghost var all := PlanReduces(t.schema, t.ns, t.reduces, pkey, document, add, store, overlay);
    assert all.Some? ==> [] + all.value.0 == all.value.0;
    for i := 0 to |t.reduces|
      invariant var rest := PlanReduces(t.schema, t.ns, t.reduces[i..], pkey, document, add, store, written);
        all == if rest.None? then None else Some((ops + rest.value.0, rest.value.1))
    {
      var r := t.reduces[i];
      assert t.reduces[i..][0] == r && t.reduces[i..][1..] == t.reduces[i + 1..];
      var group := GroupBytes(t.schema, r.groupFields, key, document);
      if group.None? {
        return None;
      }
      var ek := Key(t.ns, r.slot, group.value);
      var acc := AccAt(store, written, ek);
      if acc.None? && !add {
        assert ops + [] == ops;
        return Some((ops, written));
      }
      var before := if acc.None? then r.logic.seed else acc.value;
      var moved := if add then r.logic.fold(before, key, document) else r.logic.unfold(before, key, document);
      if moved.None? {
        return None;
      }
      written := written[ek := moved.value];
      ops := AddOp(ops, (ek, moved), PlanReduces(t.schema, t.ns, t.reduces[i + 1..], pkey, document, add, store, written));
    }
    assert ops + [] == ops;
    return Some((ops, written));
  }

  method SweepOf(entries: seq<Entry>) returns (ops: seq<Op>)
    ensures ops == Dels(entries)
  {
    ops := [];
    for i := 0 to |entries|
      invariant ops == Dels(entries[..i])
    {
      assert entries[..i + 1][..i] == entries[..i];
      ops := ops + [(entries[i].0, None)];
    }
    assert entries[..|entries|] == entries;
  }

  method WritesOf(entries: seq<Entry>) returns (ops: seq<Op>)
    ensures ops == Puts(entries)
  {
    ops := [];
    for i := 0 to |entries|
      invariant ops == Puts(entries[..i])
    {
      assert entries[..i + 1][..i] == entries[..i];
      ops := ops + [(entries[i].0, Some(entries[i].1))];
    }
    assert entries[..|entries|] == entries;
  }

  /** One row's ordered list: old entries out, groups moved, the row, new entries in. */
  method PlanRowWrite(t: Table, store: Store, pkey: bytes, prior: Option<ValueMap>, next: Option<ValueMap>)
      returns (r: Option<seq<Op>>)
    ensures r == PlanRow(t, store, pkey, prior, next)
  {
    hide IndexEntries, PlanReduces, Key, Dels, Puts, EncodePayload;
    if |pkey| != t.schema.keyLen {
      return None;
    }
    if prior.None? && next.None? {
      return Some([]);
    }
    var sweeps: seq<Op> := [];
    var unfolds: seq<Op> := [];
    var overlay: map<bytes, bytes> := map[];
    if prior.Some? {
      var swept := EntriesOfRow(t, pkey, prior.value);
      if swept.None? {
        return None;
      }
      sweeps := SweepOf(swept.value);
      var moved := MoveGroups(t, pkey, prior.value, false, store, map[]);
      if moved.None? {
        return None;
      }
      unfolds, overlay := moved.value.0, moved.value.1;
    }
    NoEntriesNoOps();
    var writes: seq<Op> := [];
    var folds: seq<Op> := [];
    var image: Option<bytes> := None;
    if next.Some? {
      var entries := EntriesOfRow(t, pkey, next.value);
      image := EncodePayload(t.schema, next.value);
      if entries.None? || image.None? {
        return None;
      }
      var moved := MoveGroups(t, pkey, next.value, true, store, overlay);
      if moved.None? {
        return None;
      }
      folds := moved.value.0;
      writes := WritesOf(entries.value);
    }
    return Some(sweeps + (unfolds + folds + [(PrimaryKey(t, pkey), image)]) + writes);
  }

  lemma NoEntriesNoOps()
    ensures Dels([]) == [] && Puts([]) == []
  {}

  method KeyTails(suffixes: seq<bytes>, kl: nat, exact: bool) returns (out: seq<bytes>)
    ensures out == Scans.Tails(suffixes, kl, exact)
  {
    out := [];
    assert suffixes[0..] == suffixes;
    for k := 0 to |suffixes|
      invariant out + Scans.Tails(suffixes[k..], kl, exact) == Scans.Tails(suffixes, kl, exact)
    {
      assert suffixes[k..][0] == suffixes[k] && suffixes[k..][1..] == suffixes[k + 1..];
      var s := suffixes[k];
      ghost var before, rest := out, Scans.Tails(suffixes[k + 1..], kl, exact);
      if |s| == kl || (!exact && |s| > kl) {
        out := out + [s[|s| - kl..]];
        assert before + ([s[|s| - kl..]] + rest) == out + rest;
      } else {
        assert [] + rest == rest;
      }
    }
  }

  // --- The object ---

  class Collection {
    const t: Table
    var store: Store

    constructor (t: Table)
      ensures this.t == t && store == map[]
    {
      this.t := t;
      store := map[];
    }

    /** Apply a batch in order. */
    method Commit(ops: seq<Op>)
      modifies this
      ensures store == Replay(old(store), ops)
    {
      hide Apply;
      for i := 0 to |ops|
        invariant store == Replay(old(store), ops[..i])
      {
        assert ops[..i + 1][..i] == ops[..i];
        store := Apply(store, ops[i]);
      }
      assert ops[..|ops|] == ops;
    }

    /** Partial update of a document, in one commit; refused without a trace. */
    method Merge(pkey: bytes, fields: ValueMap) returns (ok: bool)
      modifies this
      ensures var r := Verbs.Merge(t, old(store), pkey, fields);
        ok == r.Some? && store == if r.Some? then r.value else old(store)
    {
      hide PlanRow, PlanSegment, Replay, Verbs.RowBase, Verbs.StoredRow, Verbs.StoredSegment;
      if |pkey| != t.schema.keyLen {
        return false;
      }
      var declared, dynamic := Verbs.Declared(t, fields), Verbs.Dynamic(t, fields);
      var rowOps: seq<Op> := [];
      var segOps: seq<Op> := [];
      if declared != map[] {
        var row := Verbs.StoredRow(t, store, pkey);
        if row.None? {
          return false;
        }
        var base := Verbs.RowBase(t, pkey, Verbs.OrEmpty(row.value) + declared);
        if base.None? {
          return false;
        }
        var planned := PlanRowWrite(t, store, pkey, row.value, base);
        if planned.None? {
          return false;
        }
        rowOps := planned.value;
      }
      if dynamic != map[] {
        var seg := Verbs.StoredSegment(t, store, pkey);
        var planned := PlanSegment(t, pkey, seg, Verbs.OrEmpty(seg) + dynamic, VocabStore.Load(store, t.ns)).0;
        if planned.None? {
          return false;
        }
        segOps := planned.value;
      }
      Commit(rowOps + segOps);
      return true;
    }

    /** Replacement of a whole document, in one commit. */
    method Replace(pkey: bytes, fields: ValueMap) returns (ok: bool)
      modifies this
      ensures var r := Verbs.Replace(t, old(store), pkey, fields);
        ok == r.Some? && store == if r.Some? then r.value else old(store)
    {
      hide PlanRow, PlanSegment, Replay, Verbs.RowBase, Verbs.StoredRow, Verbs.StoredSegment, Verbs.HasPathIndex;
      var row := Verbs.StoredRow(t, store, pkey);
      if row.None? {
        return false;
      }
      var declared, dynamic := Verbs.Declared(t, fields), Verbs.Dynamic(t, fields);
      var seg := if Verbs.HasPathIndex(t) then Verbs.StoredSegment(t, store, pkey) else None;
      var v := if dynamic == map[] && seg.None? then NO_NAMES else VocabStore.Load(store, t.ns);
      var base: Option<ValueMap> := None;
      if declared != map[] {
        base := Verbs.RowBase(t, pkey, declared);
        if base.None? {
          return false;
        }
      }
      var rowOps := PlanRowWrite(t, store, pkey, row.value, base);
      var segOps := PlanSegment(t, pkey, seg, dynamic, v).0;
      if rowOps.None? || segOps.None? {
        return false;
      }
      Commit(rowOps.value + segOps.value);
      return true;
    }

    /** Removal of a whole document, in one commit. */
    method Purge(pkey: bytes) returns (ok: bool)
      modifies this
      ensures var r := Verbs.Purge(t, old(store), pkey);
        ok == r.Some? && store == if r.Some? then r.value else old(store)
    {
      hide PlanRow, PlanPurgeSegment, Replay, Verbs.StoredRow, Verbs.StoredSegment;
      var row := Verbs.StoredRow(t, store, pkey);
      if row.None? {
        return false;
      }
      var seg := Verbs.StoredSegment(t, store, pkey);
      if row.value.None? && seg.None? {
        return true;
      }
      var rowOps := PlanRowWrite(t, store, pkey, row.value, None);
      if rowOps.None? {
        return false;
      }
      Commit(rowOps.value + if seg.None? then [] else PlanPurgeSegment(t, pkey, seg.value));
      return true;
    }

    /** The keys a face holds for a probe. */
    method Scan(i: nat, probe: bytes, exact: bool) returns (r: Option<seq<bytes>>)
      requires i < |t.methods|
      ensures r == Scans.Scan(t, store, t.methods[i], probe, exact)
    {
      hide ScanSuffix, Key, Scans.ProbeFits;
      if !Scans.ProbeFits(t, t.methods[i], probe) {
        return None;
      }
      var suffixes := ScanSuffix(store, Key(t.ns, t.methods[i].slot, probe));
      var kl := t.schema.keyLen;
      var out := KeyTails(suffixes, t.schema.keyLen, exact);
      return Some(out);
    }

    /** Add one operation to the batch, committing it when it is full. */
    method Push(batch: seq<Op>, op: Op, chunk: nat) returns (next: seq<Op>)
      modifies this
      ensures Replay(store, next) == Replay(old(store), batch + [op])
    {
      next := batch + [op];
      if |next| >= if chunk > 1 then chunk else 1 {
        Commit(next);
        next := [];
      }
    }

    /** Delete every key of the declared slots, a chunk at a time. */
    method SweepFaces(chunk: nat) returns (batch: seq<Op>)
      modifies this
      ensures Replay(store, batch) == Replay(old(store), Rebuild.SweepOps(t, old(store), t.methods))
    {
      hide Replay, ScanSuffix, Key;
      var snapshot := store;
      batch := [];
      for i := 0 to |t.methods|
        invariant Replay(store, batch) == Replay(snapshot, Rebuild.SweepOps(t, snapshot, t.methods[..i]))
      {
        var prefix := Key(t.ns, t.methods[i].slot, []);
        var suffixes := ScanSuffix(snapshot, prefix);
        ghost var before := Rebuild.SweepOps(t, snapshot, t.methods[..i]);
        assert before + [] == before;
        for k := 0 to |suffixes|
          invariant Replay(store, batch) == Replay(snapshot, before + Rebuild.DelAll(prefix, suffixes[..k]))
        {
          assert suffixes[..k + 1][..k] == suffixes[..k];
          var op: Op := (prefix + suffixes[k], None);
          ghost var done := before + Rebuild.DelAll(prefix, suffixes[..k]);
          Snoc(store, batch, snapshot, done, op);
          assert done + [op] == before + Rebuild.DelAll(prefix, suffixes[..k + 1]);
          batch := Push(batch, op, chunk);
        }
        assert suffixes[..|suffixes|] == suffixes && t.methods[..i + 1][..i] == t.methods[..i];
      }
      assert t.methods[..|t.methods|] == t.methods;
    }

    /** Derive one slot's entries again, committing whenever a document has filled a chunk. Every document is fetched from
        the store as it is by then; `swept` is the store before the first entry, `before` what the pass before this one
        wrote. */
    method DeriveFaces(at: slot, onRow: bool, chunk: nat, pending: seq<Op>, ghost swept: Store,
        ghost before: seq<Entry>)
      returns (ok: bool, batch: seq<Op>, ghost entries: seq<Entry>)
      requires Rebuild.FacesApart(t) && at < 4096
      requires Replay(store, pending) == Replay(swept, Puts(before))
      requires Rebuild.SameBase(t, swept, store) && Under(t.ns, pending, MethodSlots(t))
      modifies this
      ensures ok == Rebuild.DerivedAll(t, swept, Rebuild.KeysIn(t, swept, at), onRow).Some?
      ensures ok ==> Rebuild.DerivedAll(t, swept, Rebuild.KeysIn(t, swept, at), onRow) == Some(entries)
                     && Replay(store, batch) == Replay(swept, Puts(before + entries))
                     && Rebuild.SameBase(t, swept, store) && Under(t.ns, batch, MethodSlots(t))
    {
      hide Replay, ScanSuffix, Key, Rebuild.Derived, Puts, Under, MethodSlots, Rebuild.SameBase, Rebuild.FacesApart;
      var pkeys := Rebuild.KeysIn(t, store, at);
      Rebuild.KeysStay(t, swept, store, at);
      batch, entries := pending, [];
      assert before + [] == before;
      for i := 0 to |pkeys|
        invariant Rebuild.DerivedAll(t, swept, pkeys[..i], onRow) == Some(entries)
        invariant Replay(store, batch) == Replay(swept, Puts(before + entries))
        invariant Rebuild.SameBase(t, swept, store) && Under(t.ns, batch, MethodSlots(t))
      {
        assert pkeys[..i + 1][..i] == pkeys[..i] && pkeys[..i + 1][i] == pkeys[i];
        Rebuild.DerivedStays(t, swept, store, pkeys[i], onRow);
        var derived := Rebuild.Derived(t, store, pkeys[i], onRow);
        if derived.None? {
          Rebuild.FailsLater(t, swept, pkeys, i + 1, onRow);
          assert pkeys[..|pkeys|] == pkeys;
          return false, batch, entries;
        }
        Rebuild.DerivedUnder(t, store, pkeys[i], onRow);
        var writes := WritesOf(derived.value);
        JoinWrites(t, store, batch, swept, before + entries, derived.value);
        assert before + entries + derived.value == before + (entries + derived.value);
        entries := entries + derived.value;
        batch := batch + writes;
        if |batch| >= if chunk > 1 then chunk else 1 {
          CommittedBase(t, swept, store, batch);
          Commit(batch);
          batch := [];
        }
      }
      assert pkeys[..|pkeys|] == pkeys;
      return true, batch, entries;
    }

    /** Rebuild every face: sweep, then derive from rows and from segments, in chunks of any size. */
    method RebuildFaces(chunk: nat) returns (ok: bool)
      requires Rebuild.FacesApart(t)
      modifies this
      ensures ok == Rebuild.RebuildFaces(t, old(store)).Some?
      ensures ok ==> store == Rebuild.RebuildFaces(t, old(store)).value
    {
      hide Replay, Rebuild.DerivedAll, Rebuild.SweepOps, Rebuild.KeysIn, Puts, Rebuild.FacesApart, MethodSlots;
      var sweeps := SweepFaces(chunk);
      Commit(sweeps);
      ghost var swept := store;
      ghost var nothing: seq<Entry> := [];
      NothingYet(swept);
      var rowsOk, batch, a := DeriveFaces(PRIMARY, true, chunk, [], swept, nothing);
      if !rowsOk {
        return false;
      }
      assert nothing + a == a;
      var segsOk, rest, b := DeriveFaces(DYNAMIC, false, chunk, batch, swept, a);
      if !segsOk {
        return false;
      }
      Commit(rest);
      return true;
    }

    /** The keys of all documents in key order: rows merged with the segments that have no row. */
    method ScanDocumentKeys() returns (out: seq<bytes>)
      ensures out == Sorted(Suffixes(store, Key(t.ns, PRIMARY, [])) + Suffixes(store, Key(t.ns, DYNAMIC, [])))
    {
      hide Less, Sorted, Suffixes, Key, Ascending;
      ghost var (rs, ss) := (Suffixes(store, Key(t.ns, PRIMARY, [])), Suffixes(store, Key(t.ns, DYNAMIC, [])));
      var rows, segs := ScanSuffix(store, Key(t.ns, PRIMARY, [])), ScanSuffix(store, Key(t.ns, DYNAMIC, []));
      SortedIsComplete(rs);
      SortedIsComplete(ss);
      out := [];
      var i, j := 0, 0;
      NothingAscends();
      while i < |rows| || j < |segs|
        invariant i <= |rows| && j <= |segs|
        invariant Ascending(out) && Elements(out) == Elements(rows[..i]) + Elements(segs[..j])
        invariant i < |rows| ==> AllLess(out, rows[i])
        invariant j < |segs| ==> AllLess(out, segs[j])
        decreases |rows| - i + |segs| - j
      {
        if i < |rows| && j < |segs| { LessIsTotal(rows[i], segs[j]); }
        var takeRow := i < |rows| && (j >= |segs| || rows[i] == segs[j] || Less(rows[i], segs[j]));
        var x := if takeRow then rows[i] else segs[j];
        ghost var (was, i0, j0) := (out, i, j);
        if takeRow {
          if j < |segs| && segs[j] == rows[i] {
            TakeOne(segs, j);
            j := j + 1;
          }
          TakeOne(rows, i);
          i := i + 1;
        } else {
          TakeOne(segs, j);
          j := j + 1;
        }
        out := out + [x];
        ElementsSnoc(was, x);
        AscendingSnoc(was, x);
        if i < |rows| { NextIsLess(was, x, rows, i0, i); }
        if j < |segs| { NextIsLess(was, x, segs, j0, j); }
      }
      assert rows[..|rows|] == rows && segs[..|segs|] == segs;
      AscendingIsSorted(out);
    }
  }

  lemma {:induction false} JoinWrites(t: Table, store: Store, batch: seq<Op>, swept: Store, done: seq<Entry>,
      more: seq<Entry>)
    requires Replay(store, batch) == Replay(swept, Puts(done))
    requires Under(t.ns, batch, MethodSlots(t)) && Under(t.ns, Puts(more), MethodSlots(t))
    ensures Replay(store, batch + Puts(more)) == Replay(swept, Puts(done + more))
    ensures Under(t.ns, batch + Puts(more), MethodSlots(t))
  {
    hide Replay, Puts, Under, MethodSlots;
    ReplayJoin(store, batch, Puts(more));
    ReplayJoin(swept, Puts(done), Puts(more));
    Rebuild.PutsJoin(done, more);
    UnderJoins(t.ns, batch, Puts(more), MethodSlots(t));
  }

  /** Committing face entries leaves everything else, and nothing to commit. */
  lemma CommittedBase(t: Table, swept: Store, store: Store, batch: seq<Op>)
    requires Rebuild.SameBase(t, swept, store) && Under(t.ns, batch, MethodSlots(t))
    ensures Rebuild.SameBase(t, swept, Replay(store, batch)) && Under(t.ns, [], MethodSlots(t))
    ensures Replay(Replay(store, batch), []) == Replay(store, batch)
  {
    Rebuild.SameBaseAfter(t, store, batch);
    Rebuild.SameBaseJoins(t, swept, store, Replay(store, batch));
    NothingReplays(Replay(store, batch));
  }

  lemma NothingYet(store: Store)
    ensures Replay(store, []) == Replay(store, Puts([]))
  {}

  lemma Snoc(store: Store, batch: seq<Op>, snapshot: Store, done: seq<Op>, op: Op)
    requires Replay(store, batch) == Replay(snapshot, done)
    ensures Replay(store, batch + [op]) == Replay(snapshot, done + [op])
  {
    assert (batch + [op])[..|batch|] == batch && (done + [op])[..|done|] == done;
  }

  predicate AllLess(xs: seq<bytes>, y: bytes) { forall x :: x in xs ==> Less(x, y) }

  lemma NothingAscends()
    ensures Ascending([]) && Elements([]) == {}
  {}

  lemma TakeOne(xs: seq<bytes>, i: nat)
    requires i < |xs|
    ensures Elements(xs[..i + 1]) == Elements(xs[..i]) + {xs[i]}
  {
    assert xs[..i + 1] == xs[..i] + [xs[i]];
  }

  lemma ElementsSnoc(xs: seq<bytes>, x: bytes)
    ensures Elements(xs + [x]) == Elements(xs) + {x}
  {}

  lemma AscendingSnoc(xs: seq<bytes>, x: bytes)
    requires Ascending(xs) && AllLess(xs, x)
    ensures Ascending(xs + [x])
  {
    hide Less;
  }

  /** The next element of an ascending list is above all that is out: either the list has moved past `x`, or it has
      not moved and stands above `x`. */
  lemma NextIsLess(out: seq<bytes>, x: bytes, xs: seq<bytes>, i0: nat, i: nat)
    requires i0 <= i < |xs| && i <= i0 + 1 && Ascending(xs) && AllLess(out, xs[i0])
    requires if i == i0 then Less(x, xs[i]) else x == xs[i0]
    ensures AllLess(out + [x], xs[i])
  {
    hide Less;
    if i > i0 {
      assert Less(xs[i0], xs[i]);
      forall y | y in out ensures Less(y, xs[i]) { LessIsTransitive(y, xs[i0], xs[i]); }
    }
  }
}
