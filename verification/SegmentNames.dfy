/** When a dynamic segment can be encoded: when the names in it still find ids. */
module SegmentNames {
  import opened Bytes
  import opened Order
  import opened Value
  import opened Segment

  /** The field names of a value, those of nested objects included. */
  function NamesIn(value: Value): set<bytes>
    decreases value, 2, 0
  {
    match value
    case Obj(fields) => NamesUnder(value, Sorted(fields.Keys))
    case Array(items) => NamesAmong(value, items)
    case _ => {}
  }

  function NamesUnder(obj: Value, names: seq<bytes>): set<bytes>
    requires obj.Obj?
    decreases obj, 1, |names|
  {
    if names == [] then {}
    else (if names[0] in obj.fields then {names[0]} + NamesIn(obj.fields[names[0]]) else {}) + NamesUnder(obj, names[1..])
  }

  function NamesAmong(list: Value, items: seq<Value>): set<bytes>
    requires list.Array? && |items| <= |list.items| && items == list.items[|list.items| - |items|..]
    decreases list, 1, |items|
  {
    if items == [] then {} else NamesIn(items[0]) + NamesAmong(list, items[1..])
  }

  /** A name is in an object when it is a field's, or in a field's value. */
  lemma {:induction false} NamesInObject(fields: map<bytes, Value>, name: bytes)
    ensures name in NamesIn(Obj(fields)) <==> name in fields || exists k :: k in fields && name in NamesIn(fields[k])
  {
    hide Sorted;
    SortedIsComplete(fields.Keys);
    UnderNames(Obj(fields), Sorted(fields.Keys), name);
    assert forall k :: k in fields <==> k in Sorted(fields.Keys);
  }

  lemma {:induction false} UnderNames(obj: Value, names: seq<bytes>, name: bytes)
    requires obj.Obj?
    ensures name in NamesUnder(obj, names)
       <==> exists k :: k in names && k in obj.fields && (name == k || name in NamesIn(obj.fields[k]))
    decreases |names|
  {
    hide NamesIn;
    if names != [] {
      UnderNames(obj, names[1..], name);
      assert names == [names[0]] + names[1..];
    }
  }

  /** A name is in an array when it is in an element. */
  lemma {:induction false} NamesInArray(items: seq<Value>, name: bytes)
    ensures name in NamesIn(Array(items)) <==> exists i :: 0 <= i < |items| && name in NamesIn(items[i])
  {
    assert items[|items| - |items|..] == items;
    AmongNames(Array(items), items, name);
  }

  lemma {:induction false} AmongNames(list: Value, items: seq<Value>, name: bytes)
    requires list.Array? && |items| <= |list.items| && items == list.items[|list.items| - |items|..]
    ensures name in NamesAmong(list, items) <==> exists i :: 0 <= i < |items| && name in NamesIn(items[i])
    decreases |items|
  {
    hide NamesIn;
    if items != [] {
      AmongNames(list, items[1..], name);
      assert forall i :: 0 < i < |items| ==> items[i] == items[1..][i - 1];
      assert forall i :: 0 <= i < |items[1..]| ==> items[1..][i] == items[i + 1];
    }
  }

  // --- Ids are used up one by one ---

  const MOST: nat := 65535

  lemma {:induction false} IdsAreCounted(v: Vocab)
    requires Bijective(v)
    ensures |v.byName.Keys| == v.next
    decreases v.next
  {
    if v.next == 0 {
      assert v.byName.Keys == {};
    } else {
      var last := v.next - 1;
      var name := v.byId[last];
      var fewer := Vocab(v.byName - {name}, v.byId - {last}, last, v.written);
      assert Bijective(fewer);
      IdsAreCounted(fewer);
      assert v.byName.Keys == fewer.byName.Keys + {name};
    }
  }

  lemma MoreNames(a: set<bytes>, b: set<bytes>)
    requires a <= b
    ensures |a| <= |b|
  {
    assert b == a + (b - a);
  }

  /** What encoding did to the names: all of `names` are there now, or they were too many. */
  ghost predicate Took(v: Vocab, v': Vocab, ok: bool, names: set<bytes>) {
    if ok then v'.byName.Keys == v.byName.Keys + names && |v'.byName.Keys| <= MOST else |v.byName.Keys + names| > MOST
  }

  lemma {:induction false} ResolveTakes(v: Vocab, name: bytes)
    requires Bijective(v)
    ensures var (id, v') := Resolve(v, name); Bijective(v') && Took(v, v', id.Some?, {name})
  {
    ResolveKeeps(v, name);
    IdsAreCounted(v);
    IdsAreCounted(Resolve(v, name).1);
    ResolveIs(v, name);
    hide Bijective, Grows, Accounted, Resolve;
    if name in v.byName { assert v.byName.Keys + {name} == v.byName.Keys; }
  }

  lemma ResolveIs(v: Vocab, name: bytes)
    ensures var (id, v') := Resolve(v, name);
      if name in v.byName then id.Some? && v' == v
      else if v.next == MOST then id.None?
      else id.Some? && v'.byName.Keys == v.byName.Keys + {name} && v'.next == v.next + 1
  {}

  lemma TookBoth(v: Vocab, v': Vocab, v'': Vocab, ok: bool, a: set<bytes>, b: set<bytes>)
    requires Took(v, v', true, a) && Took(v', v'', ok, b)
    ensures Took(v, v'', ok, a + b)
  {
    assert v.byName.Keys + a + b == v.byName.Keys + (a + b);
  }

  lemma TookTooMany(v: Vocab, v': Vocab, a: set<bytes>, b: set<bytes>)
    requires Took(v, v', false, a)
    ensures Took(v, v', false, a + b)
  {
    MoreNames(v.byName.Keys + a, v.byName.Keys + (a + b));
  }

  lemma TookNothing(v: Vocab)
    requires Bijective(v)
    ensures Took(v, v, true, {})
  {
    IdsAreCounted(v);
    assert v.byName.Keys + {} == v.byName.Keys;
  }

  lemma {:induction false} BodyTakes(value: Value, v: Vocab)
    requires Bijective(v)
    ensures var (body, v') := EncodeBody(value, v); Bijective(v') && Took(v, v', body.Some?, NamesIn(value))
    decreases value, 2, 0
  {
    hide Bijective, Took, Resolve, UIntBytes, IntBytes, Sorted;
    BodyKeeps(value, v);
    TookNothing(v);
    match value {
      case Obj(fields) => FieldsTake(value, Sorted(fields.Keys), v);
      case Array(items) => ItemsTake(value, items, v);
      case _ =>
    }
  }

  lemma {:induction false} FieldsTake(obj: Value, names: seq<bytes>, v: Vocab)
    requires Bijective(v) && obj.Obj?
    ensures var (body, v') := EncodeFields(obj, names, v); Bijective(v') && Took(v, v', body.Some?, NamesUnder(obj, names))
    decreases obj, 1, |names|
  {
    hide Bijective, Took, EncodeField, NamesIn;
    TookNothing(v);
    if names != [] {
      var rest := NamesUnder(obj, names[1..]);
      if names[0] !in obj.fields {
        FieldsTake(obj, names[1..], v);
        assert {} + rest == rest;
      } else {
        FieldTakes(obj, names[0], v);
        var (one, v') := EncodeField(obj, names[0], v);
        var first := {names[0]} + NamesIn(obj.fields[names[0]]);
        if one.Some? {
          FieldsTake(obj, names[1..], v');
          TookBoth(v, v', EncodeFields(obj, names[1..], v').1, EncodeFields(obj, names[1..], v').0.Some?, first, rest);
        } else {
          TookTooMany(v, v', first, rest);
        }
      }
    }
  }

  lemma {:induction false} FieldTakes(obj: Value, name: bytes, v: Vocab)
    requires Bijective(v) && obj.Obj? && name in obj.fields
    ensures var (body, v') := EncodeField(obj, name, v);
      Bijective(v') && Took(v, v', body.Some?, {name} + NamesIn(obj.fields[name]))
    decreases obj, 0, 0
  {
    hide Bijective, Took, Resolve, NamesIn, EncodeBody;
    ResolveTakes(v, name);
    var (id, v') := Resolve(v, name);
    var inner := NamesIn(obj.fields[name]);
    if id.Some? {
      BodyTakes(obj.fields[name], v');
      TookBoth(v, v', EncodeBody(obj.fields[name], v').1, EncodeBody(obj.fields[name], v').0.Some?, {name}, inner);
    } else {
      TookTooMany(v, v', {name}, inner);
    }
  }

  lemma {:induction false} ItemsTake(list: Value, items: seq<Value>, v: Vocab)
    requires list.Array? && |items| <= |list.items| && items == list.items[|list.items| - |items|..]
    requires Bijective(v)
    ensures var (body, v') := EncodeItems(list, items, v); Bijective(v') && Took(v, v', body.Some?, NamesAmong(list, items))
    decreases list, 1, |items|
  {
    hide Bijective, Took, NamesIn, EncodeBody;
    TookNothing(v);
    if items != [] {
      BodyTakes(items[0], v);
      var (one, v') := EncodeBody(items[0], v);
      var (first, rest) := (NamesIn(items[0]), NamesAmong(list, items[1..]));
      if one.Some? {
        ItemsTake(list, items[1..], v');
        TookBoth(v, v', EncodeItems(list, items[1..], v').1, EncodeItems(list, items[1..], v').0.Some?, first, rest);
      } else {
        TookTooMany(v, v', first, rest);
      }
    }
  }

  /** A segment can be encoded exactly when the names of the vocabulary and of the map, nested ones included, are at most
      65535 together. */
  lemma {:induction false} SegmentFits(m: ValueMap, v: Vocab)
    requires Bijective(v)
    ensures EncodeSegment(m, v).0.Some? <==> |v.byName.Keys + NamesIn(Obj(m))| <= MOST
  {
    hide EncodeBody, NamesIn, Bijective;
    BodyTakes(Obj(m), v);
  }
}
