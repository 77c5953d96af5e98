/** Which values of a document a path addresses, told by the places they stand at. */
module PathReach {
  import opened Bytes
  import opened Value
  import opened Path

  /** One step down: to a field of an object, or to an element of an array. */
  datatype Step = Into(name: bytes) | Nth(i: nat)

  type Place = seq<Step>

  function ValueAt(v: Value, place: Place): Option<Value>
    decreases |place|
  {
    if place == [] then Some(v)
    else
      match (place[0], v)
      case (Into(name), Obj(fields)) => if name in fields then ValueAt(fields[name], place[1..]) else None
      case (Nth(i), Array(items)) => if i < |items| then ValueAt(items[i], place[1..]) else None
      case _ => None
  }

  predicate Scalar(v: Value) { !v.Obj? && !v.Array? }

  function NameIn(c: Component): Option<bytes> {
    match c case Field(name) => Some(name) case Literal(key) => Some(key) case Index(_) => None
  }

  /** The path matches the place: fields are entered by name, a position pins an element, and where the path does not name
      a position every element will do. */
  predicate Matches(p: Path, place: Place)
    decreases |place|
  {
    if place == [] then p == []
    else
      match place[0]
      case Into(name) => p != [] && NameIn(p[0]) == Some(name) && Matches(p[1..], place[1..])
      case Nth(i) => if p != [] && p[0].Index? then p[0].i == i && Matches(p[1..], place[1..]) else Matches(p, place[1..])
  }

  lemma {:induction false} LeavesAreWalk(v: Value)
    ensures Leaves(v) == Walk(v, [])
  {}

  lemma {:induction false} InLeavesOfAll(items: seq<Value>, x: Value)
    ensures x in LeavesOfAll(items) <==> exists i :: 0 <= i < |items| && x in Leaves(items[i])
    decreases items
  {
    hide Leaves;
    if items != [] {
      InLeavesOfAll(items[1..], x);
      assert forall i :: 0 < i < |items| ==> items[i] == items[1..][i - 1];
      assert forall i :: 0 <= i < |items[1..]| ==> items[1..][i] == items[i + 1];
    }
  }

  lemma {:induction false} InWalkAll(items: seq<Value>, p: Path, x: Value)
    ensures x in WalkAll(items, p) <==> exists i :: 0 <= i < |items| && x in Walk(items[i], p)
    decreases items
  {
    hide Walk;
    if items != [] {
      InWalkAll(items[1..], p, x);
      assert forall i :: 0 < i < |items| ==> items[i] == items[1..][i - 1];
      assert forall i :: 0 <= i < |items[1..]| ==> items[1..][i] == items[i + 1];
    }
  }

  lemma {:induction false} ElementsWalk(items: seq<Value>, p: Path, x: Value)
    requires p == [] || !p[0].Index?
    ensures x in Walk(Array(items), p) <==> exists i :: 0 <= i < |items| && x in Walk(items[i], p)
  {
    if p == [] {
      InLeavesOfAll(items, x);
      forall i | 0 <= i < |items| ensures Leaves(items[i]) == Walk(items[i], p) { LeavesAreWalk(items[i]); }
      assert Walk(Array(items), p) == LeavesOfAll(items);
    } else {
      InWalkAll(items, p, x);
    }
  }

  /** Whatever a path finds stands at a place it matches. */
  lemma {:induction false} FoundAt(v: Value, p: Path, x: Value) returns (place: Place)
    requires x in Walk(v, p)
    ensures ValueAt(v, place) == Some(x) && Scalar(x) && Matches(p, place)
    decreases v
  {
    match v {
      case Obj(fields) =>
        var name := NameIn(p[0]).value;
        var rest := FoundAt(fields[name], p[1..], x);
        place := [Into(name)] + rest;
        assert place[1..] == rest;
      case Array(items) =>
        if p != [] && p[0].Index? {
          var rest := FoundAt(items[p[0].i], p[1..], x);
          place := [Nth(p[0].i)] + rest;
          assert place[1..] == rest;
        } else {
          ElementsWalk(items, p, x);
          var i :| 0 <= i < |items| && x in Walk(items[i], p);
          var rest := FoundAt(items[i], p, x);
          place := [Nth(i)] + rest;
          assert place[1..] == rest;
        }
      case _ => place := [];
    }
  }

  /** Whatever stands at a place the path matches is found. */
  lemma {:induction false} IsFound(v: Value, p: Path, place: Place, x: Value)
    requires ValueAt(v, place) == Some(x) && Scalar(x) && Matches(p, place)
    ensures x in Walk(v, p)
    decreases |place|
  {
    hide WalkAll, LeavesOfAll;
    if place != [] {
      match (place[0], v)
      case (Into(name), Obj(fields)) => IsFound(fields[name], p[1..], place[1..], x);
      case (Nth(i), Array(items)) =>
        if p != [] && p[0].Index? {
          IsFound(items[i], p[1..], place[1..], x);
        } else {
          IsFound(items[i], p, place[1..], x);
          ElementsWalk(items, p, x);
        }
    }
  }

  /** A path addresses exactly the scalars that stand at the places it matches. */
  lemma {:induction false} PathAddresses(document: ValueMap, p: Path, x: Value)
    ensures x in ResolvePath(document, p)
       <==> exists place :: ValueAt(Obj(document), place) == Some(x) && Scalar(x) && Matches(p, place)
  {
    hide Walk, ValueAt, Matches;
    if x in ResolvePath(document, p) {
      var place := FoundAt(Obj(document), p, x);
    }
    if place :| ValueAt(Obj(document), place) == Some(x) && Scalar(x) && Matches(p, place) {
      IsFound(Obj(document), p, place, x);
    }
  }
}
