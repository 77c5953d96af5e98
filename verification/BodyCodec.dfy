/** The encoder and decoder loops of a record body, working on the dictionary object. */
module BodyCodec {
  import opened Bytes
  import opened Foreign
  import Body
  import Dict
  import Varint
  import Dictionary

  function StateOf(dict: Dictionary.Dictionary?): Option<Dict.State>
    reads dict
  {
    if dict == null then None else Some(dict.Now())
  }

  ghost function Owned(dict: Dictionary.Dictionary?): set<object> {
    if dict == null then {} else {dict}
  }

  /** The body's bytes, or nothing where the encoder would panic on a code wider than eight bytes. */
  method EncodeWith(lib: Library, c: Dict.Config, items: Body.Body, dict: Dictionary.Dictionary?)
      returns (r: Option<bytes>)
    requires Body.Ready(StateOf(dict))
    requires dict != null ==> dict.lib == lib && dict.config == c
    modifies dict
    ensures (r, StateOf(dict)) == Body.Encode(lib, c, old(StateOf(dict)), items)
  {
    hide Body.EncodeItem;
    var out: bytes := [];
    ghost var goal := Body.Encode(lib, c, StateOf(dict), items);
    assert items[0..] == items;
    assert goal.0.Some? ==> [] + goal.0.value == goal.0.value;
    for i := 0 to |items|
      invariant Body.Ready(StateOf(dict))
      invariant Resumes(goal, out, Body.Encode(lib, c, StateOf(dict), items[i..]))
    {
      assert items[i..][0] == items[i] && items[i..][1..] == items[i + 1..];
      ghost var before := out;
      var image := EncodeItem(lib, c, items[i], dict);
      if image.None? {
        return None;
      }
      out := out + image.value;
      ghost var rest := Body.Encode(lib, c, StateOf(dict), items[i + 1..]).0;
      assert rest.Some? ==> before + (image.value + rest.value) == out + rest.value;
    }
    assert out + [] == out;
    return Some(out);
  }

  /** What is already out, followed by what is still to come, is the whole. */
  ghost predicate Resumes(goal: (Option<bytes>, Option<Dict.State>), out: bytes,
      rest: (Option<bytes>, Option<Dict.State>)) {
    goal.1 == rest.1 && goal.0 == if rest.0.Some? then Some(out + rest.0.value) else None
  }

  method EncodeItem(lib: Library, c: Dict.Config, item: Body.Item, dict: Dictionary.Dictionary?)
      returns (r: Option<bytes>)
    requires Body.Ready(StateOf(dict))
    requires dict != null ==> dict.lib == lib && dict.config == c
    modifies dict
    ensures (r, StateOf(dict)) == Body.EncodeItem(lib, c, old(StateOf(dict)), item)
  {
    hide Dict.AfterSettle;
    var out := Varint.PutVarint([], item.0);
    assert out == Varint.Put(item.0);
    match item.1 {
      case Str(text) =>
        if dict != null {
          var settled := dict.Settle(text);
          if settled.Some? {
            var (code, id) := settled.value;
            var width := if Dict.WidthOf(dict.blocks, code).Some? then Dict.WidthOf(dict.blocks, code).value else 4;
            if width > 8 {
              return None;
            }
            return Some(out + ([code] + BE(id, width)));
          }
        }
        return Some(out + ([Body.KIND_STR] + (Varint.Put(|text|) + text)));
      case _ =>
        return Some(out + ([Body.Kind(item.1)] + Body.Payload(item.1)));
    }
  }

  method DecodeWith(s: bytes, blocks: Option<seq<Dict.Block>>) returns (r: Option<Body.Body>)
    ensures r == Body.Decode(s, blocks)
  {
    hide Body.DecodeItem;
    var items: Body.Body := [];
    var pos := 0;
    ghost var all := Body.Decode(s, blocks);
    assert all.Some? ==> [] + all.value == all.value;
    while pos < |s|
      invariant Body.Decode(s, blocks)
             == var rest := Body.DecodeFrom(s, pos, blocks); if rest.Some? then Some(items + rest.value) else None
      decreases |s| - pos
    {
      var next := Body.DecodeItem(s, pos, blocks);
      if next.None? {
        return None;
      }
      ghost var before, rest := items, Body.DecodeFrom(s, next.value.1, blocks);
      items := items + [next.value.0];
      assert rest.Some? ==> before + ([next.value.0] + rest.value) == items + rest.value;
      pos := next.value.1;
    }
    assert items + [] == items;
    return Some(items);
  }
}
