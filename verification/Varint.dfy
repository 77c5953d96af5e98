/** Unsigned LEB128 (section 7.6 of DWARF Version 5) and its zigzag form for signed values. */
module Varint {
  import opened Bytes

  function Put(v: nat): (s: bytes)
    ensures |s| >= 1
    decreases v
  {
    if v < 128 then [v] else [128 + v % 128] + Put(v / 128)
  }

  function Times(a: nat, b: nat): nat { a * b }

  /** The loop of `get_varint` from one of its states: `scale` is two to the power of its shift. */
  function GetFrom(s: bytes, pos: nat, scale: nat, acc: u64): (r: Option<(u64, nat)>)
    ensures r.Some? ==> pos < r.value.1 <= |s|
    decreases |s| - pos
  {
    if pos >= |s| then None
    else if scale >= U64_END then None
    else
      var value := (acc + Times(s[pos] % 128, scale)) % U64_END;
      if s[pos] < 128 then Some((value, pos + 1))
      else GetFrom(s, pos + 1, scale * 128, value)
  }

  function Get(s: bytes, pos: nat): (r: Option<(u64, nat)>)
    ensures r.Some? ==> pos < r.value.1 <= |s|
  {
    GetFrom(s, pos, 1, 0)
  }

  method PutVarint(out: bytes, v: u64) returns (out': bytes)
    ensures out' == out + Put(v)
  {
    out' := out;
    var value: nat := v;
    while value >= 128
      invariant out' + Put(value) == out + Put(v)
    {
      out' := out' + [128 + value % 128];
      value := value / 128;
    }
    out' := out' + [value];
  }

  method GetVarint(s: bytes, pos: nat) returns (r: Option<(u64, nat)>)
    ensures r == Get(s, pos)
  {
    var at, value, scale := pos, 0, 1;
    while at < |s| && scale < U64_END
      invariant 0 <= value < U64_END && scale >= 1
      invariant Get(s, pos) == GetFrom(s, at, scale, value)
      decreases |s| - at
    {
      var b := s[at];
      value := (value + (b % 128) * scale) % U64_END;
      at := at + 1;
      if b < 128 {
        return Some((value, at));
      }
      scale := scale * 128;
    }
    return None;
  }

  lemma SplitScaled(v: nat, scale: nat)
    ensures Times(v, scale) == Times(v % 128, scale) + Times(v / 128, scale * 128)
    ensures v >= 128 ==> scale * 128 <= Times(v / 128, scale * 128)
    ensures v < 128 ==> Times(v % 128, scale) == Times(v, scale)
  {
    var q, r := v / 128, v % 128;
    assert v * scale == (128 * q + r) * scale == q * (scale * 128) + r * scale;
    if v >= 128 {
      assert (q - 1) * (scale * 128) >= 0;
    }
  }

  lemma {:induction false} GetFromPut(s: bytes, pos: nat, v: nat, scale: nat, acc: u64)
    requires pos + |Put(v)| <= |s| && s[pos..pos + |Put(v)|] == Put(v)
    requires 1 <= scale < U64_END && acc + Times(v, scale) < U64_END
    ensures GetFrom(s, pos, scale, acc) == Some((acc + Times(v, scale), pos + |Put(v)|))
    decreases v
  {
    hide Times;
    assert s[pos] == s[pos..pos + |Put(v)|][0] == Put(v)[0];
    SplitScaled(v, scale);
    if v >= 128 {
      var q := v / 128;
      assert s[pos + 1..pos + 1 + |Put(q)|] == s[pos..pos + |Put(v)|][1..] == Put(q);
      GetFromPut(s, pos + 1, q, scale * 128, acc + Times(v % 128, scale));
    }
  }

  /** Decoding inverts encoding wherever the encoding sits in a longer byte string. */
  lemma GetPut(s: bytes, pos: nat, v: u64)
    requires pos + |Put(v)| <= |s| && s[pos..pos + |Put(v)|] == Put(v)
    ensures Get(s, pos) == Some((v, pos + |Put(v)|))
  {
    GetFromPut(s, pos, v, 1, 0);
  }

  function Zigzag(v: i64): u64 {
    if v >= 0 then 2 * v else -2 * v - 1
  }

  function Unzigzag(raw: u64): i64 {
    if raw % 2 == 0 then raw / 2 else -(raw / 2) - 1
  }

  lemma ZigzagRoundTrip(v: i64)
    ensures Unzigzag(Zigzag(v)) == v
  {}
}
