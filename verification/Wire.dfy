/** The prefix-monotone variable-length integer: frame lengths, and the lengths inside node references. */
module Wire {
  import opened Bytes

  /** How many bytes `v` takes: seven bits of value per byte, up to eight bytes, then nine. */
  function WidthFrom(v: u64, w: nat): (r: nat)
    requires 1 <= w <= 9
    ensures w <= r <= 9
    decreases 9 - w
  {
    if w == 9 || v < CapacityOf(w) then w else WidthFrom(v, w + 1)
  }

  function CapacityOf(w: nat): nat
    requires 1 <= w <= 8
  {
    [0x80, 0x4000, 0x20_0000, 0x1000_0000, 0x8_0000_0000, 0x400_0000_0000, 0x2_0000_0000_0000, 0x100_0000_0000_0000][w - 1]
  }

  /** The first byte of a `w` byte image before value bits: `w - 1` ones. */
  function Prefix(w: nat): byte
    requires 1 <= w <= 9
  {
    [0, 0x80, 0xC0, 0xE0, 0xF0, 0xF8, 0xFC, 0xFE, 0xFF][w - 1]
  }

  function PrefixWidth(first: byte): (w: nat)
    ensures 1 <= w <= 9 && Prefix(w) <= first && (w < 9 ==> first < Prefix(w + 1))
  {
    if first < 0x80 then 1 else if first < 0xC0 then 2 else if first < 0xE0 then 3 else if first < 0xF0 then 4
    else if first < 0xF8 then 5 else if first < 0xFC then 6 else if first < 0xFE then 7 else if first < 0xFF then 8 else 9
  }

  function PutLen(v: u64): (s: bytes)
    ensures s != []
  {
    var w := WidthFrom(v, 1);
    if w == 9 then [0xFF] + BE(v, 8)
    else
      HighFits(v, w);
      [Prefix(w) + v / Pow256(w - 1)] + BE(v % Pow256(w - 1), w - 1)
  }

  /** The length at the front of `s` and the bytes it took. */
  function TakeLen(s: bytes): (r: Option<(u64, nat)>)
    ensures r.Some? ==> 1 <= r.value.1 <= |s|
  {
    if s == [] then None
    else
      var w := PrefixWidth(s[0]);
      if |s| < w then None
      else if w == 9 then Some((U64At(s, 1), 9))
      else
        Pow256Small();
        Some(((s[0] - Prefix(w)) * Pow256(w - 1) + FromBE(s[1..w]), w))
  }

  lemma Pow256Small()
    ensures Pow256(0) == 1 && Pow256(1) == 0x100 && Pow256(2) == 0x1_0000 && Pow256(3) == 0x100_0000
    ensures Pow256(4) == 0x1_0000_0000 && Pow256(5) == 0x100_0000_0000 && Pow256(6) == 0x1_0000_0000_0000
    ensures Pow256(7) == 0x100_0000_0000_0000 && Pow256(8) == U64_END
  {
    assert Pow256(3) == 256 * Pow256(2) && Pow256(2) == 256 * Pow256(1);
    Pow256Values();
    assert Pow256(7) == 256 * Pow256(6) && Pow256(6) == 256 * Pow256(5) && Pow256(5) == 256 * Pow256(4);
  }

  lemma {:induction false} WidthHolds(v: u64, w: nat)
    requires 1 <= w <= 9 && (w > 1 ==> v >= CapacityOf(w - 1))
    ensures var r := WidthFrom(v, w); (r < 9 ==> v < CapacityOf(r)) && (r > 1 ==> v >= CapacityOf(r - 1))
    decreases 9 - w
  {
    if w < 9 && v >= CapacityOf(w) { WidthHolds(v, w + 1); }
  }

  lemma {:induction false} HighFits(v: u64, w: nat)
    requires 1 <= w <= 8 && w == WidthFrom(v, 1)
    ensures 0 <= Prefix(w) + v / Pow256(w - 1) < Prefix(w + 1)
    ensures v == v / Pow256(w - 1) * Pow256(w - 1) + v % Pow256(w - 1) && 0 <= v % Pow256(w - 1) < Pow256(w - 1)
  {
    WidthHolds(v, 1);
    Pow256Small();
    hide WidthFrom, Pow256;
    if w == 1 {} else if w == 2 {} else if w == 3 {} else if w == 4 {} else if w == 5 {} else if w == 6 {} else if w == 7 {} else {}
  }

  /** A length reads back, whatever follows it. */
  lemma {:induction false} TakePut(v: u64, rest: bytes)
    ensures TakeLen(PutLen(v) + rest) == Some((v, |PutLen(v)|))
  {
    hide BE, FromBE, Pow256, WidthFrom;
    var w := WidthFrom(v, 1);
    var s := PutLen(v) + rest;
    if w == 9 {
      FixedRoundTrips();
      assert s[1..9] == BE(v, 8);
    } else {
      HighFits(v, w);
      Pow256Small();
      assert PrefixWidth(s[0]) == w;
      assert s[1..w] == BE(v % Pow256(w - 1), w - 1);
      FromBEOfBE(v % Pow256(w - 1), w - 1);
    }
  }
}
