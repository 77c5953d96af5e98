/** Byte strings, big-endian integers and the machine integer ranges the formats use. */
module Bytes {

  datatype Option<+T> = None | Some(value: T)

  datatype Result<+T, +E> = Ok(value: T) | Err(error: E)

  type byte = x: int | 0 <= x < 256
  type bytes = seq<byte>

  const U16_END: nat := 0x1_0000
  const U32_END: nat := 0x1_0000_0000
  const U64_END: nat := 0x1_0000_0000_0000_0000

  type u16 = x: int | 0 <= x < U16_END
  type u32 = x: int | 0 <= x < U32_END
  type u64 = x: int | 0 <= x < U64_END
  type i64 = x: int | -0x8000_0000_0000_0000 <= x < 0x8000_0000_0000_0000

  /** What is left of a length in a field of that width. */
  function Low32(n: nat): u32 { n % U32_END }

  function Low64(n: nat): u64 { n % U64_END }

  /** A byte string a 64-bit program can hold: its length is a `u64`. */
  type blob = s: seq<byte> | |s| < 0x1_0000_0000_0000_0000

  function Pow256(n: nat): (p: nat)
    ensures p >= 1
  {
    if n == 0 then 1 else 256 * Pow256(n - 1)
  }

  /** The low `w` bytes of `v`, most significant first. */
  function BE(v: nat, w: nat): (s: bytes)
    ensures |s| == w
    decreases w
  {
    if w == 0 then [] else BE(v / 256, w - 1) + [v % 256]
  }

  function FromBE(s: bytes): (v: nat)
    ensures v < Pow256(|s|)
    decreases |s|
  {
    if s == [] then 0 else 256 * FromBE(s[..|s| - 1]) + s[|s| - 1]
  }

  /** Reading back a big-endian image gives the value exactly when the width holds it. */
  lemma {:induction false} FromBEOfBE(v: nat, w: nat)
    ensures FromBE(BE(v, w)) == v <==> v < Pow256(w)
    decreases w
  {
    if w > 0 {
      assert BE(v, w)[..w - 1] == BE(v / 256, w - 1);
      FromBEOfBE(v / 256, w - 1);
    }
  }

  lemma {:induction false} BEOfFromBE(s: bytes)
    ensures BE(FromBE(s), |s|) == s
    decreases |s|
  {
    if s != [] {
      var front := s[..|s| - 1];
      BEOfFromBE(front);
      assert FromBE(s) / 256 == FromBE(front) && FromBE(s) % 256 == s[|s| - 1];
      assert s == front + [s[|s| - 1]];
    }
  }

  lemma Pow256Values()
    ensures Pow256(1) == 256 && Pow256(2) == U16_END && Pow256(4) == U32_END && Pow256(8) == U64_END
  {
    assert Pow256(4) == 256 * Pow256(3) && Pow256(3) == 256 * Pow256(2) && Pow256(2) == 256 * Pow256(1);
    assert Pow256(8) == 256 * Pow256(7) && Pow256(7) == 256 * Pow256(6) && Pow256(6) == 256 * Pow256(5);
    assert Pow256(5) == 256 * Pow256(4);
  }

  lemma FixedRoundTrips()
    ensures forall v: u16 {:trigger BE(v, 2)} :: FromBE(BE(v, 2)) == v
    ensures forall v: u32 {:trigger BE(v, 4)} :: FromBE(BE(v, 4)) == v
    ensures forall v: u64 {:trigger BE(v, 8)} :: FromBE(BE(v, 8)) == v
  {
    Pow256Values();
    forall v: u16 ensures FromBE(BE(v, 2)) == v { FromBEOfBE(v, 2); }
    forall v: u32 ensures FromBE(BE(v, 4)) == v { FromBEOfBE(v, 4); }
    forall v: u64 ensures FromBE(BE(v, 8)) == v { FromBEOfBE(v, 8); }
  }

  function U16At(s: bytes, i: nat): u16
    requires i + 2 <= |s|
  {
    Pow256Values();
    FromBE(s[i..i + 2])
  }

  function U32At(s: bytes, i: nat): u32
    requires i + 4 <= |s|
  {
    Pow256Values();
    FromBE(s[i..i + 4])
  }

  function U64At(s: bytes, i: nat): u64
    requires i + 8 <= |s|
  {
    Pow256Values();
    FromBE(s[i..i + 8])
  }

  /** Bytes written at `off`: what lies beyond them stays. */
  function WriteAt(file: bytes, off: nat, data: bytes): bytes
    requires off <= |file|
  {
    file[..off] + data + if off + |data| < |file| then file[off + |data|..] else []
  }
}
