/** The schema-free value tree of the dynamic side, and what storing it does to it. */
module Value {
  import opened Bytes

  type eight = s: bytes | |s| == 8 witness [0, 0, 0, 0, 0, 0, 0, 0]

  /** A name is its UTF-8 bytes, text too; a float is its eight bytes. */
  datatype Value =
    | U8(n8: byte) | U16(n16: u16) | U32(n32: u32) | U64(n64: u64) | I64(i: i64) | F64(image: eight) | Bool(b: bool) | Null
    | Blob(data: bytes) | Str(text: bytes) | Obj(fields: map<bytes, Value>) | Array(items: seq<Value>)

  type ValueMap = map<bytes, Value>

  // --- Minimal-width integers ---

  function Leading(s: bytes, fill: byte): (n: nat)
    ensures n <= |s| && forall k :: 0 <= k < n ==> s[k] == fill
    ensures n < |s| ==> s[n] != fill
  {
    if s == [] || s[0] != fill then 0 else 1 + Leading(s[1..], fill)
  }

  /** Where the kept bytes of an eight byte image start: at the first byte that is not fill, or at the last. */
  function FirstKept(s: eight, fill: byte): (n: nat)
    ensures n < 8
  {
    if Leading(s, fill) == 8 then 7 else Leading(s, fill)
  }

  function UIntBytes(v: u64): bytes {
    var s := BE(v, 8);
    s[FirstKept(s, 0)..]
  }

  /** Two's complement; a negative number keeps one sign byte, a positive one does not. */
  function IntBytes(i: i64): (s: bytes)
    ensures 1 <= |s| <= 8
  {
    var s := BE(if i < 0 then U64_END + i else i, 8);
    var first := FirstKept(s, if i < 0 then 255 else 0);
    s[if i < 0 && first > 0 then first - 1 else first..]
  }

  function Filled(fill: byte, n: nat): (s: bytes)
    ensures |s| == n && forall k :: 0 <= k < n ==> s[k] == fill
  {
    if n == 0 then [] else [fill] + Filled(fill, n - 1)
  }

  function ReadUInt(body: bytes): Option<u64> {
    if |body| > 8 then None
    else
      Pow256Values();
      Some(FromBE(Filled(0, 8 - |body|) + body))
  }

  function ReadInt(body: bytes): Option<i64> {
    if body == [] || |body| > 8 then None
    else
      Pow256Values();
      var u := FromBE(Filled(if body[0] >= 128 then 255 else 0, 8 - |body|) + body);
      Some(if u < 0x8000_0000_0000_0000 then u else u - U64_END)
  }

  lemma {:induction false} UIntReadsBack(v: u64)
    ensures ReadUInt(UIntBytes(v)) == Some(v)
  {
    hide Leading, FromBE, BE;
    FixedRoundTrips();
    var s := BE(v, 8);
    var n := FirstKept(s, 0);
    assert Filled(0, n) + s[n..] == s;
  }

  /** A negative number, or one outside the upper half of every width below eight bytes. */
  predicate SignKept(i: i64) { i < 0 || forall w | 1 <= w <= 7 :: i < 128 * Pow256(w - 1) || Pow256(w) <= i }

  lemma {:induction false} PowersGrow(a: nat, b: nat)
    requires a <= b
    ensures Pow256(a) <= Pow256(b)
  {
    if a < b { PowersGrow(a, b - 1); }
  }

  lemma {:induction false} FilledIsNothing(n: nat, body: bytes)
    ensures FromBE(Filled(0, n) + body) == FromBE(body)
    decreases |body|
  {
    var s := Filled(0, n) + body;
    if body == [] {
      ZeroBytes(n);
      assert s == BE(0, n);
      FromBEOfBE(0, n);
    } else {
      assert s[..|s| - 1] == Filled(0, n) + body[..|body| - 1];
      FilledIsNothing(n, body[..|body| - 1]);
    }
  }

  /** The first kept byte of a number that is not negative is its top digit to the base 256, and not zero unless the
      number is below 256. */
  lemma {:induction false} FirstByteIs(i: i64)
    requires i >= 0
    ensures var w := |IntBytes(i)|;
      && IntBytes(i)[0] == i / Pow256(w - 1) && i < Pow256(w) && (w > 1 ==> Pow256(w - 1) <= i)
  {
    var body := IntBytes(i);
    var w := |body|;
    KeptBytes(i);
    hide *;
    FixedRoundTrips();
    FilledIsNothing(8 - w, body);
    BEOfFromBE(body);
    ValueFits(body);
    TopOf(i, w);
    if w > 1 { NotBelow(i, Pow256(w - 1)); }
  }

  lemma KeptBytes(i: i64)
    requires i >= 0
    ensures var body := IntBytes(i); BE(i, 8) == Filled(0, 8 - |body|) + body && (|body| > 1 ==> body[0] != 0)
  {
    hide BE;
  }

  lemma ValueFits(body: bytes)
    requires body != []
    ensures FromBE(body) < Pow256(|body|) && Pow256(|body| - 1) > 0
  {}

  lemma NotBelow(i: nat, p: nat)
    requires p > 0 && i / p != 0
    ensures p <= i
  {}

  /** A number that is not negative keeps its sign exactly when its first kept byte has no sign bit. */
  lemma {:induction false} SignIsInFirstByte(i: i64)
    requires i >= 0
    ensures SignKept(i) <==> IntBytes(i)[0] < 128
  {
    hide IntBytes;
    FirstByteIs(i);
    var w := |IntBytes(i)|;
    AtLeast(i, 128, Pow256(w - 1));
    if IntBytes(i)[0] < 128 {
      forall k | 1 <= k <= 7 ensures i < 128 * Pow256(k - 1) || Pow256(k) <= i {
        if k < w { PowersGrow(k, w - 1); } else if k > w { PowersGrow(w, k - 1); }
      }
    } else {
      Pow256Values();
      assert Pow256(8) == 256 * Pow256(7);
      assert w <= 7;
    }
  }

  lemma AtLeast(i: nat, n: nat, p: nat)
    requires p > 0
    ensures i / p >= n <==> i >= n * p
  {
    assert i == i / p * p + i % p;
    if i / p >= n {
      assert i / p * p >= n * p by { assert (i / p - n) * p >= 0; }
    } else {
      assert (i / p + 1) * p <= n * p by { assert (n - i / p - 1) * p >= 0; }
    }
  }

  lemma {:induction false} NegativeReadsBack(i: i64)
    requires i < 0
    ensures ReadInt(IntBytes(i)) == Some(i)
  {
    KeptNegative(i);
    hide FromBE, BE, IntBytes;
    FixedRoundTrips();
  }

  lemma {:induction false} KeptNegative(i: i64)
    requires i < 0
    ensures var body := IntBytes(i); body[0] >= 128 && Filled(255, 8 - |body|) + body == BE(U64_END + i, 8)
  {
    TopByte(U64_END + i);
    hide BE;
    var (s, body) := (BE(U64_END + i, 8), IntBytes(i));
    var start := 8 - |body|;
    assert body == s[start..];
    assert forall k :: 0 <= k < start ==> s[k] == 255;
    assert s[..start] == Filled(255, start);
  }

  lemma {:induction false} SignReadsBack(i: i64)
    requires i >= 0 && IntBytes(i)[0] < 128
    ensures ReadInt(IntBytes(i)) == Some(i)
  {
    KeptBytes(i);
    hide FromBE, BE, IntBytes;
    FixedRoundTrips();
  }

  lemma {:induction false} SignIsGained(body: bytes)
    requires 1 <= |body| <= 8 && body[0] >= 128
    ensures ReadInt(body).Some? && ReadInt(body).value < 0
  {
    hide FromBE;
    var t := Filled(255, 8 - |body|) + body;
    assert t[0] >= 128;
    NegativeTop(t);
  }

  /** A stored integer reads back as itself exactly when it is negative or in the upper half of no width below eight
      bytes: `128 * 256^(w-1) <= i < 256^w` fails for every `w` from 1 to 7. */
  lemma {:induction false} IntReadsBack(i: i64)
    ensures ReadInt(IntBytes(i)).Some?
    ensures ReadInt(IntBytes(i)) == Some(i) <==> SignKept(i)
  {
    hide ReadInt, IntBytes;
    if i < 0 {
      NegativeReadsBack(i);
    } else {
      hide SignKept;
      SignIsInFirstByte(i);
      if IntBytes(i)[0] < 128 { SignReadsBack(i); } else { SignIsGained(IntBytes(i)); }
    }
  }

  lemma TopByte(u: u64)
    ensures BE(u, 8)[0] >= 128 <==> u >= 0x8000_0000_0000_0000
  {
    Pow256Values();
    TopOf(u, 8);
    assert Pow256(7) == 0x100_0000_0000_0000 by { assert Pow256(8) == 256 * Pow256(7); }
  }

  lemma {:induction false} TopOf(u: nat, w: nat)
    requires w > 0 && u < Pow256(w)
    ensures BE(u, w)[0] == u / Pow256(w - 1)
    decreases w
  {
    if w > 1 {
      DivideTwice(u, Pow256(w - 2));
      TopOf(u / 256, w - 1);
    }
  }

  lemma DivideTwice(u: nat, p: nat)
    requires p > 0
    ensures u / (256 * p) == u / 256 / p && (u < 256 * (256 * p) ==> u / 256 < 256 * p)
  {
    var q := u / 256 / p;
    assert u / 256 == q * p + u / 256 % p;
    assert u == 256 * (u / 256) + u % 256;
    var r := 256 * (u / 256 % p) + u % 256;
    assert u == q * (256 * p) + r;
    assert 0 <= r < 256 * p by { assert u / 256 % p <= p - 1; }
    QuotientIs(u, 256 * p, q, r);
  }

  lemma QuotientIs(u: nat, d: nat, q: nat, r: nat)
    requires d > 0 && u == q * d + r && r < d
    ensures u / d == q
  {
    assert u == u / d * d + u % d;
    assert (u / d - q) * d == r - u % d;
    IsZero(u / d - q, d);
  }

  lemma IsZero(k: int, d: int)
    requires -d < k * d && k * d < d
    ensures k == 0
  {}

  lemma NegativeTop(t: bytes)
    requires |t| == 8 && t[0] >= 128
    ensures FromBE(t) >= 0x8000_0000_0000_0000
  {
    Pow256Values();
    BEOfFromBE(t);
    TopByte(FromBE(t));
  }

  /** A positive number may read back negative: 128 comes back as -128. */
  lemma {:induction false} SomeIntsDoNotReadBack()
    ensures ReadInt(IntBytes(128)) == Some(-128)
  {
    var s := BE(128, 8);
    assert s == [0, 0, 0, 0, 0, 0, 0, 128] by {
      assert BE(128, 8) == BE(0, 7) + [128];
      ZeroBytes(7);
      assert Filled(0, 7) == [0, 0, 0, 0, 0, 0, 0];
    }
    assert Leading(s, 0) == 7 by {
      assert s[Leading(s, 0)..] != [] ==> s[Leading(s, 0)] != 0;
    }
    var body := IntBytes(128);
    assert body == [128];
    var t := Filled(255, 7) + body;
    TwoBytes(t);
  }

  lemma {:induction false} ZeroBytes(w: nat)
    ensures BE(0, w) == Filled(0, w)
  {
    if w > 0 {
      ZeroBytes(w - 1);
      assert BE(0, w) == Filled(0, w - 1) + [0];
    }
  }

  lemma {:induction false} TwoBytes(t: bytes)
    requires |t| == 8 && t[7] == 128 && forall k :: 0 <= k < 7 ==> t[k] == 255
    ensures FromBE(t) == U64_END - 128
  {
    AllOnes(t[..7]);
    Pow256Values();
    assert Pow256(8) == 256 * Pow256(7);
  }

  lemma {:induction false} AllOnes(t: bytes)
    requires forall k :: 0 <= k < |t| ==> t[k] == 255
    ensures FromBE(t) == Pow256(|t|) - 1
    decreases |t|
  {
    if t != [] { AllOnes(t[..|t| - 1]); }
  }

  // --- What a stored tree reads back as ---

  /** Unsigned kinds collapse to the widest; a signed number loses its sign byte when it is positive. */
  function ReadBack(v: Value): Value {
    match v
    case U8(n) => U64(n)
    case U16(n) => U64(n)
    case U32(n) => U64(n)
    case I64(i) => if ReadInt(IntBytes(i)).Some? then I64(ReadInt(IntBytes(i)).value) else v
    case Obj(fields) => Obj(map k | k in fields :: ReadBack(fields[k]))
    case Array(items) => Array(seq(|items|, i requires 0 <= i < |items| => ReadBack(items[i])))
    case _ => v
  }

  function ReadBackMap(m: ValueMap): ValueMap { map k | k in m :: ReadBack(m[k]) }

  /** Only the unsigned kinds were meant to change. */
  function Collapse(v: Value): Value {
    match v
    case U8(n) => U64(n)
    case U16(n) => U64(n)
    case U32(n) => U64(n)
    case Obj(fields) => Obj(map k | k in fields :: Collapse(fields[k]))
    case Array(items) => Array(seq(|items|, i requires 0 <= i < |items| => Collapse(items[i])))
    case _ => v
  }

  predicate SignsKept(v: Value) {
    match v
    case I64(i) => SignKept(i)
    case Obj(fields) => forall k :: k in fields ==> SignsKept(fields[k])
    case Array(items) => forall i :: 0 <= i < |items| ==> SignsKept(items[i])
    case _ => true
  }

  /** A tree comes back as it was, unsigned kinds widened, exactly when all its signed numbers keep their sign. */
  lemma {:induction false} ReadBackIsCollapse(v: Value)
    ensures ReadBack(v) == Collapse(v) <==> SignsKept(v)
    decreases v
  {
    hide ReadInt, IntBytes, SignKept;
    match v {
      case I64(i) => IntReadsBack(i);
      case Obj(fields) =>
        forall k | k in fields ensures ReadBack(fields[k]) == Collapse(fields[k]) <==> SignsKept(fields[k]) {
          ReadBackIsCollapse(fields[k]);
        }
        var (a, b) := (map k | k in fields :: ReadBack(fields[k]), map k | k in fields :: Collapse(fields[k]));
        if SignsKept(v) {
          assert a == b;
        } else {
          var k :| k in fields && !SignsKept(fields[k]);
          assert a[k] != b[k];
        }
      case Array(items) =>
        forall i | 0 <= i < |items| ensures ReadBack(items[i]) == Collapse(items[i]) <==> SignsKept(items[i]) {
          ReadBackIsCollapse(items[i]);
        }
        var (a, b) := (ReadBack(v).items, Collapse(v).items);
        if SignsKept(v) {
          assert a == b;
        } else {
          var i :| 0 <= i < |items| && !SignsKept(items[i]);
          assert a[i] != b[i];
        }
      case _ =>
    }
  }
}
