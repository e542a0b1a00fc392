/** Fixed-width integers and the little-endian byte encodings the trainer
    uses when it moves values in and out of the target process. */
module Bytes {

  type byte = x: int | 0 <= x < 0x100
  type u32 = x: int | 0 <= x < 0x1_0000_0000
  type u64 = x: int | 0 <= x < 0x1_0000_0000_0000_0000

  const TWO_31: int := 0x8000_0000
  const TWO_32: int := 0x1_0000_0000
  const TWO_64: int := 0x1_0000_0000_0000_0000

  /** UINT64_MAX, the sigscan's "not found" sentinel. */
  const UINT64_MAX: u64 := 0xFFFF_FFFF_FFFF_FFFF

  /** Reduces an integer to a 64-bit unsigned value, as C++ arithmetic on
      uint64_t / uintptr_t does (a negative int offset is sign-extended and
      then wraps). Dafny's % is Euclidean, which is exactly this wrap. */
  function Wrap64(x: int): (r: u64)
    ensures 0 <= x < TWO_64 ==> r == x
    ensures (r - x) % TWO_64 == 0
  {
    x % TWO_64
  }

  function Pow256(n: nat): (r: nat)
    ensures r > 0
  {
    if n == 0 then 1 else 0x100 * Pow256(n - 1)
  }

  lemma Pow256Values()
    ensures Pow256(4) == TWO_32
    ensures Pow256(8) == TWO_64
  {
    assert Pow256(1) == 0x100;
    assert Pow256(2) == 0x1_0000;
    assert Pow256(3) == 0x100_0000;
    assert Pow256(4) == TWO_32;
    assert Pow256(5) == 0x100_0000_0000;
    assert Pow256(6) == 0x1_0000_0000_0000;
    assert Pow256(7) == 0x100_0000_0000_0000;
  }

  /** The unsigned value of a little-endian byte string. */
  function DecodeLE(s: seq<byte>): (r: nat)
    ensures r < Pow256(|s|)
  {
    if s == [] then 0 else s[0] + 0x100 * DecodeLE(s[1..])
  }

  /** The n lowest bytes of x, least significant first. */
  function EncodeLE(x: nat, n: nat): (s: seq<byte>)
    ensures |s| == n
  {
    if n == 0 then [] else [x % 0x100] + EncodeLE(x / 0x100, n - 1)
  }

  lemma {:induction false} DecodeEncode(x: nat, n: nat)
    requires x < Pow256(n)
    ensures DecodeLE(EncodeLE(x, n)) == x
  {
    if n > 0 {
      DecodeEncode(x / 0x100, n - 1);
      assert EncodeLE(x, n)[1..] == EncodeLE(x / 0x100, n - 1);
    }
  }

  lemma {:induction false} EncodeDecode(s: seq<byte>)
    ensures EncodeLE(DecodeLE(s), |s|) == s
  {
    if s != [] {
      var x := DecodeLE(s);
      assert x % 0x100 == s[0] && x / 0x100 == DecodeLE(s[1..]);
      EncodeDecode(s[1..]);
    }
  }

  lemma MulAtLeast(d: int, k: int)
    requires d > 0 && k >= 1
    ensures d * k >= d
  {
    assert d * k == d + d * (k - 1);
  }

  lemma DivUnique(x: int, d: int, q: int, r: int)
    requires d > 0 && 0 <= r < d && x == d * q + r
    ensures x / d == q
  {
    var q', r' := x / d, x % d;
    assert x == d * q' + r';
    if q' > q {
      MulAtLeast(d, q' - q);
    } else if q' < q {
      MulAtLeast(d, q - q');
    }
  }

  lemma MulFacts(a: int, b: int, q: int, r: int)
    requires a > 0 && 0 <= r < b
    ensures a * (b * q + r) == (a * b) * q + a * r
    ensures 0 <= a * r <= a * b - a
  {
    assert a * (b * q) == (a * b) * q;
    assert a * b - a - a * r == a * (b - 1 - r);
  }

  lemma DivDiv(x: nat, a: nat, b: nat)
    requires a > 0 && b > 0
    ensures x / a / b == x / (a * b)
  {
    var y := x / a;
    var q, r1, r2 := y / b, x % a, y % b;
    assert y == b * q + r2;
    assert x == a * y + r1;
    MulFacts(a, b, q, r2);
    DivUnique(x, a * b, q, a * r2 + r1);
  }

  /** Byte i of the encoding is `(x >> 8*i) & 0xff`, the expression the
      source writes out byte by byte. */
  lemma {:induction false} EncodeByteAt(x: nat, n: nat, i: nat)
    requires i < n
    ensures EncodeLE(x, n)[i] == (x / Pow256(i)) % 0x100
  {
    if i > 0 {
      EncodeByteAt(x / 0x100, n - 1, i - 1);
      DivDiv(x, 0x100, Pow256(i - 1));
    }
  }

  /** Encoding of a 64-bit value as the eight bytes a `MOV r64, imm64` or a
      pointer-sized write carries. */
  function Le64(x: u64): (s: seq<byte>)
    ensures |s| == 8
  {
    EncodeLE(x, 8)
  }

  /** The 64-bit value of eight little-endian bytes. */
  function U64Of(s: seq<byte>): (x: u64)
    requires |s| == 8
  {
    Pow256Values();
    DecodeLE(s)
  }

  /** Le64 and U64Of are inverse to each other. */
  lemma Le64RoundTrip(x: u64, s: seq<byte>)
    requires |s| == 8
    ensures U64Of(Le64(x)) == x
    ensures Le64(U64Of(s)) == s
  {
    Pow256Values();
    DecodeEncode(x, 8);
    EncodeDecode(s);
  }

  /** The 32-bit value of four little-endian bytes. */
  function U32Of(s: seq<byte>): (x: u32)
    requires |s| == 4
    ensures EncodeLE(x, 4) == s
  {
    Pow256Values();
    EncodeDecode(s);
    DecodeLE(s)
  }

  lemma {:induction false} DecodeZero(s: seq<byte>)
    ensures DecodeLE(s) == 0 <==> forall i :: 0 <= i < |s| ==> s[i] == 0
  {
    if s != [] {
      DecodeZero(s[1..]);
      assert forall i :: 1 <= i < |s| ==> s[i] == s[1..][i - 1];
    }
  }

  /** A 4-byte little-endian two's-complement int32_t. */
  function Int32Of(s: seq<byte>): (v: int)
    requires |s| == 4
    ensures -TWO_31 <= v < TWO_31
    ensures v == 0 <==> forall i :: 0 <= i < 4 ==> s[i] == 0
  {
    DecodeZero(s);
    var u := U32Of(s);
    if u < TWO_31 then u else u - TWO_32
  }
}
