/** Octets, the integer widths the C sources use, and little-endian codecs. */
module Bytes {

  type byte = b: nat | b < 0x100
  type u16 = n: nat | n < 0x1_0000
  type u32 = n: nat | n < 0x1_0000_0000
  type u64 = n: nat | n < 0x1_0000_0000_0000_0000
  type bytes = seq<byte>

  datatype Option<+T> = None | Some(value: T)

  // What storing a size_t in an unsigned int leaves of it.
  function ToU32(n: nat): u32 {
    n % 0x1_0000_0000
  }

  // The allocation size that buffer_alloc_write rounds up to.
  function RoundUp8(n: nat): nat {
    (n + 7) / 8 * 8
  }

  function Pow256(n: nat): nat {
    if n == 0 then 1 else 256 * Pow256(n - 1)
  }

  function LeEncode(v: nat, n: nat): (s: bytes)
    ensures |s| == n
  {
    if n == 0 then [] else [v % 256] + LeEncode(v / 256, n - 1)
  }

  function LeDecode(s: bytes): nat {
    if s == [] then 0 else s[0] + 256 * LeDecode(s[1..])
  }

  lemma {:induction false} LeDecodeOfEncode(v: nat, n: nat)
    requires v < Pow256(n)
    ensures LeDecode(LeEncode(v, n)) == v
  {
    if n > 0 {
      LeDecodeOfEncode(v / 256, n - 1);
    }
  }

  lemma {:induction false} LeEncodeOfDecode(s: bytes)
    ensures LeDecode(s) < Pow256(|s|)
    ensures LeEncode(LeDecode(s), |s|) == s
  {
    if s != [] {
      LeEncodeOfDecode(s[1..]);
      var v, rest := LeDecode(s), LeDecode(s[1..]);
      assert v == s[0] + 256 * rest && v % 256 == s[0] && v / 256 == rest;
    }
  }

  lemma PowersOf256()
    ensures Pow256(1) == 0x100
    ensures Pow256(2) == 0x1_0000
    ensures Pow256(4) == 0x1_0000_0000
    ensures Pow256(8) == 0x1_0000_0000_0000_0000
  {
    assert Pow256(3) == 0x100_0000;
    assert Pow256(5) == 0x100_0000_0000;
    assert Pow256(6) == 0x1_0000_0000_0000;
    assert Pow256(7) == 0x100_0000_0000_0000;
  }

  // The 1, 2, 4 and 8 byte little-endian fields are inverse to their decoders, both ways.
  lemma LeFieldInverse(v: nat, s: bytes, n: nat)
    requires n in {1, 2, 4, 8} && |s| == n
    ensures LeDecode(s) < Pow256(n) && LeEncode(LeDecode(s), n) == s
    ensures v < Pow256(n) ==> LeDecode(LeEncode(v, n)) == v
  {
    LeEncodeOfDecode(s);
    if v < Pow256(n) {
      LeDecodeOfEncode(v, n);
    }
  }

  function Flatten(parts: seq<bytes>): bytes {
    if parts == [] then [] else parts[0] + Flatten(parts[1..])
  }

  // The number whose binary digits these are, the lowest first.
  function Binary(bits: seq<bool>): nat {
    if bits == [] then 0 else (if bits[0] then 1 else 0) + 2 * Binary(bits[1..])
  }

  function Pow2(n: nat): nat {
    if n == 0 then 1 else 2 * Pow2(n - 1)
  }

  lemma HalvesFirst(n: nat, k: nat)
    requires k > 0
    ensures n / (2 * k) == n / 2 / k
  {
    var q, r := n / 2 / k, n / 2 % k;
    assert n / 2 == q * k + r;
    assert n == q * (2 * k) + (2 * r + n % 2) && 0 <= 2 * r + n % 2 < 2 * k;
    Quotient(n, 2 * k, q, 2 * r + n % 2);
  }

  lemma Quotient(n: nat, d: nat, q: nat, r: nat)
    requires n == q * d + r && r < d
    ensures n / d == q
  {
    var k: int := n / d - q;
    assert k * d == n / d * d - q * d == r - n % d;
    Multiple(k, d);
  }

  lemma Multiple(k: int, d: nat)
    ensures k >= 1 ==> k * d >= d
    ensures k <= -1 ==> k * d + d <= 0
  {
  }

  lemma {:induction false} BinaryShifted(bits: seq<bool>, n: nat)
    requires n <= |bits|
    ensures Pow2(n) > 0 && Binary(bits) / Pow2(n) == Binary(bits[n..])
    decreases n
  {
    if n > 0 {
      BinaryShifted(bits[1..], n - 1);
      HalvesFirst(Binary(bits), Pow2(n - 1));
      assert bits[1..][n - 1..] == bits[n..];
    }
  }

  // The digit at n and the one behind it.
  lemma DigitsAt(bits: seq<bool>, n: nat)
    requires n < |bits|
    ensures Pow2(n) > 0
    ensures Binary(bits) / Pow2(n) % 2 == 1 <==> bits[n]
    ensures n + 1 < |bits| ==> (Binary(bits) / Pow2(n) % 4 != 0 <==> bits[n] || bits[n + 1])
  {
    BinaryShifted(bits, n);
    hide Binary, Pow2;
    var b0, b1 := if bits[n] then 1 else 0, if n + 1 < |bits| && bits[n + 1] then 1 else 0;
    LastDigit(bits[n..]);
    LastDigit(bits[n + 1..]);
    assert bits[n..][1..] == bits[n + 1..];
    LowDigits(b0, b1, Binary(bits[n + 1..][if n + 1 < |bits| then 1 else 0..]));
  }

  lemma LowDigits(b0: nat, b1: nat, rest: nat)
    requires b0 <= 1 && b1 <= 1
    ensures (b0 + 2 * (b1 + 2 * rest)) % 2 == b0
    ensures (b0 + 2 * (b1 + 2 * rest)) % 4 == b0 + 2 * b1
  {
    var high := b1 + 2 * rest;
    assert (b0 + 2 * high) % 2 == b0;
    assert b0 + 2 * high == 4 * rest + (b0 + 2 * b1);
  }

  lemma LowThree(bits: seq<bool>)
    requires 3 <= |bits|
    ensures Binary(bits) % 8 == Binary(bits[..3])
  {
    hide Binary;
    var low := bits[..3];
    LastDigit(low);
    LastDigit(low[1..]);
    LastDigit(low[2..]);
    LastDigit(bits);
    LastDigit(bits[1..]);
    LastDigit(bits[2..]);
    assert low[1..][1..] == low[2..] && low[2..][1..] == [];
    assert bits[1..][1..] == bits[2..];
    LowOctal(Binary(low), Binary(bits[2..][1..]));
  }

  lemma LowOctal(low: nat, rest: nat)
    requires low < 8
    ensures (low + 8 * rest) % 8 == low
  {
  }

  lemma LastDigit(bits: seq<bool>)
    ensures Binary([]) == 0
    ensures bits != [] ==> Binary(bits) == (if bits[0] then 1 else 0) + 2 * Binary(bits[1..])
  {
  }

  lemma PowersOf2()
    ensures Pow2(0) == 1 && Pow2(1) == 2 && Pow2(2) == 4 && Pow2(3) == 8 && Pow2(6) == 0x40 && Pow2(17) == 0x20000
  {
    assert Pow2(8) == 0x100 && Pow2(12) == 0x1000;
  }
}
