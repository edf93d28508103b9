/** Unsigned fixed-width integers, their little-endian byte encoding and
    bitwise AND, as the Go runtime and `encoding/binary` define them. */
module Bits {

  type byte = x: int | 0 <= x < 256

  const U64: nat := 0x1_0000_0000_0000_0000

  /** Go's `uint64`. */
  type u64 = x: int | 0 <= x < 0x1_0000_0000_0000_0000

  function Pow256(n: nat): (r: nat)
    ensures r >= 1
  {
    if n == 0 then 1 else 256 * Pow256(n - 1)
  }

  function Pow2(n: nat): (r: nat)
    ensures r >= 1
  {
    if n == 0 then 1 else 2 * Pow2(n - 1)
  }

  lemma Pow256Constants()
    ensures Pow256(5) == 0x100_0000_0000
    ensures Pow256(7) == 0x100_0000_0000_0000
    ensures Pow256(8) == U64
  {
    assert Pow256(2) == 0x1_0000;
    assert Pow256(4) == 0x1_0000_0000;
  }

  /** The unsigned integer whose little-endian encoding is `s`: byte i is
      bits [8i, 8i+8). Go's `b[0] | b[1]<<8 | ...` puts every byte in its own
      bit range, so the OR of the shifted bytes is their sum. */
  function Value(s: seq<byte>): (r: nat)
    ensures r < Pow256(|s|)
  {
    if s == [] then 0 else s[0] + 256 * Value(s[1..])
  }

  /** The first `n` bytes of the little-endian encoding of `x`, byte i being
      `byte(x >> 8i)` (binary.LittleEndian.PutUint64 for n = 8). */
  function Bytes(x: nat, n: nat): (r: seq<byte>)
    ensures |r| == n
  {
    if n == 0 then [] else [x % 256] + Bytes(x / 256, n - 1)
  }

  lemma {:induction false} MulAtLeast(d: nat, k: nat)
    requires k >= 1
    ensures d * k >= d
  {
    if k > 1 {
      MulAtLeast(d, k - 1);
      assert d * k == d * (k - 1) + d;
    }
  }

  lemma DivModUnique(x: int, d: int, q: int, r: int)
    requires d > 0 && 0 <= r < d && x == d * q + r
    ensures x / d == q && x % d == r
  {
    var q', r' := x / d, x % d;
    assert d * q' + r' == d * q + r;
    if q > q' {
      MulAtLeast(d, q - q');
    } else if q < q' {
      MulAtLeast(d, q' - q);
    }
  }

  /** Peeling the low digit off in base b: x mod bp and x div bp in terms of x div b. */
  lemma DivModPeel(x: nat, b: nat, p: nat)
    requires b > 0 && p > 0
    ensures x % (b * p) == x % b + b * ((x / b) % p)
    ensures x / (b * p) == (x / b) / p
  {
    var q, r := (x / b) / p, (x / b) % p;
    assert x / b == p * q + r;
    assert x == b * (x / b) + x % b;
    assert x == (b * p) * q + (b * r + x % b) by {
      assert b * (x / b) == b * (p * q) + b * r;
    }
    assert b * r <= b * (p - 1) by {
      if r < p - 1 { MulAtLeast(b, p - 1 - r); assert b * (p - 1) == b * r + b * (p - 1 - r); }
    }
    assert b * (p - 1) == b * p - b;
    DivModUnique(x, b * p, q, b * r + x % b);
  }
  /** Division by p of a number below kp is below k. */
  lemma DivBelow(x: nat, p: nat, k: nat)
    requires p > 0 && x < k * p
    ensures 0 <= x / p < k
  {
    var q := x / p;
    assert x == p * q + x % p;
    if q > k {
      MulAtLeast(p, q - k);
    }
  }

  /** Decoding an encoding keeps exactly the low 8n bits. */
  lemma {:induction false} ValueOfBytes(x: nat, n: nat)
    ensures Value(Bytes(x, n)) == x % Pow256(n)
  {
    if n > 0 {
      var b := Bytes(x, n);
      assert b[1..] == Bytes(x / 256, n - 1);
      ValueOfBytes(x / 256, n - 1);
      DivModPeel(x, 256, Pow256(n - 1));
    }
  }

  /** Encoding a decoded byte string gives the bytes back. */
  lemma {:induction false} BytesOfValue(s: seq<byte>)
    ensures Bytes(Value(s), |s|) == s
  {
    if s != [] {
      var v := Value(s[1..]);
      DivModUnique(Value(s), 256, v, s[0]);
      BytesOfValue(s[1..]);
    }
  }

  /** Byte i of the encoding is `byte(x >> 8i)`. */
  lemma {:induction false} BytesAt(x: nat, n: nat, i: nat)
    requires i < n
    ensures Bytes(x, n)[i] == (x / Pow256(i)) % 256
  {
    if i > 0 {
      BytesAt(x / 256, n - 1, i - 1);
      DivModPeel(x, 256, Pow256(i - 1));
    }
  }

  /** A shorter encoding is a prefix of a longer one. */
  lemma {:induction false} BytesPrefix(x: nat, m: nat, n: nat)
    requires m <= n
    ensures Bytes(x, n)[..m] == Bytes(x, m)
  {
    if m > 0 {
      BytesPrefix(x / 256, m - 1, n - 1);
    }
  }

  /** The last byte of an (n+1)-byte encoding is x >> 8n. */
  lemma TopByte(x: nat, n: nat)
    requires x < Pow256(n + 1)
    ensures Bytes(x, n + 1)[n] == x / Pow256(n)
  {
    var p := Pow256(n);
    assert Pow256(n + 1) == 256 * p;
    BytesAt(x, n + 1, n);
    DivBelow(x, p, 256);
  }

  /** x is its top byte times 256^n plus its low n bytes. */
  lemma Split(x: nat, n: nat)
    ensures x == (x / Pow256(n)) * Pow256(n) + Value(Bytes(x, n))
  {
    ValueOfBytes(x, n);
    var p := Pow256(n);
    assert x == p * (x / p) + x % p;
  }

  /** Go's `a & b` on unsigned integers, bit by bit. */
  function And(a: nat, b: nat): (r: nat)
    ensures r <= a && r <= b
  {
    if a == 0 || b == 0 then 0
    else 2 * And(a / 2, b / 2) + (if a % 2 == 1 && b % 2 == 1 then 1 else 0)
  }

  /** One step of `And` against an odd mask 2p - 1. */
  lemma AndOddMask(x: nat, p: nat)
    requires p >= 1 && x > 0
    ensures And(x, 2 * p - 1) == 2 * And(x / 2, p - 1) + x % 2
  {
    assert (2 * p - 1) / 2 == p - 1 && (2 * p - 1) % 2 == 1;
  }

  /** x mod 2p from its low bit and x/2 mod p. */
  lemma ModDouble(x: nat, p: nat)
    requires p >= 1
    ensures x % (2 * p) == 2 * ((x / 2) % p) + x % 2
  {
    DivModPeel(x, 2, p);
  }

  /** Masking with 2^m - 1 keeps the low m bits: `x & (n-1) == x % n` for a power of two n. */
  lemma {:induction false} AndLowMask(x: nat, m: nat)
    ensures And(x, Pow2(m) - 1) == x % Pow2(m)
  {
    if m > 0 && x > 0 {
      var p := Pow2(m - 1);
      assert Pow2(m) == 2 * p;
      calc {
        And(x, Pow2(m) - 1);
        { AndOddMask(x, p); }
        2 * And(x / 2, p - 1) + x % 2;
        { AndLowMask(x / 2, m - 1); }
        2 * ((x / 2) % p) + x % 2;
        { ModDouble(x, p); }
        x % (2 * p);
      }
    } else if m == 0 {
      assert Pow2(m) - 1 == 0;
    } else {
      assert x == 0;
    }
  }
}
