/** Bytes, powers of two and the bitwise operators the C code applies to unsigned integers. */
module Bytes {
  import opened Alignment

  type byte = x: int | 0 <= x < 256

  /** `1L << n` before any truncation. */
  function Pow2(n: nat): (r: nat)
    ensures r > 0
  {
    if n == 0 then 1 else 2 * Pow2(n - 1)
  }

  /** Bit i of an unsigned integer. */
  predicate Bit(x: nat, i: nat)
  {
    if i == 0 then x % 2 == 1 else Bit(x / 2, i - 1)
  }

  lemma {:induction false} BitIs(x: nat, i: nat)
    ensures Bit(x, i) <==> x / Pow2(i) % 2 == 1
  {
    if i > 0 {
      BitIs(x / 2, i - 1);
      Halved(x, Pow2(i - 1));
    }
  }

  lemma Halved(x: nat, p: nat)
    requires p > 0
    ensures x / (2 * p) == x / 2 / p
  {
    var q, r := x / 2 / p, x / 2 % p;
    Division(x / 2, p);
    assert q * (2 * p) == 2 * (q * p);
    ModUnique(x, 2 * p, q, 2 * r + x % 2);
  }

  /** The C operator `&` on unsigned integers. */
  function And(a: nat, b: nat): (r: nat)
    ensures r <= a && r <= b
  {
    if a == 0 || b == 0 then 0 else (a % 2) * (b % 2) + 2 * And(a / 2, b / 2)
  }

  function AndByte(a: byte, b: byte): (r: byte)
  {
    And(a, b)
  }

  /** `&` acts bit by bit. */
  lemma {:induction false} AndBits(a: nat, b: nat, i: nat)
    ensures Bit(And(a, b), i) <==> Bit(a, i) && Bit(b, i)
  {
    if a == 0 || b == 0 {
      ZeroHasNoBits(i);
    } else {
      var r := And(a, b);
      assert r % 2 == (a % 2) * (b % 2) && r / 2 == And(a / 2, b / 2);
      if i > 0 {
        AndBits(a / 2, b / 2, i - 1);
      }
    }
  }

  lemma {:induction false} ZeroHasNoBits(i: nat)
    ensures !Bit(0, i)
  {
    if i > 0 {
      ZeroHasNoBits(i - 1);
    }
  }

  lemma {:induction false} AndOnes(b: nat, n: nat)
    requires b < Pow2(n)
    ensures And(Pow2(n) - 1, b) == b
  {
    if n > 0 && b > 0 {
      assert (Pow2(n) - 1) / 2 == Pow2(n - 1) - 1 && (Pow2(n) - 1) % 2 == 1;
      AndOnes(b / 2, n - 1);
    }
  }

  /** Programming data over an erased byte stores the data. */
  lemma AndErased(b: byte)
    ensures And(0xFF, b) == b
  {
    assert Pow2(8) == 256;
    AndOnes(b, 8);
  }

  lemma {:induction false} AndCommutes(a: nat, b: nat)
    ensures And(a, b) == And(b, a)
  {
    if a > 0 && b > 0 {
      AndCommutes(a / 2, b / 2);
      assert (a % 2) * (b % 2) == (b % 2) * (a % 2);
    }
  }

  /** `x & (1 << j)` is non-zero exactly when bit j is set. */
  lemma {:induction false} AndMask(x: nat, j: nat)
    ensures And(x, Pow2(j)) != 0 <==> Bit(x, j)
  {
    if j > 0 && x > 0 {
      assert Pow2(j) / 2 == Pow2(j - 1) && Pow2(j) % 2 == 0;
      AndMask(x / 2, j - 1);
    } else if x == 0 {
      ZeroHasNoBits(j);
    }
  }

  /** The C operator `>>` on unsigned integers. */
  function Shr(x: nat, n: nat): (r: nat)
    ensures r <= x
  {
    if n == 0 then x else Shr(x, n - 1) / 2
  }

  lemma ShrByte(x: nat, n: nat)
    ensures Shr(x, n + 8) == Shr(x, n) / 256
  {
    assert Shr(x, n + 4) == Shr(x, n) / 16 by {
      assert Shr(x, n + 2) == Shr(x, n + 1) / 2;
      assert Shr(x, n + 4) == Shr(x, n + 3) / 2;
    }
    assert Shr(x, n + 6) == Shr(x, n + 5) / 2;
    assert Shr(x, n + 8) == Shr(x, n + 7) / 2;
  }

  /** The low `len` bytes of x, most significant first. */
  function BigEndianBytes(x: nat, len: nat): (s: seq<byte>)
    ensures |s| == len
  {
    if len == 0 then [] else BigEndianBytes(x / 256, len - 1) + [x % 256]
  }

  /** Reading the low len bytes back gives x when it has no more than 8 * len bits, and only then. */
  lemma {:induction false} BigEndianRoundTrip(x: nat, len: nat)
    ensures BigEndian(BigEndianBytes(x, len)) == x <==> x < Pow2(8 * len)
    ensures BigEndian(BigEndianBytes(x, len)) < Pow2(8 * len)
  {
    if len > 0 {
      BigEndianRoundTrip(x / 256, len - 1);
      var s := BigEndianBytes(x, len);
      assert s[..len - 1] == BigEndianBytes(x / 256, len - 1);
      assert Pow2(8 * len) == 256 * Pow2(8 * (len - 1)) by { Pow2Add(8, 8 * (len - 1)); assert Pow2(8) == 256; }
    }
  }

  /** The number a big-endian byte string denotes. */
  function BigEndian(s: seq<byte>): (r: nat)
  {
    if s == [] then 0 else BigEndian(s[..|s| - 1]) * 256 + s[|s| - 1]
  }

  lemma MulAssoc(a: int, b: int, c: int)
    ensures (a * b) * c == a * (b * c)
  {
  }

  lemma {:induction false} Pow2Add(m: nat, n: nat)
    ensures Pow2(m + n) == Pow2(m) * Pow2(n)
  {
    if m > 0 {
      Pow2Add(m - 1, n);
      MulAssoc(2, Pow2(m - 1), Pow2(n));
    }
  }

  lemma Pow2Values()
    ensures Pow2(8) == 0x100 && Pow2(16) == 0x1_0000 && Pow2(24) == 0x100_0000 && Pow2(32) == 0x1_0000_0000
  {
    assert Pow2(4) == 16;
    Pow2Add(4, 4);
    Pow2Add(8, 8);
    Pow2Add(8, 16);
    Pow2Add(8, 24);
  }

  lemma {:induction false} Pow2Divides(m: nat, n: nat)
    requires m <= n
    ensures Pow2(m) <= Pow2(n)
    ensures Pow2(n) % Pow2(m) == 0
  {
    Pow2Add(n - m, m);
    var q, d := Pow2(n - m), Pow2(m);
    assert Pow2(n) == q * d;
    ModUnique(Pow2(n), d, q, 0);
    MulGe(q, d);
  }
}
