/** Rounding an address to a block boundary. */
module Alignment {

  function Floor(a: nat, g: nat): (r: nat)
    requires g > 0
    ensures r <= a < r + g
  {
    a - a % g
  }

  function Ceil(a: nat, g: nat): (r: nat)
    requires g > 0
    ensures a <= r < a + g
  {
    if a % g == 0 then a else a - a % g + g
  }

  lemma MulGe(q: int, d: int)
    requires q >= 1 && d >= 0
    ensures q * d >= d
  {
    assert q * d == (q - 1) * d + d;
    assert (q - 1) * d >= 0;
  }

  /** Quotient and remainder are determined by a == q * g + r with 0 <= r < g. */
  lemma ModUnique(a: int, g: int, q: int, r: int)
    requires g > 0 && a == q * g + r && 0 <= r < g
    ensures a % g == r && a / g == q
  {
    var k, s := a / g, a % g;
    Division(a, g);
    var d := q - k;
    assert d * g == s - r by { assert d * g == q * g - k * g; }
    if d >= 1 {
      MulGe(d, g);
    } else if d <= -1 {
      assert (-d) * g == -(d * g);
      MulGe(-d, g);
    }
  }

  lemma Division(a: int, g: int)
    requires g > 0
    ensures a == (a / g) * g + a % g && 0 <= a % g < g
  {
  }

  lemma ModAdd(a: int, b: int, g: int)
    requires g > 0 && b % g == 0
    ensures (a + b) % g == a % g
    ensures (a + b) / g == a / g + b / g
  {
    var p, q := a / g, b / g;
    assert a == p * g + a % g && b == q * g;
    assert a + b == (p + q) * g + a % g;
    ModUnique(a + b, g, p + q, a % g);
  }

  lemma ModSub(a: int, b: int, g: int)
    requires g > 0 && b % g == 0
    ensures (a - b) % g == a % g
  {
    ModAdd(a - b, b, g);
  }

  /** Divisibility is transitive. */
  lemma ModTrans(a: int, b: int, g: int)
    requires g > 0 && b > 0 && b % g == 0 && a % b == 0
    ensures a % g == 0
  {
    var p, q := a / b, b / g;
    assert a == p * b && b == q * g;
    assert a == (p * q) * g by { assert p * (q * g) == (p * q) * g; }
    ModUnique(a, g, p * q, 0);
  }

  lemma FloorAligned(a: nat, g: nat)
    requires g > 0
    ensures Floor(a, g) % g == 0
    ensures Ceil(a, g) % g == 0
  {
    var q := a / g;
    assert a == q * g + a % g;
    ModUnique(Floor(a, g), g, q, 0);
    if a % g != 0 {
      assert Ceil(a, g) == (q + 1) * g;
      ModUnique(Ceil(a, g), g, q + 1, 0);
    }
  }

  /** Two different multiples of g are at least g apart. */
  lemma AlignedApart(a: int, b: int, g: int)
    requires g > 0 && a % g == 0 && b % g == 0 && a < b
    ensures a + g <= b
  {
    var p, q := a / g, b / g;
    assert a == p * g && b == q * g;
    assert (q - p) * g == b - a;
    if q - p >= 1 {
      MulGe(q - p, g);
    } else {
      assert (p - q + 1) * g == a - b + g;
      MulGe(p - q + 1, g);
    }
  }

  lemma CeilUnique(a: nat, g: nat, r: nat)
    requires g > 0 && r % g == 0 && a <= r < a + g
    ensures Ceil(a, g) == r
  {
    FloorAligned(a, g);
    var c := Ceil(a, g);
    if c < r { AlignedApart(c, r, g); }
    if r < c { AlignedApart(r, c, g); }
  }

  /** The non-negative remainder of an int. */
  function Residue(v: int, m: nat): (r: nat)
    requires m > 0
    ensures r < m && r == v % m
  {
    Division(v, m);
    var r: int := v % m;
    r
  }

  lemma QuotientBound(n: nat, d: nat, m: nat)
    requires n < d * m
    ensures m > 0 && n / m < d
  {
    if m == 0 {
      ProductWithZero(d, m);
    }
    Division(n, m);
    var q := n / m;
    assert (q - d) * m == q * m - d * m;
    if q >= d {
      ProductOfNats(q - d, m);
    }
  }

  lemma ProductWithZero(d: int, m: int)
    requires m == 0
    ensures d * m == 0
  {
  }

  lemma ProductOfNats(a: nat, b: nat)
    ensures a * b >= 0
  {
  }

  /** Row j of d rows of k ends inside them. */
  lemma MulLess(j: nat, d: nat, k: nat)
    requires j < d
    ensures j * k + k <= d * k
  {
    ProductOfNats(d - j - 1, k);
    assert (d - j - 1) * k == d * k - j * k - k;
  }
}
