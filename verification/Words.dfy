/** 32-bit words, microseconds, and a little arithmetic about them. */
module Words {

  const US := 1_000_000
  const M := 0x1_0000_0000
  type Word = w: int | 0 <= w < 0x1_0000_0000

  function Wrap(n: int): Word {
    n % M
  }

  function Quot(v: nat, d: nat): nat
    requires d > 0
  {
    v / d
  }

  function Rem(v: nat, d: nat): nat
    requires d > 0
  {
    v % d
  }

  lemma NonNegative(a: nat, b: nat)
    ensures a * b >= 0
  {
  }

  lemma AtLeast(x: nat, d: nat)
    requires x > 0
    ensures x * d >= d
  {
    NonNegative(x - 1, d);
    assert x * d == (x - 1) * d + d;
  }

  lemma Distribute(q: nat, rate: nat, r: nat, k: nat)
    ensures (q * rate + r) * k == q * (rate * k) + r * k
  {
    assert (q * rate + r) * k == q * rate * k + r * k;
    assert q * rate * k == q * (rate * k);
  }

  lemma Below(r: nat, rate: nat, k: nat)
    requires r < rate && rate * k == US
    ensures 0 <= r * k < US
  {
    assert (rate - r) * k == rate * k - r * k;
    if k == 0 {
    } else {
      NonNegative(rate - r - 1, k);
      assert (rate - r) * k == (rate - r - 1) * k + k;
    }
  }

  lemma Quotient(n: int, q: int, r: int)
    requires n == q * US + r && 0 <= r < US
    ensures n / US == q && n % US == r
  {
  }

  lemma Quotients(a: nat, b: nat, d: nat)
    requires a <= b && d > 0
    ensures a / d <= b / d
  {
    var qa, qb := a / d, b / d;
    assert (qa - qb) * d == (a - a % d) - (b - b % d);
    if qa > qb {
      AtLeast(qa - qb, d);
    }
  }

  lemma DivideBy(n: nat, q: nat, r: nat, l: nat)
    requires n == q * l + r && r < l
    ensures n / l == q && n % l == r
  {
    var q', r' := n / l, n % l;
    assert (q - q') * l == r' - r;
    if q > q' {
      AtLeast(q - q', l);
    } else if q < q' {
      AtLeast(q' - q, l);
    }
  }

  /** Dividing by a product is dividing by one factor, then by the other. */
  lemma SplitTwice(v: nat, b: nat, p: nat)
    requires b > 0 && p > 0
    ensures b * p > 0
    ensures v / (b * p) == v / b / p && v % (b * p) / b == v / b % p && v % (b * p) % b == v % b
  {
    var q, r := v / b, v % b;
    var a, c := q / p, q % p;
    Regroup(a, c, r, b, p);
    DivideBy(v, a, c * b + r, b * p);
    DivideBy(c * b + r, c, r, b);
  }

  lemma Regroup(a: nat, c: nat, r: nat, b: nat, p: nat)
    requires c < p && r < b
    ensures b * p > 0 && 0 <= c * b + r < b * p && (a * p + c) * b + r == a * (b * p) + (c * b + r)
  {
    assert (a * p + c) * b == a * p * b + c * b;
    assert a * p * b == a * (b * p);
    NonNegative(c, b);
    AtLeast(p - c, b);
    assert (p - c) * b == b * p - c * b;
  }

  lemma Monotone(a: nat, b: nat, p: nat)
    requires a <= b
    ensures a * p <= b * p
  {
    NonNegative(b - a, p);
    assert b * p == (b - a) * p + a * p;
  }

  lemma DivMod(v: nat, b: nat)
    requires b > 0
    ensures v == v / b * b + v % b && 0 <= v % b < b && v / b >= 0
    ensures b > 1 && v > 0 ==> v / b < v
  {
    if b > 1 && v > 0 {
      QuotientSmaller(v, v / b, b);
    }
  }

  lemma QuotientSmaller(v: nat, q: int, b: nat)
    requires b > 1 && v > 0 && q * b <= v
    ensures q < v
  {
    assert v * b == b * v;
    Monotone(2, b, v);
    if q >= v {
      Monotone(v, q, b);
    }
  }
}
