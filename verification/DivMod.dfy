/** Division with remainder and powers of two, for the arithmetic of several components. */
module DivMod {

  lemma MulMonotone(a: int, b: int, c: int)
    requires a <= b && 0 <= c
    ensures a * c <= b * c && c * a <= c * b
  {
  }

  /** Quotient and remainder are unique. */
  lemma QuotientOf(k: int, n: int, q: int, r: int)
    requires 0 < n && 0 <= r < n && k == q * n + r
    ensures k / n == q && k % n == r
  {
    var q', r' := k / n, k % n;
    assert (q - q') * n == r' - r;
    if q > q' {
      MulMonotone(1, q - q', n);
    } else if q < q' {
      MulMonotone(1, q' - q, n);
    }
  }

  /** Remainder and quotient with their weights exchanged stay in range. */
  lemma Swapped(x: int, p: int, q: int)
    requires 0 < p && 0 < q && 0 <= x < p * q
    ensures 0 <= x % q * p + x / q < p * q
  {
    var h, l := x / q, x % q;
    assert x == h * q + l;
    if h >= p {
      MulMonotone(p, h, q);
    }
    MulMonotone(l, q - 1, p);
    MulMonotone(0, l, p);
    assert (q - 1) * p == p * q - p;
  }

  function Pow2(n: nat): (p: nat)
    ensures p > 0
  {
    if n == 0 then 1 else 2 * Pow2(n - 1)
  }

  lemma {:induction false} Pow2Monotone(m: nat, n: nat)
    requires m <= n
    ensures Pow2(m) <= Pow2(n)
  {
    if m < n {
      Pow2Monotone(m, n - 1);
    }
  }

  lemma {:induction false} Pow2Sum(m: nat, n: nat)
    ensures Pow2(m + n) == Pow2(m) * Pow2(n)
  {
    if n > 0 {
      Pow2Sum(m, n - 1);
      assert Pow2(m + n) == 2 * Pow2(m + n - 1);
    }
  }

  /** Dividing in two steps. */
  lemma DivTwice(x: nat, p: nat, q: nat)
    requires p > 0 && q > 0
    ensures p * q > 0 && x / (p * q) == x / p / q
  {
    var a, r := x / p, x % p;
    var b, s := a / q, a % q;
    TwoSteps(x, p, q, a, r, b, s);
    QuotientOf(x, p * q, b, p * s + r);
  }

  lemma TwoSteps(x: int, p: int, q: int, a: int, r: int, b: int, s: int)
    requires x == p * a + r && a == q * b + s && 0 <= r < p && 0 <= s < q
    ensures x == b * (p * q) + (p * s + r) && 0 <= p * s + r < p * q && 0 < p * q
  {
    MulMonotone(s, q - 1, p);
    MulMonotone(0, s, p);
    MulMonotone(1, q, p);
    Regrouping(p, q, b, s);
  }

  lemma Regrouping(p: int, q: int, b: int, s: int)
    ensures p * (q * b + s) == b * (p * q) + p * s && p * (q - 1) == p * q - p
  {
  }

  /** A word in its four bytes. */
  lemma FourDigits(w: nat)
    requires w < 0x1_0000_0000
    ensures w == w % 256 + 256 * (w / 256 % 256) + 65536 * (w / 65536 % 256) + 16777216 * (w / 16777216)
    ensures w / 16777216 % 256 == w / 16777216
  {
    DivTwice(w, 256, 256);
    DivTwice(w, 65536, 256);
    Digits(w, w / 256, w / 65536, w / 16777216);
  }

  lemma Digits(w: nat, q: nat, r: nat, s: nat)
    requires q == w / 256 && r == q / 256 && s == r / 256 && w < 0x1_0000_0000
    ensures w == w % 256 + 256 * (q % 256) + 65536 * (r % 256) + 16777216 * s && s < 256
  {
  }

  /** The quotient by `p` of a remainder is a remainder of the quotient ... */
  lemma ModDiv(x: nat, p: nat, m: nat)
    requires p > 0 && m > 0
    ensures p * m > 0 && x % (p * m) / p == x / p % m
  {
    var y, s := x / p, x % p;
    var h, r := y / m, y % m;
    TwoSteps(x, p, m, y, s, h, r);
    QuotientOf(x, p * m, h, p * r + s);
    QuotientOf(p * r + s, p, r, s);
  }

  /** ... and one by an even number keeps the last bit. */
  lemma ModEven(y: nat, q: nat)
    requires q > 0
    ensures y % (2 * q) % 2 == y % 2
  {
    var h, r := y / (2 * q), y % (2 * q);
    EvenAdded(q * h, r);
    Evened(y, q, h, r);
  }

  lemma EvenAdded(m: int, a: int)
    ensures (2 * m + a) % 2 == a % 2
  {
  }

  lemma Evened(y: int, q: int, h: int, r: int)
    requires y == 2 * q * h + r
    ensures y == 2 * (q * h) + r
  {
  }

  /** One more bit of a number. */
  lemma TopBit(x: nat, p: nat)
    requires p > 0
    ensures x % (2 * p) == x % p + p * (x / p % 2)
  {
    var q, r := x / p, x % p;
    assert x == p * q + r;
    TwiceAndRest(p, q / 2, q % 2);
    QuotientOf(x, 2 * p, q / 2, p * (q % 2) + r);
  }

  lemma TwiceAndRest(p: nat, h: nat, l: nat)
    requires l < 2
    ensures p * (2 * h + l) == h * (2 * p) + p * l && (l == 0 ==> p * l == 0) && (l == 1 ==> p * l == p)
  {
  }

  function PowerOf(b: nat, n: nat): (p: nat) {
    if n == 0 then 1 else b * PowerOf(b, n - 1)
  }

  lemma {:induction false} PowerOfSum(b: nat, m: nat, n: nat)
    ensures PowerOf(b, m + n) == PowerOf(b, m) * PowerOf(b, n)
  {
    if m > 0 {
      PowerOfSum(b, m - 1, n);
      Associated(b, PowerOf(b, m - 1), PowerOf(b, n));
    }
  }

  lemma Associated(a: int, b: int, c: int)
    ensures a * b * c == a * (b * c)
  {
  }

  lemma SquareMonotone(a: nat, b: nat)
    requires a <= b
    ensures a * a <= b * b
  {
  }
}
