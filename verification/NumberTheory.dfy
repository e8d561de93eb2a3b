/**
 The number theory the factoriser rests on: remainders, powers, Euclid's lemma,
 Fermat's little theorem, and the pigeonhole principle.
 */
module NumberTheory {

  // ---- remainders ------------------------------------------------------------

  lemma RemainderUnique(a: int, m: int, q: int, r: int)
    requires m > 0 && a == m * q + r && 0 <= r < m
    ensures a % m == r && a / m == q
  {
    SameQuotient(m, q, r, a / m, a % m);
  }

  lemma SameQuotient(m: int, q: int, r: int, q': int, r': int)
    requires m > 0 && m * q + r == m * q' + r' && 0 <= r < m && 0 <= r' < m
    ensures q == q' && r == r'
  {
    assert m * (q - q') == m * q - m * q';
    if q > q' {
      MulMonotone(m, 1, q - q');
    } else if q < q' {
      assert m * (q' - q) == m * q' - m * q;
      MulMonotone(m, 1, q' - q);
    }
  }

  lemma MulMonotone(m: int, x: int, y: int)
    requires m >= 0 && x <= y
    ensures m * x <= m * y
  {}

  /** Adding a multiple of the modulus does not change the remainder. */
  lemma RemainderShift(a: int, k: int, m: int)
    requires m > 0
    ensures (a + m * k) % m == a % m
  {
    assert a + m * k == m * (a / m + k) + a % m;
    RemainderUnique(a + m * k, m, a / m + k, a % m);
  }

  lemma MulRemainder(a: int, b: int, m: int)
    requires m > 0
    ensures (a * b) % m == ((a % m) * b) % m
  {
    var q, r := a / m, a % m;
    assert a * b == r * b + m * (q * b) by {
      assert a == m * q + r;
      assert (m * q + r) * b == m * q * b + r * b;
      assert m * q * b == m * (q * b);
    }
    RemainderShift(r * b, q * b, m);
  }

  lemma MulRemainders(a: int, b: int, m: int)
    requires m > 0
    ensures (a * b) % m == ((a % m) * (b % m)) % m
  {
    MulRemainder(a, b, m);
    assert (a % m) * b == b * (a % m);
    MulRemainder(b, a % m, m);
    assert (b % m) * (a % m) == (a % m) * (b % m);
  }

  predicate Divides(d: int, n: int)
    requires d != 0
  {
    n % d == 0
  }

  lemma SmallNotDivisible(p: int, x: int)
    requires 0 < x < p
    ensures !Divides(p, x)
  {
    RemainderUnique(x, p, 0, x);
  }

  lemma MultipleDivides(d: int, k: int)
    requires d > 0
    ensures Divides(d, d * k)
  {
    RemainderUnique(d * k, d, k, 0);
  }

  lemma DividesTrans(a: int, b: int, c: int)
    requires a > 0 && b > 0 && Divides(a, b) && Divides(b, c)
    ensures Divides(a, c)
  {
    var k, l := b / a, c / b;
    assert c == a * (k * l) by {
      assert b == a * k && c == b * l;
      assert (a * k) * l == a * (k * l);
    }
    MultipleDivides(a, k * l);
  }

  /** A common divisor divides every combination x + y * k. */
  lemma DividesCombination(d: int, x: int, y: int, k: int)
    requires d > 0 && Divides(d, x) && Divides(d, y)
    ensures Divides(d, x + y * k)
  {
    var a, b := x / d, y / d;
    assert x + y * k == d * (a + b * k) by {
      assert x == d * a && y == d * b;
      assert (d * b) * k == d * (b * k);
      assert d * (a + b * k) == d * a + d * (b * k);
    }
    MultipleDivides(d, a + b * k);
  }

  // ---- primes ------------------------------------------------------------------

  ghost predicate Prime(p: int)
  {
    p >= 2 && forall d :: 2 <= d < p ==> !Divides(d, p)
  }

  /** Euclid's lemma. */
  lemma {:induction false} Euclid(p: int, a: int, b: int)
    requires Prime(p) && 0 < a < p && Divides(p, a * b)
    ensures Divides(p, b)
    decreases a
  {
    if a > 1 {
      var q, r := p / a, p % a;
      assert !Divides(a, p);
      assert r * b == p * b + (a * b) * (-q) by {
        assert p == a * q + r;
        assert (a * q + r) * b == a * q * b + r * b;
        assert a * q * b == (a * b) * q;
      }
      MultipleDivides(p, b);
      DividesCombination(p, p * b, a * b, -q);
      Euclid(p, r, b);
    }
  }

  /** 1 has only two square roots modulo a prime. */
  lemma SquareRootsOfOne(p: int, x: int)
    requires Prime(p) && 0 <= x < p && (x * x) % p == 1
    ensures x == 1 || x == p - 1
  {
    if 1 < x < p - 1 {
      SmallNotDivisible(p, x + 1);
      var k := (x * x) / p;
      assert x * x == p * k + 1;
      assert (x - 1) * (x + 1) == x * x - 1 == p * k;
      MultipleDivides(p, k);
      Euclid(p, x - 1, x + 1);
      assert false;
    }
  }

  // ---- powers --------------------------------------------------------------------

  function Pow(b: int, e: nat): int { if e == 0 then 1 else b * Pow(b, e - 1) }

  lemma {:induction false} PowAdd(b: int, e: nat, f: nat)
    ensures Pow(b, e + f) == Pow(b, e) * Pow(b, f)
  {
    if e > 0 {
      PowAdd(b, e - 1, f);
      assert b * (Pow(b, e - 1) * Pow(b, f)) == b * Pow(b, e - 1) * Pow(b, f);
    }
  }

  lemma {:induction false} PowSquare(b: int, e: nat)
    ensures Pow(b * b, e) == Pow(b, 2 * e)
  {
    if e > 0 {
      PowSquare(b, e - 1);
      assert Pow(b, 2 * e) == b * (b * Pow(b, 2 * (e - 1)));
      assert b * (b * Pow(b, 2 * (e - 1))) == b * b * Pow(b, 2 * (e - 1));
    }
  }

  lemma {:induction false} PowRemainder(b: int, e: nat, m: int)
    requires m > 0
    ensures Pow(b, e) % m == Pow(b % m, e) % m
  {
    if e > 0 {
      PowRemainder(b, e - 1, m);
      var c, x, y := b % m, Pow(b, e - 1), Pow(b % m, e - 1);
      MulRemainders(b, x, m);
      MulRemainders(c, y, m);
      RemainderUnique(c, m, 0, c);
      hide Pow;
    }
  }

  // ---- pigeonhole and products -----------------------------------------------------

  ghost predicate Distinct(s: seq<int>)
  {
    forall i, j :: 0 <= i < j < |s| ==> s[i] != s[j]
  }

  predicate AllIn(s: seq<int>, lo: int, hi: int)
  {
    forall i :: 0 <= i < |s| ==> lo <= s[i] <= hi
  }

  function Without<T>(s: seq<T>, i: nat): seq<T>
    requires i < |s|
  {
    s[..i] + s[i + 1..]
  }

  /** At most k distinct values fit in 1..k. */
  lemma {:induction false} Pigeonhole(s: seq<int>, k: nat)
    requires Distinct(s) && AllIn(s, 1, k)
    ensures |s| <= k
    decreases k
  {
    assert s == [] || 1 <= s[0] <= k;
    if k == 0 {
    } else if i :| 0 <= i < |s| && s[i] == k {
      Pigeonhole(Without(s, i), k - 1);
    } else {
      Pigeonhole(s, k - 1);
    }
  }

  function Product(s: seq<int>): int { if s == [] then 1 else s[0] * Product(s[1..]) }

  lemma {:induction false} ProductAppend(s: seq<int>, t: seq<int>)
    ensures Product(s + t) == Product(s) * Product(t)
  {
    if s == [] {
      assert s + t == t;
    } else {
      assert (s + t)[1..] == s[1..] + t;
      ProductAppend(s[1..], t);
      assert s[0] * (Product(s[1..]) * Product(t)) == s[0] * Product(s[1..]) * Product(t);
    }
  }

  lemma ProductOne(x: int)
    ensures Product([x]) == x
  {
    assert [x][1..] == [];
  }

  lemma Shuffle(a: int, x: int, b: int)
    ensures a * (x * b) == x * (a * b)
  {}

  lemma ProductWithout(s: seq<int>, i: nat)
    requires i < |s|
    ensures Product(s) == s[i] * Product(Without(s, i))
  {
    hide Product;
    var a, x, b := s[..i], s[i], s[i + 1..];
    ProductAppend(a, [x] + b);
    ProductAppend([x], b);
    ProductOne(x);
    ProductAppend(a, b);
    assert s == a + ([x] + b);
    Shuffle(Product(a), x, Product(b));
  }

  /** The product depends only on the multiset of factors. */
  lemma {:induction false} ProductOfPermutation(s: seq<int>, t: seq<int>)
    requires multiset(s) == multiset(t)
    ensures Product(s) == Product(t)
    decreases |s|
  {
    assert |s| == |multiset(s)| == |multiset(t)| == |t|;
    if s != [] {
      assert s[0] in multiset(t);
      var i :| 0 <= i < |t| && t[i] == s[0];
      ProductWithout(t, i);
      assert s == [s[0]] + s[1..];
      assert t == t[..i] + [t[i]] + t[i + 1..];
      assert multiset(s[1..]) == multiset(s) - multiset{s[0]};
      assert multiset(Without(t, i)) == multiset(t) - multiset{t[i]};
      ProductOfPermutation(s[1..], Without(t, i));
    }
  }

  function Factorial(n: nat): int { if n == 0 then 1 else n * Factorial(n - 1) }

  /** k distinct values in 1..k are exactly those numbers, so their product is k!. */
  lemma {:induction false} DistinctProduct(s: seq<int>, k: nat)
    requires Distinct(s) && AllIn(s, 1, k) && |s| == k
    ensures Product(s) == Factorial(k)
    decreases k
  {
    if k > 0 {
      if i :| 0 <= i < |s| && s[i] == k {
        ProductWithout(s, i);
        DistinctProduct(Without(s, i), k - 1);
      } else {
        Pigeonhole(s, k - 1);
      }
    }
  }

  // ---- Fermat's little theorem --------------------------------------------------------

  /** a * 1, ..., a * n modulo p. */
  function Multiples(a: int, n: nat, p: int): (s: seq<int>)
    requires p > 0
    ensures |s| == n
    ensures forall i :: 0 <= i < n ==> s[i] == (a * (i + 1)) % p
  {
    seq(n, i => (a * (i + 1)) % p)
  }

  lemma MultiplesDistinct(p: int, a: int)
    requires Prime(p) && 0 < a < p
    ensures Distinct(Multiples(a, p - 1, p)) && AllIn(Multiples(a, p - 1, p), 1, p - 1)
  {
    var s := Multiples(a, p - 1, p);
    forall i | 0 <= i < |s| ensures 1 <= s[i] <= p - 1 {
      SmallNotDivisible(p, i + 1);
      if s[i] == 0 {
        Euclid(p, a, i + 1);
        assert false;
      }
    }
    forall i, j | 0 <= i < j < |s| ensures s[i] != s[j] {
      MultiplesDiffer(p, a, i + 1, j + 1);
    }
  }

  lemma MultiplesDiffer(p: int, a: int, i: int, j: int)
    requires Prime(p) && 0 < a < p && 0 < i < j < p
    ensures (a * i) % p != (a * j) % p
  {
    SmallNotDivisible(p, j - i);
    if (a * i) % p == (a * j) % p {
      EqualRemainders(a * j, a * i, p);
      assert a * (j - i) == a * j - a * i;
      Euclid(p, a, j - i);
      assert false;
    }
  }

  lemma EqualRemainders(x: int, y: int, m: int)
    requires m > 0 && x % m == y % m
    ensures Divides(m, x - y)
  {
    assert x - y == m * (x / m - y / m) by {
      assert x == m * (x / m) + x % m && y == m * (y / m) + y % m;
      assert m * (x / m - y / m) == m * (x / m) - m * (y / m);
    }
    MultipleDivides(m, x / m - y / m);
  }

  lemma {:induction false} MultiplesProduct(p: int, a: int, n: nat)
    requires p > 0
    ensures Product(Multiples(a, n, p)) % p == (Pow(a, n) * Factorial(n)) % p
  {
    if n > 0 {
      MultiplesProduct(p, a, n - 1);
      var t, x := Multiples(a, n - 1, p), a * n;
      assert Multiples(a, n, p) == t + [x % p];
      ProductAppend(t, [x % p]);
      ProductOne(x % p);
      var w, f := Pow(a, n - 1), Factorial(n - 1);
      SameProductRemainder(Product(t), w * f, x, p);
      Regroup(w, f, a, n);
    }
  }

  lemma SameProductRemainder(u: int, v: int, x: int, m: int)
    requires m > 0 && u % m == v % m
    ensures (u * (x % m)) % m == (v * x) % m
  {
    MulRemainders(v, x, m);
    MulRemainder(u, x % m, m);
  }

  lemma Regroup(w: int, x: int, y: int, z: int)
    ensures w * x * (y * z) == (y * w) * (z * x)
  {
    assert w * x * (y * z) == w * (x * (y * z)) == w * (y * (x * z)) == (w * y) * (x * z);
  }

  /** A factorial below p can be cancelled modulo p. */
  lemma {:induction false} CancelFactorial(p: int, n: nat, x: int)
    requires Prime(p) && n < p && Divides(p, Factorial(n) * x)
    ensures Divides(p, x)
  {
    if n > 0 {
      assert Factorial(n) * x == n * (Factorial(n - 1) * x);
      Euclid(p, n, Factorial(n - 1) * x);
      CancelFactorial(p, n - 1, x);
    }
  }

  /** Fermat's little theorem. */
  lemma Fermat(p: int, a: int)
    requires Prime(p) && 0 < a < p
    ensures Pow(a, p - 1) % p == 1
  {
    var n, f, w := p - 1, Factorial(p - 1), Pow(a, p - 1);
    MultiplesDistinct(p, a);
    DistinctProduct(Multiples(a, n, p), n);
    MultiplesProduct(p, a, n);
    hide Prime, Pow, Factorial, Product, Multiples;
    EqualRemainders(w * f, f, p);
    assert w * f - f == f * (w - 1);
    CancelFactorial(p, n, w - 1);
    RemainderUnique(w, p, (w - 1) / p, 1);
  }
}
