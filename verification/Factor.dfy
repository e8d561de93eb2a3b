/**
 The factoriser: Miller-Rabin, Pollard's rho with Floyd cycle detection, trial
 division, and the recursive driver that fills a 64-slot buffer.
 Numbers are unsigned 64-bit in the program; inputs are below 2^63 and the
 methods show that no intermediate value leaves 64 bits.
 */
module Factor {
  import opened NumberTheory

  const U63: nat := 0x8000_0000_0000_0000
  const U64: nat := 0x1_0000_0000_0000_0000

  // ---- modular arithmetic -------------------------------------------------------

  /** mul_mod: the product is taken in 128 bits, so nothing is lost. */
  function MulMod(a: nat, b: nat, m: nat): (r: nat)
    requires m > 0
    ensures r < m
  {
    (a * b) % m
  }

  method PowMod(base: nat, exp: nat, m: nat) returns (result: nat)
    requires m > 1
    ensures result == Pow(base, exp) % m
  {
    result := 1;
    var b: nat, e: nat := base % m, exp;
    PowRemainder(base, exp, m);
    assert 1 * Pow(b, e) == Pow(b, e);
    hide Pow, MulMod;
    while e > 0
      invariant result < m && b < m
      invariant (result * Pow(b, e)) % m == Pow(base, exp) % m
    {
      PowStep(result, b, e, m);
      if e % 2 == 1 {
        result := MulMod(result, b, m);
      }
      e := e / 2;
      b := MulMod(b, b, m);
    }
    PowZero(result, b, m);
  }

  lemma PowZero(r: nat, b: nat, m: nat)
    requires r < m
    ensures (r * Pow(b, 0)) % m == r
  {
    RemainderUnique(r, m, 0, r);
  }

  /** One round of square-and-multiply keeps result * b^e. */
  lemma PowStep(r: nat, b: nat, e: nat, m: nat)
    requires m > 1 && e > 0
    ensures var r' := if e % 2 == 1 then MulMod(r, b, m) else r;
            (r' * Pow(MulMod(b, b, m), e / 2)) % m == (r * Pow(b, e)) % m
  {
    var h := e / 2;
    var t := Pow(b * b, h);
    PowSquare(b, h);
    PowRemainder(b * b, h, m);
    if e % 2 == 1 {
      assert Pow(b, e) == b * t;
      assert r * (b * t) == (r * b) * t;
      MulRemainders(r * b, t, m);
      MulRemainders((r * b) % m, Pow((b * b) % m, h), m);
      RemainderUnique((r * b) % m, m, 0, (r * b) % m);
    } else {
      assert Pow(b, e) == t;
      MulRemainders(r, t, m);
      MulRemainders(r, Pow((b * b) % m, h), m);
    }
  }

  // ---- Miller-Rabin ------------------------------------------------------------------

  function Two(i: nat): nat { if i == 0 then 1 else 2 * Two(i - 1) }

  /** a^(d * 2^i) modulo n. */
  function Chain(a: nat, d: nat, i: nat, n: nat): nat
    requires n > 0
  {
    Pow(a, d * Two(i)) % n
  }

  lemma ChainStep(a: nat, d: nat, i: nat, n: nat)
    requires n > 0
    ensures Chain(a, d, i + 1, n) == MulMod(Chain(a, d, i, n), Chain(a, d, i, n), n)
  {
    var k := d * Two(i);
    assert d * Two(i + 1) == k + k;
    PowAdd(a, k, k);
    MulRemainders(Pow(a, k), Pow(a, k), n);
  }

  /** n passes the strong test to base a, where n - 1 == d * 2^r. */
  predicate StrongProbable(a: nat, d: nat, n: nat, r: nat)
    requires n > 0
  {
    Chain(a, d, 0, n) == 1 || exists i :: 0 <= i < r && Chain(a, d, i, n) == n - 1
  }

  method MillerTest(a: nat, d: nat, n: nat, r: nat) returns (passes: bool)
    requires n > 2 && r > 0
    ensures passes == StrongProbable(a, d, n, r)
  {
    var x := PowMod(a, d, n);
    assert d * Two(0) == d;
    if x == 1 || x == n - 1 { return true; }
    for i := 0 to r - 1
      invariant x == Chain(a, d, i, n)
      invariant forall k :: 0 <= k <= i ==> Chain(a, d, k, n) != n - 1
    {
      ChainStep(a, d, i, n);
      x := MulMod(x, x, n);
      if x == n - 1 { return true; }
    }
    return false;
  }

  lemma {:induction false} ChainDescends(a: nat, d: nat, n: nat, r: nat, i: nat)
    requires Prime(n) && n > 2 && i <= r && Chain(a, d, i, n) == 1
    ensures StrongProbable(a, d, n, r)
    decreases i
  {
    if i > 0 {
      var y := Chain(a, d, i - 1, n);
      ChainStep(a, d, i - 1, n);
      SquareRootsOfOne(n, y);
      if y == 1 { ChainDescends(a, d, n, r, i - 1); }
    }
  }

  /** Once the chain is 1 it stays 1. */
  lemma {:induction false} ChainStaysOne(a: nat, d: nat, n: nat, i: nat, k: nat)
    requires n > 1 && i <= k && Chain(a, d, i, n) == 1
    ensures Chain(a, d, k, n) == 1
    decreases k
  {
    if i < k {
      ChainStaysOne(a, d, n, i, k - 1);
      ChainStep(a, d, k - 1, n);
      RemainderUnique(1, n, 0, 1);
    }
  }

  lemma MinusOneSquared(a: nat, d: nat, n: nat, i: nat)
    requires n > 2 && Chain(a, d, i, n) == n - 1
    ensures Chain(a, d, i + 1, n) == 1
  {
    ChainStep(a, d, i, n);
    assert (n - 1) * (n - 1) == n * (n - 2) + 1;
    RemainderUnique((n - 1) * (n - 1), n, n - 2, 1);
  }

  /** A number below n, not 1 and not n - 1, whose square is 1. */
  predicate RootFound(a: nat, d: nat, n: nat, i: nat)
    requires n > 0
  {
    Chain(a, d, i + 1, n) == 1 && Chain(a, d, i, n) != 1 && Chain(a, d, i, n) != n - 1
  }

  lemma {:induction false} NoRootDescends(a: nat, d: nat, n: nat, r: nat, i: nat)
    requires n > 2 && i <= r && Chain(a, d, i, n) == 1 && forall k :: 0 <= k < r ==> !RootFound(a, d, n, k)
    ensures StrongProbable(a, d, n, r)
    decreases i
  {
    if i > 0 {
      assert !RootFound(a, d, n, i - 1);
      if Chain(a, d, i - 1, n) == 1 { NoRootDescends(a, d, n, r, i - 1); }
    }
  }

  /** What the strong test finds out: n passes exactly if a^(n-1) is 1 modulo n and the squarings on the
      way show no square root of 1 other than 1 and n - 1. */
  lemma StrongIff(a: nat, d: nat, n: nat, r: nat)
    requires n > 2 && n - 1 == d * Two(r)
    ensures StrongProbable(a, d, n, r) <==>
            Pow(a, n - 1) % n == 1 && forall k :: 0 <= k < r ==> !RootFound(a, d, n, k)
  {
    assert Chain(a, d, r, n) == Pow(a, n - 1) % n;
    hide Chain, Pow;
    if StrongProbable(a, d, n, r) {
      var j: nat := 0;
      if Chain(a, d, 0, n) != 1 {
        j :| 0 <= j < r && Chain(a, d, j, n) == n - 1;
        MinusOneSquared(a, d, n, j);
        ChainStaysOne(a, d, n, j + 1, r);
      } else {
        ChainStaysOne(a, d, n, 0, r);
      }
      forall k | 0 <= k < r ensures !RootFound(a, d, n, k) { PassedNoRoot(a, d, n, r, j, k); }
    }
    if Chain(a, d, r, n) == 1 && forall k :: 0 <= k < r ==> !RootFound(a, d, n, k) {
      NoRootDescends(a, d, n, r, r);
    }
  }

  lemma PassedNoRoot(a: nat, d: nat, n: nat, r: nat, j: nat, k: nat)
    requires n > 2 && k < r && (Chain(a, d, 0, n) == 1 || (j < r && Chain(a, d, j, n) == n - 1))
    ensures !RootFound(a, d, n, k)
  {
    hide Chain;
    if Chain(a, d, 0, n) == 1 {
      ChainStaysOne(a, d, n, 0, k);
    } else if j < k {
      MinusOneSquared(a, d, n, j);
      ChainStaysOne(a, d, n, j + 1, k);
    } else if k < j && Chain(a, d, k + 1, n) == 1 {
      ChainStaysOne(a, d, n, k + 1, j);
    }
  }

  /** Whatever is_prime accepts passes Fermat's test to all its bases. */
  lemma AcceptedPassesFermat(n: nat, i: nat)
    requires Accepted(n) && n > 3 && i < |WITNESSES| && WITNESSES[i] < n
    ensures Pow(WITNESSES[i], n - 1) % n == 1
  {
    Decompose(n - 1);
    StrongIff(WITNESSES[i], OddPart(n - 1), n, TwoPower(n - 1));
    hide StrongProbable, RootFound, Pow;
  }

  /** A prime passes the strong test to every base it does not divide. */
  lemma PrimePassesBase(a: nat, d: nat, n: nat, r: nat)
    requires Prime(n) && n > 2 && 0 < a < n && n - 1 == d * Two(r)
    ensures StrongProbable(a, d, n, r)
  {
    Fermat(n, a);
    ChainDescends(a, d, n, r, r);
  }

  const WITNESSES: seq<nat> := [2, 325, 9375, 28178, 450775, 9780504, 1795265022]

  function OddPart(m: nat): (d: nat)
    requires m > 0
    ensures 0 < d <= m && d % 2 == 1
  {
    if m % 2 == 0 then OddPart(m / 2) else m
  }

  function TwoPower(m: nat): nat
    requires m > 0
  {
    if m % 2 == 0 then 1 + TwoPower(m / 2) else 0
  }

  lemma {:induction false} Decompose(m: nat)
    requires m > 0
    ensures m == OddPart(m) * Two(TwoPower(m))
  {
    if m % 2 == 0 {
      Decompose(m / 2);
      var d, t := OddPart(m / 2), Two(TwoPower(m / 2));
      assert d * (2 * t) == 2 * (d * t);
    }
  }

  predicate StrongToAll(n: nat)
    requires n > 1
  {
    forall i :: 0 <= i < |WITNESSES| && WITNESSES[i] < n ==>
        StrongProbable(WITNESSES[i], OddPart(n - 1), n, TwoPower(n - 1))
  }

  /** is_prime as a predicate. */
  predicate Accepted(n: nat)
  {
    n == 2 || n == 3 || (n > 3 && n % 2 != 0 && n % 3 != 0 && StrongToAll(n))
  }

  method IsPrime(n: nat) returns (yes: bool)
    ensures yes == Accepted(n)
  {
    if n < 2 { return false; }
    if n < 4 { return true; }
    if n % 2 == 0 || n % 3 == 0 { return false; }
    var d, r := n - 1, 0;
    while d % 2 == 0
      invariant d > 0 && OddPart(d) == OddPart(n - 1) && r + TwoPower(d) == TwoPower(n - 1)
      decreases d
    {
      d, r := d / 2, r + 1;
    }
    for i := 0 to |WITNESSES|
      invariant forall k :: 0 <= k < i && WITNESSES[k] < n ==> StrongProbable(WITNESSES[k], d, n, r)
    {
      var a := WITNESSES[i];
      if a < n {
        var passes := MillerTest(a, d, n, r);
        if !passes { return false; }
      }
    }
    return true;
  }

  /** is_prime never rejects a prime. */
  lemma PrimesAccepted(n: nat)
    requires Prime(n)
    ensures Accepted(n)
  {
    if n > 3 {
      assert !Divides(2, n) && !Divides(3, n);
      Decompose(n - 1);
      forall i | 0 <= i < |WITNESSES| && WITNESSES[i] < n
        ensures StrongProbable(WITNESSES[i], OddPart(n - 1), n, TwoPower(n - 1))
      {
        PrimePassesBase(WITNESSES[i], OddPart(n - 1), n, TwoPower(n - 1));
      }
    }
  }

  // ---- greatest common divisor -----------------------------------------------------

  /** d is the greatest common divisor of a and b. */
  ghost predicate IsGcd(d: nat, a: nat, b: nat)
  {
    d > 0 && Divides(d, a) && Divides(d, b) && forall e: nat :: e > 0 && Divides(e, a) && Divides(e, b) ==>
        Divides(e, d)
  }

  lemma GcdStep(d: nat, a: nat, b: nat)
    requires b > 0 && IsGcd(d, b, a % b)
    ensures IsGcd(d, a, b)
  {
    var q, r := a / b, a % b;
    assert a == r + b * q;
    DividesCombination(d, r, b, q);
    forall e: nat | e > 0 && Divides(e, a) && Divides(e, b) ensures Divides(e, d) {
      assert r == a + b * (-q);
      DividesCombination(e, a, b, -q);
    }
  }

  lemma GcdZero(a: nat)
    requires a > 0
    ensures IsGcd(a, a, 0)
  {
    MultipleDivides(a, 1);
    MultipleDivides(a, 0);
  }

  method Gcd(a0: nat, b0: nat) returns (a: nat)
    requires a0 > 0 || b0 > 0
    ensures IsGcd(a, a0, b0)
  {
    a := a0;
    var b: nat := b0;
    while b != 0
      invariant a > 0 || b > 0
      invariant forall d: nat :: IsGcd(d, a, b) ==> IsGcd(d, a0, b0)
      decreases b
    {
      forall d: nat | IsGcd(d, b, a % b) ensures IsGcd(d, a0, b0) {
        GcdStep(d, a, b);
      }
      a, b := b, a % b;
    }
    GcdZero(a);
  }

  function AbsDiff(a: nat, b: nat): nat { if a > b then a - b else b - a }

  // ---- Pollard's rho -----------------------------------------------------------------

  /** The iteration x -> x^2 + c modulo n; the addition wraps at 64 bits. */
  function Rho(x: nat, c: nat, n: nat): (y: nat)
    requires n > 0
    ensures y < n
  {
    (MulMod(x, x, n) + c) % U64 % n
  }

  function Iterate(x: nat, c: nat, n: nat, t: nat): nat
    requires n > 0
  {
    if t == 0 then x else Rho(Iterate(x, c, n, t - 1), c, n)
  }

  /** Two equal iterates stay equal when both advance by k steps. */
  lemma {:induction false} IterateTogether(x: nat, c: nat, n: nat, i: nat, j: nat, k: nat)
    requires n > 0 && Iterate(x, c, n, i) == Iterate(x, c, n, j)
    ensures Iterate(x, c, n, i + k) == Iterate(x, c, n, j + k)
  {
    if k > 0 { IterateTogether(x, c, n, i, j, k - 1); }
  }

  lemma {:induction false} IterateLaps(x: nat, c: nat, n: nat, i: nat, lap: nat, times: nat)
    requires n > 0 && Iterate(x, c, n, i) == Iterate(x, c, n, i + lap)
    ensures Iterate(x, c, n, i) == Iterate(x, c, n, i + times * lap)
  {
    hide Iterate;
    if times > 0 {
      IterateLaps(x, c, n, i, lap, times - 1);
      var k := (times - 1) * lap;
      assert times * lap == k + lap;
      IterateTogether(x, c, n, i, i + lap, k);
    }
  }

  /** n + 1 iterates lie below n, so two of them agree. */
  lemma IterateRepeats(x: nat, c: nat, n: nat) returns (i: nat, lap: nat)
    requires n > 0
    ensures lap > 0 && Iterate(x, c, n, i) == Iterate(x, c, n, i + lap)
  {
    var s := seq(n + 1, k requires 0 <= k => Iterate(x, c, n, k + 1) + 1);
    if Distinct(s) {
      assert AllIn(s, 1, n);
      Pigeonhole(s, n);
      assert false;
    } else {
      var a, b :| 0 <= a < b < |s| && s[a] == s[b];
      i, lap := a + 1, b - a;
    }
  }

  /** Floyd: the slow and the fast iterate meet. */
  lemma FloydMeets(x: nat, c: nat, n: nat) returns (t: nat)
    requires n > 0
    ensures t > 0 && Iterate(x, c, n, t) == Iterate(x, c, n, 2 * t)
  {
    var i, lap := IterateRepeats(x, c, n);
    t := (i + 1) * lap;
    assert t >= i + 1 by { MulMonotone(i + 1, 1, lap); }
    IterateTogether(x, c, n, i, i + lap, t - i);
    assert Iterate(x, c, n, t) == Iterate(x, c, n, t + lap);
    IterateLaps(x, c, n, t, lap, i + 1);
  }

  /** One attempt of rho: the loop ends, with a divisor of n above 1. */
  method RhoAttempt(n: nat, c: nat) returns (d: nat)
    requires 2 < n < U63 && c <= 20
    ensures 1 < d <= n && Divides(d, n)
  {
    ghost var meet := FloydMeets(2, c, n);
    ghost var t := 0;
    var x, y := 2, 2;
    d := 1;
    while d == 1
      invariant t <= meet
      invariant x == Iterate(2, c, n, t) && y == Iterate(2, c, n, 2 * t)
      invariant 1 <= d <= n && Divides(d, n)
      invariant d == 1 ==> t < meet
      decreases meet - t
    {
      assert MulMod(x, x, n) + c < U64;
      x := Rho(x, c, n);
      y := Rho(y, c, n);
      y := Rho(y, c, n);
      t := t + 1;
      assert y == Iterate(2, c, n, 2 * t) by {
        assert 2 * t == 2 * (t - 1) + 2;
      }
      d := Gcd(AbsDiff(x, y), n);
      GcdOfDifference(d, AbsDiff(x, y), n);
    }
  }

  lemma GcdOfDifference(d: nat, z: nat, n: nat)
    requires n > 0 && IsGcd(d, z, n)
    ensures d <= n && (z == 0 ==> d == n)
  {
    DivisorBound(d, n);
    if z == 0 {
      MultipleDivides(n, 0);
      MultipleDivides(n, 1);
      DivisorBound(n, d);
    }
  }

  lemma DivisorBound(d: nat, n: nat)
    requires d > 0 && n > 0 && Divides(d, n)
    ensures d <= n
  {
    if d > n { SmallNotDivisible(d, n); }
  }

  /** A composite number has a divisor no larger than its square root. */
  lemma SmallDivisor(n: nat) returns (d: nat)
    requires n >= 2 && !Prime(n)
    ensures 2 <= d < n && Divides(d, n) && d * d <= n
  {
    d :| 2 <= d < n && Divides(d, n);
    if d * d > n {
      var e := n / d;
      assert n == d * e;
      if e >= d { MulMonotone(d, d, e); }
      if e <= 1 { MulMonotone(d, e, 1); }
      MultipleDivides(e, d);
      assert e * d == n;
      MulMonotone(e, e, d);
      assert e * e <= e * d;
      d := e;
    }
  }

  /** A proper divisor of every composite; a prime only has itself to offer. */
  method PollardRho(n: nat) returns (d: nat)
    requires 2 <= n < U63
    ensures 1 < d <= n && Divides(d, n)
    ensures d < n <==> !Prime(n)
  {
    if n % 2 == 0 {
      assert Divides(2, n);
      return 2;
    }
    var c := 1;
    while c <= 20
      invariant 1 <= c <= 21
    {
      d := RhoAttempt(n, c);
      if d != n { return; }
      c := c + 1;
    }
    d := TrialDivisor(n);
  }

  lemma SquareBound(d: nat, n: nat)
    requires d * d <= n < U63
    ensures (d + 2) * (d + 2) < U64
  {
    if d >= 0x1_0000_0000 {
      MulMonotone(d, 0x1_0000_0000, d);
    }
    assert (d + 2) * (d + 2) == d * d + 4 * d + 4;
  }

  /** n has no divisor in 2..d-1. */
  ghost predicate NoneBelow(n: nat, d: nat)
  {
    forall k :: 2 <= k < d ==> !Divides(k, n)
  }

  lemma OddStart(n: nat)
    requires n % 2 == 1
    ensures NoneBelow(n, 3)
  {}

  lemma OddStep(n: nat, d: nat)
    requires 3 <= d && d % 2 == 1 && n % 2 == 1 && NoneBelow(n, d) && !Divides(d, n)
    ensures NoneBelow(n, d + 2)
  {
    if Divides(d + 1, n) {
      DividesTrans(2, d + 1, n);
    }
  }

  lemma NoneBelowRoot(n: nat, d: nat)
    requires n >= 2 && NoneBelow(n, d) && d * d > n
    ensures Prime(n)
  {
    if !Prime(n) {
      var e := SmallDivisor(n);
      if e >= d {
        MulMonotone(d, d, e);
        MulMonotone(e, d, e);
      }
      assert false;
    }
  }

  /** The fallback: odd trial division up to the square root. */
  method TrialDivisor(n: nat) returns (d: nat)
    requires 2 < n < U63 && n % 2 == 1
    ensures 1 < d <= n && Divides(d, n)
    ensures d == n ==> Prime(n)
  {
    hide NoneBelow, Prime;
    d := 3;
    OddStart(n);
    MulMonotone(n, 1, n);
    while d * d <= n
      invariant 3 <= d && d % 2 == 1 && d * d < U64 && NoneBelow(n, d)
      decreases n - d
    {
      MulMonotone(d, 1, d);
      if n % d == 0 {
        if d == n { MulMonotone(d, 2, d); }
        return;
      }
      OddStep(n, d);
      SquareBound(d, n);
      d := d + 2;
    }
    NoneBelowRoot(n, d);
    MultipleDivides(n, 1);
    d := n;
  }

  // ---- the driver ------------------------------------------------------------------

  /** 1001 squared: below it trial division alone leaves 1 or a prime. */
  const LIMIT := 1_002_001

  /** The factors found so far: with the cofactor n they multiply to the input, each is
      above 1 and accepted by is_prime, and for a small input each is prime. */
  ghost predicate Partial(s: seq<nat>, n: nat, input: nat)
  {
    && n >= 1 && Product(s) * n == input
    && (forall i :: 0 <= i < |s| ==> s[i] > 1 && Accepted(s[i]))
    && (input < LIMIT ==> forall i :: 0 <= i < |s| ==> Prime(s[i]))
  }

  lemma {:induction false} TwoAdd(i: nat, j: nat)
    ensures Two(i + j) == Two(i) * Two(j)
  {
    if i > 0 {
      TwoAdd(i - 1, j);
      var x, y := Two(i - 1), Two(j);
      assert Two(i) == 2 * x && Two(i + j) == 2 * Two(i - 1 + j);
      hide Two;
      assert 2 * (x * y) == 2 * x * y;
    }
  }

  lemma TwoTo62()
    ensures Two(62) == U63 / 2
  {
    assert Two(8) == 256;
    TwoAdd(8, 8);
    TwoAdd(16, 16);
    TwoAdd(16, 14);
    assert Two(14) == 16384;
    TwoAdd(32, 30);
  }

  lemma {:induction false} TwoPowerBound(s: seq<nat>)
    requires forall i :: 0 <= i < |s| ==> s[i] > 1
    ensures Two(|s|) <= Product(s)
  {
    if s != [] {
      TwoPowerBound(s[1..]);
      MulMonotone(2, Two(|s| - 1), Product(s[1..]));
      MulMonotone(Product(s[1..]), 2, s[0]);
    }
  }

  lemma {:induction false} TwoMonotone(i: nat, j: nat)
    requires i <= j
    ensures Two(i) <= Two(j)
  {
    if i < j { TwoMonotone(i, j - 1); }
  }

  /** With a cofactor still above 1 fewer than 62 slots are used, so the cap of 64 never bites. */
  lemma SlotsLeft(s: seq<nat>, n: nat, input: nat)
    requires Partial(s, n, input) && n > 1 && input < U63
    ensures |s| < 62
  {
    TwoPowerBound(s);
    if |s| >= 62 {
      TwoTo62();
      TwoMonotone(62, |s|);
      MulMonotone(Product(s), 2, n);
      assert false;
    }
  }

  lemma QuotientSmaller(n: nat, f: nat)
    requires n >= 1 && f > 1 && Divides(f, n)
    ensures n == f * (n / f) && 1 <= n / f < n
  {
    var m := n / f;
    assert n == f * m;
    if m >= n { MulMonotone(n, 2, f); MulMonotone(f, n, m); }
  }

  lemma Associate(a: int, b: int, c: int)
    ensures a * (b * c) == a * b * c
  {}

  lemma PartialPush(s: seq<nat>, n: nat, input: nat, f: nat)
    requires Partial(s, n, input) && f > 1 && Divides(f, n) && Accepted(f) && (input < LIMIT ==> Prime(f))
    ensures Partial(s + [f], n / f, input) && n / f < n
  {
    QuotientSmaller(n, f);
    ProductAppend(s, [f]);
    ProductOne(f);
    hide Product, Prime, Accepted;
    Associate(Product(s), f, n / f);
  }

  /** The inner loop "while n % f == 0": every power of f moves from n to the buffer. */
  method DivideOut(buf: array<nat>, count0: nat, n0: nat, f: nat, ghost input: nat) returns (count: nat, n: nat)
    requires buf.Length == 64 && count0 <= 64 && Partial(buf[..count0], n0, input) && input < U63
    requires f > 1 && (Divides(f, n0) ==> Accepted(f) && (input < LIMIT ==> Prime(f)))
    modifies buf
    ensures count <= 64 && Partial(buf[..count], n, input)
    ensures 1 <= n <= n0 && Divides(n, n0) && !Divides(f, n) && (Divides(f, n0) ==> n < n0)
  {
    count, n := count0, n0;
    MultipleDivides(n, 1);
    while n % f == 0
      invariant count <= 64 && Partial(buf[..count], n, input)
      invariant n <= n0 && Divides(n, n0) && (n < n0 ==> Accepted(f) && (input < LIMIT ==> Prime(f)))
      decreases n
    {
      DivisorBound(f, n);
      SlotsLeft(buf[..count], n, input);
      PartialPush(buf[..count], n, input, f);
      ghost var s := buf[..count];
      if count < 64 {
        buf[count] := f;
        count := count + 1;
      }
      assert buf[..count] == s + [f];
      QuotientDivides(f, n, n0);
      n := n / f;
    }
  }

  lemma QuotientDivides(f: nat, n: nat, n0: nat)
    requires f > 0 && n > 0 && n / f > 0 && Divides(f, n) && Divides(n, n0)
    ensures Divides(n / f, n0)
  {
    assert n == (n / f) * f;
    MultipleDivides(n / f, f);
    DividesTrans(n / f, n, n0);
  }

  lemma SmallestDivisorIsPrime(n: nat, d: nat)
    requires n > 0 && d >= 2 && NoneBelow(n, d) && Divides(d, n)
    ensures Prime(d) && Accepted(d)
  {
    forall e | 2 <= e < d ensures !Divides(e, d) {
      if Divides(e, d) { DividesTrans(e, d, n); }
    }
    PrimesAccepted(d);
  }

  lemma NoneBelowQuotient(n: nat, n0: nat, d: nat)
    requires n > 0 && Divides(n, n0) && NoneBelow(n0, d)
    ensures NoneBelow(n, d)
  {
    forall k | 2 <= k < d ensures !Divides(k, n) {
      if Divides(k, n) { DividesTrans(k, n, n0); }
    }
  }

  lemma PartialStart(input: nat)
    requires input >= 1
    ensures Partial([], input, input) && NoneBelow(input, 2)
  {}

  method TrialStep(buf: array<nat>, count0: nat, n0: nat, d: nat, ghost input: nat) returns (count: nat, n: nat)
    requires buf.Length == 64 && count0 <= 64 && Partial(buf[..count0], n0, input) && input < U63
    requires n0 > 0 && d >= 2 && (d == 2 || d % 2 == 1) && NoneBelow(n0, d)
    modifies buf
    ensures count <= 64 && Partial(buf[..count], n, input) && 1 <= n <= n0
    ensures n % 2 == 1 && NoneBelow(n, d + if d == 2 then 1 else 2)
  {
    hide Partial, NoneBelow, Prime, Accepted;
    if Divides(d, n0) { SmallestDivisorIsPrime(n0, d); }
    count, n := DivideOut(buf, count0, n0, d, input);
    NoneBelowQuotient(n, n0, d);
    NextTrial(n, d);
  }

  /** Trial division by 2, 3, 5, ..., 999. */
  method TrialPhase(input: nat, buf: array<nat>) returns (count: nat, n: nat)
    requires 1 <= input < U63 && buf.Length == 64
    modifies buf
    ensures count <= 64 && n <= input && Partial(buf[..count], n, input)
    ensures input < LIMIT ==> n == 1 || Prime(n)
  {
    hide Partial, NoneBelow, Prime, Accepted;
    count, n := 0, input;
    PartialStart(input);
    assert buf[..0] == [];
    var d := 2;
    while d * d <= n && d < 1000
      invariant 2 <= d <= 1001 && (d == 2 || (d % 2 == 1 && n % 2 == 1))
      invariant count <= 64 && 1 <= n <= input && Partial(buf[..count], n, input) && NoneBelow(n, d)
      decreases 1001 - d
    {
      count, n := TrialStep(buf, count, n, d, input);
      d := d + if d == 2 then 1 else 2;
    }
    TrialLeftover(n, d);
  }

  lemma NextTrial(n: nat, d: nat)
    requires n > 0 && d >= 2 && NoneBelow(n, d) && !Divides(d, n)
    requires d == 2 || d % 2 == 1
    ensures n % 2 == 1 && NoneBelow(n, d + if d == 2 then 1 else 2)
  {
    if d > 2 {
      assert !Divides(2, n);
      OddStep(n, d);
    }
  }

  lemma TrialLeftover(n: nat, d: nat)
    requires n >= 1 && d >= 2 && NoneBelow(n, d) && (d * d > n || d >= 1000) && (d == 2 || d % 2 == 1)
    ensures n < LIMIT ==> n == 1 || Prime(n)
  {
    if 2 <= n < LIMIT {
      if d >= 1000 { MulMonotone(d, 1001, d); }
      NoneBelowRoot(n, d);
    }
  }

  // ---- sorting ------------------------------------------------------------------------

  ghost predicate Sorted(s: seq<nat>)
  {
    forall i, j :: 0 <= i < j < |s| ==> s[i] <= s[j]
  }

  /** Sorted except that the element at j may be too small for its place. */
  ghost predicate SortedBut(s: seq<nat>, j: nat)
  {
    forall i, k :: 0 <= i < k < |s| && k != j ==> s[i] <= s[k]
  }

  lemma SwapKeeps(s: seq<nat>, j: nat, t: seq<nat>)
    requires 0 < j < |s| && t == s[j := s[j - 1]][j - 1 := s[j]]
    ensures multiset(t) == multiset(s)
    ensures SortedBut(s, j) && s[j] < s[j - 1] ==> SortedBut(t, j - 1)
  {}

  lemma SortedButLast(s: seq<nat>)
    requires s != []
    ensures Sorted(s[..|s| - 1]) ==> SortedBut(s, |s| - 1)
  {
    var t := s[..|s| - 1];
    if Sorted(t) {
      forall i, k | 0 <= i < k < |s| && k != |s| - 1 ensures s[i] <= s[k] {
        assert t[i] <= t[k];
      }
    }
  }

  lemma SortedButDone(s: seq<nat>, j: nat)
    requires j < |s| && SortedBut(s, j) && (j > 0 ==> s[j - 1] <= s[j])
    ensures Sorted(s)
  {}

  /** The insertion sort at the end of extract_factors_into. */
  method SortFactors(buf: array<nat>, count: nat)
    requires count <= buf.Length
    modifies buf
    ensures Sorted(buf[..count]) && multiset(buf[..count]) == multiset(old(buf[..count]))
  {
    ghost var bag := multiset(buf[..count]);
    var i := 1;
    while i < count
      invariant 1 <= i && multiset(buf[..count]) == bag
      invariant Sorted(buf[..if i < count then i else count])
    {
      InsertAt(buf, count, i);
      i := i + 1;
    }
    assert count <= 1 ==> Sorted(buf[..count]);
  }

  /** While element i moves down, at j now: the same elements, and only that one out of place. */
  ghost predicate Inserting(s: seq<nat>, t: seq<nat>, count: nat, i: nat, j: nat)
  {
    |s| == |t| && j <= i < count <= |t| && multiset(t[..count]) == multiset(s[..count]) && SortedBut(t[..i + 1], j)
  }

  lemma InsertingStarts(s: seq<nat>, count: nat, i: nat)
    requires i < count <= |s| && Sorted(s[..i])
    ensures Inserting(s, s, count, i, i)
  {
    hide Sorted, SortedBut;
    assert s[..i + 1][..i] == s[..i];
    SortedButLast(s[..i + 1]);
  }

  lemma InsertingStep(s: seq<nat>, t: seq<nat>, count: nat, i: nat, j: nat)
    requires Inserting(s, t, count, i, j) && 0 < j && t[j] < t[j - 1]
    ensures Inserting(s, t[j := t[j - 1]][j - 1 := t[j]], count, i, j - 1)
  {
    hide SortedBut;
    var t' := t[j := t[j - 1]][j - 1 := t[j]];
    SwapKeeps(t[..i + 1], j, t'[..i + 1]);
    SwapKeeps(t[..count], j, t'[..count]);
  }

  method InsertAt(buf: array<nat>, count: nat, i: nat)
    requires 0 < i < count <= buf.Length && Sorted(buf[..i])
    modifies buf
    ensures Sorted(buf[..i + 1]) && multiset(buf[..count]) == multiset(old(buf[..count]))
  {
    ghost var s := buf[..];
    assert s[..i] == buf[..i] && s[..count] == buf[..count];
    InsertingStarts(s, count, i);
    hide Inserting, Sorted;
    var j := i;
    while j > 0 && buf[j] < buf[j - 1]
      invariant 0 <= j <= i && Inserting(s, buf[..], count, i, j)
    {
      ghost var t := buf[..];
      InsertingStep(s, t, count, i, j);
      buf[j], buf[j - 1] := buf[j - 1], buf[j];
      assert buf[..] == t[j := t[j - 1]][j - 1 := t[j]];
      j := j - 1;
    }
    Inserted(s, buf[..], count, i, j);
    assert buf[..][..i + 1] == buf[..i + 1] && buf[..][..count] == buf[..count];
  }

  lemma Inserted(s: seq<nat>, t: seq<nat>, count: nat, i: nat, j: nat)
    requires Inserting(s, t, count, i, j) && (j > 0 ==> t[j - 1] <= t[j])
    ensures Sorted(t[..i + 1]) && multiset(t[..count]) == multiset(s[..count])
  {
    SortedButDone(t[..i + 1], j);
  }

  // ---- extract_factors_into ---------------------------------------------------------------

  /** What the buffer holds at the end: a sorted list of factors above 1, each accepted by
      is_prime, whose product is n; for n below 1,002,001 its prime factorisation. */
  ghost predicate Factorisation(s: seq<nat>, n: nat)
  {
    && Product(s) == n && Sorted(s) && |s| < 64
    && (forall i :: 0 <= i < |s| ==> s[i] > 1 && Accepted(s[i]))
    && (n < LIMIT ==> forall i :: 0 <= i < |s| ==> Prime(s[i]))
  }

  lemma {:induction false} FactorDivides(s: seq<nat>, i: nat)
    requires i < |s| && forall i :: 0 <= i < |s| ==> s[i] > 1
    ensures Divides(s[i], Product(s))
  {
    ProductWithout(s, i);
    MultipleDivides(s[i], Product(Without(s, i)));
  }

  /** The loop over a composite divisor's own factors: each is divided out of n. */
  method DivideOutAll(buf: array<nat>, count0: nat, n0: nat, sub: seq<nat>, ghost f: nat, ghost input: nat)
    returns (count: nat, n: nat)
    requires buf.Length == 64 && count0 <= 64 && Partial(buf[..count0], n0, input) && LIMIT <= input < U63
    requires f > 1 && Divides(f, n0) && Factorisation(sub, f)
    modifies buf
    ensures count <= 64 && Partial(buf[..count], n, input) && 1 <= n < n0
  {
    assert Product([]) == 1;
    hide Partial, Prime, Accepted, Product;
    count, n := count0, n0;
    FactorDivides(sub, 0);
    DividesTrans(sub[0], f, n0);
    for i := 0 to |sub|
      invariant count <= 64 && Partial(buf[..count], n, input) && 1 <= n
      invariant if i == 0 then n == n0 else n < n0
    {
      count, n := DivideOut(buf, count, n, sub[i], input);
    }
  }

  lemma CompositeIfRejected(n: nat)
    requires n >= 2 && !Accepted(n)
    ensures !Prime(n)
  {
    if Prime(n) { PrimesAccepted(n); }
  }

  /** One round of "while n > 1" for an n that is_prime rejects: rho finds a proper divisor,
      and that divisor, or its own factors, are divided out. */
  method SplitRound(buf: array<nat>, count0: nat, n0: nat, ghost input: nat) returns (count: nat, n: nat)
    requires buf.Length == 64 && count0 <= 64 && Partial(buf[..count0], n0, input)
    requires 2 <= n0 <= input && LIMIT <= input < U63 && !Accepted(n0)
    modifies buf
    ensures count <= 64 && Partial(buf[..count], n, input) && 1 <= n < n0
    decreases n0, 0
  {
    hide Partial, Prime, Accepted, Factorisation;
    CompositeIfRejected(n0);
    var f := PollardRho(n0);
    var prime := IsPrime(f);
    if prime {
      count, n := DivideOut(buf, count0, n0, f, input);
    } else {
      var sub := new nat[64];
      var sc := ExtractFactors(f, sub);
      count, n := DivideOutAll(buf, count0, n0, sub[..sc], f, input);
    }
  }

  /** extract_factors_into terminates for every 1 <= n < 2^63 with the factorisation of n. */
  method ExtractFactors(input: nat, buf: array<nat>) returns (count: nat)
    requires 1 <= input < U63 && buf.Length == 64
    modifies buf
    ensures count <= 64 && Factorisation(buf[..count], input)
    decreases input, 1
  {
    var n;
    count, n := TrialPhase(input, buf);
    while n > 1
      invariant count <= 64 && 1 <= n <= input && Partial(buf[..count], n, input)
      invariant input < LIMIT ==> n == 1 || Prime(n)
      decreases n
    {
      hide Partial, Prime, Accepted, Factorisation;
      var prime := IsPrime(n);
      if prime {
        count := PushLast(buf, count, n, input);
        n := 1;
        break;
      }
      CompositeIfRejected(n);
      count, n := SplitRound(buf, count, n, input);
    }
    ghost var s := buf[..count];
    SortFactors(buf, count);
    FactorisationFromPartial(s, buf[..count], input);
  }

  /** The final prime cofactor. */
  method PushLast(buf: array<nat>, count0: nat, n: nat, ghost input: nat) returns (count: nat)
    requires buf.Length == 64 && count0 <= 64 && Partial(buf[..count0], n, input) && input < U63
    requires n > 1 && Accepted(n) && (input < LIMIT ==> Prime(n))
    modifies buf
    ensures count <= 64 && Partial(buf[..count], 1, input)
  {
    count := count0;
    ghost var s := buf[..count];
    SlotsLeft(s, n, input);
    MultipleDivides(n, 1);
    PartialPush(s, n, input, n);
    RemainderUnique(n, n, 1, 0);
    if count < 64 {
      buf[count] := n;
      count := count + 1;
    }
    assert buf[..count] == s + [n];
  }

  lemma FactorisationFromPartial(s: seq<nat>, t: seq<nat>, input: nat)
    requires Partial(s, 1, input) && multiset(s) == multiset(t) && Sorted(t) && input < U63
    ensures Factorisation(t, input)
  {
    ProductOfPermutation(s, t);
    TwoPowerBound(s);
    if |s| >= 64 { TwoTo62(); TwoMonotone(63, |s|); }
    hide Prime, Accepted;
    forall i | 0 <= i < |t| ensures t[i] > 1 && Accepted(t[i]) && (input < LIMIT ==> Prime(t[i])) {
      assert t[i] in multiset(s);
      var j :| 0 <= j < |s| && s[j] == t[i];
    }
    assert |t| == |multiset(t)| == |multiset(s)| == |s|;
  }
}
