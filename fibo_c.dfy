/**
 * Fibonacci numbers modulo m, reduced through the Pisano period
 * (lesson01/FiboC.java). Java's `long`/`int` arithmetic is modelled on
 * unbounded integers. Every dividend is non-negative, so Java's `%` by a
 * negative m gives the same remainder as `%` by |m|, as Dafny's does.
 */
module FiboC {
  import opened Common

  /** The magnitude of the modulus. */
  function Abs(m: int): nat {
    if m < 0 then -m else m
  }

  function Fib(n: nat): nat {
    if n < 2 then n else Fib(n - 1) + Fib(n - 2)
  }

  /**
   * The pair sequence the source's loops walk through: it starts from the
   * literal pair (0, 1) and reduces every later sum modulo m.
   */
  function FibMod(n: nat, m: nat): nat
    requires m >= 1
  {
    if n < 2 then n else (FibMod(n - 1, m) + FibMod(n - 2, m)) % m
  }

  /** `p` is a Pisano period of `m`: the pair (F(p), F(p+1)) is (0, 1) modulo m. */
  predicate IsPisano(m: nat, p: nat) {
    m >= 1 && p >= 1 && Fib(p) % m == 0 && Fib(p + 1) % m == 1
  }

  /** fibonacciMod: the n-th Fibonacci number modulo m by iteration. */
  method FibonacciMod(n: int, m: int) returns (r: int)
    requires m != 0
    ensures n <= 1 ==> r == n
    ensures n >= 2 ==> r == Fib(n) % Abs(m) && 0 <= r < Abs(m)
  {
    if n <= 1 {
      return n;
    }
    var prev, curr := 0, 1;
    var i := 2;
    while i <= n
      invariant 2 <= i <= n + 1
      invariant prev == FibMod(i - 2, Abs(m)) && curr == FibMod(i - 1, Abs(m))
    {
      var temp := (prev + curr) % m;
      JavaMod(prev + curr, m);
      prev, curr := curr, temp;
      i := i + 1;
    }
    FibModIsFib(n, Abs(m));
    return curr;
  }

  /**
   * getPisanoPeriod: the least p in [1, m*m] with (F(p), F(p+1)) = (0, 1)
   * modulo m, or 0 when the first m*m steps do not close the cycle; for
   * |m| >= 2 a period is always found.
   */
  method GetPisanoPeriod(m: int) returns (period: nat)
    ensures period == 0 ==> forall p :: 1 <= p <= m * m ==> !IsPisano(Abs(m), p)
    ensures period != 0 ==> period <= m * m && IsPisano(Abs(m), period)
    ensures forall q :: 1 <= q < period ==> !IsPisano(Abs(m), q)
    ensures Abs(m) >= 2 ==> period != 0
  {
    ghost var M := Abs(m);
    AbsSquare(m);
    if M >= 2 {
      PisanoExists(M);
    }
    var prev, curr := 0, 1;
    period := 0;
    var i := 0;
    while i < m * m
      invariant 0 <= i <= m * m
      invariant m != 0 ==> prev == FibMod(i, M) && curr == FibMod(i + 1, M)
      invariant forall q :: 1 <= q <= i ==> !IsPisano(M, q)
    {
      var temp := (prev + curr) % m;
      JavaMod(prev + curr, m);
      prev, curr := curr, temp;
      PisanoCheck(M, i + 1);
      if prev == 0 && curr == 1 {
        period := i + 1;
        return;
      }
      i := i + 1;
    }
  }

  /**
   * fasterC: n itself for n <= 1; otherwise F(n mod period) modulo m, which
   * throws ArithmeticException when no period was found, that is for m in
   * {-1, 0, 1}.
   */
  method FasterC(n: int, m: int) returns (r: Result<int>)
    ensures n <= 1 ==> r == Ok(n)
    ensures n >= 2 && Abs(m) >= 2 ==> r == Ok(Fib(n) % Abs(m))
    ensures n >= 2 && Abs(m) <= 1 ==> r == Err(Arithmetic)
  {
    if n <= 1 {
      return Ok(n);
    }
    var period := GetPisanoPeriod(m);
    if period == 0 {
      return Err(Arithmetic);
    }
    if Abs(m) == 1 {
      NoPisanoModOne();
    }
    var reduced := n % period;
    PisanoReduces(Abs(m), period, n);
    var v := FibonacciMod(reduced, m);
    if reduced <= 1 {
      ModSmall(reduced, Abs(m));
    }
    return Ok(v);
  }

  /** The square of m is the square of its magnitude. */
  lemma AbsSquare(m: int)
    ensures Abs(m) * Abs(m) == m * m
  {
    if m < 0 {
      assert (-m) * (-m) == m * m;
    }
  }

  /** For a non-negative dividend, `%` by m is `%` by |m|, as Java's remainder is. */
  lemma JavaMod(x: nat, m: int)
    requires m != 0
    ensures x % m == x % Abs(m)
  {
    if m < 0 {
      var n := -m;
      var q1, r1, q2, r2 := x / m, x % m, x / n, x % n;
      assert x == q1 * m + r1 && x == q2 * n + r2;
      assert q1 * m == (-q1) * n;
      var k := q2 + q1;
      assert r1 - r2 == k * n;
      if k >= 1 {
        MulAtLeast(k, n);
      } else if k <= -1 {
        MulAtLeast(-k, n);
      }
    }
  }

  lemma ModSmall(x: nat, m: nat)
    requires x < m
    ensures x % m == x
  {
    DivModUnique(x, 0, x, m);
  }

  /** Modulo 1 every Fibonacci number is 0, so no period exists. */
  lemma NoPisanoModOne()
    ensures forall p :: !IsPisano(1, p)
  {
    forall p: nat | p >= 1
      ensures !IsPisano(1, p)
    {
      DivModUnique(Fib(p + 1), Fib(p + 1), 0, 1);
    }
  }

  /** From index 2 on, the iterated pairs are exactly F(n) modulo m. */
  lemma {:induction false} FibModIsFib(n: nat, m: nat)
    requires m >= 1
    ensures n >= 2 ==> FibMod(n, m) == Fib(n) % m
    ensures FibMod(n, m) % m == Fib(n) % m
    decreases n
  {
    if n >= 2 {
      FibModIsFib(n - 1, m);
      FibModIsFib(n - 2, m);
      ModAdd(FibMod(n - 1, m), FibMod(n - 2, m), m);
      ModAdd(Fib(n - 1), Fib(n - 2), m);
      ModOfMod(FibMod(n - 1, m) + FibMod(n - 2, m), m);
    }
  }

  lemma ModOfMod(x: nat, m: nat)
    requires m >= 1
    ensures x % m % m == x % m
  {
    DivModUnique(x % m, 0, x % m, m);
  }

  /** The source's test `prev == 0 && curr == 1` at step p recognises exactly a Pisano period. */
  lemma PisanoCheck(m: nat, p: nat)
    requires m >= 1 && p >= 1
    ensures (FibMod(p, m) == 0 && FibMod(p + 1, m) == 1) <==> IsPisano(m, p)
  {
    FibModIsFib(p + 1, m);
    if p >= 2 {
      FibModIsFib(p, m);
    } else if m == 1 {
      NoPisanoModOne();
    } else {
      ModSmall(1, m);
    }
  }

  /** Shifting the index by a Pisano period leaves F modulo m unchanged. */
  lemma {:induction false} PisanoShift(m: nat, p: nat, k: nat)
    requires IsPisano(m, p)
    ensures Fib(k + p) % m == Fib(k) % m
    decreases k
  {
    if k == 0 {
      ModSmall(0, m);
    } else if k == 1 {
      if m == 1 {
        NoPisanoModOne();
      }
      ModSmall(1, m);
    } else {
      PisanoShift(m, p, k - 1);
      PisanoShift(m, p, k - 2);
      assert Fib(k + p) == Fib(k - 1 + p) + Fib(k - 2 + p);
      assert Fib(k) == Fib(k - 1) + Fib(k - 2);
      SumCongruent(Fib(k - 1 + p), Fib(k - 2 + p), Fib(k - 1), Fib(k - 2), m);
    }
  }

  /** Sums of congruent terms are congruent. */
  lemma SumCongruent(a: int, b: int, c: int, d: int, m: nat)
    requires m >= 1 && a % m == c % m && b % m == d % m
    ensures (a + b) % m == (c + d) % m
  {
    ModAdd(a, b, m);
    ModAdd(c, d, m);
  }

  /** F(n) modulo m depends only on n modulo a Pisano period. */
  lemma {:induction false} PisanoReduces(m: nat, p: nat, n: nat)
    requires IsPisano(m, p)
    ensures Fib(n) % m == Fib(n % p) % m
    decreases n
  {
    if n >= p {
      PisanoReduces(m, p, n - p);
      PisanoShift(m, p, n - p);
      assert n - p + p == n;
      ModSubtract(n, p);
    } else {
      ModSmall(n, p);
    }
  }

  lemma ModSubtract(n: nat, p: nat)
    requires 1 <= p <= n
    ensures n % p == (n - p) % p
  {
    var q, r := (n - p) / p, (n - p) % p;
    assert n - p == q * p + r;
    assert n == (q + 1) * p + r;
    DivModUnique(n, q + 1, r, p);
  }

  /** Among n + 1 values in [0, n) two are equal. */
  lemma {:induction false} Pigeonhole(s: seq<int>, n: nat)
    requires |s| > n
    requires forall i :: 0 <= i < |s| ==> 0 <= s[i] < n
    ensures exists i, j :: 0 <= i < j < |s| && s[i] == s[j]
    decreases n
  {
    var x := s[|s| - 1];
    var t := s[..|s| - 1];
    if x in t {
      var i :| 0 <= i < |t| && t[i] == x;
      assert s[i] == s[|s| - 1];
    } else {
      var u := seq(|t|, k requires 0 <= k < |t| => if t[k] < x then t[k] else t[k] - 1);
      Pigeonhole(u, n - 1);
      var i, j :| 0 <= i < j < |u| && u[i] == u[j];
      assert s[i] == t[i] && s[j] == t[j];
    }
  }

  /** The pair of consecutive Fibonacci numbers modulo m at index i, coded as one number in [0, m*m). */
  function PairCode(m: nat, i: nat): (r: int)
    requires m >= 1
    ensures 0 <= r < m * m
  {
    var a, b := Fib(i) % m, Fib(i + 1) % m;
    CodeBound(a, b, m);
    a * m + b
  }

  lemma CodeBound(a: int, b: int, m: int)
    requires 0 <= a < m && 0 <= b < m
    ensures 0 <= a * m + b < m * m
  {
    assert (m - 1) * m - a * m == (m - 1 - a) * m;
    MulAtLeast(1, 0);
    assert (m - 1 - a) * m >= 0;
    assert (m - 1) * m == m * m - m;
    assert a * m >= 0;
  }

  /** Equal codes mean equal pairs. */
  lemma PairCodeEqual(m: nat, i: nat, j: nat)
    requires m >= 1 && PairCode(m, i) == PairCode(m, j)
    ensures Fib(i) % m == Fib(j) % m && Fib(i + 1) % m == Fib(j + 1) % m
  {
    var c := PairCode(m, i);
    DivModUnique(c, Fib(i) % m, Fib(i + 1) % m, m);
    DivModUnique(c, Fib(j) % m, Fib(j + 1) % m, m);
  }

  /** Two remainders that give the same remainder after adding b are equal. */
  lemma AddCancel(x: int, y: int, b: int, m: int)
    requires m >= 1 && 0 <= x < m && 0 <= y < m && 0 <= b < m
    requires (x + b) % m == (y + b) % m
    ensures x == y
  {
    if x + b < m {
      DivModUnique(x + b, 0, x + b, m);
    } else {
      DivModUnique(x + b, 1, x + b - m, m);
    }
    if y + b < m {
      DivModUnique(y + b, 0, y + b, m);
    } else {
      DivModUnique(y + b, 1, y + b - m, m);
    }
  }

  /** Differences of congruent numbers are congruent. */
  lemma SubCongruent(a: int, b: int, c: int, d: int, m: int)
    requires m >= 1 && a % m == c % m && b % m == d % m
    ensures (a - b) % m == (c - d) % m
  {
    var u, w := a - b, c - d;
    ModAdd(u, b, m);
    ModAdd(w, d, m);
    assert u + b == a && w + d == c;
    AddCancel(u % m, w % m, b % m, m);
  }

  /** Equal pairs at i and j >= i >= 1 give equal pairs one step back: F(i-1) = F(i+1) - F(i). */
  lemma PairBack(m: nat, i: nat, j: nat)
    requires m >= 1 && 1 <= i && 1 <= j
    requires Fib(i) % m == Fib(j) % m && Fib(i + 1) % m == Fib(j + 1) % m
    ensures Fib(i - 1) % m == Fib(j - 1) % m
  {
    assert Fib(i - 1) == Fib(i + 1) - Fib(i);
    assert Fib(j - 1) == Fib(j + 1) - Fib(j);
    SubCongruent(Fib(i + 1), Fib(i), Fib(j + 1), Fib(j), m);
  }

  /** Equal pairs at i <= j repeat the starting pair (0, 1) at j - i. */
  lemma {:induction false} PairToStart(m: nat, i: nat, j: nat)
    requires m >= 1 && i <= j
    requires Fib(i) % m == Fib(j) % m && Fib(i + 1) % m == Fib(j + 1) % m
    ensures Fib(0) % m == Fib(j - i) % m && Fib(1) % m == Fib(j - i + 1) % m
    decreases i
  {
    if i > 0 {
      PairBack(m, i, j);
      PairToStart(m, i - 1, j - 1);
    }
  }

  /** For m >= 2 some p in [1, m*m] is a Pisano period: pigeonhole on the m*m + 1 first pairs, then walk back to (0, 1). */
  lemma PisanoExists(m: nat)
    requires m >= 2
    ensures exists p :: 1 <= p <= m * m && IsPisano(m, p)
  {
    var codes := seq(m * m + 1, i requires 0 <= i => PairCode(m, i));
    Pigeonhole(codes, m * m);
    var i, j :| 0 <= i < j < |codes| && codes[i] == codes[j];
    PairCodeEqual(m, i, j);
    PairToStart(m, i, j);
    ModSmall(0, m);
    ModSmall(1, m);
    assert IsPisano(m, j - i);
  }
}
