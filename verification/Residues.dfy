/**
Arithmetic modulo a prime, up to Euler's criterion and square roots for p % 8 == 5.
Nothing here is assumed: Fermat's little theorem and the quadratic character of 2
are proved from primality.
*/
module Residues {

  ghost predicate Prime(p: nat) {
    p >= 2 && forall d | 2 <= d < p :: p % d != 0
  }

  /** a and b differ by a multiple of p. */
  predicate Cong(a: int, b: int, p: nat)
    requires p > 0
  {
    (a - b) % p == 0
  }

  function Pow(b: int, n: nat): int {
    if n == 0 then 1 else b * Pow(b, n - 1)
  }

  // ------------------------------------------------------------- congruences

  lemma Multiple(k: int, p: nat)
    requires p > 0
    ensures (k * p) % p == 0
  {
    var q, r := (k * p) / p, (k * p) % p;
    assert k * p == p * q + r;
    assert (k - q) * p == r;
    if k != q {
      NotSmall(k - q, p);
      assert false;
    }
  }

  lemma {:induction false} Grows(k: nat, p: nat)
    requires k > 0
    ensures k * p >= p
  {
    if k > 1 {
      Grows(k - 1, p);
      assert k * p == (k - 1) * p + p;
    }
  }

  /** A multiple of p that is not 0 is at least p away from 0. */
  lemma NotSmall(k: int, p: int)
    requires p > 0 && k != 0
    ensures k * p >= p || k * p <= -p
  {
    if k > 0 {
      Grows(k, p);
    } else {
      Grows(-k, p);
      assert k * p == -((-k) * p);
    }
  }

  lemma FromMultiple(a: int, b: int, k: int, p: nat)
    requires p > 0 && a - b == k * p
    ensures Cong(a, b, p)
  {
    Multiple(k, p);
  }

  lemma ToMultiple(a: int, b: int, p: nat) returns (k: int)
    requires p > 0 && Cong(a, b, p)
    ensures a - b == k * p
  {
    k := (a - b) / p;
  }

  lemma CongRefl(a: int, p: nat)
    requires p > 0
    ensures Cong(a, a, p)
  {}

  lemma CongSym(a: int, b: int, p: nat)
    requires p > 0 && Cong(a, b, p)
    ensures Cong(b, a, p)
  {
    var k := ToMultiple(a, b, p);
    FromMultiple(b, a, -k, p);
  }

  lemma CongTrans(a: int, b: int, c: int, p: nat)
    requires p > 0 && Cong(a, b, p) && Cong(b, c, p)
    ensures Cong(a, c, p)
  {
    var k := ToMultiple(a, b, p);
    var l := ToMultiple(b, c, p);
    FromMultiple(a, c, k + l, p);
  }

  lemma CongAdd(a: int, b: int, c: int, d: int, p: nat)
    requires p > 0 && Cong(a, b, p) && Cong(c, d, p)
    ensures Cong(a + c, b + d, p) && Cong(a - c, b - d, p)
  {
    var k := ToMultiple(a, b, p);
    var l := ToMultiple(c, d, p);
    FromMultiple(a + c, b + d, k + l, p);
    FromMultiple(a - c, b - d, k - l, p);
  }

  lemma CongMul(a: int, b: int, c: int, d: int, p: nat)
    requires p > 0 && Cong(a, b, p) && Cong(c, d, p)
    ensures Cong(a * c, b * d, p)
  {
    var k := ToMultiple(a, b, p);
    var l := ToMultiple(c, d, p);
    calc {
      a * c - b * d;
      (a - b) * c + b * (c - d);
      (k * p) * c + b * (l * p);
      (k * c + b * l) * p;
    }
    FromMultiple(a * c, b * d, k * c + b * l, p);
  }

  lemma CongMod(a: int, p: nat)
    requires p > 0
    ensures Cong(a % p, a, p)
  {
    FromMultiple(a % p, a, -(a / p), p);
  }

  /** Residues in range are equal when they are congruent. */
  lemma CongSmall(a: int, b: int, p: nat)
    requires p > 0 && Cong(a, b, p) && 0 <= a < p && 0 <= b < p
    ensures a == b
  {
    var k := ToMultiple(a, b, p);
    if k != 0 {
      NotSmall(k, p);
      assert false;
    }
  }

  lemma {:induction false} CongPow(a: int, b: int, n: nat, p: nat)
    requires p > 0 && Cong(a, b, p)
    ensures Cong(Pow(a, n), Pow(b, n), p)
  {
    if n == 0 {
      CongRefl(1, p);
    } else {
      CongPow(a, b, n - 1, p);
      CongMul(a, b, Pow(a, n - 1), Pow(b, n - 1), p);
    }
  }

  /** Regroups a product of four factors. */
  lemma Regroup(a: int, b: int, c: int, d: int)
    ensures (a * b) * (c * d) == (a * c) * (b * d)
  {
    calc {
      (a * b) * (c * d);
      a * (b * (c * d));
      a * (c * (b * d));
      (a * c) * (b * d);
    }
  }

  // ------------------------------------------------------------------ powers

  lemma {:induction false} PowAdd(b: int, m: nat, n: nat)
    ensures Pow(b, m + n) == Pow(b, m) * Pow(b, n)
  {
    if m > 0 {
      PowAdd(b, m - 1, n);
      var x, y := Pow(b, m - 1), Pow(b, n);
      assert b * (x * y) == (b * x) * y;
    }
  }

  lemma {:induction false} PowOfProduct(a: int, b: int, n: nat)
    ensures Pow(a * b, n) == Pow(a, n) * Pow(b, n)
  {
    if n > 0 {
      PowOfProduct(a, b, n - 1);
      Regroup(a, b, Pow(a, n - 1), Pow(b, n - 1));
    }
  }

  lemma PowTwice(b: int, n: nat)
    ensures Pow(b, 2 * n) == Pow(b, n) * Pow(b, n) == Pow(b * b, n)
  {
    PowAdd(b, n, n);
    PowOfProduct(b, b, n);
  }

  lemma {:induction false} PowOfOne(n: nat)
    ensures Pow(1, n) == 1
  {
    if n > 0 {
      PowOfOne(n - 1);
    }
  }

  // ---------------------------------------------------------- inverses, zeros

  /** Every residue that is not zero has an inverse modulo a prime. */
  lemma {:induction false} InverseOfSmall(a: nat, p: nat) returns (x: int)
    requires Prime(p) && 0 < a < p
    ensures Cong(a * x, 1, p)
    decreases a
  {
    if a == 1 {
      x := 1;
      CongRefl(1, p);
    } else {
      var q, r := p / a, p % a;
      assert p == a * q + r;
      var y := InverseOfSmall(r, p);
      x := -q * y;
      var k := ToMultiple(r * y, 1, p);
      calc {
        a * x - 1;
        -(a * q) * y - 1;
        (r - p) * y - 1;
        r * y - 1 - p * y;
        (k - y) * p;
      }
      FromMultiple(a * x, 1, k - y, p);
    }
  }

  lemma Inverse(a: int, p: nat) returns (x: int)
    requires Prime(p) && !Cong(a, 0, p)
    ensures Cong(a * x, 1, p)
  {
    CongMod(a, p);
    x := InverseOfSmall(a % p, p);
    CongRefl(x, p);
    CongMul(a % p, a, x, x, p);
    CongSym((a % p) * x, a * x, p);
    CongTrans(a * x, (a % p) * x, 1, p);
  }

  lemma Cancel(a: int, b: int, c: int, p: nat)
    requires Prime(p) && !Cong(a, 0, p) && Cong(a * b, a * c, p)
    ensures Cong(b, c, p)
  {
    var x := Inverse(a, p);
    var k := ToMultiple(a * x, 1, p);
    var l := ToMultiple(a * b, a * c, p);
    calc {
      b - c;
      (a * x - k * p) * (b - c);
      x * (a * b - a * c) - k * p * (b - c);
      x * (l * p) - k * p * (b - c);
      (x * l - k * (b - c)) * p;
    }
    FromMultiple(b, c, x * l - k * (b - c), p);
  }

  lemma NoZeroDivisors(a: int, b: int, p: nat)
    requires Prime(p) && Cong(a * b, 0, p)
    ensures Cong(a, 0, p) || Cong(b, 0, p)
  {
    if !Cong(a, 0, p) {
      assert a * 0 == 0;
      Cancel(a, b, 0, p);
    }
  }

  lemma RootsOfOne(y: int, p: nat)
    requires Prime(p) && Cong(y * y, 1, p)
    ensures Cong(y, 1, p) || Cong(y, -1, p)
  {
    assert (y - 1) * (y + 1) == y * y - 1;
    NoZeroDivisors(y - 1, y + 1, p);
  }

  // ------------------------------------------------- Fermat's little theorem

  /** The residues 1..n. */
  ghost function Upto(n: nat): (s: set<int>)
    ensures |s| == n
    ensures forall x :: x in s <==> 1 <= x <= n
  {
    if n == 0 then {} else Upto(n - 1) + {n}
  }

  /** The product of the members of s that are at most n. */
  ghost function Product(s: set<int>, n: nat): int {
    if n == 0 then 1 else (if n in s then n else 1) * Product(s, n - 1)
  }

  lemma {:induction false} ProductBelow(s: set<int>, x: int, n: nat)
    requires n < x
    ensures Product(s, n) == Product(s - {x}, n)
  {
    if n > 0 {
      ProductBelow(s, x, n - 1);
    }
  }

  lemma {:induction false} ProductOf(s: set<int>, x: int, n: nat)
    requires x in s && 1 <= x <= n
    ensures Product(s, n) == x * Product(s - {x}, n)
  {
    if x == n {
      ProductBelow(s, x, n - 1);
    } else {
      ProductOf(s, x, n - 1);
      var f, q := if n in s then n else 1, Product(s - {x}, n - 1);
      assert f * (x * q) == x * (f * q);
    }
  }

  lemma SubsetOfSameSize(s: set<int>, t: set<int>)
    requires s <= t && |s| == |t|
    ensures s == t
  {
    assert t == s + (t - s);
    assert |t - s| == 0;
  }

  /** The residues of a * x for x in s. */
  ghost function Scaled(a: int, s: set<int>, p: nat): set<int>
    requires p > 0
  {
    set x | x in s :: (a * x) % p
  }

  lemma ScaledInjective(a: int, x: int, y: int, p: nat)
    requires Prime(p) && !Cong(a, 0, p) && 0 < x < p && 0 < y < p
    requires (a * x) % p == (a * y) % p
    ensures x == y
  {
    CongMod(a * x, p);
    CongMod(a * y, p);
    CongSym((a * x) % p, a * x, p);
    CongTrans(a * x, (a * x) % p, a * y, p);
    Cancel(a, x, y, p);
    CongSmall(x, y, p);
  }

  /** Scaling the residues 1..n keeps their number and multiplies their product by a for each of them. */
  lemma {:induction false} ScaledProduct(a: int, n: nat, p: nat)
    requires Prime(p) && !Cong(a, 0, p) && n < p
    ensures |Scaled(a, Upto(n), p)| == n && Scaled(a, Upto(n), p) <= Upto(p - 1)
    ensures Cong(Product(Scaled(a, Upto(n), p), p - 1), Pow(a, n) * Product(Upto(n), n), p)
  {
    hide Scaled, Upto, Product;
    if n == 0 {
      NothingScaled(a, p);
      CongRefl(1, p);
    } else {
      var v, t := (a * n) % p, Scaled(a, Upto(n - 1), p);
      ScaledProduct(a, n - 1, p);
      ScaledNew(a, n, p);
      UptoProduct(n);
      assert t + {v} - {v} == t;
      ProductOf(t + {v}, v, p - 1);
      ScaledStep(a, n, Product(t, p - 1), Pow(a, n - 1), Product(Upto(n - 1), n - 1), p);
    }
  }

  lemma NothingScaled(a: int, p: nat)
    requires p > 0
    ensures Scaled(a, Upto(0), p) == {} && Product({}, p - 1) == Product(Upto(0), 0) == 1
  {
    EmptyProduct(p - 1);
  }

  lemma UptoProduct(n: nat)
    requires n > 0
    ensures Product(Upto(n), n) == n * Product(Upto(n - 1), n - 1)
  {
    assert Upto(n) - {n} == Upto(n - 1);
    ProductBelow(Upto(n), n, n - 1);
  }

  lemma {:induction false} EmptyProduct(n: nat)
    ensures Product({}, n) == 1
  {
    if n > 0 {
      EmptyProduct(n - 1);
    }
  }

  lemma ScaledNew(a: int, n: nat, p: nat)
    requires Prime(p) && !Cong(a, 0, p) && 0 < n < p
    ensures 0 < (a * n) % p
    ensures (a * n) % p !in Scaled(a, Upto(n - 1), p)
    ensures Scaled(a, Upto(n), p) == Scaled(a, Upto(n - 1), p) + {(a * n) % p}
  {
    if (a * n) % p == 0 {
      NoZeroDivisors(a, n, p);
      CongSmall(n, 0, p);
    }
    if (a * n) % p in Scaled(a, Upto(n - 1), p) {
      var y :| y in Upto(n - 1) && (a * y) % p == (a * n) % p;
      ScaledInjective(a, n, y, p);
    }
  }

  lemma ScaledStep(a: int, x: int, t: int, w: int, q: int, p: nat)
    requires p > 0 && Cong(t, w * q, p)
    ensures Cong(((a * x) % p) * t, (a * w) * (x * q), p)
  {
    CongMod(a * x, p);
    CongMul((a * x) % p, a * x, t, w * q, p);
    Regroup(a, x, w, q);
  }

  lemma {:induction false} ProductNotZero(s: set<int>, n: nat, p: nat)
    requires Prime(p) && n < p
    ensures !Cong(Product(s, n), 0, p)
  {
    if Cong(Product(s, n), 0, p) {
      if n == 0 {
        CongSmall(1, 0, p);
      } else {
        ProductNotZero(s, n - 1, p);
        var f := if n in s then n else 1;
        NoZeroDivisors(f, Product(s, n - 1), p);
        CongSmall(f, 0, p);
      }
    }
  }

  lemma Fermat(a: int, p: nat)
    requires Prime(p) && !Cong(a, 0, p)
    ensures Cong(Pow(a, p - 1), 1, p)
  {
    hide Scaled, Upto, Product, Pow;
    var s := Upto(p - 1);
    ScaledProduct(a, p - 1, p);
    SubsetOfSameSize(Scaled(a, s, p), s);
    var q := Product(s, p - 1);
    ProductNotZero(s, p - 1, p);
    CongSym(q, Pow(a, p - 1) * q, p);
    assert q * Pow(a, p - 1) == Pow(a, p - 1) * q && q * 1 == q;
    Cancel(q, Pow(a, p - 1), 1, p);
  }

  // --------------------------------------- 2 is not a square when p % 8 == 5

  function Factorial(n: nat): nat {
    if n == 0 then 1 else n * Factorial(n - 1)
  }

  /** 2 * 4 * ... * 2n */
  function Evens(n: nat): nat {
    if n == 0 then 1 else (2 * n) * Evens(n - 1)
  }

  /** 1 * 3 * ... * (2n - 1) */
  function Odds(n: nat): nat {
    if n == 0 then 1 else (2 * n - 1) * Odds(n - 1)
  }

  /** The last n factors of Evens(h). */
  function LastEvens(h: nat, n: nat): int {
    if n == 0 then 1 else (2 * (h + 1 - n)) * LastEvens(h, n - 1)
  }

  lemma {:induction false} EvensArePowerOfTwo(n: nat)
    ensures Evens(n) == Pow(2, n) * Factorial(n)
  {
    if n > 0 {
      EvensArePowerOfTwo(n - 1);
      var w, f := Pow(2, n - 1), Factorial(n - 1);
      assert Pow(2, n) == 2 * w && Factorial(n) == n * f && Evens(n) == (2 * n) * Evens(n - 1);
      hide Pow, Factorial, Evens;
      Regroup(2, n, w, f);
    }
  }

  lemma {:induction false} EvensTimesOdds(n: nat)
    ensures Evens(n) * Odds(n) == Factorial(2 * n)
  {
    if n > 0 {
      EvensTimesOdds(n - 1);
      var e, o, k, l := Evens(n - 1), Odds(n - 1), 2 * n, 2 * n - 1;
      assert Factorial(k) == k * Factorial(l) && Factorial(l) == l * Factorial(l - 1);
      assert Evens(n) == k * e && Odds(n) == l * o;
      hide Factorial, Evens, Odds;
      Regroup(k, e, l, o);
      Associate(k, l, e * o);
    }
  }

  lemma {:induction false} EvensSplit(h: nat, n: nat)
    requires n <= h
    ensures Evens(h) == Evens(h - n) * LastEvens(h, n)
  {
    if n > 0 {
      EvensSplit(h, n - 1);
      var e, l := Evens(h - n), LastEvens(h, n - 1);
      var f := 2 * (h + 1 - n);
      assert Evens(h - n + 1) == f * e && LastEvens(h, n) == f * l;
      hide Evens, LastEvens;
      Associate(e, f, l);
      assert f * e == e * f;
    }
  }

  lemma Associate(a: int, b: int, c: int)
    ensures (a * b) * c == a * (b * c)
  {}

  /** Modulo 2h + 1 the last even factors are the odd numbers, negated. */
  lemma {:induction false} LastEvensAreNegatedOdds(h: nat, n: nat)
    requires n <= h
    ensures Cong(LastEvens(h, n), Pow(-1, n) * Odds(n), 2 * h + 1)
  {
    var p := 2 * h + 1;
    if n == 0 {
      CongRefl(1, p);
    } else {
      LastEvensAreNegatedOdds(h, n - 1);
      var w, o := Pow(-1, n - 1), Odds(n - 1);
      FromMultiple(2 * (h + 1 - n), -(2 * n - 1), 1, p);
      CongMul(2 * (h + 1 - n), -(2 * n - 1), LastEvens(h, n - 1), w * o, p);
      assert -(2 * n - 1) * (w * o) == (-1 * w) * ((2 * n - 1) * o);
    }
  }

  lemma {:induction false} PowOfMinusOne(n: nat)
    ensures Pow(-1, 2 * n) == 1 && Pow(-1, 2 * n + 1) == -1
  {
    PowTwice(-1, n);
    PowOfOne(n);
    assert Pow(-1, 2 * n + 1) == -1 * Pow(-1, 2 * n);
  }

  lemma {:induction false} FactorialNotZero(n: nat, p: nat)
    requires Prime(p) && n < p
    ensures !Cong(Factorial(n), 0, p)
  {
    if Cong(Factorial(n), 0, p) {
      if n == 0 {
        CongSmall(1, 0, p);
      } else {
        FactorialNotZero(n - 1, p);
        NoZeroDivisors(n, Factorial(n - 1), p);
        CongSmall(n, 0, p);
      }
    }
  }

  /** The second supplement to quadratic reciprocity, for p % 8 == 5. */
  lemma TwoIsNonResidue(p: nat)
    requires Prime(p) && p % 8 == 5
    ensures Cong(Pow(2, (p - 1) / 2), -1, p)
  {
    var h, n: nat := (p - 1) / 2, (p - 1) / 4;
    var f: int := Factorial(h);
    HalfFactorial(h, n);
    LastEvensAreNegatedOdds(h, n);
    FactorialNotZero(h, p);
    CongRefl(Evens(n), p);
    CongMul(Evens(n), Evens(n), LastEvens(h, n), Pow(-1, n) * Odds(n), p);
    Cancel(f, Pow(2, h), -1, p);
  }

  lemma HalfFactorial(h: nat, n: nat)
    requires h == 2 * n && n % 2 == 1
    ensures Evens(n) * LastEvens(h, n) == Factorial(h) * Pow(2, h)
    ensures Evens(n) * (Pow(-1, n) * Odds(n)) == Factorial(h) * -1
  {
    hide Evens, LastEvens, Odds, Factorial, Pow;
    EvensSplit(h, n);
    EvensArePowerOfTwo(h);
    EvensTimesOdds(n);
    PowOfMinusOne((n - 1) / 2);
    assert Pow(-1, n) == -1;
    Negate(Evens(n), Odds(n));
  }

  lemma Negate(e: int, o: int)
    ensures e * (-1 * o) == (e * o) * -1
  {}

  // ------------------------------------------------- squares modulo p % 8 == 5

  ghost predicate Square(a: int, p: nat)
    requires p > 0
  {
    exists y: int :: IsRoot(y, a, p)
  }

  predicate IsRoot(y: int, a: int, p: nat)
    requires p > 0
  {
    Cong(y * y, a, p)
  }

  lemma HalfPower(a: int, p: nat)
    requires Prime(p) && p % 8 == 5 && !Cong(a, 0, p)
    ensures Cong(Pow(a, (p - 1) / 2), 1, p) || Cong(Pow(a, (p - 1) / 2), -1, p)
  {
    Fermat(a, p);
    PowTwice(a, (p - 1) / 2);
    RootsOfOne(Pow(a, (p - 1) / 2), p);
  }

  /** A residue whose power to (p - 1) / 2 is 1 has a square root, with an explicit formula. */
  lemma RootFromPower(a: int, p: nat)
    requires Prime(p) && p % 8 == 5 && Cong(Pow(a, (p - 1) / 2), 1, p)
    ensures Square(a, p)
  {
    var m := (p - 5) / 8;
    var e, y := Pow(a, 2 * m + 1), Pow(a, m + 1);
    assert (p - 1) / 2 == 2 * (2 * m + 1);
    PowTwice(a, 2 * m + 1);
    RootsOfOne(e, p);
    assert y * y == a * e by {
      PowTwice(a, m + 1);
      assert 2 * (m + 1) == (2 * m + 1) + 1;
    }
    CongRefl(a, p);
    if Cong(e, 1, p) {
      CongMul(a, a, e, 1, p);
      assert IsRoot(y, a, p);
    } else {
      PowTwice(2, 2 * m + 1);
      TwoIsNonResidue(p);
      RootTimesTwo(a, e, y, Pow(2, 2 * m + 1), p);
    }
  }

  lemma RootTimesTwo(a: int, e: int, y: int, t: int, p: nat)
    requires p > 0 && y * y == a * e && Cong(e, -1, p) && Cong(t * t, -1, p)
    ensures Square(a, p)
  {
    CongRefl(a, p);
    CongMul(a, a, e, -1, p);
    CongMul(a * e, a * -1, t * t, -1, p);
    Regroup(y, t, y, t);
    assert (a * -1) * -1 == a;
    assert IsRoot(y * t, a, p);
  }

  /** Euler's criterion. */
  lemma Euler(a: int, p: nat)
    requires Prime(p) && p % 8 == 5 && !Cong(a, 0, p)
    ensures Square(a, p) <==> Cong(Pow(a, (p - 1) / 2), 1, p)
  {
    if Square(a, p) {
      var y :| IsRoot(y, a, p);
      SquarePower(y, a, p);
    } else if Cong(Pow(a, (p - 1) / 2), 1, p) {
      RootFromPower(a, p);
    }
  }

  lemma SquarePower(y: int, a: int, p: nat)
    requires Prime(p) && p % 2 == 1 && IsRoot(y, a, p) && !Cong(a, 0, p)
    ensures Cong(Pow(a, (p - 1) / 2), 1, p)
  {
    var h := (p - 1) / 2;
    hide Pow;
    CongSym(y * y, a, p);
    if Cong(y, 0, p) {
      CongMul(y, 0, y, 0, p);
      CongTrans(a, y * y, 0, p);
    }
    Fermat(y, p);
    PowTwice(y, h);
    CongPow(a, y * y, h, p);
    CongTrans(Pow(a, h), Pow(y * y, h), 1, p);
  }
}
