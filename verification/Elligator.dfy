/**
The Elligator 2 map that turns a PIN-derived secret into the base point of the
exchange (RFC 9380, section 6.7.1, on the curve of RFC 7748, section 4.1).
*/
module Elligator {
  import opened Bytes
  import opened Wrappers
  import opened Residues

  /** A field and the curve v^2 = u^3 + a*u^2 + u over it. */
  datatype Curve = Curve(p: nat, a: int)

  /** 2^255 - 19 */
  const P25519: nat := 0x7fffffff_ffffffff_ffffffff_ffffffff_ffffffff_ffffffff_ffffffff_ffffffed
  const A25519: int := 0x076d06
  /** 2^256 */
  const TWO_256: nat := 0x1_00000000_00000000_00000000_00000000_00000000_00000000_00000000_00000000

  ghost predicate Suitable(c: Curve) {
    Prime(c.p) && c.p % 8 == 5 && c.p < TWO_256
  }

  lemma SuitableCurve25519()
    requires Prime(P25519)
    ensures Suitable(Curve(P25519, A25519))
  {}

  /** The right-hand side of the curve equation. */
  function Rhs(c: Curve, u: int): int {
    u * u * u + c.a * (u * u) + u
  }

  function Denominator(r: int): int {
    1 + 2 * (r * r)
  }

  /** u solves the first candidate's equation, u * (1 + 2r^2) = -a. */
  predicate FirstCandidate(c: Curve, r: int, u: int)
    requires c.p > 0
  {
    Cong(u * Denominator(r), -c.a, c.p)
  }

  /**
  The map that the code computes: the first candidate if its right-hand side is a square other than
  zero, and the second candidate -a - u otherwise. The RFC counts zero as a square; see SameAsRfc.
  */
  ghost predicate IsMapped(c: Curve, r: int, x: int)
    requires c.p > 0
  {
    exists u: int :: IsChosen(c, r, u, x)
  }

  function Reduce(z: int, p: nat): int
    requires p > 0
  {
    z % p
  }

  ghost predicate IsChosen(c: Curve, r: int, u: int, x: int)
    requires c.p > 0
  {
    && 0 <= u < c.p && FirstCandidate(c, r, u)
    && x == if Square(Rhs(c, u), c.p) && !Cong(Rhs(c, u), 0, c.p) then u else Reduce(-c.a - u, c.p)
  }

  /** The map as RFC 9380, section 6.7.1, states it: zero is a square, so the first candidate is kept there. */
  ghost predicate IsRfcChosen(c: Curve, r: int, u: int, x: int)
    requires c.p > 0
  {
    && 0 <= u < c.p && FirstCandidate(c, r, u)
    && x == if Square(Rhs(c, u), c.p) then u else Reduce(-c.a - u, c.p)
  }

  // -------------------------------------------------------------- the algebra

  /** The denominator is never zero, because -1 is a square and 2 is not. */
  lemma DenominatorNotZero(c: Curve, r: int)
    requires Suitable(c)
    ensures !Cong(Denominator(r), 0, c.p)
  {
    var t := 2 * (r * r);
    if Cong(1 + t, 0, c.p) {
      CongRefl(1, c.p);
      CongAdd(1 + t, 0, 1, 1, c.p);
      MinusOneIsNotTwiceSquare(r, t, c.p);
    }
  }

  lemma MinusOneIsNotTwiceSquare(r: int, t: int, p: nat)
    requires Prime(p) && p % 8 == 5 && t == 2 * (r * r)
    ensures !Cong(t, -1, p)
  {
    hide Pow;
    var h := (p - 1) / 2;
    if Cong(t, -1, p) {
      if Cong(r, 0, p) {
        TwiceZero(r, p);
        CongSym(t, 0, p);
        CongTrans(0, t, -1, p);
        CongSmall(1, 0, p);
      } else {
        CongPow(t, -1, h, p);
        TwiceSquarePower(r, p);
        PowOfMinusOne(h / 2);
        CongSym(Pow(t, h), -1, p);
        CongTrans(-1, Pow(t, h), 1, p);
        CongSym(-1, 1, p);
        CongSmall(2, 0, p);
      }
    }
  }

  lemma TwiceZero(r: int, p: nat)
    requires p > 0 && Cong(r, 0, p)
    ensures Cong(2 * (r * r), 0, p)
  {
    CongMul(r, 0, r, 0, p);
    CongRefl(2, p);
    CongMul(2, 2, r * r, 0, p);
  }

  /** Twice a nonzero square is not a square. */
  lemma TwiceSquarePower(r: int, p: nat)
    requires Prime(p) && p % 8 == 5 && !Cong(r, 0, p)
    ensures Cong(Pow(2 * (r * r), (p - 1) / 2), -1, p)
  {
    hide Pow;
    var h := (p - 1) / 2;
    PowOfProduct(2, r * r, h);
    PowTwice(r, h);
    Fermat(r, p);
    TwoIsNonResidue(p);
    CongMul(Pow(2, h), -1, Pow(r * r, h), 1, p);
  }

  /** The second candidate is 2r^2 times the first. */
  lemma SecondCandidate(c: Curve, r: int, u: int)
    requires c.p > 0 && FirstCandidate(c, r, u)
    ensures Cong(-c.a - u, 2 * (r * r) * u, c.p)
  {
    var t := 2 * (r * r);
    CongRefl(u, c.p);
    CongAdd(u * Denominator(r), -c.a, u, u, c.p);
    assert u * (1 + t) - u == t * u;
    CongSym(t * u, -c.a - u, c.p);
  }

  /** Hence so are the right-hand sides. */
  lemma SecondRhs(c: Curve, r: int, u: int)
    requires c.p > 0 && FirstCandidate(c, r, u)
    ensures Cong(Rhs(c, -c.a - u), 2 * (r * r) * Rhs(c, u), c.p)
  {
    var t, w, g := 2 * (r * r), -c.a - u, u * u + c.a * u + 1;
    SecondCandidate(c, r, u);
    CongRefl(g, c.p);
    CongMul(w, t * u, g, g, c.p);
    RhsFactored(c.a, u);
    RhsFactored(c.a, w);
    SameQuadratic(c.a, u);
    Reassociate(t, u, g);
  }

  lemma Reassociate(a: int, b: int, c: int)
    ensures (a * b) * c == a * (b * c)
  {}

  lemma RhsFactored(a: int, u: int)
    ensures u * u * u + a * (u * u) + u == u * (u * u + a * u + 1)
  {
    assert u * (a * u) == a * (u * u);
  }

  lemma SameQuadratic(a: int, u: int)
    ensures var w := -a - u; w * w + a * w + 1 == u * u + a * u + 1
  {
    var w := -a - u;
    assert w * w + a * w == w * (w + a) == w * -u;
    assert w * -u == u * u + a * u;
  }

  /** Of the two candidates at least one has a right-hand side that is a square. */
  lemma SecondIsSquare(c: Curve, r: int, u: int)
    requires Suitable(c) && FirstCandidate(c, r, u)
    requires !Cong(Pow(Rhs(c, u), (c.p - 1) / 2), 1, c.p)
    ensures Square(Rhs(c, -c.a - u), c.p)
  {
    hide Rhs, Pow;
    var p, h, t, f, g := c.p, (c.p - 1) / 2, 2 * (r * r), Rhs(c, u), Rhs(c, -c.a - u);
    SecondRhs(c, r, u);
    if Cong(f, 0, p) {
      CongRefl(t, p);
      CongMul(t, t, f, 0, p);
      ZeroIsSquare(t * f, g, p);
    } else if Cong(r, 0, p) {
      TwiceZero(r, p);
      CongRefl(f, p);
      CongMul(t, 0, f, f, p);
      ZeroIsSquare(t * f, g, p);
    } else {
      HalfPower(f, p);
      TwiceSquarePower(r, p);
      PowOfProduct(t, f, h);
      CongMul(Pow(t, h), -1, Pow(f, h), -1, p);
      CongPow(g, t * f, h, p);
      CongTrans(Pow(g, h), Pow(t * f, h), 1, p);
      RootFromPower(g, p);
    }
  }

  lemma ZeroIsSquare(z: int, g: int, p: nat)
    requires p > 0 && Cong(g, z, p) && Cong(z, 0, p)
    ensures Square(g, p)
  {
    CongTrans(g, z, 0, p);
    CongSym(g, 0, p);
    assert IsRoot(0, g, p);
  }

  lemma RhsCong(c: Curve, u: int, v: int)
    requires c.p > 0 && Cong(u, v, c.p)
    ensures Cong(Rhs(c, u), Rhs(c, v), c.p)
  {
    var p := c.p;
    CongMul(u, v, u, v, p);
    CongMul(u * u, v * v, u, v, p);
    CongRefl(c.a, p);
    CongMul(c.a, c.a, u * u, v * v, p);
    CongAdd(u * u * u, v * v * v, c.a * (u * u), c.a * (v * v), p);
    CongAdd(u * u * u + c.a * (u * u), v * v * v + c.a * (v * v), u, v, p);
  }

  lemma SquareCong(a: int, b: int, p: nat)
    requires p > 0 && Square(a, p) && Cong(a, b, p)
    ensures Square(b, p)
  {
    var y :| IsRoot(y, a, p);
    CongTrans(y * y, a, b, p);
    assert IsRoot(y, b, p);
  }

  /** Every mapped value is the u-coordinate of a point of the curve. */
  lemma MappedOnCurve(c: Curve, r: int, x: int)
    requires Suitable(c) && IsMapped(c, r, x)
    ensures 0 <= x < c.p && Square(Rhs(c, x), c.p)
  {
    hide Rhs;
    var u :| IsChosen(c, r, u, x);
    var w := -c.a - u;
    if x != u || !Square(Rhs(c, u), c.p) {
      if Cong(Rhs(c, u), 0, c.p) {
        PowOfZero(Rhs(c, u), c.p);
      } else {
        Euler(Rhs(c, u), c.p);
      }
      SecondIsSquare(c, r, u);
      CongMod(w, c.p);
      CongSym(w % c.p, w, c.p);
      RhsCong(c, w, w % c.p);
      SquareCong(Rhs(c, w), Rhs(c, w % c.p), c.p);
    }
  }

  lemma PowOfZero(f: int, p: nat)
    requires p > 2 && Cong(f, 0, p)
    ensures !Cong(Pow(f, (p - 1) / 2), 1, p)
  {
    var h := (p - 1) / 2;
    CongPow(f, 0, h, p);
    assert Pow(0, h) == 0;
    if Cong(Pow(f, h), 1, p) {
      CongSym(Pow(f, h), 0, p);
      CongTrans(0, Pow(f, h), 1, p);
      CongSym(0, 1, p);
      CongSmall(1, 0, p);
    }
  }

  lemma FirstCandidateUnique(c: Curve, r: int, u: int, v: int)
    requires Suitable(c) && FirstCandidate(c, r, u) && FirstCandidate(c, r, v)
    requires 0 <= u < c.p && 0 <= v < c.p
    ensures u == v
  {
    var d := Denominator(r);
    DenominatorNotZero(c, r);
    hide Denominator;
    CongSym(v * d, -c.a, c.p);
    CongTrans(u * d, -c.a, v * d, c.p);
    assert u * d == d * u && v * d == d * v;
    Cancel(d, u, v, c.p);
    CongSmall(u, v, c.p);
  }

  lemma EvenDenominator(r: int)
    ensures Denominator(-r) == Denominator(r)
  {
    assert (-r) * (-r) == r * r;
  }

  lemma ChosenUnique(c: Curve, r: int, u: int, x: int, v: int, y: int)
    requires Suitable(c) && IsChosen(c, r, u, x) && IsChosen(c, r, v, y)
    ensures x == y
  {
    hide Rhs, Square, FirstCandidate, Reduce, Prime;
    FirstCandidateUnique(c, r, u, v);
  }

  lemma ChosenEven(c: Curve, r: int, u: int, x: int)
    requires c.p > 0 && IsChosen(c, -r, u, x)
    ensures IsChosen(c, r, u, x)
  {
    hide Rhs, Square, Reduce, Denominator;
    EvenDenominator(r);
  }

  /** The map is a function of the residue r, and r and -r map to the same value. */
  lemma MappedUnique(c: Curve, r: int, x: int, y: int)
    requires Suitable(c) && IsMapped(c, r, x) && (IsMapped(c, r, y) || IsMapped(c, -r, y))
    ensures x == y
  {
    hide IsChosen;
    var u :| IsChosen(c, r, u, x);
    if IsMapped(c, r, y) {
      var v :| IsChosen(c, r, v, y);
      ChosenUnique(c, r, u, x, v, y);
    } else {
      var v :| IsChosen(c, -r, v, y);
      ChosenEven(c, r, v, y);
      ChosenUnique(c, r, u, x, v, y);
    }
  }

  /** A first candidate has right-hand side zero only if a is zero or a^2 - 4 is a square in the field. */
  lemma ZeroRhs(c: Curve, r: int, u: int)
    requires Suitable(c) && FirstCandidate(c, r, u) && Cong(Rhs(c, u), 0, c.p)
    ensures Cong(c.a, 0, c.p) || Square(c.a * c.a - 4, c.p)
  {
    var p, a, q := c.p, c.a, u * u + c.a * u + 1;
    RhsFactored(a, u);
    NoZeroDivisors(u, q, p);
    if Cong(u, 0, p) {
      CongRefl(Denominator(r), p);
      CongMul(u, 0, Denominator(r), Denominator(r), p);
      CongSym(u * Denominator(r), -a, p);
      CongTrans(-a, u * Denominator(r), 0, p);
      var k := ToMultiple(-a, 0, p);
      FromMultiple(a, 0, -k, p);
    } else {
      var k := ToMultiple(q, 0, p);
      CompleteSquare(a, u);
      FromMultiple((2 * u + a) * (2 * u + a), a * a - 4, 4 * k, p);
      assert IsRoot(2 * u + a, a * a - 4, p);
    }
  }

  lemma CompleteSquare(a: int, u: int)
    ensures (2 * u + a) * (2 * u + a) == a * a - 4 + 4 * (u * u + a * u + 1)
  {
    var v := 2 * u;
    assert (v + a) * (v + a) == v * v + 2 * (v * a) + a * a;
    assert v * v == 4 * (u * u) && v * a == 2 * (a * u);
  }

  /**
  Code and RFC choose the same candidate exactly if the first one's right-hand side is not zero or
  both candidates are the same; unless a is zero or a^2 - 4 is a square, that is always so.
  */
  lemma SameAsRfc(c: Curve, r: int, u: int, x: int, y: int)
    requires Suitable(c) && IsChosen(c, r, u, x) && IsRfcChosen(c, r, u, y)
    ensures x == y <==> !Cong(Rhs(c, u), 0, c.p) || u == Reduce(-c.a - u, c.p)
    ensures !Cong(c.a, 0, c.p) && !Square(c.a * c.a - 4, c.p) ==> x == y
  {
    if Cong(Rhs(c, u), 0, c.p) {
      ZeroRhs(c, r, u);
      CongRefl(Rhs(c, u), c.p);
      ZeroIsSquare(Rhs(c, u), Rhs(c, u), c.p);
    }
    hide Rhs, Square, FirstCandidate, Reduce, Prime;
  }

  /** Of a number that is not zero and its double, one is a square and the other is not. */
  lemma DoubleOfSquare(a: int, p: nat)
    requires Prime(p) && p % 8 == 5 && !Cong(a, 0, p) && !Cong(2 * a, 0, p) && Square(2 * a, p)
    ensures !Square(a, p)
  {
    hide Pow, Square;
    var h := (p - 1) / 2;
    Euler(2 * a, p);
    if Square(a, p) {
      Euler(a, p);
      TwoIsNonResidue(p);
      PowOfProduct(2, a, h);
      CongMul(Pow(2, h), -1, Pow(a, h), 1, p);
      CongSym(Pow(2 * a, h), -1, p);
      CongTrans(-1, Pow(2 * a, h), 1, p);
      CongSym(-1, 1, p);
      CongSmall(2, 0, p);
    }
  }

  /** The root shows that 2(a^2 - 4) is a square other than zero, and neither a nor a^2 - 4 is zero. */
  predicate Certifies(root: nat, c: Curve)
    requires c.p > 0
  {
    var d := c.a * c.a - 4;
    && !Cong(c.a, 0, c.p) && !Cong(d, 0, c.p) && !Cong(2 * d, 0, c.p)
    && Cong(root * root, 2 * d, c.p)
  }

  /** Where such a root exists, code and RFC choose the same candidate for every input. */
  lemma CertifiedSameAsRfc(c: Curve, root: nat, r: int, u: int, x: int)
    requires Suitable(c) && Certifies(root, c)
    ensures IsChosen(c, r, u, x) <==> IsRfcChosen(c, r, u, x)
  {
    var d := c.a * c.a - 4;
    assert IsRoot(root, 2 * d, c.p);
    DoubleOfSquare(d, c.p);
    if 0 <= u < c.p && FirstCandidate(c, r, u) && Cong(Rhs(c, u), 0, c.p) {
      ZeroRhs(c, r, u);
    }
  }

  ghost predicate IsRfcMapped(c: Curve, r: int, x: int)
    requires c.p > 0
  {
    exists u: int :: IsRfcChosen(c, r, u, x)
  }

  lemma CertifiedMap(c: Curve, root: nat, r: int, x: int)
    requires Suitable(c) && Certifies(root, c)
    ensures IsMapped(c, r, x) <==> IsRfcMapped(c, r, x)
  {
    hide IsChosen, IsRfcChosen, Certifies;
    forall u: int {
      CertifiedSameAsRfc(c, root, r, u, x);
    }
  }

  /** A square root of 2(A^2 - 4) modulo 2^255 - 19. */
  const ROOT: nat := 0x1b1ec747_62bbdddf_a5f1f805_ef304cd8_059dc073_7df85141_a9739e67_5505b5bb

  lemma Curve25519Certified()
    ensures Certifies(ROOT, Curve(P25519, A25519))
  {}

  // ------------------------------------------------------- bytes and residues

  function Reversed(s: seq<byte>): (r: seq<byte>)
    ensures |r| == |s|
  {
    seq(|s|, i requires 0 <= i < |s| => s[|s| - 1 - i])
  }

  /** The number that big.Int.SetBytes reads: most significant byte first. */
  function FromBE(s: seq<byte>): nat {
    if s == [] then 0 else FromBE(s[..|s| - 1]) * 0x100 + s[|s| - 1]
  }

  /** The bytes that big.Int.Bytes returns: most significant first, without leading zeros. */
  function MinimalBE(x: nat): seq<byte> {
    if x == 0 then [] else MinimalBE(x / 0x100) + [x % 0x100]
  }

  lemma {:induction false} FromBEReversed(s: seq<byte>)
    ensures FromBE(Reversed(s)) == FromLE(s)
  {
    if s != [] {
      FromBEReversed(s[1..]);
      assert Reversed(s)[..|s| - 1] == Reversed(s[1..]);
    }
  }

  lemma {:induction false} MinimalBEValue(x: nat, k: nat)
    requires x < Pow256(k)
    ensures FromBE(MinimalBE(x)) == x && |MinimalBE(x)| <= k
  {
    if x > 0 {
      MinimalBEValue(x / 0x100, k - 1);
      assert MinimalBE(x)[..|MinimalBE(x)| - 1] == MinimalBE(x / 0x100);
    }
  }

  lemma {:induction false} Pow256Sum(m: nat, n: nat)
    ensures Pow256(m + n) == Pow256(m) * Pow256(n)
  {
    if m > 0 {
      Pow256Sum(m - 1, n);
      var a, b := Pow256(m - 1), Pow256(n);
      assert Pow256(m) == 0x100 * a && Pow256(m + n) == 0x100 * Pow256(m - 1 + n);
      hide Pow256;
      Reassociate(0x100, a, b);
    }
  }

  lemma ThirtyTwoBytes()
    ensures Pow256(32) == TWO_256
  {
    assert Pow256(8) == TWO_64;
    Pow256Sum(8, 8);
    Pow256Sum(16, 16);
  }

  function Zeros(n: nat): (z: seq<byte>)
    ensures |z| == n
  {
    seq(n, _ => 0)
  }

  lemma {:induction false} LeadingZeros(n: nat, s: seq<byte>)
    ensures FromBE(Zeros(n) + s) == FromBE(s)
  {
    var z := Zeros(n) + s;
    if s != [] {
      LeadingZeros(n, s[..|s| - 1]);
      assert z[..|z| - 1] == Zeros(n) + s[..|s| - 1];
    } else if n > 0 {
      LeadingZeros(n - 1, []);
      assert z[..|z| - 1] == Zeros(n - 1) + [];
    }
  }

  method ReverseBytes(b: seq<byte>) returns (result: array<byte>)
    ensures fresh(result) && result[..] == Reversed(b)
  {
    result := new byte[|b|](_ => 0);
    for i := 0 to |b|
      invariant forall k | 0 <= k < i :: result[k] == b[|b| - 1 - k]
    {
      result[i] := b[|b| - 1 - i];
    }
  }

  method BytesToFieldElement(b: seq<byte>, p: nat) returns (x: nat)
    requires p > 0
    ensures x == FromLE(b) % p
  {
    var reversed := ReverseBytes(b);
    FromBEReversed(b);
    x := FromBE(reversed[..]) % p;
  }

  method FieldElementToBytes(x: nat) returns (out: array<byte>)
    requires x < TWO_256
    ensures fresh(out) && out.Length == 32 && FromLE(out[..]) == x
  {
    ThirtyTwoBytes();
    MinimalBEValue(x, 32);
    var b := MinimalBE(x);
    if |b| < 32 {
      LeadingZeros(32 - |b|, b);
      b := Zeros(32 - |b|) + b;
    }
    out := ReverseBytes(b);
    FromBEReversed(Reversed(b));
    assert Reversed(Reversed(b)) == b;
  }

  // ------------------------------------------------------------- the algorithm

  /** big.Int.ModInverse: an inverse modulo n, or nothing when there is none. */
  method ModInverse(g: int, n: nat) returns (r: Maybe<nat>)
    requires n > 1
    ensures r.Just? ==> r.value < n && Cong(g * r.value, 1, n)
    ensures r.Nothing? ==> forall x: nat | x < n :: !Cong(g * x, 1, n)
  {
    if x :| 0 <= x < n && Cong(g * x, 1, n) {
      return Just(x);
    } else {
      return Nothing;
    }
  }

  datatype MapResult = BadLength | DivisionByZero | Mapped(base: array<byte>)

  /** 2^255 */
  const TWO_255: nat := 0x80000000_00000000_00000000_00000000_00000000_00000000_00000000_00000000

  lemma TopBit()
    ensures 0x80 * Pow256(31) == TWO_255
  {
    ThirtyTwoBytes();
    assert Pow256(32) == 0x100 * Pow256(31);
  }

  /** Clearing the top bit of the last byte is reduction modulo half of 256^|r|. */
  lemma MaskedTopBit(r: seq<byte>, n: nat)
    requires |r| == n + 1
    ensures FromLE(r[n := r[n] % 0x80]) == PlaceSum(r, n + 1) % (0x80 * Pow256(n))
  {
    hide Pow256, FromLE, PlaceSum;
    var low := r[..n];
    FromLEIsSum(r);
    ToFromLE(low);
    AppendByte(low, r[n]);
    AppendByte(low, r[n] % 0x80);
    assert r == low + [r[n]] && r[n := r[n] % 0x80] == low + [r[n] % 0x80];
    ClearBit(FromLE(low), r[n], Pow256(n));
  }

  lemma AppendByte(s: seq<byte>, b: byte)
    ensures FromLE(s + [b]) == FromLE(s) + Pow256(|s|) * b
  {
    assert [b][1..] == [];
    assert FromLE([b]) == b;
    hide Pow256, FromLE;
    FromLESplit(s, [b]);
  }

  lemma ClearBit(x: nat, b: nat, p: nat)
    requires x < p && b < 0x100
    ensures (x + p * b) % (0x80 * p) == x + p * (b % 0x80)
  {
    var q, c := b / 0x80, b % 0x80;
    SplitProduct(p, b, q, c);
    DivUnique(x + p * b, 0x80 * p, q, x + p * c);
  }

  lemma SplitProduct(p: nat, b: nat, q: nat, c: nat)
    requires b == 0x80 * q + c && c <= 0x7F
    ensures p * b == (0x80 * p) * q + p * c && p * c <= 0x7F * p
  {
    assert p * b == p * (0x80 * q) + p * c;
    assert p * (0x80 * q) == (0x80 * p) * q;
    assert p * (0x7F - c) >= 0;
  }

  /** Two inputs are the same field element exactly if their numbers without the top bit agree modulo p. */
  lemma SameElement(r: seq<byte>, s: seq<byte>, p: nat)
    requires |r| == |s| == 32 && p > 0
    ensures PlaceSum(r, 32) % TWO_255 % p == PlaceSum(s, 32) % TWO_255 % p
       <==> Cong(PlaceSum(r, 32) % TWO_255, PlaceSum(s, 32) % TWO_255, p)
  {
    SameRemainder(PlaceSum(r, 32) % TWO_255, PlaceSum(s, 32) % TWO_255, p);
  }

  lemma SameRemainder(a: int, b: int, p: nat)
    requires p > 0
    ensures a % p == b % p <==> Cong(a, b, p)
  {
    CongMod(a, p);
    CongMod(b, p);
    if a % p == b % p {
      CongSym(a % p, a, p);
      CongTrans(a, a % p, b, p);
    } else if Cong(a, b, p) {
      CongTrans(a % p, a, b, p);
      CongSym(b % p, b, p);
      CongTrans(a % p, b, b % p, p);
      CongSmall(a % p, b % p, p);
    }
  }

  /** The bytes are a number in which byte i counts 256^i; only its top bit is ignored. */
  method ElligatorCurve25519(r: seq<byte>) returns (res: MapResult)
    requires Prime(P25519)
    ensures |r| != 32 <==> res == BadLength
    ensures |r| == 32 ==>
              && res.Mapped? && fresh(res.base)
              && IsBasePoint(Curve(P25519, A25519), PlaceSum(r, 32) % TWO_255 % P25519, res.base[..])
              && IsRfcMapped(Curve(P25519, A25519), PlaceSum(r, 32) % TWO_255 % P25519, FromLE(res.base[..]))
  {
    var c := Curve(P25519, A25519);
    SuitableCurve25519();
    Curve25519Certified();
    hide Certifies, IsMapped, IsRfcMapped, Square, Rhs, Prime;
    res := MapBytes(r, c, 0x3fffffff_ffffffff_ffffffff_ffffffff_ffffffff_ffffffff_ffffffff_fffffff6);
    if res.Mapped? {
      CertifiedMap(c, ROOT, PlaceSum(r, 32) % TWO_255 % c.p, FromLE(res.base[..]));
    }
  }

  /** 32 bytes that decode to the mapped value of r, which lies on the curve. */
  ghost predicate IsBasePoint(c: Curve, r: int, base: seq<byte>)
    requires c.p > 0
  {
    |base| == 32 && FromLE(base) < c.p && IsMapped(c, r, FromLE(base)) && Square(Rhs(c, FromLE(base)), c.p)
  }

  method MapBytes(r: seq<byte>, c: Curve, pMinus1Div2: nat) returns (res: MapResult)
    requires Suitable(c) && pMinus1Div2 == (c.p - 1) / 2
    ensures |r| != 32 <==> res == BadLength
    ensures |r| == 32 ==>
              && res.Mapped? && fresh(res.base)
              && IsBasePoint(c, PlaceSum(r, 32) % TWO_255 % c.p, res.base[..])
  {
    hide Pow256, FromLE, PlaceSum;
    if |r| != 32 { return BadLength; }
    var rCopy := r[31 := r[31] % 0x80];
    var rField := BytesToFieldElement(rCopy, c.p);
    MaskedTopBit(r, 31);
    TopBit();
    var u := MapField(rField, c, pMinus1Div2);
    if u.Nothing? { return DivisionByZero; }
    MappedOnCurve(c, rField, u.value);
    var out := FieldElementToBytes(u.value);
    res := Mapped(out);
  }

  /** The field arithmetic, with every intermediate value reduced as the code reduces it. */
  method MapField(rField: nat, c: Curve, pMinus1Div2: nat) returns (res: Maybe<nat>)
    requires Suitable(c) && pMinus1Div2 == (c.p - 1) / 2
    ensures res.Just? && IsMapped(c, rField, res.value)
  {
    hide Square, Rhs, Pow, Reduce, IsChosen;
    var p, a := c.p, c.a;
    var r2 := (rField * rField) % p;
    var denom := (1 + 2 * r2) % p;
    ReducedDenominator(c, rField, r2, denom);
    var denomInv := ModInverse(denom, p);
    if denomInv.Nothing? {
      DenominatorHasInverse(c, rField, denom);
      assert false;
    }
    var u := (-a * denomInv.value) % p;
    ReducedCandidate(c, rField, denom, denomInv.value, u);
    var u2 := (u * u) % p;
    var u3 := (u2 * u) % p;
    var au2 := (a * u2) % p;
    var v2 := (u3 + au2 + u) % p;
    ReducedRhs(c, u, u2, u3, au2, v2);
    var chi := Pow(v2, pMinus1Div2) % p;
    ReducedPower(v2, Rhs(c, u), pMinus1Div2, chi, p);
    ghost var first := u;
    if chi != 1 {
      var uOrig := (-a * denomInv.value) % p;
      u := -a - uOrig;
      u := u % p;
    }
    Choice(c, rField, first, u, chi == 1);
    res := Just(u);
  }

  lemma ReducedDenominator(c: Curve, r: nat, r2: int, denom: int)
    requires c.p > 0 && r2 == (r * r) % c.p && denom == (1 + 2 * r2) % c.p
    ensures Cong(denom, Denominator(r), c.p)
  {
    CongMod(r * r, c.p);
    CongRefl(2, c.p);
    CongMul(2, 2, r2, r * r, c.p);
    CongRefl(1, c.p);
    CongAdd(1, 1, 2 * r2, 2 * (r * r), c.p);
    CongMod(1 + 2 * r2, c.p);
    CongTrans(denom, 1 + 2 * r2, Denominator(r), c.p);
  }

  lemma DenominatorHasInverse(c: Curve, r: nat, denom: int)
    requires Suitable(c) && Cong(denom, Denominator(r), c.p)
    ensures exists x: nat :: x < c.p && Cong(denom * x, 1, c.p)
  {
    hide Denominator;
    DenominatorNotZero(c, r);
    CongSym(denom, Denominator(r), c.p);
    if Cong(denom, 0, c.p) {
      CongTrans(Denominator(r), denom, 0, c.p);
    }
    var x := Inverse(denom, c.p);
    CongMod(x, c.p);
    CongRefl(denom, c.p);
    CongMul(denom, denom, x % c.p, x, c.p);
    CongTrans(denom * (x % c.p), denom * x, 1, c.p);
  }

  lemma ReducedCandidate(c: Curve, r: nat, denom: int, inv: nat, u: int)
    requires c.p > 0 && Cong(denom, Denominator(r), c.p) && Cong(denom * inv, 1, c.p) && u == (-c.a * inv) % c.p
    ensures FirstCandidate(c, r, u)
  {
    hide Denominator;
    var p, d, b := c.p, Denominator(r), -c.a;
    CongMod(b * inv, p);
    CongSym(denom, d, p);
    CongMul(u, b * inv, d, denom, p);
    CongRefl(b, p);
    CongMul(b, b, denom * inv, 1, p);
    Reorder(b, inv, denom);
    CongTrans(u * d, (b * inv) * denom, b * 1, p);
  }

  lemma Reorder(b: int, i: int, d: int)
    ensures (b * i) * d == b * (d * i)
  {}

  lemma ReducedRhs(c: Curve, u: int, u2: int, u3: int, au2: int, v2: int)
    requires c.p > 0 && u2 == (u * u) % c.p && u3 == (u2 * u) % c.p && au2 == (c.a * u2) % c.p
    requires v2 == (u3 + au2 + u) % c.p
    ensures Cong(v2, Rhs(c, u), c.p)
  {
    var p := c.p;
    CongMod(u * u, p);
    CongRefl(u, p);
    CongMul(u2, u * u, u, u, p);
    CongMod(u2 * u, p);
    CongTrans(u3, u2 * u, u * u * u, p);
    CongRefl(c.a, p);
    CongMul(c.a, c.a, u2, u * u, p);
    CongMod(c.a * u2, p);
    CongTrans(au2, c.a * u2, c.a * (u * u), p);
    CongAdd(u3, u * u * u, au2, c.a * (u * u), p);
    CongAdd(u3 + au2, u * u * u + c.a * (u * u), u, u, p);
    CongMod(u3 + au2 + u, p);
    CongTrans(v2, u3 + au2 + u, Rhs(c, u), p);
  }

  lemma ReducedPower(v: int, f: int, h: nat, chi: int, p: nat)
    requires p > 1 && Cong(v, f, p) && chi == Pow(v, h) % p
    ensures chi == 1 <==> Cong(Pow(f, h), 1, p)
  {
    var w := Pow(v, h);
    CongPow(v, f, h, p);
    CongSym(w, Pow(f, h), p);
    CongMod(w, p);
    if chi == 1 {
      CongSym(1, w, p);
      CongTrans(Pow(f, h), w, 1, p);
    }
    if Cong(Pow(f, h), 1, p) {
      CongTrans(chi, w, Pow(f, h), p);
      CongTrans(chi, Pow(f, h), 1, p);
      CongSmall(chi, 1, p);
    }
  }

  /** The power test makes the choice between the candidates. */
  lemma Choice(c: Curve, r: int, first: int, u: int, isOne: bool)
    requires Suitable(c) && 0 <= first < c.p && FirstCandidate(c, r, first)
    requires isOne <==> Cong(Pow(Rhs(c, first), (c.p - 1) / 2), 1, c.p)
    requires u == if isOne then first else (-c.a - first) % c.p
    ensures IsMapped(c, r, u)
  {
    hide Rhs, Square, Pow;
    if Cong(Rhs(c, first), 0, c.p) {
      PowOfZero(Rhs(c, first), c.p);
    } else {
      Euler(Rhs(c, first), c.p);
    }
    assert IsChosen(c, r, first, u);
  }
}
