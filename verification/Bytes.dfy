/** Bytes, fixed-width integers and their big- and little-endian encodings. */
module Bytes {

  type byte = b: int | 0 <= b < 0x100
  type u16 = n: int | 0 <= n < 0x1_0000
  type u32 = n: int | 0 <= n < 0x1_0000_0000
  type u64 = n: int | 0 <= n < 0x1_0000_0000_0000_0000
  type i32 = n: int | -0x8000_0000 <= n < 0x8000_0000
  type i64 = n: int | -0x8000_0000_0000_0000 <= n < 0x8000_0000_0000_0000

  const TWO_32 := 0x1_0000_0000
  const TWO_64 := 0x1_0000_0000_0000_0000

  lemma SliceOfSlice<T>(s: seq<T>, lo: nat, hi: nat, i: nat, j: nat)
    requires lo + i <= lo + j <= hi <= |s|
    ensures s[lo..hi][i..j] == s[lo + i..lo + j]
  {
    var t, u := s[lo..hi][i..j], s[lo + i..lo + j];
    assert |t| == |u| == j - i;
    assert forall k | 0 <= k < j - i :: t[k] == s[lo..hi][i + k] == s[lo + i + k] == u[k];
  }

  /** The bytes of an ASCII text. */
  function Ascii(text: string): (s: seq<byte>)
    ensures |s| == |text| && forall i | 0 <= i < |text| :: s[i] == text[i] as int % 0x100
  {
    seq(|text|, i requires 0 <= i < |text| => text[i] as int % 0x100)
  }

  /** The two bytes of a 16-bit number, most significant first. */
  function BE16(n: u16): (s: seq<byte>)
    ensures |s| == 2 && 0x100 * s[0] as int + s[1] as int == n
  {
    [n / 0x100, n % 0x100]
  }

  function FromBE16(hi: byte, lo: byte): u16 {
    hi * 0x100 + lo
  }

  /** 256 to the power of k. */
  function Pow256(k: nat): (r: nat)
    ensures r > 0
  {
    if k == 0 then 1 else 0x100 * Pow256(k - 1)
  }

  /** The k least significant bytes of n, least significant first. */
  function ToLE(n: nat, k: nat): (s: seq<byte>)
    ensures |s| == k
  {
    if k == 0 then [] else [n % 0x100] + ToLE(n / 0x100, k - 1)
  }

  function FromLE(s: seq<byte>): nat {
    if s == [] then 0 else s[0] + 0x100 * FromLE(s[1..])
  }

  lemma {:induction false} FromToLE(n: nat, k: nat)
    requires n < Pow256(k)
    ensures FromLE(ToLE(n, k)) == n
  {
    if k > 0 {
      FromToLE(n / 0x100, k - 1);
      assert ToLE(n, k)[1..] == ToLE(n / 0x100, k - 1);
    }
  }

  lemma LowByte(b: byte, n: nat)
    ensures (b + 0x100 * n) % 0x100 == b && (b + 0x100 * n) / 0x100 == n
  {}

  lemma {:induction false} ToFromLE(s: seq<byte>)
    ensures FromLE(s) < Pow256(|s|)
    ensures ToLE(FromLE(s), |s|) == s
  {
    if s != [] {
      ToFromLE(s[1..]);
      LowByte(s[0], FromLE(s[1..]));
      assert s == [s[0]] + s[1..];
    }
  }

  // ----------------------------------------------------- bytes by their places

  /** Byte i of a little-endian number counts 256^i. */
  function PlaceSum(s: seq<byte>, n: nat): nat
    requires n <= |s|
  {
    if n == 0 then 0 else PlaceSum(s, n - 1) + s[n - 1] * Pow256(n - 1)
  }

  lemma {:induction false} PlaceSumTail(s: seq<byte>, n: nat)
    requires 0 < n <= |s|
    ensures PlaceSum(s, n) == s[0] + 0x100 * PlaceSum(s[1..], n - 1)
  {
    if n > 1 {
      PlaceSumTail(s, n - 1);
      Distribute(s[n - 1], Pow256(n - 2), PlaceSum(s[1..], n - 2));
    }
  }

  lemma Distribute(b: nat, p: nat, q: nat)
    ensures 0x100 * q + b * (0x100 * p) == 0x100 * (q + b * p)
  {}

  lemma {:induction false} FromLEIsSum(s: seq<byte>)
    ensures FromLE(s) == PlaceSum(s, |s|)
  {
    if s != [] {
      FromLEIsSum(s[1..]);
      PlaceSumTail(s, |s|);
    }
  }

  /** The four bytes at a place are those of n, least significant first; for a negative n, those of n modulo 2^32. */
  predicate IsLE32(s: seq<byte>, at: nat, n: int)
    requires at + 4 <= |s|
  {
    && s[at] == n % 0x100 && s[at + 1] == n / 0x100 % 0x100
    && s[at + 2] == n / 0x1_0000 % 0x100 && s[at + 3] == n / 0x100_0000 % 0x100
  }

  /** The number that four bytes stand for. */
  function Word(s: seq<byte>, at: nat): nat
    requires at + 4 <= |s|
  {
    s[at] as int + 0x100 * s[at + 1] as int + 0x1_0000 * s[at + 2] as int + 0x100_0000 * s[at + 3] as int
  }

  lemma LiftLE32(s: seq<byte>, at: nat, t: seq<byte>, i: nat, n: int)
    requires at + |t| <= |s| && s[at..at + |t|] == t && i + 4 <= |t| && IsLE32(t, i, n)
    ensures IsLE32(s, at + i, n)
  {
    var u := s[at..at + |t|];
    assert forall j | 0 <= j < |t| :: u[j] == s[at + j];
  }

  lemma FromLE32Word(s: seq<byte>)
    requires |s| == 4
    ensures FromLE32(s) == Word(s, 0)
  {
    assert FromLE(s) == s[0] + 0x100 * FromLE(s[1..]);
    assert FromLE(s[1..]) == s[1] + 0x100 * FromLE(s[1..][1..]);
    assert FromLE(s[1..][1..]) == s[2] + 0x100 * FromLE(s[1..][1..][1..]);
    assert FromLE(s[1..][1..][1..]) == s[3];
  }

  lemma FromLE64Words(s: seq<byte>)
    requires |s| == 8
    ensures FromLE64(s) == Word(s, 0) + 0x1_0000_0000 * Word(s, 4)
  {
    FromLESplit(s[..4], s[4..]);
    assert s[..4] + s[4..] == s;
    FromLE32Word(s[..4]);
    FromLE32Word(s[4..]);
    assert Pow256(4) == 0x1_0000_0000;
  }

  lemma {:induction false} FromLESplit(s: seq<byte>, t: seq<byte>)
    ensures FromLE(s + t) == FromLE(s) + Pow256(|s|) * FromLE(t)
  {
    if s == [] {
      assert s + t == t;
    } else {
      FromLESplit(s[1..], t);
      assert (s + t)[1..] == s[1..] + t;
      Regather(s[0], FromLE(s[1..]), Pow256(|s| - 1), FromLE(t));
    }
  }

  lemma Regather(b: nat, x: nat, p: nat, y: nat)
    ensures b + 0x100 * (x + p * y) == b + 0x100 * x + (0x100 * p) * y
  {}

  lemma LE32Bytes(n: int)
    ensures IsLE32(LE32(ToU32(n)), 0, n)
  {
    var u := ToU32(n);
    var u1 := u / 0x100;
    var u2 := u1 / 0x100;
    var u3 := u2 / 0x100;
    assert ToLE(u3, 1) == [u3 % 0x100];
    assert ToLE(u2, 2) == [u2 % 0x100] + ToLE(u3, 1);
    assert ToLE(u1, 3) == [u1 % 0x100] + ToLE(u2, 2);
    assert LE32(u) == [u % 0x100] + ToLE(u1, 3);
    SameBytes(n, u, (n - u) / TWO_32);
  }

  /** Numbers that agree modulo 2^32 have the same four low bytes. */
  lemma SameBytes(n: int, u: u32, q: int)
    requires n == q * TWO_32 + u
    ensures n % 0x100 == u % 0x100 && n / 0x100 % 0x100 == u / 0x100 % 0x100
    ensures n / 0x1_0000 % 0x100 == u / 0x1_0000 % 0x100 && n / 0x100_0000 % 0x100 == u / 0x100_0000 % 0x100
    ensures u / 0x100 / 0x100 == u / 0x1_0000 && u / 0x100 / 0x100 / 0x100 == u / 0x100_0000
  {
    SameByte(n, u, q * 0x100_0000, 1);
    SameByte(n, u, q * 0x1_0000, 0x100);
    SameByte(n, u, q * 0x100, 0x1_0000);
    SameByte(n, u, q, 0x100_0000);
    DivMod(u, 0x100);
    DivMod(u / 0x100, 0x100);
    DivMod(u, 0x1_0000);
  }

  lemma SameByte(n: int, u: u32, q: int, m: nat)
    requires m > 0 && n == q * 0x100 * m + u
    ensures n / m % 0x100 == u / m % 0x100
  {
    DivUnique(n, m, q * 0x100 + u / m, u % m);
  }

  lemma LE64Bytes(n: int)
    ensures var s := LE64(ToU64(n)); IsLE32(s, 0, n) && IsLE32(s, 4, n / 0x1_0000_0000)
  {
    var u := ToU64(n);
    var lo, hi := u % TWO_32, u / TWO_32;
    assert Pow256(4) == TWO_32;
    ToLESplit(u, 4, 4, lo, hi);
    assert LE64(u) == LE32(lo) + LE32(hi);
    Halves(n, u, lo, hi, (n - u) / TWO_64);
    hide ToLE;
    LE32Bytes(n);
    LE32Bytes(n / TWO_32);
  }

  lemma Halves(n: int, u: u64, lo: u32, hi: u32, q: int)
    requires n == q * TWO_64 + u && u == hi * TWO_32 + lo
    ensures ToU32(n) == lo && ToU32(n / TWO_32) == hi
  {
    DivUnique(n, TWO_32, q * TWO_32 + hi, lo);
    DivUnique(q * TWO_32 + hi, TWO_32, q, hi);
  }

  lemma {:induction false} ToLESplit(n: nat, j: nat, k: nat, lo: nat, hi: nat)
    requires n == Pow256(j) * hi + lo && lo < Pow256(j)
    ensures ToLE(n, j + k) == ToLE(lo, j) + ToLE(hi, k)
  {
    if j > 0 {
      var p := Pow256(j - 1);
      Lower(n, p, lo, hi);
      LEStep(n, j + k);
      LEStep(lo, j);
      ToLESplit(n / 0x100, j - 1, k, lo / 0x100, hi);
      hide ToLE, Pow256;
    }
  }

  lemma Lower(n: nat, p: nat, lo: nat, hi: nat)
    requires n == (0x100 * p) * hi + lo && lo < 0x100 * p
    ensures n % 0x100 == lo % 0x100 && n / 0x100 == p * hi + lo / 0x100 && lo / 0x100 < p
  {
    assert (0x100 * p) * hi == 0x100 * (p * hi);
    DivUnique(n, 0x100, p * hi + lo / 0x100, lo % 0x100);
  }

  lemma LEStep(n: nat, k: nat)
    requires k > 0
    ensures ToLE(n, k) == [n % 0x100] + ToLE(n / 0x100, k - 1)
  {}

  lemma DivMod(n: nat, p: nat)
    requires p > 0
    ensures n / 0x100 / p == n / (0x100 * p)
    ensures n % (0x100 * p) % 0x100 == n % 0x100
    ensures n % (0x100 * p) / 0x100 == n / 0x100 % p
  {
    var a, b := n / 0x100, n % 0x100;
    var c, d := a / p, a % p;
    Nested(n, p, a, b, c, d);
    DivUnique(n, 0x100 * p, c, 0x100 * d + b);
  }

  lemma Nested(n: nat, p: nat, a: nat, b: nat, c: nat, d: nat)
    requires n == 0x100 * a + b && a == p * c + d && b < 0x100 && d < p
    ensures n == (0x100 * p) * c + (0x100 * d + b) && 0x100 * d + b < 0x100 * p
  {}

  lemma Multiples(m: nat, k: int)
    ensures k >= 1 ==> m * k >= m
    ensures k <= -1 ==> m * k <= -(m as int)
  {
    if k >= 1 {
      assert m * (k - 1) >= 0;
    } else if k <= -1 {
      assert m * (-1 - k) >= 0;
    }
  }

  lemma Difference(m: nat, q: int, q': int, r: int, r': int)
    requires m * q + r == m * q' + r'
    ensures m * (q - q') == r' - r
  {}

  lemma DivUnique(n: int, m: nat, q: int, r: nat)
    requires m > 0 && n == m * q + r && r < m
    ensures n / m == q && n % m == r
  {
    Difference(m, q, n / m, r, n % m);
    Multiples(m, q - n / m);
  }

  // ------------------------------------------------------------- conversions

  /** Go's conversions between signed and unsigned words of the same width keep the value modulo 2^32 or 2^64. */
  function ToU32(n: int): u32 { n % TWO_32 }
  function ToU64(n: int): u64 { n % TWO_64 }
  function ToI32(n: int): i32 {
    var u := n % TWO_32;
    if u < 0x8000_0000 then u else u - TWO_32
  }
  function ToI64(n: int): i64 {
    var u := n % TWO_64;
    if u < 0x8000_0000_0000_0000 then u else u - TWO_64
  }

  lemma Conversions32(n: int)
    ensures (ToU32(n) - n) % 0x1_0000_0000 == 0 && (ToI32(n) - n) % 0x1_0000_0000 == 0
  {}

  lemma Conversions64(n: int)
    ensures (ToU64(n) - n) % 0x1_0000_0000_0000_0000 == 0 && (ToI64(n) - n) % 0x1_0000_0000_0000_0000 == 0
  {}

  function LE32(n: u32): (s: seq<byte>)
    ensures |s| == 4
  {
    ToLE(n, 4)
  }

  function FromLE32(s: seq<byte>): u32
    requires |s| == 4
  {
    ToFromLE(s);
    FromLE(s)
  }

  function LE64(n: u64): (s: seq<byte>)
    ensures |s| == 8
  {
    ToLE(n, 8)
  }

  function FromLE64(s: seq<byte>): u64
    requires |s| == 8
  {
    ToFromLE(s);
    assert Pow256(8) == TWO_64;
    FromLE(s)
  }

  lemma LE32RoundTrip(n: u32)
    ensures FromLE32(LE32(n)) == n
  {
    FromToLE(n, 4);
  }

  lemma LE64RoundTrip(n: u64)
    ensures FromLE64(LE64(n)) == n
  {
    assert Pow256(8) == TWO_64;
    FromToLE(n, 8);
  }

  /** A signed word survives the trip through the unsigned word of its width. */
  lemma SignedRoundTrip(a: i32, b: i64)
    ensures ToI32(ToU32(a)) == a && ToI64(ToU64(b)) == b
  {}
}
