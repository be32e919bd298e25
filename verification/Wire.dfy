/** Numbers as octets, in both byte orders, and the exclusive or of two octets. */
module Wire {
  import opened Bytes

  function Pow256(n: nat): (p: nat)
    ensures p > 0
  {
    if n == 0 then 1 else 256 * Pow256(n - 1)
  }

  /** `v >> (8 * i)`. */
  function Shifted(v: nat, i: nat): nat
    decreases i
  {
    if i == 0 then v else Shifted(v / 256, i - 1)
  }

  /** The low `n` octets of `v`, most significant first. */
  function Be(v: nat, n: nat): (s: bytes)
    ensures |s| == n
    decreases n
  {
    if n == 0 then [] else Be(v / 256, n - 1) + [v % 256]
  }

  function BeNumber(s: bytes): nat {
    if s == [] then 0 else 256 * BeNumber(s[..|s| - 1]) + s[|s| - 1]
  }

  function Word(high: nat, low: nat): nat {
    high * 256 + low
  }

  function LongWord(a: nat, b: nat, c: nat, d: nat): nat {
    a * 0x100_0000 + b * 0x1_0000 + c * 0x100 + d
  }

  /** The low `n` octets of `v`, least significant first. */
  function Le(v: nat, n: nat): (s: bytes)
    ensures |s| == n
    decreases n
  {
    if n == 0 then [] else [v % 256] + Le(v / 256, n - 1)
  }

  function LeNumber(s: bytes): nat {
    if s == [] then 0 else s[0] + 256 * LeNumber(s[1..])
  }

  lemma {:induction false} BeRoundTrip(v: nat, n: nat)
    requires v < Pow256(n)
    ensures BeNumber(Be(v, n)) == v
  {
    if n > 0 {
      BeRoundTrip(v / 256, n - 1);
      var s := Be(v / 256, n - 1) + [v % 256];
      assert s[..|s| - 1] == Be(v / 256, n - 1);
    }
  }

  lemma {:induction false} LeRoundTrip(v: nat, n: nat)
    requires v < Pow256(n)
    ensures LeNumber(Le(v, n)) == v
  {
    if n > 0 {
      LeRoundTrip(v / 256, n - 1);
    }
  }

  lemma {:induction false} BeAt(v: nat, n: nat, i: nat)
    requires i < n
    ensures Be(v, n)[i] == Shifted(v, n - 1 - i) % 256
  {
    if i < n - 1 {
      BeAt(v / 256, n - 1, i);
    }
  }

  lemma TwoOctets(v: nat)
    ensures Be(v, 2) == [v / 256 % 256, v % 256]
  {
  }

  lemma {:induction false} BeSnoc(s: bytes, b: byte)
    ensures BeNumber(s + [b]) == 256 * BeNumber(s) + b
  {
  }

  lemma PowersOf256()
    ensures Pow256(1) == 0x100 && Pow256(2) == 0x1_0000 && Pow256(4) == 0x1_0000_0000
    ensures Pow256(8) == 0x1_0000_0000_0000_0000
  {
  }

  // ---------------------------------------------------------------------------
  // Exclusive or
  // ---------------------------------------------------------------------------

  /** Bit by bit on the low `n` bits. */
  function XorBits(a: nat, b: nat, n: nat): nat
    decreases n
  {
    if n == 0 then 0 else 2 * XorBits(a / 2, b / 2, n - 1) + (if a % 2 == b % 2 then 0 else 1)
  }

  function Pow2(n: nat): (p: nat)
    ensures p > 0
  {
    if n == 0 then 1 else 2 * Pow2(n - 1)
  }

  lemma {:induction false} XorBounded(a: nat, b: nat, n: nat)
    ensures XorBits(a, b, n) < Pow2(n)
  {
    if n > 0 {
      XorBounded(a / 2, b / 2, n - 1);
    }
  }

  lemma {:induction false} XorTwice(a: nat, b: nat, n: nat)
    requires a < Pow2(n)
    ensures XorBits(XorBits(a, b, n), b, n) == a
  {
    if n > 0 {
      XorTwice(a / 2, b / 2, n - 1);
      assert XorBits(a, b, n) / 2 == XorBits(a / 2, b / 2, n - 1);
    }
  }

  lemma {:induction false} XorZero(a: nat, n: nat)
    requires a < Pow2(n)
    ensures XorBits(a, 0, n) == a
  {
    if n > 0 {
      XorZero(a / 2, n - 1);
    }
  }

  lemma OctetPower()
    ensures Pow2(8) == 256
  {
  }

  function Xor(a: byte, b: byte): byte {
    assert XorBits(a, b, 8) < 256 by { XorBounded(a, b, 8); OctetPower(); }
    XorBits(a, b, 8)
  }

  const BIT_VALUES: seq<nat> := [1, 2, 4, 8, 16, 32, 64, 128]

  /** Bit `k` of an octet, the lowest first. */
  function Bit(a: byte, k: nat): nat
    requires k < 8
  {
    a / BIT_VALUES[k] % 2
  }

  /** `c` is `a ^ b`: exactly the bits in which the two differ. */
  ghost predicate IsXor(a: byte, b: byte, c: byte) {
    forall k: nat :: k < 8 ==> (Bit(c, k) == 1 <==> Bit(a, k) != Bit(b, k))
  }

  lemma BitsOf(a: byte)
    ensures a == Bit(a, 0) + 2 * Bit(a, 1) + 4 * Bit(a, 2) + 8 * Bit(a, 3)
                 + 16 * Bit(a, 4) + 32 * Bit(a, 5) + 64 * Bit(a, 6) + 128 * Bit(a, 7)
    ensures forall k: nat :: k < 8 ==> Bit(a, k) == 0 || Bit(a, k) == 1
  {
    LowHalves(a);
    HighHalves(a);
    BitsAdd(a, a / 2, a / 4, a / 8, a / 16, a / 32, a / 64, a / 128);
  }

  lemma LowHalves(a: byte)
    ensures a / 2 / 2 == a / 4 && a / 4 / 2 == a / 8 && a / 8 / 2 == a / 16
  {
  }

  lemma HighHalves(a: byte)
    ensures a / 16 / 2 == a / 32 && a / 32 / 2 == a / 64 && a / 64 / 2 == a / 128 && a / 128 < 2
  {
  }

  lemma BitsAdd(a: nat, b: nat, c: nat, d: nat, e: nat, f: nat, g: nat, h: nat)
    requires b == a / 2 && c == b / 2 && d == c / 2 && e == d / 2 && f == e / 2 && g == f / 2 && h == g / 2 && h < 2
    ensures a == a % 2 + 2 * (b % 2) + 4 * (c % 2) + 8 * (d % 2)
                 + 16 * (e % 2) + 32 * (f % 2) + 64 * (g % 2) + 128 * (h % 2)
  {
  }

  /** An octet is given by its bits. */
  lemma SameBits(a: byte, b: byte)
    requires forall k: nat :: k < 8 ==> Bit(a, k) == Bit(b, k)
    ensures a == b
  {
    hide Bit;
    BitsOf(a);
    BitsOf(b);
  }

  lemma {:induction false} XorBitAt(a: nat, b: nat, n: nat, k: nat)
    requires k < n
    ensures XorBits(a, b, n) / Pow2(k) % 2 == if a / Pow2(k) % 2 == b / Pow2(k) % 2 then 0 else 1
  {
    var x := XorBits(a, b, n);
    assert x / 2 == XorBits(a / 2, b / 2, n - 1);
    if k > 0 {
      XorBitAt(a / 2, b / 2, n - 1, k - 1);
      HalfFirst(x, k);
      HalfFirst(a, k);
      HalfFirst(b, k);
    }
  }

  lemma HalfFirst(x: nat, k: nat)
    requires k > 0
    ensures x / Pow2(k) == x / 2 / Pow2(k - 1)
  {
    DivTwice(x, Pow2(k - 1));
  }

  lemma DivTwice(x: nat, p: nat)
    requires p > 0
    ensures x / (2 * p) == x / 2 / p
  {
    var q := x / (2 * p);
    var r := x % (2 * p);
    assert x == (2 * p) * q + r;
    assert x == 2 * (p * q) + r;
    assert x / 2 == p * q + r / 2;
    assert 0 <= r / 2 < p;
    DivUnique(x / 2, p, q, r / 2);
  }

  lemma DivUnique(x: nat, p: nat, q: nat, r: nat)
    requires p > 0 && x == p * q + r && r < p
    ensures x / p == q
  {
    var k := x / p;
    assert x == p * k + x % p;
    if k > q {
      Multiple(p, q + 1, k);
    } else if k < q {
      Multiple(p, k + 1, q);
    }
  }

  lemma Multiple(p: nat, i: nat, j: nat)
    requires i <= j
    ensures p * i <= p * j
  {
  }

  lemma BitPowers()
    ensures forall k: nat :: k < 8 ==> Pow2(k) == BIT_VALUES[k]
  {
    assert Pow2(0) == 1 && Pow2(1) == 2 && Pow2(2) == 4 && Pow2(3) == 8;
    assert Pow2(4) == 16 && Pow2(5) == 32 && Pow2(6) == 64 && Pow2(7) == 128;
  }

  /** The exclusive or, bit by bit, and nothing else is one. */
  lemma XorIs(a: byte, b: byte, c: byte)
    ensures IsXor(a, b, c) <==> c == Xor(a, b)
  {
    hide Pow2, XorBits;
    var x := Xor(a, b);
    BitPowers();
    BitsOf(a);
    BitsOf(b);
    BitsOf(c);
    BitsOf(x);
    forall k: nat | k < 8
      ensures Bit(x, k) == if Bit(a, k) == Bit(b, k) then 0 else 1
    {
      XorBitAt(a, b, 8, k);
    }
    if IsXor(a, b, c) {
      SameBits(c, x);
    }
  }

  lemma XorUndoes(a: byte, b: byte)
    ensures Xor(Xor(a, b), b) == a
    ensures Xor(a, 0) == a
  {
    OctetPower();
    XorTwice(a, b, 8);
    XorZero(a, 8);
  }
}
