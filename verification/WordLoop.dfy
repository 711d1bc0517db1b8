/** The emitted `word` loop: eight bytes or-ed together into one signed 64-bit number. */
module WordLoop {
  import opened Common

  const HALF: int := 0x8000_0000_0000_0000
  const MODULUS: int := 0x1_0000_0000_0000_0000

  /** The signed 64-bit number in the residue class of `v`. */
  function Wrap(v: int): (w: int)
    ensures -HALF <= w < HALF
  {
    var m := v % MODULUS;
    if m < HALF then m else m - MODULUS
  }

  /** Bitwise or of integers in two's complement, whose sign bit repeats for ever. */
  function BitOr(a: int, b: int): int
    decreases (if a < 0 then -a else a) + (if b < 0 then -b else b)
  {
    if (a == 0 || a == -1) && (b == 0 || b == -1) then (if a == 0 && b == 0 then 0 else -1)
    else 2 * BitOr(a / 2, b / 2) + (if a % 2 == 1 || b % 2 == 1 then 1 else 0)
  }

  function ShiftLeft(x: int, k: nat): int { Wrap(x * Pow2(k)) }

  function Signed(b: seq<byte>): int { Wrap(LeNat(b)) }

  lemma {:induction false} OrZero(a: int)
    ensures BitOr(a, 0) == a && BitOr(0, a) == a
    decreases if a < 0 then -a else a
  {
    if a != 0 && a != -1 {
      OrZero(a / 2);
    }
  }

  /** Numbers with no bit in common: or is addition. */
  lemma {:induction false} OrAbove(v: nat, m: int, k: nat)
    requires v < Pow2(k)
    ensures BitOr(v, m * Pow2(k)) == v + m * Pow2(k)
    decreases k
  {
    if k == 0 {
      OrZero(m);
    } else if m == 0 {
      OrZero(v);
    } else {
      var p := Pow2(k - 1);
      assert m * Pow2(k) == 2 * (m * p);
      OrAbove(v / 2, m, k - 1);
      EvenHalf(m * p);
      MultipleIsFar(p, m);
    }
  }

  lemma EvenHalf(x: int)
    ensures (2 * x) / 2 == x && (2 * x) % 2 == 0
  {
  }

  lemma {:induction false} PowBytes(n: nat)
    ensures Pow2(8 * n) == Pow256(n)
  {
    if n > 0 {
      PowBytes(n - 1);
      var k := 8 * (n - 1);
      assert Pow2(k + 2) == 4 * Pow2(k) && Pow2(k + 4) == 4 * Pow2(k + 2) && Pow2(k + 6) == 4 * Pow2(k + 4)
          && Pow2(k + 8) == 4 * Pow2(k + 6);
    }
  }

  lemma {:induction false} LeNatEnd(b: seq<byte>, n: nat)
    requires n < |b|
    ensures LeNat(b[..n + 1]) == LeNat(b[..n]) + b[n] * Pow256(n)
  {
    if n == 0 {
      assert b[..1][1..] == [] && b[..0] == [];
    } else {
      var t := b[1..];
      LeNatEnd(t, n - 1);
      assert b[..n + 1][1..] == t[..n] && b[..n][1..] == t[..n - 1];
      var x: int, p := b[n], Pow256(n - 1);
      assert x * (256 * p) == 256 * (x * p);
    }
  }

  /** The factor that byte `x` contributes at place value `p`: the top byte carries the sign. */
  function Factor(x: byte, p: nat): int { if 256 * p == MODULUS && x >= 128 then x - 256 else x }

  lemma WrapSmall(w: int)
    requires 0 <= w < HALF
    ensures Wrap(w) == w
  {
  }

  lemma TopPlace(v: nat, x: byte)
    requires v < 0x100_0000_0000_0000
    ensures var p := 0x100_0000_0000_0000; var m := if x >= 128 then x - 256 else x;
            Wrap(x * p) == m * p && Wrap(v + x * p) == v + m * p
  {
  }

  lemma LowPlace(v: nat, x: byte, p: nat)
    requires v < p && 256 * p <= HALF
    ensures Wrap(x * p) == x * p && Wrap(v + x * p) == v + x * p
  {
    hide Wrap;
    MulLe(0, x, p);
    MulLe(x, 255, p);
    SmallSum(v, x * p, p);
  }

  lemma SmallSum(v: nat, q: int, p: nat)
    requires v < p && 0 <= q <= 255 * p && 256 * p <= HALF
    ensures Wrap(q) == q && Wrap(v + q) == v + q
  {
    hide Wrap;
    WrapSmall(q);
    WrapSmall(v + q);
  }

  lemma LowFactor(x: byte, p: nat)
    ensures 256 * p <= HALF ==> Factor(x, p) == x
  {
  }

  lemma TopFactor(x: byte, p: nat)
    ensures 256 * p == MODULUS ==> p == 0x100_0000_0000_0000 && Factor(x, p) == if x >= 128 then x - 256 else x
  {
  }

  lemma PlaceValue(v: nat, x: byte, p: nat)
    requires v < p && (256 * p <= HALF || 256 * p == MODULUS)
    ensures Wrap(v) == v && Wrap(x * p) == Factor(x, p) * p && Wrap(v + x * p) == v + Factor(x, p) * p
  {
    hide Wrap, Factor;
    WrapSmall(v);
    LowFactor(x, p);
    TopFactor(x, p);
    if 256 * p <= HALF {
      LowPlace(v, x, p);
    } else {
      TopPlace(v, x);
    }
  }

  lemma Places(i: nat)
    requires i < 8
    ensures 256 * Pow256(i) <= HALF || 256 * Pow256(i) == MODULUS
  {
    assert Pow256(1) == 256 && Pow256(3) == 0x100_0000 && Pow256(5) == 0x100_0000_0000
           && Pow256(7) == 0x100_0000_0000_0000;
  }

  /** Seven bytes stay below the sign bit; the eighth brings the sign. */
  lemma NextByte(b: seq<byte>, i: nat)
    requires |b| == 8 && i < 8
    ensures BitOr(Wrap(LeNat(b[..i])), ShiftLeft(b[i], 8 * i)) == Wrap(LeNat(b[..i + 1]))
  {
    var v, p := LeNat(b[..i]), Pow256(i);
    LeNatBound(b[..i]);
    LeNatEnd(b, i);
    PowBytes(i);
    Places(i);
    hide Pow256, Pow2, LeNat, BitOr, Wrap, Factor;
    PlaceValue(v, b[i], p);
    OrAbove(v, Factor(b[i], p), 8 * i);
  }

  method Word(d: seq<byte>, off: nat) returns (v: int)
    requires off + 8 <= |d|
    ensures v == Signed(d[off..off + 8])
  {
    ghost var b := d[off..off + 8];
    var i := 0;
    v := 0;
    while i != 8
      invariant 0 <= i <= 8 && v == Wrap(LeNat(b[..i]))
    {
      NextByte(b, i);
      v := BitOr(v, ShiftLeft(d[off + i], i * 8));
      i := i + 1;
    }
    assert b[..8] == b;
  }

  /** The eight bytes of a signed number, least significant first. */
  function SignedBytes(x: int): (b: seq<byte>)
    requires -HALF <= x < HALF
    ensures |b| == 8
  {
    LeBytes(Unsigned(x), 8)
  }

  lemma Pow256Eight()
    ensures Pow256(8) == MODULUS
  {
    assert Pow256(4) == 0x1_0000_0000;
    assert Pow256(6) == 0x1_0000 * Pow256(4);
  }

  function Unsigned(x: int): int { if x < 0 then x + MODULUS else x }

  lemma UnsignedWrap(x: int, n: int)
    requires -HALF <= x < HALF && 0 <= n < MODULUS
    ensures 0 <= Unsigned(x) < MODULUS && Wrap(Unsigned(x)) == x && Unsigned(Wrap(n)) == n
  {
  }

  /** Every signed number comes back from its bytes, and every eight bytes from their number. */
  lemma SignedRoundTrip(x: int, b: seq<byte>)
    requires -HALF <= x < HALF && |b| == 8
    ensures Signed(SignedBytes(x)) == x && SignedBytes(Signed(b)) == b
  {
    hide LeBytes, LeNat, Pow256, Wrap;
    Pow256Eight();
    LeNatBound(b);
    UnsignedWrap(x, LeNat(b));
    LeNatOfLeBytes(Unsigned(x), 8);
    LeBytesOfLeNat(b);
  }
}
