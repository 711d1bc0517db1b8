/** The 32-bit hash behind the content identifiers of the notebook shims. */
module Fnv {
  import opened Common
  import opened Hex

  const MODULUS: int := 0x1_0000_0000
  const PRIME: int := 16777619
  const SEED: int := 2166136261

  /** Bitwise exclusive or in two's complement, whose sign bit repeats for ever. */
  function Xor(a: int, b: int): int
    decreases (if a < 0 then -a else a) + (if b < 0 then -b else b)
  {
    if (a == 0 || a == -1) && (b == 0 || b == -1) then (if a == b then 0 else -1)
    else 2 * Xor(a / 2, b / 2) + (if a % 2 != b % 2 then 1 else 0)
  }

  /** The signed 32-bit number in the residue class of `v`. */
  function ToInt32(v: int): (w: int)
    ensures -0x8000_0000 <= w < 0x8000_0000 && w % MODULUS == v % MODULUS
  {
    var m := v % MODULUS;
    if m < 0x8000_0000 then m else m - MODULUS
  }

  /** One character, on numbers that are never negative. */
  function Step(u: nat, c: nat): (v: nat)
    ensures v < MODULUS
  {
    (Xor(u, c) * PRIME) % MODULUS
  }

  function Fold(u: nat, text: seq<nat>): nat {
    if text == [] then u else Step(Fold(u, text[..|text| - 1]), text[|text| - 1])
  }

  lemma {:induction false} XorTwice(a: int, b: int)
    ensures Xor(Xor(a, b), b) == a
    decreases (if a < 0 then -a else a) + (if b < 0 then -b else b)
  {
    if !((a == 0 || a == -1) && (b == 0 || b == -1)) {
      XorTwice(a / 2, b / 2);
      XorHalves(a, b);
    }
  }

  lemma XorHalves(a: int, b: int)
    ensures Xor(a, b) / 2 == Xor(a / 2, b / 2) && Xor(a, b) % 2 == if a % 2 != b % 2 then 1 else 0
  {
  }

  lemma {:induction false} XorSwap(a: int, b: int)
    ensures Xor(a, b) == Xor(b, a)
    decreases (if a < 0 then -a else a) + (if b < 0 then -b else b)
  {
    if !((a == 0 || a == -1) && (b == 0 || b == -1)) {
      XorSwap(a / 2, b / 2);
    }
  }

  /** The low bits of an exclusive or depend on the low bits alone. */
  lemma {:induction false} XorLow(a: int, c: int, k: nat)
    ensures Xor(a, c) % Pow2(k) == Xor(a % Pow2(k), c % Pow2(k)) % Pow2(k)
    decreases k
  {
    if k > 0 {
      var p := Pow2(k - 1);
      HalfMod(a, p);
      HalfMod(c, p);
      HalfMod(Xor(a, c), p);
      HalfMod(Xor(a % (2 * p), c % (2 * p)), p);
      XorHalves(a, c);
      XorHalves(a % (2 * p), c % (2 * p));
      XorLow(a / 2, c / 2, k - 1);
    }
  }

  lemma HalfMod(v: int, p: nat)
    requires p > 0
    ensures v % (2 * p) == 2 * ((v / 2) % p) + v % 2
    ensures (v % (2 * p)) / 2 == (v / 2) % p && (v % (2 * p)) % 2 == v % 2
  {
    var q, r := (v / 2) / p, (v / 2) % p;
    assert v / 2 == p * q + r;
    assert v == 2 * p * q + (2 * r + v % 2);
    Remainder(v, 2 * p, q, 2 * r + v % 2);
  }

  lemma Remainder(v: int, m: int, q: int, r: int)
    requires m > 0 && v == m * q + r && 0 <= r < m
    ensures v % m == r
  {
    var d := v / m - q;
    assert m * d == r - v % m;
    MultipleIsFar(m, d);
  }

  lemma ModMul(x: int, y: int, k: int)
    requires x % MODULUS == y % MODULUS
    ensures (x * k) % MODULUS == (y * k) % MODULUS
  {
    var d := x / MODULUS - y / MODULUS;
    assert x == y + MODULUS * d;
    var e := d * k;
    assert x * k == y * k + MODULUS * e by {
      assert (MODULUS * d) * k == MODULUS * e;
    }
    Remainder(x * k, MODULUS, (y * k) / MODULUS + e, (y * k) % MODULUS);
  }

  /** The multiplier is odd, so it has an inverse: multiplying loses nothing. */
  lemma TimesPrime(x: int, y: int)
    requires (x * PRIME) % MODULUS == (y * PRIME) % MODULUS
    ensures x % MODULUS == y % MODULUS
  {
    ModMul(x * PRIME, y * PRIME, 899433627);
    assert PRIME * 899433627 == 3513497 * MODULUS + 1;
    Remainder(x * PRIME * 899433627, MODULUS, x * 3513497 + x / MODULUS, x % MODULUS);
    Remainder(y * PRIME * 899433627, MODULUS, y * 3513497 + y / MODULUS, y % MODULUS);
  }

  lemma Pow2Modulus()
    ensures Pow2(32) == MODULUS
  {
    assert Pow2(8) == 256;
    assert Pow2(16) == 65536;
    assert Pow2(24) == 0x100_0000;
  }

  lemma XorCongruent(a: int, b: int, c: int, d: int)
    requires a % MODULUS == b % MODULUS && c % MODULUS == d % MODULUS
    ensures Xor(a, c) % MODULUS == Xor(b, d) % MODULUS
  {
    Pow2Modulus();
    XorLow(a, c, 32);
    XorLow(b, d, 32);
  }

  /** Each step can be undone: equal results come from equal states, and from equal characters. */
  lemma StepInjective(u: nat, v: nat, c: nat, d: nat)
    requires u < MODULUS && v < MODULUS && c < 65536 && d < 65536 && Step(u, c) == Step(v, d)
    ensures c == d ==> u == v
    ensures u == v ==> c == d
  {
    hide Xor;
    TimesPrime(Xor(u, c), Xor(v, d));
    XorTwice(u, c);
    XorTwice(v, d);
    XorCongruent(Xor(u, c), Xor(v, d), c, c);
    XorSwap(u, c);
    XorSwap(v, d);
    XorTwice(c, u);
    XorTwice(d, v);
    XorCongruent(Xor(c, u), Xor(d, v), u, u);
  }

  /** The signed arithmetic of the source and the unsigned fold stay congruent. */
  lemma SignedStep(value: int, u: nat, c: nat)
    requires value % MODULUS == u < MODULUS && c < 65536
    ensures ToInt32(ToInt32(Xor(ToInt32(value), ToInt32(c))) * PRIME) % MODULUS == Step(u, c)
  {
    var x := ToInt32(Xor(ToInt32(value), ToInt32(c)));
    XorCongruent(ToInt32(value), u, ToInt32(c), c);
    ModMul(x, Xor(u, c), PRIME);
  }

  ghost predicate CodeUnits(text: seq<nat>) { forall i :: 0 <= i < |text| ==> text[i] < 65536 }

  method Mix(text: seq<nat>) returns (value: int)
    requires CodeUnits(text)
    ensures value % MODULUS == Fold(SEED, text)
  {
    hide Xor, Step, ToInt32;
    value := SEED;
    for i := 0 to |text|
      invariant value % MODULUS == Fold(SEED, text[..i])
    {
      SignedStep(value, value % MODULUS, text[i]);
      assert text[..i + 1][..i] == text[..i];
      value := ToInt32(ToInt32(Xor(ToInt32(value), ToInt32(text[i]))) * PRIME);
    }
    assert text[..|text|] == text;
  }

  /** Eight hexadecimal digits, which spell the final value. */
  method Hash(text: seq<nat>) returns (h: seq<byte>)
    requires CodeUnits(text)
    ensures |h| == 8 && NatOf(h) == Fold(SEED, text) && forall d :: d in h ==> HexValue(d) >= 0
    ensures text == [] ==> h == Ascii("811c9dc5")
    ensures text == ['a' as nat] ==> h == Ascii("e40c292c")
  {
    hide Fold, Ascii, HexNat, NatOf, PadStart, HexValue;
    var value := Mix(text);
    var u: nat := value % MODULUS;
    EightDigits(u);
    h := PadStart(HexNat(u), 8);
    Known();
    KnownDigits();
  }

  lemma EightDigits(u: nat)
    requires u < MODULUS
    ensures |HexNat(u)| <= 8
    ensures var h := PadStart(HexNat(u), 8); |h| == 8 && NatOf(h) == u && forall d :: d in h ==> HexValue(d) >= 0
  {
    assert Pow16(4) == 65536 && Pow16(8) == MODULUS;
    HexNatLength(u, 8);
    HexNatMeans(u);
    hide HexNat, NatOf;
    ZeroDigits(8 - |HexNat(u)|, HexNat(u));
  }

  lemma {:induction false} FoldBound(u: nat, text: seq<nat>)
    requires u < MODULUS
    ensures Fold(u, text) < MODULUS
  {
  }

  lemma {:induction false} FoldAppend(u: nat, a: seq<nat>, b: seq<nat>)
    ensures Fold(u, a + b) == Fold(Fold(u, a), b)
  {
    if b == [] {
      assert a + b == a;
    } else {
      FoldAppend(u, a, b[..|b| - 1]);
      assert (a + b)[..|a + b| - 1] == a + b[..|b| - 1];
    }
  }

  /** The same characters from different states end in different states. */
  lemma {:induction false} FoldInjective(u: nat, v: nat, text: seq<nat>)
    requires u < MODULUS && v < MODULUS && CodeUnits(text) && Fold(u, text) == Fold(v, text)
    ensures u == v
  {
    if text != [] {
      var front, c := text[..|text| - 1], text[|text| - 1];
      FoldBound(u, front);
      FoldBound(v, front);
      assert Fold(u, text) == Step(Fold(u, front), c) && Fold(v, text) == Step(Fold(v, front), c);
      hide Step, Fold, Xor;
      StepInjective(Fold(u, front), Fold(v, front), c, c);
      FoldInjective(u, v, front);
    }
  }

  /** Two strings that differ in exactly one code unit never share a hash. */
  lemma OneEdit(front: seq<nat>, c: nat, d: nat, back: seq<nat>)
    requires CodeUnits(front) && CodeUnits(back) && c < 65536 && d < 65536
    ensures Fold(SEED, front + [c] + back) == Fold(SEED, front + [d] + back) <==> c == d
  {
    FoldBound(SEED, front);
    FoldAppend(SEED, front + [c], back);
    FoldAppend(SEED, front + [d], back);
    assert (front + [c])[..|front|] == front && (front + [d])[..|front|] == front;
    if Fold(SEED, front + [c] + back) == Fold(SEED, front + [d] + back) {
      FoldInjective(Fold(SEED, front + [c]), Fold(SEED, front + [d]), back);
      hide Step;
      StepInjective(Fold(SEED, front), Fold(SEED, front), c, d);
    }
  }

  // ---------------------------------------------------------------- two known hashes

  lemma {:induction false} XorZero(a: int)
    ensures Xor(a, 0) == a
    decreases if a < 0 then -a else a
  {
    if a != 0 && a != -1 {
      XorZero(a / 2);
    }
  }

  lemma XorBit(a: int, b: int, x: int, y: int)
    requires 0 <= x <= 1 && 0 <= y <= 1
    ensures Xor(2 * a + x, 2 * b + y) == 2 * Xor(a, b) + (if x != y then 1 else 0)
  {
    XorHalves(2 * a + x, 2 * b + y);
    hide Xor;
  }

  lemma XorLetter()
    ensures Xor(0x811c9dc5, 97) == 0x811c9da4
  {
    hide Xor;
    XorZero(0x102393b);
    XorBit(0x102393b, 0, 1, 1);
    assert Xor(0x2047277, 1) == 0x2047276;
    XorBit(0x2047277, 1, 0, 1);
    assert Xor(0x408e4ee, 3) == 0x408e4ed;
    XorBit(0x408e4ee, 3, 0, 0);
    assert Xor(0x811c9dc, 6) == 0x811c9da;
    XorBit(0x811c9dc, 6, 0, 0);
    assert Xor(0x102393b8, 12) == 0x102393b4;
    XorBit(0x102393b8, 12, 1, 0);
    assert Xor(0x20472771, 24) == 0x20472769;
    XorBit(0x20472771, 24, 0, 0);
    assert Xor(0x408e4ee2, 48) == 0x408e4ed2;
    XorBit(0x408e4ee2, 48, 1, 1);
    assert Xor(0x811c9dc5, 97) == 0x811c9da4;
  }

  /** The empty text and a single letter, hashed. */
  lemma Known()
    ensures Fold(SEED, []) == 0x811c9dc5 && Fold(SEED, ['a' as nat]) == 0xe40c292c
  {
    XorLetter();
    assert ['a' as nat][..0] == [];
    hide Xor;
    assert 0x811c9da4 * PRIME == 8461672 * MODULUS + 0xe40c292c;
  }

  lemma KnownDigits()
    ensures PadStart(HexNat(0x811c9dc5), 8) == Ascii("811c9dc5") && PadStart(HexNat(0xe40c292c), 8) == Ascii("e40c292c")
  {
    SeedDigits();
    LetterDigits();
    hide HexNat;
  }

  lemma SeedDigits()
    ensures HexNat(0x811c9dc5) == Ascii("811c9dc5")
  {
    assert HexNat(0x8) == [56];
    assert HexNat(0x81) == HexNat(0x8) + [49];
    assert HexNat(0x811) == HexNat(0x81) + [49];
    assert HexNat(0x811c) == HexNat(0x811) + [99];
    assert HexNat(0x811c9) == HexNat(0x811c) + [57];
    assert HexNat(0x811c9d) == HexNat(0x811c9) + [100];
    assert HexNat(0x811c9dc) == HexNat(0x811c9d) + [99];
    assert HexNat(0x811c9dc5) == HexNat(0x811c9dc) + [53];
  }

  lemma LetterDigits()
    ensures HexNat(0xe40c292c) == Ascii("e40c292c")
  {
    assert HexNat(0xe) == [101];
    assert HexNat(0xe4) == HexNat(0xe) + [52];
    assert HexNat(0xe40) == HexNat(0xe4) + [48];
    assert HexNat(0xe40c) == HexNat(0xe40) + [99];
    assert HexNat(0xe40c2) == HexNat(0xe40c) + [50];
    assert HexNat(0xe40c29) == HexNat(0xe40c2) + [57];
    assert HexNat(0xe40c292) == HexNat(0xe40c29) + [50];
    assert HexNat(0xe40c292c) == HexNat(0xe40c292) + [99];
  }
}
