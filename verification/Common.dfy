/** Bytes, little-endian words and the few integer facts the other modules share. */
module Common {

  datatype Option<+T> = None | Some(value: T)

  type byte = x: int | 0 <= x < 256

  function Pow256(n: nat): (p: nat)
    ensures p >= 1
  {
    if n == 0 then 1 else 256 * Pow256(n - 1)
  }

  function Pow2(k: nat): (p: nat)
    ensures p >= 1
  {
    if k == 0 then 1 else 2 * Pow2(k - 1)
  }

  /** The `n` low bytes of `v`, least significant first. */
  function LeBytes(v: nat, n: nat): (b: seq<byte>)
    ensures |b| == n
  {
    if n == 0 then [] else [v % 256] + LeBytes(v / 256, n - 1)
  }

  function LeNat(b: seq<byte>): nat {
    if b == [] then 0 else b[0] + 256 * LeNat(b[1..])
  }

  lemma {:induction false} LeNatBound(b: seq<byte>)
    ensures LeNat(b) < Pow256(|b|)
  {
    if b != [] {
      LeNatBound(b[1..]);
    }
  }

  /** Decoding what was encoded gives the value back when it fits. */
  lemma {:induction false} LeNatOfLeBytes(v: nat, n: nat)
    requires v < Pow256(n)
    ensures LeNat(LeBytes(v, n)) == v
  {
    if n > 0 {
      LeNatOfLeBytes(v / 256, n - 1);
      assert LeBytes(v, n)[1..] == LeBytes(v / 256, n - 1);
    }
  }

  /** Encoding what was decoded gives the bytes back. */
  lemma {:induction false} LeBytesOfLeNat(b: seq<byte>)
    ensures LeBytes(LeNat(b), |b|) == b
  {
    if b != [] {
      LeBytesOfLeNat(b[1..]);
      var low: int, high := b[0], LeNat(b[1..]);
      assert (low + 256 * high) % 256 == low && (low + 256 * high) / 256 == high;
      assert b == [b[0]] + b[1..];
    }
  }

  lemma MultipleIsFar(m: int, k: int)
    requires m > 0
    ensures k >= 1 ==> m * k >= m
    ensures k <= -1 ==> m * k <= -m
  {
    assert m * k == m * (k - 1) + m;
    assert m * k == m * (k + 1) - m;
  }

  lemma MulLe(a: nat, b: nat, p: nat)
    requires a <= b
    ensures a * p <= b * p
  {
    assert b * p == a * p + (b - a) * p;
  }

  /** Two numbers in the same residue class that are less than `m` apart are equal. */
  lemma CloseCongruent(a: nat, b: nat, m: nat)
    requires m > 0 && a % m == b % m && a <= b < a + m
    ensures a == b
  {
    var k := b / m - a / m;
    assert b - a == m * k by {
      assert a == m * (a / m) + a % m && b == m * (b / m) + b % m;
    }
    MultipleIsFar(m, k);
  }

  lemma SliceOfPrefix<T>(l: seq<T>, n: nat, at: nat, size: nat)
    requires at + size <= n <= |l|
    ensures l[..n][at..at + size] == l[at..at + size]
  {
  }

  lemma SubSlice<T>(l: seq<T>, from: nat, end: nat, i: nat, j: nat)
    requires from <= end <= |l| && i <= j <= end - from
    ensures l[from..end][i..j] == l[from + i..from + j]
  {
    var a, b := l[from..end][i..j], l[from + i..from + j];
    assert |a| == |b| && forall k :: 0 <= k < |a| ==> a[k] == b[k];
  }

  lemma PrefixOfSuffix<T>(l: seq<T>, at: nat, size: nat)
    requires at + size <= |l|
    ensures l[at..][..size] == l[at..at + size]
  {
  }

  /** `piece` stands in `s` at `at`. */
  predicate Sits(s: seq<byte>, at: nat, piece: seq<byte>) {
    at + |piece| <= |s| && s[at..at + |piece|] == piece
  }

  lemma SitsSplit(s: seq<byte>, at: nat, a: seq<byte>, b: seq<byte>)
    requires Sits(s, at, a + b)
    ensures Sits(s, at, a) && Sits(s, at + |a|, b)
  {
    assert (a + b)[..|a|] == a && (a + b)[|a|..] == b;
    assert s[at..at + |a|] == s[at..at + |a + b|][..|a|];
    assert s[at + |a|..at + |a + b|] == s[at..at + |a + b|][|a|..];
  }

  lemma SitsAt(s: seq<byte>, at: nat, piece: seq<byte>, i: nat)
    requires Sits(s, at, piece) && i < |piece|
    ensures at + i < |s| && s[at + i] == piece[i]
  {
    assert s[at..at + |piece|][i] == piece[i];
  }

  lemma SitsEnd(s: seq<byte>, at: nat, a: seq<byte>, c: byte)
    requires Sits(s, at, a + [c])
    ensures at + |a| < |s| && s[at + |a|] == c
  {
    SitsAt(s, at, a + [c], |a|);
  }

  lemma SitsInside(s: seq<byte>, at: nat, piece: seq<byte>)
    requires Sits(s, at, piece)
    ensures at + |piece| <= |s|
  {
  }

  lemma SitsJoin(s: seq<byte>, at: nat, a: seq<byte>, b: seq<byte>)
    requires Sits(s, at, a) && Sits(s, at + |a|, b)
    ensures Sits(s, at, a + b)
  {
    assert s[at..at + |a + b|] == s[at..at + |a|] + s[at + |a|..at + |a| + |b|];
  }

  lemma Glue(s: seq<byte>, i: nat, j: nat, k: nat)
    requires i <= j <= k <= |s|
    ensures s[i..k] == s[i..j] + s[j..k]
  {
  }

  lemma CutOne(s: seq<byte>, i: nat, k: nat)
    requires i < k <= |s|
    ensures s[i..k] == [s[i]] + s[i + 1..k]
  {
  }

  lemma Nest(a: seq<byte>, b: seq<byte>, c: seq<byte>, d: seq<byte>)
    ensures a + b + c + d == a + (b + (c + d))
  {
  }

  /** How many bytes come before the first `mark`. */
  function Before(s: seq<byte>, mark: byte): (n: nat)
    ensures n <= |s|
    ensures forall i :: 0 <= i < n ==> s[i] != mark
    ensures n < |s| ==> s[n] == mark
  {
    if s == [] || s[0] == mark then 0 else 1 + Before(s[1..], mark)
  }

  lemma SameBefore(s: seq<byte>, mark: byte, n: nat)
    requires n <= |s| && (forall i :: 0 <= i < n ==> s[i] != mark) && (n < |s| ==> s[n] == mark)
    ensures Before(s, mark) == n
  {
  }

  /** The codes of a text in ASCII. */
  function Ascii(t: string): (b: seq<byte>)
    ensures |b| == |t|
  {
    seq(|t|, i requires 0 <= i < |t| => if t[i] as int < 128 then t[i] as int else 63)
  }

  /** Decimal digits without leading zeros. */
  function Decimal(n: nat): (d: seq<byte>)
    ensures |d| > 0
  {
    if n < 10 then [48 + n] else Decimal(n / 10) + [48 + n % 10]
  }
}
