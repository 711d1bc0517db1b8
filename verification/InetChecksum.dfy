/** The Internet checksum: 16-bit words summed, carries folded back in (section 1 of RFC 1071). */
module InetChecksum {
  import opened Common

  /** Adds the carry back until the sum fits 16 bits. */
  function Fold(t: nat): nat {
    if t <= 65535 then t else Fold(t % 65536 + t / 65536)
  }

  /** Big-endian 16-bit words; an odd last byte is the high half of a word. */
  function WordSum(d: seq<byte>): nat {
    if |d| == 0 then 0
    else if |d| == 1 then d[0] * 256
    else d[0] * 256 + d[1] + WordSum(d[2..])
  }

  function ChecksumOf(d: seq<byte>): (c: int) {
    65535 - Fold(WordSum(d))
  }

  lemma CarryStep(t: nat)
    ensures (t % 65536 + t / 65536) % 65535 == t % 65535
  {
    var q := t / 65536;
    assert t == (t % 65536 + q) + 65535 * q;
    AddMultiple(t % 65536 + q, q);
  }

  lemma AddMultiple(x: int, k: int)
    ensures (x + 65535 * k) % 65535 == x % 65535
  {
  }

  /** Folding keeps the sum modulo 65535 and never turns a nonzero sum into zero. */
  lemma {:induction false} FoldMeaning(t: nat)
    ensures Fold(t) <= 65535
    ensures Fold(t) % 65535 == t % 65535
    ensures Fold(t) == 0 <==> t == 0
    decreases t
  {
    if t > 65535 {
      CarryStep(t);
      FoldMeaning(t % 65536 + t / 65536);
    }
  }

  /** The receiver's test: the folded sum is all ones. */
  predicate Whole(t: nat) {
    Fold(t) == 65535
  }

  lemma WholeExact(t: nat)
    ensures Whole(t) <==> t > 0 && t % 65535 == 0
  {
    FoldMeaning(t);
  }

  method Checksum(data: seq<byte>) returns (c: int)
    ensures c == ChecksumOf(data)
    ensures 0 <= c <= 65535
  {
    var padded := if |data| % 2 == 1 then data + [0] else data;
    PadSum(data);
    hide Fold;
    var total: nat, i := 0, 0;
    while i < |padded|
      invariant 0 <= i <= |padded| && i % 2 == 0
      invariant total + WordSum(padded[i..]) == WordSum(data)
    {
      assert padded[i..][2..] == padded[i + 2..];
      var hi: int, lo: int := padded[i], padded[i + 1];
      total := total + hi * 256 + lo;
      i := i + 2;
    }
    total := Carry(total);
    FoldMeaning(WordSum(data));
    c := 65535 - total;
  }

  /** Adding the carries back in until none is left. */
  method Carry(sum: nat) returns (total: nat)
    ensures total == Fold(sum)
  {
    total := sum;
    while total > 65535
      invariant Fold(total) == Fold(sum)
      decreases total
    {
      total := total % 65536 + total / 65536;
    }
  }

  lemma {:induction false} PadSum(d: seq<byte>)
    ensures |d| % 2 == 1 ==> WordSum(d + [0]) == WordSum(d)
  {
    if |d| >= 2 {
      PadSum(d[2..]);
      assert (d + [0])[2..] == d[2..] + [0];
    }
  }

  lemma {:induction false} SumSplit(a: seq<byte>, b: seq<byte>)
    requires |a| % 2 == 0
    ensures WordSum(a + b) == WordSum(a) + WordSum(b)
  {
    if a == [] {
      assert a + b == b;
    } else {
      SumSplit(a[2..], b);
      assert (a + b)[2..] == a[2..] + b;
    }
  }

  /** Two bytes are one word, the first the greater; a lone byte is a word with a zero after it. */
  lemma SumOfWord(hi: byte, lo: byte)
    ensures var h: int, l: int := hi, lo;
            WordSum([hi, lo]) == h * 256 + l && WordSum([hi]) == h * 256 && WordSum([]) == 0
  {
    assert [hi, lo][2..] == [];
  }

  /** The example of RFC 1071, section 3. */
  lemma KnownChecksum()
    ensures ChecksumOf([0x00, 0x01, 0xf2, 0x03, 0xf4, 0xf5, 0xf6, 0xf7]) == 0x220d
  {
    var a: seq<byte>, b: seq<byte>, c: seq<byte>, d: seq<byte> := [0x00, 0x01], [0xf2, 0x03], [0xf4, 0xf5],
        [0xf6, 0xf7];
    SumOfWord(0x00, 0x01);
    SumOfWord(0xf2, 0x03);
    SumOfWord(0xf4, 0xf5);
    SumOfWord(0xf6, 0xf7);
    SumSplit(a, b);
    SumSplit(a + b, c);
    SumSplit(a + b + c, d);
    assert a + b + c + d == [0x00, 0x01, 0xf2, 0x03, 0xf4, 0xf5, 0xf6, 0xf7];
    hide WordSum;
    assert Fold(0x2ddf0) == 0xddf2;
  }

  function Weight(k: nat): nat {
    if k % 2 == 0 then 256 else 1
  }

  /** Replacing one byte moves the sum by its weighted difference. */
  lemma {:induction false} SumUpdate(d: seq<byte>, k: nat, v: byte)
    requires k < |d|
    ensures WordSum(d[k := v]) == WordSum(d) + (v - d[k]) * Weight(k)
  {
    if k >= 2 {
      SumUpdate(d[2..], k - 2, v);
      assert d[k := v][2..] == d[2..][k - 2 := v];
    } else {
      assert |d| >= 2 ==> d[k := v][2..] == d[2..];
    }
  }

  /** Putting a word in place of a zero word at an even offset adds exactly that word. */
  lemma SumInsert(d: seq<byte>, k: nat, hi: byte, lo: byte)
    requires k % 2 == 0 && k + 1 < |d| && d[k] == 0 && d[k + 1] == 0
    ensures WordSum(d[k := hi][k + 1 := lo]) == WordSum(d) + 256 * hi + lo
  {
    SumUpdate(d, k, hi);
    SumUpdate(d[k := hi], k + 1, lo);
  }

  lemma CongruentDiff(x: nat, y: nat)
    requires x % 65535 == y % 65535
    ensures (x - y) % 65535 == 0
  {
    AddMultiple(0, x / 65535 - y / 65535);
  }

  lemma Complement(t: nat, f: nat)
    requires f <= 65535 && f % 65535 == t % 65535
    ensures (t + (65535 - f)) % 65535 == 0
    ensures f == 65535 ==> (t + 65535) % 65535 == 0
  {
    CongruentDiff(t, f);
    AddMultiple(t - f, 1);
    AddMultiple(t, 1);
  }

  /** The checksum, stored in the zeroed field, makes the sum whole; so does 65535 in its
      place when it is zero (RFC 768). */
  lemma ChecksumCompletes(t: nat)
    ensures 0 <= 65535 - Fold(t) <= 65535
    ensures Whole(t + (65535 - Fold(t)))
    ensures Fold(t) == 65535 ==> Whole(t + 65535)
  {
    FoldMeaning(t);
    Complement(t, Fold(t));
    MakesWhole(t + (65535 - Fold(t)));
    MakesWhole(t + 65535);
  }

  lemma MakesWhole(t: nat)
    ensures t > 0 && t % 65535 == 0 ==> Whole(t)
  {
    WholeExact(t);
  }

  lemma SumDelta(t: nat, delta: int)
    requires Whole(t) && t + delta >= 0 && -65535 <= delta <= 65535
    ensures Whole(t + delta) <==> delta == 0 || delta == 65535 || (delta == -65535 && t > 65535)
  {
    WholeExact(t);
    WholeExact(t + delta);
    AddMultiple(delta, t / 65535);
    SmallMultiple(delta);
    hide Whole;
    assert t == 65535 * (t / 65535);
  }

  function WordAt(d: seq<byte>, k: nat): (w: nat)
    requires k + 1 < |d|
    ensures w < 65536
  {
    var hi: int, lo: int := d[k], d[k + 1];
    hi * 256 + lo
  }

  lemma {:induction false} WordInSum(d: seq<byte>, k: nat)
    requires k % 2 == 0 && k + 1 < |d|
    ensures WordAt(d, k) <= WordSum(d)
  {
    if k > 0 {
      WordInSum(d[2..], k - 2);
    }
  }

  /** Two zero bytes exchanged for 0xFFFF, or the reverse. */
  predicate Exchanged(before: nat, after: nat) { (before == 0 && after == 65535) || (before == 65535 && after == 0) }

  /** A changed word is noticed unless 0x0000 and 0xFFFF were exchanged, and even then when
      nothing but zero words remain. */
  lemma WordChange(d: seq<byte>, acc: nat, k: nat, hi: byte, lo: byte)
    requires k % 2 == 0 && k + 1 < |d| && Whole(acc + WordSum(d))
    ensures var before, after, e := WordAt(d, k), WordAt([hi, lo], 0), d[k := hi][k + 1 := lo];
            Whole(acc + WordSum(e)) <==>
              before == after || (Exchanged(before, after) && (before == 0 || acc + WordSum(d) > 65535))
  {
    var e := d[k := hi];
    SumUpdate(d, k, hi);
    SumUpdate(e, k + 1, lo);
    WordInSum(d, k);
    hide WordSum, Whole;
    var before: int, after: int := WordAt(d, k), WordAt([hi, lo], 0);
    assert WordSum(e[k + 1 := lo]) == WordSum(d) + (after - before);
    SumDelta(acc + WordSum(d), after - before);
  }

  lemma SmallMultiple(x: int)
    requires -65535 <= x <= 65535
    ensures x % 65535 == 0 <==> x == 0 || x == 65535 || x == -65535
  {
  }

  /** A changed byte is always noticed. */
  lemma ByteChange(d: seq<byte>, acc: nat, k: nat, v: byte)
    requires k < |d| && v != d[k] && Whole(acc + WordSum(d))
    ensures !Whole(acc + WordSum(d[k := v]))
  {
    SumUpdate(d, k, v);
    WholeExact(acc + WordSum(d));
    WholeExact(acc + WordSum(d[k := v]));
    var delta := (v - d[k]) * Weight(k);
    var q := (acc + WordSum(d)) / 65535;
    assert acc + WordSum(d) == 65535 * q;
    AddMultiple(delta, q);
    assert -65280 <= delta <= 65280 && delta != 0;
    SmallMultiple(delta);
  }
}
