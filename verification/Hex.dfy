/** Lower-case hexadecimal text, as bytes. */
module Hex {
  import opened Common

  function HexDigit(v: nat): (d: byte)
    requires v < 16
  {
    if v < 10 then 48 + v else 87 + v
  }

  lemma DigitIs(v: nat)
    requires v < 16
    ensures HexDigit(v) == "0123456789abcdef"[v] as int
  {
  }

  function HexValue(d: byte): int {
    if 48 <= d <= 57 then d - 48 else if 97 <= d <= 102 then d - 87 else -1
  }

  function HexByte(v: byte): seq<byte> { [HexDigit(v / 16), HexDigit(v % 16)] }

  function HexBytes(b: seq<byte>): (h: seq<byte>)
    ensures |h| == 2 * |b|
  {
    if b == [] then [] else HexByte(b[0]) + HexBytes(b[1..])
  }

  /** Two digits to a byte; `None` at anything that is not a digit pair. */
  function FromHex(h: seq<byte>): Option<seq<byte>> {
    if h == [] then Some([])
    else if |h| == 1 || HexValue(h[0]) < 0 || HexValue(h[1]) < 0 then None
    else
      var rest := FromHex(h[2..]);
      var v: int := 16 * HexValue(h[0]) + HexValue(h[1]);
      if rest.None? then None else Some([v] + rest.value)
  }

  lemma {:induction false} HexRoundTrip(b: seq<byte>)
    ensures FromHex(HexBytes(b)) == Some(b)
  {
    if b != [] {
      HexRoundTrip(b[1..]);
      var h, v := HexBytes(b), b[0];
      assert h[2..] == HexBytes(b[1..]) && h[0] == HexDigit(v / 16) && h[1] == HexDigit(v % 16);
      assert HexValue(h[0]) == v / 16 && HexValue(h[1]) == v % 16;
      assert b == [v] + b[1..];
    }
  }

  /** Lower-case hexadecimal without leading zeros. */
  function HexNat(v: nat): seq<byte> {
    if v < 16 then [HexDigit(v)] else HexNat(v / 16) + [HexDigit(v % 16)]
  }

  function NatOf(h: seq<byte>): int {
    if h == [] then 0 else 16 * NatOf(h[..|h| - 1]) + HexValue(h[|h| - 1])
  }

  lemma {:induction false} HexNatMeans(v: nat)
    ensures NatOf(HexNat(v)) == v && forall d :: d in HexNat(v) ==> HexValue(d) >= 0
  {
    if v < 16 {
      assert [HexDigit(v)][..0] == [];
    } else {
      HexNatMeans(v / 16);
      assert (HexNat(v / 16) + [HexDigit(v % 16)])[..|HexNat(v / 16)|] == HexNat(v / 16);
    }
  }

  /** More than `n` digits only from `16^n` on. */
  lemma {:induction false} HexNatLength(v: nat, n: nat)
    requires v < Pow16(n) && n > 0
    ensures 1 <= |HexNat(v)| <= n
  {
    if v >= 16 {
      HexNatLength(v / 16, n - 1);
    }
  }

  function Pow16(n: nat): (p: nat)
    ensures p >= 1
  {
    if n == 0 then 1 else 16 * Pow16(n - 1)
  }

  /** Zeros in front up to `n` digits. */
  function PadStart(h: seq<byte>, n: nat): (p: seq<byte>)
    requires |h| <= n
    ensures |p| == n
  {
    seq(n - |h|, _ => 48) + h
  }

  lemma {:induction false} ZeroDigits(k: nat, h: seq<byte>)
    ensures NatOf(seq(k, _ => 48) + h) == NatOf(h)
    decreases |h|, k
  {
    var z: seq<byte> := seq(k, _ => 48);
    if h != [] {
      ZeroDigits(k, h[..|h| - 1]);
      assert (z + h)[..|z + h| - 1] == z + h[..|h| - 1];
    } else if k > 0 {
      ZeroDigits(k - 1, []);
      assert z + [] == z && z[..k - 1] == seq(k - 1, _ => 48) + [];
    } else {
      assert z + h == [];
    }
  }
}
