/** The receiver's admission of Ethernet frames that carry IPv4 and UDP, and what its answer says. */
module Ipv4Udp {
  import opened Common
  import opened InetChecksum

  function Be(f: seq<byte>, i: nat): nat
    requires i + 1 < |f|
  {
    var hi: int, lo: int := f[i], f[i + 1];
    hi * 256 + lo
  }

  /** The receiver walks the frame itself, a word at a time. */
  function RegionSum(f: seq<byte>, i: nat, end: nat, acc: nat): nat
    requires end <= |f|
    decreases end - i
  {
    if i >= end then Fold(acc)
    else
      var hi: int, lo: int := f[i], if i + 1 < end then f[i + 1] else 0;
      RegionSum(f, i + 2, end, acc + hi * 256 + lo)
  }

  lemma {:induction false} RegionSumIsWordSum(f: seq<byte>, i: nat, end: nat, acc: nat)
    requires i <= end <= |f|
    ensures RegionSum(f, i, end, acc) == Fold(acc + WordSum(f[i..end]))
    decreases end - i
  {
    if i + 1 < end {
      RegionSumIsWordSum(f, i + 2, end, acc + Be(f, i));
      assert f[i..end][2..] == f[i + 2..end];
    }
  }

  /** Bit 14 of the flags word (do not fragment) is the only one that may be set. */
  function WithoutBit14(w: nat): nat {
    w - w / 16384 % 2 * 16384
  }

  function HeaderLength(f: seq<byte>): nat
    requires |f| >= 42
  {
    f[14] % 16 * 4
  }

  function UdpAcc(f: seq<byte>, header: nat, total: nat): nat
    requires |f| >= 42 && header <= total
  {
    Be(f, 26) + Be(f, 28) + Be(f, 30) + Be(f, 32) + 17 + (total - header)
  }

  predicate UdpOk(f: seq<byte>, header: nat, total: nat)
    requires |f| >= 42 && header + 8 <= total && 14 + total <= |f|
  {
    && Be(f, 14 + header + 4) == total - header
    && total - header >= 8
    && (Be(f, 14 + header + 6) == 0 || RegionSum(f, 14 + header, 14 + total, UdpAcc(f, header, total)) == 65535)
  }

  predicate IpOk(f: seq<byte>, bytes: int)
    requires 42 <= bytes <= |f|
  {
    && Be(f, 12) == 2048 && f[14] / 16 == 4 && f[14] % 16 >= 5 && f[22] > 0 && f[23] == 17
    && HeaderLength(f) + 8 <= Be(f, 16) <= 1500 && 14 + Be(f, 16) <= bytes
    && WithoutBit14(Be(f, 20)) == 0
    && RegionSum(f, 14, 14 + HeaderLength(f), 0) == 65535
  }

  predicate Accepts(f: seq<byte>, bytes: int) {
    && |f| <= 65536 && 42 <= bytes <= 1514 && bytes <= |f|
    && IpOk(f, bytes) && UdpOk(f, HeaderLength(f), Be(f, 16))
  }

  function Describe(f: seq<byte>, header: nat, total: nat): nat
    requires header + 8 <= total && 14 + total <= |f|
  {
    (22 + header) + (total - header - 8) * 256 + Be(f, 14 + header) * 16777216 + Be(f, 16 + header) * 1099511627776
  }

  /** Zero refuses; otherwise offset, length and ports packed into one word. */
  function Parse(f: seq<byte>, bytes: int): nat {
    if Accepts(f, bytes) then Describe(f, HeaderLength(f), Be(f, 16)) else 0
  }

  function PayloadOffset(d: int): int { if d <= 0 then -1 else d % 256 }
  function PayloadLength(d: int): int { if d <= 0 then -1 else d / 256 % 65536 }
  function SourcePort(d: int): int { if d <= 0 then -1 else d / 16777216 % 65536 }
  function DestinationPort(d: int): int { if d <= 0 then -1 else d / 1099511627776 % 65536 }

  lemma Unpack(o: nat, n: nat, p: nat, q: nat)
    requires o < 256 && n < 65536 && p < 65536 && q < 65536
    ensures var d := o + n * 256 + p * 16777216 + q * 1099511627776;
            d % 256 == o && d / 256 % 65536 == n && d / 16777216 % 65536 == p && d / 1099511627776 % 65536 == q
  {
    var d := o + n * 256 + p * 16777216 + q * 1099511627776;
    Quotient(d, o, 256, n + 65536 * (p + 65536 * q));
    Quotient(d / 256, n, 65536, p + 65536 * q);
    Quotient(d, o + n * 256, 16777216, p + 65536 * q);
    Quotient(d / 16777216, p, 65536, q);
    Quotient(d, o + n * 256 + p * 16777216, 1099511627776, q);
  }

  lemma Quotient(d: nat, low: nat, m: nat, high: nat)
    requires low < m && d == low + m * high
    ensures d / m == high && d % m == low
  {
    var k := d / m - high;
    assert low - d % m == m * k;
    MultipleIsFar(m, k);
  }

  /** The packed answer decodes to the payload position and ports that the frame carries. */
  lemma Describes(f: seq<byte>, bytes: int)
    requires Accepts(f, bytes)
    ensures var d, h := Parse(f, bytes), HeaderLength(f);
            && d > 0
            && PayloadOffset(d) == 22 + h && PayloadLength(d) == Be(f, 16) - h - 8
            && PayloadOffset(d) + PayloadLength(d) <= bytes
            && SourcePort(d) == Be(f, 14 + h) && DestinationPort(d) == Be(f, 16 + h)
  {
    var h := HeaderLength(f);
    Unpack(22 + h, Be(f, 16) - h - 8, Be(f, 14 + h), Be(f, 16 + h));
  }

  /** The two checksum tests, in terms of the summed bytes. */
  lemma AcceptsBySums(f: seq<byte>, bytes: int)
    requires |f| >= 42 && HeaderLength(f) + 8 <= Be(f, 16) && 14 + Be(f, 16) <= |f|
    ensures var h, t := HeaderLength(f), Be(f, 16);
            && (RegionSum(f, 14, 14 + h, 0) == 65535 <==> Whole(WordSum(f[14..14 + h])))
            && (RegionSum(f, 14 + h, 14 + t, UdpAcc(f, h, t)) == 65535 <==>
                Whole(UdpAcc(f, h, t) + WordSum(f[14 + h..14 + t])))
  {
    hide RegionSum, WordSum, Fold, UdpAcc;
    var h, t := HeaderLength(f), Be(f, 16);
    RegionSumIsWordSum(f, 14, 14 + h, 0);
    RegionSumIsWordSum(f, 14 + h, 14 + t, UdpAcc(f, h, t));
  }

  lemma FlagBits(w: nat)
    requires w <= 65535
    ensures WithoutBit14(w) == 0 <==> w == 0 || w == 0x4000
  {
  }

  /** The whole admission test on the bytes of the frame: Ethernet type, version and header length, time to
      live, protocol, lengths, fragmentation word, the two sums as multiples of 65535, and the lengths' agreement. */
  lemma AdmittedExact(f: seq<byte>, bytes: int)
    ensures Parse(f, bytes) != 0 <==>
              && |f| <= 65536 && 42 <= bytes <= 1514 && bytes <= |f|
              && f[12] == 0x08 && f[13] == 0x00 && 0x45 <= f[14] <= 0x4F && f[22] > 0 && f[23] == 17
              && (f[20] == 0x00 || f[20] == 0x40) && f[21] == 0
              && (var b: seq<int> := f;
                  var h, t := b[14] % 16 * 4, b[16] * 256 + b[17];
                  && h + 8 <= t <= 1500 && 14 + t <= bytes && WordSum(f[14..14 + h]) % 65535 == 0
                  && b[18 + h] * 256 + b[19 + h] == t - h
                  && (b[20 + h] * 256 + b[21 + h] == 0
                      || (WordSum(f[26..34]) + 17 + (t - h) + WordSum(f[14 + h..14 + t])) % 65535 == 0))
  {
    hide RegionSum, WordSum, IpOk, UdpOk, Parse;
    ParseIsAccepts(f, bytes);
    if |f| <= 65536 && 42 <= bytes <= 1514 && bytes <= |f| {
      IpExact(f, bytes);
      var h, t := HeaderLength(f), Be(f, 16);
      if 20 <= h && h + 8 <= t && 14 + t <= bytes && f[14] > 0 {
        UdpExact(f, h, t);
      }
    }
  }

  lemma IpExact(f: seq<byte>, bytes: int)
    requires 42 <= bytes <= |f|
    ensures IpOk(f, bytes) <==>
              && f[12] == 0x08 && f[13] == 0x00 && 0x45 <= f[14] <= 0x4F && f[22] > 0 && f[23] == 17
              && (f[20] == 0x00 || f[20] == 0x40) && f[21] == 0
              && HeaderLength(f) + 8 <= Be(f, 16) <= 1500 && 14 + Be(f, 16) <= bytes
              && WordSum(f[14..14 + HeaderLength(f)]) % 65535 == 0
  {
    hide RegionSum, WordSum;
    FlagBits(Be(f, 20));
    hide WithoutBit14;
    var h, t := HeaderLength(f), Be(f, 16);
    if 20 <= h && h + 8 <= t && 14 + t <= |f| && f[14] > 0 {
      SumsExact(f, h, t);
    }
  }

  lemma UdpExact(f: seq<byte>, h: nat, t: nat)
    requires |f| >= 42 && 20 <= h && h + 8 <= t && 14 + t <= |f| && f[14] > 0
    ensures UdpOk(f, h, t) <==>
              && Be(f, 18 + h) == t - h
              && (Be(f, 20 + h) == 0 || (WordSum(f[26..34]) + 17 + (t - h) + WordSum(f[14 + h..14 + t])) % 65535 == 0)
  {
    hide RegionSum, WordSum, UdpAcc;
    SumsExact(f, h, t);
  }

  lemma SumsExact(f: seq<byte>, h: nat, t: nat)
    requires |f| >= 42 && 20 <= h && h + 8 <= t && 14 + t <= |f| && f[14] > 0
    ensures RegionSum(f, 14, 14 + h, 0) == 65535 <==> WordSum(f[14..14 + h]) % 65535 == 0
    ensures RegionSum(f, 14 + h, 14 + t, UdpAcc(f, h, t)) == 65535 <==>
              (WordSum(f[26..34]) + 17 + (t - h) + WordSum(f[14 + h..14 + t])) % 65535 == 0
  {
    hide RegionSum, WordSum, Fold;
    RegionSumIsWordSum(f, 14, 14 + h, 0);
    RegionSumIsWordSum(f, 14 + h, 14 + t, UdpAcc(f, h, t));
    AddressWords(f);
    HeaderPositive(f, h);
    WholeExact(WordSum(f[14..14 + h]));
    WholeExact(UdpAcc(f, h, t) + WordSum(f[14 + h..14 + t]));
  }

  lemma HeaderPositive(f: seq<byte>, h: nat)
    requires 20 <= h && 14 + h <= |f|
    ensures f[14] > 0 ==> WordSum(f[14..14 + h]) > 0
  {
    var d := f[14..14 + h];
    var first: int := d[0];
    assert WordSum(d) >= 256 * first;
  }

  lemma AddressWords(f: seq<byte>)
    requires |f| >= 42
    ensures WordSum(f[26..34]) == Be(f, 26) + Be(f, 28) + Be(f, 30) + Be(f, 32)
  {
    var p := f[26..34];
    SumSplit(p[0..2], p[2..8]);
    SumSplit(p[2..4], p[4..8]);
    SumSplit(p[4..6], p[6..8]);
    assert p == p[0..2] + p[2..8] && p[2..8] == p[2..4] + p[4..8] && p[4..8] == p[4..6] + p[6..8];
    OneWord(p[0..2]);
    OneWord(p[2..4]);
    OneWord(p[4..6]);
    OneWord(p[6..8]);
  }

  lemma OneWord(w: seq<byte>)
    requires |w| == 2
    ensures WordSum(w) == Be(w, 0)
  {
  }

  // ---------------------------------------------------------------- altered frames

  /** Any other byte of the IP header in place of the sent one is refused (the length nibble,
      which moves the end of the header, is treated apart). */
  lemma HeaderByteRefused(f: seq<byte>, bytes: int, k: nat, v: byte)
    requires Accepts(f, bytes) && 14 <= k < 14 + HeaderLength(f) && v != f[k]
    requires k == 14 ==> v % 16 == f[14] % 16
    ensures Parse(f[k := v], bytes) == 0
  {
    hide RegionSum, UdpOk, Describe;
    var g, h := f[k := v], HeaderLength(f);
    HeaderSumBroken(f, h, k, v);
    assert HeaderLength(g) == h;
    ParseIsAccepts(g, bytes);
  }

  lemma HeaderSumBroken(f: seq<byte>, h: nat, k: nat, v: byte)
    requires 14 + h <= |f| && 14 <= k < 14 + h && v != f[k] && RegionSum(f, 14, 14 + h, 0) == 65535
    ensures RegionSum(f[k := v], 14, 14 + h, 0) != 65535
  {
    hide RegionSum, WordSum, Fold;
    var g := f[k := v];
    RegionSumIsWordSum(f, 14, 14 + h, 0);
    RegionSumIsWordSum(g, 14, 14 + h, 0);
    assert g[14..14 + h] == f[14..14 + h][k - 14 := v];
    ByteChange(f[14..14 + h], 0, k - 14, v);
  }

  /** With the UDP checksum on, another byte anywhere in the datagram is refused unless it
      writes zero into the checksum field, which turns the test off. */
  lemma UdpByteExact(f: seq<byte>, bytes: int, k: nat, v: byte)
    requires Accepts(f, bytes)
    requires var h, t := HeaderLength(f), Be(f, 16);
             14 + h <= k < 14 + t && v != f[k] && Be(f, 14 + h + 6) != 0
    ensures Parse(f[k := v], bytes) != 0 <==> Be(f[k := v], 14 + HeaderLength(f) + 6) == 0
  {
    hide RegionSum, Describe;
    var g, h, t := f[k := v], HeaderLength(f), Be(f, 16);
    UdpByte(f, h, t, k, v);
    hide UdpOk;
    assert f[..14 + h] == g[..14 + h];
    SameHeader(f, g, h, bytes);
    assert HeaderLength(g) == h && Be(g, 16) == t;
    ParseIsAccepts(g, bytes);
    hide IpOk, Parse;
  }

  lemma UdpByte(f: seq<byte>, h: nat, t: nat, k: nat, v: byte)
    requires |f| >= 42 && h >= 20 && h + 8 <= t && 14 + t <= |f| && 14 + h <= k < 14 + t && v != f[k]
    requires UdpOk(f, h, t) && Be(f, 20 + h) != 0
    ensures UdpOk(f[k := v], h, t) <==> Be(f[k := v], 20 + h) == 0
  {
    hide RegionSum;
    UdpSumBroken(f, h, t, k, v);
    if Be(f[k := v], 20 + h) == 0 {
      assert Be(f[k := v], 18 + h) == Be(f, 18 + h);
    }
  }

  lemma UdpSumBroken(f: seq<byte>, h: nat, t: nat, k: nat, v: byte)
    requires |f| >= 42 && h + 8 <= t && 14 + t <= |f| && h >= 20 && 14 + h <= k < 14 + t && v != f[k]
    requires RegionSum(f, 14 + h, 14 + t, UdpAcc(f, h, t)) == 65535
    ensures UdpAcc(f[k := v], h, t) == UdpAcc(f, h, t)
    ensures RegionSum(f[k := v], 14 + h, 14 + t, UdpAcc(f, h, t)) != 65535
  {
    hide RegionSum, WordSum, Fold;
    var g, acc := f[k := v], UdpAcc(f, h, t);
    RegionSumIsWordSum(f, 14 + h, 14 + t, acc);
    RegionSumIsWordSum(g, 14 + h, 14 + t, acc);
    assert g[14 + h..14 + t] == f[14 + h..14 + t][k - 14 - h := v];
    ByteChange(f[14 + h..14 + t], acc, k - 14 - h, v);
  }

  lemma UdpWordSum(f: seq<byte>, h: nat, t: nat, k: nat, hi: byte, lo: byte)
    requires |f| >= 42 && 20 <= h && h % 2 == 0 && h + 8 <= t && 14 + t <= |f| && 14 + h <= k && k + 1 < 14 + t
             && k % 2 == 0
    requires RegionSum(f, 14 + h, 14 + t, UdpAcc(f, h, t)) == 65535
    ensures var before, after := WordAt(f, k), WordAt([hi, lo], 0);
            RegionSum(WithWord(f, k, hi, lo), 14 + h, 14 + t, UdpAcc(f, h, t)) == 65535 <==>
            before == after || Exchanged(before, after)
  {
    hide RegionSum, WordSum, Fold;
    var d := f[14 + h..14 + t];
    WordInRegion(f, 14 + h, 14 + t, UdpAcc(f, h, t), k, hi, lo);
    WordInSum(d, k - 14 - h);
    assert WordAt(d, k - 14 - h) == WordAt(f, k);
  }

  lemma UdpWord(f: seq<byte>, h: nat, t: nat, k: nat, hi: byte, lo: byte)
    requires |f| >= 42 && 20 <= h && h % 2 == 0 && h + 8 <= t <= 1500 && 14 + t <= |f|
    requires 14 + h <= k && k + 1 < 14 + t && k % 2 == 0
    requires UdpOk(f, h, t) && Be(f, 20 + h) != 0
    ensures var before, after, g := WordAt(f, k), WordAt([hi, lo], 0), WithWord(f, k, hi, lo);
            UdpOk(g, h, t) <==> Be(g, 20 + h) == 0 || before == after || Exchanged(before, after)
  {
    hide RegionSum, WordSum, Fold;
    var g := WithWord(f, k, hi, lo);
    assert UdpAcc(g, h, t) == UdpAcc(f, h, t);
    UdpWordSum(f, h, t, k, hi, lo);
    assert k == 18 + h || Be(g, 18 + h) == Be(f, 18 + h);
    assert k == 20 + h || Be(g, 20 + h) == Be(f, 20 + h);
  }

  /** With the UDP checksum on, another aligned word anywhere in the datagram is refused unless
      it exchanges 0x0000 and 0xFFFF or writes zero into the checksum field. */
  lemma UdpWordExact(f: seq<byte>, bytes: int, k: nat, hi: byte, lo: byte)
    requires Accepts(f, bytes) && Be(f, 20 + HeaderLength(f)) != 0
    requires 14 + HeaderLength(f) <= k && k + 1 < 14 + Be(f, 16) && k % 2 == 0
    ensures var before, after, g := WordAt(f, k), WordAt([hi, lo], 0), WithWord(f, k, hi, lo);
            Parse(g, bytes) != 0 <==> Be(g, 20 + HeaderLength(f)) == 0 || before == after || Exchanged(before, after)
  {
    var g, h, t := WithWord(f, k, hi, lo), HeaderLength(f), Be(f, 16);
    hide RegionSum, WordSum, Fold, Describe, UdpOk;
    UdpWord(f, h, t, k, hi, lo);
    ParseIsAccepts(g, bytes);
    hide Parse;
    assert f[..14 + h] == g[..14 + h];
    SameHeader(f, g, h, bytes);
    assert HeaderLength(g) == h && Be(g, 16) == t;
    hide IpOk;
  }

  lemma AddressShift(f: seq<byte>, h: nat, t: nat, k: nat, hi: byte, lo: byte)
    requires |f| >= 42 && 20 <= h <= t && 14 + h <= |f| && 18 <= k && k + 1 < 14 + h && k % 2 == 0
    ensures var before: int, after: int := WordAt(f, k), WordAt([hi, lo], 0);
            var g := WithWord(f, k, hi, lo);
            UdpAcc(g, h, t) == UdpAcc(f, h, t) + (if 26 <= k <= 32 then after - before else 0)
  {
    assert k == 26 || k == 28 || k == 30 || k == 32 || k < 26 || k > 32;
  }

  lemma DatagramShift(f: seq<byte>, g: seq<byte>, from: nat, end: nat, acc: nat, acc': nat)
    requires from <= end <= |f| == |g| && f[from..end] == g[from..end]
    requires acc' == acc || acc' == acc + 65535 || (acc' > 0 && acc' + 65535 == acc)
    requires RegionSum(f, from, end, acc) == 65535
    ensures RegionSum(g, from, end, acc') == 65535
  {
    hide RegionSum, WordSum, Fold;
    RegionSumIsWordSum(f, from, end, acc);
    RegionSumIsWordSum(g, from, end, acc');
    SumDelta(acc + WordSum(f[from..end]), acc' as int - acc);
  }

  /** The addresses are summed with the datagram, too: the exchange shifts that sum by 65535. */
  lemma ExchangeUdp(f: seq<byte>, h: nat, t: nat, k: nat, hi: byte, lo: byte)
    requires |f| >= 42 && 20 <= h && h + 8 <= t && 14 + t <= |f| && 18 <= k && k + 1 < 14 + h && k % 2 == 0
    requires Exchanged(WordAt(f, k), WordAt([hi, lo], 0)) && UdpOk(f, h, t)
    ensures UdpOk(WithWord(f, k, hi, lo), h, t)
  {
    var g := WithWord(f, k, hi, lo);
    hide RegionSum, WordSum, Fold;
    AddressShift(f, h, t, k, hi, lo);
    SumsPositive(g, h, t);
    BehindHeader(f, 14 + h, 14 + t, k, hi, lo);
    hide UdpAcc, WithWord;
    if Be(f, 20 + h) != 0 {
      DatagramShift(f, g, 14 + h, 14 + t, UdpAcc(f, h, t), UdpAcc(g, h, t));
    }
  }

  lemma SumsPositive(f: seq<byte>, h: nat, t: nat)
    requires |f| >= 42 && h + 8 <= t
    ensures UdpAcc(f, h, t) >= 25
  {
  }

  lemma BehindHeader(f: seq<byte>, off: nat, end: nat, k: nat, hi: byte, lo: byte)
    requires k + 1 < off && off + 8 <= end <= |f|
    ensures var g := WithWord(f, k, hi, lo);
            g[off..end] == f[off..end] && Be(g, off + 4) == Be(f, off + 4) && Be(g, off + 6) == Be(f, off + 6)
  {
  }

  /** The fields that a word elsewhere leaves alone. */
  lemma FieldsStay(f: seq<byte>, k: nat, hi: byte, lo: byte)
    requires |f| >= 42 && k + 1 < |f| && (k == 18 || k >= 24)
    ensures var g := WithWord(f, k, hi, lo);
            && Be(g, 12) == Be(f, 12) && g[14] == f[14] && Be(g, 16) == Be(f, 16) && Be(g, 20) == Be(f, 20)
            && g[22] == f[22] && g[23] == f[23]
  {
  }

  /** An exchange can only be in these places: the other words hold what is neither. */
  lemma ExchangePlaces(f: seq<byte>, bytes: int, k: nat, hi: byte, lo: byte)
    requires Accepts(f, bytes) && 14 <= k && k + 1 < |f| && k % 2 == 0 && k != 20
    requires Exchanged(WordAt(f, k), WordAt([hi, lo], 0))
    ensures k == 18 || k >= 24
  {
    hide RegionSum, UdpOk;
  }

  lemma ExchangeKeeps(f: seq<byte>, bytes: int, k: nat, hi: byte, lo: byte)
    requires Accepts(f, bytes) && 14 <= k < 14 + HeaderLength(f) && k % 2 == 0 && k != 20
    requires Exchanged(WordAt(f, k), WordAt([hi, lo], 0))
    ensures Accepts(WithWord(f, k, hi, lo), bytes)
  {
    hide RegionSum, UdpOk, WithWord, Be, WordAt, Exchanged;
    ExchangePlaces(f, bytes, k, hi, lo);
    FieldsStay(f, k, hi, lo);
    HeaderFacts(f, bytes);
    HeaderWordSum(f, HeaderLength(f), k, hi, lo);
    ExchangeUdp(f, HeaderLength(f), Be(f, 16), k, hi, lo);
  }

  lemma HeaderFacts(f: seq<byte>, bytes: int)
    requires Accepts(f, bytes)
    ensures var h, t := HeaderLength(f), Be(f, 16);
            && 20 <= h <= 60 && h % 2 == 0 && h + 8 <= t && 14 + t <= |f| && 0 < f[14] < 255 && UdpOk(f, h, t)
            && RegionSum(f, 14, 14 + h, 0) == 65535
  {
    hide RegionSum, UdpOk;
  }

  lemma WordRefused(f: seq<byte>, bytes: int, k: nat, hi: byte, lo: byte)
    requires Accepts(f, bytes) && 14 <= k < 14 + HeaderLength(f) && k % 2 == 0
    requires k == 14 ==> hi % 16 == f[14] % 16
    requires var before, after := WordAt(f, k), WordAt([hi, lo], 0);
             before != after && (k == 20 || !Exchanged(before, after))
    ensures !Accepts(WithWord(f, k, hi, lo), bytes)
  {
    hide RegionSum, UdpOk;
    HeaderFacts(f, bytes);
    HeaderWordSum(f, HeaderLength(f), k, hi, lo);
    assert HeaderLength(WithWord(f, k, hi, lo)) == HeaderLength(f);
  }

  lemma SameWord(f: seq<byte>, k: nat, hi: byte, lo: byte)
    requires k + 1 < |f| && WordAt(f, k) == WordAt([hi, lo], 0)
    ensures WithWord(f, k, hi, lo) == f
  {
  }

  /** Another aligned word of the IP header in place of the sent one is refused unless it
      exchanges 0x0000 and 0xFFFF, and in the flags word even then (the length nibble apart). */
  lemma HeaderWordExact(f: seq<byte>, bytes: int, k: nat, hi: byte, lo: byte)
    requires Accepts(f, bytes) && 14 <= k < 14 + HeaderLength(f) && k % 2 == 0
    requires k == 14 ==> hi % 16 == f[14] % 16
    ensures var before, after := WordAt(f, k), WordAt([hi, lo], 0);
            Parse(WithWord(f, k, hi, lo), bytes) != 0 <==> before == after || (k != 20 && Exchanged(before, after))
  {
    var g, before, after := WithWord(f, k, hi, lo), WordAt(f, k), WordAt([hi, lo], 0);
    ParseIsAccepts(g, bytes);
    hide Parse, Accepts, WordAt, WithWord, Exchanged;
    if before == after {
      SameWord(f, k, hi, lo);
    } else if k == 20 || !Exchanged(before, after) {
      WordRefused(f, bytes, k, hi, lo);
    } else {
      ExchangeKeeps(f, bytes, k, hi, lo);
    }
  }

  lemma HeaderWordSum(f: seq<byte>, h: nat, k: nat, hi: byte, lo: byte)
    requires 14 + h <= |f| && h % 2 == 0 && 14 <= k < 14 + h && k % 2 == 0 && 0 < f[14] < 255
    requires RegionSum(f, 14, 14 + h, 0) == 65535
    ensures var before, after := WordAt(f, k), WordAt([hi, lo], 0);
            RegionSum(WithWord(f, k, hi, lo), 14, 14 + h, 0) == 65535 <==> before == after || Exchanged(before, after)
  {
    hide RegionSum, WordSum, Fold;
    WordInRegion(f, 14, 14 + h, 0, k, hi, lo);
    FirstWord(f[14..14 + h], k - 14);
    assert WordAt(f[14..14 + h], k - 14) == WordAt(f, k);
  }

  /** A sum that holds a word of 65535 besides its first word, which is not zero, is larger. */
  lemma FirstWord(d: seq<byte>, k: nat)
    requires |d| % 2 == 0 && k % 2 == 0 && k + 1 < |d| && 0 < d[0] < 255
    ensures WordAt(d, k) == 65535 ==> WordSum(d) > 65535
  {
    hide WordSum;
    if k > 0 {
      PartOfSum(d, k, 0);
    }
  }

  lemma SameHeader(f: seq<byte>, g: seq<byte>, h: nat, bytes: int)
    requires |f| == |g| && 42 <= bytes <= |f| && h == HeaderLength(f) && 14 + h <= |f| && f[..14 + h] == g[..14 + h]
    ensures IpOk(f, bytes) ==> IpOk(g, bytes)
  {
    hide RegionSum, WordSum, Fold;
    assert forall i :: 0 <= i < 14 + h ==> f[..14 + h][i] == f[i] && g[..14 + h][i] == g[i];
    if IpOk(f, bytes) {
      RegionSumIsWordSum(f, 14, 14 + h, 0);
      RegionSumIsWordSum(g, 14, 14 + h, 0);
      assert f[14..14 + h] == f[..14 + h][14..];
      assert g[14..14 + h] == g[..14 + h][14..];
    }
  }

  /** The frame with another 16-bit word at `k`. */
  function WithWord(f: seq<byte>, k: nat, hi: byte, lo: byte): (g: seq<byte>)
    requires k + 1 < |f|
    ensures |g| == |f|
  {
    f[k := hi][k + 1 := lo]
  }

  /** What another word does to a sum over a stretch of the frame that holds it. */
  lemma WordInRegion(f: seq<byte>, i: nat, end: nat, acc: nat, k: nat, hi: byte, lo: byte)
    requires i <= k && k + 1 < end <= |f| && (k - i) % 2 == 0 && RegionSum(f, i, end, acc) == 65535
    ensures var before, after := WordAt(f, k), WordAt([hi, lo], 0);
            RegionSum(WithWord(f, k, hi, lo), i, end, acc) == 65535 <==>
              before == after || (Exchanged(before, after) && (before == 0 || acc + WordSum(f[i..end]) > 65535))
  {
    var g := WithWord(f, k, hi, lo);
    hide RegionSum, WordSum, Fold;
    RegionSumIsWordSum(f, i, end, acc);
    RegionSumIsWordSum(g, i, end, acc);
    assert g[i..end] == f[i..end][k - i := hi][k - i + 1 := lo];
    WordChange(f[i..end], acc, k - i, hi, lo);
  }

  lemma {:induction false} PartOfSum(d: seq<byte>, k: nat, j: nat)
    requires k % 2 == 0 && j % 2 == 0 && k + 1 < |d| && j + 1 < |d| && k != j
    ensures WordAt(d, k) + WordAt(d, j) <= WordSum(d)
  {
    var rest := d[2..];
    if k == 0 {
      WordInSum(rest, j - 2);
    } else if j == 0 {
      WordInSum(rest, k - 2);
    } else {
      PartOfSum(rest, k - 2, j - 2);
    }
  }

  lemma TwoWords(f: seq<byte>, i: nat, end: nat, acc: nat)
    requires i + 4 <= end <= |f|
    ensures RegionSum(f, i, end, acc) == RegionSum(f, i + 4, end, acc + Be(f, i) + Be(f, i + 2))
  {
    assert RegionSum(f, i, end, acc) == RegionSum(f, i + 2, end, acc + Be(f, i));
  }

  const ETHERNET: seq<byte> := [2, 0, 0, 0, 0, 1, 2, 0, 0, 0, 0, 2, 8, 0]
  const LENGTHS: seq<byte> := [0x45, 0, 0, 32, 0, 0, 0, 0, 64, 17]
  const ADDRESSES: seq<byte> := [0x66, 0x31, 10, 77, 0, 1, 10, 77, 0, 2]
  const DATAGRAM: seq<byte> := [0xFE, 0xFF, 0, 0, 0, 12, 0, 0, 0, 8, 0, 0]
  const AMBIGUOUS: seq<byte> := ETHERNET + (LENGTHS + (ADDRESSES + DATAGRAM))

  function FixedWords(f: seq<byte>, i: nat): nat
    requires i + 20 <= |f|
  {
    Be(f, i) + Be(f, i + 2) + (Be(f, i + 4) + Be(f, i + 6)) + (Be(f, i + 8) + Be(f, i + 10))
    + (Be(f, i + 12) + Be(f, i + 14)) + (Be(f, i + 16) + Be(f, i + 18))
  }

  lemma TenWords(f: seq<byte>, i: nat, end: nat, acc: nat)
    requires i + 20 <= end <= |f|
    ensures RegionSum(f, i, end, acc) == RegionSum(f, i + 20, end, acc + FixedWords(f, i))
  {
    var s1 := acc + Be(f, i) + Be(f, i + 2);
    var s2 := s1 + Be(f, i + 4) + Be(f, i + 6);
    var s3 := s2 + Be(f, i + 8) + Be(f, i + 10);
    var s4 := s3 + Be(f, i + 12) + Be(f, i + 14);
    TwoWords(f, i, end, acc);
    TwoWords(f, i + 4, end, s1);
    TwoWords(f, i + 8, end, s2);
    TwoWords(f, i + 12, end, s3);
    TwoWords(f, i + 16, end, s4);
  }

  lemma ShortHeader(f: seq<byte>, i: nat)
    requires i + 20 <= |f| && FixedWords(f, i) == 65535
    ensures RegionSum(f, i, i + 20, 0) == 65535
  {
    TenWords(f, i, i + 20, 0);
  }

  lemma LongHeader(f: seq<byte>, i: nat)
    requires i + 24 <= |f| && FixedWords(f, i) + Be(f, i + 20) + Be(f, i + 22) == 131070
    ensures RegionSum(f, i, i + 24, 0) == 65535
  {
    TenWords(f, i, i + 24, 0);
    TwoWords(f, i + 20, i + 24, FixedWords(f, i));
    WholeExact(131070);
  }

  lemma AdmittedFrom(f: seq<byte>, h: nat)
    requires |f| == 46 && (h == 20 || h == 24)
    requires Be(f, 12) == 2048 && f[14] == 0x40 + h / 4 && Be(f, 16) == 32 && Be(f, 20) == 0 && f[22] > 0 && f[23] == 17
    requires RegionSum(f, 14, 14 + h, 0) == 65535 && Be(f, 14 + h + 4) == 32 - h && Be(f, 14 + h + 6) == 0
    ensures Parse(f, 46) != 0
  {
    hide RegionSum, Be, Describe;
    assert HeaderLength(f) == h;
    ParseIsAccepts(f, 46);
  }

  lemma Congruent(t: nat, s: nat, d: int)
    requires t > 0 && t % 65535 == 0 && s == t + d && s > 0
    ensures Whole(s) <==> d % 65535 == 0
  {
    WholeExact(s);
    assert s == 65535 * (d / 65535 + t / 65535) + d % 65535;
  }

  lemma Opposite(x: int)
    ensures (-x) % 65535 == 0 <==> x % 65535 == 0
  {
    assert x == 65535 * (x / 65535) + x % 65535;
    assert -x == 65535 * (-x / 65535) + (-x) % 65535;
  }

  /** A whole header, continued by `rest` and with another first byte. */
  lemma Lengthened(short: seq<byte>, rest: seq<byte>, v: byte)
    requires |short| >= 2 && |short| % 2 == 0 && Whole(WordSum(short)) && v > 0
    ensures Whole(WordSum((short + rest)[0 := v])) <==> (WordSum(rest) + 256 * (v - short[0])) % 65535 == 0
  {
    WholeExact(WordSum(short));
    SumSplit(short, rest);
    SumUpdate(short + rest, 0, v);
    assert WordSum((short + rest)[0 := v]) > 0;
    hide WordSum;
    Congruent(WordSum(short), WordSum((short + rest)[0 := v]), WordSum(rest) + 256 * (v - short[0]));
  }

  /** A whole header, cut short before `rest` and with another first byte. */
  lemma Shortened(short: seq<byte>, rest: seq<byte>, v: byte)
    requires |short| >= 2 && |short| % 2 == 0 && Whole(WordSum(short + rest)) && v > 0
    ensures Whole(WordSum(short[0 := v])) <==> (WordSum(rest) + 256 * (short[0] - v)) % 65535 == 0
  {
    WholeExact(WordSum(short + rest));
    SumSplit(short, rest);
    SumUpdate(short, 0, v);
    assert WordSum(short[0 := v]) > 0;
    hide WordSum;
    var d := WordSum(rest) + 256 * (short[0] - v);
    Congruent(WordSum(short + rest), WordSum(short[0 := v]), -d);
    Opposite(d);
  }

  lemma HeaderWhole(f: seq<byte>, bytes: int)
    requires Accepts(f, bytes)
    ensures |f| >= 42 && 20 <= HeaderLength(f) && 14 + HeaderLength(f) <= |f|
            && Whole(WordSum(f[14..14 + HeaderLength(f)]))
  {
    RegionSumIsWordSum(f, 14, 14 + HeaderLength(f), 0);
  }

  /** What the words between the two ends and the changed byte add to the header sum. */
  function Shift(f: seq<byte>, h: nat, m: nat): nat
    requires 14 + h <= |f| && 14 + m <= |f|
  {
    if m >= h then WordSum(f[14 + h..14 + m]) + 64 * (m - h) else WordSum(f[14 + m..14 + h]) + 64 * (h - m)
  }

  lemma HeaderMoved(f: seq<byte>, h: nat, m: nat, v: byte)
    requires 20 <= h && 20 <= m && h % 2 == 0 && m % 2 == 0 && 14 + h <= |f| && 14 + m <= |f| && v > 0
    requires Whole(WordSum(f[14..14 + h])) && 256 * (v - f[14]) == 64 * (m - h)
    ensures Whole(WordSum(f[14..14 + m][0 := v])) <==> Shift(f, h, m) % 65535 == 0
  {
    hide WordSum, Whole;
    if m >= h {
      assert f[14..14 + m] == f[14..14 + h] + f[14 + h..14 + m];
      Lengthened(f[14..14 + h], f[14 + h..14 + m], v);
    } else {
      assert f[14..14 + h] == f[14..14 + m] + f[14 + m..14 + h];
      Shortened(f[14..14 + m], f[14 + m..14 + h], v);
    }
  }

  lemma MovedSum(f: seq<byte>, bytes: int, v: byte)
    requires Accepts(f, bytes) && v / 16 == 4 && 5 <= v % 16 && 14 + v % 16 * 4 <= |f|
    ensures RegionSum(f[14 := v], 14, 14 + v % 16 * 4, 0) == 65535 <==>
            Shift(f, HeaderLength(f), v % 16 * 4) % 65535 == 0
  {
    hide WordSum, RegionSum;
    HeaderWhole(f, bytes);
    var h, m := HeaderLength(f), v % 16 * 4;
    assert 256 * (v - f[14]) == 64 * (m - h);
    hide Accepts, HeaderLength, Fold, Shift;
    HeaderMoved(f, h, m, v);
    RegionSumIsWordSum(f[14 := v], 14, 14 + m, 0);
    assert f[14 := v][14..14 + m] == f[14..14 + m][0 := v];
  }

  lemma MovedUdp(f: seq<byte>, m: nat, t: nat, v: byte)
    requires |f| >= 42 && 20 <= m && m + 8 <= t && 14 + t <= |f|
    ensures UdpOk(f[14 := v], m, t) == UdpOk(f, m, t)
  {
    var g := f[14 := v];
    hide RegionSum, WordSum, Fold;
    RegionSumIsWordSum(f, 14 + m, 14 + t, UdpAcc(f, m, t));
    RegionSumIsWordSum(g, 14 + m, 14 + t, UdpAcc(f, m, t));
    assert g[14 + m..14 + t] == f[14 + m..14 + t];
  }

  /** Byte 14 holds the version and the header length, which moves the end of the header. With
      another value there the frame is admitted exactly when the version stays, the length is
      legal and leaves room for a datagram, the words between the two ends make up for the
      changed byte, and the datagram is in order at its new place. */
  lemma LengthNibbleExact(f: seq<byte>, bytes: int, v: byte)
    requires Accepts(f, bytes)
    ensures var h, m, t := HeaderLength(f), v % 16 * 4, Be(f, 16);
            Parse(f[14 := v], bytes) != 0 <==>
              && v / 16 == 4 && 5 <= v % 16 && m + 8 <= t
              && Shift(f, h, m) % 65535 == 0 && UdpOk(f, m, t)
  {
    var g, m, t := f[14 := v], v % 16 * 4, Be(f, 16);
    hide RegionSum, WordSum, Fold, Shift, UdpOk, Describe;
    assert HeaderLength(g) == m;
    assert Be(g, 12) == Be(f, 12) && Be(g, 16) == t && Be(g, 20) == Be(f, 20);
    hide Be;
    ParseIsAccepts(g, bytes);
    if v / 16 == 4 && 5 <= v % 16 && m + 8 <= t {
      MovedSum(f, bytes, v);
      MovedUdp(f, m, t, v);
    }
  }

  lemma ParseIsAccepts(f: seq<byte>, bytes: int)
    ensures Parse(f, bytes) != 0 <==> Accepts(f, bytes)
  {
  }

  /** The exception in `HeaderByteRefused` is real: this frame stays admitted when its header
      length nibble changes, because the sum then runs over other bytes. */
  lemma LengthNibbleCanPass()
    ensures Parse(AMBIGUOUS, 46) != 0 && Parse(AMBIGUOUS[14 := 0x46], 46) != 0
  {
    hide Parse;
    ShortNibblePasses(AMBIGUOUS);
    LongNibblePasses(AMBIGUOUS[14 := 0x46]);
  }

  lemma ShortNibblePasses(g: seq<byte>)
    requires g == AMBIGUOUS
    ensures Parse(g, 46) != 0
  {
    hide Parse, RegionSum, FixedWords, Be;
    AmbiguousWords(g, 0x45);
    ShortHeader(g, 14);
    AdmittedFrom(g, 20);
  }

  lemma LongNibblePasses(g: seq<byte>)
    requires g == AMBIGUOUS[14 := 0x46]
    ensures Parse(g, 46) != 0
  {
    hide Parse, RegionSum, FixedWords, Be;
    LongRow(g);
    AmbiguousWords(g, 0x46);
    LongHeader(g, 14);
    AdmittedFrom(g, 24);
  }

  lemma LongRow(g: seq<byte>)
    requires g == AMBIGUOUS[14 := 0x46]
    ensures g == ETHERNET + (LENGTHS[0 := 0x46] + (ADDRESSES + DATAGRAM))
  {
  }

  lemma AmbiguousWords(g: seq<byte>, v: byte)
    requires g == ETHERNET + (LENGTHS[0 := v] + (ADDRESSES + DATAGRAM)) && (v == 0x45 || v == 0x46)
    ensures |g| == 46 && Be(g, 12) == 2048 && g[14] == v && Be(g, 16) == 32 && Be(g, 20) == 0 && g[22] > 0
            && g[23] == 17
    ensures Be(g, 38) == 12 && Be(g, 40) == 0 && Be(g, 42) == 8 && Be(g, 44) == 0
    ensures FixedWords(g, 14) == 65279 + 256 * (v as int - 0x44) && Be(g, 34) + Be(g, 36) == 65279
  {
  }
}
