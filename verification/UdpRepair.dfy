/** In-place checksum repair of an edited frame, and the echo that answers a frame
    without recomputing either checksum. */
module UdpRepair {
  import opened Common
  import opened InetChecksum
  import opened Ipv4Udp
  import opened UdpPeer

  predicate LegalHeader(d: seq<byte>) {
    |d| >= 42 && HeaderLength(d) >= 20 && 14 + HeaderLength(d) <= |d|
  }

  /** The datagram length the IP header announces lies inside the frame. */
  predicate LegalDatagram(d: seq<byte>) {
    LegalHeader(d) && HeaderLength(d) + 8 <= Be(d, 16) && 14 + Be(d, 16) <= |d|
  }

  /** A datagram header lies inside the frame; the announced total may be anything from the IP
      header's length on, and may run past the frame. */
  predicate Repairable(d: seq<byte>) {
    LegalHeader(d) && 22 + HeaderLength(d) <= |d| && HeaderLength(d) <= Be(d, 16)
  }

  /** Where the announced datagram ends, or the frame before that. */
  function Clipped(d: seq<byte>): (end: nat)
    requires Repairable(d)
    ensures 14 + HeaderLength(d) <= end <= |d|
  {
    if 14 + Be(d, 16) <= |d| then 14 + Be(d, 16) else |d|
  }

  function FixIpOf(d: seq<byte>): (e: seq<byte>)
    requires LegalHeader(d)
    ensures |e| == |d|
  {
    var blank := Put16(d, 24, 0);
    Put16(blank, 24, ChecksumField(blank[14..14 + HeaderLength(d)]))
  }

  function FixUdpOf(d: seq<byte>): (e: seq<byte>)
    requires Repairable(d)
    ensures |e| == |d|
  {
    var off, size := 14 + HeaderLength(d), Be(d, 16) - HeaderLength(d);
    var blank := Put16(d, off + 6, 0);
    Put16(blank, off + 6, UdpField(d[26..34] + [0, 17] + Be16(size) + blank[off..Clipped(d)]))
  }

  /** What goes into each checksum field. */
  function IpCheck(d: seq<byte>): (c: int)
    requires LegalHeader(d)
    ensures 0 <= c <= 65535
  {
    ChecksumField(Put16(d, 24, 0)[14..14 + HeaderLength(d)])
  }

  function UdpCheck(d: seq<byte>): (c: int)
    requires Repairable(d)
    ensures 0 < c <= 65535
  {
    var off, size := 14 + HeaderLength(d), Be(d, 16) - HeaderLength(d);
    UdpField(d[26..34] + [0, 17] + Be16(size) + Put16(d, off + 6, 0)[off..Clipped(d)])
  }

  method FixIp(data: array<byte>)
    requires LegalHeader(data[..])
    modifies data
    ensures data[..] == FixIpOf(old(data[..]))
  {
    ghost var d := data[..];
    var hlen := data[14] % 16 * 4;
    data[24], data[25] := 0, 0;
    assert data[..] == Put16(d, 24, 0);
    assert data[14..14 + hlen] == data[..][14..14 + hlen];
    var c := Checksum(data[14..14 + hlen]);
    data[24], data[25] := c / 256, c % 256;
  }

  lemma FixUdpIs(d: seq<byte>)
    requires Repairable(d)
    ensures var at := 20 + HeaderLength(d); FixUdpOf(d) == Put16(Put16(d, at, 0), at, UdpCheck(d))
  {
    hide Put16, UdpField;
  }

  method FixUdp(data: array<byte>)
    requires Repairable(data[..])
    modifies data
    ensures data[..] == FixUdpOf(old(data[..]))
  {
    ghost var d := data[..];
    var hlen := data[14] % 16 * 4;
    var hi: int, lo: int := data[16], data[17];
    var size := hi * 256 + lo - hlen;
    var off := 14 + hlen;
    data[off + 6], data[off + 7] := 0, 0;
    ghost var blank := data[..];
    assert blank == Put16(d, off + 6, 0);
    var end := if off + size <= data.Length then off + size else data.Length;
    assert data[off..end] == blank[off..end];
    assert data[26..34] == d[26..34];
    var c := Checksum(data[26..34] + [0, 17] + Be16(size) + data[off..end]);
    c := if c == 0 then 65535 else c;
    assert c == UdpCheck(d);
    hide UdpCheck;
    data[off + 6], data[off + 7] := c / 256, c % 256;
    assert data[..] == Put16(blank, off + 6, c);
    FixUdpIs(d);
  }

  // ---------------------------------------------------------------- what repair changes and restores

  lemma FixIpFrame(d: seq<byte>)
    requires LegalHeader(d)
    ensures var e := FixIpOf(d);
            && LegalHeader(e) && HeaderLength(e) == HeaderLength(d)
            && forall i :: 0 <= i < |d| && i != 24 && i != 25 ==> e[i] == d[i]
  {
  }

  lemma FixUdpFrame(d: seq<byte>)
    requires Repairable(d)
    ensures var e, off := FixUdpOf(d), 14 + HeaderLength(d);
            && Repairable(e) && HeaderLength(e) == HeaderLength(d) && Be(e, 16) == Be(d, 16) && Clipped(e) == Clipped(d)
            && (LegalDatagram(e) <==> LegalDatagram(d))
            && forall i :: 0 <= i < |d| && i != off + 6 && i != off + 7 ==> e[i] == d[i]
  {
  }

  lemma Blanked(d: seq<byte>, e: seq<byte>, at: nat)
    requires |d| == |e| && at + 1 < |d|
    requires forall i :: 0 <= i < |d| && i != at && i != at + 1 ==> e[i] == d[i]
    ensures Put16(e, at, 0) == Put16(d, at, 0)
  {
  }

  lemma FixIpIdempotent(d: seq<byte>)
    requires LegalHeader(d)
    ensures FixIpOf(FixIpOf(d)) == FixIpOf(d)
  {
    FixIpFrame(d);
    Blanked(d, FixIpOf(d), 24);
  }

  lemma FixUdpIdempotent(d: seq<byte>)
    requires Repairable(d)
    ensures FixUdpOf(FixUdpOf(d)) == FixUdpOf(d)
  {
    FixUdpFrame(d);
    var e := FixUdpOf(d);
    Blanked(d, e, 20 + HeaderLength(d));
    assert e[26..34] == d[26..34];
  }

  lemma PutTwice(d: seq<byte>, at: nat, v: int)
    requires at + 1 < |d| && 0 <= v <= 65535
    ensures Put16(Put16(d, at, 0), at, v) == Put16(d, at, v)
  {
  }

  lemma PutApart(d: seq<byte>, i: nat, x: int, j: nat, y: int)
    requires i + 1 < j && j + 1 < |d| && 0 <= x <= 65535 && 0 <= y <= 65535
    ensures Put16(Put16(d, i, x), j, y) == Put16(Put16(d, j, y), i, x)
  {
  }

  lemma FixIpShape(d: seq<byte>)
    requires LegalHeader(d)
    ensures FixIpOf(d) == Put16(d, 24, IpCheck(d))
  {
    hide Put16;
    PutTwice(d, 24, IpCheck(d));
  }

  lemma FixUdpShape(d: seq<byte>)
    requires Repairable(d)
    ensures FixUdpOf(d) == Put16(d, 20 + HeaderLength(d), UdpCheck(d))
  {
    hide Put16;
    PutTwice(d, 20 + HeaderLength(d), UdpCheck(d));
  }

  /** Neither checksum covers the other's field. */
  lemma UdpCheckStays(d: seq<byte>)
    requires Repairable(d)
    ensures Repairable(FixIpOf(d)) && HeaderLength(FixIpOf(d)) == HeaderLength(d) && UdpCheck(FixIpOf(d)) == UdpCheck(d)
  {
    FixIpFrame(d);
    SameBehind(d, FixIpOf(d), 14 + HeaderLength(d), Clipped(d));
    hide FixIpOf, UdpField, Be16, Put16;
  }

  /** What the header checksum leaves alone. */
  lemma SameBehind(d: seq<byte>, e: seq<byte>, off: nat, end: nat)
    requires |d| == |e| && 34 <= off && off + 8 <= |d| && off <= end <= |d|
    requires forall i :: 0 <= i < |d| && i != 24 && i != 25 ==> e[i] == d[i]
    ensures Put16(e, off + 6, 0)[off..end] == Put16(d, off + 6, 0)[off..end] && e[26..34] == d[26..34]
  {
  }

  lemma IpCheckStays(d: seq<byte>)
    requires Repairable(d)
    ensures HeaderLength(FixUdpOf(d)) == HeaderLength(d) && IpCheck(FixUdpOf(d)) == IpCheck(d)
  {
    FixUdpFrame(d);
    var g, off := FixUdpOf(d), 14 + HeaderLength(d);
    hide FixUdpOf, ChecksumField;
    assert Put16(g, 24, 0)[14..off] == Put16(d, 24, 0)[14..off];
  }

  /** Either order of repair gives the same frame. */
  lemma RepairsCommute(d: seq<byte>)
    requires Repairable(d)
    ensures Repairable(FixIpOf(d)) && FixUdpOf(FixIpOf(d)) == FixIpOf(FixUdpOf(d))
  {
    hide FixIpOf, FixUdpOf, IpCheck, UdpCheck, Put16, HeaderLength;
    FixUdpFrame(d);
    UdpCheckStays(d);
    IpCheckStays(d);
    FixIpShape(d);
    FixUdpShape(d);
    FixUdpShape(FixIpOf(d));
    FixIpShape(FixUdpOf(d));
    PutApart(d, 24, IpCheck(d), 20 + HeaderLength(d), UdpCheck(d));
  }

  /** The header is not all zero, so the value stored is never 65535. */
  lemma FixIpField(d: seq<byte>)
    requires LegalHeader(d)
    ensures Be(FixIpOf(d), 24) < 65535
  {
    var blank := Put16(d, 24, 0)[14..14 + HeaderLength(d)];
    var first: int := blank[0];
    assert first == d[14] > 0 && WordSum(blank) >= 256 * first;
    FoldMeaning(WordSum(blank));
    hide WordSum;
  }

  lemma FixIpWhole(d: seq<byte>)
    requires LegalHeader(d)
    ensures RegionSum(FixIpOf(d), 14, 14 + HeaderLength(d), 0) == 65535 && Be(FixIpOf(d), 24) < 65535
  {
    FixIpField(d);
    var h := HeaderLength(d);
    var blank := Put16(d, 24, 0)[14..14 + h];
    RegionSumIsWordSum(FixIpOf(d), 14, 14 + h, 0);
    assert FixIpOf(d)[14..14 + h] == Put16(blank, 10, ChecksumField(blank));
    PutWord(blank, 10, ChecksumField(blank));
    ChecksumCompletes(WordSum(blank));
  }

  lemma AddressSum(d: seq<byte>, size: int)
    requires |d| >= 42 && 0 <= size <= 65535
    ensures WordSum(d[26..34] + [0, 17] + Be16(size)) == Be(d, 26) + Be(d, 28) + Be(d, 30) + Be(d, 32) + 17 + size
  {
    SumSplit(d[26..34], [0, 17] + Be16(size));
    assert d[26..34] + [0, 17] + Be16(size) == d[26..34] + ([0, 17] + Be16(size));
    SumSplit([0, 17], Be16(size));
    assert WordSum([0, 17]) == 17 && WordSum(Be16(size)) == size;
    EightBytes(d[26..34]);
  }

  lemma EightBytes(p: seq<byte>)
    requires |p| == 8
    ensures WordSum(p) == Be(p, 0) + Be(p, 2) + Be(p, 4) + Be(p, 6)
  {
    assert p == p[0..2] + (p[2..4] + (p[4..6] + p[6..8]));
    SumSplit(p[0..2], p[2..4] + (p[4..6] + p[6..8]));
    SumSplit(p[2..4], p[4..6] + p[6..8]);
    SumSplit(p[4..6], p[6..8]);
  }

  /** The repaired datagram: its own bytes with the field, blanked first, filled in. */
  lemma FixUdpDatagram(d: seq<byte>)
    requires LegalDatagram(d)
    ensures var off, end := 14 + HeaderLength(d), 14 + Be(d, 16);
            var blank := Put16(d, off + 6, 0)[off..end];
            FixUdpOf(d)[off..end] == Put16(blank, 6, UdpCheck(d)) && blank[6] == 0 && blank[7] == 0
  {
    FixUdpShape(d);
    hide FixUdpOf, UdpCheck;
  }

  lemma UdpCheckIs(d: seq<byte>)
    requires LegalDatagram(d)
    ensures var off, size := 14 + HeaderLength(d), Be(d, 16) - HeaderLength(d);
            UdpCheck(d) == UdpField(d[26..34] + [0, 17] + Be16(size) + Put16(d, off + 6, 0)[off..off + size])
  {
    hide UdpField, Put16, Be16;
  }

  lemma FieldFilled(d: seq<byte>)
    requires LegalDatagram(d)
    ensures Be(FixUdpOf(d), 20 + HeaderLength(d)) != 0
    ensures UdpAcc(FixUdpOf(d), HeaderLength(d), Be(d, 16)) == UdpAcc(d, HeaderLength(d), Be(d, 16))
  {
    FixUdpShape(d);
    hide FixUdpOf, UdpCheck;
  }

  lemma FixUdpWhole(d: seq<byte>)
    requires LegalDatagram(d)
    ensures var e, h, t := FixUdpOf(d), HeaderLength(d), Be(d, 16);
            RegionSum(e, 14 + h, 14 + t, UdpAcc(e, h, t)) == 65535 && Be(e, 14 + h + 6) != 0
  {
    hide RegionSum, WordSum, Fold, FixUdpOf, UdpCheck, UdpField, Put16, Be16;
    var e, h, t := FixUdpOf(d), HeaderLength(d), Be(d, 16);
    var pseudo := d[26..34] + [0, 17] + Be16(t - h);
    var blank := Put16(d, 20 + h, 0)[14 + h..14 + t];
    FieldFilled(d);
    FixUdpDatagram(d);
    UdpCheckIs(d);
    AddressSum(d, t - h);
    UdpFieldWhole(pseudo, blank);
    RegionSumIsWordSum(e, 14 + h, 14 + t, UdpAcc(e, h, t));
  }

  /** Everything the receiver tests except the two sums. */
  predicate FieldsAdmissible(d: seq<byte>, bytes: int)
    requires LegalDatagram(d)
  {
    && |d| <= 65536 && 42 <= bytes <= 1514 && bytes <= |d|
    && Be(d, 12) == 2048 && d[14] / 16 == 4 && d[22] > 0 && d[23] == 17
    && Be(d, 16) <= 1500 && 14 + Be(d, 16) <= bytes && WithoutBit14(Be(d, 20)) == 0
    && Be(d, 18 + HeaderLength(d)) == Be(d, 16) - HeaderLength(d)
  }

  lemma AcceptsSplit(d: seq<byte>, bytes: int)
    requires LegalDatagram(d)
    ensures var h, t := HeaderLength(d), Be(d, 16);
            Accepts(d, bytes) <==>
              && FieldsAdmissible(d, bytes)
              && RegionSum(d, 14, 14 + h, 0) == 65535
              && (Be(d, 14 + h + 6) == 0 || RegionSum(d, 14 + h, 14 + t, UdpAcc(d, h, t)) == 65535)
  {
  }

  /** Both frames agree but for one word, which is neither a field that is tested nor the length. */
  ghost predicate OtherWord(d: seq<byte>, e: seq<byte>, at: nat)
    requires |d| >= 42
  {
    && |d| == |e| && (at == 24 || at == 20 + HeaderLength(d))
    && forall i :: 0 <= i < |d| && i != at && i != at + 1 ==> e[i] == d[i]
  }

  lemma OtherWordKeeps(d: seq<byte>, e: seq<byte>, at: nat, bytes: int)
    requires LegalDatagram(d) && OtherWord(d, e, at)
    ensures LegalDatagram(e) && FieldsAdmissible(e, bytes) == FieldsAdmissible(d, bytes)
  {
    assert HeaderLength(e) == HeaderLength(d) && Be(e, 16) == Be(d, 16);
    assert Be(e, 12) == Be(d, 12) && Be(e, 20) == Be(d, 20);
    assert Be(e, 18 + HeaderLength(d)) == Be(d, 18 + HeaderLength(d));
    hide Be;
  }

  lemma RepairKeepsFields(d: seq<byte>, bytes: int)
    requires LegalDatagram(d)
    ensures var e, g := FixIpOf(d), FixUdpOf(d);
            && LegalDatagram(e) && LegalDatagram(g)
            && FieldsAdmissible(e, bytes) == FieldsAdmissible(d, bytes)
            && FieldsAdmissible(g, bytes) == FieldsAdmissible(d, bytes)
  {
    FixIpFrame(d);
    FixUdpFrame(d);
    hide FixIpOf, FixUdpOf, FieldsAdmissible;
    OtherWordKeeps(d, FixIpOf(d), 24, bytes);
    OtherWordKeeps(d, FixUdpOf(d), 20 + HeaderLength(d), bytes);
  }

  lemma WholeSumsAccepted(r: seq<byte>, bytes: int)
    requires LegalDatagram(r) && RegionSum(r, 14, 14 + HeaderLength(r), 0) == 65535
    requires RegionSum(r, 14 + HeaderLength(r), 14 + Be(r, 16), UdpAcc(r, HeaderLength(r), Be(r, 16))) == 65535
    ensures Accepts(r, bytes) <==> FieldsAdmissible(r, bytes)
  {
    AcceptsSplit(r, bytes);
  }

  lemma HeaderAfterBoth(d: seq<byte>)
    requires LegalDatagram(d)
    ensures LegalDatagram(FixIpOf(d)) && RegionSum(FixUdpOf(FixIpOf(d)), 14, 14 + HeaderLength(d), 0) == 65535
  {
    LengthsStay(d);
    UdpLengths(d);
    hide RegionSum, FixIpOf, FixUdpOf, Be, HeaderLength;
    RepairsCommute(d);
    FixIpWhole(FixUdpOf(d));
  }

  lemma BothSumsWhole(d: seq<byte>)
    requires LegalDatagram(d)
    ensures LegalDatagram(FixIpOf(d))
    ensures var r := FixUdpOf(FixIpOf(d));
            && LegalDatagram(r) && RegionSum(r, 14, 14 + HeaderLength(r), 0) == 65535
            && RegionSum(r, 14 + HeaderLength(r), 14 + Be(r, 16), UdpAcc(r, HeaderLength(r), Be(r, 16))) == 65535
  {
    hide RegionSum, FixIpOf, FixUdpOf, UdpAcc, Be, HeaderLength;
    LengthsStay(d);
    UdpLengths(FixIpOf(d));
    HeaderAfterBoth(d);
    FixUdpWhole(FixIpOf(d));
  }

  lemma UdpLengths(d: seq<byte>)
    requires LegalDatagram(d)
    ensures var e := FixUdpOf(d); LegalDatagram(e) && HeaderLength(e) == HeaderLength(d) && Be(e, 16) == Be(d, 16)
  {
    FixUdpFrame(d);
    hide FixUdpOf;
  }

  lemma LengthsStay(d: seq<byte>)
    requires LegalDatagram(d)
    ensures var e := FixIpOf(d); LegalDatagram(e) && HeaderLength(e) == HeaderLength(d) && Be(e, 16) == Be(d, 16)
  {
    FixIpFrame(d);
    hide FixIpOf;
  }

  lemma RepairedLegal(d: seq<byte>, bytes: int)
    requires LegalDatagram(d)
    ensures Repairable(FixIpOf(d)) && (Accepts(FixUdpOf(FixIpOf(d)), bytes) <==> FieldsAdmissible(d, bytes))
  {
    hide Accepts, FieldsAdmissible, RegionSum, FixIpOf, FixUdpOf, UdpAcc;
    RepairKeepsFields(d, bytes);
    RepairKeepsFields(FixIpOf(d), bytes);
    BothSumsWhole(d);
    WholeSumsAccepted(FixUdpOf(FixIpOf(d)), bytes);
  }

  /** A total below a datagram header leaves the checksum field outside what is summed, and one
      past the frame sums less than announced: no repair makes the receiver admit such a frame. */
  lemma BadTotalRefused(d: seq<byte>, bytes: int)
    requires Repairable(d) && !LegalDatagram(d)
    ensures Repairable(FixIpOf(d)) && !Accepts(FixUdpOf(FixIpOf(d)), bytes)
  {
    FixIpFrame(d);
    FixUdpFrame(FixIpOf(d));
    hide RegionSum, FixIpOf, FixUdpOf;
  }

  /** A frame repaired both ways is admitted exactly when its announced total lies inside it and
      its other fields are admissible. */
  lemma RepairAdmits(d: seq<byte>, bytes: int)
    requires Repairable(d)
    ensures Repairable(FixIpOf(d))
    ensures Accepts(FixUdpOf(FixIpOf(d)), bytes) <==> LegalDatagram(d) && FieldsAdmissible(d, bytes)
  {
    hide Accepts, FieldsAdmissible, FixIpOf, FixUdpOf;
    if LegalDatagram(d) {
      RepairedLegal(d, bytes);
    } else {
      BadTotalRefused(d, bytes);
    }
  }

  // ---------------------------------------------------------------- the echo

  predicate Echoable(f: seq<byte>) {
    LegalHeader(f) && 14 + HeaderLength(f) + 4 <= |f|
  }

  function EchoOf(f: seq<byte>): (e: seq<byte>)
    requires Echoable(f)
    ensures |e| == |f|
  {
    var off := 14 + HeaderLength(f);
    f[6..12] + f[..6] + f[12..26] + f[30..34] + f[26..30] + f[34..off]
    + f[off + 2..off + 4] + f[off..off + 2] + f[off + 4..]
  }

  lemma EchoIs(f: seq<byte>, e: seq<byte>)
    requires Echoable(f) && |e| == |f|
    requires var off := 14 + HeaderLength(f);
             && (forall i :: 12 <= i < 26 || 34 <= i < off || off + 4 <= i < |f| ==> e[i] == f[i])
             && (forall i :: 0 <= i < 6 ==> e[i] == f[i + 6]) && (forall i :: 6 <= i < 12 ==> e[i] == f[i - 6])
             && (forall i :: 26 <= i < 30 ==> e[i] == f[i + 4]) && (forall i :: 30 <= i < 34 ==> e[i] == f[i - 4])
             && (forall i :: off <= i < off + 2 ==> e[i] == f[i + 2])
             && (forall i :: off + 2 <= i < off + 4 ==> e[i] == f[i - 2])
    ensures e == EchoOf(f)
  {
    forall i | 0 <= i < |f|
      ensures e[i] == EchoOf(f)[i]
    {
    }
  }

  /** Swaps the two MAC addresses, the two IP addresses and the two ports of a copy. */
  method Echoed(frame: seq<byte>) returns (echo: seq<byte>)
    requires Echoable(frame)
    ensures echo == EchoOf(frame)
  {
    var out := new byte[|frame|](i requires 0 <= i < |frame| => frame[i]);
    var off := 14 + frame[14] % 16 * 4;
    CopyTo(out, 0, frame[6..12] + frame[..6]);
    CopyTo(out, 26, frame[30..34] + frame[26..30]);
    CopyTo(out, off, frame[off + 2..off + 4] + frame[off..off + 2]);
    echo := out[..];
    hide EchoOf;
    EchoIs(frame, echo);
  }

  method CopyTo(out: array<byte>, at: nat, part: seq<byte>)
    requires at + |part| <= out.Length
    modifies out
    ensures forall i :: 0 <= i < out.Length ==> out[i] == if at <= i < at + |part| then part[i - at] else old(out[i])
  {
    for k := 0 to |part|
      invariant forall i :: 0 <= i < out.Length ==> out[i] == if at <= i < at + k then part[i - at] else old(out[i])
    {
      out[at + k] := part[k];
    }
  }

  lemma EchoBytes(f: seq<byte>)
    requires Echoable(f)
    ensures var e, off := EchoOf(f), 14 + HeaderLength(f);
            && (forall i :: 12 <= i < 26 || 34 <= i < off || off + 4 <= i < |f| ==> e[i] == f[i])
            && (forall i :: 0 <= i < 6 ==> e[i] == f[i + 6] && e[i + 6] == f[i])
            && (forall i :: 26 <= i < 30 ==> e[i] == f[i + 4] && e[i + 4] == f[i])
            && (forall i :: off <= i < off + 2 ==> e[i] == f[i + 2] && e[i + 2] == f[i])
            && HeaderLength(e) == HeaderLength(f) && Echoable(e)
  {
  }

  /** Echoing twice gives the frame back. */
  lemma EchoTwice(f: seq<byte>)
    requires Echoable(f)
    ensures Echoable(EchoOf(f)) && EchoOf(EchoOf(f)) == f
  {
    EchoBytes(f);
    var e := EchoOf(f);
    EchoBytes(e);
    var g := EchoOf(e);
    var off := 14 + HeaderLength(f);
    forall i | 0 <= i < |f|
      ensures g[i] == f[i]
    {
      if 6 <= i < 12 {
        assert g[(i - 6) + 6] == e[i - 6];
      } else if 30 <= i < 34 {
        assert g[(i - 4) + 4] == e[i - 4];
      } else if off + 2 <= i < off + 4 {
        assert g[(i - 2) + 2] == e[i - 2];
      }
    }
  }

  /** Exchanging two equally long even parts of a sequence leaves the word sum alone. */
  lemma SwapSum(p: seq<byte>, x: seq<byte>, y: seq<byte>, q: seq<byte>)
    requires |p| % 2 == 0 && |x| % 2 == 0 && |y| % 2 == 0
    ensures WordSum(p + x + y + q) == WordSum(p + y + x + q)
  {
    hide WordSum;
    SumSplit(p + x + y, q);
    SumSplit(p + x, y);
    SumSplit(p, x);
    SumSplit(p + y + x, q);
    SumSplit(p + y, x);
    SumSplit(p, y);
  }

  lemma EchoIpSum(f: seq<byte>)
    requires Echoable(f)
    ensures RegionSum(EchoOf(f), 14, 14 + HeaderLength(f), 0) == RegionSum(f, 14, 14 + HeaderLength(f), 0)
  {
    hide RegionSum, WordSum, Fold;
    var e, off := EchoOf(f), 14 + HeaderLength(f);
    RegionSumIsWordSum(e, 14, off, 0);
    RegionSumIsWordSum(f, 14, off, 0);
    assert f[14..off] == f[14..26] + f[26..30] + f[30..34] + f[34..off];
    assert e[14..off] == f[14..26] + f[30..34] + f[26..30] + f[34..off] by {
      EchoBytes(f);
    }
    SwapSum(f[14..26], f[26..30], f[30..34], f[34..off]);
  }

  lemma PortsApart(f: seq<byte>, off: nat, end: nat)
    requires off + 4 <= end <= |f|
    ensures f[off..end] == [] + f[off..off + 2] + f[off + 2..off + 4] + f[off + 4..end]
  {
  }

  lemma PortsSwapped(f: seq<byte>, end: nat)
    requires Echoable(f) && 18 + HeaderLength(f) <= end <= |f|
    ensures var e, off := EchoOf(f), 14 + HeaderLength(f);
            && e[off..off + 2] == f[off + 2..off + 4] && e[off + 2..off + 4] == f[off..off + 2]
            && e[off + 4..end] == f[off + 4..end]
  {
    EchoBytes(f);
    hide EchoOf;
  }

  lemma EchoUdpSum(f: seq<byte>, t: nat, acc: nat)
    requires Echoable(f) && HeaderLength(f) + 8 <= t && 14 + t <= |f|
    ensures RegionSum(EchoOf(f), 14 + HeaderLength(f), 14 + t, acc) == RegionSum(f, 14 + HeaderLength(f), 14 + t, acc)
  {
    hide RegionSum, WordSum, Fold;
    var e, off := EchoOf(f), 14 + HeaderLength(f);
    RegionSumIsWordSum(e, off, 14 + t, acc);
    RegionSumIsWordSum(f, off, 14 + t, acc);
    PortsApart(f, off, 14 + t);
    PortsApart(e, off, 14 + t);
    PortsSwapped(f, 14 + t);
    SwapSum([], f[off..off + 2], f[off + 2..off + 4], f[off + 4..14 + t]);
  }

  lemma EchoAcc(f: seq<byte>, h: nat, t: nat)
    requires Echoable(f) && h <= t
    ensures UdpAcc(EchoOf(f), h, t) == UdpAcc(f, h, t)
  {
    EchoBytes(f);
    var e := EchoOf(f);
    assert Be(e, 26) == Be(f, 30) && Be(e, 28) == Be(f, 32) && Be(e, 30) == Be(f, 26) && Be(e, 32) == Be(f, 28);
  }

  lemma EchoKeepsFields(f: seq<byte>, bytes: int)
    requires Echoable(f)
    ensures var e := EchoOf(f);
            && HeaderLength(e) == HeaderLength(f) && Be(e, 16) == Be(f, 16)
            && (LegalDatagram(e) <==> LegalDatagram(f))
            && (LegalDatagram(f) ==> (FieldsAdmissible(e, bytes) <==> FieldsAdmissible(f, bytes))
                                     && Be(e, 20 + HeaderLength(f)) == Be(f, 20 + HeaderLength(f)))
  {
    EchoBytes(f);
    EchoFields(f, HeaderLength(f));
  }

  lemma AcceptedIsLegal(f: seq<byte>, bytes: int)
    ensures Accepts(f, bytes) ==> LegalDatagram(f) && Echoable(f)
  {
  }

  /** The echo is admitted exactly when the frame is, although it recomputes neither checksum. */
  lemma EchoAdmitted(f: seq<byte>, bytes: int)
    requires Echoable(f)
    ensures Accepts(EchoOf(f), bytes) <==> Accepts(f, bytes)
  {
    hide RegionSum, EchoOf, FieldsAdmissible, UdpAcc;
    EchoKeepsFields(f, bytes);
    AcceptedIsLegal(f, bytes);
    AcceptedIsLegal(EchoOf(f), bytes);
    if LegalDatagram(f) {
      EchoIpSum(f);
      EchoUdpSum(f, Be(f, 16), UdpAcc(f, HeaderLength(f), Be(f, 16)));
      EchoAcc(f, HeaderLength(f), Be(f, 16));
      AcceptsSplit(f, bytes);
      AcceptsSplit(EchoOf(f), bytes);
    }
  }

  /** The answer about the echo has the ports exchanged and the payload in the same place. */
  lemma EchoAnswer(f: seq<byte>, bytes: int)
    requires Accepts(f, bytes)
    ensures Echoable(f) && Accepts(EchoOf(f), bytes)
    ensures var d, e := Parse(f, bytes), Parse(EchoOf(f), bytes);
            && SourcePort(e) == DestinationPort(d) && DestinationPort(e) == SourcePort(d)
            && PayloadOffset(e) == PayloadOffset(d) && PayloadLength(e) == PayloadLength(d)
  {
    AcceptedIsLegal(f, bytes);
    EchoAdmitted(f, bytes);
    EchoKeepsFields(f, bytes);
    EchoFields(f, HeaderLength(f));
    Describes(f, bytes);
    Describes(EchoOf(f), bytes);
  }

  lemma EchoFields(f: seq<byte>, h: nat)
    requires Echoable(f) && h == HeaderLength(f)
    ensures var e := EchoOf(f);
            && Be(e, 12) == Be(f, 12) && e[14] == f[14] && Be(e, 16) == Be(f, 16) && Be(e, 20) == Be(f, 20)
            && e[22] == f[22] && e[23] == f[23]
            && Be(e, 14 + h) == Be(f, 16 + h) && Be(e, 16 + h) == Be(f, 14 + h)
            && (h + 20 < |f| - 1 ==> Be(e, 18 + h) == Be(f, 18 + h) && Be(e, 20 + h) == Be(f, 20 + h))
  {
    EchoBytes(f);
  }
}
