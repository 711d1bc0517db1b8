/** The observer's frame builder, its in-place checksum repair and its echo, measured
    against the receiver's admission. */
module UdpPeer {
  import opened Common
  import opened InetChecksum
  import opened Ipv4Udp

  const MAC_GUEST: seq<byte> := [0x52, 0x54, 0x00, 0x12, 0x34, 0x56]
  const MAC_PEER: seq<byte> := [0x02, 0, 0, 0, 0, 0x01]
  const IP_PEER: seq<byte> := [10, 77, 0, 1]
  const IP_GUEST: seq<byte> := [10, 77, 0, 2]

  function Be16(v: int): (b: seq<byte>)
    requires 0 <= v <= 65535
    ensures |b| == 2
  {
    [v / 256, v % 256]
  }

  function Put16(d: seq<byte>, at: nat, v: int): (e: seq<byte>)
    requires at + 1 < |d| && 0 <= v <= 65535
    ensures |e| == |d|
  {
    d[at := v / 256][at + 1 := v % 256]
  }

  function ChecksumField(d: seq<byte>): (c: int)
    ensures 0 <= c <= 65535
  {
    FoldMeaning(WordSum(d));
    ChecksumOf(d)
  }

  /** Zero means "no checksum" in UDP, so a zero sum is sent as 65535. */
  function UdpField(d: seq<byte>): (c: int)
    ensures 0 < c <= 65535
  {
    if ChecksumField(d) == 0 then 65535 else ChecksumField(d)
  }

  function Pseudo(size: int): seq<byte>
    requires 0 <= size <= 65535
  {
    IP_PEER + IP_GUEST + [0, 17] + Be16(size)
  }

  function UdpBlank(payload: seq<byte>): (d: seq<byte>)
    requires 8 + |payload| <= 65535
    ensures |d| == 8 + |payload|
  {
    Be16(22088) + Be16(22089) + Be16(8 + |payload|) + Be16(0) + payload
  }

  function UdpOf(payload: seq<byte>, zero: bool): (d: seq<byte>)
    requires 8 + |payload| <= 65535
    ensures |d| == 8 + |payload|
  {
    var blank := UdpBlank(payload);
    Put16(blank, 6, if zero then 0 else UdpField(Pseudo(|blank|) + blank))
  }

  predicate Buildable(payload: seq<byte>, options: seq<byte>, flags: int, ident: int) {
    && |options| % 4 == 0 && |options| <= 40
    && 28 + |options| + |payload| <= 65535
    && 0 <= flags <= 65535 && 0 <= ident <= 65535
  }

  function IpBlank(options: seq<byte>, size: int, flags: int, ident: int): (d: seq<byte>)
    requires |options| % 4 == 0 && |options| <= 40 && 0 <= 20 + |options| + size <= 65535
    requires 0 <= flags <= 65535 && 0 <= ident <= 65535
    ensures |d| == 20 + |options|
  {
    [0x40 + (20 + |options|) / 4, 0] + Be16(20 + |options| + size) + Be16(ident) + Be16(flags) + [64, 17, 0, 0]
    + IP_PEER + IP_GUEST + options
  }

  function IpOf(options: seq<byte>, size: int, flags: int, ident: int): (d: seq<byte>)
    requires |options| % 4 == 0 && |options| <= 40 && 0 <= 20 + |options| + size <= 65535
    requires 0 <= flags <= 65535 && 0 <= ident <= 65535
    ensures |d| == 20 + |options|
  {
    var blank := IpBlank(options, size, flags, ident);
    Put16(blank, 10, ChecksumField(blank))
  }

  function Padded(f: seq<byte>): seq<byte> {
    if |f| < 60 then f + seq(60 - |f|, _ => 0 as byte) else f
  }

  function PacketOf(payload: seq<byte>, options: seq<byte>, zero: bool, flags: int, ident: int): seq<byte>
    requires Buildable(payload, options, flags, ident)
  {
    var udp := UdpOf(payload, zero);
    Padded(MAC_GUEST + MAC_PEER + [8, 0] + IpOf(options, |udp|, flags, ident) + udp)
  }

  /** Builds the frame in two local buffers, patching each checksum in place. Arguments that do
      not fit their fields raise in the original; here they give no frame. */
  method Packet(payload: seq<byte>, options: seq<byte>, zero: bool, flags: int, ident: int)
    returns (frame: Option<seq<byte>>)
    ensures frame == if Buildable(payload, options, flags, ident)
                     then Some(PacketOf(payload, options, zero, flags, ident)) else None
  {
    if !Buildable(payload, options, flags, ident) {
      return None;
    }
    hide ChecksumOf;
    var blank := UdpBlank(payload);
    var c := 0;
    if !zero {
      c := Checksum(Pseudo(|blank|) + blank);
      c := if c == 0 then 65535 else c;
    }
    var udp := Patched(blank, 6, c);
    assert udp == UdpOf(payload, zero);
    var head := IpBlank(options, |blank|, flags, ident);
    c := Checksum(head);
    var ip := Patched(head, 10, c);
    return Some(Padded(MAC_GUEST + MAC_PEER + [8, 0] + ip + udp));
  }

  /** A buffer with one word stored into it. */
  method Patched(blank: seq<byte>, at: nat, c: int) returns (d: seq<byte>)
    requires at + 1 < |blank| && 0 <= c <= 65535
    ensures d == Put16(blank, at, c)
  {
    var buffer := new byte[|blank|](i requires 0 <= i < |blank| => blank[i]);
    assert buffer[..] == blank;
    buffer[at], buffer[at + 1] := c / 256, c % 256;
    d := buffer[..];
  }

  // ---------------------------------------------------------------- built frames are admitted

  lemma PutWord(d: seq<byte>, at: nat, v: int)
    requires at % 2 == 0 && at + 1 < |d| && 0 <= v <= 65535 && d[at] == 0 && d[at + 1] == 0
    ensures WordSum(Put16(d, at, v)) == WordSum(d) + v
  {
    SumInsert(d, at, v / 256, v % 256);
  }

  /** The header sum of a built frame is whole. */
  lemma IpWhole(options: seq<byte>, size: int, flags: int, ident: int)
    requires |options| % 4 == 0 && |options| <= 40 && 0 <= 20 + |options| + size <= 65535
    requires 0 <= flags <= 65535 && 0 <= ident <= 65535
    ensures Whole(WordSum(IpOf(options, size, flags, ident)))
  {
    var blank := IpBlank(options, size, flags, ident);
    PutWord(blank, 10, ChecksumField(blank));
    ChecksumCompletes(WordSum(blank));
  }

  /** Stored over a zeroed field, the UDP checksum makes pseudo-header and datagram whole. */
  lemma UdpFieldWhole(pseudo: seq<byte>, blank: seq<byte>)
    requires |pseudo| % 2 == 0 && |blank| >= 8 && blank[6] == 0 && blank[7] == 0
    ensures Whole(WordSum(pseudo) + WordSum(Put16(blank, 6, UdpField(pseudo + blank))))
  {
    hide WordSum, Fold, Whole, Put16;
    var t := WordSum(pseudo + blank);
    SumSplit(pseudo, blank);
    PutWord(blank, 6, UdpField(pseudo + blank));
    ChecksumCompletes(t);
  }

  lemma UdpWhole(payload: seq<byte>)
    requires 8 + |payload| <= 65535
    ensures var udp := UdpOf(payload, false);
            Whole(WordSum(Pseudo(|udp|)) + WordSum(udp))
  {
    UdpFieldWhole(Pseudo(8 + |payload|), UdpBlank(payload));
  }

  lemma PseudoSum(size: int)
    requires 0 <= size <= 65535
    ensures WordSum(Pseudo(size)) == 2637 + 1 + 2637 + 2 + 17 + size
  {
    var p := Pseudo(size);
    assert p == [10, 77] + ([0, 1] + ([10, 77] + ([0, 2] + ([0, 17] + Be16(size)))));
    SumSplit([10, 77], [0, 1] + ([10, 77] + ([0, 2] + ([0, 17] + Be16(size)))));
    SumSplit([0, 1], [10, 77] + ([0, 2] + ([0, 17] + Be16(size))));
    SumSplit([10, 77], [0, 2] + ([0, 17] + Be16(size)));
    SumSplit([0, 2], [0, 17] + Be16(size));
    SumSplit([0, 17], Be16(size));
    assert WordSum([10, 77]) == 2637 && WordSum([0, 1]) == 1 && WordSum([0, 2]) == 2 && WordSum([0, 17]) == 17;
    assert WordSum(Be16(size)) == size;
  }

  lemma PacketParts(payload: seq<byte>, options: seq<byte>, zero: bool, flags: int, ident: int)
    requires Buildable(payload, options, flags, ident)
    ensures var f, h := PacketOf(payload, options, zero, flags, ident), 20 + |options|;
            var t := h + 8 + |payload|;
            && |f| == (if 14 + t < 60 then 60 else 14 + t)
            && f[12] == 8 && f[13] == 0
            && f[14..14 + h] == IpOf(options, 8 + |payload|, flags, ident)
            && f[14 + h..14 + t] == UdpOf(payload, zero)
            && f[22 + h..14 + t] == payload
  {
    var f, h := PacketOf(payload, options, zero, flags, ident), 20 + |options|;
    var t := h + 8 + |payload|;
    var udp, ip := UdpOf(payload, zero), IpOf(options, 8 + |payload|, flags, ident);
    var front := MAC_GUEST + MAC_PEER + [8, 0];
    assert |front| == 14;
    assert f[..14 + t] == front + ip + udp;
    assert f[14..14 + h] == (front + ip + udp)[14..14 + h] == ip;
    assert f[14 + h..14 + t] == (front + ip + udp)[14 + h..14 + t] == udp;
    assert udp[8..] == UdpBlank(payload)[8..] == payload;
    assert f[22 + h..14 + t] == f[14 + h..14 + t][8..];
  }

  lemma IpFields(options: seq<byte>, size: int, flags: int, ident: int)
    requires |options| % 4 == 0 && |options| <= 40 && 0 <= 20 + |options| + size <= 65535
    requires 0 <= flags <= 65535 && 0 <= ident <= 65535
    ensures var d := IpOf(options, size, flags, ident);
            && d[0] == 0x40 + (20 + |options|) / 4 && Be(d, 2) == 20 + |options| + size && Be(d, 6) == flags
            && d[8] == 64 && d[9] == 17
            && Be(d, 12) == 2637 && Be(d, 14) == 1 && Be(d, 16) == 2637 && Be(d, 18) == 2
  {
  }

  lemma UdpFields(payload: seq<byte>, zero: bool)
    requires 8 + |payload| <= 65535
    ensures var d := UdpOf(payload, zero);
            && Be(d, 0) == 22088 && Be(d, 2) == 22089 && Be(d, 4) == 8 + |payload|
            && (Be(d, 6) == 0 <==> zero)
  {
  }

  lemma FromIpSlice(f: seq<byte>, h: nat, ip: seq<byte>)
    requires 20 <= h && 14 + h + 8 <= |f| && f[14..14 + h] == ip
    ensures f[14] == ip[0] && f[22] == ip[8] && f[23] == ip[9] && Be(f, 16) == Be(ip, 2) && Be(f, 20) == Be(ip, 6)
    ensures Be(f, 26) == Be(ip, 12) && Be(f, 28) == Be(ip, 14) && Be(f, 30) == Be(ip, 16) && Be(f, 32) == Be(ip, 18)
  {
    assert forall i :: 14 <= i < 14 + h ==> f[i] == f[14..14 + h][i - 14];
  }

  lemma FromUdpSlice(f: seq<byte>, o: nat, udp: seq<byte>)
    requires 8 <= |udp| && o + |udp| <= |f| && f[o..o + |udp|] == udp
    ensures Be(f, o) == Be(udp, 0) && Be(f, o + 2) == Be(udp, 2) && Be(f, o + 4) == Be(udp, 4)
            && Be(f, o + 6) == Be(udp, 6)
  {
    assert forall i :: o <= i < o + |udp| ==> f[i] == f[o..o + |udp|][i - o];
  }

  lemma Fields(payload: seq<byte>, options: seq<byte>, zero: bool, flags: int, ident: int)
    requires Buildable(payload, options, flags, ident)
    ensures var f, h := PacketOf(payload, options, zero, flags, ident), 20 + |options|;
            && |f| >= 60 && |f| >= 22 + h + |payload| && HeaderLength(f) == h && Be(f, 16) == h + 8 + |payload|
            && Be(f, 12) == 2048 && f[14] / 16 == 4 && Be(f, 20) == flags && f[22] == 64 && f[23] == 17
            && UdpAcc(f, h, Be(f, 16)) == 5277 + 17 + 8 + |payload|
            && Be(f, 14 + h) == 22088 && Be(f, 16 + h) == 22089 && Be(f, 18 + h) == 8 + |payload|
            && (Be(f, 20 + h) == 0 <==> zero)
  {
    var f, h := PacketOf(payload, options, zero, flags, ident), 20 + |options|;
    var ip, udp := IpOf(options, 8 + |payload|, flags, ident), UdpOf(payload, zero);
    PacketParts(payload, options, zero, flags, ident);
    IpFields(options, 8 + |payload|, flags, ident);
    UdpFields(payload, zero);
    FieldsOf(f, h, ip, udp);
  }

  lemma FieldsOf(f: seq<byte>, h: nat, ip: seq<byte>, udp: seq<byte>)
    requires |f| >= 60 && 20 <= h <= 60 && h % 4 == 0 && |udp| >= 8 && 14 + h + |udp| <= |f|
    requires f[12] == 8 && f[13] == 0 && f[14..14 + h] == ip && f[14 + h..14 + h + |udp|] == udp
    requires ip[0] == 0x40 + h / 4 && Be(ip, 2) == h + |udp|
    requires Be(ip, 12) == 2637 && Be(ip, 14) == 1 && Be(ip, 16) == 2637 && Be(ip, 18) == 2
    ensures HeaderLength(f) == h && Be(f, 16) == h + |udp| && Be(f, 12) == 2048 && f[14] / 16 == 4
    ensures Be(f, 20) == Be(ip, 6) && f[22] == ip[8] && f[23] == ip[9]
    ensures UdpAcc(f, h, h + |udp|) == 5277 + 17 + |udp|
    ensures Be(f, 14 + h) == Be(udp, 0) && Be(f, 16 + h) == Be(udp, 2) && Be(f, 18 + h) == Be(udp, 4)
            && Be(f, 20 + h) == Be(udp, 6)
  {
    FromIpSlice(f, h, ip);
    FromUdpSlice(f, 14 + h, udp);
    assert Be(f, 12) == 2048;
    hide Be;
    LengthNibble(f, h);
  }

  lemma LengthNibble(f: seq<byte>, h: nat)
    requires |f| >= 42 && h % 4 == 0 && 20 <= h <= 60 && f[14] == 0x40 + h / 4
    ensures HeaderLength(f) == h && f[14] / 16 == 4
  {
  }

  lemma PacketSums(payload: seq<byte>, options: seq<byte>, zero: bool, flags: int, ident: int)
    requires Buildable(payload, options, flags, ident)
    ensures var f, h := PacketOf(payload, options, zero, flags, ident), 20 + |options|;
            var t := h + 8 + |payload|;
            && |f| >= 60 && |f| >= 14 + t
            && RegionSum(f, 14, 14 + h, 0) == 65535
            && (!zero ==> RegionSum(f, 14 + h, 14 + t, 5277 + 17 + 8 + |payload|) == 65535)
  {
    hide RegionSum, WordSum, Fold, PacketOf, IpOf, UdpOf, Pseudo;
    var f, h := PacketOf(payload, options, zero, flags, ident), 20 + |options|;
    var t := h + 8 + |payload|;
    PacketParts(payload, options, zero, flags, ident);
    RegionSumIsWordSum(f, 14, 14 + h, 0);
    IpWhole(options, 8 + |payload|, flags, ident);
    if !zero {
      RegionSumIsWordSum(f, 14 + h, 14 + t, 5277 + 17 + 8 + |payload|);
      UdpWhole(payload);
      PseudoSum(8 + |payload|);
    }
  }

  /** A built frame is admitted exactly when it fits the receiver's 1500 bytes and its flags
      word is empty or "do not fragment"; the answer then points at the payload and the ports. */
  lemma PacketAdmitted(payload: seq<byte>, options: seq<byte>, zero: bool, flags: int, ident: int)
    requires Buildable(payload, options, flags, ident)
    ensures var f := PacketOf(payload, options, zero, flags, ident);
            var d := Parse(f, |f|);
            && (d != 0 <==> 28 + |options| + |payload| <= 1500 && (flags == 0 || flags == 0x4000))
            && (d != 0 ==>
                  && 0 <= PayloadOffset(d) <= PayloadOffset(d) + PayloadLength(d) <= |f|
                  && f[PayloadOffset(d)..PayloadOffset(d) + PayloadLength(d)] == payload
                  && SourcePort(d) == 22088 && DestinationPort(d) == 22089)
  {
    hide PacketOf, RegionSum, Be, UdpAcc, Parse, Accepts, Describe, HeaderLength;
    var f := PacketOf(payload, options, zero, flags, ident);
    PacketParts(payload, options, zero, flags, ident);
    Fields(payload, options, zero, flags, ident);
    PacketAccepted(payload, options, zero, flags, ident);
    ParseIsAccepts(f, |f|);
    if Accepts(f, |f|) {
      Describes(f, |f|);
    }
  }

  lemma PacketAccepted(payload: seq<byte>, options: seq<byte>, zero: bool, flags: int, ident: int)
    requires Buildable(payload, options, flags, ident)
    ensures var f := PacketOf(payload, options, zero, flags, ident);
            Accepts(f, |f|) <==> 28 + |options| + |payload| <= 1500 && (flags == 0 || flags == 0x4000)
  {
    hide PacketOf, RegionSum, Be, UdpAcc;
    var f := PacketOf(payload, options, zero, flags, ident);
    PacketParts(payload, options, zero, flags, ident);
    Fields(payload, options, zero, flags, ident);
    PacketSums(payload, options, zero, flags, ident);
    FlagBits(flags);
    hide WithoutBit14;
    assert 28 + |options| + |payload| <= 1500 ==> |f| <= 1514;
  }

  // ---------------------------------------------------------------- every byte of a built frame

  lemma FrontBytes(payload: seq<byte>, options: seq<byte>, zero: bool, flags: int, ident: int)
    requires Buildable(payload, options, flags, ident)
    ensures var f, t := PacketOf(payload, options, zero, flags, ident), 28 + |options| + |payload|;
            && |f| == (if t + 14 < 60 then 60 else t + 14) && f[..6] == [0x52, 0x54, 0x00, 0x12, 0x34, 0x56]
            && f[6..12] == [0x02, 0x00, 0x00, 0x00, 0x00, 0x01] && f[12..14] == [0x08, 0x00]
            && forall i :: t + 14 <= i < |f| ==> f[i] == 0
  {
    var ip, udp := IpOf(options, 8 + |payload|, flags, ident), UdpOf(payload, zero);
    hide IpOf, UdpOf;
    FrontOf(ip, udp);
  }

  lemma FrontOf(ip: seq<byte>, udp: seq<byte>)
    ensures var f := Padded(MAC_GUEST + MAC_PEER + [8, 0] + ip + udp);
            && f[..6] == [0x52, 0x54, 0x00, 0x12, 0x34, 0x56] && f[6..12] == [0x02, 0x00, 0x00, 0x00, 0x00, 0x01]
            && f[12..14] == [0x08, 0x00] && forall i :: 14 + |ip| + |udp| <= i < |f| ==> f[i] == 0
  {
    var front := MAC_GUEST + MAC_PEER + [8, 0];
    assert front == [0x52, 0x54, 0x00, 0x12, 0x34, 0x56, 0x02, 0x00, 0x00, 0x00, 0x00, 0x01, 0x08, 0x00];
    var f := Padded(front + ip + udp);
    assert forall i :: 0 <= i < 14 ==> f[i] == front[i];
  }

  lemma HeaderBytes(options: seq<byte>, size: int, flags: int, ident: int)
    requires |options| % 4 == 0 && |options| <= 40 && 0 <= 20 + |options| + size <= 65535
    requires 0 <= flags <= 65535 && 0 <= ident <= 65535
    ensures var d := IpOf(options, size, flags, ident);
            && d[0] == 0x45 + |options| / 4 && d[1] == 0 && Be(d, 2) == 20 + |options| + size && Be(d, 4) == ident
            && Be(d, 6) == flags && d[8] == 64 && d[9] == 17 && Be(d, 10) < 65535
            && d[12..16] == [10, 77, 0, 1] && d[16..20] == [10, 77, 0, 2] && d[20..] == options
  {
    var blank := IpBlank(options, size, flags, ident);
    var c := ChecksumField(blank);
    HeaderSum(options, size, flags, ident);
    hide ChecksumField;
    var d := Put16(blank, 10, c);
    assert d[12..] == blank[12..] == IP_PEER + IP_GUEST + options;
    assert d[12..16] == d[12..][..4] && d[16..20] == d[12..][4..8] && d[20..] == d[12..][8..];
  }

  /** The header is not all zero, so its checksum is never 65535. */
  lemma HeaderSum(options: seq<byte>, size: int, flags: int, ident: int)
    requires |options| % 4 == 0 && |options| <= 40 && 0 <= 20 + |options| + size <= 65535
    requires 0 <= flags <= 65535 && 0 <= ident <= 65535
    ensures ChecksumField(IpBlank(options, size, flags, ident)) < 65535
  {
    var d := IpBlank(options, size, flags, ident);
    assert d[0] > 0;
    FoldMeaning(WordSum(d));
    var first: int := d[0];
    assert WordSum(d) >= 256 * first;
  }

  /** A built frame byte by byte: addresses, type, header with its options, ports, length, payload and
      padding, each where RFC 894, RFC 791 and RFC 768 put it. */
  lemma FrameBytes(payload: seq<byte>, options: seq<byte>, zero: bool, flags: int, ident: int)
    requires Buildable(payload, options, flags, ident)
    ensures var f: seq<int>, h, n := PacketOf(payload, options, zero, flags, ident), 20 + |options|, |payload|;
            && |f| == (if h + n + 22 < 60 then 60 else h + n + 22)
            && f[..6] == [0x52, 0x54, 0x00, 0x12, 0x34, 0x56] && f[6..12] == [0x02, 0x00, 0x00, 0x00, 0x00, 0x01]
            && f[12..14] == [0x08, 0x00]
            && f[14] == 0x45 + |options| / 4 && f[15] == 0 && f[16] * 256 + f[17] == h + 8 + n
            && f[18] * 256 + f[19] == ident
            && f[20] * 256 + f[21] == flags && f[22] == 64 && f[23] == 17 && f[24] * 256 + f[25] < 65535
            && f[26..30] == [10, 77, 0, 1] && f[30..34] == [10, 77, 0, 2] && f[34..14 + h] == options
            && f[14 + h] * 256 + f[15 + h] == 22088 && f[16 + h] * 256 + f[17 + h] == 22089
            && f[18 + h] * 256 + f[19 + h] == 8 + n && (f[20 + h] * 256 + f[21 + h] == 0 <==> zero)
            && f[22 + h..22 + h + n] == payload && forall i :: 22 + h + n <= i < |f| ==> f[i] == 0
  {
    hide PacketOf, IpOf, UdpOf, HeaderLength, UdpAcc;
    var f, h := PacketOf(payload, options, zero, flags, ident), 20 + |options|;
    FrontBytes(payload, options, zero, flags, ident);
    PacketParts(payload, options, zero, flags, ident);
    Fields(payload, options, zero, flags, ident);
    HeaderBytes(options, 8 + |payload|, flags, ident);
    HeaderAt(f, h, IpOf(options, 8 + |payload|, flags, ident));
  }

  lemma HeaderAt(f: seq<byte>, h: nat, ip: seq<byte>)
    requires 20 <= h && 14 + h <= |f| && f[14..14 + h] == ip
    ensures |ip| == h && f[14] == ip[0] && f[15] == ip[1] && Be(f, 18) == Be(ip, 4) && Be(f, 24) == Be(ip, 10)
    ensures f[22] == ip[8] && f[23] == ip[9]
    ensures f[26..30] == ip[12..16] && f[30..34] == ip[16..20] && f[34..14 + h] == ip[20..]
  {
    assert forall i :: 14 <= i < 14 + h ==> f[i] == f[14..14 + h][i - 14];
    SubSlice(f, 14, 14 + h, 12, 16);
    SubSlice(f, 14, 14 + h, 16, 20);
    SubSlice(f, 14, 14 + h, 20, h);
  }

  /** Nothing is lost: the frame tells payload, options, checksum choice, flags and identification. */
  lemma PacketInjective(p: seq<byte>, o: seq<byte>, z: bool, g: int, i: int, p': seq<byte>, o': seq<byte>, z': bool,
                        g': int, i': int)
    requires Buildable(p, o, g, i) && Buildable(p', o', g', i')
             && PacketOf(p, o, z, g, i) == PacketOf(p', o', z', g', i')
    ensures p == p' && o == o' && z == z' && g == g' && i == i'
  {
    hide PacketOf, Be;
    FrameBytes(p, o, z, g, i);
    FrameBytes(p', o', z', g', i');
  }
}
