/** The observer that opens the sender's fragments, joins them and rebuilds what was to be sent. */
module SendMessage {
  import opened Common
  import A = AppFrame
  import F = Fragments
  import H = Hex
  import U = UdpPeer
  import X = AppFrameExact

  const SIZE: nat := 1048576
  const UNIT: nat := 700
  const PARTS: nat := 1498
  const QUOTE: byte := 34
  const BRACE: byte := 125
  const SPACE: byte := 32

  /** A decrypted fragment whose fields and base64 text have been read. */
  datatype Fragment = Fragment(version: int, ident: seq<byte>, index: int, count: int, chunk: seq<byte>)

  /** Decryption and JSON: counter and sealed body to a fragment, or nothing. */
  type Opener = (seq<byte>, seq<byte>) -> Option<Fragment>

  /** The Kekkai wire inside an Ethernet frame, or nothing when the frame is not UDP over IPv4. */
  function WireOf(raw: seq<byte>): Option<seq<byte>> {
    if |raw| < 24 || raw[12] != 8 || raw[13] != 0 || raw[23] != 17 then None
    else
      var udp := 14 + (raw[14] % 16) * 4;
      if udp + 6 > |raw| then None
      else
        var hi: int, lo: int := raw[udp + 4], raw[udp + 5];
        var length := hi * 256 + lo;
        var stop := if udp + length < |raw| then udp + length else |raw|;
        if udp + 8 <= stop then Some(raw[udp + 8..stop]) else Some([])
  }

  function Admit(raw: seq<byte>, i: nat, ident: Option<seq<byte>>, open: Opener): (r: Option<(seq<byte>, Fragment)>) {
    var w := WireOf(raw);
    if w.None? || |w.value| < 11 || w.value[..3] != [107, 1, 50] || LeNat(w.value[3..11]) != i then None
    else
      var f := open(w.value[3..11], w.value[11..]);
      if f.Some? && f.value.version == 1 && f.value.index == i && f.value.count == PARTS && Named(f.value.ident, ident)
         && |f.value.chunk| == ChunkSize(i)
      then Some((w.value, f.value)) else None
  }

  predicate Named(name: seq<byte>, ident: Option<seq<byte>>) {
    if ident.Some? then name == ident.value
    else |name| == 64 && forall i :: 0 <= i < 64 ==> 48 <= name[i] <= 57 || 97 <= name[i] <= 102
  }

  function ChunkSize(i: nat): nat { if i < PARTS - 1 then UNIT else 676 }

  /** The first `n` frames are all admitted, and these are the identifier, text and wires. */
  ghost predicate Gathered(frames: seq<seq<byte>>, n: nat, open: Opener, ident: Option<seq<byte>>,
                           chunks: seq<seq<byte>>, wires: seq<seq<byte>>)
    requires n <= |frames|
  {
    && |chunks| == |wires| == n && (n > 0 <==> ident.Some?) && (ident.Some? ==> Named(ident.value, None))
    && forall i :: 0 <= i < n ==>
         var a := Admit(frames[i], i, ident, open);
         a.Some? && a.value.0 == wires[i] && a.value.1.chunk == chunks[i]
  }

  function Join(chunks: seq<seq<byte>>): seq<byte> {
    if chunks == [] then [] else Join(chunks[..|chunks| - 1]) + chunks[|chunks| - 1]
  }

  // ---------------------------------------------------------------- the message to expect

  /** The base64 alphabet, over and over. */
  function Letter(i: nat): byte { A.Letter(i % 64) }

  function Prefix(before: seq<byte>, ident: seq<byte>, after: seq<byte>): seq<byte> {
    before + ident + if |after| >= 2 then after[..|after| - 2] else []
  }

  /** How many body letters fit: a multiple of four. */
  function Used(prefix: nat): nat
    requires prefix + 2 <= SIZE
  {
    (SIZE - prefix - 2) / 4 * 4
  }

  function Repeat(b: byte, n: nat): (s: seq<byte>)
    ensures |s| == n
  {
    seq(n, _ => b)
  }

  function Expected(prefix: seq<byte>): seq<byte>
    requires |prefix| + 2 <= SIZE
  {
    var used := Used(|prefix|);
    prefix + seq(used, i requires 0 <= i < used => Letter(i)) + [QUOTE, BRACE]
        + Repeat(SPACE, SIZE - |prefix| - used - 2)
  }

  /** It is always exactly one mebibyte, and fewer than four spaces pad it. */
  lemma ExpectedShape(prefix: seq<byte>)
    requires |prefix| + 2 <= SIZE
    ensures |Expected(prefix)| == SIZE && Used(|prefix|) % 4 == 0 && SIZE - |prefix| - Used(|prefix|) - 2 < 4
    ensures Expected(prefix)[..|prefix|] == prefix
    ensures forall i :: 0 <= i < Used(|prefix|) ==> Expected(prefix)[|prefix| + i] == Letter(i)
    ensures Expected(prefix)[|prefix| + Used(|prefix|)] == '"' as int
    ensures Expected(prefix)[|prefix| + Used(|prefix|) + 1] == '}' as int
    ensures forall i :: |prefix| + Used(|prefix|) + 2 <= i < SIZE ==> Expected(prefix)[i] == ' ' as int
  {
    var used := Used(|prefix|);
    var body := seq(used, i requires 0 <= i < used => Letter(i));
    hide Letter;
    forall i | 0 <= i < used
      ensures Expected(prefix)[|prefix| + i] == Letter(i)
    {
      assert Expected(prefix)[|prefix| + i] == body[i];
    }
  }

  /** The letters of base64 in order, again and again. */
  lemma LettersInOrder(i: nat)
    ensures X.Stands(Letter(i), i % 64)
  {
    X.LetterStands(i % 64);
  }

  /** What precedes the body: the second template without its last two bytes. */
  lemma PrefixIs(before: seq<byte>, ident: seq<byte>, after: seq<byte>, x: byte, y: byte)
    ensures Prefix(before, ident, after + [x, y]) == before + ident + after
  {
    assert (after + [x, y])[..|after|] == after;
  }

  /** The alphabet repeated, and cut to `used` letters. */
  method Body(used: nat) returns (body: seq<byte>)
    ensures body == seq(used, i requires 0 <= i < used => Letter(i))
  {
    var alphabet: seq<byte> := [];
    for k := 0 to 64
      invariant alphabet == seq(k, i requires 0 <= i < k => Letter(i))
    {
      alphabet := alphabet + [Letter(k)];
    }
    var all: seq<byte> := [];
    for k := 0 to (used + 63) / 64
      invariant |all| == 64 * k && forall i :: 0 <= i < |all| ==> all[i] == Letter(i)
    {
      forall i | |all| <= i < |all| + 64
        ensures (all + alphabet)[i] == Letter(i)
      {
        assert (all + alphabet)[i] == alphabet[i - |all|] == Letter(i - |all|);
        assert i % 64 == (i - |all|) % 64;
      }
      all := all + alphabet;
    }
    body := all[..used];
  }

  datatype Observation = Observation(ident: seq<byte>, message: seq<byte>, wires: seq<seq<byte>>, matches: bool)

  /** The two fields of the message's JSON that are looked at. */
  datatype Request = Request(ident: seq<byte>, body: seq<byte>)

  /** The JSON and base64 readers; nothing where they raise. */
  datatype Readers = Readers(json: seq<byte> -> Option<Request>, base64: seq<byte> -> Option<seq<byte>>)

  /** The observation of the frames: what they gather to, compared with the expected text. */
  ghost predicate Observed(frames: seq<seq<byte>>, open: Opener, before: seq<byte>, after: seq<byte>, o: Observation) {
    && |Prefix(before, o.ident, after)| + 2 <= SIZE
    && (exists chunks :: Gathered(frames, |frames|, open, Some(o.ident), chunks, o.wires) && o.message == Join(chunks))
    && (o.matches <==> o.message == Expected(Prefix(before, o.ident, after)))
  }

  /** A text that matches also reads back: as JSON it names the sender, and its body decodes to what the
      expected letters decode to. */
  predicate Confirmed(read: Readers, before: seq<byte>, after: seq<byte>, o: Observation)
    requires |Prefix(before, o.ident, after)| + 2 <= SIZE
  {
    o.matches ==>
      var used := Used(|Prefix(before, o.ident, after)|);
      var value, sent := read.json(o.message), read.base64(seq(used, i requires 0 <= i < used => Letter(i)));
      value.Some? && value.value.ident == o.ident && sent.Some? && read.base64(value.value.body) == sent
  }

  ghost predicate Succeeds(frames: seq<seq<byte>>, open: Opener, read: Readers, before: seq<byte>, after: seq<byte>,
                           o: Observation) {
    Observed(frames, open, before, after, o) && Confirmed(read, before, after, o)
  }

  method NativeFragments(frames: seq<seq<byte>>, open: Opener, read: Readers, before: seq<byte>, after: seq<byte>)
      returns (r: Option<Observation>)
    requires |before| + 64 + (if |after| >= 2 then |after| - 2 else 0) + 2 <= SIZE
    ensures r.Some? ==> Succeeds(frames, open, read, before, after, r.value)
    ensures r.None? ==> forall o :: !Succeeds(frames, open, read, before, after, o)
  {
    hide Admit, Named, Letter;
    var chunks: seq<seq<byte>>, wires: seq<seq<byte>>, ident: Option<seq<byte>> := [], [], None;
    for n := 0 to |frames|
      invariant Gathered(frames, n, open, ident, chunks, wires)
    {
      var a := Admit(frames[n], n, ident, open);
      if a.None? {
        NoneGathered(frames, n, open, ident, chunks, wires);
        return None;
      }
      var (wire, f) := a.value;
      GatherOne(frames, n, open, ident, chunks, wires);
      ident, chunks, wires := Some(f.ident), chunks + [f.chunk], wires + [wire];
    }
    if ident.None? {
      return None;
    }
    NamedSize(ident.value);
    var message, prefix := Join(chunks), Prefix(before, ident.value, after);
    ExpectedShape(prefix);
    var body := Body(Used(|prefix|));
    var expected := prefix + body + [QUOTE, BRACE];
    expected := expected + Repeat(SPACE, SIZE - |expected|);
    var o := Observation(ident.value, message, wires, |message| == SIZE && message == expected);
    assert Observed(frames, open, before, after, o);
    var confirmed := !o.matches;
    if o.matches {
      var value, sent := read.json(message), read.base64(body);
      confirmed := value.Some? && value.value.ident == ident.value && sent.Some?
          && read.base64(value.value.body) == sent;
    }
    ObservedUnique(frames, open, before, after, o);
    return if confirmed then Some(o) else None;
  }

  lemma NamedSize(ident: seq<byte>)
    requires Named(ident, None)
    ensures |ident| == 64
  {
  }

  /** There is one observation at most. */
  lemma ObservedUnique(frames: seq<seq<byte>>, open: Opener, before: seq<byte>, after: seq<byte>, o: Observation)
    requires Observed(frames, open, before, after, o)
    ensures forall p :: Observed(frames, open, before, after, p) ==> p == o
  {
    forall p | Observed(frames, open, before, after, p)
      ensures p == o
    {
      var c :| Gathered(frames, |frames|, open, Some(o.ident), c, o.wires) && o.message == Join(c);
      var d :| Gathered(frames, |frames|, open, Some(p.ident), d, p.wires) && p.message == Join(d);
      GatheredSame(frames, open, o.ident, c, o.wires, p.ident, d, p.wires);
    }
  }

  lemma GatheredSame(frames: seq<seq<byte>>, open: Opener, ident: seq<byte>, chunks: seq<seq<byte>>,
                     wires: seq<seq<byte>>,
                     ident': seq<byte>, chunks': seq<seq<byte>>, wires': seq<seq<byte>>)
    requires Gathered(frames, |frames|, open, Some(ident), chunks, wires)
    requires Gathered(frames, |frames|, open, Some(ident'), chunks', wires')
    ensures ident == ident' && chunks == chunks' && wires == wires'
  {
    GatheredUnique(frames, |frames|, |frames|, open, Some(ident), chunks, wires, Some(ident'), chunks', wires');
    hide Admit;
    forall i | 0 <= i < |frames|
      ensures chunks[i] == chunks'[i] && wires[i] == wires'[i]
    {
      assert Admit(frames[i], i, Some(ident), open).Some?;
    }
  }

  lemma GatherOne(frames: seq<seq<byte>>, n: nat, open: Opener, ident: Option<seq<byte>>, chunks: seq<seq<byte>>,
                  wires: seq<seq<byte>>)
    requires n < |frames| && Gathered(frames, n, open, ident, chunks, wires) && Admit(frames[n], n, ident, open).Some?
    ensures var (wire, f) := Admit(frames[n], n, ident, open).value;
            Gathered(frames, n + 1, open, Some(f.ident), chunks + [f.chunk], wires + [wire])
  {
    hide WireOf, LeNat;
  }

  /** What is gathered is forced, so one refused frame refuses every way of gathering. */
  lemma {:induction false} GatheredUnique(frames: seq<seq<byte>>, n: nat, m: nat, open: Opener,
                                          ident: Option<seq<byte>>, chunks: seq<seq<byte>>, wires: seq<seq<byte>>,
                                          ident': Option<seq<byte>>, chunks': seq<seq<byte>>, wires': seq<seq<byte>>)
    requires 0 < n <= m <= |frames|
    requires Gathered(frames, n, open, ident, chunks, wires) && Gathered(frames, m, open, ident', chunks', wires')
    ensures ident == ident'
  {
    hide WireOf, LeNat;
    assert Admit(frames[0], 0, ident, open).Some? && Admit(frames[0], 0, ident', open).Some?;
  }

  lemma NoneGathered(frames: seq<seq<byte>>, n: nat, open: Opener, ident: Option<seq<byte>>, chunks: seq<seq<byte>>,
                     wires: seq<seq<byte>>)
    requires n < |frames| && Gathered(frames, n, open, ident, chunks, wires) && Admit(frames[n], n, ident, open).None?
    ensures !exists i, c, w :: Gathered(frames, |frames|, open, i, c, w)
  {
    forall i, c, w
      ensures !Gathered(frames, |frames|, open, i, c, w)
    {
      if Gathered(frames, |frames|, open, i, c, w) {
        FirstAdmits(frames, n, open, ident, i, c, w);
        if n > 0 {
          GatheredUnique(frames, n, |frames|, open, ident, chunks, wires, i, c, w);
        }
      }
    }
  }

  lemma FirstAdmits(frames: seq<seq<byte>>, n: nat, open: Opener, ident: Option<seq<byte>>, i: Option<seq<byte>>,
                    c: seq<seq<byte>>, w: seq<seq<byte>>)
    requires n < |frames| && Gathered(frames, |frames|, open, i, c, w) && (n > 0 <==> ident.Some?)
    ensures n == 0 || ident == i ==> Admit(frames[n], n, ident, open).Some?
  {
    hide WireOf, LeNat;
    assert Admit(frames[n], n, i, open).Some?;
  }

  // ---------------------------------------------------------------- sizes and content

  lemma {:induction false} JoinSize(frames: seq<seq<byte>>, n: nat, open: Opener, ident: Option<seq<byte>>,
                                    chunks: seq<seq<byte>>, wires: seq<seq<byte>>, k: nat)
    requires n <= |frames| && Gathered(frames, n, open, ident, chunks, wires) && k <= n
    ensures |Join(chunks[..k])| == if k < PARTS then UNIT * k else UNIT * (PARTS - 1) + 676 * (k - PARTS + 1)
  {
    if k > 0 {
      JoinSize(frames, n, open, ident, chunks, wires, k - 1);
      assert chunks[..k][..k - 1] == chunks[..k - 1];
      assert Admit(frames[k - 1], k - 1, ident, open).value.1.chunk == chunks[k - 1];
      hide WireOf, LeNat, Named;
    }
  }

  /** The joined text is one mebibyte exactly when there were 1498 frames. */
  lemma FullSize(frames: seq<seq<byte>>, open: Opener, ident: Option<seq<byte>>, chunks: seq<seq<byte>>,
                 wires: seq<seq<byte>>)
    requires Gathered(frames, |frames|, open, ident, chunks, wires)
    ensures |Join(chunks)| == SIZE <==> |frames| == PARTS
  {
    JoinSize(frames, |frames|, open, ident, chunks, wires, |frames|);
    assert chunks[..|frames|] == chunks;
  }

  lemma {:induction false} JoinIs(chunks: seq<seq<byte>>, message: seq<byte>, n: nat)
    requires n <= |chunks| && forall i :: 0 <= i < n ==> chunks[i] == F.Part(message, UNIT, i)
    ensures Join(chunks[..n]) == F.JoinParts(message, UNIT, n)
  {
    if n > 0 {
      JoinIs(chunks, message, n - 1);
      assert chunks[..n][..n - 1] == chunks[..n - 1];
    }
  }

  /** A one-mebibyte message takes 1498 parts, the last of 676 bytes, and joining them restores it. */
  lemma SplitAndJoin(chunks: seq<seq<byte>>, message: seq<byte>)
    requires |message| == SIZE
    ensures F.Count(SIZE, UNIT) == PARTS && |F.Part(message, UNIT, PARTS - 1)| == 676
    ensures forall i :: 0 <= i < PARTS ==> |F.Part(message, UNIT, i)| == ChunkSize(i)
    ensures |chunks| == PARTS && (forall i :: 0 <= i < PARTS ==> chunks[i] == F.Part(message, UNIT, i)) ==>
            Join(chunks) == message
  {
    F.SplitJoin(message, UNIT);
    if |chunks| == PARTS && forall i :: 0 <= i < PARTS ==> chunks[i] == F.Part(message, UNIT, i) {
      JoinIs(chunks, message, PARTS);
      assert chunks[..PARTS] == chunks;
    }
  }

  // ---------------------------------------------------------------- genuine frames

  /** Any UDP datagram in an IPv4 frame yields its payload; what follows it is not looked at. */
  lemma WireIs(raw: seq<byte>, head: seq<byte>, ports: seq<byte>, size: seq<byte>, sum: seq<byte>, wire: seq<byte>,
               rest: seq<byte>)
    requires raw == head + ports + size + sum + wire + rest && |ports| == 4 && |size| == |sum| == 2
    requires |head| >= 34 && head[12] == 8 && head[13] == 0 && head[23] == 17
    requires var first: int := head[14]; |head| == 14 + first % 16 * 4
    requires var z: seq<int> := size; z[0] * 256 + z[1] == 8 + |wire|
    ensures WireOf(raw) == Some(wire)
  {
    var udp := |head|;
    assert raw[12] == head[12] && raw[13] == head[13] && raw[14] == head[14] && raw[23] == head[23];
    assert raw[udp + 4] == size[0] && raw[udp + 5] == size[1];
    assert raw[udp + 8..udp + 8 + |wire|] == wire;
  }

  lemma WireInFrame(raw: seq<byte>, h: nat, wire: seq<byte>)
    requires 20 <= h && 22 + h + |wire| <= |raw|
    requires var f: seq<int> := raw;
             && f[12] == 8 && f[13] == 0 && f[23] == 17 && f[14] % 16 * 4 == h
             && f[18 + h] * 256 + f[19 + h] == 8 + |wire|
    requires raw[22 + h..22 + h + |wire|] == wire
    ensures WireOf(raw) == Some(wire)
  {
  }

  /** The first byte of a header of `n` words. */
  lemma HeaderSize(first: int, options: nat)
    requires options % 4 == 0 && options <= 40 && first == 0x45 + options / 4
    ensures first % 16 * 4 == 20 + options
  {
  }

  /** The frames of the peer's own builder do. */
  lemma WireOfPacket(payload: seq<byte>, options: seq<byte>, zero: bool, flags: int, ident: int)
    requires U.Buildable(payload, options, flags, ident)
    ensures WireOf(U.PacketOf(payload, options, zero, flags, ident)) == Some(payload)
  {
    hide U.PacketOf, WireOf;
    U.FrameBytes(payload, options, zero, flags, ident);
    var f := U.PacketOf(payload, options, zero, flags, ident);
    HeaderSize(f[14], |options|);
    WireInFrame(f, 20 + |options|, payload);
  }

  /** A wire as the sender makes it: `k`, 1 and `2`, the counter in eight bytes, and what is sealed. */
  function Wire(i: nat, sealed: seq<byte>): seq<byte> { [0x6b, 0x01, 0x32] + LeBytes(i, 8) + sealed }

  /** Part `i` of a message, opened. */
  function PartOf(message: seq<byte>, ident: seq<byte>, i: nat): Fragment {
    Fragment(1, ident, i, 1498, F.Part(message, 700, i))
  }

  lemma WireFields(i: nat, sealed: seq<byte>)
    requires i < Pow256(8)
    ensures var w := Wire(i, sealed);
            && |w| >= 11 && w[..3] == [107, 1, 50] && w[3..11] == LeBytes(i, 8) && LeNat(w[3..11]) == i
            && w[11..] == sealed
  {
    LeNatOfLeBytes(i, 8);
  }

  /** A frame with the wire that is due, sealing the part that is due, is admitted. */
  lemma GenuineAdmitted(raw: seq<byte>, i: nat, sealed: seq<byte>, open: Opener, message: seq<byte>, id: seq<byte>,
                        ident: Option<seq<byte>>)
    requires |message| == SIZE && |id| == 32 && i < 1498 && (ident == None || ident == Some(H.HexBytes(id)))
    requires WireOf(raw) == Some(Wire(i, sealed))
    requires open(LeBytes(i, 8), sealed) == Some(PartOf(message, H.HexBytes(id), i))
    ensures Admit(raw, i, ident, open) == Some((Wire(i, sealed), PartOf(message, H.HexBytes(id), i)))
  {
    hide WireOf, Wire, F.Part, LeBytes, LeNat, Pow256, H.HexBytes;
    EightBytes(i);
    WireFields(i, sealed);
    HexNamed(id);
    SplitAndJoin([], message);
  }

  lemma EightBytes(i: nat)
    requires i < 1498
    ensures i < Pow256(8)
  {
    assert Pow256(2) == 65536 && Pow256(4) >= 65536 && Pow256(8) >= Pow256(4);
  }

  lemma HexNamed(id: seq<byte>)
    requires |id| == 32
    ensures Named(H.HexBytes(id), None)
  {
    HexLetters(id);
    hide H.HexBytes;
  }

  lemma {:induction false} HexLetters(b: seq<byte>)
    ensures forall i :: 0 <= i < 2 * |b| ==> 48 <= H.HexBytes(b)[i] <= 57 || 97 <= H.HexBytes(b)[i] <= 102
  {
    if b != [] {
      HexLetters(b[1..]);
    }
  }

  /** All 1498 frames of a one-mebibyte message, in whatever frames the wires travel, are gathered to that
      message; so what is observed is the message, and that it is the expected one just when it is. */
  lemma GenuineObserved(frames: seq<seq<byte>>, sealed: seq<seq<byte>>, open: Opener, message: seq<byte>, id: seq<byte>,
                        before: seq<byte>, after: seq<byte>, wires: seq<seq<byte>>)
    requires |frames| == |sealed| == |wires| == 1498 && |message| == 1048576 && |id| == 32
    requires |before| + 64 + |after| + 2 <= 1048576
    requires forall i :: 0 <= i < 1498 ==>
               && wires[i] == Wire(i, sealed[i]) && WireOf(frames[i]) == Some(wires[i])
               && open(LeBytes(i, 8), sealed[i]) == Some(PartOf(message, H.HexBytes(id), i))
    ensures var ident := H.HexBytes(id);
            Observed(frames, open, before, after,
                     Observation(ident, message, wires, message == Expected(Prefix(before, ident, after))))
  {
    hide WireOf, Wire, F.Part, LeBytes, H.HexBytes, Admit, PartOf, Named, Expected;
    var ident := H.HexBytes(id);
    var chunks := seq(1498, i requires 0 <= i < 1498 => F.Part(message, 700, i));
    forall i | 0 <= i < 1498
      ensures var a := Admit(frames[i], i, Some(ident), open);
              a.Some? && a.value.0 == wires[i] && a.value.1.chunk == chunks[i]
    {
      GenuineAdmitted(frames[i], i, sealed[i], open, message, id, Some(ident));
      ChunkIs(message, ident, i);
    }
    HexNamed(id);
    SplitAndJoin(chunks, message);
    assert Gathered(frames, |frames|, open, Some(ident), chunks, wires);
  }

  lemma ChunkIs(message: seq<byte>, ident: seq<byte>, i: nat)
    ensures PartOf(message, ident, i).chunk == F.Part(message, 700, i)
  {
  }
}
