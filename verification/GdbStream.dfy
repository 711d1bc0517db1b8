/** The observer's end of the debugger connection: a byte stream that arrives in pieces. */
module GdbStream {
  import opened Common
  import opened Hex

  const DOLLAR: byte := 36
  const HASH: byte := 35
  const OK_REPLY: seq<byte> := [79, 75, 35, 57, 97]

  function Sum(b: seq<byte>): nat {
    if b == [] then 0 else Sum(b[..|b| - 1]) + b[|b| - 1]
  }

  function Check(b: seq<byte>): seq<byte> { HexByte(Sum(b) % 256) }

  function Body(address: nat, phase: nat): seq<byte> {
    [77] + HexNat(address) + [44, 56, 58] + HexBytes(LeBytes(phase, 8))
  }

  function Packet(address: nat, phase: nat): seq<byte> {
    [DOLLAR] + Body(address, phase) + [HASH] + Check(Body(address, phase))
  }

  /** The sum of the bytes: that of a text is the sum of its parts' sums. */
  lemma {:induction false} SumAppend(a: seq<byte>, b: seq<byte>, v: byte)
    ensures Sum(a + b) == Sum(a) + Sum(b) && Sum([v]) == v as int && Sum([]) == 0
    decreases |b|
  {
    assert [v][..0] == [];
    if b == [] {
      assert a + b == a;
    } else {
      SumAppend(a, b[..|b| - 1], v);
      assert (a + b)[..|a + b| - 1] == a + b[..|b| - 1];
    }
  }

  /** The check digits are the last byte of the sum, in lower-case hexadecimal. */
  lemma CheckMeans(b: seq<byte>)
    ensures var c, d := Sum(b) % 256, "0123456789abcdef"; Check(b) == [d[c / 16] as int, d[c % 16] as int]
  {
    var c := Sum(b) % 256;
    DigitIs(c / 16);
    DigitIs(c % 16);
    hide Sum, HexDigit;
  }

  /** The marks of the protocol, and the one reply that is accepted. */
  lemma Marks()
    ensures DOLLAR == '$' as int && HASH == '#' as int && OK_REPLY == Ascii("OK#9a")
  {
  }

  /** What the stub reads back out of the packet is the address and the phase. */
  lemma PacketMeans(address: nat, phase: nat)
    requires phase < Pow256(8)
    ensures var h, p := HexNat(address), Packet(address, phase);
            && |p| == |h| + 24 && p[0] == DOLLAR && p[1] == 77
            && NatOf(p[2..2 + |h|]) == address && p[2 + |h|..5 + |h|] == [44, 56, 58]
            && (forall i :: 2 <= i < 2 + |h| ==> p[i] != 44)
            && FromHex(p[5 + |h|..21 + |h|]).Some? && LeNat(FromHex(p[5 + |h|..21 + |h|]).value) == phase
            && p[21 + |h|] == HASH && p[22 + |h|..] == Check(p[1..21 + |h|])
            && HexValue(p[22 + |h|]) * 16 + HexValue(p[23 + |h|]) == Sum(p[1..21 + |h|]) % 256
  {
    var h, b, p := HexNat(address), HexBytes(LeBytes(phase, 8)), Packet(address, phase);
    HexNatMeans(address);
    HexRoundTrip(LeBytes(phase, 8));
    LeNatOfLeBytes(phase, 8);
    assert forall d :: d in h ==> d != 44;
    CheckValue(Body(address, phase));
    hide HexNat, HexBytes, LeBytes, Pow256, LeNat, FromHex, NatOf, Check, HexValue;
    PacketSplit(h, b, Check(Body(address, phase)));
  }

  lemma CheckValue(b: seq<byte>)
    ensures |Check(b)| == 2 && HexValue(Check(b)[0]) * 16 + HexValue(Check(b)[1]) == Sum(b) % 256
  {
    hide Sum;
  }

  lemma PacketSplit(h: seq<byte>, b: seq<byte>, c: seq<byte>)
    requires |b| == 16 && |c| == 2 && forall d :: d in h ==> d != 44
    ensures var body: seq<byte> := [77] + h + [44, 56, 58] + b;
            var p: seq<byte> := [DOLLAR] + body + [HASH] + c;
            && |p| == |h| + 24 && p[0] == DOLLAR && p[1] == 77 && p[2..2 + |h|] == h
            && p[2 + |h|..5 + |h|] == [44, 56, 58]
            && (forall i :: 2 <= i < 2 + |h| ==> p[i] != 44)
            && p[5 + |h|..21 + |h|] == b && p[21 + |h|] == HASH && p[22 + |h|..] == c && p[1..21 + |h|] == body
  {
    var body: seq<byte> := [77] + h + [44, 56, 58] + b;
    var p: seq<byte> := [DOLLAR] + body + [HASH] + c;
    forall i | 2 <= i < 2 + |h|
      ensures p[i] != 44
    {
      assert p[i] == h[i - 2] && h[i - 2] in h;
    }
  }

  datatype Answer = Acked | Closed | Refused

  class Gdb {
    /** Every byte the stub will still send before it closes. */
    var incoming: seq<byte>
    var sent: seq<byte>

    constructor (incoming: seq<byte>)
      ensures this.incoming == incoming && sent == []
    {
      this.incoming, sent := incoming, [];
    }

    /** Some of the bytes on their way, at most `n`; none only at the end of the stream. */
    method Recv(n: nat) returns (row: seq<byte>)
      requires n > 0
      modifies this`incoming
      ensures |row| <= n && row + incoming == old(incoming)
      ensures row == [] <==> old(incoming) == []
    {
      if incoming == [] {
        return [];
      }
      var k: nat :| 1 <= k <= n && k <= |incoming|;
      row := incoming[..k];
      incoming := incoming[k..];
    }

    /** Exactly the next `n` bytes, however they arrive. */
    method Read(n: nat) returns (data: Option<seq<byte>>)
      modifies this`incoming
      ensures if n <= |old(incoming)|
              then data == Some(old(incoming)[..n]) && incoming == old(incoming)[n..]
              else data == None && incoming == []
    {
      var got: seq<byte> := [];
      while |got| < n
        invariant |got| <= n && got + incoming == old(incoming)
        decreases n - |got|
      {
        var row := Recv(n - |got|);
        if row == [] {
          return None;
        }
        got := got + row;
      }
      return Some(got);
    }

    /** Skips up to and including the next `mark`, returning what came before it. */
    method Until(mark: byte) returns (data: Option<seq<byte>>)
      modifies this`incoming
      ensures var s, n := old(incoming), Before(old(incoming), mark);
              if n < |s| then data == Some(s[..n]) && incoming == s[n + 1..] else data == None && incoming == []
    {
      ghost var s := incoming;
      var got: seq<byte> := [];
      while true
        invariant got + incoming == s && forall i :: 0 <= i < |got| ==> s[i] != mark
        decreases |incoming|
      {
        var one := Read(1);
        if one.None? {
          SameBefore(s, mark, |s|);
          return None;
        }
        if one.value[0] == mark {
          SameBefore(s, mark, |got|);
          return Some(got);
        }
        got := got + one.value;
      }
    }

    /** Writes `phase` at `address`. Accepted exactly when the bytes after the first `$` are
        `OK#9a`; then the rest of the stream is still unread. */
    method AckCheckpoint(address: nat, phase: nat) returns (answer: Answer)
      modifies this
      ensures var s, d := old(incoming), Before(old(incoming), DOLLAR);
              && (answer == Acked <==> d + 6 <= |s| && s[d + 1..d + 6] == OK_REPLY)
              && (answer == Acked ==> incoming == s[d + 6..])
              && sent == old(sent) + Packet(address, phase) + (if answer == Acked then [43] else [])
    {
      hide Check, Before, Good;
      var body := Body(address, phase);
      sent := sent + ([DOLLAR] + body + [HASH] + Check(body));
      var skipped := Until(DOLLAR);
      if skipped.None? {
        return Closed;
      }
      ghost var s, d := old(incoming), Before(old(incoming), DOLLAR);
      ReplyShape(incoming);
      AfterMark(s, d);
      var result := Until(HASH);
      if result.None? {
        return Closed;
      }
      var check := Read(2);
      if check.None? {
        return Closed;
      }
      if check.value != Check(result.value) || result.value != [79, 75] {
        return Refused;
      }
      sent := sent + [43];
      return Acked;
    }
  }

  lemma OkDigits()
    ensures Check([79, 75]) == [57, 97]
  {
    var ok: seq<byte> := [79, 75];
    var o: seq<byte> := [79];
    assert ok[..1] == o && o[..0] == [];
    assert Sum(ok) == 154;
  }

  predicate Good(t: seq<byte>) { 5 <= |t| && t[..5] == OK_REPLY }

  lemma GoodReply(t: seq<byte>)
    requires Good(t)
    ensures Before(t, HASH) == 2 && t[..2] == [79, 75] && t[3..5] == [57, 97]
  {
    var u := t[..5];
    assert t[0] == u[0] && t[1] == u[1] && t[2] == u[2] && t[3] == u[3] && t[4] == u[4];
    hide Before;
    SameBefore(t, HASH, 2);
  }

  /** The reply five bytes after the mark at `d`, seen from behind it. */
  lemma AfterMark(s: seq<byte>, d: nat)
    requires d < |s|
    ensures Good(s[d + 1..]) <==> d + 6 <= |s| && s[d + 1..d + 6] == OK_REPLY
    ensures d + 6 <= |s| ==> s[d + 1..][5..] == s[d + 6..]
  {
    if d + 6 <= |s| {
      assert s[d + 1..][..5] == s[d + 1..d + 6];
    }
  }

  /** A reply is accepted exactly when it starts with `OK`, a hash mark and its own check digits. */
  lemma ReplyShape(t: seq<byte>)
    ensures var n := Before(t, HASH);
            Good(t) <==> n + 3 <= |t| && t[..n] == [79, 75] && t[n + 1..n + 3] == Check(t[..n])
  {
    OkDigits();
    hide Check, Before;
    if Good(t) {
      GoodReply(t);
    }
    var n := Before(t, HASH);
    if n + 3 <= |t| && t[..n] == [79, 75] && t[n + 1..n + 3] == Check(t[..n]) {
      assert n == |t[..n]| == 2;
      assert t[..5] == t[..2] + [t[2]] + t[3..5];
    }
  }
}
