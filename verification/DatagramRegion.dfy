/** The in-place program over a caller-owned region: every message operation
    either commits exactly what `Datagram` specifies or changes nothing. */
module DatagramRegion {
  import opened Common
  import D = Datagram

  class Region {
    var magic: int
    var sent: int
    var top: int
    var born: int
    var clock: int
    var received: int
    var length: int
    var version: int
    var tx: seq<int>
    var rx: seq<int>
    var peer: seq<byte>
    var transcript: seq<byte>
    const slots: array<int>

    function View(): D.State
      reads this, slots
    {
      D.State(magic, sent, top, born, clock, received, length, version, tx, rx, slots[..], peer, transcript)
    }

    /** An unused region: all bytes zero. */
    constructor ()
      ensures fresh(slots) && View() == D.Blank()
    {
      magic, sent, top, born, clock, received, length, version := 0, 0, 0, 0, 0, 0, 0, 0;
      tx, rx, peer, transcript := [], [], [], [];
      slots := new int[D.WINDOW](_ => 0);
      new;
      assert slots[..] == seq(D.WINDOW, _ => 0);
    }

    method FromHandshake(hs: D.Handshake, expected: seq<byte>, now: int) returns (r: int)
      requires D.Shaped(View())
      modifies this, slots
      ensures D.Shaped(View())
      ensures var made := D.FromHandshake(hs, expected, now);
              if made.None? then r == 0 && View() == old(View()) else r == 1 && View() == made.value
      ensures r == 1 <==> hs.status == 3 && |expected| == 32 && hs.peer == expected && now >= 0
      ensures r == 1 ==> View().tx == hs.tx && View().rx == hs.rx && View().peer == expected
    {
      if |expected| != 32 || now < 0 || hs.status != 3 || hs.peer != expected {
        return 0;
      }
      Install(hs, now);
      return 1;
    }

    method Install(hs: D.Handshake, now: int)
      requires D.Shaped(View())
      modifies this, slots
      ensures View() == D.Fresh(hs, now)
    {
      Clear();
      BlankSlots();
      tx, rx, peer, transcript := hs.tx, hs.rx, hs.peer, hs.transcript;
      magic, top, born, clock, version := D.MAGIC, -1, now, now, 1;
    }

    static lemma BlankSlots()
      ensures forall hs, now :: D.Fresh(hs, now).slots == D.Blank().slots
    {
    }

    method ClearSlots()
      requires slots.Length == D.WINDOW
      modifies slots
      ensures slots[..] == seq(D.WINDOW, _ => 0)
    {
      var i := 0;
      while i < slots.Length
        invariant 0 <= i <= slots.Length
        invariant forall j :: 0 <= j < i ==> slots[j] == 0
      {
        slots[i] := 0;
        i := i + 1;
      }
    }

    method Clear()
      requires D.Shaped(View())
      modifies this, slots
      ensures View() == D.Blank()
    {
      magic, sent, top, born, clock, received, length, version := 0, 0, 0, 0, 0, 0, 0, 0;
      tx, rx, peer, transcript := [], [], [], [];
      ClearSlots();
    }

    /** A wiped region is blank, and refuses every message from then on. */
    method Wipe()
      requires D.Shaped(View())
      modifies this, slots
      ensures View() == D.Blank() && forall now :: D.Advice(View(), now) == 2
      ensures magic == 0 && sent == 0 && top == 0 && born == 0 && clock == 0 && received == 0 && length == 0
      ensures version == 0 && tx == [] && rx == [] && peer == [] && transcript == []
      ensures forall k :: 0 <= k < 2048 ==> View().slots[k] == 0
    {
      Clear();
    }

    method SetLength(count: int) returns (r: int)
      requires D.Shaped(View())
      modifies this`length
      ensures View() == D.SetLength(old(View()), count)
      ensures r == if 0 <= count <= 65535 && D.Valid(old(View())) then 1 else 0
      ensures length == if r == 1 then count else old(length)
    {
      if 0 <= count <= 65535 && D.Valid(View()) {
        length := count;
        return 1;
      }
      return 0;
    }

    static predicate Separate(input: array<byte>, output: array<byte>) {
      input != output || input.Length == 0
    }

    method Seal(a: D.Aead, input: array<byte>, output: array<byte>, now: int) returns (r: int)
      requires D.Shaped(View())
      modifies this, output
      ensures D.Shaped(View())
      ensures !Separate(input, output) ==> r == -1 && View() == old(View()) && output[..] == old(output[..])
      ensures Separate(input, output) ==>
                var (t, frame) := D.Seal(a, old(View()), old(input[..]), output.Length, now);
                View() == t && Written(frame, old(output[..]), output[..], r)
    {
      if !Separate(input, output) || !D.SealGuard(View(), input[..], output.Length, now) {
        return -1;
      }
      var ct := a.seal(tx, D.Nonce(sent), D.Header(sent), input[..length]);
      assert input[..length] == input[..][..length];
      if |ct| != length + 16 {
        return -1;
      }
      Write(D.Header(sent) + ct, output);
      r := length + 24;
      sent, clock := sent + 1, now;
    }

    method Open(a: D.Aead, input: array<byte>, output: array<byte>, now: int) returns (r: int)
      requires D.Shaped(View())
      modifies this, slots, output
      ensures D.Shaped(View())
      ensures !Separate(input, output) ==> r == -1 && View() == old(View()) && output[..] == old(output[..])
      ensures Separate(input, output) ==>
                var (t, plain) := D.Open(a, old(View()), old(input[..]), output.Length, now);
                View() == t && Written(plain, old(output[..]), output[..], r)
    {
      if !Separate(input, output) || !D.OpenGuard(View(), input[..], output.Length, now) {
        return -1;
      }
      assert input[..][..8] == input[..8] && input[..][8..length] == input[8..length];
      var n := LeNat(input[..8]);
      if !D.ReplayOk(View(), n) {
        return -1;
      }
      var plain := a.open(rx, D.Nonce(n), D.Header(n), input[8..length]);
      if plain.None? || |plain.value| != length - 24 {
        return -1;
      }
      Write(plain.value, output);
      slots[n % D.WINDOW] := n + 1;
      if n > top {
        top := n;
      }
      received, clock := received + 1, now;
      return length - 24;
    }
  }

  /** A result is written at the front of the output; the rest keeps its bytes. */
  ghost predicate Written(text: Option<seq<byte>>, before: seq<byte>, after: seq<byte>, r: int) {
    if text.None? then r == -1 && after == before
    else r == |text.value| <= |before| && after == text.value + before[r..]
  }

  method Write(text: seq<byte>, output: array<byte>)
    requires |text| <= output.Length
    modifies output
    ensures output[..] == text + old(output[..])[|text|..]
  {
    var i := 0;
    while i < |text|
      invariant 0 <= i <= |text|
      invariant forall j :: 0 <= j < i ==> output[j] == text[j]
      invariant forall j :: i <= j < output.Length ==> output[j] == old(output[j])
    {
      output[i] := text[i];
      i := i + 1;
    }
  }
}
