/**
 The two other programs that keep the same session state: the immutable 2118-word
 vector, and the portable session whose window is a pruned set of counters.
 Both make the same decisions as the region program.
 */
module DatagramVector {
  import opened Common
  import D = Datagram

  // ---------------------------------------------------------------- the vector program

  predicate VectorValid(v: seq<int>) {
    |v| == 2118 && v[69] == 1 && v[64] >= 0 && v[65] >= -1 && v[66] >= 0 && v[67] >= v[66] && v[68] >= 0
  }

  function VectorAdvice(v: seq<int>, now: int): int {
    if !VectorValid(v) then 2
    else if now < v[67] || now - v[66] >= 180 || v[64] >= D.WIRE_LIMIT || v[68] >= D.WIRE_LIMIT then 2
    else if now - v[66] >= 120 || v[64] >= D.REKEY_COUNT then 1
    else 0
  }

  function VectorSeal(a: D.Aead, v: seq<int>, data: seq<byte>, now: int): seq<int> {
    if VectorAdvice(v, now) == 2 || |data| > 65511 then []
    else
      var hdr := D.Header(v[64]);
      var ct := a.seal(v[..32], [0, 0, 0, 0] + hdr, hdr, data);
      v[64 := v[64] + 1][67 := now] + (hdr + ct)
  }

  /** Reads the counter from the most significant header byte down. */
  function Horner(hdr: seq<byte>, i: int, acc: nat): nat
    requires -1 <= i < |hdr|
    decreases i + 1
  {
    if i < 0 then acc else Horner(hdr, i - 1, acc * 256 + hdr[i])
  }

  function Opened(r: Option<seq<byte>>): seq<int> {
    var failed: seq<int> := [-1];
    if r.None? then failed else r.value
  }

  function VectorOpen(a: D.Aead, v: seq<int>, frame: seq<byte>, now: int): seq<int> {
    if VectorAdvice(v, now) == 2 || |frame| < 24 || |frame| > 65535 then []
    else if frame[7] != 0 || frame[6] > 31 then []
    else
      var n := Horner(frame[..8], 7, 0);
      if n >= D.WIRE_LIMIT || v[70 + n % D.WINDOW] == n + 1 || (n <= v[65] && n <= v[65] - D.WINDOW) then []
      else VectorTake(v, n, Opened(a.open(v[32..64], [0, 0, 0, 0] + frame[..8], frame[..8], frame[8..])), now)
  }

  function VectorTake(v: seq<int>, n: nat, pt: seq<int>, now: int): seq<int>
    requires |v| == 2118
  {
    if |pt| == 1 && pt[0] == -1 then []
    else v[70 + n % D.WINDOW := n + 1][65 := if n > v[65] then n else v[65]][67 := now][68 := v[68] + 1] + pt
  }

  /** The words of the vector that hold a region state. */
  function Layout(s: D.State): (v: seq<int>)
    requires D.Shaped(s) && |s.tx| == 32 && |s.rx| == 32
    ensures |v| == 2118
  {
    s.tx + s.rx + [s.sent, s.top, s.born, s.clock, s.received, s.version] + s.slots
  }

  lemma LayoutWords(s: D.State)
    requires D.Shaped(s) && |s.tx| == 32 && |s.rx| == 32
    ensures var v := Layout(s);
            && v[..32] == s.tx && v[32..64] == s.rx
            && v[64] == s.sent && v[65] == s.top && v[66] == s.born && v[67] == s.clock
            && v[68] == s.received && v[69] == s.version
            && forall k :: 0 <= k < D.WINDOW ==> v[70 + k] == s.slots[k]
  {
  }

  lemma {:induction false} HornerIsLeNat(hdr: seq<byte>, i: int, tail: seq<byte>)
    requires -1 <= i < |hdr| && tail == hdr[i + 1..]
    ensures Horner(hdr, i, LeNat(tail)) == LeNat(hdr)
    decreases i + 1
  {
    if i < 0 {
      assert tail == hdr;
    } else {
      var longer := [hdr[i]] + tail;
      assert longer[1..] == tail;
      assert LeNat(longer) == LeNat(tail) * 256 + hdr[i];
      assert longer == hdr[i..];
      HornerIsLeNat(hdr, i - 1, longer);
    }
  }

  lemma AdviceAgrees(s: D.State, now: int)
    requires D.Valid(s) && D.Shaped(s) && |s.tx| == 32 && |s.rx| == 32
    ensures VectorAdvice(Layout(s), now) == D.Advice(s, now)
  {
    LayoutWords(s);
  }

  lemma SealParts(a: D.Aead, s: D.State, data: seq<byte>, now: int)
    requires D.Valid(s) && D.Shaped(s) && |s.tx| == 32 && |s.rx| == 32 && D.Lawful(a) && |data| <= 65535
    ensures var u := D.SetLength(s, |data|);
            D.Seal(a, u, data, 65536, now) ==
              if D.Advice(s, now) == 2 || |data| > 65511 then (u, None)
              else (D.Sealed(u, now), Some(D.Header(s.sent) + a.seal(s.tx, D.Nonce(s.sent), D.Header(s.sent), data)))
  {
    hide D.Header, D.Nonce;
    assert data[..|data|] == data;
  }

  lemma VectorSealParts(a: D.Aead, s: D.State, data: seq<byte>, now: int)
    requires D.Valid(s) && D.Shaped(s) && |s.tx| == 32 && |s.rx| == 32
    ensures VectorSeal(a, Layout(s), data, now)
         == if D.Advice(s, now) == 2 || |data| > 65511 then []
            else Layout(s)[64 := s.sent + 1][67 := now]
                 + (D.Header(s.sent) + a.seal(s.tx, D.Nonce(s.sent), D.Header(s.sent), data))
  {
    hide D.Header, D.Advice, VectorAdvice;
    LayoutWords(s);
    AdviceAgrees(s, now);
    hide Layout;
  }

  lemma SealedLayout(s: D.State, count: nat, now: int)
    requires D.Shaped(s) && |s.tx| == 32 && |s.rx| == 32
    ensures var u := D.SetLength(s, count);
            Layout(u) == Layout(s) && Layout(D.Sealed(u, now)) == Layout(s)[64 := s.sent + 1][67 := now]
  {
  }

  /** Sealing in place and sealing the vector commit the same words and the same frame. */
  lemma SealAgrees(a: D.Aead, s: D.State, data: seq<byte>, now: int)
    requires D.Valid(s) && D.Shaped(s) && |s.tx| == 32 && |s.rx| == 32 && D.Lawful(a) && |data| <= 65535
    ensures var (t, frame) := D.Seal(a, D.SetLength(s, |data|), data, 65536, now);
            VectorSeal(a, Layout(s), data, now) == if frame.None? then [] else Layout(t) + frame.value
  {
    SealParts(a, s, data, now);
    VectorSealParts(a, s, data, now);
    SealedLayout(s, |data|, now);
    hide Layout, D.Seal, VectorSeal, D.Header, D.Nonce, D.Advice;
  }

  lemma ReceivedLayout(s: D.State, n: nat, now: int)
    requires D.Shaped(s) && |s.tx| == 32 && |s.rx| == 32
    ensures Layout(D.Received(s, n, now))
         == Layout(s)[70 + n % D.WINDOW := n + 1][65 := if n > s.top then n else s.top][67 := now][68 := s.received + 1]
  {
    LayoutWords(s);
  }

  /** The vector's header and replay tests read the same counter and the same marker. */
  lemma CounterAgrees(s: D.State, frame: seq<byte>)
    requires D.Shaped(s) && |s.tx| == 32 && |s.rx| == 32 && |frame| >= 24
    ensures var n := LeNat(frame[..8]);
            && Horner(frame[..8], 7, 0) == n && D.Header(n) == frame[..8]
            && Layout(s)[70 + n % D.WINDOW] == s.slots[n % D.WINDOW] && Layout(s)[65] == s.top
            && Layout(s)[32..64] == s.rx && Layout(s)[68] == s.received
  {
    LayoutWords(s);
    HornerIsLeNat(frame[..8], 7, []);
    LeBytesOfLeNat(frame[..8]);
  }

  /** Both open under one test: advice, header bytes, replay. */
  predicate Openable(s: D.State, frame: seq<byte>, now: int)
    requires D.Shaped(s)
  {
    && 24 <= |frame| <= 65535 && D.Advice(s, now) != 2 && frame[7] == 0 && frame[6] <= 31
    && D.ReplayOk(s, LeNat(frame[..8]))
  }

  function Unsealed(a: D.Aead, s: D.State, frame: seq<byte>): Option<seq<byte>>
    requires |frame| >= 24
  {
    a.open(s.rx, [0, 0, 0, 0] + frame[..8], frame[..8], frame[8..])
  }

  lemma AuthenticIs(a: D.Aead, s: D.State, frame: seq<byte>)
    requires |frame| >= 24 && s.length == |frame|
    ensures D.Authentic(a, s, frame) == Unsealed(a, s, frame)
  {
    LeBytesOfLeNat(frame[..8]);
    assert frame[8..|frame|] == frame[8..];
  }

  lemma OpenParts(a: D.Aead, s: D.State, frame: seq<byte>, now: int)
    requires D.Valid(s) && D.Shaped(s) && D.Lawful(a) && |frame| <= 65535
    ensures var u := D.SetLength(s, |frame|);
            D.Open(a, u, frame, 65536, now) ==
              if !Openable(s, frame, now) || Unsealed(a, s, frame).None? then (u, None)
              else (D.Received(u, LeNat(frame[..8]), now), Unsealed(a, s, frame))
  {
    var u := D.SetLength(s, |frame|);
    if |frame| >= 24 {
      AuthenticIs(a, u, frame);
    }
    hide D.Authentic, LeNat, D.Received;
  }

  lemma VectorOpenParts(a: D.Aead, s: D.State, frame: seq<byte>, now: int)
    requires D.Valid(s) && D.Shaped(s) && |s.tx| == 32 && |s.rx| == 32
    ensures VectorOpen(a, Layout(s), frame, now)
         == if !Openable(s, frame, now) then []
            else VectorTake(Layout(s), LeNat(frame[..8]), Opened(Unsealed(a, s, frame)), now)
  {
    hide Layout, LeNat, Horner, D.Advice, D.Valid, D.Header, VectorAdvice, Opened, VectorTake;
    AdviceAgrees(s, now);
    if |frame| >= 24 {
      CounterAgrees(s, frame);
    }
  }

  lemma OpenedIs(r: Option<seq<byte>>)
    ensures var pt := Opened(r); (|pt| == 1 && pt[0] == -1) <==> r.None?
    ensures r.Some? ==> Opened(r) == r.value
  {
  }

  /** Opening in place and opening the vector accept the same frames and commit the same words. */
  lemma OpenAgrees(a: D.Aead, s: D.State, frame: seq<byte>, now: int)
    requires D.Valid(s) && D.Shaped(s) && |s.tx| == 32 && |s.rx| == 32 && D.Lawful(a) && |frame| <= 65535
    ensures var (t, plain) := D.Open(a, D.SetLength(s, |frame|), frame, 65536, now);
            VectorOpen(a, Layout(s), frame, now) == if plain.None? then [] else Layout(t) + plain.value
  {
    hide Layout, D.Open, VectorOpen, LeNat, D.Received, D.Shaped, D.Valid, D.SetLength, D.ReplayOk, D.Advice, Opened,
         Unsealed;
    var u := D.SetLength(s, |frame|);
    LengthOnly(s, |frame|);
    OpenParts(a, s, frame, now);
    VectorOpenParts(a, s, frame, now);
    SealedLayout(s, |frame|, now);
    if |frame| >= 24 {
      OpenedIs(Unsealed(a, s, frame));
      ReceivedLayout(u, LeNat(frame[..8]), now);
      TopAndCount(s);
    }
  }

  lemma TopAndCount(s: D.State)
    requires D.Shaped(s) && |s.tx| == 32 && |s.rx| == 32
    ensures Layout(s)[65] == s.top && Layout(s)[68] == s.received
  {
    LayoutWords(s);
  }

  lemma LengthOnly(s: D.State, count: nat)
    requires D.Shaped(s)
    ensures var u := D.SetLength(s, count);
            D.Shaped(u) && u.tx == s.tx && u.rx == s.rx && u.top == s.top && u.received == s.received
  {
  }

  // ---------------------------------------------------------------- the pruned set of counters

  datatype SetWindow = SetWindow(max: int, seen: set<nat>)

  predicate SetOk(w: SetWindow, n: nat) {
    n !in w.seen && (n > w.max || n > w.max - D.WINDOW)
  }

  function SetAccept(w: SetWindow, n: nat): SetWindow {
    var max := if n > w.max then n else w.max;
    var seen0 := w.seen + {n};
    SetWindow(max, if |seen0| > 2 * D.WINDOW then set x | x in seen0 && x > max - D.WINDOW else seen0)
  }

  /** `w` remembers every accepted counter that is still inside the window. */
  ghost predicate Remembers(w: SetWindow, acc: set<nat>) {
    && w.seen <= acc
    && (if acc == {} then w.max == -1 else w.max >= 0 && w.max in acc)
    && (forall n :: n in acc ==> n <= w.max && (n > w.max - D.WINDOW ==> n in w.seen))
    && |w.seen| <= 2 * D.WINDOW
  }

  lemma {:induction false} IntervalSize(xs: set<nat>, lo: int, width: nat)
    requires forall x :: x in xs ==> lo < x <= lo + width
    ensures |xs| <= width
    decreases width
  {
    if width == 0 {
      assert xs == {};
    } else {
      var ys := xs - {lo + width};
      IntervalSize(ys, lo, width - 1);
      assert |xs| <= |ys| + 1;
    }
  }

  /** Pruning never lets a counter back in, and the set never grows beyond twice the window. */
  lemma SetAcceptRemembers(w: SetWindow, acc: set<nat>, n: nat)
    requires Remembers(w, acc) && SetOk(w, n)
    ensures Remembers(SetAccept(w, n), acc + {n})
  {
    var t := SetAccept(w, n);
    if |w.seen + {n}| > 2 * D.WINDOW {
      IntervalSize(t.seen, t.max - D.WINDOW, D.WINDOW);
    }
  }

  /** The circular markers, the pruned set and the unbounded set of accepted counters agree. */
  lemma WindowsAgree(s: D.State, w: SetWindow, acc: set<nat>, n: nat)
    requires D.Window(s, acc) && Remembers(w, acc)
    ensures SetOk(w, n) <==> n !in acc && n > w.max - D.WINDOW
    ensures D.ReplayOk(s, n) <==> n < D.WIRE_LIMIT && SetOk(w, n)
  {
    D.WindowExact(s, acc, n);
    assert s.top == w.max;
  }
}
