/**
 The transport state of one Kekkai endpoint, as the region program keeps it:
 a send counter, the largest accepted counter (`top`), two clocks, an accepted
 count and 2048 replay markers, each holding `counter + 1` (zero: unseen).

 A wire frame is an 8-byte little-endian counter followed by the AEAD
 ciphertext; the counter bytes are the associated data.
 */
module Datagram {
  import opened Common

  const WIRE_LIMIT: nat := 9007199254740990
  const REKEY_COUNT: nat := 281474976710656
  const MAGIC: nat := 1313096753
  const WINDOW: nat := 2048

  /** The cipher is a parameter: `open` answers nothing when authentication fails.
      Arguments are key, nonce, associated data and text. */
  datatype Aead = Aead(
    seal: (seq<int>, seq<byte>, seq<byte>, seq<byte>) -> seq<byte>,
    open: (seq<int>, seq<byte>, seq<byte>, seq<byte>) -> Option<seq<byte>>)

  /** What the cipher promises on its own: a 16-byte tag, and decryption inverts encryption. */
  ghost predicate Lawful(a: Aead) {
    && (forall k, n, ad, p :: |a.seal(k, n, ad, p)| == |p| + 16)
    && (forall k, n, ad, p :: a.open(k, n, ad, a.seal(k, n, ad, p)) == Some(p))
    && (forall k, n, ad, c :: a.open(k, n, ad, c).Some? ==> |a.open(k, n, ad, c).value| + 16 == |c|)
  }

  /** The promises do not contradict each other: a cipher that only appends a fixed tag keeps them. */
  lemma LawfulExists()
    ensures exists a: Aead :: Lawful(a)
  {
    var tag: seq<byte> := seq(16, _ => 0);
    var a := Aead((k: seq<int>, n: seq<byte>, ad: seq<byte>, p: seq<byte>) => p + tag,
                  (k: seq<int>, n: seq<byte>, ad: seq<byte>, c: seq<byte>) =>
                    if |c| >= 16 && c[|c| - 16..] == tag then Some(c[..|c| - 16]) else None);
    forall k: seq<int>, n: seq<byte>, ad: seq<byte>, p: seq<byte>
      ensures a.open(k, n, ad, a.seal(k, n, ad, p)) == Some(p)
    {
      assert (p + tag)[|p + tag| - 16..] == tag && (p + tag)[..|p + tag| - 16] == p;
    }
    assert Lawful(a);
  }

  datatype State = State(
    magic: int, sent: int, top: int, born: int, clock: int, received: int, length: int, version: int,
    tx: seq<int>, rx: seq<int>, slots: seq<int>, peer: seq<byte>, transcript: seq<byte>)

  predicate Shaped(s: State) {
    |s.slots| == WINDOW
  }

  /** A region whose bytes are all zero. */
  function Blank(): State {
    State(0, 0, 0, 0, 0, 0, 0, 0, [], [], seq(WINDOW, _ => 0), [], [])
  }

  predicate Valid(s: State) {
    && s.magic == MAGIC && s.version == 1
    && 0 <= s.sent <= WIRE_LIMIT
    && -1 <= s.top < WIRE_LIMIT
    && 0 <= s.born <= s.clock
    && 0 <= s.received <= WIRE_LIMIT
    && 0 <= s.length <= 65535
  }

  /** 2: refuse, 1: traffic allowed but a new handshake is due, 0: current. */
  function Advice(s: State, now: int): int {
    if !Valid(s) then 2
    else if now < s.clock || now - s.born >= 180 || s.sent >= WIRE_LIMIT || s.received >= WIRE_LIMIT then 2
    else if now - s.born >= 120 || s.sent >= REKEY_COUNT then 1
    else 0
  }

  datatype Handshake = Handshake(status: int, peer: seq<byte>, transcript: seq<byte>, tx: seq<int>, rx: seq<int>)

  function Fresh(hs: Handshake, now: int): State {
    State(MAGIC, 0, -1, now, now, 0, 0, 1, hs.tx, hs.rx, seq(WINDOW, _ => 0), hs.peer, hs.transcript)
  }

  /** Whatever its words say, a state serves exactly while every word is in its range, the clock has not
      gone back, and neither the 180 seconds nor a counter have run out. */
  lemma ServesExact(s: State, now: int)
    ensures Advice(s, now) != 2 <==>
              && s.magic == 1313096753 && s.version == 1 && -1 <= s.top < 9007199254740990 && 0 <= s.length <= 65535
              && 0 <= s.sent < 9007199254740990 && 0 <= s.received < 9007199254740990
              && 0 <= s.born <= s.clock <= now < s.born + 180
  {
  }

  /** A session starts only from a completed handshake with the expected peer. */
  function FromHandshake(hs: Handshake, expected: seq<byte>, now: int): Option<State> {
    if |expected| != 32 || now < 0 || hs.status != 3 || hs.peer != expected then None else Some(Fresh(hs, now))
  }

  /** Exactly then, and the session holds the handshake's keys, each in its place, and nothing else yet. */
  lemma HandshakeExact(hs: Handshake, expected: seq<byte>, now: int)
    ensures FromHandshake(hs, expected, now).Some? <==>
              hs.status == 3 && |expected| == 32 && hs.peer == expected && now >= 0
    ensures FromHandshake(hs, expected, now).Some? ==>
              var s := FromHandshake(hs, expected, now).value;
              && s.tx == hs.tx && s.rx == hs.rx && s.peer == expected && s.transcript == hs.transcript
              && s.sent == 0 && s.received == 0 && s.length == 0 && s.top == -1 && s.born == s.clock == now
              && |s.slots| == 2048 && (forall k :: 0 <= k < 2048 ==> s.slots[k] == 0)
              && s.magic == 1313096753 && s.version == 1
  {
  }

  function SetLength(s: State, count: int): State {
    if 0 <= count <= 65535 && Valid(s) then s.(length := count) else s
  }

  function Header(n: nat): seq<byte> {
    LeBytes(n, 8)
  }

  function Nonce(n: nat): seq<byte> {
    [0, 0, 0, 0] + Header(n)
  }

  function SealGuard(s: State, input: seq<byte>, capacity: nat, now: int): (ok: bool)
    ensures ok ==> 0 <= s.length <= |input| && 0 <= s.sent
  {
    && |input| <= 65536 && capacity <= 65536
    && Advice(s, now) != 2
    && s.length <= 65511 && s.length <= |input| && s.length + 24 <= capacity
  }

  function Sealed(s: State, now: int): State {
    s.(sent := s.sent + 1, clock := now)
  }

  function Seal(a: Aead, s: State, input: seq<byte>, capacity: nat, now: int): (State, Option<seq<byte>>) {
    if !SealGuard(s, input, capacity, now) then (s, None)
    else
      var ct := a.seal(s.tx, Nonce(s.sent), Header(s.sent), input[..s.length]);
      if |ct| != s.length + 16 then (s, None)
      else (Sealed(s, now), Some(Header(s.sent) + ct))
  }

  predicate ReplayOk(s: State, n: nat)
    requires Shaped(s)
  {
    && n < WIRE_LIMIT
    && s.slots[n % WINDOW] != n + 1
    && !(n <= s.top && n <= s.top - WINDOW)
  }

  function Received(s: State, n: nat, now: int): (t: State)
    requires Shaped(s)
    ensures Shaped(t)
  {
    s.(slots := s.slots[n % WINDOW := n + 1], top := if n > s.top then n else s.top,
       received := s.received + 1, clock := now)
  }

  function OpenGuard(s: State, input: seq<byte>, capacity: nat, now: int): (ok: bool)
    ensures ok ==> 24 <= s.length <= |input|
  {
    && |input| <= 65536 && capacity <= 65536
    && Advice(s, now) != 2
    && 24 <= s.length <= |input| && s.length - 24 <= capacity
    && input[7] == 0 && input[6] <= 31
  }

  function Authentic(a: Aead, s: State, input: seq<byte>): Option<seq<byte>>
    requires 24 <= s.length <= |input|
  {
    var n := LeNat(input[..8]);
    a.open(s.rx, Nonce(n), Header(n), input[8..s.length])
  }

  function Open(a: Aead, s: State, input: seq<byte>, capacity: nat, now: int): (r: (State, Option<seq<byte>>))
    requires Shaped(s)
    ensures Shaped(r.0)
  {
    if !OpenGuard(s, input, capacity, now) then (s, None)
    else if !ReplayOk(s, LeNat(input[..8])) then (s, None)
    else
      var plain := Authentic(a, s, input);
      if plain.None? || |plain.value| != s.length - 24 then (s, None)
      else (Received(s, LeNat(input[..8]), now), plain)
  }

  // ---------------------------------------------------------------- the window

  /** The markers and `top` describe exactly the set `acc` of accepted counters. */
  ghost predicate Window(s: State, acc: set<nat>) {
    && Shaped(s)
    && s.received == |acc|
    && (if acc == {} then s.top == -1 else s.top >= 0 && s.top in acc)
    && (forall n :: n in acc ==> n <= s.top && n < WIRE_LIMIT)
    && (forall k :: 0 <= k < WINDOW ==> Marker(s.slots[k], k, acc))
  }

  ghost predicate Marker(m: int, k: nat, acc: set<nat>) {
    if m == 0 then forall n :: n in acc ==> n % WINDOW != k
    else
      && m >= 1 && m - 1 in acc && (m - 1) % WINDOW == k
      && forall n :: n in acc && n % WINDOW == k ==> n <= m - 1
  }

  lemma FreshWindow(hs: Handshake, now: int)
    ensures Window(Fresh(hs, now), {})
  {
  }

  /** A counter that shares a slot with a larger accepted one is outside the window. */
  lemma SharedSlotIsOld(s: State, acc: set<nat>, n: nat)
    requires Window(s, acc) && n > s.top - WINDOW
    ensures s.slots[n % WINDOW] - 1 <= n
  {
    var k := n % WINDOW;
    assert Marker(s.slots[k], k, acc);
    Apart(n, s.slots[k] - 1, WINDOW);
  }

  /** A larger number in the same residue class is at least one modulus away. */
  lemma Apart(a: nat, b: int, m: nat)
    requires m > 0
    ensures a < b && a % m == b % m ==> b >= a + m
  {
    if a <= b < a + m && a % m == b % m {
      CloseCongruent(a, b, m);
    }
  }

  /** The 2048 markers decide membership in the unbounded set: a counter passes
      exactly when it fits the wire, is inside the window and was never accepted. */
  lemma WindowExact(s: State, acc: set<nat>, n: nat)
    requires Window(s, acc)
    ensures ReplayOk(s, n) <==> n < 9007199254740990 && n > s.top - 2048 && n !in acc
  {
    var k := n % WINDOW;
    assert Marker(s.slots[k], k, acc);
    if n > s.top - WINDOW {
      SharedSlotIsOld(s, acc, n);
    }
  }

  /** Accepting a counter keeps the markers exact, although it may overwrite one. */
  lemma ReceivedWindow(s: State, acc: set<nat>, n: nat, now: int)
    requires Window(s, acc) && ReplayOk(s, n)
    ensures Window(Received(s, n, now), acc + {n})
  {
    WindowExact(s, acc, n);
    SharedSlotIsOld(s, acc, n);
    var t, k := Received(s, n, now), n % WINDOW;
    assert Marker(s.slots[k], k, acc);
    assert Marker(t.slots[k], k, acc + {n});
    forall j | 0 <= j < WINDOW && j != k
      ensures Marker(t.slots[j], j, acc + {n})
    {
      assert Marker(s.slots[j], j, acc);
    }
  }

  /** The two byte tests on the header only exclude counters the wire limit excludes. */
  lemma {:induction false} HeaderBytes(h: seq<byte>)
    requires |h| == 8
    ensures h[7] == 0 && h[6] <= 31 <==> LeNat(h) < 0x20000000000000
  {
    var b0: int, b1: int, b2: int, b3: int := h[0], h[1], h[2], h[3];
    var b4: int, b5: int, b6: int, b7: int := h[4], h[5], h[6], h[7];
    assert LeNat(h) == b0 + 256 * (b1 + 256 * (b2 + 256 * (b3 + 256 * (b4 + 256 * (b5 + 256 * (b6 + 256 * b7)))))) by {
      LeNatStep(h); LeNatStep(h[1..]); LeNatStep(h[2..]); LeNatStep(h[3..]);
      LeNatStep(h[4..]); LeNatStep(h[5..]); LeNatStep(h[6..]); LeNatStep(h[7..]);
    }
  }

  lemma LeNatStep(h: seq<byte>)
    requires h != []
    ensures LeNat(h) == h[0] + 256 * LeNat(h[1..])
    ensures forall i :: 0 <= i < |h| - 1 ==> h[1..][i] == h[i + 1]
    ensures forall i :: 0 <= i <= |h| - 1 ==> h[1..][i..] == h[i + 1..]
  {
  }

  /** A frame is delivered exactly when the session is alive, the sizes fit, the counter is
      new and inside the window, and the cipher authenticates it. */
  lemma OpenExact(a: Aead, s: State, acc: set<nat>, input: seq<byte>, capacity: nat, now: int)
    requires Window(s, acc) && Lawful(a)
    ensures Open(a, s, input, capacity, now).1.Some? <==>
              && Valid(s) && s.clock <= now < s.born + 180 && s.sent < 9007199254740990 && |acc| < 9007199254740990
              && |input| <= 65536 && capacity <= 65536 && 24 <= s.length <= |input| && s.length - 24 <= capacity
              && (var n := LeNat(input[..8]);
                  && s.top - 2048 < n < 9007199254740990 && n !in acc
                  && Authentic(a, s, input).Some?)
  {
    if 24 <= s.length <= |input| {
      var h := input[..8];
      HeaderBytes(h);
      assert h[7] == input[7] && h[6] == input[6];
      WindowExact(s, acc, LeNat(h));
    }
  }

  /** Every refusal leaves the state as it was; every delivery adds exactly its counter. */
  lemma OpenKeepsWindow(a: Aead, s: State, acc: set<nat>, input: seq<byte>, capacity: nat, now: int)
    requires Window(s, acc)
    ensures var (t, out) := Open(a, s, input, capacity, now);
            if out.None? then t == s
            else |input| >= 8 && ReplayOk(s, LeNat(input[..8])) && Window(t, acc + {LeNat(input[..8])})
  {
    if OpenGuard(s, input, capacity, now) && ReplayOk(s, LeNat(input[..8])) {
      ReceivedWindow(s, acc, LeNat(input[..8]), now);
    }
  }

  // ---------------------------------------------------------------- whole runs of one endpoint

  datatype Op =
    | DoLength(count: int)
    | DoSeal(data: seq<byte>, capacity: nat, now: int)
    | DoOpen(frame: seq<byte>, capacity: nat, now: int)

  function Step(a: Aead, s: State, op: Op): (t: State)
    requires Shaped(s)
    ensures Shaped(t)
  {
    match op
    case DoLength(count) => SetLength(s, count)
    case DoSeal(data, capacity, now) => Seal(a, s, data, capacity, now).0
    case DoOpen(frame, capacity, now) => Open(a, s, frame, capacity, now).0
  }

  /** The state after the operations, and the counters accepted on the way, oldest first. */
  function Run(a: Aead, s: State, ops: seq<Op>): (t: State)
    requires Shaped(s)
    ensures Shaped(t)
  {
    if ops == [] then s else Step(a, Run(a, s, ops[..|ops| - 1]), ops[|ops| - 1])
  }

  function AcceptedBy(a: Aead, s: State, op: Op): seq<nat>
    requires Shaped(s)
  {
    if op.DoOpen? && Open(a, s, op.frame, op.capacity, op.now).1.Some? then [LeNat(op.frame[..8])] else []
  }

  function Accepted(a: Aead, s: State, ops: seq<Op>): seq<nat>
    requires Shaped(s)
  {
    if ops == [] then []
    else Accepted(a, s, ops[..|ops| - 1]) + AcceptedBy(a, Run(a, s, ops[..|ops| - 1]), ops[|ops| - 1])
  }

  ghost function SetOf(xs: seq<nat>): set<nat> {
    set x | x in xs
  }

  ghost predicate Distinct<T>(xs: seq<T>) {
    forall i, j :: 0 <= i < j < |xs| ==> xs[i] != xs[j]
  }

  lemma StepWindow(a: Aead, s: State, log: seq<nat>, op: Op)
    requires Window(s, SetOf(log)) && Distinct(log)
    ensures Window(Step(a, s, op), SetOf(log + AcceptedBy(a, s, op))) && Distinct(log + AcceptedBy(a, s, op))
  {
    var more := AcceptedBy(a, s, op);
    if op.DoOpen? {
      OpenKeepsWindow(a, s, SetOf(log), op.frame, op.capacity, op.now);
    }
    if more == [] {
      assert log + more == log;
    } else {
      WindowExact(s, SetOf(log), more[0]);
      assert more[0] !in log;
      assert SetOf(log + more) == SetOf(log) + {more[0]};
    }
  }

  /** In every run no counter is ever accepted twice, and the markers stay exact. */
  lemma {:induction false} RunWindow(a: Aead, hs: Handshake, start: int, ops: seq<Op>)
    ensures var s, log := Run(a, Fresh(hs, start), ops), Accepted(a, Fresh(hs, start), ops);
            Window(s, SetOf(log)) && Distinct(log)
  {
    if ops == [] {
      FreshWindow(hs, start);
    } else {
      var pre := ops[..|ops| - 1];
      RunWindow(a, hs, start, pre);
      StepWindow(a, Run(a, Fresh(hs, start), pre), Accepted(a, Fresh(hs, start), pre), ops[|ops| - 1]);
    }
  }

  /** `top` never goes down, so a counter that fell out of the window stays refused for ever. */
  lemma {:induction false} TooOldForEver(a: Aead, s: State, ops: seq<Op>, n: nat)
    requires Shaped(s) && n <= s.top - WINDOW
    ensures Run(a, s, ops).top >= s.top && !ReplayOk(Run(a, s, ops), n)
  {
    if ops != [] {
      TooOldForEver(a, s, ops[..|ops| - 1], n);
    }
  }

  lemma StepValid(a: Aead, s: State, op: Op)
    requires Shaped(s) && Valid(s)
    ensures Valid(Step(a, s, op))
  {
  }

  /** Every state that a finished handshake leads to is valid. */
  lemma {:induction false} RunValid(a: Aead, hs: Handshake, start: nat, ops: seq<Op>)
    ensures Valid(Run(a, Fresh(hs, start), ops))
  {
    if ops != [] {
      RunValid(a, hs, start, ops[..|ops| - 1]);
      StepValid(a, Run(a, Fresh(hs, start), ops[..|ops| - 1]), ops[|ops| - 1]);
    }
  }

  /** After every run from a handshake: a frame is delivered exactly when the session is alive, the
      sizes fit, its counter is on the wire, in the window and was never accepted, and it is authentic. */
  lemma ReachableExact(a: Aead, hs: Handshake, start: nat, ops: seq<Op>, input: seq<byte>, capacity: nat, now: int)
    requires Lawful(a)
    ensures var s, log := Run(a, Fresh(hs, start), ops), Accepted(a, Fresh(hs, start), ops);
            Open(a, s, input, capacity, now).1.Some? <==>
              && s.clock <= now < s.born + 180 && s.sent < 9007199254740990 && |SetOf(log)| < 9007199254740990
              && |input| <= 65536 && capacity <= 65536 && 24 <= s.length <= |input| && s.length - 24 <= capacity
              && (var n := LeNat(input[..8]);
                  && s.top - 2048 < n < 9007199254740990 && n !in log
                  && Authentic(a, s, input).Some?)
  {
    hide Run, Accepted, Open, Valid, Window, Lawful, LeNat, Authentic;
    var s, log := Run(a, Fresh(hs, start), ops), Accepted(a, Fresh(hs, start), ops);
    RunValid(a, hs, start, ops);
    RunWindow(a, hs, start, ops);
    OpenExact(a, s, SetOf(log), input, capacity, now);
  }

  /** Whether traffic may go on, and whether a new handshake is due, in seconds and counts. */
  lemma AdviceExact(a: Aead, hs: Handshake, start: nat, ops: seq<Op>, now: int)
    ensures var s := Run(a, Fresh(hs, start), ops);
            Advice(s, now) ==
              if now < s.clock || now >= s.born + 180 || s.sent >= 9007199254740990
                  || s.received >= 9007199254740990 then 2
              else if now >= s.born + 120 || s.sent >= 281474976710656 then 1 else 0
  {
    hide Run, Valid;
    RunValid(a, hs, start, ops);
  }

  /** After every run from a handshake: a text is sealed exactly when the session is alive and the sizes
      fit. The frame is the counter, then the ciphertext under the handshake's own sending key; the counter
      goes up by one and the clock to now. */
  lemma SealExact(a: Aead, hs: Handshake, start: nat, ops: seq<Op>, input: seq<byte>, capacity: nat, now: int)
    requires Lawful(a)
    ensures var s := Run(a, Fresh(hs, start), ops);
            var (t, frame) := Seal(a, s, input, capacity, now);
            && (frame.Some? <==>
                  && s.clock <= now < s.born + 180 && s.sent < 9007199254740990 && s.received < 9007199254740990
                  && |input| <= 65536 && capacity <= 65536 && s.length <= 65511 && s.length <= |input|
                  && s.length + 24 <= capacity)
            && (if frame.None? then t == s
                else && 0 <= s.length <= |input| && 0 <= s.sent && t == s.(sent := s.sent + 1, clock := now)
                     && var counter := LeBytes(s.sent, 8);
                        frame.value == counter + a.seal(hs.tx, [0, 0, 0, 0] + counter, counter, input[..s.length]))
  {
    hide Run, LeBytes;
    RunValid(a, hs, start, ops);
    RunKeys(a, hs, start, ops);
  }

  /** No operation touches the keys, the peer or the hour of birth. */
  lemma {:induction false} RunKeys(a: Aead, hs: Handshake, start: int, ops: seq<Op>)
    ensures var s := Run(a, Fresh(hs, start), ops);
            s.tx == hs.tx && s.rx == hs.rx && s.peer == hs.peer && s.transcript == hs.transcript && s.born == start
  {
    if ops != [] {
      RunKeys(a, hs, start, ops[..|ops| - 1]);
    }
  }

  /** What an arriving frame is opened with: the receiving key, and the counter it carries. */
  lemma AuthenticExact(a: Aead, hs: Handshake, start: nat, ops: seq<Op>, input: seq<byte>)
    requires var s := Run(a, Fresh(hs, start), ops); 24 <= s.length <= |input|
    ensures var s := Run(a, Fresh(hs, start), ops);
            Authentic(a, s, input) == a.open(hs.rx, [0, 0, 0, 0] + input[..8], input[..8], input[8..s.length])
  {
    hide Run, LeBytes;
    RunKeys(a, hs, start, ops);
    LeBytesOfLeNat(input[..8]);
  }
}
