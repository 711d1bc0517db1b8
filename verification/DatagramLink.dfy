/**
 Two endpoints and a network that may drop, repeat, reorder, alter or invent
 frames. The one assumption about the network is the cipher's: a frame that
 authenticates under a receive key is a frame the peer sealed.
 */
module DatagramLink {
  import opened Common
  import D = Datagram

  datatype Delivery = Delivery(counter: nat, text: seq<byte>)

  /** One endpoint with its history: plaintexts and frames it sealed, and what it delivered. */
  datatype End = End(state: D.State, sealed: seq<seq<byte>>, frames: seq<seq<byte>>, delivered: seq<Delivery>)

  datatype Link = Link(left: End, right: End)

  datatype Event =
    | Size(atLeft: bool, count: int)
    | Send(atLeft: bool, data: seq<byte>, capacity: nat, now: int)
    | Arrive(atLeft: bool, bytes: seq<byte>, capacity: nat, now: int)

  function Me(l: Link, atLeft: bool): End {
    if atLeft then l.left else l.right
  }

  function Put(l: Link, atLeft: bool, e: End): Link {
    if atLeft then l.(left := e) else l.(right := e)
  }

  function SendAt(a: D.Aead, e: End, data: seq<byte>, capacity: nat, now: int): End {
    var (t, frame) := D.Seal(a, e.state, data, capacity, now);
    if frame.None? then e.(state := t)
    else e.(state := t, sealed := e.sealed + [if 0 <= e.state.length <= |data| then data[..e.state.length] else data],
            frames := e.frames + [frame.value])
  }

  function ArriveAt(a: D.Aead, e: End, bytes: seq<byte>, capacity: nat, now: int): End
    requires D.Shaped(e.state)
  {
    var (t, text) := D.Open(a, e.state, bytes, capacity, now);
    if text.None? || |bytes| < 8 then e.(state := t)
    else e.(state := t, delivered := e.delivered + [Delivery(LeNat(bytes[..8]), text.value)])
  }

  ghost predicate Shaped(l: Link) {
    D.Shaped(l.left.state) && D.Shaped(l.right.state)
  }

  function Next(a: D.Aead, l: Link, ev: Event): Link
    requires D.Shaped(l.left.state) && D.Shaped(l.right.state)
  {
    var e := Me(l, ev.atLeft);
    match ev
    case Size(atLeft, count) => Put(l, atLeft, e.(state := D.SetLength(e.state, count)))
    case Send(atLeft, data, capacity, now) => Put(l, atLeft, SendAt(a, e, data, capacity, now))
    case Arrive(atLeft, bytes, capacity, now) => Put(l, atLeft, ArriveAt(a, e, bytes, capacity, now))
  }

  /** No forgery: what authenticates at this endpoint is, byte for byte, a frame its peer sealed. */
  ghost predicate NoForgery(a: D.Aead, l: Link, ev: Event) {
    ev.Arrive? ==>
      var s := Me(l, ev.atLeft).state;
      (24 <= s.length <= |ev.bytes| && D.Authentic(a, s, ev.bytes).Some?) ==>
        ev.bytes[..s.length] in Me(l, !ev.atLeft).frames
  }

  function Play(a: D.Aead, l: Link, evs: seq<Event>): (m: Link)
    requires D.Shaped(l.left.state) && D.Shaped(l.right.state)
    ensures D.Shaped(m.left.state) && D.Shaped(m.right.state)
  {
    if evs == [] then l else Next(a, Play(a, l, evs[..|evs| - 1]), evs[|evs| - 1])
  }

  ghost predicate Honest(a: D.Aead, l: Link, evs: seq<Event>)
    requires Shaped(l)
  {
    forall i :: 0 <= i < |evs| ==> NoForgery(a, Play(a, l, evs[..i]), evs[i])
  }

  /** The two ends' results of one handshake: what one sends with, the other receives with. */
  predicate Crossed(left: D.Handshake, right: D.Handshake) { left.tx == right.rx && left.rx == right.tx }

  /** A link starts when both ends have finished a handshake with the peer they expect. */
  ghost predicate Starts(l: Link, left: D.Handshake, right: D.Handshake, atLeft: seq<byte>, atRight: seq<byte>,
                         now: int) {
    && Crossed(left, right)
    && Some(l.left.state) == D.FromHandshake(left, atLeft, now)
    && Some(l.right.state) == D.FromHandshake(right, atRight, now)
    && l.left == End(l.left.state, [], [], []) && l.right == End(l.right.state, [], [], [])
  }

  // ---------------------------------------------------------------- invariants

  function Counters(ds: seq<Delivery>): (cs: seq<nat>)
    ensures |cs| == |ds|
  {
    seq(|ds|, i requires 0 <= i < |ds| => ds[i].counter)
  }

  /** Frame `i` carries counter `i` and the text sealed with it; the send counter is their number. */
  ghost predicate SentOk(a: D.Aead, e: End) {
    && |e.sealed| == |e.frames| == e.state.sent <= D.WIRE_LIMIT
    && forall i :: 0 <= i < |e.frames| ==>
         e.frames[i] == D.Header(i) + a.seal(e.state.tx, D.Nonce(i), D.Header(i), e.sealed[i])
  }

  ghost predicate DeliveredOk(e: End, from: End) {
    && D.Window(e.state, D.SetOf(Counters(e.delivered)))
    && D.Distinct(Counters(e.delivered))
    && forall i :: 0 <= i < |e.delivered| ==>
         e.delivered[i].counter < |from.sealed| && e.delivered[i].text == from.sealed[e.delivered[i].counter]
  }

  ghost predicate Inv(a: D.Aead, l: Link) {
    && l.left.state.tx == l.right.state.rx && l.right.state.tx == l.left.state.rx
    && SentOk(a, l.left) && SentOk(a, l.right)
    && DeliveredOk(l.left, l.right) && DeliveredOk(l.right, l.left)
  }

  /** The keys that the two ends hold are those of the handshake. */
  ghost predicate Keyed(l: Link, left: D.Handshake, right: D.Handshake) {
    l.left.state.tx == left.tx && l.left.state.rx == left.rx && l.right.state.tx == right.tx
        && l.right.state.rx == right.rx
  }

  lemma StartInv(a: D.Aead, l: Link, left: D.Handshake, right: D.Handshake, atLeft: seq<byte>, atRight: seq<byte>,
                 now: int)
    requires Starts(l, left, right, atLeft, atRight, now)
    ensures Inv(a, l) && Keyed(l, left, right)
  {
    D.HandshakeExact(left, atLeft, now);
    D.HandshakeExact(right, atRight, now);
    assert D.SetOf(Counters(l.left.delivered)) == {};
    assert D.SetOf(Counters(l.right.delivered)) == {};
  }

  lemma SendKeeps(a: D.Aead, e: End, other: End, data: seq<byte>, capacity: nat, now: int)
    requires SentOk(a, e) && DeliveredOk(e, other) && DeliveredOk(other, e)
    ensures var f := SendAt(a, e, data, capacity, now);
            && SentOk(a, f) && DeliveredOk(f, other) && DeliveredOk(other, f)
            && f.state.tx == e.state.tx && f.state.rx == e.state.rx
  {
  }

  /** A frame of the peer's log decodes to its own index and text. */
  lemma FrameDecodes(a: D.Aead, from: End, i: nat, bytes: seq<byte>)
    requires D.Lawful(a) && SentOk(a, from) && i < |from.frames| && bytes == from.frames[i]
    ensures |bytes| == |from.sealed[i]| + 24 && LeNat(bytes[..8]) == i
    ensures a.open(from.state.tx, D.Nonce(i), D.Header(i), bytes[8..]) == Some(from.sealed[i])
  {
    assert i < 0x20000000000000 <= Pow256(8);
    LeNatOfLeBytes(i, 8);
    assert bytes[..8] == D.Header(i);
    assert bytes[8..] == a.seal(from.state.tx, D.Nonce(i), D.Header(i), from.sealed[i]);
  }

  /** What authenticates is delivered as the peer sealed it, under the peer's counter. */
  lemma ArrivalIsSealed(a: D.Aead, e: End, from: End, bytes: seq<byte>)
    requires D.Lawful(a) && SentOk(a, from) && e.state.rx == from.state.tx
    requires 24 <= e.state.length <= |bytes| && bytes[..e.state.length] in from.frames
    ensures var n := LeNat(bytes[..8]);
            n < |from.sealed| && D.Authentic(a, e.state, bytes) == Some(from.sealed[n])
  {
    hide LeNat, D.Header, D.Nonce;
    var wire := bytes[..e.state.length];
    var i :| 0 <= i < |from.frames| && from.frames[i] == wire;
    FrameDecodes(a, from, i, wire);
    assert wire[..8] == bytes[..8] && wire[8..] == bytes[8..e.state.length];
  }

  lemma CountersAppend(ds: seq<Delivery>, d: Delivery)
    ensures Counters(ds + [d]) == Counters(ds) + [d.counter]
    ensures D.SetOf(Counters(ds + [d])) == D.SetOf(Counters(ds)) + {d.counter}
  {
    assert Counters(ds + [d]) == Counters(ds) + [d.counter];
  }

  /** One more counter in the window and one more text in the log. */
  lemma DeliverOne(e: End, from: End, t: D.State, n: nat)
    requires DeliveredOk(e, from) && n < |from.sealed| && n !in D.SetOf(Counters(e.delivered))
    requires D.Window(t, D.SetOf(Counters(e.delivered)) + {n})
    ensures DeliveredOk(e.(state := t, delivered := e.delivered + [Delivery(n, from.sealed[n])]), from)
  {
    hide D.Window;
    CountersAppend(e.delivered, Delivery(n, from.sealed[n]));
    assert forall i :: 0 <= i < |e.delivered| ==> Counters(e.delivered)[i] in D.SetOf(Counters(e.delivered));
  }

  lemma ArriveKeeps(a: D.Aead, e: End, from: End, bytes: seq<byte>, capacity: nat, now: int)
    requires D.Lawful(a) && SentOk(a, e) && SentOk(a, from) && DeliveredOk(e, from) && e.state.rx == from.state.tx
    requires (24 <= e.state.length <= |bytes| && D.Authentic(a, e.state, bytes).Some?) ==>
               bytes[..e.state.length] in from.frames
    ensures var f := ArriveAt(a, e, bytes, capacity, now);
            && SentOk(a, f) && DeliveredOk(f, from)
            && f.frames == e.frames && f.sealed == e.sealed && f.state.tx == e.state.tx && f.state.rx == e.state.rx
  {
    assert D.Shaped(e.state);
    hide D.Window, LeNat;
    var acc := D.SetOf(Counters(e.delivered));
    D.OpenKeepsWindow(a, e.state, acc, bytes, capacity, now);
    if D.Open(a, e.state, bytes, capacity, now).1.Some? {
      var n := LeNat(bytes[..8]);
      ArrivalIsSealed(a, e, from, bytes);
      D.WindowExact(e.state, acc, n);
      DeliverOne(e, from, D.Open(a, e.state, bytes, capacity, now).0, n);
    }
  }

  lemma SizeKeeps(a: D.Aead, e: End, other: End, count: int)
    requires SentOk(a, e) && DeliveredOk(e, other) && DeliveredOk(other, e)
    ensures var f := e.(state := D.SetLength(e.state, count));
            && SentOk(a, f) && DeliveredOk(f, other) && DeliveredOk(other, f)
            && f.state.tx == e.state.tx && f.state.rx == e.state.rx
  {
  }

  lemma NextInv(a: D.Aead, l: Link, ev: Event)
    requires D.Lawful(a) && Inv(a, l) && NoForgery(a, l, ev)
    ensures Inv(a, Next(a, l, ev))
  {
    assert D.Shaped(l.left.state) && D.Shaped(l.right.state);
    hide SentOk, DeliveredOk, SendAt, ArriveAt, D.SetLength;
    var me, other := Me(l, ev.atLeft), Me(l, !ev.atLeft);
    match ev
    case Size(_, count) =>
      SizeKeeps(a, me, other, count);
    case Send(_, data, capacity, now) =>
      SendKeeps(a, me, other, data, capacity, now);
    case Arrive(_, bytes, capacity, now) =>
      ArriveKeeps(a, me, other, bytes, capacity, now);
      LogOnly(other, me, ArriveAt(a, me, bytes, capacity, now));
  }

  /** What the other side has delivered depends on the texts sealed here, and on nothing else. */
  lemma LogOnly(e: End, from: End, later: End)
    requires DeliveredOk(e, from) && later.sealed == from.sealed
    ensures DeliveredOk(e, later)
  {
  }

  lemma NextKeyed(a: D.Aead, l: Link, ev: Event, left: D.Handshake, right: D.Handshake)
    requires Keyed(l, left, right) && Shaped(l)
    ensures Keyed(Next(a, l, ev), left, right)
  {
  }

  lemma InvShaped(a: D.Aead, l: Link)
    requires Inv(a, l)
    ensures Shaped(l)
  {
  }

  lemma {:induction false} PlayInv(a: D.Aead, l: Link, evs: seq<Event>, left: D.Handshake, right: D.Handshake)
    requires D.Lawful(a) && Inv(a, l) && Keyed(l, left, right) && Shaped(l) && Honest(a, l, evs)
    ensures Inv(a, Play(a, l, evs)) && Keyed(Play(a, l, evs), left, right)
  {
    hide Inv, Keyed, NoForgery, Next, D.Lawful;
    if evs != [] {
      var pre := evs[..|evs| - 1];
      assert forall i :: 0 <= i < |pre| ==> pre[..i] == evs[..i];
      PlayInv(a, l, pre, left, right);
      NextInv(a, Play(a, l, pre), evs[|evs| - 1]);
      NextKeyed(a, Play(a, l, pre), evs[|evs| - 1], left, right);
    }
  }

  /** A frame names its counter, then the text sealed under `key` with that counter. */
  ghost predicate SealedUnder(a: D.Aead, e: End, key: seq<int>) {
    && |e.frames| == |e.sealed|
    && forall i :: 0 <= i < |e.frames| ==>
         && i < 9007199254740990
         && e.frames[i] == LeBytes(i, 8) + a.seal(key, [0, 0, 0, 0] + LeBytes(i, 8), LeBytes(i, 8), e.sealed[i])
  }

  /** Each end sends under the key that its own handshake gave it for sending. */
  lemma FramesKeyed(a: D.Aead, l: Link, left: D.Handshake, right: D.Handshake)
    requires Inv(a, l) && Keyed(l, left, right)
    ensures SealedUnder(a, l.left, left.tx) && SealedUnder(a, l.right, right.tx)
  {
    hide LeBytes, DeliveredOk;
  }

  /** Safety of the whole link, in either direction and for every behaviour of the network:
      delivered counters never repeat, each delivered text is the one the peer sealed under that
      counter, and every emitted frame carries its own counter, below the wire limit, and its text
      sealed under the handshake's key for that direction. */
  lemma Safety(a: D.Aead, l: Link, left: D.Handshake, right: D.Handshake, atLeft: seq<byte>, atRight: seq<byte>,
               now: int,
               evs: seq<Event>, side: bool)
    requires D.Lawful(a) && Starts(l, left, right, atLeft, atRight, now) && Honest(a, l, evs)
    ensures var m := Play(a, l, evs);
            var me, peer := Me(m, side), Me(m, !side);
            && (forall i, j :: 0 <= i < j < |me.delivered| ==> me.delivered[i].counter != me.delivered[j].counter)
            && (forall d :: d in me.delivered ==> d.counter < |peer.sealed| && d.text == peer.sealed[d.counter])
            && SealedUnder(a, m.left, left.tx) && SealedUnder(a, m.right, left.rx)
            && m.left.state.peer == atLeft && m.right.state.peer == atRight
  {
    StartInv(a, l, left, right, atLeft, atRight, now);
    PlayInv(a, l, evs, left, right);
    var m := Play(a, l, evs);
    FramesKeyed(a, m, left, right);
    PlayPeers(a, l, evs);
    D.HandshakeExact(left, atLeft, now);
    D.HandshakeExact(right, atRight, now);
    hide SealedUnder, D.FromHandshake, Honest, Play;
    var me, peer := Me(m, side), Me(m, !side);
    forall i, j | 0 <= i < j < |me.delivered|
      ensures me.delivered[i].counter != me.delivered[j].counter
    {
      assert Counters(me.delivered)[i] != Counters(me.delivered)[j];
    }
  }

  /** No event changes whom an end is talking to. */
  lemma {:induction false} PlayPeers(a: D.Aead, l: Link, evs: seq<Event>)
    requires Shaped(l)
    ensures Play(a, l, evs).left.state.peer == l.left.state.peer
            && Play(a, l, evs).right.state.peer == l.right.state.peer
  {
    if evs != [] {
      PlayPeers(a, l, evs[..|evs| - 1]);
    }
  }

  lemma CounterMember(ds: seq<Delivery>, i: nat)
    ensures i in D.SetOf(Counters(ds)) <==> exists d :: d in ds && d.counter == i
  {
    if d :| d in ds && d.counter == i {
      var k :| 0 <= k < |ds| && ds[k] == d;
      assert Counters(ds)[k] == i;
    }
    if i in Counters(ds) {
      var k :| 0 <= k < |ds| && Counters(ds)[k] == i;
      assert ds[k] in ds && ds[k].counter == i;
    }
  }

  lemma GenuineArrival(a: D.Aead, me: End, peer: End, i: nat, now: int)
    requires D.Lawful(a) && SentOk(a, peer) && DeliveredOk(me, peer) && me.state.rx == peer.state.tx
    requires i < |peer.frames| && me.state.length == |peer.frames[i]| && D.Advice(me.state, now) != 2
    ensures D.Open(a, me.state, peer.frames[i], 65536, now).1
         == if i > me.state.top - D.WINDOW && i !in D.SetOf(Counters(me.delivered)) then Some(peer.sealed[i]) else None
  {
    var bytes := peer.frames[i];
    FrameDecodes(a, peer, i, bytes);
    assert bytes[8..me.state.length] == bytes[8..];
    D.OpenExact(a, me.state, D.SetOf(Counters(me.delivered)), bytes, 65536, now);
  }

  /** Nothing genuine is refused inside the window: frame `i` of the peer is delivered, with its
      text, exactly when it was not delivered before and is newer than `top - 2048`. */
  lemma GenuineFrame(a: D.Aead, l: Link, left: D.Handshake, right: D.Handshake, atLeft: seq<byte>, atRight: seq<byte>,
                     start: int, evs: seq<Event>, side: bool, i: nat, now: int)
    requires D.Lawful(a) && Starts(l, left, right, atLeft, atRight, start) && Honest(a, l, evs)
    requires var m := Play(a, l, evs);
             var me, peer := Me(m, side), Me(m, !side);
             && i < |peer.frames| && me.state.length == |peer.frames[i]|
             && D.Advice(me.state, now) != 2
    ensures var m := Play(a, l, evs);
            var me, peer := Me(m, side), Me(m, !side);
            var out := D.Open(a, me.state, peer.frames[i], 65536, now).1;
            if i > me.state.top - 2048 && (forall d :: d in me.delivered ==> d.counter != i)
            then i < |peer.sealed| && out == Some(peer.sealed[i]) else out == None
  {
    StartInv(a, l, left, right, atLeft, atRight, start);
    PlayInv(a, l, evs, left, right);
    var m := Play(a, l, evs);
    hide Starts, Honest, Play, Keyed;
    GenuineArrival(a, Me(m, side), Me(m, !side), i, now);
    CounterMember(Me(m, side).delivered, i);
  }
}
