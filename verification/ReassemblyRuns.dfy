/** Whole runs of the pool, seen through the keyed map: parts may arrive in any order, more
    than once, and mixed with the parts of other messages. */
module ReassemblyRuns {
  import opened Common
  import opened Reassembly
  import opened ReassemblyKeyed
  import F = Fragments
  import RD = ReassemblyDrop

  datatype Call = Call(b: Binding, r: Record, now: int)

  function Play(l: Limits, c: Codec, m: Machine, calls: seq<Call>): Machine {
    if calls == [] then m
    else
      var x := calls[|calls| - 1];
      AcceptKeyed(l, c, Play(l, c, m, calls[..|calls| - 1]), x.b, x.r, x.now).0
  }

  /** A call under key `k` brings a part of `message`, cut into `parts` pieces. */
  ghost predicate Carries(x: Call, k: Key, message: seq<byte>, unit: nat, parts: nat) {
    KeyOf(x.b, x.r) == k ==>
      x.r.parts == parts && x.r.index >= 0 && x.r.text == F.Part(message, unit, x.r.index)
  }

  /** What is pending under `k` is a proper part of `message`. */
  ghost predicate Holds(m: Machine, k: Key, message: seq<byte>, unit: nat, parts: nat) {
    k in m.pending ==>
      var a := m.pending[k];
      && a.parts == parts && |a.chunks| < parts
      && forall i :: i in a.chunks ==> i < parts && a.chunks[i] == F.Part(message, unit, i)
  }

  lemma {:induction false} BoundedKeys(s: set<nat>, n: nat)
    requires forall i :: i in s ==> i < n
    ensures |s| <= n
    ensures |s| == n ==> forall i :: 0 <= i < n ==> i in s
  {
    if n == 0 {
      assert s == {};
    } else if n - 1 in s {
      BoundedKeys(s - {n - 1}, n - 1);
    } else {
      BoundedKeys(s, n - 1);
    }
  }

  lemma {:induction false} JoinOfParts(chunks: map<nat, seq<byte>>, message: seq<byte>, unit: nat, n: nat)
    requires forall i :: 0 <= i < n ==> i in chunks && chunks[i] == F.Part(message, unit, i)
    ensures Join(chunks, n) == F.JoinParts(message, unit, n)
  {
    if n > 0 {
      JoinOfParts(chunks, message, unit, n - 1);
    }
  }

  /** One call: other keys' assemblies stay as they are, and a completion yields the message. */
  lemma CallKeeps(l: Limits, c: Codec, m: Machine, x: Call, k: Key, message: seq<byte>, unit: nat, parts: nat)
    requires Holds(m, k, message, unit, parts) && Carries(x, k, message, unit, parts)
    ensures var (m', code) := AcceptKeyed(l, c, m, x.b, x.r, x.now);
            && Holds(m', k, message, unit, parts)
            && (code == 1 && KeyOf(x.b, x.r) == k ==> m'.done == Some(F.JoinParts(message, unit, parts)))
            && (KeyOf(x.b, x.r) != k ==> (k in m'.pending <==> k in m.pending)
                                         && (k in m.pending ==> m'.pending[k] == m.pending[k]))
            && (code == -1 ==> m' == m)
  {
    hide TotalOf, ValidBinding, F.Part, F.JoinParts, Size, At;
    if KeyOf(x.b, x.r) == k && Admitted(l, c, m, x.b, x.r, x.now) {
      var a := Found(m, k, parts, x.now);
      var chunks := a.chunks[x.r.index := x.r.text];
      BoundedKeys(chunks.Keys, parts);
      if |chunks| == parts {
        assert |chunks.Keys| == |chunks|;
        JoinOfParts(chunks, message, unit, parts);
      }
    }
  }

  lemma {:induction false} PlayHolds(l: Limits, c: Codec, m: Machine, calls: seq<Call>, k: Key,
                                     message: seq<byte>, unit: nat, parts: nat)
    requires Holds(m, k, message, unit, parts) && forall x :: x in calls ==> Carries(x, k, message, unit, parts)
    ensures Holds(Play(l, c, m, calls), k, message, unit, parts)
  {
    if calls != [] {
      var pre, x := calls[..|calls| - 1], calls[|calls| - 1];
      PlayHolds(l, c, m, pre, k, message, unit, parts);
      CallKeeps(l, c, Play(l, c, m, pre), x, k, message, unit, parts);
    }
  }

  /** Delivery: whatever the order, repetition and interleaving of the calls, a message that
      completes under `k` is the message that was cut up, byte for byte. */
  lemma Delivery(l: Limits, c: Codec, m: Machine, calls: seq<Call>, last: Call, message: seq<byte>, unit: nat)
    requires unit > 0 && KeyOf(last.b, last.r) !in m.pending
    requires forall x :: x in calls + [last] ==>
               Carries(x, KeyOf(last.b, last.r), message, unit, F.Count(|message|, unit))
    requires AcceptKeyed(l, c, Play(l, c, m, calls), last.b, last.r, last.now).1 == 1
    ensures AcceptKeyed(l, c, Play(l, c, m, calls), last.b, last.r, last.now).0.done == Some(message)
  {
    var k, parts := KeyOf(last.b, last.r), F.Count(|message|, unit);
    assert forall x :: x in calls ==> x in calls + [last];
    assert last in calls + [last];
    PlayHolds(l, c, m, calls, k, message, unit, parts);
    CallKeeps(l, c, Play(l, c, m, calls), last, k, message, unit, parts);
    F.SplitJoin(message, unit);
  }

  /** Which parts of key `k` have been kept since it was last absent. */
  function Arrived(m: Machine, k: Key): set<nat> {
    if k in m.pending then m.pending[k].chunks.Keys else {}
  }

  /** Progress: a part that the quotas admit completes its message exactly when it is the last
      one missing (and the message is a document); otherwise it is kept. */
  lemma Progress(l: Limits, c: Codec, m: Machine, x: Call, message: seq<byte>, unit: nat)
    requires unit > 0
    requires var k, parts := KeyOf(x.b, x.r), F.Count(|message|, unit);
             && Admitted(l, c, m, x.b, x.r, x.now) && Holds(m, k, message, unit, parts)
             && Carries(x, k, message, unit, parts)
             && (k in m.pending || |m.pending| < l.slots)
             && TotalOf(Found(m, k, parts, x.now).chunks[x.r.index := x.r.text], parts) <= l.message
             && m.buffered - Size(At(Found(m, k, parts, x.now).chunks, x.r.index)) + |x.r.text| <= l.arena
    ensures var k, parts := KeyOf(x.b, x.r), F.Count(|message|, unit);
            var (m', code) := AcceptKeyed(l, c, m, x.b, x.r, x.now);
            if forall i :: 0 <= i < parts ==> i == x.r.index || i in Arrived(m, k)
            then (if c.document(message) then code == 1 && m'.done == Some(message) else code == -1)
            else code == 0 && Arrived(m', k) == Arrived(m, k) + {x.r.index}
  {
    var k, parts := KeyOf(x.b, x.r), F.Count(|message|, unit);
    var chunks := Found(m, k, parts, x.now).chunks[x.r.index := x.r.text];
    Decided(l, c, m, x);
    ChunksAre(l, c, m, x, message, unit);
    Whole(chunks, message, unit);
    hide Join, TotalOf, Admitted, F.Count, F.Part, AcceptKeyed, Holds, Carries, Found, Arrived;
    LastMissing(chunks, Arrived(m, k), x.r.index, parts);
  }

  lemma LastMissing(chunks: map<nat, seq<byte>>, arrived: set<nat>, index: nat, parts: nat)
    requires forall i :: i in chunks <==> i == index || i in arrived
    ensures (forall i :: 0 <= i < parts ==> i == index || i in arrived) <==>
            (forall i :: 0 <= i < parts ==> i in chunks)
  {
  }

  /** Within the quotas only the number of parts decides. */
  lemma Decided(l: Limits, c: Codec, m: Machine, x: Call)
    requires Admitted(l, c, m, x.b, x.r, x.now)
    requires var k, a := KeyOf(x.b, x.r), Found(m, KeyOf(x.b, x.r), x.r.parts, x.now);
             && a.parts == x.r.parts && (k in m.pending || |m.pending| < l.slots)
             && TotalOf(a.chunks[x.r.index := x.r.text], x.r.parts) <= l.message
             && m.buffered - Size(At(a.chunks, x.r.index)) + |x.r.text| <= l.arena
    ensures var k, a := KeyOf(x.b, x.r), Found(m, KeyOf(x.b, x.r), x.r.parts, x.now);
            var chunks := a.chunks[x.r.index := x.r.text];
            var (m', code) := AcceptKeyed(l, c, m, x.b, x.r, x.now);
            if |chunks| == x.r.parts
            then
              (if c.document(Join(chunks, x.r.parts)) then code == 1 && m'.done == Some(Join(chunks, x.r.parts))
               else code == -1)
            else code == 0 && Arrived(m', k) == chunks.Keys
  {
    hide Join, TotalOf;
  }

  lemma ChunksAre(l: Limits, c: Codec, m: Machine, x: Call, message: seq<byte>, unit: nat)
    requires unit > 0 && Admitted(l, c, m, x.b, x.r, x.now)
    requires var k, parts := KeyOf(x.b, x.r), F.Count(|message|, unit);
             Holds(m, k, message, unit, parts) && Carries(x, k, message, unit, parts)
    ensures var k, parts := KeyOf(x.b, x.r), F.Count(|message|, unit);
            var chunks := Found(m, k, parts, x.now).chunks[x.r.index := x.r.text];
            && x.r.parts == parts && Found(m, k, parts, x.now).parts == parts
            && (forall i :: i in chunks <==> i == x.r.index || i in Arrived(m, k))
            && chunks.Keys == Arrived(m, k) + {x.r.index}
            && (forall i :: i in chunks ==> i < parts && chunks[i] == F.Part(message, unit, i))
  {
    assert 0 <= x.r.index < x.r.parts;
    hide F.Part, F.Count, Admitted;
  }

  /** As many parts as the message has are all its parts, and join to the message. */
  lemma Whole(chunks: map<nat, seq<byte>>, message: seq<byte>, unit: nat)
    requires unit > 0
    requires forall i :: i in chunks ==> i < F.Count(|message|, unit) && chunks[i] == F.Part(message, unit, i)
    ensures var parts := F.Count(|message|, unit);
            && (|chunks| == parts <==> forall i :: 0 <= i < parts ==> i in chunks)
            && (|chunks| == parts ==> Join(chunks, parts) == message)
  {
    var parts := F.Count(|message|, unit);
    assert |chunks.Keys| == |chunks|;
    BoundedKeys(chunks.Keys, parts);
    if forall i :: 0 <= i < parts ==> i in chunks {
      AllKeys(chunks.Keys, parts);
      JoinOfParts(chunks, message, unit, parts);
      F.SplitJoin(message, unit);
    }
  }

  lemma {:induction false} AllKeys(s: set<nat>, n: nat)
    requires forall i :: i in s ==> i < n
    requires forall i :: 0 <= i < n ==> i in s
    ensures |s| == n
  {
    if n == 0 {
      assert s == {};
    } else {
      AllKeys(s - {n - 1}, n - 1);
    }
  }

  // ---------------------------------------------------------------- runs with everything else in between

  /** Anything that may happen to the pool. */
  datatype Event = Offer(call: Call) | Release | Expire(now: int, idle: int) | Revoke(b: Binding) | Advance(epoch: int)

  /** What release, expiry, revocation and a new epoch leave; whether the pinned message goes is up to its header. */
  ghost predicate Drops(m: Machine, e: Event, m': Machine) {
    match e
    case Offer(_) => false
    case Release => m' == m.(done := None)
    case Expire(now, idle) =>
      if !(m.clock <= now <= CLOCK_MAX && 0 < idle <= CLOCK_MAX) then m' == m
      else m'.pending == RD.Survivors(m.pending, RD.IdleFor(now, idle)) && m'.done in {m.done, None}
           && m'.clock == now && m'.epoch == m.epoch
    case Revoke(b) =>
      if !ValidBinding(m.epoch, b) then m' == m
      else m'.pending == RD.Survivors(m.pending, RD.UnderKey(b)) && m'.done in {m.done, None}
           && m'.clock == m.clock && m'.epoch == m.epoch
    case Advance(epoch) =>
      m' == if m.epoch < epoch <= CLOCK_MAX then Machine(map[], 0, None, epoch, 0) else m
  }

  ghost predicate Moves(l: Limits, c: Codec, m: Machine, e: Event, m': Machine) {
    if e.Offer? then m' == AcceptKeyed(l, c, m, e.call.b, e.call.r, e.call.now).0 else Drops(m, e, m')
  }

  /** The machines of a run, one more than its events. */
  ghost predicate Runs(l: Limits, c: Codec, ms: seq<Machine>, es: seq<Event>) {
    |ms| == |es| + 1 && forall i :: 0 <= i < |es| ==> Moves(l, c, ms[i], es[i], ms[i + 1])
  }

  predicate OffersTo(e: Event, k: Key) { e.Offer? && KeyOf(e.call.b, e.call.r) == k }

  /** The parts offered under `k`. */
  function Offered(es: seq<Event>, k: Key): set<nat> {
    set i | 0 <= i < |es| && OffersTo(es[i], k) && es[i].call.r.index >= 0 :: es[i].call.r.index
  }

  ghost predicate CarriesAll(es: seq<Event>, k: Key, message: seq<byte>, unit: nat, parts: nat) {
    forall i :: 0 <= i < |es| && OffersTo(es[i], k) ==> Carries(es[i].call, k, message, unit, parts)
  }

  lemma DropHolds(m: Machine, e: Event, m': Machine, k: Key, message: seq<byte>, unit: nat, parts: nat)
    requires Drops(m, e, m') && Holds(m, k, message, unit, parts)
    ensures Holds(m', k, message, unit, parts)
  {
    hide F.Part;
  }

  lemma {:induction false} RunHolds(l: Limits, c: Codec, ms: seq<Machine>, es: seq<Event>, k: Key,
                                    message: seq<byte>, unit: nat, parts: nat)
    requires Runs(l, c, ms, es) && CarriesAll(es, k, message, unit, parts) && Holds(ms[0], k, message, unit, parts)
    ensures Holds(ms[|es|], k, message, unit, parts)
  {
    hide AcceptKeyed, Holds, Carries, Drops;
    if es != [] {
      var n := |es| - 1;
      RunHolds(l, c, ms[..|es|], es[..n], k, message, unit, parts);
      assert Moves(l, c, ms[n], es[n], ms[n + 1]);
      if es[n].Offer? {
        CarriesOwn(es[n].call, k, message, unit, parts);
        CallKeeps(l, c, ms[n], es[n].call, k, message, unit, parts);
      } else {
        DropHolds(ms[n], es[n], ms[n + 1], k, message, unit, parts);
      }
    }
  }

  /** Calls under other keys carry nothing for `k`. */
  lemma CarriesOwn(x: Call, k: Key, message: seq<byte>, unit: nat, parts: nat)
    requires KeyOf(x.b, x.r) == k ==> Carries(x, k, message, unit, parts)
    ensures Carries(x, k, message, unit, parts)
  {
  }

  /** Delivery amid everything: other keys' calls may carry anything, and messages may be released,
      expired and revoked, and the epoch advanced, at any moment; what completes under `k` is still
      the message cut up. */
  lemma DeliveryAmid(l: Limits, c: Codec, ms: seq<Machine>, es: seq<Event>, last: Call, message: seq<byte>, unit: nat)
    requires Runs(l, c, ms, es) && unit > 0 && KeyOf(last.b, last.r) !in ms[0].pending
    requires CarriesAll(es + [Offer(last)], KeyOf(last.b, last.r), message, unit, F.Count(|message|, unit))
    requires AcceptKeyed(l, c, ms[|es|], last.b, last.r, last.now).1 == 1
    ensures AcceptKeyed(l, c, ms[|es|], last.b, last.r, last.now).0.done == Some(message)
  {
    hide AcceptKeyed, Carries, F.Count;
    var k, parts, all := KeyOf(last.b, last.r), F.Count(|message|, unit), es + [Offer(last)];
    assert all[|es|] == Offer(last);
    assert forall i :: 0 <= i < |es| ==> es[i] == all[i];
    RunHolds(l, c, ms, es, k, message, unit, parts);
    CallKeeps(l, c, ms[|es|], last, k, message, unit, parts);
    F.SplitJoin(message, unit);
  }

  /** There is a slot and there are bytes for one more part. */
  predicate Room(l: Limits, m: Machine, x: Call) {
    var k := KeyOf(x.b, x.r);
    && (k in m.pending || |m.pending| < l.slots) && x.r.index >= 0
    && m.buffered - Size(At(Found(m, k, x.r.parts, x.now).chunks, x.r.index)) + |x.r.text| <= l.arena
  }

  /** The pool takes an offer under `k`, and does not drop what is pending there. */
  predicate Serves(l: Limits, c: Codec, m: Machine, e: Event, k: Key) {
    match e
    case Offer(x) => KeyOf(x.b, x.r) == k ==> Admitted(l, c, m, x.b, x.r, x.now) && Room(l, m, x)
    case Release => true
    case Expire(now, idle) => k in m.pending ==> now - m.pending[k].touched < idle
    case Revoke(b) => k.peer != b.peer || k.key != b.key
    case Advance(epoch) => k !in m.pending || !(m.epoch < epoch <= CLOCK_MAX)
  }

  ghost predicate ServesAll(l: Limits, c: Codec, ms: seq<Machine>, es: seq<Event>, k: Key)
    requires |ms| >= |es|
  {
    forall i :: 0 <= i < |es| ==> Serves(l, c, ms[i], es[i], k)
  }

  predicate Covers(seen: set<nat>, parts: nat) { forall i :: 0 <= i < parts ==> i in seen }

  lemma DropKeeps(l: Limits, c: Codec, m: Machine, e: Event, m': Machine, k: Key)
    requires Drops(m, e, m') && Serves(l, c, m, e, k)
    ensures k in m'.pending <==> k in m.pending
    ensures k in m.pending ==> m'.pending[k] == m.pending[k]
  {
  }

  /** The parts of a message, each within the quotas: the last missing one completes it. */
  lemma Served(l: Limits, c: Codec, m: Machine, x: Call, message: seq<byte>, unit: nat)
    requires unit > 0
    requires var k, parts := KeyOf(x.b, x.r), F.Count(|message|, unit);
             && Admitted(l, c, m, x.b, x.r, x.now) && Room(l, m, x) && |message| <= l.message
             && Holds(m, k, message, unit, parts) && Carries(x, k, message, unit, parts)
    ensures var k, parts := KeyOf(x.b, x.r), F.Count(|message|, unit);
            var (m', code) := AcceptKeyed(l, c, m, x.b, x.r, x.now);
            if Covers(Arrived(m, k) + {x.r.index}, parts)
            then (if c.document(message) then code == 1 && m'.done == Some(message) else code == -1)
            else code == 0 && Arrived(m', k) == Arrived(m, k) + {x.r.index}
  {
    hide AcceptKeyed, Admitted, Arrived, F.Count, F.Part, Found, Holds, Carries, TotalOf;
    var k, parts := KeyOf(x.b, x.r), F.Count(|message|, unit);
    ChunksAre(l, c, m, x, message, unit);
    ChunksFit(Found(m, k, parts, x.now).chunks[x.r.index := x.r.text], message, unit, parts);
    Progress(l, c, m, x, message, unit);
    CoversEither(Arrived(m, k), x.r.index, parts);
  }

  lemma CoversEither(seen: set<nat>, index: nat, parts: nat)
    ensures Covers(seen + {index}, parts) <==> forall i :: 0 <= i < parts ==> i == index || i in seen
  {
    forall i | 0 <= i < parts
      ensures i in seen + {index} <==> i == index || i in seen
    {
    }
  }

  /** Parts of a message hold no more bytes than the message. */
  lemma {:induction false} ChunksFit(chunks: map<nat, seq<byte>>, message: seq<byte>, unit: nat, n: nat)
    requires forall i :: i in chunks ==> chunks[i] == F.Part(message, unit, i)
    ensures TotalOf(chunks, n) <= F.Start(|message|, unit, n)
  {
    if n > 0 {
      ChunksFit(chunks, message, unit, n - 1);
      F.StartMonotone(|message|, unit, n - 1);
    }
  }

  lemma OfferedStep(es: seq<Event>, k: Key)
    requires es != []
    ensures var n := |es| - 1;
            Offered(es, k) == Offered(es[..n], k)
                + (if OffersTo(es[n], k) && es[n].call.r.index >= 0 then {es[n].call.r.index} else {})
  {
    var n := |es| - 1;
    assert forall i :: 0 <= i < n ==> es[..n][i] == es[i];
  }

  /** One event of a run that serves `k`. */
  lemma ArrivesStep(l: Limits, c: Codec, m: Machine, e: Event, m': Machine, k: Key, message: seq<byte>, unit: nat)
    requires unit > 0 && |message| <= l.message && Moves(l, c, m, e, m') && Serves(l, c, m, e, k)
    requires Holds(m, k, message, unit, F.Count(|message|, unit))
    requires OffersTo(e, k) ==> Carries(e.call, k, message, unit, F.Count(|message|, unit)) && e.call.r.index >= 0
    requires !Covers(Arrived(m, k) + (if OffersTo(e, k) then {e.call.r.index} else {}), F.Count(|message|, unit))
    ensures Arrived(m', k) == Arrived(m, k) + (if OffersTo(e, k) then {e.call.r.index} else {})
  {
    hide AcceptKeyed, Holds, F.Count, Admitted, Room, Covers;
    if e.Offer? {
      if KeyOf(e.call.b, e.call.r) == k {
        hide Arrived, Carries;
        Served(l, c, m, e.call, message, unit);
      } else {
        CallKeeps(l, c, m, e.call, k, message, unit, F.Count(|message|, unit));
      }
    } else {
      DropKeeps(l, c, m, e, m', k);
    }
  }

  /** While some part has not been offered, exactly the offered parts are there. */
  lemma {:induction false} RunArrives(l: Limits, c: Codec, ms: seq<Machine>, es: seq<Event>, k: Key, message: seq<byte>,
                                      unit: nat)
    requires unit > 0 && |message| <= l.message && Runs(l, c, ms, es) && k !in ms[0].pending
             && ServesAll(l, c, ms, es, k)
    requires CarriesAll(es, k, message, unit, F.Count(|message|, unit))
    requires !Covers(Offered(es, k), F.Count(|message|, unit))
    ensures Arrived(ms[|es|], k) == Offered(es, k)
  {
    if es != [] {
      hide AcceptKeyed, Holds, Carries, Drops, Arrived, Moves, Serves, F.Count, Offered;
      var n, parts := |es| - 1, F.Count(|message|, unit);
      OfferedStep(es, k);
      RunArrives(l, c, ms[..|es|], es[..n], k, message, unit);
      NotPending(ms[0], k, message, unit, parts);
      RunHolds(l, c, ms[..|es|], es[..n], k, message, unit, parts);
      assert Moves(l, c, ms[n], es[n], ms[n + 1]) && Serves(l, c, ms[n], es[n], k);
      OfferIndex(es[n], k, message, unit, parts);
      ArrivesStep(l, c, ms[n], es[n], ms[n + 1], k, message, unit);
    } else {
      assert Offered([], k) == {};
    }
  }

  lemma OfferIndex(e: Event, k: Key, message: seq<byte>, unit: nat, parts: nat)
    requires OffersTo(e, k) ==> Carries(e.call, k, message, unit, parts)
    ensures OffersTo(e, k) ==> e.call.r.index >= 0
  {
  }

  lemma NotPending(m: Machine, k: Key, message: seq<byte>, unit: nat, parts: nat)
    requires k !in m.pending
    ensures Holds(m, k, message, unit, parts)
  {
  }

  /** Liveness amid everything: as long as the pool serves `k`, the offer that brings the last
      missing part completes the message, whatever else is going on. */
  lemma CompletesAmid(l: Limits, c: Codec, ms: seq<Machine>, es: seq<Event>, last: Call, message: seq<byte>, unit: nat)
    requires unit > 0 && |message| <= l.message && c.document(message) && Runs(l, c, ms, es)
    requires var k, parts, all := KeyOf(last.b, last.r), F.Count(|message|, unit), es + [Offer(last)];
             && k !in ms[0].pending && ServesAll(l, c, ms, all, k) && CarriesAll(all, k, message, unit, parts)
             && !Covers(Offered(es, k), parts) && Covers(Offered(all, k), parts)
    ensures var (m', code) := AcceptKeyed(l, c, ms[|es|], last.b, last.r, last.now);
            code == 1 && m'.done == Some(message)
  {
    hide AcceptKeyed, Carries, F.Count, Covers, Holds, Moves, Arrived, Admitted, Room, Offered;
    var k, parts, all := KeyOf(last.b, last.r), F.Count(|message|, unit), es + [Offer(last)];
    assert all[|es|] == Offer(last) && all[..|es|] == es;
    assert forall i :: 0 <= i < |es| ==> es[i] == all[i];
    assert Serves(l, c, ms[|es|], all[|es|], k);
    OfferedStep(all, k);
    OfferIndex(Offer(last), k, message, unit, parts);
    RunArrives(l, c, ms, es, k, message, unit);
    NotPending(ms[0], k, message, unit, parts);
    RunHolds(l, c, ms, es, k, message, unit, parts);
    Served(l, c, ms[|es|], last, message, unit);
  }
}
