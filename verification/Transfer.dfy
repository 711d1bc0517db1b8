/**
 A message end to end above the datagrams: cut into parts, each written as JSON, read back on
 the other side and handed to the pool, in any order and as often as the network likes.
 */
module Transfer {
  import opened Common
  import opened Reassembly
  import A = AppFrame
  import AR = AppFrameRound
  import F = Fragments
  import J = JsonText
  import JD = JsonDocument
  import RK = ReassemblyKeyed
  import RR = ReassemblyRuns

  const UNIT: nat := 700

  /** The pool's codec: UTF-16 length of identifiers, and the scanner for whole documents. */
  const NATIVE_CODEC: Codec :=
    Codec((id: seq<byte>) => J.Utf16(id, 0, |id|, true), (message: seq<byte>) => JD.ValidDocument(message))

  function RecordOf(p: A.Part): Record { Record(RECORD_MAGIC, p.ident, p.units, p.index, p.parts, p.text) }

  /** The pool demands of a record exactly what the encoder does. */
  lemma SameRecords(p: A.Part)
    ensures ValidRecord(NATIVE, NATIVE_CODEC, RecordOf(p)) <==> A.Valid(p)
  {
    hide J.Utf16;
  }

  /** Part `i` of a message, as the sender hands it to the encoder. */
  function Piece(ident: seq<byte>, units: int, message: seq<byte>, i: nat): A.Part {
    A.Part(ident, units, i, F.Count(|message|, UNIT), F.Part(message, UNIT, i))
  }

  ghost predicate Sendable(ident: seq<byte>, units: int, message: seq<byte>) {
    && 0 < |message| && F.Count(|message|, UNIT) <= 2048
    && 1 <= |ident| <= 640 && 1 <= units <= 160 && J.Utf16(ident, 0, |ident|, true) == units
  }

  lemma PieceValid(ident: seq<byte>, units: int, message: seq<byte>, i: nat)
    requires Sendable(ident, units, message) && i < F.Count(|message|, UNIT)
    ensures A.Valid(Piece(ident, units, message, i))
  {
    F.StartMonotone(|message|, UNIT, i);
    hide J.Utf16, F.Count;
  }

  /** What the pool is called with once the text of part `i` has been read back. */
  function Arrival(b: Binding, ident: seq<byte>, units: int, message: seq<byte>, i: nat, now: int): Option<RR.Call> {
    var p := A.Decode(A.Encode(Piece(ident, units, message, i)));
    if p.None? then None else Some(RR.Call(b, RecordOf(p.value), now))
  }

  lemma ArrivalIs(b: Binding, ident: seq<byte>, units: int, message: seq<byte>, i: nat, now: int)
    requires Sendable(ident, units, message) && i < F.Count(|message|, UNIT)
    ensures Arrival(b, ident, units, message, i, now)
            == Some(RR.Call(b, RecordOf(Piece(ident, units, message, i)), now))
  {
    hide A.Decode, A.Encode, Sendable, A.Valid;
    PieceValid(ident, units, message, i);
    AR.RoundTrip(Piece(ident, units, message, i));
  }

  /** The call is what some text of the sender becomes. */
  predicate FromSender(x: RR.Call, b: Binding, ident: seq<byte>, units: int, message: seq<byte>) {
    0 <= x.r.index < F.Count(|message|, UNIT) && Arrival(b, ident, units, message, x.r.index, x.now) == Some(x)
  }

  function KeyFor(b: Binding, ident: seq<byte>): RK.Key { RK.Key(b.peer, b.key, ident) }

  /** Under the sender's key only its own texts come in; other keys may carry anything. */
  ghost predicate Sends(es: seq<RR.Event>, b: Binding, ident: seq<byte>, units: int, message: seq<byte>) {
    forall i :: 0 <= i < |es| && RR.OffersTo(es[i], KeyFor(b, ident)) ==>
        FromSender(es[i].call, b, ident, units, message)
  }

  lemma SenderFacts(x: RR.Call, b: Binding, ident: seq<byte>, units: int, message: seq<byte>)
    requires Sendable(ident, units, message) && FromSender(x, b, ident, units, message)
    ensures x.b == b && RK.KeyOf(x.b, x.r) == KeyFor(b, ident) && ValidRecord(NATIVE, NATIVE_CODEC, x.r)
    ensures forall k :: RR.Carries(x, k, message, UNIT, F.Count(|message|, UNIT))
  {
    hide Sendable, Arrival, F.Count, F.Part, A.Valid, ValidRecord;
    ArrivalIs(b, ident, units, message, x.r.index, x.now);
    PieceValid(ident, units, message, x.r.index);
    SameRecords(Piece(ident, units, message, x.r.index));
  }

  lemma SendsCarry(es: seq<RR.Event>, b: Binding, ident: seq<byte>, units: int, message: seq<byte>)
    requires Sendable(ident, units, message) && Sends(es, b, ident, units, message)
    ensures RR.CarriesAll(es, KeyFor(b, ident), message, UNIT, F.Count(|message|, UNIT))
  {
    hide Sendable, FromSender, F.Count, RR.Carries;
    forall i | 0 <= i < |es| && RR.OffersTo(es[i], KeyFor(b, ident))
      ensures RR.Carries(es[i].call, KeyFor(b, ident), message, UNIT, F.Count(|message|, UNIT))
    {
      SenderFacts(es[i].call, b, ident, units, message);
    }
  }

  /** Safety: whatever completes is the message that was sent, whatever else went on in the pool. */
  lemma Intact(l: Limits, c: Codec, ms: seq<RK.Machine>, es: seq<RR.Event>, last: RR.Call, b: Binding, ident: seq<byte>,
               units: int, message: seq<byte>)
    requires Sendable(ident, units, message) && FromSender(last, b, ident, units, message)
    requires RR.Runs(l, c, ms, es) && KeyFor(b, ident) !in ms[0].pending && Sends(es, b, ident, units, message)
    requires RK.AcceptKeyed(l, c, ms[|es|], last.b, last.r, last.now).1 == 1
    ensures RK.AcceptKeyed(l, c, ms[|es|], last.b, last.r, last.now).0.done == Some(message)
  {
    hide RR.Carries, Sendable, FromSender, RK.AcceptKeyed, RR.Runs, F.Count, F.Part, RR.CarriesAll;
    SenderFacts(last, b, ident, units, message);
    SendsMore(es, last, b, ident, units, message);
    SendsCarry(es + [RR.Offer(last)], b, ident, units, message);
    RR.DeliveryAmid(l, c, ms, es, last, message, UNIT);
  }

  lemma SendsMore(es: seq<RR.Event>, last: RR.Call, b: Binding, ident: seq<byte>, units: int, message: seq<byte>)
    requires Sends(es, b, ident, units, message) && FromSender(last, b, ident, units, message)
    ensures Sends(es + [RR.Offer(last)], b, ident, units, message)
  {
    hide FromSender;
  }

  // ---------------------------------------------------------------- nothing is missing: it completes

  /** The pool is free, the call is timely under a current binding, and there is room for the part. */
  predicate Welcomes(l: Limits, m: RK.Machine, x: RR.Call) {
    m.done.None? && ValidBinding(m.epoch, x.b) && m.clock <= x.now <= CLOCK_MAX && RR.Room(l, m, x)
  }

  /** Every call of the sender is welcome, and nothing drops what has come of its message. */
  ghost predicate Undisturbed(ms: seq<RK.Machine>, es: seq<RR.Event>, k: RK.Key)
    requires |ms| >= |es|
  {
    forall i :: 0 <= i < |es| ==>
      if es[i].Offer? then RR.OffersTo(es[i], k) ==> Welcomes(NATIVE, ms[i], es[i].call)
      else RR.Serves(NATIVE, NATIVE_CODEC, ms[i], es[i], k)
  }

  lemma AllServed(ms: seq<RK.Machine>, es: seq<RR.Event>, b: Binding, ident: seq<byte>, units: int, message: seq<byte>)
    requires Sendable(ident, units, message) && Sends(es, b, ident, units, message) && |ms| >= |es|
    requires Undisturbed(ms, es, KeyFor(b, ident))
    ensures RR.ServesAll(NATIVE, NATIVE_CODEC, ms, es, KeyFor(b, ident))
  {
    hide Sendable, FromSender, RR.Room, ValidBinding, ValidRecord, RR.Carries;
    var k := KeyFor(b, ident);
    forall i | 0 <= i < |es|
      ensures RR.Serves(NATIVE, NATIVE_CODEC, ms[i], es[i], k)
    {
      if RR.OffersTo(es[i], k) {
        SenderFacts(es[i].call, b, ident, units, message);
      }
    }
  }

  /** End to end: the sender's texts, in any order and any number of times, complete the message at
      the first moment when every part has come, while other messages come, complete and go. */
  lemma EndToEnd(ms: seq<RK.Machine>, es: seq<RR.Event>, last: RR.Call, b: Binding, ident: seq<byte>, units: int,
                 message: seq<byte>)
    requires Sendable(ident, units, message) && JD.ValidDocument(message)
    requires RR.Runs(NATIVE, NATIVE_CODEC, ms, es) && KeyFor(b, ident) !in ms[0].pending
    requires FromSender(last, b, ident, units, message) && Sends(es, b, ident, units, message)
    requires Undisturbed(ms, es + [RR.Offer(last)], KeyFor(b, ident))
    requires var k, parts := KeyFor(b, ident), F.Count(|message|, UNIT);
             !RR.Covers(RR.Offered(es, k), parts) && RR.Covers(RR.Offered(es + [RR.Offer(last)], k), parts)
    ensures var (m', code) := RK.AcceptKeyed(NATIVE, NATIVE_CODEC, ms[|es|], last.b, last.r, last.now);
            code == 1 && m'.done == Some(message)
  {
    var all := es + [RR.Offer(last)];
    DocumentSize(message);
    hide Sendable, FromSender, Sends, Undisturbed, JD.ValidDocument, RR.Runs, RR.Covers, RR.Offered, RK.AcceptKeyed,
         F.Count,
         RR.CarriesAll, RR.ServesAll;
    SendsMore(es, last, b, ident, units, message);
    SendsCarry(all, b, ident, units, message);
    AllServed(ms, all, b, ident, units, message);
    SenderFacts(last, b, ident, units, message);
    RR.CompletesAmid(NATIVE, NATIVE_CODEC, ms, es, last, message, UNIT);
  }

  lemma DocumentSize(message: seq<byte>)
    requires JD.ValidDocument(message)
    ensures |message| <= NATIVE.message && NATIVE_CODEC.document(message)
  {
  }

  // ---------------------------------------------------------------- alone in the pool: every quota holds

  /** Times never run backwards and stay in range; the peer's binding is current. */
  ghost predicate Timely(calls: seq<RR.Call>, b: Binding, epoch: int) {
    && ValidBinding(epoch, b)
    && (forall j :: 0 <= j < |calls| ==> 0 <= calls[j].now <= CLOCK_MAX)
    && forall i, j :: 0 <= i < j < |calls| ==> calls[i].now <= calls[j].now
  }

  /** Still collecting: what has arrived is what has been sent so far. */
  ghost predicate Collecting(m: RK.Machine, k: RK.Key, message: seq<byte>, seen: set<nat>, epoch: int) {
    && m.done.None? && m.epoch == epoch && m.pending.Keys <= {k}
    && RR.Holds(m, k, message, UNIT, F.Count(|message|, UNIT))
    && RR.Arrived(m, k) == seen
    && m.buffered == if k in m.pending then TotalOf(m.pending[k].chunks, F.Count(|message|, UNIT)) else 0
  }

  /** One part of the message, with everything in order. */
  ghost predicate Welcome(c: Codec, m: RK.Machine, x: RR.Call, k: RK.Key, message: seq<byte>, epoch: int) {
    && RK.KeyOf(x.b, x.r) == k && ValidBinding(epoch, x.b) && m.clock <= x.now <= CLOCK_MAX
    && ValidRecord(NATIVE, c, x.r)
    && RR.Carries(x, k, message, UNIT, F.Count(|message|, UNIT))
    && |message| <= NATIVE.message && c.document(message)
  }

  /** The quotas admit it. */
  lemma Admits(c: Codec, m: RK.Machine, x: RR.Call, k: RK.Key, message: seq<byte>, seen: set<nat>, epoch: int)
    requires Collecting(m, k, message, seen, epoch) && Welcome(c, m, x, k, message, epoch)
    ensures var parts := F.Count(|message|, UNIT);
            var a := RK.Found(m, k, parts, x.now);
            var chunks := a.chunks[x.r.index := x.r.text];
            && RK.Admitted(NATIVE, c, m, x.b, x.r, x.now) && (k in m.pending || |m.pending| < NATIVE.slots)
            && x.r.parts == parts && x.r.index >= 0 && (forall i :: i in chunks ==> i < parts)
            && TotalOf(chunks, parts) <= NATIVE.message
            && m.buffered - Size(At(a.chunks, x.r.index)) + |x.r.text| == TotalOf(chunks, parts) <= NATIVE.arena
  {
    hide F.Part, F.Count, ValidBinding;
    var parts := F.Count(|message|, UNIT);
    var a := RK.Found(m, k, parts, x.now);
    var chunks := a.chunks[x.r.index := x.r.text];
    RR.ChunksFit(chunks, message, UNIT, parts);
    TotalUpdate(a.chunks, x.r.index, x.r.text, parts);
    TotalEmpty(parts);
    if k !in m.pending {
      assert m.pending.Keys == {};
      assert |m.pending| == |m.pending.Keys|;
    }
  }

  lemma StillCollecting(c: Codec, m: RK.Machine, x: RR.Call, k: RK.Key, message: seq<byte>, seen: set<nat>, epoch: int)
    requires Collecting(m, k, message, seen, epoch) && Welcome(c, m, x, k, message, epoch)
    requires RK.AcceptKeyed(NATIVE, c, m, x.b, x.r, x.now).1 == 0
    ensures x.r.index >= 0 && RK.AcceptKeyed(NATIVE, c, m, x.b, x.r, x.now).0.clock == x.now
    ensures Collecting(RK.AcceptKeyed(NATIVE, c, m, x.b, x.r, x.now).0, k, message, seen + {x.r.index}, epoch)
  {
    hide F.Count, F.Part, TotalOf, RK.Admitted, RR.Carries, RR.Holds, RK.AcceptKeyed, ValidBinding, ValidRecord,
         RK.Found;
    var parts := F.Count(|message|, UNIT);
    Admits(c, m, x, k, message, seen, epoch);
    RR.CallKeeps(NATIVE, c, m, x, k, message, UNIT, parts);
    Kept(c, m, x, k, parts);
    FoundKeys(m, k, parts, x.now);
  }

  lemma FoundKeys(m: RK.Machine, k: RK.Key, parts: nat, now: int)
    ensures RK.Found(m, k, parts, now).chunks.Keys == RR.Arrived(m, k)
  {
  }

  lemma Outcome(c: Codec, m: RK.Machine, x: RR.Call, k: RK.Key, message: seq<byte>, seen: set<nat>, epoch: int)
    requires Collecting(m, k, message, seen, epoch) && Welcome(c, m, x, k, message, epoch)
    ensures var (m', code) := RK.AcceptKeyed(NATIVE, c, m, x.b, x.r, x.now);
            if forall i :: 0 <= i < F.Count(|message|, UNIT) ==> i == x.r.index || i in seen
            then code == 1 && m'.done == Some(message) else code == 0
  {
    hide F.Count, F.Part, TotalOf, RK.AcceptKeyed, RK.Admitted, RR.Carries, RR.Holds, ValidBinding, ValidRecord,
         RK.Found;
    Admits(c, m, x, k, message, seen, epoch);
    RR.Progress(NATIVE, c, m, x, message, UNIT);
  }

  /** It is kept, or it is the last one missing and the message completes. */
  lemma CollectOne(c: Codec, m: RK.Machine, x: RR.Call, k: RK.Key, message: seq<byte>, seen: set<nat>, epoch: int)
    requires Collecting(m, k, message, seen, epoch) && Welcome(c, m, x, k, message, epoch)
    ensures x.r.index >= 0
    ensures var parts := F.Count(|message|, UNIT);
            var (m', code) := RK.AcceptKeyed(NATIVE, c, m, x.b, x.r, x.now);
            if forall i :: 0 <= i < parts ==> i in seen + {x.r.index}
            then code == 1 && m'.done == Some(message)
            else code == 0 && m'.clock == x.now && Collecting(m', k, message, seen + {x.r.index}, epoch)
  {
    assert x.r.index >= 0;
    hide F.Count, RK.AcceptKeyed, Collecting, Welcome;
    Outcome(c, m, x, k, message, seen, epoch);
    var parts := F.Count(|message|, UNIT);
    forall i | 0 <= i < parts
      ensures i in seen + {x.r.index} <==> i == x.r.index || i in seen
    {
    }
    if RK.AcceptKeyed(NATIVE, c, m, x.b, x.r, x.now).1 == 0 {
      StillCollecting(c, m, x, k, message, seen, epoch);
    }
  }

  /** What a kept part changes. */
  lemma Kept(c: Codec, m: RK.Machine, x: RR.Call, k: RK.Key, parts: nat)
    requires RK.KeyOf(x.b, x.r) == k && x.r.parts == parts && m.pending.Keys <= {k}
    ensures var a := RK.Found(m, k, parts, x.now);
            var (m', code) := RK.AcceptKeyed(NATIVE, c, m, x.b, x.r, x.now);
            code == 0 ==>
              && x.r.index >= 0
              && m'.clock == x.now && m'.done == m.done && m'.epoch == m.epoch && m'.pending.Keys == {k}
              && m'.pending[k].chunks == a.chunks[x.r.index := x.r.text]
              && m'.buffered == m.buffered - Size(At(a.chunks, x.r.index)) + |x.r.text|
  {
    hide TotalOf, Join, ValidBinding;
  }

  /** Every part of `message` under `k`, timely, for a peer whose binding is current. */
  ghost predicate WelcomeAll(c: Codec, calls: seq<RR.Call>, k: RK.Key, message: seq<byte>, epoch: int) {
    && (forall j :: 0 <= j < |calls| ==>
          && RK.KeyOf(calls[j].b, calls[j].r) == k && ValidBinding(epoch, calls[j].b) && 0 <= calls[j].now <= CLOCK_MAX
          && ValidRecord(NATIVE, c, calls[j].r) && RR.Carries(calls[j], k, message, UNIT, F.Count(|message|, UNIT)))
    && (forall i, j :: 0 <= i < j < |calls| ==> calls[i].now <= calls[j].now)
    && |message| <= NATIVE.message && c.document(message)
  }

  /** The parts that have come. */
  function Indices(calls: seq<RR.Call>): set<nat> {
    set j | 0 <= j < |calls| && calls[j].r.index >= 0 :: calls[j].r.index
  }

  /** While some part has not come, the pool is collecting exactly those that have. */
  lemma {:induction false} RunCollects(c: Codec, calls: seq<RR.Call>, k: RK.Key, message: seq<byte>, epoch: int)
    requires WelcomeAll(c, calls, k, message, epoch) && !RR.Covers(Indices(calls), F.Count(|message|, UNIT))
    ensures var m := RR.Play(NATIVE, c, RK.Machine(map[], 0, None, epoch, 0), calls);
            Collecting(m, k, message, Indices(calls), epoch)
                && m.clock == (if calls == [] then 0 else calls[|calls| - 1].now)
  {
    if calls == [] {
      NothingYet(k, message, epoch);
      assert Indices([]) == {};
    } else {
      hide Collecting, RK.AcceptKeyed, F.Count, RR.Carries, ValidBinding, ValidRecord;
      var pre, x := calls[..|calls| - 1], calls[|calls| - 1];
      IndicesStep(calls);
      RunCollects(c, pre, k, message, epoch);
      var m := RR.Play(NATIVE, c, RK.Machine(map[], 0, None, epoch, 0), pre);
      CollectOne(c, m, x, k, message, Indices(pre), epoch);
    }
  }

  lemma IndicesStep(calls: seq<RR.Call>)
    requires calls != [] && calls[|calls| - 1].r.index >= 0
    ensures Indices(calls) == Indices(calls[..|calls| - 1]) + {calls[|calls| - 1].r.index}
  {
    var pre := calls[..|calls| - 1];
    assert forall j :: 0 <= j < |pre| ==> pre[j] == calls[j];
    assert calls[|calls| - 1].r.index in Indices(calls);
  }

  lemma NothingYet(k: RK.Key, message: seq<byte>, epoch: int)
    ensures Collecting(RK.Machine(map[], 0, None, epoch, 0), k, message, {}, epoch)
  {
    hide F.Count, F.Part;
  }

  lemma WelcomeSplit(c: Codec, calls: seq<RR.Call>, last: RR.Call, k: RK.Key, message: seq<byte>, epoch: int)
    requires WelcomeAll(c, calls + [last], k, message, epoch)
    ensures WelcomeAll(c, calls, k, message, epoch) && last.r.index >= 0
    ensures forall m: RK.Machine :: m.clock == (if calls == [] then 0 else calls[|calls| - 1].now) ==>
              Welcome(c, m, last, k, message, epoch)
    ensures Indices(calls + [last]) == Indices(calls) + {last.r.index}
  {
    var all := calls + [last];
    assert all[|calls|] == last && last.r.index >= 0;
    hide F.Count, RR.Carries, ValidBinding, ValidRecord;
    assert forall j :: 0 <= j < |calls| ==> calls[j] == all[j];
    IndicesStep(all);
    assert all[..|all| - 1] == calls;
  }

  /** The call that brings the last missing part completes the message. */
  lemma Completes(c: Codec, calls: seq<RR.Call>, last: RR.Call, k: RK.Key, message: seq<byte>, epoch: int)
    requires WelcomeAll(c, calls + [last], k, message, epoch)
    requires !RR.Covers(Indices(calls), F.Count(|message|, UNIT))
             && RR.Covers(Indices(calls + [last]), F.Count(|message|, UNIT))
    ensures var m := RR.Play(NATIVE, c, RK.Machine(map[], 0, None, epoch, 0), calls);
            RK.AcceptKeyed(NATIVE, c, m, last.b, last.r, last.now).1 == 1
            && RK.AcceptKeyed(NATIVE, c, m, last.b, last.r, last.now).0.done == Some(message)
  {
    hide Collecting, RK.AcceptKeyed, F.Count, Welcome, WelcomeAll, RR.Play, Indices;
    WelcomeSplit(c, calls, last, k, message, epoch);
    RunCollects(c, calls, k, message, epoch);
    var m := RR.Play(NATIVE, c, RK.Machine(map[], 0, None, epoch, 0), calls);
    CollectOne(c, m, last, k, message, Indices(calls), epoch);
  }

  lemma SenderWelcome(calls: seq<RR.Call>, b: Binding, ident: seq<byte>, units: int, message: seq<byte>, epoch: int)
    requires Sendable(ident, units, message) && JD.ValidDocument(message) && Timely(calls, b, epoch)
    requires forall j :: 0 <= j < |calls| ==> FromSender(calls[j], b, ident, units, message)
    ensures WelcomeAll(NATIVE_CODEC, calls, KeyFor(b, ident), message, epoch)
  {
    hide F.Part, ValidBinding, ValidRecord, RR.Carries, FromSender, Sendable, F.Count;
    DocumentSize(message);
    hide JD.ValidDocument;
    var k := KeyFor(b, ident);
    forall j | 0 <= j < |calls|
      ensures ValidRecord(NATIVE, NATIVE_CODEC, calls[j].r) && calls[j].b == b && RK.KeyOf(calls[j].b, calls[j].r) == k
      ensures RR.Carries(calls[j], k, message, UNIT, F.Count(|message|, UNIT))
    {
      SenderFacts(calls[j], b, ident, units, message);
    }
  }

  /** In a pool of its own the message needs no luck: the shipped quotas admit every part of it. */
  lemma EndToEndAlone(calls: seq<RR.Call>, last: RR.Call, b: Binding, ident: seq<byte>, units: int, message: seq<byte>,
                      epoch: int)
    requires Sendable(ident, units, message) && JD.ValidDocument(message) && Timely(calls + [last], b, epoch)
    requires forall x :: x in calls + [last] ==> FromSender(x, b, ident, units, message)
    requires var parts := F.Count(|message|, UNIT);
             !RR.Covers(Indices(calls), parts) && RR.Covers(Indices(calls + [last]), parts)
    ensures var m := RR.Play(NATIVE, NATIVE_CODEC, RK.Machine(map[], 0, None, epoch, 0), calls);
            var (m', code) := RK.AcceptKeyed(NATIVE, NATIVE_CODEC, m, last.b, last.r, last.now);
            code == 1 && m'.done == Some(message)
  {
    hide Sendable, FromSender, Timely, WelcomeAll, Indices, RR.Covers, RR.Play, RK.AcceptKeyed, JD.ValidDocument,
         F.Count;
    SenderWelcome(calls + [last], b, ident, units, message, epoch);
    Completes(NATIVE_CODEC, calls, last, KeyFor(b, ident), message, epoch);
  }
}
