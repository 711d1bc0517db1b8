/**
 The expected pools are the pools that the calls lead to: feeding the parts in order gives
 the packed contents, and feeding them in any order gives the completed one. With one byte
 form for each contents, comparing the buffers byte by byte is comparing what they hold.
 */
module PoolOracleRuns {
  import opened Common
  import opened Arena
  import opened Reassembly
  import opened PoolBytes
  import opened PoolOracle
  import F = Fragments
  import RK = ReassemblyKeyed
  import RR = ReassemblyRuns

  function PlayPool(l: Limits, c: Codec, g: Image, calls: seq<RR.Call>): Image
    requires l.parts > 0
  {
    if calls == [] then g
    else
      var x := calls[|calls| - 1];
      Reassembly.Accept(l, c, PlayPool(l, c, g, calls[..|calls| - 1]), x.b, x.r, x.now).0
  }

  function Sender(epoch: nat): Binding { Binding(BINDING_MAGIC, 1, epoch, 1, 0, PeerKey(), 0) }

  function PartCall(l: Limits, p: Plan, s: nat, i: nat): RR.Call
    requires p.base + s < 256
  {
    RR.Call(Sender(p.epoch),
            Reassembly.Record(RECORD_MAGIC, Ident(p.base + s), 2, i, l.parts, F.Part(p.message, p.unit, i)), p.clock)
  }

  /** Slot by slot, part by part. */
  function InOrder(l: Limits, p: Plan, s: nat, i: nat): seq<RR.Call>
    requires p.base + s <= 256 && (i > 0 ==> p.base + s < 256)
    decreases s, i
  {
    if i > 0 then InOrder(l, p, s, i - 1) + [PartCall(l, p, s, i - 1)]
    else if s > 0 then InOrder(l, p, s - 1, p.count)
    else []
  }

  lemma SenderValid(epoch: nat)
    ensures ValidBinding(epoch, Sender(epoch))
  {
    var k := PeerKey();
    assert k[0] == 11;
  }

  lemma IdentInjective(x: nat, y: nat)
    requires x < 256 && y < 256
    ensures Ident(x) == Ident(y) ==> x == y
  {
    var a, b := Ident(x), Ident(y);
    assert a == b ==> a[0] == b[0] && a[1] == b[1];
  }

  /** The next part of the run finds its slot. */
  lemma {:induction false} FindNext(l: Limits, p: Plan, s: nat, i: nat, t: nat, free: int)
    requires Planned(l, p) && s < p.used && i < p.count && t <= s && free == -1
    ensures var x := PartCall(l, p, s, i);
            FindSlot(Filled(l, p, s, i).headers, x.b, x.r, t, free) == s
    decreases s - t
  {
    var x, hs := PartCall(l, p, s, i), Filled(l, p, s, i).headers;
    if t < s {
      IdentInjective(p.base + t, p.base + s);
      assert hs[t] == FullPage(l, p, t);
      FindNext(l, p, s, i, t + 1, free);
    } else if i > 0 {
      assert Matches(hs[s], x.b, x.r);
    } else {
      assert forall t :: s <= t < |hs| ==> hs[t] == EMPTY;
      FirstFree(hs, x.b, x.r, s + 1, s);
    }
  }

  lemma {:induction false} FirstFree(hs: seq<Header>, b: Binding, r: Reassembly.Record, t: nat, free: nat)
    requires t <= |hs| && forall u :: t <= u < |hs| ==> hs[u] == EMPTY
    ensures FindSlot(hs, b, r, t, free) == free
    decreases |hs| - t
  {
    if t < |hs| {
      FirstFree(hs, b, r, t + 1, free);
    }
  }

  lemma {:induction false} NotHeld(items: seq<Item>, id: int)
    requires !Has(items, id)
    ensures PartOf(items, id) == None
  {
    if items != [] {
      assert items[|items| - 1].id != id;
      var front := items[..|items| - 1];
      forall j | 0 <= j < |front|
        ensures front[j].id != id
      {
        assert items[j] == front[j];
      }
      NotHeld(front, id);
    }
  }

  ghost predicate Feeds(l: Limits, c: Codec, p: Plan) {
    && Planned(l, p) && p.count < l.parts
    && forall x :: 0 <= x < 256 ==> c.units(Ident(x)) == 2
  }

  function Later(l: Limits, p: Plan, s: nat, i: nat): Image
    requires p.base + p.used <= 256 && s < p.used && i < p.count
  {
    if i + 1 < p.count then Filled(l, p, s, i + 1) else Filled(l, p, s + 1, 0)
  }

  lemma FilledInitialized(l: Limits, p: Plan, s: nat, i: nat)
    requires Planned(l, p) && s < p.used && i < p.count
    ensures Initialized(l, Filled(l, p, s, i)) && Filled(l, p, s, i).clock <= p.clock
  {
    PartFacts(l, p, s, i);
    MulLe(s + 1, p.used, |p.message|);
    assert (s + 1) * |p.message| == s * |p.message| + |p.message|;
    hide Bytes, Prefix, Has, IdOf, Records, Pages, F.Part, F.Count;
  }

  lemma PartValid(l: Limits, c: Codec, p: Plan, s: nat, i: nat)
    requires Feeds(l, c, p) && s < p.used && i < p.count
    ensures ValidRecord(l, c, PartCall(l, p, s, i).r)
  {
    F.StartMonotone(|p.message|, p.unit, i);
    hide Ident, PeerKey, F.Start;
  }

  lemma GuardHolds(l: Limits, c: Codec, p: Plan, s: nat, i: nat)
    requires Feeds(l, c, p) && s < p.used && i < p.count
    ensures var x := PartCall(l, p, s, i); AcceptGuard(l, c, Filled(l, p, s, i), x.b, x.r, x.now)
  {
    SenderValid(p.epoch);
    FilledInitialized(l, p, s, i);
    PartValid(l, c, p, s, i);
    hide Initialized, ValidRecord, ValidBinding, Prefix, Pages, Ident, PeerKey, F.Part;
  }

  lemma PartSizes(l: Limits, p: Plan, s: nat, i: nat)
    requires Planned(l, p) && s < p.used && i < p.count
    ensures var size := |F.Part(p.message, p.unit, i)|;
            && F.Start(|p.message|, p.unit, i) + size == F.Start(|p.message|, p.unit, i + 1) <= l.message
            && |Bytes(Prefix(l, p, s, i))| + size <= l.arena
  {
    PartFacts(l, p, s, i);
    F.StartMonotone(|p.message|, p.unit, i);
    MulLe(s + 1, p.used, |p.message|);
    hide Bytes, Prefix, IdOf, Records;
  }

  /** The header of slot `s` before and after its part `i`. */
  lemma PageBefore(l: Limits, p: Plan, s: nat, i: nat)
    requires Planned(l, p) && s < p.used && i < p.count
    ensures var h := Filled(l, p, s, i).headers[s];
            && h == (if i == 0 then EMPTY else FullPage(l, p, s).(count := i, total := F.Start(|p.message|, p.unit, i)))
            && h.count == i && h.total == F.Start(|p.message|, p.unit, i)
    ensures Later(l, p, s, i).headers
         == Filled(l, p, s, i).headers[s := FullPage(l, p, s).(count := i + 1,
                                                               total := F.Start(|p.message|, p.unit, i + 1))]
  {
    hide F.Start, PeerKey, Ident, Prefix, Zeros, Page;
    F.StartZero(|p.message|, p.unit);
  }

  lemma LaterItems(l: Limits, p: Plan, s: nat, i: nat)
    requires Planned(l, p) && s < p.used && i < p.count
    ensures Later(l, p, s, i).items == Prefix(l, p, s, i) + [Item(IdOf(s, l.parts, i), F.Part(p.message, p.unit, i))]
  {
    hide Pages, IdOf, F.Part;
    assert Prefix(l, p, s, i + 1) == Prefix(l, p, s, i) + [Item(IdOf(s, l.parts, i), F.Part(p.message, p.unit, i))];
    if i + 1 == p.count {
      assert Prefix(l, p, s + 1, 0) == Prefix(l, p, s, p.count);
    }
  }

  /** The page that `Append` writes. */
  lemma AppendedPage(l: Limits, p: Plan, s: nat, i: nat)
    requires Planned(l, p) && s < p.used && i < p.count
    ensures var x, h, size := PartCall(l, p, s, i), Filled(l, p, s, i).headers[s], |F.Part(p.message, p.unit, i)|;
            var base := if h.live == 0 then Saved(x.b, x.r, x.now) else h;
            && (h.live == 0 <==> i == 0)
            && base.(count := h.count + 1, total := h.total - 0 + size, touched := x.now)
               == FullPage(l, p, s).(count := i + 1, total := F.Start(|p.message|, p.unit, i + 1))
  {
    PageBefore(l, p, s, i);
    PartSizes(l, p, s, i);
    hide Bytes, Prefix, IdOf, Records, F.Start, F.Part, PeerKey, Ident, Pages;
  }

  /** `Append` when the part is not there yet. */
  lemma AppendFresh(l: Limits, g: Image, b: Binding, r: Reassembly.Record, now: int, s: nat)
    requires s < |g.headers| && 0 <= r.index && PartOf(g.items, IdOf(s, l.parts, r.index)) == None
    ensures var h := g.headers[s];
            var base := if h.live == 0 then Saved(b, r, now) else h;
            var page := base.(count := h.count + 1, total := h.total - 0 + |r.text|, touched := now);
            var pending := if h.live == 0 then g.pending + 1 else g.pending;
            Reassembly.Append(l, g, b, r, now, s)
                == g.(headers := g.headers[s := page], pending := pending, clock := now,
                                                        items := g.items + [Item(IdOf(s, l.parts, r.index), r.text)])
  {
    hide IdOf, PartOf, Keep, Saved;
  }

  lemma AppendNext(l: Limits, p: Plan, s: nat, i: nat)
    requires Planned(l, p) && s < p.used && i < p.count && PartOf(Prefix(l, p, s, i), IdOf(s, l.parts, i)) == None
    ensures var x := PartCall(l, p, s, i);
            Reassembly.Append(l, Filled(l, p, s, i), x.b, x.r, x.now, s) == Later(l, p, s, i)
  {
    hide Prefix, IdOf, PartOf, F.Start, F.Part, PeerKey, Ident, Pages, FullPage, Saved, Reassembly.Append, Zeros;
    var x := PartCall(l, p, s, i);
    PageBefore(l, p, s, i);
    AppendFresh(l, Filled(l, p, s, i), x.b, x.r, x.now, s);
    AppendedPage(l, p, s, i);
    LaterItems(l, p, s, i);
  }

  /** One part of the run: kept, and the contents are the next ones. */
  lemma FeedOne(l: Limits, c: Codec, p: Plan, s: nat, i: nat)
    requires Feeds(l, c, p) && s < p.used && i < p.count
    ensures var x := PartCall(l, p, s, i);
            Reassembly.Accept(l, c, Filled(l, p, s, i), x.b, x.r, x.now) == (Later(l, p, s, i), 0)
  {
    FindNext(l, p, s, i, 0, -1);
    GuardHolds(l, c, p, s, i);
    PartFacts(l, p, s, i);
    PartSizes(l, p, s, i);
    PageBefore(l, p, s, i);
    NotHeld(Prefix(l, p, s, i), IdOf(s, l.parts, i));
    AppendNext(l, p, s, i);
    hide Bytes, Prefix, IdOf, Records, PartOf, F.Start, F.Part, AcceptGuard, FindSlot, Later, PeerKey, Ident, Pages,
         Has,
         Reassembly.Append, Staged;
    assert Filled(l, p, s, i).pending <= s + 1;
  }

  /** Feeding every part in order, from a fresh pool, ends in the packed contents. */
  lemma {:induction false} FeedAll(l: Limits, c: Codec, p: Plan, s: nat, i: nat)
    requires Feeds(l, c, p) && s <= p.used && i < p.count && (s == p.used ==> i == 0)
    ensures PlayPool(l, c, EmptyImage(l, p.epoch), InOrder(l, p, s, i)) == Filled(l, p, s, i)
    decreases s, i
  {
    if s + i == 0 {
      assert Pages(l, p, 0, 0) == seq(l.slots, _ => EMPTY);
    } else {
      var s0, i0 := if i > 0 then s else s - 1, if i > 0 then i - 1 else p.count - 1;
      var calls, x := InOrder(l, p, s0, i0), PartCall(l, p, s0, i0);
      assert InOrder(l, p, s, i) == calls + [x];
      assert Later(l, p, s0, i0) == Filled(l, p, s, i);
      hide PartCall, Filled, InOrder, Reassembly.Accept, EmptyImage, Feeds, Planned, Later, PlayPool;
      FeedAll(l, c, p, s0, i0);
      FeedOne(l, c, p, s0, i0);
      PlayStep(l, c, EmptyImage(l, p.epoch), calls, x);
    }
  }

  lemma PlayStep(l: Limits, c: Codec, g: Image, calls: seq<RR.Call>, x: RR.Call)
    requires l.parts > 0
    ensures PlayPool(l, c, g, calls + [x]) == Reassembly.Accept(l, c, PlayPool(l, c, g, calls), x.b, x.r, x.now).0
  {
    assert (calls + [x])[..|calls|] == calls;
  }

  // ---------------------------------------------------------------- a message that completes

  lemma SlotOfBelow(id: nat, slots: nat, parts: nat)
    requires parts > 0 && id < slots * parts
    ensures SlotOf(id, parts) < slots
  {
    assert id == parts * (id / parts) + id % parts;
    if id / parts >= slots {
      MulLe(slots, id / parts, parts);
    }
  }

  lemma SomeSlot(items: seq<Item>, slots: nat, parts: nat)
    requires parts > 0 && items != [] && items[|items| - 1].id < slots * parts
    ensures exists s :: 0 <= s < slots && SlotMap(items, parts, s) != map[]
  {
    var x := items[|items| - 1];
    SlotOfBelow(x.id, slots, parts);
    assert IndexOf(x.id, parts) in SlotMap(items, parts, SlotOf(x.id, parts));
  }

  lemma LiveIsPending(l: Limits, g: Image, m: RK.Machine, s: nat)
    requires RK.Represents(l, g, m) && s < l.slots
    ensures g.headers[s].live == 1 ==> m.pending != map[]
  {
    assert g.headers[s].live == 1 ==> RK.Shows(l, g, m, s);
  }

  /** A pool with no assembly pending has blank pages and an empty arena. */
  lemma NothingPending(l: Limits, g: Image, m: RK.Machine)
    requires RK.Represents(l, g, m) && m.pending == map[]
    ensures g.headers == seq(l.slots, _ => EMPTY) && g.items == [] && g.pending == 0
  {
    forall s | 0 <= s < l.slots
      ensures g.headers[s] == EMPTY && SlotMap(g.items, l.parts, s) == map[]
    {
      assert RK.HeaderOk(l, g, s);
      LiveIsPending(l, g, m, s);
    }
    if g.items != [] {
      SomeSlot(g.items, l.slots, l.parts);
    }
  }

  lemma CompletionIs(l: Limits, c: Codec, g: Image, b: Binding, r: Reassembly.Record, now: int)
    requires l.parts > 0 && Reassembly.Accept(l, c, g, b, r, now).1 == 1
    ensures var g' := Reassembly.Accept(l, c, g, b, r, now).0;
            && g'.held == Saved(b, r, now) && g'.done == 1 && g'.clock == now && now >= 0 && g'.epoch == g.epoch
            && 0 <= g'.size <= l.message && |g'.output| == l.message
            && g'.output == g'.output[..g'.size] + Zeros(l.message - g'.size)
            && b.epoch == g.epoch
  {
    hide FindSlot, Staged, PartOf, IdOf, Keep;
    FindSlotRange(g.headers, b, r, 0, -1);
  }

  /** The call that completes the only message in the pool leaves exactly `Done`. */
  lemma LastPart(l: Limits, c: Codec, g: Image, m: RK.Machine, x: RR.Call, epoch: nat)
    requires RK.Represents(l, g, m) && l.parts > 0 && g.epoch == epoch && x.b == Sender(epoch) && x.r.units == 2
    requires m.pending.Keys <= {RK.KeyOf(x.b, x.r)}
    requires RK.AcceptKeyed(l, c, m, x.b, x.r, x.now).1 == 1
    ensures var g', m' := Reassembly.Accept(l, c, g, x.b, x.r, x.now).0, RK.AcceptKeyed(l, c, m, x.b, x.r, x.now).0;
            && x.now >= 0 && x.r.parts >= 0 && m'.done.Some? && |m'.done.value| <= l.message
            && g' == Done(l, m'.done.value, x.r.ident, x.r.parts, epoch, x.now)
  {
    RK.AcceptRefines(l, c, g, m, x.b, x.r, x.now);
    CompletionIs(l, c, g, x.b, x.r, x.now);
    var g', m' := Reassembly.Accept(l, c, g, x.b, x.r, x.now).0, RK.AcceptKeyed(l, c, m, x.b, x.r, x.now).0;
    KeyedCompletion(l, c, m, x);
    NothingPending(l, g', m');
    hide Reassembly.Accept, RK.AcceptKeyed, PeerKey;
    assert RK.Numbers(g', m') && Initialized(l, g');
  }

  lemma KeyedCompletion(l: Limits, c: Codec, m: RK.Machine, x: RR.Call)
    requires RK.AcceptKeyed(l, c, m, x.b, x.r, x.now).1 == 1 && m.pending.Keys <= {RK.KeyOf(x.b, x.r)}
    ensures RK.AcceptKeyed(l, c, m, x.b, x.r, x.now).0.pending == map[] && x.r.parts >= 0
  {
  }

  /** Running the pool and running the keyed map side by side. */
  lemma {:induction false} RunsAgree(l: Limits, c: Codec, g: Image, m: RK.Machine, calls: seq<RR.Call>)
    requires RK.Represents(l, g, m) && l.parts > 0
    ensures RK.Represents(l, PlayPool(l, c, g, calls), RR.Play(l, c, m, calls))
  {
    hide RK.Represents, RK.AcceptKeyed, Reassembly.Accept;
    if calls != [] {
      var pre, x := calls[..|calls| - 1], calls[|calls| - 1];
      RunsAgree(l, c, g, m, pre);
      RK.AcceptRefines(l, c, PlayPool(l, c, g, pre), RR.Play(l, c, m, pre), x.b, x.r, x.now);
    }
  }

  lemma {:induction false} OnlyKey(l: Limits, c: Codec, m: RK.Machine, calls: seq<RR.Call>, k: RK.Key)
    requires m.pending.Keys <= {k} && forall x :: x in calls ==> RK.KeyOf(x.b, x.r) == k
    ensures RR.Play(l, c, m, calls).pending.Keys <= {k} && RR.Play(l, c, m, calls).epoch == m.epoch
  {
    if calls != [] {
      OnlyKey(l, c, m, calls[..|calls| - 1], k);
    }
  }

  /** Every call brings a part of `message` under the key of `last`, and `last` completes it. */
  ghost predicate OneMessage(l: Limits, c: Codec, calls: seq<RR.Call>, last: RR.Call, message: seq<byte>, unit: nat,
                             epoch: nat) {
    && l.parts > 0 && 0 < epoch <= CLOCK_MAX && unit > 0 && last.b == Sender(epoch) && last.r.units == 2
    && (forall x :: x in calls + [last] ==>
          && RK.KeyOf(x.b, x.r) == RK.KeyOf(last.b, last.r)
          && RR.Carries(x, RK.KeyOf(last.b, last.r), message, unit, F.Count(|message|, unit)))
    && var m := RR.Play(l, c, RK.Machine(map[], 0, None, epoch, 0), calls);
       RK.AcceptKeyed(l, c, m, last.b, last.r, last.now).1 == 1
  }

  /** Parts of one message in any order, repeated at will: when the last call completes it,
      the pool holds exactly `Done` with that message. */
  lemma AnyOrder(l: Limits, c: Codec, calls: seq<RR.Call>, last: RR.Call, message: seq<byte>, unit: nat, epoch: nat)
    requires OneMessage(l, c, calls, last, message, unit, epoch)
    ensures last.now >= 0 && |message| <= l.message
    ensures PlayPool(l, c, EmptyImage(l, epoch), calls + [last])
         == Done(l, message, last.r.ident, F.Count(|message|, unit), epoch, last.now)
  {
    var k, m0 := RK.KeyOf(last.b, last.r), RK.Machine(map[], 0, None, epoch, 0);
    assert last in calls + [last] && forall x :: x in calls ==> x in calls + [last];
    RK.EmptyRepresents(l, epoch);
    RunsAgree(l, c, EmptyImage(l, epoch), m0, calls);
    OnlyKey(l, c, m0, calls, k);
    RR.Delivery(l, c, m0, calls, last, message, unit);
    var g, m := PlayPool(l, c, EmptyImage(l, epoch), calls), RR.Play(l, c, m0, calls);
    assert g.epoch == epoch;
    LastPart(l, c, g, m, last, epoch);
    PlayStep(l, c, EmptyImage(l, epoch), calls, last);
    assert RR.Carries(last, k, message, unit, F.Count(|message|, unit));
  }

  // ---------------------------------------------------------------- the shipped figures

  function Aggregate(message: seq<byte>): Plan { Plan(4, 1498, 20, message, 700, 42, 400) }

  function Dense(): Plan { Plan(128, 2047, 0, [], 700, 42, 500) }

  /** The two packed pools are plans for the shipped sizes; the first fills the arena. */
  lemma ShippedPlans(message: seq<byte>, c: Codec)
    requires |message| == 1048576 && forall x :: 0 <= x < 256 ==> c.units(Ident(x)) == 2
    ensures Feeds(NATIVE, c, Aggregate(message)) && Feeds(NATIVE, c, Dense())
    ensures Bytewise(NATIVE, 389120) == 8388608 && Records(NATIVE) == 262144
    ensures |Bytes(Filled(NATIVE, Aggregate(message), 4, 0).items)| == NATIVE.arena
    ensures Figures(NATIVE, Aggregate(message)).last == 3 * 2048 + 1497
            && Figures(NATIVE, Dense()).last == 127 * 2048 + 2046
  {
    PrefixBytes(NATIVE, Aggregate(message), 4, 0);
    F.StartZero(1048576, 700);
  }
}
