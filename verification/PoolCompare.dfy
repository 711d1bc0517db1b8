/**
 Comparing a pool with the expected bytes. The pool in place has a byte form; after the calls
 of a plan it is the packed form, and after a message that completed it is the completed form.
 */
module PoolCompare {
  import opened Common
  import opened Arena
  import opened Reassembly
  import opened PoolBytes
  import opened PoolLegible
  import opened PoolOracle
  import opened PoolOracleRuns
  import PW = PoolWords
  import F = Fragments
  import RK = ReassemblyKeyed
  import RP = ReassemblyPool
  import RR = ReassemblyRuns

  // ---------------------------------------------------------------- the builders fill their widths

  /** What `Fresh` returns fits its widths. */
  lemma FreshNarrow(l: Limits, epoch: nat, r: Raw)
    requires Sized(l) && epoch <= CLOCK_MAX && Stands(l, r, EmptyImage(l, epoch))
    ensures Legible(l, EmptyImage(l, epoch)) && NarrowRaw(r)
  {
    hide Stands, Records, Sized;
    LegibleNarrow(l, r, EmptyImage(l, epoch));
  }

  lemma FullPageNarrow(l: Limits, p: Plan, t: nat)
    requires Planned(l, p) && Sized(l) && p.base + t < 256
    ensures Narrow(FullPage(l, p, t))
  {
    Widths();
    hide Pow256, Ident, PeerKey, F.Start;
  }

  lemma PackedPagesNarrow(l: Limits, p: Plan)
    requires Planned(l, p) && Sized(l)
    ensures AllNarrow(Pages(l, p, p.used, 0))
  {
    var hs := Pages(l, p, p.used, 0);
    EmptyNarrow();
    forall t | 0 <= t < |hs|
      ensures Narrow(hs[t])
    {
      if t < p.used {
        FullPageNarrow(l, p, t);
      }
    }
  }

  /** What `Pack` returns fits its widths. */
  lemma PackedNarrow(l: Limits, p: Plan, r: Raw)
    requires Planned(l, p) && Sized(l) && Stands(l, r, Filled(l, p, p.used, 0))
    ensures Legible(l, Filled(l, p, p.used, 0)) && NarrowRaw(r)
  {
    PackedPagesNarrow(l, p);
    EmptyNarrow();
    PrefixBytes(l, p, p.used, 0);
    F.StartZero(|p.message|, p.unit);
    hide Bytes, Prefix, Pages, Records, Narrow, AllNarrow, Packed, Chain, First, Last;
    LegibleNarrow(l, r, Filled(l, p, p.used, 0));
  }

  /** And so does what `Completed` returns. */
  lemma CompletedNarrow(l: Limits, message: seq<byte>, ident: seq<byte>, parts: nat, epoch: nat, now: nat, r: Raw)
    requires Sized(l) && |message| <= l.message && |ident| == 2 && parts <= l.parts && epoch <= CLOCK_MAX
             && now <= CLOCK_MAX
    requires Stands(l, r, Done(l, message, ident, parts, epoch, now))
    ensures Legible(l, Done(l, message, ident, parts, epoch, now)) && NarrowRaw(r)
  {
    Widths();
    hide Pow256, PeerKey;
    EmptyNarrow();
    assert Narrow(Page(ident, parts, epoch, now));
    LegibleNarrow(l, r, Done(l, message, ident, parts, epoch, now));
  }

  // ---------------------------------------------------------------- the pool in place

  /** The pool's fields, in the order in which they lie in the buffer. */
  ghost function RawOf(q: RP.Pool, tail: nat): Raw
    requires q.Valid()
    reads q, q.arena, q.arena.entries, q.arena.payload, q.headers, q.output
  {
    PoolStandsWords(q);
    Raw(Words(q.pending, q.arena.used, q.size, q.done, q.arena.first, q.arena.last, q.epoch, q.clock), q.held,
        q.headers[..], q.arena.entries[..], q.arena.payload[..], q.output[..], tail)
  }

  lemma PoolStandsWords(q: RP.Pool)
    requires q.Valid()
    ensures 0 <= q.pending && 0 <= q.size && 0 <= q.done && 0 <= q.epoch && 0 <= q.clock
    ensures 0 <= q.arena.used && 0 <= q.arena.first && 0 <= q.arena.last
  {
    assert Initialized(q.l, q.View());
    hide Bytes, RK.PoolOk;
  }

  /** The pool's own words and arrays stand for its contents. */
  lemma PoolStands(q: RP.Pool, tail: nat)
    requires q.Valid()
    ensures Stands(q.l, RawOf(q, tail), q.View())
  {
    assert Initialized(q.l, q.View());
    hide Bytes, RK.HeaderOk;
  }

  /** Whatever calls the pool has had, its bytes are the expected ones exactly when its contents are. */
  lemma PoolMatches(q: RP.Pool, tail: nat, r: Raw, g: Image)
    requires q.Valid() && Sized(q.l) && Stands(q.l, r, g) && r.tail == tail && Legible(q.l, g)
    ensures RawOk(RawOf(q, tail)) && RawOk(r)
    ensures Encode(RawOf(q, tail)) == Encode(r) <==> q.View() == g
  {
    PoolStands(q, tail);
    PoolIsLegible(q.l, q.View());
    hide Stands, Legible, Encode, RK.PoolOk, Sized;
    SameBytes(q.l, RawOf(q, tail), r, q.View(), g);
  }

  lemma PartsPositive(q: RP.Pool)
    requires q.Valid()
    ensures q.l.parts > 0
  {
    hide Bytes;
  }

  lemma NothingPlayed(l: Limits, c: Codec, g: Image, m: RK.Machine)
    requires l.parts > 0
    ensures PlayPool(l, c, g, []) == g && RR.Play(l, c, m, []) == m
  {
  }

  lemma OneMore(l: Limits, c: Codec, g: Image, m: RK.Machine, calls: seq<RR.Call>, i: nat)
    requires l.parts > 0 && i < |calls|
    ensures var x, before := calls[i], calls[..i];
            && PlayPool(l, c, g, calls[..i + 1])
                 == Reassembly.Accept(l, c, PlayPool(l, c, g, before), x.b, x.r, x.now).0
            && RR.Play(l, c, m, calls[..i + 1]) == RK.AcceptKeyed(l, c, RR.Play(l, c, m, before), x.b, x.r, x.now).0
  {
    hide RK.AcceptKeyed, Reassembly.Accept;
    assert calls[..i + 1][..i] == calls[..i];
  }

  method Feed(q: RP.Pool, c: Codec, calls: seq<RR.Call>)
    requires q.Valid()
    modifies q, q.arena, q.arena.entries, q.arena.payload, q.headers, q.output
    ensures q.Valid() && q.l.parts > 0 && q.View() == PlayPool(q.l, c, old(q.View()), calls)
    ensures q.machine == RR.Play(q.l, c, old(q.machine), calls)
  {
    hide RP.Pool.Valid, RK.AcceptKeyed, Reassembly.Accept, PlayPool, RR.Play;
    ghost var g, m := q.View(), q.machine;
    PartsPositive(q);
    NothingPlayed(q.l, c, g, m);
    assert calls[..0] == [];
    for i := 0 to |calls|
      invariant q.Valid() && q.l.parts > 0 && q.View() == PlayPool(q.l, c, g, calls[..i])
      invariant q.machine == RR.Play(q.l, c, m, calls[..i])
    {
      var x := calls[i];
      OneMore(q.l, c, g, m, calls, i);
      var code := q.Accept(c, x.b, x.r, x.now);
    }
    assert calls[..|calls|] == calls;
  }

  lemma PackedMatches(q: RP.Pool, c: Codec, p: Plan, tail: nat, r: Raw)
    requires Feeds(q.l, c, p) && Sized(q.l) && q.Valid() && r.tail == tail && Stands(q.l, r, Filled(q.l, p, p.used, 0))
    requires q.View() == PlayPool(q.l, c, EmptyImage(q.l, p.epoch), InOrder(q.l, p, p.used, 0))
    ensures RawOk(RawOf(q, tail)) && RawOk(r) && Encode(RawOf(q, tail)) == Encode(r)
  {
    FeedAll(q.l, c, p, p.used, 0);
    PackedNarrow(q.l, p, r);
    hide Stands, Legible, Encode, Filled, InOrder, Sized, PlayPool, RK.PoolOk, RK.Represents, RP.Pool.Valid, RawOf;
    PoolMatches(q, tail, r, Filled(q.l, p, p.used, 0));
  }

  /** The parts of a plan, fed in order, leave exactly the bytes that `Pack` builds. */
  method FedIsPacked(l: Limits, c: Codec, p: Plan, tail: nat) returns (q: RP.Pool, raw: array<byte>)
    requires Feeds(l, c, p) && p.used > 0 && Sized(l)
    ensures q.Valid() && q.l == l && q.View() == PlayPool(l, c, EmptyImage(l, p.epoch), InOrder(l, p, p.used, 0))
    ensures RawOk(RawOf(q, tail)) && raw[..] == Encode(RawOf(q, tail))
  {
    hide Stands, Encode, Filled, InOrder, Sized, PlayPool, RK.PoolOk, RK.Represents, RP.Pool.Valid, RawOf, RR.Play,
         EmptyImage;
    q := new RP.Pool(l, p.epoch);
    Feed(q, c, InOrder(l, p, p.used, 0));
    ghost var r;
    raw, r := Pack(l, p, tail);
    PackedMatches(q, c, p, tail, r);
  }

  lemma CompletedMatches(q: RP.Pool, c: Codec, calls: seq<RR.Call>, last: RR.Call, message: seq<byte>, unit: nat,
                         epoch: nat, tail: nat, r: Raw)
    requires OneMessage(q.l, c, calls, last, message, unit, epoch) && |last.r.ident| == 2 && Sized(q.l)
    requires last.now >= 0 && |message| <= q.l.message && q.Valid() && r.tail == tail
    requires q.View() == PlayPool(q.l, c, EmptyImage(q.l, epoch), calls + [last])
    requires Stands(q.l, r, Done(q.l, message, last.r.ident, F.Count(|message|, unit), epoch, last.now))
    ensures RawOk(RawOf(q, tail)) && RawOk(r) && Encode(RawOf(q, tail)) == Encode(r)
  {
    AnyOrder(q.l, c, calls, last, message, unit, epoch);
    PoolIsLegible(q.l, q.View());
    hide Stands, Legible, Encode, Done, Sized, PlayPool, RK.PoolOk, RK.Represents, RP.Pool.Valid, RawOf, OneMessage;
    PoolMatches(q, tail, r, Done(q.l, message, last.r.ident, F.Count(|message|, unit), epoch, last.now));
  }

  lemma MessageFacts(l: Limits, c: Codec, calls: seq<RR.Call>, last: RR.Call, message: seq<byte>, unit: nat, epoch: nat)
    requires OneMessage(l, c, calls, last, message, unit, epoch)
    ensures l.parts > 0 && 0 < epoch <= CLOCK_MAX && unit > 0 && last.now >= 0 && |message| <= l.message
  {
    AnyOrder(l, c, calls, last, message, unit, epoch);
    hide RK.AcceptKeyed, RR.Play;
  }

  /** One message in any order leaves, when it completes, exactly the bytes that `Completed` builds. */
  method FedIsCompleted(l: Limits, c: Codec, calls: seq<RR.Call>, last: RR.Call, message: seq<byte>, unit: nat,
                        epoch: nat, tail: nat)
      returns (q: RP.Pool, raw: array<byte>)
    requires OneMessage(l, c, calls, last, message, unit, epoch) && |last.r.ident| == 2 && Sized(l)
    ensures q.Valid() && q.l == l && q.View() == PlayPool(l, c, EmptyImage(l, epoch), calls + [last])
    ensures RawOk(RawOf(q, tail)) && raw[..] == Encode(RawOf(q, tail))
  {
    hide Stands, Encode, Done, Sized, PlayPool, RK.PoolOk, RK.Represents, RP.Pool.Valid, RawOf, RR.Play, EmptyImage,
         OneMessage;
    MessageFacts(l, c, calls, last, message, unit, epoch);
    q := new RP.Pool(l, epoch);
    Feed(q, c, calls + [last]);
    ghost var r;
    raw, r := PoolOracle.Completed(l, message, last.r.ident, F.Count(|message|, unit), epoch, last.now, tail);
    CompletedMatches(q, c, calls, last, message, unit, epoch, tail, r);
  }

  // ---------------------------------------------------------------- byte by byte

  /** `Pack` builds the packed pool down to the last byte. */
  method PackedPool(l: Limits, p: Plan, tail: nat) returns (raw: array<byte>)
    requires Planned(l, p) && p.used > 0 && Sized(l)
    ensures p.count > 0 && PW.PackedSays(l, p, raw[..]) && raw.Length == Bytewise(l, tail)
  {
    hide Stands, Encode, Filled, Sized, PW.PackedSays, NarrowRaw, Planned, Bytewise;
    PW.PlanFits(l, p);
    ghost var r;
    raw, r := Pack(l, p, tail);
    PackedNarrow(l, p, r);
    PW.PackedSpelled(l, p, r);
  }

  /** And so for a reset pool. */
  method FreshPool(l: Limits, tail: nat, epoch: nat) returns (raw: array<byte>)
    requires Sized(l) && epoch <= CLOCK_MAX
    ensures var b, end := raw[..], l.slots * l.parts;
            && PW.FrontSays(b, Words(0, 0, 0, 0, end, end, epoch, 0)) && PW.Blank(b, 128, 1152)
            && PW.NothingBehind(l, b)
            && PW.Blank(b, PW.OutputPlace(l), |b|) && |b| == Bytewise(l, tail)
  {
    hide Stands, Encode, Sized, PW.FrontSays, PW.Blank, PW.NothingBehind, NarrowRaw, EmptyImage;
    ghost var r;
    raw, r := Fresh(l, tail, epoch);
    FreshNarrow(l, epoch, r);
    PW.FreshSpelled(l, r, epoch);
  }

  /** And for a completed one. */
  method CompletedPool(l: Limits, message: seq<byte>, ident: seq<byte>, parts: nat, epoch: nat, now: nat, tail: nat)
      returns (raw: array<byte>)
    requires Sized(l) && |message| <= l.message && |ident| == 2 && parts <= l.parts && epoch <= CLOCK_MAX
             && now <= CLOCK_MAX
    ensures var b, end := raw[..], l.slots * l.parts;
            && PW.FrontSays(b, Words(0, 0, |message|, 1, end, end, epoch, now))
            && PW.PageSays(b, 128, Header(1, 1, epoch, [11] + Zeros(31), ident, 2, parts, 0, 0, now))
            && PW.NothingBehind(l, b) && PW.Holds(b, PW.OutputPlace(l), message)
            && PW.Blank(b, PW.OutputPlace(l) + |message|, |b|) && |b| == Bytewise(l, tail)
  {
    hide Stands, Encode, Sized, PW.FrontSays, PW.Blank, PW.NothingBehind, PW.Holds, PW.PageSays, NarrowRaw, Done;
    ghost var r;
    raw, r := PoolOracle.Completed(l, message, ident, parts, epoch, now, tail);
    CompletedNarrow(l, message, ident, parts, epoch, now, r);
    PW.CompletedSpelled(l, r, message, ident, parts, epoch, now);
  }
}
