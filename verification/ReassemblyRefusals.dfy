/**
 What the pool answers, in terms of the fields it is given: which bindings and records it
 refuses, when it keeps and completes, what expiry and revocation take, and what every page
 and key of a reachable pool looks like.
 */
module ReassemblyRefusals {
  import opened Common
  import opened Reassembly
  import opened ReassemblyKeyed
  import RD = ReassemblyDrop
  import RR = ReassemblyRuns

  // ---------------------------------------------------------------- bindings and records

  /** A binding with a wrong magic, version, epoch, peer, reserved word, tail or key size, or with an
      all-zero key, changes nothing: the pool answers -1 and revokes nothing under it. */
  lemma BindingRefused(l: Limits, c: Codec, g: Image, m: Machine, b: Binding, r: Record, now: int, m': Machine)
    requires l.parts > 0 && g.epoch == m.epoch
    requires || b.magic != 0x3142504b || b.version != 1 || b.epoch != m.epoch || b.peer < 1 || b.peer > 64
             || b.reserved != 0 || b.tail != 0 || |b.key| != 32 || forall i :: 0 <= i < |b.key| ==> b.key[i] == 0
    ensures Forged(m.epoch, b)
    ensures Accept(l, c, g, b, r, now) == (g, -1) && AcceptKeyed(l, c, m, b, r, now) == (m, -1)
    ensures RR.Drops(m, RR.Revoke(b), m') ==> m' == m
  {
    hide ValidRecord;
    assert !ValidBinding(m.epoch, b);
  }

  /** A record with any field out of range changes nothing. */
  lemma RecordRefused(l: Limits, c: Codec, g: Image, m: Machine, b: Binding, r: Record, now: int)
    requires l.parts > 0
    requires || r.magic != 0x3146504b || |r.ident| < 1 || |r.ident| > 640 || r.units < 1 || r.units > 160
             || c.units(r.ident) != r.units || r.parts < 1 || r.parts > l.parts || r.index < 0 || r.index >= r.parts
             || |r.text| > 700
    ensures Malformed(l, c, r)
    ensures Accept(l, c, g, b, r, now) == (g, -1) && AcceptKeyed(l, c, m, b, r, now) == (m, -1)
  {
    hide ValidBinding;
  }

  /** Neither does a call while a message is pinned, or one whose clock runs backwards or too far. */
  lemma TimeRefused(l: Limits, c: Codec, g: Image, m: Machine, b: Binding, r: Record, now: int)
    requires Represents(l, g, m) && l.parts > 0
    requires m.done.Some? || now < m.clock || now > 9007199254740991
    ensures Accept(l, c, g, b, r, now) == (g, -1) && AcceptKeyed(l, c, m, b, r, now) == (m, -1)
  {
    hide ValidBinding, ValidRecord, PoolOk, ShowsAll, PlacedAll;
    assert m.done.Some? ==> g.done != 0;
  }

  /** The parts under the key of `r` once `r` has taken its place. */
  function Chunks(m: Machine, b: Binding, r: Record): map<nat, seq<byte>>
    requires r.index >= 0
  {
    var k := Key(b.peer, b.key, r.ident);
    (if k in m.pending then m.pending[k].chunks else map[])[r.index := r.text]
  }

  /** What a copy of the part that is already there holds. */
  function Replaced(m: Machine, b: Binding, r: Record): nat {
    var k := Key(b.peer, b.key, r.ident);
    if k in m.pending && r.index in m.pending[k].chunks then |m.pending[k].chunks[r.index]| else 0
  }

  /** The part would not fit: another number of parts, no slot, or too many bytes. */
  predicate Overfull(l: Limits, m: Machine, b: Binding, r: Record)
    requires 0 <= r.index && 0 <= r.parts
  {
    var k := Key(b.peer, b.key, r.ident);
    || (k in m.pending && m.pending[k].parts != r.parts) || (k !in m.pending && |m.pending| >= l.slots)
    || TotalOf(Chunks(m, b, r), r.parts) > l.message
    || m.buffered - Replaced(m, b, r) + |r.text| > l.arena
  }

  /** Each answer, exactly: refused, kept, or completed. */
  lemma AnswerExact(l: Limits, c: Codec, m: Machine, b: Binding, r: Record, now: int)
    ensures var (m', code) := AcceptKeyed(l, c, m, b, r, now);
            if || Forged(m.epoch, b) || Malformed(l, c, r) || m.done.Some? || now < m.clock || now > 9007199254740991
               || Overfull(l, m, b, r)
            then code == -1 && m' == m
            else if |Chunks(m, b, r)| != r.parts then code == 0
            else code == if c.document(Join(Chunks(m, b, r), r.parts)) then 1 else -1
  {
    hide TotalOf, Join;
    ForgedExact(m.epoch, b);
    MalformedExact(l, c, r);
    hide Forged, Malformed, ValidBinding;
  }

  lemma MalformedExact(l: Limits, c: Codec, r: Record)
    ensures Malformed(l, c, r) <==> !ValidRecord(l, c, r)
    ensures !Malformed(l, c, r) ==> 0 <= r.index < r.parts
  {
  }

  /** A kept part changes its own assembly, the byte count and the clock, and nothing else. */
  lemma KeptExactly(l: Limits, c: Codec, m: Machine, b: Binding, r: Record, now: int)
    requires AcceptKeyed(l, c, m, b, r, now).1 == 0
    ensures var m', k := AcceptKeyed(l, c, m, b, r, now).0, Key(b.peer, b.key, r.ident);
            && r.index >= 0 && r.parts >= 0 && k in m'.pending
            && m'.pending[k].parts == r.parts && m'.pending[k].touched == now && m'.pending[k].chunks == Chunks(m, b, r)
            && (forall q :: q != k ==> (q in m'.pending <==> q in m.pending))
            && (forall q :: q != k && q in m.pending ==> m'.pending[q] == m.pending[q])
            && m'.buffered == m.buffered - Replaced(m, b, r) + |r.text|
            && m'.clock == now && m'.done == m.done && m'.epoch == m.epoch
  {
    hide TotalOf, Join, ValidBinding;
  }

  /** A completed message leaves its own assembly out, pins all its parts in order, and changes nothing else. */
  lemma CompletedExactly(l: Limits, c: Codec, m: Machine, b: Binding, r: Record, now: int)
    requires AcceptKeyed(l, c, m, b, r, now).1 == 1
    ensures var m', k := AcceptKeyed(l, c, m, b, r, now).0, Key(b.peer, b.key, r.ident);
            && r.index >= 0 && r.parts >= 0 && k !in m'.pending
            && (forall q :: q != k ==> (q in m'.pending <==> q in m.pending))
            && (forall q :: q != k && q in m.pending ==> m'.pending[q] == m.pending[q])
            && m'.done == Some(Join(Chunks(m, b, r), r.parts)) && c.document(Join(Chunks(m, b, r), r.parts))
            && m'.clock == now && m'.epoch == m.epoch
  {
    hide TotalOf, Join, ValidBinding;
  }

  // ---------------------------------------------------------------- what removal takes

  /** Expiry takes exactly the assemblies last touched `idle` or longer ago. */
  lemma ExpiredExact(m: Machine, m': Machine, now: int, idle: int)
    requires RR.Drops(m, RR.Expire(now, idle), m')
    ensures if m.clock <= now <= 9007199254740991 && 0 < idle <= 9007199254740991
            then && (forall k :: k in m'.pending <==> k in m.pending && now - m.pending[k].touched < idle)
                 && (forall k :: k in m'.pending ==> m'.pending[k] == m.pending[k]) && m'.clock == now
            else m' == m
  {
  }

  /** Revocation takes exactly the assemblies under the peer and key of a binding that is not forged. */
  lemma RevokedExact(m: Machine, m': Machine, b: Binding)
    requires RR.Drops(m, RR.Revoke(b), m')
    ensures if Forged(m.epoch, b) then m' == m
            else && (forall k :: k in m'.pending <==> k in m.pending && !(k.peer == b.peer && k.key == b.key))
                 && (forall k :: k in m'.pending ==> m'.pending[k] == m.pending[k]) && m'.clock == m.clock
  {
    ForgedExact(m.epoch, b);
    hide Forged, ValidBinding;
  }

  // ---------------------------------------------------------------- every reachable pool

  /** Every page in use, and the page of the pinned message, carries a whole key that is not all zero. */
  lemma PagesKeyed(l: Limits, g: Image, s: nat)
    requires PoolOk(l, g) && s < l.slots
    ensures g.headers[s].live == 1 ==>
              var h := g.headers[s];
              && |h.key| == 32 && 1 <= h.peer <= 64 && h.epoch == g.epoch && exists i :: 0 <= i < 32 && h.key[i] != 0
    ensures g.done == 1 ==>
              |g.held.key| == 32 && 1 <= g.held.peer <= 64 && exists i :: 0 <= i < 32 && g.held.key[i] != 0
  {
    assert HeaderOk(l, g, s);
    hide HeaderOk, SlotMap, TotalOf;
  }

  /** What every key and assembly of the map looks like. */
  ghost predicate WellKeyed(l: Limits, m: Machine) {
    forall k :: k in m.pending ==>
      && 1 <= k.peer <= 64 && |k.key| == 32 && (exists i :: 0 <= i < 32 && k.key[i] != 0) && 1 <= |k.ident| <= 640
      && 0 < m.pending[k].parts <= l.parts
      && forall i :: i in m.pending[k].chunks ==> i < m.pending[k].parts && |m.pending[k].chunks[i]| <= 700
  }

  lemma MoveKeyed(l: Limits, c: Codec, m: Machine, e: RR.Event, m': Machine)
    requires WellKeyed(l, m) && RR.Moves(l, c, m, e, m')
    ensures WellKeyed(l, m')
  {
    if e.Offer? {
      OfferKeyed(l, c, m, e.call);
    }
  }

  lemma OfferKeyed(l: Limits, c: Codec, m: Machine, x: RR.Call)
    requires WellKeyed(l, m)
    ensures WellKeyed(l, AcceptKeyed(l, c, m, x.b, x.r, x.now).0)
  {
    hide TotalOf, Join, Admitted, ValidBinding, ValidRecord, Size, At;
    if Admitted(l, c, m, x.b, x.r, x.now) {
      OfferedKey(l, c, m, x);
    }
  }

  lemma OfferedKey(l: Limits, c: Codec, m: Machine, x: RR.Call)
    requires Admitted(l, c, m, x.b, x.r, x.now)
    ensures 1 <= x.b.peer <= 64 && |x.b.key| == 32 && (exists i :: 0 <= i < 32 && x.b.key[i] != 0)
    ensures 1 <= |x.r.ident| <= 640 && 0 <= x.r.index < x.r.parts <= l.parts && |x.r.text| <= 700
  {
  }

  /** In every run that starts from such a map, at every moment. */
  lemma {:induction false} RunKeyed(l: Limits, c: Codec, ms: seq<Machine>, es: seq<RR.Event>, n: nat)
    requires RR.Runs(l, c, ms, es) && WellKeyed(l, ms[0]) && n <= |es|
    ensures WellKeyed(l, ms[n])
  {
    hide WellKeyed, RR.Moves;
    if n > 0 {
      RunKeyed(l, c, ms, es, n - 1);
      assert RR.Moves(l, c, ms[n - 1], es[n - 1], ms[n]);
      MoveKeyed(l, c, ms[n - 1], es[n - 1], ms[n]);
    }
  }
}
