/** The pool in place. Each call commits exactly what `Reassembly.Accept` says, so by
    `ReassemblyKeyed.AcceptRefines` it also does what the keyed map does. */
module ReassemblyPool {
  import opened Common
  import opened Arena
  import opened Reassembly
  import AB = ArenaBuffer
  import RK = ReassemblyKeyed
  import RD = ReassemblyDrop
  import RR = ReassemblyRuns

  class Pool {
    const l: Limits
    const arena: AB.Buffer
    const headers: array<Header>
    const output: array<byte>
    var magic: int
    var version: int
    var pending: int
    var size: int
    var done: int
    var epoch: int
    var clock: int
    var held: Header
    ghost var machine: RK.Machine

    ghost function View(): Image
      reads this, arena, headers, output
    {
      Image(magic, version, pending, size, done, epoch, clock, headers[..], arena.items, held, output[..])
    }

    ghost predicate Parts()
      reads this, arena, arena.entries, arena.payload, headers, output
    {
      && arena.Valid() && arena.limit == Records(l) && arena.parts == l.parts && arena.payload.Length == l.arena
      && output != arena.payload && headers.Length == l.slots && output.Length == l.message
    }

    ghost predicate Valid()
      reads this, arena, arena.entries, arena.payload, headers, output
      ensures Valid() ==> Parts() && RK.PoolOk(l, View())
    {
      Parts() && RK.Represents(l, View(), machine)
    }

    /** A new pool is the empty map. */
    constructor (l: Limits, epoch: int)
      requires l.parts > 0 && 0 < epoch <= CLOCK_MAX
      ensures Valid() && this.l == l && machine == RK.Machine(map[], 0, None, epoch, 0)
              && View() == EmptyImage(l, epoch)
      ensures fresh(arena) && fresh(arena.entries) && fresh(arena.payload) && fresh(headers) && fresh(output)
    {
      this.l := l;
      arena := new AB.Buffer(l.slots, l.parts, l.arena);
      headers := new Header[l.slots](_ => EMPTY);
      output := new byte[l.message](_ => 0);
      magic, version, pending, size, done, this.epoch, clock := MAGIC, 1, 0, 0, 0, epoch, 0;
      held := EMPTY;
      machine := RK.Machine(map[], 0, None, epoch, 0);
      new;
      RK.EmptyRepresents(l, epoch);
      assert View() == EmptyImage(l, epoch);
    }

    /** Records of slot `s` as the pool reads them. */
    method PartLength(id: nat) returns (present: bool, size: nat)
      requires Parts() && id < Records(l)
      ensures present <==> PartOf(arena.items, id).Some?
      ensures size == Size(PartOf(arena.items, id))
    {
      AB.RecordMeans(arena.items, arena.entries[..], arena.payload[..], arena.used, arena.limit, id);
      PartOfHas(arena.items, id, arena.limit);
      present := arena.entries[id].mark >= PRESENT;
      size := if present then arena.entries[id].mark - PRESENT else 0;
    }

    method Find(b: Binding, r: Record) returns (s: int)
      ensures s == FindSlot(headers[..], b, r, 0, -1)
    {
      var free, i := -1, 0;
      while i < headers.Length
        invariant 0 <= i <= headers.Length && -1 <= free < headers.Length
        invariant FindSlot(headers[..], b, r, i, free) == FindSlot(headers[..], b, r, 0, -1)
      {
        if Matches(headers[i], b, r) {
          return i;
        }
        if free < 0 && headers[i].live == 0 {
          free := i;
        }
        i := i + 1;
      }
      return free;
    }

    method CopyOut(at: nat, text: seq<byte>)
      requires at + |text| <= output.Length
      modifies output
      ensures output[..] == old(output[..])[..at] + text + old(output[..])[at + |text|..]
    {
      for i := 0 to |text|
        invariant forall j :: 0 <= j < output.Length ==>
                    output[j] == if at <= j < at + i then text[j - at] else old(output[j])
      {
        output[at + i] := text[i];
      }
    }

    method ZeroOut()
      modifies output
      ensures output[..] == Zeros(output.Length)
    {
      for i := 0 to output.Length
        invariant forall j :: 0 <= j < i ==> output[j] == 0
      {
        output[i] := 0;
      }
    }

    /** Lays the parts of slot `s` end to end in the output, `r` in its place. */
    method Stage(s: nat, r: Record) returns (used: nat)
      requires Parts() && s < l.slots && 0 <= r.index < r.parts <= l.parts
      requires output[..] == Zeros(l.message) && |Staged(arena.items, s, l.parts, r, r.parts)| <= l.message
      modifies output
      ensures Parts() && used == |Staged(arena.items, s, l.parts, r, r.parts)|
      ensures output[..] == Staged(arena.items, s, l.parts, r, r.parts) + Zeros(l.message - used)
    {
      hide Linked, Packed, Bytes, Chain, PartOf, IdOf, Zeros, Records, First, Last;
      var i := 0;
      used := 0;
      assert [] + Zeros(l.message) == Zeros(l.message);
      while i < r.parts
        invariant 0 <= i <= r.parts && used == |Staged(arena.items, s, l.parts, r, i)| <= l.message
        invariant output[..] == Staged(arena.items, s, l.parts, r, i) + Zeros(l.message - used)
      {
        StagedGrows(arena.items, s, l.parts, r, i + 1, r.parts);
        used := StageOne(s, r, i, used);
        i := i + 1;
      }
    }

    method StageOne(s: nat, r: Record, i: nat, used: nat) returns (more: nat)
      requires Parts() && s < l.slots && i < l.parts
      requires used == |Staged(arena.items, s, l.parts, r, i)|
      requires used <= |Staged(arena.items, s, l.parts, r, i + 1)| <= l.message
      requires output[..] == Staged(arena.items, s, l.parts, r, i) + Zeros(l.message - used)
      modifies output
      ensures more == |Staged(arena.items, s, l.parts, r, i + 1)|
      ensures output[..] == Staged(arena.items, s, l.parts, r, i + 1) + Zeros(l.message - more)
    {
      hide Linked, Packed, Bytes, Chain, PartOf, IdOf, Zeros, Records, First, Last;
      var text := r.text;
      if i != r.index {
        text := PartText(s, i);
      }
      ghost var before, front := output[..], Staged(arena.items, s, l.parts, r, i);
      assert Staged(arena.items, s, l.parts, r, i + 1) == front + text;
      ZerosAfter(front, text, l.message);
      CopyOut(used, text);
      assert output[..] == before[..used] + text + before[used + |text|..];
      more := used + |text|;
    }

    lemma RecordText(id: nat)
      requires Parts() && id < arena.limit
      ensures id < arena.entries.Length
      ensures var e, text := arena.entries[id], Text(PartOf(arena.items, id));
              if e.mark >= PRESENT
              then 0 <= e.off <= e.off + (e.mark - PRESENT) <= arena.payload.Length
                   && text == arena.payload[..][e.off..e.off + (e.mark - PRESENT)]
              else text == []
    {
      hide Bytes, Records, Linked, Packed, Chain, PartOf, Text;
      TextOf(arena.items, arena.entries[..], arena.payload[..], arena.used, arena.limit, id);
    }

    lemma IdBelow(s: nat, i: nat)
      requires Parts() && s < l.slots && i < l.parts
      ensures IdOf(s, l.parts, i) < arena.limit
    {
      FreshId(l, s, i);
    }

    method PartText(s: nat, i: nat) returns (text: seq<byte>)
      requires Parts() && s < l.slots && i < l.parts
      ensures text == Text(PartOf(arena.items, IdOf(s, l.parts, i)))
    {
      hide Parts, IdOf, PartOf, Text, Linked, Packed, Chain, Bytes, Records, First, Last;
      IdBelow(s, i);
      var id := IdOf(s, l.parts, i);
      RecordText(id);
      var e := arena.entries[id];
      if e.mark >= PRESENT {
        text := arena.payload[e.off..e.off + (e.mark - PRESENT)];
        assert text == arena.payload[..][e.off..e.off + (e.mark - PRESENT)];
      } else {
        text := [];
      }
    }

    /** Keeps one part: an earlier copy is compacted away, the header counts the new one. */
    method Append(b: Binding, r: Record, now: int, s: nat, prior: bool, old': nat)
      requires Parts() && s < l.slots && 0 <= r.index < r.parts <= l.parts && |r.text| < PRESENT
      requires prior == PartOf(arena.items, IdOf(s, l.parts, r.index)).Some?
      requires old' == Size(PartOf(arena.items, IdOf(s, l.parts, r.index)))
      requires |Bytes(arena.items)| - old' + |r.text| <= l.arena
      modifies this`pending, this`clock, arena, arena.entries, arena.payload, headers
      ensures Parts() && View() == Reassembly.Append(l, old(View()), b, r, now, s)
    {
      hide Bytes, Linked, Packed, IdOf, Records, PartOf;
      ghost var items := arena.items;
      FreshId(l, s, r.index);
      var id := IdOf(s, l.parts, r.index);
      RoomAfterDrop(items, id, arena.limit);
      if prior {
        arena.Compact(s, id);
      }
      PartOfHas(arena.items, id, arena.limit);
      var h := headers[s];
      var base := if h.live == 0 then Saved(b, r, now) else h;
      if h.live == 0 {
        pending := pending + 1;
      }
      headers[s] := base.(count := h.count + (if prior then 0 else 1), total := h.total - old' + |r.text|,
                          touched := now);
      arena.AppendPart(id, r.text);
      clock := now;
    }

    method RemoveSlot(s: nat)
      requires Parts() && s < l.slots
      modifies this`pending, arena, arena.entries, arena.payload, headers
      ensures Parts() && arena.items == Keep(old(arena.items), SlotIds(s, l.parts))
      ensures pending == old(pending) - 1 && headers[..] == old(headers[..])[s := EMPTY]
    {
      arena.Compact(s, -1);
      headers[s] := EMPTY;
      pending := pending - 1;
    }

    /** Stages the message; a document is pinned and its slot removed, anything else is wiped. */
    method Complete(c: Codec, b: Binding, r: Record, now: int, s: nat) returns (code: int)
      requires Parts() && s < l.slots && 0 <= r.index < r.parts <= l.parts
      requires output[..] == Zeros(l.message) && |Staged(arena.items, s, l.parts, r, r.parts)| <= l.message
      modifies this`pending, this`clock, this`held, this`size, this`done, arena, arena.entries, arena.payload, headers,
               output
      ensures Parts()
      ensures var whole := Staged(old(arena.items), s, l.parts, r, r.parts);
              if c.document(whole)
              then code == 1 && View() == Completed(l, old(View()), b, r, now, s, whole)
              else code == -1 && View() == old(View())
    {
      hide Bytes, Linked, Packed, IdOf, Records, PartOf, Staged;
      var used := Stage(s, r);
      ghost var whole := Staged(arena.items, s, l.parts, r, r.parts);
      assert output[..used] == whole;
      if !c.document(output[..used]) {
        ZeroOut();
        return -1;
      }
      held := Saved(b, r, now);
      if headers[s].live == 1 {
        RemoveSlot(s);
      }
      size, done, clock := used, 1, now;
      return 1;
    }

    method Decide(c: Codec, b: Binding, r: Record, now: int, s: nat) returns (code: int)
      requires Valid() && s < l.slots && AcceptGuard(l, c, View(), b, r, now)
      requires s == FindSlot(headers[..], b, r, 0, -1)
      modifies this`pending, this`clock, this`held, this`size, this`done, arena, arena.entries, arena.payload, headers,
               output
      ensures Parts() && (View(), code) == AcceptSlot(l, c, old(View()), b, r, now, s)
    {
      hide RK.Represents, RK.PoolOk, Linked, Packed, Chain, AcceptGuard, Bytes, IdOf, PartOf, Staged, Records,
           FindSlot, Reassembly.Append, Completed, Size, Zeros;
      ghost var g, m := View(), machine;
      SlotFits(l, c, g, m, b, r, now, s);
      FreshId(l, s, r.index);
      var h, id := headers[s], IdOf(s, l.parts, r.index);
      var prior, old' := PartLength(id);
      var total := h.total - old' + |r.text|;
      if (h.live == 1 && h.parts != r.parts) || (h.live != 1 && pending >= l.slots)
         || total > l.message || arena.used - old' + |r.text| > l.arena
      {
        return -1;
      }
      if h.count + (if prior then 0 else 1) == r.parts {
        code := Complete(c, b, r, now, s);
      } else {
        Append(b, r, now, s, prior, old');
        code := 0;
      }
    }

    method Guard(c: Codec, b: Binding, r: Record, now: int) returns (ok: bool)
      requires Parts()
      ensures ok == AcceptGuard(l, c, View(), b, r, now)
    {
      ok := && magic == MAGIC && version == 1 && 0 <= pending <= l.slots && arena.used <= l.arena
            && 0 <= size <= l.message && 0 <= done <= 1 && 0 < epoch <= CLOCK_MAX && 0 <= clock <= CLOCK_MAX
            && done == 0 && ValidBinding(epoch, b) && clock <= now <= CLOCK_MAX && ValidRecord(l, c, r);
    }

    /** -1 refused (nothing changes), 0 kept, 1 completed. */
    method Accept(c: Codec, b: Binding, r: Record, now: int) returns (code: int)
      requires Valid()
      modifies this, arena, arena.entries, arena.payload, headers, output
      ensures Valid()
      ensures (View(), code) == Reassembly.Accept(l, c, old(View()), b, r, now)
      ensures (machine, code) == RK.AcceptKeyed(l, c, old(machine), b, r, now)
      ensures Forged(old(epoch), b) || Malformed(l, c, r) ==>
                code == -1 && View() == old(View()) && machine == old(machine)
    {
      hide RK.Represents, RK.AcceptKeyed, Reassembly.Accept, AcceptSlot, FindSlot, AcceptGuard, Bytes, Records, Linked,
           Packed, Chain, Forged, Malformed;
      assert l.parts > 0 by {
        assert arena.Valid();
      }
      ghost var g, after := View(), RK.AcceptKeyed(l, c, machine, b, r, now).0;
      RK.AcceptRefines(l, c, g, machine, b, r, now);
      AcceptCases(l, c, g, b, r, now);
      if Forged(epoch, b) || Malformed(l, c, r) {
        FieldsRefused(l, c, g, machine, b, r, now);
      }
      code := -1;
      var ok := Guard(c, b, r, now);
      if ok {
        var s := Find(b, r);
        if s >= 0 {
          code := Decide(c, b, r, now, s);
        }
      }
      machine := after;
    }

    /** Removes the assembly of one occupied slot. */
    method RemoveLive(s: nat)
      requires Valid() && s < l.slots && headers[s].live == 1
      modifies this`pending, this`machine, arena, arena.entries, arena.payload, headers
      ensures Valid() && headers[..] == old(headers[..])[s := EMPTY]
      ensures RK.KeyAt(old(headers[s])) in old(machine).pending
              && 0 <= old(machine).pending[RK.KeyAt(old(headers[s]))].parts
      ensures machine == RD.Without(old(machine), RK.KeyAt(old(headers[s])))
    {
      hide RK.Represents, Bytes, Linked, Packed, Chain, Records;
      ghost var g, m, k := View(), machine, RK.KeyAt(headers[s]);
      assert RD.Occupied(l, g, m, s);
      RD.RemovedRepresents(l, g, m, s);
      RemoveSlot(s);
      assert View() == RD.Removed(l, g, s);
      machine := RD.Without(m, k);
    }

    /** Wipes the pinned message. */
    method Release()
      requires Valid()
      modifies this`size, this`done, this`held, this`machine, output
      ensures Valid() && View() == RD.Released(l, old(View())) && machine == old(machine).(done := None)
      ensures RR.Drops(old(machine), RR.Release, machine)
    {
      hide RK.Represents, Bytes, Linked, Packed, Chain, Records;
      ghost var g := View();
      RD.ReleasedRepresents(l, g, machine);
      ZeroOut();
      size, done, held := 0, 0, EMPTY;
      assert View() == RD.Released(l, g);
      machine := machine.(done := None);
    }

    lemma AssemblyAt(s: nat)
      requires Valid() && s < l.slots && headers[s].live == 1
      ensures var h := headers[s];
              && h.epoch == epoch && RK.KeyAt(h) in machine.pending && machine.pending[RK.KeyAt(h)].parts == h.parts
              && machine.pending[RK.KeyAt(h)].touched == h.touched
    {
      assert RK.HeaderOk(l, View(), s);
      RD.OccupiedFacts(l, View(), machine, s);
    }

    /** Removes the occupied slots that `goes` selects, and counts them. */
    method Sweep(goes: Header -> bool, ghost gone: (RK.Key, RK.Assembly) -> bool) returns (count: int)
      requires Valid() && Selects(goes, gone, epoch)
      modifies this`pending, this`machine, arena, arena.entries, arena.payload, headers
      ensures Valid() && count == |old(machine).pending| - |machine.pending|
      ensures machine.pending == RD.Survivors(old(machine).pending, gone)
      ensures machine.(pending := map[], buffered := 0) == old(machine).(pending := map[], buffered := 0)
    {
      hide Valid, RD.Without, RK.PoolOk, Parts, RD.Survivors;
      ghost var m := machine;
      var s := 0;
      count := 0;
      HeaderCount();
      while s < l.slots
        invariant 0 <= s <= l.slots == headers.Length && Valid()
        invariant Kept(m, machine, gone) && count == |m.pending| - |machine.pending|
        invariant forall t :: 0 <= t < s && headers[t].live == 1 ==> !goes(headers[t])
      {
        if headers[s].live == 1 && goes(headers[s]) {
          ghost var before, h := machine, headers[s];
          AssemblyAt(s);
          RemoveLive(s);
          KeptWithout(m, before, RK.KeyAt(h), gone);
          count := count + 1;
        }
        s := s + 1;
      }
      NoneGoes(goes, gone);
      SurvivorsLeft(m, machine, gone);
    }

    lemma NoneGoes(goes: Header -> bool, gone: (RK.Key, RK.Assembly) -> bool)
      requires Valid() && Selects(goes, gone, epoch) && headers.Length == l.slots
      requires forall t :: 0 <= t < l.slots && headers[t].live == 1 ==> !goes(headers[t])
      ensures forall k :: k in machine.pending ==> !gone(k, machine.pending[k])
    {
      hide Valid;
      forall k | k in machine.pending
        ensures !gone(k, machine.pending[k])
      {
        PlacedAt(k);
        var t :| 0 <= t < l.slots && headers[t].live == 1 && RK.KeyAt(headers[t]) == k;
        AssemblyAt(t);
      }
    }

    lemma HeaderCount()
      requires Valid()
      ensures headers.Length == l.slots
    {
    }

    lemma PlacedAt(k: RK.Key)
      requires Valid() && k in machine.pending
      ensures headers.Length == l.slots
      ensures exists t :: 0 <= t < l.slots && headers[t].live == 1 && RK.KeyAt(headers[t]) == k
    {
      assert RK.Placed(l, View(), k);
    }

    /** Drops every assembly, and the pinned message, that was idle for at least `idle`. */
    method Expire(now: int, idle: int) returns (count: int)
      requires Valid()
      modifies this, arena, arena.entries, arena.payload, headers, output
      ensures Valid()
      ensures var m := old(machine);
              if !(m.clock <= now <= CLOCK_MAX && 0 < idle <= CLOCK_MAX)
              then count == -1 && View() == old(View()) && machine == m
              else
                var drop := m.done.Some? && now - old(held).touched >= idle;
                && machine.pending == RD.Survivors(m.pending, RD.IdleFor(now, idle))
                && machine.done == (if drop then None else m.done)
                && machine.clock == now && machine.epoch == m.epoch
                && count == |m.pending| - |machine.pending| + (if drop then 1 else 0)
      ensures RR.Drops(old(machine), RR.Expire(now, idle), machine)
    {
      hide Valid, RD.Survivors, RD.IdleFor;
      if !(clock <= now <= CLOCK_MAX && 0 < idle <= CLOCK_MAX) {
        DoneAgrees();
        return -1;
      }
      count := DropIdle(now, idle);
    }

    method DropIdle(now: int, idle: int) returns (count: int)
      requires Valid() && clock <= now <= CLOCK_MAX
      modifies this, arena, arena.entries, arena.payload, headers, output
      ensures Valid()
      ensures var m, drop := old(machine), old(machine).done.Some? && now - old(held).touched >= idle;
              && m.clock == old(clock)
              && machine.pending == RD.Survivors(m.pending, RD.IdleFor(now, idle))
              && machine.done == (if drop then None else m.done)
              && machine.clock == now && machine.epoch == m.epoch
              && count == |m.pending| - |machine.pending| + (if drop then 1 else 0)
    {
      hide Valid, RD.Survivors, RD.IdleFor;
      DoneAgrees();
      IdleSelects(now, idle, epoch);
      count := Sweep((h: Header) => now - h.touched >= idle, RD.IdleFor(now, idle));
      Tick(now);
      var dropped := ReleaseIf(done == 1 && now - held.touched >= idle);
      count := count + dropped;
    }

    method ReleaseIf(drop: bool) returns (count: int)
      requires Valid() && (drop ==> done == 1)
      modifies this`size, this`done, this`held, this`machine, output
      ensures Valid() && count == (if drop then 1 else 0)
      ensures machine == if drop then old(machine).(done := None) else old(machine)
    {
      hide Valid;
      if drop {
        Release();
        return 1;
      }
      return 0;
    }

    lemma DoneAgrees()
      requires Valid()
      ensures (machine.done.Some? <==> done == 1) && machine.clock == clock && machine.epoch == epoch
    {
    }

    method Tick(now: int)
      requires Valid() && clock <= now <= CLOCK_MAX
      modifies this`clock, this`machine
      ensures Valid() && machine == old(machine).(clock := now)
    {
      hide RK.PoolOk, Linked, Packed, Bytes, Chain, First, Last, Records;
      ghost var g := View();
      RD.ClockRepresents(l, g, machine, now);
      clock, machine := now, machine.(clock := now);
      assert View() == g.(clock := now);
    }

    /** A later epoch starts from nothing. */
    method Advance(next: int) returns (code: int)
      requires Valid()
      modifies this, arena, arena.entries, arena.payload, headers, output
      ensures Valid() && code == if old(epoch) < next <= CLOCK_MAX then 1 else -1
      ensures View() == if code == 1 then EmptyImage(l, next) else old(View())
      ensures RR.Drops(old(machine), RR.Advance(next), machine)
    {
      hide RK.Represents, RK.PoolOk, Linked, Packed, Bytes, Chain, Records, First, Last, IdOf, EmptyImage;
      DoneAgrees();
      if !(epoch < next <= CLOCK_MAX) {
        return -1;
      }
      EpochPositive();
      StartOver(next);
      machine := RK.Machine(map[], 0, None, next, 0);
      RK.EmptyRepresents(l, next);
      return 1;
    }

    method StartOver(next: int)
      requires Parts()
      modifies this, arena, arena.entries, arena.payload, headers, output
      ensures Parts() && View() == EmptyImage(l, next)
    {
      hide Linked, Packed, Bytes, Chain, Records, First, Last, IdOf;
      arena.Reset();
      BlankHeaders();
      ZeroOut();
      magic, version, pending, size, done, epoch, clock := MAGIC, 1, 0, 0, 0, next, 0;
      held := EMPTY;
      assert headers[..] == seq(l.slots, _ => EMPTY);
    }

    lemma EpochPositive()
      requires Valid()
      ensures 0 < epoch && l.parts > 0
    {
      assert Initialized(l, View());
    }

    method BlankHeaders()
      modifies headers
      ensures headers[..] == seq(headers.Length, _ => EMPTY)
    {
      for i := 0 to headers.Length
        invariant forall j :: 0 <= j < i ==> headers[j] == EMPTY
      {
        headers[i] := EMPTY;
      }
    }

    /** Drops everything that came in under one peer's current key. */
    method Revoke(b: Binding) returns (count: int)
      requires Valid()
      modifies this, arena, arena.entries, arena.payload, headers, output
      ensures Valid()
      ensures var m := old(machine);
              if !ValidBinding(m.epoch, b) then count == -1 && View() == old(View()) && machine == m
              else
                var drop := m.done.Some? && Bound(old(held), b);
                && machine.pending == RD.Survivors(m.pending, RD.UnderKey(b))
                && machine.done == (if drop then None else m.done)
                && machine.clock == m.clock && machine.epoch == m.epoch
                && count == |m.pending| - |machine.pending| + (if drop then 1 else 0)
      ensures RR.Drops(old(machine), RR.Revoke(b), machine)
      ensures Forged(old(epoch), b) ==> count == -1 && View() == old(View()) && machine == old(machine)
    {
      hide Valid, RD.Survivors, RD.UnderKey, Forged, ValidBinding, Bound;
      DoneAgrees();
      ForgedExact(epoch, b);
      if !ValidBinding(epoch, b) {
        return -1;
      }
      count := DropBound(b);
    }

    method DropBound(b: Binding) returns (count: int)
      requires Valid() && b.epoch == epoch
      modifies this, arena, arena.entries, arena.payload, headers, output
      ensures Valid()
      ensures var m, drop := old(machine), old(machine).done.Some? && Bound(old(held), b);
              && machine.pending == RD.Survivors(m.pending, RD.UnderKey(b))
              && machine.done == (if drop then None else m.done)
              && machine.clock == m.clock && machine.epoch == m.epoch
              && count == |m.pending| - |machine.pending| + (if drop then 1 else 0)
    {
      hide Valid, RD.Survivors, RD.UnderKey, Bound;
      DoneAgrees();
      KeySelects(b, epoch);
      count := Sweep((h: Header) => Bound(h, b), RD.UnderKey(b));
      DoneAgrees();
      var dropped := ReleaseIf(done == 1 && Bound(held, b));
      count := count + dropped;
    }
  }

  /** Whatever is done to a pool, it has gone through a run of the keyed map. */
  method Drive(q: Pool, c: Codec, es: seq<RR.Event>) returns (ghost ms: seq<RK.Machine>)
    requires q.Valid()
    modifies q, q.arena, q.arena.entries, q.arena.payload, q.headers, q.output
    ensures q.Valid() && RR.Runs(q.l, c, ms, es) && ms[0] == old(q.machine) && ms[|es|] == q.machine
  {
    hide RR.Moves, RR.Runs, Pool.Valid;
    ms := [q.machine];
    RunStart(q.l, c, q.machine, es);
    for i := 0 to |es|
      invariant q.Valid() && |ms| == i + 1 && ms[0] == old(q.machine) && ms[i] == q.machine
      invariant RR.Runs(q.l, c, ms, es[..i])
    {
      ghost var before := ms;
      Apply(q, c, es[i]);
      ms := ms + [q.machine];
      RunMore(q.l, c, before, es, i, q.machine);
    }
    assert es[..|es|] == es;
  }

  lemma RunStart(l: Limits, c: Codec, m: RK.Machine, es: seq<RR.Event>)
    ensures RR.Runs(l, c, [m], es[..0])
  {
  }

  lemma RunMore(l: Limits, c: Codec, ms: seq<RK.Machine>, es: seq<RR.Event>, i: nat, m: RK.Machine)
    requires i < |es| && RR.Runs(l, c, ms, es[..i]) && RR.Moves(l, c, ms[i], es[i], m)
    ensures RR.Runs(l, c, ms + [m], es[..i + 1])
  {
    hide RR.Moves;
    var more, run := ms + [m], es[..i + 1];
    forall j | 0 <= j < i + 1
      ensures RR.Moves(l, c, more[j], run[j], more[j + 1])
    {
      if j < i {
        assert es[..i][j] == run[j];
      }
    }
  }

  method Apply(q: Pool, c: Codec, e: RR.Event)
    requires q.Valid()
    modifies q, q.arena, q.arena.entries, q.arena.payload, q.headers, q.output
    ensures q.Valid() && RR.Moves(q.l, c, old(q.machine), e, q.machine)
  {
    hide RK.AcceptKeyed, RR.Drops, Pool.Valid, Reassembly.Accept;
    match e
    case Offer(x) =>
      var code := q.Accept(c, x.b, x.r, x.now);
    case Release =>
      q.Release();
    case Expire(now, idle) =>
      var count := q.Expire(now, idle);
    case Revoke(b) =>
      var count := q.Revoke(b);
    case Advance(next) =>
      var code := q.Advance(next);
  }

  /** A test on headers and a test on assemblies that agree on every occupied slot. */
  ghost predicate Selects(goes: Header -> bool, gone: (RK.Key, RK.Assembly) -> bool, epoch: int) {
    forall h: Header, a: RK.Assembly :: h.live == 1 && h.epoch == epoch && a.touched == h.touched ==>
      (goes(h) <==> gone(RK.KeyAt(h), a))
  }

  lemma IdleSelects(now: int, idle: int, epoch: int)
    ensures Selects((h: Header) => now - h.touched >= idle, RD.IdleFor(now, idle), epoch)
  {
  }

  lemma KeySelects(b: Binding, epoch: int)
    requires b.epoch == epoch
    ensures Selects((h: Header) => Bound(h, b), RD.UnderKey(b), epoch)
  {
  }

  /** `after` is `before` without some of the assemblies that `gone` selects. */
  ghost predicate Kept(before: RK.Machine, after: RK.Machine, gone: (RK.Key, RK.Assembly) -> bool) {
    && after.(pending := map[], buffered := 0) == before.(pending := map[], buffered := 0)
    && (forall k :: k in after.pending ==> k in before.pending && after.pending[k] == before.pending[k])
    && (forall k :: k in before.pending && k !in after.pending ==> gone(k, before.pending[k]))
  }

  lemma SurvivorsLeft(before: RK.Machine, after: RK.Machine, gone: (RK.Key, RK.Assembly) -> bool)
    requires Kept(before, after, gone) && forall k :: k in after.pending ==> !gone(k, after.pending[k])
    ensures after.pending == RD.Survivors(before.pending, gone)
  {
  }

  lemma KeptWithout(m: RK.Machine, before: RK.Machine, k: RK.Key, gone: (RK.Key, RK.Assembly) -> bool)
    requires Kept(m, before, gone) && k in before.pending && 0 <= before.pending[k].parts && gone(k, before.pending[k])
    ensures Kept(m, RD.Without(before, k), gone)
    ensures |RD.Without(before, k).pending| == |before.pending| - 1
  {
    RD.OneLess(before.pending, k);
  }

  lemma FieldsRefused(l: Limits, c: Codec, g: Image, m: RK.Machine, b: Binding, r: Record, now: int)
    requires RK.Represents(l, g, m) && l.parts > 0 && (Forged(g.epoch, b) || Malformed(l, c, r))
    ensures Reassembly.Accept(l, c, g, b, r, now) == (g, -1) && RK.AcceptKeyed(l, c, m, b, r, now) == (m, -1)
  {
    hide RK.PoolOk, RK.ShowsAll, RK.PlacedAll;
  }

  lemma AcceptCases(l: Limits, c: Codec, g: Image, b: Binding, r: Record, now: int)
    requires l.parts > 0
    ensures var f := FindSlot(g.headers, b, r, 0, -1);
            && -1 <= f < |g.headers|
            && (!AcceptGuard(l, c, g, b, r, now) || f < 0 ==> Reassembly.Accept(l, c, g, b, r, now) == (g, -1))
            && (AcceptGuard(l, c, g, b, r, now) && f >= 0 ==>
                  && 0 <= r.index && 0 <= r.parts
                  && Reassembly.Accept(l, c, g, b, r, now) == AcceptSlot(l, c, g, b, r, now, f))
  {
    FindSlotRange(g.headers, b, r, 0, -1);
  }

  /** Once the quotas admit a completing part, the staged message fits the output, which is blank. */
  lemma SlotFits(l: Limits, c: Codec, g: Image, m: RK.Machine, b: Binding, r: Record, now: int, s: nat)
    requires RK.Represents(l, g, m) && AcceptGuard(l, c, g, b, r, now) && s == FindSlot(g.headers, b, r, 0, -1)
    ensures s < l.slots && 0 <= r.index < r.parts <= l.parts && |r.text| < PRESENT && g.output == Zeros(l.message)
    ensures var h := g.headers[s];
            (h.live == 1 && h.parts == r.parts) || (h.live != 1 && g.pending < l.slots) ==>
              |Staged(g.items, s, l.parts, r, r.parts)|
                == h.total - Size(PartOf(g.items, IdOf(s, l.parts, r.index))) + |r.text|
  {
    RK.Located(l, c, g, m, b, r, now);
    assert g.output[0..] == g.output;
    var h := g.headers[s];
    if (h.live == 1 && h.parts == r.parts) || (h.live != 1 && g.pending < l.slots) {
      hide FindSlot, Staged, PartOf, IdOf, SlotMap, TotalOf, Bytes;
      assert RK.Ready(l, g, m, b, r, s);
      RK.Figures(l, g, m, b, r, now, s);
    }
  }

  lemma RoomAfterDrop(items: seq<Item>, id: nat, limit: nat)
    requires Chain(items, limit)
    ensures |Bytes(Keep(items, OneId(id)))| == |Bytes(items)| - Size(PartOf(items, id))
    ensures !Has(Keep(items, OneId(id)), id)
  {
    RK.KeepOneBytes(items, id, limit);
    var kept := Keep(items, OneId(id));
    forall k | 0 <= k < |kept|
      ensures kept[k].id != id
    {
      assert kept[k] in kept;
    }
  }

  lemma ZerosAfter(done: seq<byte>, text: seq<byte>, n: nat)
    requires |done| + |text| <= n
    ensures var o := done + Zeros(n - |done|);
            o[..|done|] + text + o[|done| + |text|..] == done + text + Zeros(n - |done| - |text|)
  {
  }

  lemma {:induction false} StagedGrows(items: seq<Item>, s: nat, parts: nat, r: Record, i: nat, n: nat)
    requires i <= n
    ensures |Staged(items, s, parts, r, i)| <= |Staged(items, s, parts, r, n)|
    decreases n
  {
    if i < n {
      StagedGrows(items, s, parts, r, i, n - 1);
    }
  }

  lemma TextOf(items: seq<Item>, e: seq<Entry>, p: seq<byte>, used: int, limit: nat, id: nat)
    requires Linked(items, e, limit) && Packed(items, p, used) && id < limit
    ensures |e| == limit
    ensures var text := Text(PartOf(items, id));
            if e[id].mark >= PRESENT
            then 0 <= e[id].off <= e[id].off + (e[id].mark - PRESENT) <= |p|
                 && text == p[e[id].off..e[id].off + (e[id].mark - PRESENT)]
            else text == []
  {
    hide Bytes;
    AB.RecordMeans(items, e, p, used, limit, id);
    PartOfHas(items, id, limit);
    hide Linked;
  }

  lemma {:induction false} PartOfHas(items: seq<Item>, id: nat, limit: nat)
    requires Chain(items, limit)
    ensures PartOf(items, id).Some? <==> Has(items, id)
    ensures forall text :: Item(id, text) in items ==> PartOf(items, id) == Some(text)
  {
    if items != [] {
      var front, x := items[..|items| - 1], items[|items| - 1];
      PartOfHas(front, id, limit);
      assert items == front + [x];
      HasAppend(front, x, id);
    }
  }
}
