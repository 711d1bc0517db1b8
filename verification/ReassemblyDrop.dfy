/** Removing whole assemblies: expiry of idle ones, revocation of one peer's, release of the
    pinned message. */
module ReassemblyDrop {
  import opened Common
  import opened Arena
  import opened Reassembly
  import opened ReassemblyKeyed

  function Removed(l: Limits, g: Image, s: nat): Image
    requires s < |g.headers| && l.parts > 0
  {
    g.(headers := g.headers[s := EMPTY], items := Keep(g.items, SlotIds(s, l.parts)), pending := g.pending - 1)
  }

  /** The map without one assembly. */
  function Without(m: Machine, k: Key): Machine
    requires k in m.pending && 0 <= m.pending[k].parts
  {
    m.(pending := m.pending - {k}, buffered := m.buffered - TotalOf(m.pending[k].chunks, m.pending[k].parts))
  }

  /** What is left when the assemblies that `gone` selects are taken out. */
  function Survivors(pending: map<Key, Assembly>, gone: (Key, Assembly) -> bool): map<Key, Assembly> {
    map k | k in pending && !gone(k, pending[k]) :: pending[k]
  }

  function IdleFor(now: int, idle: int): (Key, Assembly) -> bool {
    (k: Key, a: Assembly) => now - a.touched >= idle
  }

  function UnderKey(b: Binding): (Key, Assembly) -> bool {
    (k: Key, a: Assembly) => k.peer == b.peer && k.key == b.key
  }

  ghost predicate Occupied(l: Limits, g: Image, m: Machine, s: nat) {
    Represents(l, g, m) && s < l.slots && g.headers[s].live == 1
  }

  lemma OccupiedRepresents(l: Limits, g: Image, m: Machine, s: nat)
    requires Occupied(l, g, m, s)
    ensures Represents(l, g, m) && PoolOk(l, g) && Numbers(g, m) && l.parts > 0
    ensures |g.headers| == l.slots && s < l.slots && g.headers[s].live == 1
    ensures Chain(g.items, Records(l)) && Initialized(l, g)
  {
  }

  lemma OccupiedFacts(l: Limits, g: Image, m: Machine, s: nat)
    requires Occupied(l, g, m, s)
    ensures |g.headers| == l.slots && s < l.slots && l.parts > 0
    ensures var h, mine := g.headers[s], SlotMap(g.items, l.parts, s);
            && KeyAt(h) in m.pending && m.pending[KeyAt(h)] == Assembly(h.parts, mine, h.touched)
            && 0 < h.parts <= l.parts && forall i :: i in mine ==> i < h.parts
  {
    hide SlotMap, Bytes, Chain, Initialized, TotalOf, Records;
    assert HeaderOk(l, g, s);
    assert Shows(l, g, m, s);
  }

  lemma OneLess(m: map<Key, Assembly>, k: Key)
    requires k in m
    ensures |m - {k}| == |m| - 1 && |m| >= 1
  {
    var q := m - {k};
    assert m == q[k := m[k]];
  }

  lemma RemovedOthers(l: Limits, g: Image, m: Machine, s: nat)
    requires Occupied(l, g, m, s) && |g.headers| == l.slots && l.parts > 0
    ensures var g' := Removed(l, g, s);
            OthersSame(l, g, g', s) && HeaderOk(l, g', s)
  {
    hide Occupied, Represents, SlotMap, Bytes, Chain, Initialized, TotalOf, Records, PoolOk, Keep;
    OccupiedRepresents(l, g, m, s);
    KeepSlotMap(g.items, l.parts, s, s);
    forall t | 0 <= t < l.slots && t != s
      ensures SlotMap(Removed(l, g, s).items, l.parts, t) == SlotMap(g.items, l.parts, t)
    {
      KeepSlotMap(g.items, l.parts, s, t);
    }
  }

  lemma RemovedBytes(l: Limits, g: Image, m: Machine, s: nat)
    requires Occupied(l, g, m, s) && |g.headers| == l.slots && l.parts > 0
    ensures var g', h := Removed(l, g, s), g.headers[s];
            && Chain(g'.items, Records(l)) && 0 <= h.parts
            && |Bytes(g'.items)| == |Bytes(g.items)| - TotalOf(SlotMap(g.items, l.parts, s), h.parts)
  {
    hide Occupied, Represents, SlotMap, Bytes, Chain, Initialized, TotalOf, Records, PoolOk, Keep;
    OccupiedRepresents(l, g, m, s);
    OccupiedFacts(l, g, m, s);
    KeepChain(g.items, SlotIds(s, l.parts), Records(l));
    KeepSlotBytes(g.items, l.parts, s, g.headers[s].parts, Records(l));
  }

  lemma RemovedPoolOk(l: Limits, g: Image, m: Machine, s: nat)
    requires Occupied(l, g, m, s) && |g.headers| == l.slots && l.parts > 0
    ensures PoolOk(l, Removed(l, g, s))
  {
    hide Occupied, SlotMap, Bytes, Chain, TotalOf, Records, Keep, OthersSame, HeaderOk, ShowsAll, PlacedAll, Represents;
    OccupiedRepresents(l, g, m, s);
    OccupiedFacts(l, g, m, s);
    RemovedOthers(l, g, m, s);
    RemovedBytes(l, g, m, s);
    OneLess(m.pending, KeyAt(g.headers[s]));
    KeyIsOwn(l, g, m, KeyAt(g.headers[s]), s);
    PoolOkFrom(l, g, Removed(l, g, s), s, KeyAt(g.headers[s]));
  }

  /** Removing a slot removes exactly its assembly from the map. */
  lemma RemovedRepresents(l: Limits, g: Image, m: Machine, s: nat)
    requires Occupied(l, g, m, s) && |g.headers| == l.slots && l.parts > 0
    ensures KeyAt(g.headers[s]) in m.pending && 0 <= m.pending[KeyAt(g.headers[s])].parts
    ensures Represents(l, Removed(l, g, s), Without(m, KeyAt(g.headers[s])))
  {
    hide Occupied, PoolOk, SlotMap, Bytes, Chain, TotalOf, Records, Keep, OthersSame, Shows, Placed, HeaderOk;
    OccupiedRepresents(l, g, m, s);
    OccupiedFacts(l, g, m, s);
    var g', k := Removed(l, g, s), KeyAt(g.headers[s]);
    var m' := Without(m, k);
    RemovedPoolOk(l, g, m, s);
    RemovedOthers(l, g, m, s);
    RemovedBytes(l, g, m, s);
    OneLess(m.pending, k);
    forall t | 0 <= t < l.slots && g'.headers[t].live == 1
      ensures Shows(l, g', m', t)
    {
      DropShows(l, g, m, g', m', k, s, t);
    }
    forall q | q in m'.pending
      ensures Placed(l, g', q)
    {
      DropPlaced(l, g, m, g', k, s, q);
    }
  }

  function Released(l: Limits, g: Image): Image {
    g.(size := 0, done := 0, held := EMPTY, output := Zeros(l.message))
  }

  lemma ReleasedRepresents(l: Limits, g: Image, m: Machine)
    requires Represents(l, g, m)
    ensures Represents(l, Released(l, g), m.(done := None))
  {
    var g', m' := Released(l, g), m.(done := None);
    assert Zeros(l.message)[0..] == Zeros(l.message);
    hide SlotMap, Bytes, Chain, TotalOf, Records;
    forall s | 0 <= s < l.slots
      ensures HeaderOk(l, g', s)
      ensures g'.headers[s].live == 1 ==> Shows(l, g', m', s)
    {
      assert HeaderOk(l, g, s);
      if g.headers[s].live == 1 {
        assert Shows(l, g, m, s);
      }
    }
    forall k | k in m'.pending
      ensures Placed(l, g', k)
    {
      assert Placed(l, g, k);
    }
  }

  /** Moving the clock forward changes nothing else. */
  lemma ClockPool(l: Limits, g: Image, now: int)
    requires PoolOk(l, g) && g.clock <= now <= CLOCK_MAX
    ensures PoolOk(l, g.(clock := now))
  {
    hide SlotMap, Bytes, Chain, TotalOf, Records, Tidy, KeyAt;
    var g' := g.(clock := now);
    forall s | 0 <= s < l.slots
      ensures HeaderOk(l, g', s)
    {
      assert HeaderOk(l, g, s);
    }
  }

  lemma ClockShows(l: Limits, g: Image, m: Machine, now: int)
    requires |g.headers| == l.slots && l.parts > 0 && ShowsAll(l, g, m) && PlacedAll(l, g, m)
    ensures ShowsAll(l, g.(clock := now), m.(clock := now)) && PlacedAll(l, g.(clock := now), m.(clock := now))
  {
    hide SlotMap, KeyAt;
    var g', m' := g.(clock := now), m.(clock := now);
    forall s | 0 <= s < l.slots && g'.headers[s].live == 1
      ensures Shows(l, g', m', s)
    {
      assert Shows(l, g, m, s);
    }
    forall k | k in m'.pending
      ensures Placed(l, g', k)
    {
      assert Placed(l, g, k);
    }
  }

  lemma ClockRepresents(l: Limits, g: Image, m: Machine, now: int)
    requires Represents(l, g, m) && g.clock <= now <= CLOCK_MAX
    ensures Represents(l, g.(clock := now), m.(clock := now))
  {
    hide ShowsAll, PlacedAll, Bytes, HeaderOk, HeldOk, Chain, Initialized, Records;
    ClockPool(l, g, now);
    ClockShows(l, g, m, now);
  }
}
