/**
 The pool seen from outside: a map from (peer, key, message id) to the parts received so
 far. Slots, links, offsets and compaction are invisible; this is what the pool refines.
 */
module ReassemblyKeyed {
  import opened Common
  import opened Arena
  import opened Reassembly

  datatype Key = Key(peer: int, key: seq<byte>, ident: seq<byte>)

  datatype Assembly = Assembly(parts: int, chunks: map<nat, seq<byte>>, touched: int)

  datatype Machine = Machine(pending: map<Key, Assembly>, buffered: int, done: Option<seq<byte>>, epoch: int,
                             clock: int)

  function KeyOf(b: Binding, r: Record): Key { Key(b.peer, b.key, r.ident) }

  function KeyAt(h: Header): Key { Key(h.peer, h.key, h.ident) }

  function Found(m: Machine, k: Key, parts: int, now: int): Assembly {
    if k in m.pending then m.pending[k] else Assembly(parts, map[], now)
  }

  predicate Admitted(l: Limits, c: Codec, m: Machine, b: Binding, r: Record, now: int) {
    m.done.None? && ValidBinding(m.epoch, b) && m.clock <= now <= CLOCK_MAX && ValidRecord(l, c, r)
  }

  /** A part joins its assembly, replacing an earlier copy. The last missing part completes the
      message: all parts in index order, if that is a document; otherwise nothing changes. */
  function AcceptKeyed(l: Limits, c: Codec, m: Machine, b: Binding, r: Record, now: int): (Machine, int) {
    if !Admitted(l, c, m, b, r, now) then (m, -1)
    else
      var k := KeyOf(b, r);
      var a := Found(m, k, r.parts, now);
      var chunks := a.chunks[r.index := r.text];
      var grown := m.buffered - Size(At(a.chunks, r.index)) + |r.text|;
      if || a.parts != r.parts || (k !in m.pending && |m.pending| >= l.slots)
         || TotalOf(chunks, r.parts) > l.message || grown > l.arena
      then (m, -1)
      else if |chunks| == r.parts then
        var whole := Join(chunks, r.parts);
        if c.document(whole)
        then (m.(pending := m.pending - {k}, buffered := m.buffered - TotalOf(a.chunks, r.parts),
                 done := Some(whole), clock := now), 1)
        else (m, -1)
      else (m.(pending := m.pending[k := Assembly(r.parts, chunks, now)], buffered := grown, clock := now), 0)
  }

  // ---------------------------------------------------------------- the pool's own invariant

  ghost predicate HeaderOk(l: Limits, g: Image, s: nat)
    requires s < |g.headers| && l.parts > 0
  {
    var h, m := g.headers[s], SlotMap(g.items, l.parts, s);
    if h.live == 0 then h == EMPTY && m == map[]
    else
      && h.live == 1 && h.epoch == g.epoch && 0 < h.parts <= l.parts && Tidy(h)
      && h.count == |m| < h.parts && h.total == TotalOf(m, h.parts) <= l.message
      && forall i :: i in m ==> i < h.parts
  }

  predicate HeldOk(l: Limits, g: Image) {
    && (g.done == 0 ==> g.size == 0 && g.held == EMPTY)
    && (g.done == 1 ==> Tidy(g.held) && 0 < g.held.parts <= l.parts && g.held.count == 0 && g.held.total == 0)
  }

  ghost predicate PoolOk(l: Limits, g: Image) {
    && l.parts > 0 && |g.headers| == l.slots && |g.output| == l.message
    && Chain(g.items, Records(l)) && Initialized(l, g)
    && (forall s :: 0 <= s < l.slots ==> HeaderOk(l, g, s))
    && (forall s, t :: 0 <= s < t < l.slots && g.headers[s].live == 1 && g.headers[t].live == 1 ==>
          KeyAt(g.headers[s]) != KeyAt(g.headers[t]))
    && g.output[g.size..] == Zeros(l.message - g.size)
    && HeldOk(l, g)
  }

  ghost predicate Represents(l: Limits, g: Image, m: Machine) {
    PoolOk(l, g) && Numbers(g, m) && ShowsAll(l, g, m) && PlacedAll(l, g, m)
  }

  ghost predicate Numbers(g: Image, m: Machine) {
    && |m.pending| == g.pending && m.buffered == |Bytes(g.items)| && m.epoch == g.epoch && m.clock == g.clock
    && m.done == (if g.done == 1 && 0 <= g.size <= |g.output| then Some(g.output[..g.size]) else None)
  }

  ghost predicate ShowsAll(l: Limits, g: Image, m: Machine)
    requires |g.headers| == l.slots && l.parts > 0
  {
    forall s :: 0 <= s < l.slots && g.headers[s].live == 1 ==> Shows(l, g, m, s)
  }

  ghost predicate PlacedAll(l: Limits, g: Image, m: Machine)
    requires |g.headers| == l.slots
  {
    forall k :: k in m.pending ==> Placed(l, g, k)
  }

  ghost predicate Shows(l: Limits, g: Image, m: Machine, s: nat)
    requires s < |g.headers| && l.parts > 0
  {
    var h := g.headers[s];
    KeyAt(h) in m.pending && m.pending[KeyAt(h)] == Assembly(h.parts, SlotMap(g.items, l.parts, s), h.touched)
  }

  ghost predicate Placed(l: Limits, g: Image, k: Key)
    requires |g.headers| == l.slots
  {
    exists s :: 0 <= s < l.slots && g.headers[s].live == 1 && KeyAt(g.headers[s]) == k
  }

  lemma EmptyRepresents(l: Limits, epoch: int)
    requires l.parts > 0 && 0 < epoch <= CLOCK_MAX
    ensures Represents(l, EmptyImage(l, epoch), Machine(map[], 0, None, epoch, 0))
  {
    assert Zeros(l.message)[0..] == Zeros(l.message);
  }

  // ---------------------------------------------------------------- counting

  ghost function KeysUpTo(hs: seq<Header>, n: nat): set<Key>
    requires n <= |hs|
  {
    set s | 0 <= s < n :: KeyAt(hs[s])
  }

  /** When every slot is taken there are as many assemblies as slots. */
  lemma {:induction false} AllLive(hs: seq<Header>, n: nat)
    requires n <= |hs| && forall s, t :: 0 <= s < t < n ==> KeyAt(hs[s]) != KeyAt(hs[t])
    ensures |KeysUpTo(hs, n)| == n
  {
    if n > 0 {
      AllLive(hs, n - 1);
      var rest, k := KeysUpTo(hs, n - 1), KeyAt(hs[n - 1]);
      hide KeyAt;
      assert KeysUpTo(hs, n) == rest + {k};
      assert k !in rest;
    }
  }

  lemma FullPool(l: Limits, g: Image, m: Machine)
    requires Represents(l, g, m) && forall s :: 0 <= s < l.slots ==> g.headers[s].live != 0
    ensures |m.pending| == l.slots
  {
    forall s | 0 <= s < l.slots
      ensures g.headers[s].live == 1
    {
      assert HeaderOk(l, g, s);
    }
    AllLive(g.headers, l.slots);
    forall k | k in m.pending.Keys
      ensures k in KeysUpTo(g.headers, l.slots)
    {
      assert Placed(l, g, k);
    }
    forall k | k in KeysUpTo(g.headers, l.slots)
      ensures k in m.pending.Keys
    {
      var s :| 0 <= s < l.slots && KeyAt(g.headers[s]) == k;
      assert Shows(l, g, m, s);
    }
    assert m.pending.Keys == KeysUpTo(g.headers, l.slots);
  }

  /** Bytes freed by dropping one record, and by dropping a slot. */
  lemma {:induction false} KeepOneBytes(items: seq<Item>, id: int, limit: nat)
    requires Chain(items, limit)
    ensures |Bytes(Keep(items, OneId(id)))| == |Bytes(items)| - Size(PartOf(items, id))
    ensures forall x :: x in Keep(items, OneId(id)) ==> x.id != id
  {
    if items != [] {
      var front, x := items[..|items| - 1], items[|items| - 1];
      KeepOneBytes(front, id, limit);
      var kept := Keep(front, OneId(id));
      assert (kept + [x])[..|kept|] == kept;
      if x.id == id {
        Absent(front, id);
      }
    }
  }

  lemma {:induction false} Absent(items: seq<Item>, id: int)
    requires forall j :: 0 <= j < |items| ==> items[j].id != id
    ensures PartOf(items, id) == None && Keep(items, OneId(id)) == items
  {
    if items != [] {
      Absent(items[..|items| - 1], id);
    }
  }

  lemma {:induction false} KeepSlotBytes(items: seq<Item>, parts: nat, s: nat, n: nat, limit: nat)
    requires parts > 0 && Chain(items, limit) && n <= parts
    requires forall i :: i in SlotMap(items, parts, s) ==> i < n
    ensures |Bytes(Keep(items, SlotIds(s, parts)))| == |Bytes(items)| - TotalOf(SlotMap(items, parts, s), n)
  {
    hide SlotOf, IndexOf;
    if items == [] {
      TotalEmpty(n);
    } else {
      var front, x := items[..|items| - 1], items[|items| - 1];
      assert items == front + [x];
      SlotMapStep(front, x, parts, s);
      KeepStep(front, x, SlotIds(s, parts));
      var m, m1 := SlotMap(front, parts, s), SlotMap(items, parts, s);
      forall i | i in m
        ensures i < n
      {
        assert i in m1;
      }
      KeepSlotBytes(front, parts, s, n, limit);
      var kept := Keep(front, SlotIds(s, parts));
      assert (kept + [x])[..|kept|] == kept;
      if SlotOf(x.id, parts) == s {
        var i := IndexOf(x.id, parts);
        FreshIndex(front, x, parts, s, limit);
        TotalUpdate(m, i, x.text, n);
        assert i in m1 && m1 == m[i := x.text];
      }
    }
  }

  lemma FreshIndex(front: seq<Item>, x: Item, parts: nat, s: nat, limit: nat)
    requires parts > 0 && Chain(front + [x], limit) && SlotOf(x.id, parts) == s
    ensures IndexOf(x.id, parts) !in SlotMap(front, parts, s)
  {
    var i := IndexOf(x.id, parts);
    IdParts(x.id, parts, s, i);
    PartOfIsAt(front, parts, s, i);
    assert forall j :: 0 <= j < |front| ==> front[j].id != x.id by {
      forall j | 0 <= j < |front|
        ensures front[j].id != x.id
      {
        assert (front + [x])[j] == front[j] && (front + [x])[|front|] == x;
      }
    }
    Absent(front, x.id);
  }

  // ---------------------------------------------------------------- finding the slot

  lemma Located(l: Limits, c: Codec, g: Image, m: Machine, b: Binding, r: Record, now: int)
    requires Represents(l, g, m) && AcceptGuard(l, c, g, b, r, now)
    ensures var f, k := FindSlot(g.headers, b, r, 0, -1), KeyOf(b, r);
            && -1 <= f < l.slots
            && (f < 0 ==> k !in m.pending && |m.pending| == l.slots)
            && (f >= 0 && g.headers[f].live == 1 ==> KeyAt(g.headers[f]) == k && Shows(l, g, m, f))
            && (f >= 0 && g.headers[f].live != 1 ==> k !in m.pending && HeaderOk(l, g, f) && g.headers[f].live == 0)
  {
    FindSlotRange(g.headers, b, r, 0, -1);
    var f, k := FindSlot(g.headers, b, r, 0, -1), KeyOf(b, r);
    if f < 0 || !Matches(g.headers[f], b, r) {
      if k in m.pending {
        assert Placed(l, g, k);
        var s :| 0 <= s < l.slots && g.headers[s].live == 1 && KeyAt(g.headers[s]) == k;
        assert HeaderOk(l, g, s);
        assert Matches(g.headers[s], b, r);
        assert false;
      }
    }
    if f < 0 {
      FullPool(l, g, m);
    }
  }

  // ---------------------------------------------------------------- replacing one part

  lemma ReplacedItems(l: Limits, items: seq<Item>, s: nat, i: nat, text: seq<byte>)
    requires l.parts > 0 && s < l.slots && i < l.parts && |text| < PRESENT && Chain(items, Records(l))
    ensures var id := IdOf(s, l.parts, i);
            var after := Keep(items, OneId(id)) + [Item(id, text)];
            && Chain(after, Records(l))
            && |Bytes(after)| == |Bytes(items)| - Size(At(SlotMap(items, l.parts, s), i)) + |text|
            && (PartOf(items, id).None? ==> Keep(items, OneId(id)) == items)
            && PartOf(items, id) == At(SlotMap(items, l.parts, s), i)
  {
    var id, limit := IdOf(s, l.parts, i), Records(l);
    var kept := Keep(items, OneId(id));
    hide IdOf, Records;
    FreshId(l, s, i);
    KeepChain(items, OneId(id), limit);
    KeepOneBytes(items, id, limit);
    PartOfIsAt(items, l.parts, s, i);
    assert (kept + [Item(id, text)])[..|kept|] == kept;
    if PartOf(items, id).None? {
      NoneMeansAbsent(items, id);
      Absent(items, id);
    }
  }

  lemma {:induction false} NoneMeansAbsent(items: seq<Item>, id: int)
    requires PartOf(items, id).None?
    ensures forall j :: 0 <= j < |items| ==> items[j].id != id
  {
    if items != [] {
      NoneMeansAbsent(items[..|items| - 1], id);
    }
  }

  lemma ReplacedMap(l: Limits, items: seq<Item>, s: nat, i: nat, text: seq<byte>, t: nat)
    requires l.parts > 0 && i < l.parts
    ensures var after := Keep(items, OneId(IdOf(s, l.parts, i))) + [Item(IdOf(s, l.parts, i), text)];
            SlotMap(after, l.parts, t)
              == if t == s then SlotMap(items, l.parts, t)[i := text] else SlotMap(items, l.parts, t)
  {
    var kept := Keep(items, OneId(IdOf(s, l.parts, i)));
    AppendMap(kept, l.parts, s, i, text, t);
    KeepOneMap(items, l.parts, s, i, t);
    var m := SlotMap(items, l.parts, t);
    assert (m - {i})[i := text] == m[i := text];
  }

  /** What `AcceptSlot` has established about slot `s` when it keeps or completes with `r`. */
  ghost predicate Ready(l: Limits, g: Image, m: Machine, b: Binding, r: Record, s: nat) {
    && Represents(l, g, m) && s < l.slots && 0 <= r.index < r.parts <= l.parts && |r.text| <= 700
    && b.epoch == g.epoch && Tidy(Saved(b, r, 0))
    && (if g.headers[s].live == 1
        then g.headers[s].parts == r.parts && KeyAt(g.headers[s]) == KeyOf(b, r)
        else g.headers[s].live == 0 && g.pending < l.slots && KeyOf(b, r) !in m.pending)
  }

  lemma ChunkMap(l: Limits, g: Image, m: Machine, b: Binding, r: Record, now: int, s: nat)
    requires Ready(l, g, m, b, r, s)
    ensures var h, mine := g.headers[s], SlotMap(g.items, l.parts, s);
            && (h.live == 1 ==>
                  KeyOf(b, r) in m.pending && m.pending[KeyOf(b, r)] == Assembly(h.parts, mine, h.touched))
            && Found(m, KeyOf(b, r), r.parts, now).chunks == mine
            && Found(m, KeyOf(b, r), r.parts, now).parts == r.parts
            && h.count == |mine| < r.parts && h.total == TotalOf(mine, r.parts)
            && (forall i :: i in mine ==> i < r.parts)
  {
    assert HeaderOk(l, g, s);
    if g.headers[s].live == 1 {
      assert Shows(l, g, m, s);
    } else {
      TotalEmpty(r.parts);
    }
  }

  /** The numbers the pool keeps are those of the slot's map with the part in place. */
  lemma Figures(l: Limits, g: Image, m: Machine, b: Binding, r: Record, now: int, s: nat)
    requires Ready(l, g, m, b, r, s)
    ensures var h, prior := g.headers[s], PartOf(g.items, IdOf(s, l.parts, r.index));
            var chunks := SlotMap(g.items, l.parts, s)[r.index := r.text];
            && prior == At(SlotMap(g.items, l.parts, s), r.index)
            && h.total - Size(prior) + |r.text| == TotalOf(chunks, r.parts)
            && h.count + (if prior.Some? then 0 else 1) == |chunks|
            && Staged(g.items, s, l.parts, r, r.parts) == Join(chunks, r.parts)
  {
    hide IdOf;
    ChunkMap(l, g, m, b, r, now, s);
    PartOfIsAt(g.items, l.parts, s, r.index);
    TotalUpdate(SlotMap(g.items, l.parts, s), r.index, r.text, r.parts);
    StagedIsJoin(g.items, l.parts, s, r, r.parts);
  }

  lemma AppendShape(l: Limits, g: Image, m: Machine, b: Binding, r: Record, now: int, s: nat)
    requires Ready(l, g, m, b, r, s)
    ensures var g', h := Append(l, g, b, r, now, s), g.headers[s];
            var id, chunks := IdOf(s, l.parts, r.index), SlotMap(g.items, l.parts, s)[r.index := r.text];
            && g'.items == Keep(g.items, OneId(id)) + [Item(id, r.text)]
            && |g'.headers| == |g.headers| && (forall t :: 0 <= t < l.slots && t != s ==> g'.headers[t] == g.headers[t])
            && KeyAt(g'.headers[s]) == KeyOf(b, r) && g'.headers[s].live == 1 && g'.headers[s].epoch == g.epoch
            && g'.headers[s].parts == r.parts && g'.headers[s].touched == now
            && g'.headers[s].count == |chunks| && g'.headers[s].total == TotalOf(chunks, r.parts)
            && g'.pending == (if h.live == 0 then g.pending + 1 else g.pending)
            && g' == g.(headers := g'.headers, items := g'.items, pending := g'.pending, clock := now)
  {
    hide IdOf;
    Figures(l, g, m, b, r, now, s);
    ReplacedItems(l, g.items, s, r.index, r.text);
    assert HeaderOk(l, g, s);
  }

  /** Only slot `s` differs between the two images. */
  ghost predicate OthersSame(l: Limits, g: Image, g': Image, s: nat) {
    && l.parts > 0 && |g.headers| == |g'.headers| == l.slots && s < l.slots && g'.epoch == g.epoch
    && forall t :: 0 <= t < l.slots && t != s ==>
         g'.headers[t] == g.headers[t] && SlotMap(g'.items, l.parts, t) == SlotMap(g.items, l.parts, t)
  }

  lemma HeadersKept(l: Limits, g: Image, g': Image, s: nat)
    requires OthersSame(l, g, g', s) && PoolOk(l, g) && HeaderOk(l, g', s)
    ensures forall t :: 0 <= t < l.slots ==> HeaderOk(l, g', t)
  {
    hide SlotMap, TotalOf;
    forall t | 0 <= t < l.slots && t != s
      ensures HeaderOk(l, g', t)
    {
      assert HeaderOk(l, g, t);
    }
  }

  /** A key that no assembly has is no live header's key; a live header's key is only its own. */
  lemma KeyIsOwn(l: Limits, g: Image, m: Machine, k: Key, s: nat)
    requires Represents(l, g, m) && s < l.slots
    requires if g.headers[s].live == 1 then KeyAt(g.headers[s]) == k else k !in m.pending
    ensures forall t :: 0 <= t < l.slots && t != s && g.headers[t].live == 1 ==> KeyAt(g.headers[t]) != k
  {
    forall t | 0 <= t < l.slots && t != s && g.headers[t].live == 1
      ensures KeyAt(g.headers[t]) != k
    {
      assert Shows(l, g, m, t);
    }
  }

  lemma SetPending(l: Limits, g: Image, m: Machine, g': Image, m': Machine, k: Key, a: Assembly, s: nat)
    requires Represents(l, g, m) && PoolOk(l, g') && OthersSame(l, g, g', s)
    requires if g.headers[s].live == 1 then KeyAt(g.headers[s]) == k else k !in m.pending
    requires g'.headers[s].live == 1 && KeyAt(g'.headers[s]) == k && m'.pending == m.pending[k := a]
             && Shows(l, g', m', s)
    ensures ShowsAll(l, g', m') && PlacedAll(l, g', m')
  {
    hide SlotMap, PoolOk, Initialized;
    KeyIsOwn(l, g, m, k, s);
    forall t | 0 <= t < l.slots && g'.headers[t].live == 1
      ensures Shows(l, g', m', t)
    {
      if t != s {
        assert Shows(l, g, m, t);
      }
    }
    forall q | q in m'.pending
      ensures Placed(l, g', q)
    {
      if q == k {
        assert g'.headers[s].live == 1 && KeyAt(g'.headers[s]) == q;
      } else {
        assert Placed(l, g, q);
        var t :| 0 <= t < l.slots && g.headers[t].live == 1 && KeyAt(g.headers[t]) == q;
        assert g'.headers[t] == g.headers[t];
      }
    }
  }

  lemma DropShows(l: Limits, g: Image, m: Machine, g': Image, m': Machine, k: Key, s: nat, t: nat)
    requires Represents(l, g, m) && OthersSame(l, g, g', s) && t < l.slots
    requires if g.headers[s].live == 1 then KeyAt(g.headers[s]) == k else k !in m.pending
    requires g'.headers[s].live != 1 && m'.pending == m.pending - {k} && g'.headers[t].live == 1
    ensures Shows(l, g', m', t)
  {
    hide PoolOk, SlotMap, PlacedAll, Numbers;
    KeyIsOwn(l, g, m, k, s);
    assert Shows(l, g, m, t);
  }

  lemma DropPlaced(l: Limits, g: Image, m: Machine, g': Image, k: Key, s: nat, q: Key)
    requires Represents(l, g, m) && OthersSame(l, g, g', s) && q in m.pending && q != k
    requires if g.headers[s].live == 1 then KeyAt(g.headers[s]) == k else k !in m.pending
    ensures Placed(l, g', q)
  {
    hide PoolOk, SlotMap;
    assert Placed(l, g, q);
    var t :| 0 <= t < l.slots && g.headers[t].live == 1 && KeyAt(g.headers[t]) == q;
    assert g'.headers[t] == g.headers[t];
  }

  // ---------------------------------------------------------------- a part is kept

  lemma ReadyFacts(l: Limits, g: Image, m: Machine, b: Binding, r: Record, s: nat)
    requires Ready(l, g, m, b, r, s)
    ensures PoolOk(l, g) && Represents(l, g, m) && Chain(g.items, Records(l)) && Initialized(l, g)
    ensures l.parts > 0 && |g.headers| == l.slots && s < l.slots && 0 <= r.index < r.parts <= l.parts
            && |r.text| < PRESENT
    ensures Tidy(Saved(b, r, 0))
    ensures if g.headers[s].live == 1 then KeyAt(g.headers[s]) == KeyOf(b, r) else KeyOf(b, r) !in m.pending
    ensures g.headers[s].live == 1 || (g.headers[s].live == 0 && g.pending < l.slots)
  {
  }

  lemma AppendOthers(l: Limits, g: Image, m: Machine, b: Binding, r: Record, now: int, s: nat)
    requires Ready(l, g, m, b, r, s)
    ensures 0 <= r.index < r.parts <= l.parts && s < l.slots == |g.headers|
    ensures var g', mine := Append(l, g, b, r, now, s), SlotMap(g.items, l.parts, s);
            && OthersSame(l, g, g', s) && SlotMap(g'.items, l.parts, s) == mine[r.index := r.text]
            && Chain(g'.items, Records(l))
            && |Bytes(g'.items)| == |Bytes(g.items)| - Size(At(mine, r.index)) + |r.text|
  {
    hide Ready, PoolOk, Represents, Initialized, Records, Append, IdOf, SlotMap, Keep, Bytes, Chain, TotalOf;
    ReadyFacts(l, g, m, b, r, s);
    AppendShape(l, g, m, b, r, now, s);
    ReplacedItems(l, g.items, s, r.index, r.text);
    ReplacedMap(l, g.items, s, r.index, r.text, s);
    forall t | 0 <= t < l.slots && t != s
      ensures SlotMap(Append(l, g, b, r, now, s).items, l.parts, t) == SlotMap(g.items, l.parts, t)
    {
      ReplacedMap(l, g.items, s, r.index, r.text, t);
    }
  }

  /** The pool's invariant for an image whose slot `s` now holds an unfinished assembly. */
  lemma PoolOkFrom(l: Limits, g: Image, g': Image, s: nat, k: Key)
    requires PoolOk(l, g) && OthersSame(l, g, g', s) && HeaderOk(l, g', s)
    requires g'.headers[s].live == 1 ==> KeyAt(g'.headers[s]) == k
    requires forall t :: 0 <= t < l.slots && t != s && g.headers[t].live == 1 ==> KeyAt(g.headers[t]) != k
    requires Chain(g'.items, Records(l)) && Initialized(l, g') && |g'.output| == l.message
    requires g'.output[g'.size..] == Zeros(l.message - g'.size) && HeldOk(l, g')
    ensures PoolOk(l, g')
  {
    HeadersKept(l, g, g', s);
    hide HeaderOk, Chain, SlotMap, Initialized, Records, Bytes;
    forall t, u | 0 <= t < u < l.slots && g'.headers[t].live == 1 && g'.headers[u].live == 1
      ensures KeyAt(g'.headers[t]) != KeyAt(g'.headers[u])
    {
      assert t != s ==> g'.headers[t] == g.headers[t];
      assert u != s ==> g'.headers[u] == g.headers[u];
    }
  }

  lemma PageTidy(l: Limits, g: Image, m: Machine, b: Binding, r: Record, now: int, s: nat)
    requires Ready(l, g, m, b, r, s) && 0 <= now <= CLOCK_MAX
    ensures s < |g.headers| && 0 <= r.index && Tidy(Append(l, g, b, r, now, s).headers[s])
  {
    assert HeaderOk(l, g, s);
    hide HeaderOk, IdOf, SlotMap, Keep, TotalOf, Bytes, Chain, PartOf, Represents;
  }

  lemma HeaderOkFrom(l: Limits, g: Image, s: nat, chunks: map<nat, seq<byte>>)
    requires l.parts > 0 && s < |g.headers| && SlotMap(g.items, l.parts, s) == chunks
    requires var h := g.headers[s];
             Tidy(h) && h.epoch == g.epoch && 0 < h.parts <= l.parts && h.count == |chunks| < h.parts
             && h.total == TotalOf(chunks, h.parts) <= l.message && forall i :: i in chunks ==> i < h.parts
    ensures HeaderOk(l, g, s)
  {
    hide SlotMap, TotalOf;
  }

  lemma AppendHeaderOk(l: Limits, g: Image, m: Machine, b: Binding, r: Record, now: int, s: nat)
    requires Ready(l, g, m, b, r, s) && l.parts > 0 && 0 <= now <= CLOCK_MAX
    requires var chunks := SlotMap(g.items, l.parts, s)[r.index := r.text];
             && |chunks| != r.parts && TotalOf(chunks, r.parts) <= l.message
    ensures |Append(l, g, b, r, now, s).headers| == l.slots && HeaderOk(l, Append(l, g, b, r, now, s), s)
  {
    hide Ready, PoolOk, Represents, Initialized, Records, Append, SlotMap, Keep, Bytes, Chain, TotalOf, HeaderOk, Tidy,
         OthersSame,
         Found, IdOf;
    ReadyFacts(l, g, m, b, r, s);
    PageTidy(l, g, m, b, r, now, s);
    AppendShape(l, g, m, b, r, now, s);
    ChunkMap(l, g, m, b, r, now, s);
    AppendOthers(l, g, m, b, r, now, s);
    HeaderOkFrom(l, Append(l, g, b, r, now, s), s, SlotMap(g.items, l.parts, s)[r.index := r.text]);
  }

  lemma AppendPoolOk(l: Limits, g: Image, m: Machine, b: Binding, r: Record, now: int, s: nat)
    requires Ready(l, g, m, b, r, s) && g.clock <= now <= CLOCK_MAX && g.done == 0 && l.parts > 0
    requires var mine := SlotMap(g.items, l.parts, s);
             var chunks := mine[r.index := r.text];
             && |chunks| != r.parts && TotalOf(chunks, r.parts) <= l.message
             && |Bytes(g.items)| - Size(At(mine, r.index)) + |r.text| <= l.arena
    ensures PoolOk(l, Append(l, g, b, r, now, s))
  {
    hide Ready, Represents, Records, IdOf, Append, SlotMap, Keep, Bytes, Chain, TotalOf, HeaderOk, OthersSame;
    ReadyFacts(l, g, m, b, r, s);
    AppendShape(l, g, m, b, r, now, s);
    AppendHeaderOk(l, g, m, b, r, now, s);
    AppendOthers(l, g, m, b, r, now, s);
    KeyIsOwn(l, g, m, KeyOf(b, r), s);
    PoolOkFrom(l, g, Append(l, g, b, r, now, s), s, KeyOf(b, r));
  }

  function Grown(m: Machine, b: Binding, r: Record, now: int): Machine
    requires 0 <= r.index
  {
    var a := Found(m, KeyOf(b, r), r.parts, now);
    m.(pending := m.pending[KeyOf(b, r) := Assembly(r.parts, a.chunks[r.index := r.text], now)],
       buffered := m.buffered - Size(At(a.chunks, r.index)) + |r.text|, clock := now)
  }

  lemma AppendNumbers(l: Limits, g: Image, m: Machine, b: Binding, r: Record, now: int, s: nat)
    requires Ready(l, g, m, b, r, s) && g.done == 0
    ensures Numbers(Append(l, g, b, r, now, s), Grown(m, b, r, now))
  {
    hide Ready, PoolOk, Append, IdOf, SlotMap, Keep, TotalOf, Bytes, Chain, ShowsAll, PlacedAll, Placed, OthersSame,
         Found, Records;
    ReadyFacts(l, g, m, b, r, s);
    AppendShape(l, g, m, b, r, now, s);
    AppendOthers(l, g, m, b, r, now, s);
    ChunkMap(l, g, m, b, r, now, s);
  }

  lemma AppendRepresents(l: Limits, g: Image, m: Machine, b: Binding, r: Record, now: int, s: nat)
    requires Ready(l, g, m, b, r, s) && g.done == 0 && PoolOk(l, Append(l, g, b, r, now, s))
    ensures Represents(l, Append(l, g, b, r, now, s), Grown(m, b, r, now))
  {
    hide Ready, IdOf, SlotMap, Keep, TotalOf, Bytes, Chain, Records, Append, OthersSame, Found, Numbers, ShowsAll,
         PlacedAll, HeaderOk;
    ReadyFacts(l, g, m, b, r, s);
    var g', k := Append(l, g, b, r, now, s), KeyOf(b, r);
    AppendShape(l, g, m, b, r, now, s);
    ChunkMap(l, g, m, b, r, now, s);
    AppendOthers(l, g, m, b, r, now, s);
    AppendNumbers(l, g, m, b, r, now, s);
    SetPending(l, g, m, g', Grown(m, b, r, now), k, Grown(m, b, r, now).pending[k], s);
  }

  // ---------------------------------------------------------------- a message is completed

  lemma CompletedShape(l: Limits, g: Image, m: Machine, b: Binding, r: Record, now: int, s: nat, whole: seq<byte>)
    requires Ready(l, g, m, b, r, s) && |whole| <= l.message
    ensures 0 <= r.index < r.parts <= l.parts && s < l.slots == |g.headers|
    ensures var g' := Completed(l, g, b, r, now, s, whole);
            && g'.headers[s] == EMPTY && |g'.headers| == l.slots
            && (forall t :: 0 <= t < l.slots && t != s ==> g'.headers[t] == g.headers[t])
            && g'.items == (if g.headers[s].live == 1 then Keep(g.items, SlotIds(s, l.parts)) else g.items)
            && g'.pending == (if g.headers[s].live == 1 then g.pending - 1 else g.pending)
            && g'.output[..g'.size] == whole && |g'.output| == l.message && g'.size == |whole|
            && g'.output[g'.size..] == Zeros(l.message - g'.size) && g'.done == 1 && g'.clock == now
            && g'.epoch == g.epoch && g'.magic == g.magic && g'.version == g.version
  {
    hide SlotMap, Keep, Bytes, Chain, TotalOf;
    assert HeaderOk(l, g, s);
  }

  lemma CompletedMaps(l: Limits, g: Image, m: Machine, b: Binding, r: Record, now: int, s: nat, whole: seq<byte>,
                      t: nat)
    requires Ready(l, g, m, b, r, s) && |whole| <= l.message && l.parts > 0 && s < |g.headers|
    ensures SlotMap(Completed(l, g, b, r, now, s, whole).items, l.parts, t)
         == if t == s then map[] else SlotMap(g.items, l.parts, t)
  {
    assert HeaderOk(l, g, s);
    hide SlotMap, Keep, Bytes, Chain, TotalOf, Represents, PoolOk, Initialized;
    KeepSlotMap(g.items, l.parts, s, t);
  }

  lemma CompletedBytes(l: Limits, g: Image, m: Machine, b: Binding, r: Record, now: int, s: nat, whole: seq<byte>)
    requires Ready(l, g, m, b, r, s) && |whole| <= l.message && l.parts > 0 && s < |g.headers|
             && 0 <= r.parts <= l.parts
    ensures var g' := Completed(l, g, b, r, now, s, whole);
            && Chain(g'.items, Records(l))
            && |Bytes(g'.items)| == |Bytes(g.items)| - TotalOf(SlotMap(g.items, l.parts, s), r.parts)
  {
    hide Represents, PoolOk, Initialized, SlotMap, Keep, Bytes, Chain, TotalOf, Records;
    ReadyFacts(l, g, m, b, r, s);
    ChunkMap(l, g, m, b, r, now, s);
    if g.headers[s].live == 1 {
      KeepChain(g.items, SlotIds(s, l.parts), Records(l));
      KeepSlotBytes(g.items, l.parts, s, r.parts, Records(l));
    } else {
      CompletedMaps(l, g, m, b, r, now, s, whole, s);
      TotalEmpty(r.parts);
    }
  }

  lemma CompletedOthers(l: Limits, g: Image, m: Machine, b: Binding, r: Record, now: int, s: nat, whole: seq<byte>)
    requires Ready(l, g, m, b, r, s) && |whole| <= l.message && l.parts > 0 && s < l.slots == |g.headers|
    ensures var g' := Completed(l, g, b, r, now, s, whole);
            OthersSame(l, g, g', s) && HeaderOk(l, g', s)
  {
    hide Ready, Represents, SlotMap, Keep, Bytes, Chain, TotalOf, Records, Completed, PoolOk;
    CompletedShape(l, g, m, b, r, now, s, whole);
    CompletedMaps(l, g, m, b, r, now, s, whole, s);
    forall t | 0 <= t < l.slots && t != s
      ensures SlotMap(Completed(l, g, b, r, now, s, whole).items, l.parts, t) == SlotMap(g.items, l.parts, t)
    {
      CompletedMaps(l, g, m, b, r, now, s, whole, t);
    }
  }

  lemma PendingCounts(l: Limits, g: Image, m: Machine, b: Binding, r: Record, s: nat)
    requires Ready(l, g, m, b, r, s)
    ensures s < |g.headers| && (g.headers[s].live == 1 ==> g.pending >= 1 && KeyOf(b, r) in m.pending)
    ensures |m.pending| == g.pending
    ensures |m.pending - {KeyOf(b, r)}| == if g.headers[s].live == 1 then g.pending - 1 else g.pending
  {
    hide SlotMap, Chain, Bytes, Initialized;
    if g.headers[s].live == 1 {
      assert Shows(l, g, m, s);
    }
    var k, q := KeyOf(b, r), m.pending - {KeyOf(b, r)};
    if k in m.pending {
      assert m.pending == q[k := m.pending[k]];
    } else {
      assert m.pending == q;
    }
  }

  lemma CompletedInitialized(l: Limits, g: Image, m: Machine, b: Binding, r: Record, now: int, s: nat, whole: seq<byte>)
    requires Ready(l, g, m, b, r, s) && |whole| <= l.message && g.clock <= now <= CLOCK_MAX
    requires l.parts > 0 && s < l.slots == |g.headers| && 0 <= r.parts <= l.parts
    ensures Initialized(l, Completed(l, g, b, r, now, s, whole))
  {
    hide Ready, Represents, SlotMap, Keep, Bytes, Chain, TotalOf, Records, Completed, PoolOk;
    ReadyFacts(l, g, m, b, r, s);
    CompletedShape(l, g, m, b, r, now, s, whole);
    CompletedBytes(l, g, m, b, r, now, s, whole);
    PendingCounts(l, g, m, b, r, s);
  }

  lemma CompletedPoolOk(l: Limits, g: Image, m: Machine, b: Binding, r: Record, now: int, s: nat, whole: seq<byte>)
    requires Ready(l, g, m, b, r, s) && |whole| <= l.message && g.clock <= now <= CLOCK_MAX
    requires l.parts > 0 && s < l.slots == |g.headers| && 0 <= r.parts <= l.parts
    ensures PoolOk(l, Completed(l, g, b, r, now, s, whole))
  {
    var g' := Completed(l, g, b, r, now, s, whole);
    hide Ready, PoolOk, Represents, SlotMap, Keep, Bytes, Chain, TotalOf, Records, Completed, OthersSame, HeaderOk,
         Initialized;
    ReadyFacts(l, g, m, b, r, s);
    CompletedShape(l, g, m, b, r, now, s, whole);
    CompletedBytes(l, g, m, b, r, now, s, whole);
    CompletedOthers(l, g, m, b, r, now, s, whole);
    CompletedInitialized(l, g, m, b, r, now, s, whole);
    KeyIsOwn(l, g, m, KeyOf(b, r), s);
    PoolOkFrom(l, g, g', s, KeyOf(b, r));
  }

  /** The machine after `r` completed its message. */
  function Finished(m: Machine, b: Binding, r: Record, now: int, whole: seq<byte>): Machine
    requires 0 <= r.parts
  {
    var k, a := KeyOf(b, r), Found(m, KeyOf(b, r), r.parts, now);
    m.(pending := m.pending - {k}, buffered := m.buffered - TotalOf(a.chunks, r.parts), done := Some(whole),
       clock := now)
  }

  lemma CompletedNumbers(l: Limits, g: Image, m: Machine, b: Binding, r: Record, now: int, s: nat, whole: seq<byte>)
    requires Ready(l, g, m, b, r, s) && |whole| <= l.message && g.done == 0
    requires l.parts > 0 && s < l.slots == |g.headers| && 0 <= r.parts <= l.parts
    ensures Numbers(Completed(l, g, b, r, now, s, whole), Finished(m, b, r, now, whole))
  {
    hide Ready, PoolOk, SlotMap, Keep, Bytes, Chain, TotalOf, Records, Completed, ShowsAll, PlacedAll, HeaderOk, Found;
    ReadyFacts(l, g, m, b, r, s);
    CompletedShape(l, g, m, b, r, now, s, whole);
    CompletedBytes(l, g, m, b, r, now, s, whole);
    ChunkMap(l, g, m, b, r, now, s);
    PendingCounts(l, g, m, b, r, s);
  }

  lemma CompletedRepresents(l: Limits, g: Image, m: Machine, b: Binding, r: Record, now: int, s: nat, whole: seq<byte>)
    requires Ready(l, g, m, b, r, s) && |whole| <= l.message && g.clock <= now <= CLOCK_MAX && g.done == 0
    requires l.parts > 0 && s < l.slots == |g.headers| && 0 <= r.parts <= l.parts
    ensures Represents(l, Completed(l, g, b, r, now, s, whole), Finished(m, b, r, now, whole))
  {
    hide Ready, SlotMap, Keep, Bytes, Chain, TotalOf, Records, Completed, OthersSame, Shows, Placed, Numbers, HeaderOk,
         Found;
    var g', m', k := Completed(l, g, b, r, now, s, whole), Finished(m, b, r, now, whole), KeyOf(b, r);
    ReadyFacts(l, g, m, b, r, s);
    CompletedShape(l, g, m, b, r, now, s, whole);
    CompletedPoolOk(l, g, m, b, r, now, s, whole);
    CompletedOthers(l, g, m, b, r, now, s, whole);
    CompletedNumbers(l, g, m, b, r, now, s, whole);
    hide PoolOk;
    forall t | 0 <= t < l.slots && g'.headers[t].live == 1
      ensures Shows(l, g', m', t)
    {
      DropShows(l, g, m, g', m', k, s, t);
    }
    forall q | q in m'.pending
      ensures Placed(l, g', q)
    {
      DropPlaced(l, g, m, g', k, s, q);
    }
  }

  // ---------------------------------------------------------------- the refinement

  lemma GuardAgrees(l: Limits, c: Codec, g: Image, m: Machine, b: Binding, r: Record, now: int)
    requires Represents(l, g, m)
    ensures AcceptGuard(l, c, g, b, r, now) <==> Admitted(l, c, m, b, r, now)
  {
    hide HeaderOk, Chain, Shows, Placed;
  }

  /** Every call of the pool does what the keyed map does, with the same answer. */
  lemma AcceptRefines(l: Limits, c: Codec, g: Image, m: Machine, b: Binding, r: Record, now: int)
    requires Represents(l, g, m) && l.parts > 0
    ensures var (g', code) := Accept(l, c, g, b, r, now);
            var (m', code') := AcceptKeyed(l, c, m, b, r, now);
            code == code' && Represents(l, g', m')
  {
    hide Represents, AcceptGuard, Admitted;
    GuardAgrees(l, c, g, m, b, r, now);
    if AcceptGuard(l, c, g, b, r, now) {
      SlotRefines(l, c, g, m, b, r, now);
    }
  }

  lemma Quotas(l: Limits, c: Codec, g: Image, m: Machine, b: Binding, r: Record, now: int, s: nat)
    requires Ready(l, g, m, b, r, s) && AcceptGuard(l, c, g, b, r, now)
    ensures var a := Found(m, KeyOf(b, r), r.parts, now);
            var chunks := a.chunks[r.index := r.text];
            && a.chunks == SlotMap(g.items, l.parts, s) && m.buffered == |Bytes(g.items)| && g.done == 0
            && AcceptSlot(l, c, g, b, r, now, s)
            == if TotalOf(chunks, r.parts) > l.message || m.buffered - Size(At(a.chunks, r.index)) + |r.text| > l.arena
               then (g, -1)
               else if |chunks| == r.parts then
                 var whole := Join(chunks, r.parts);
                 if c.document(whole) then (Completed(l, g, b, r, now, s, whole), 1) else (g, -1)
               else (Append(l, g, b, r, now, s), 0)
  {
    ChunkMap(l, g, m, b, r, now, s);
    Figures(l, g, m, b, r, now, s);
    hide IdOf, SlotMap, Keep, Bytes, Chain, TotalOf, Append, Completed, PoolOk, HeaderOk, Staged;
  }

  /** Under the same facts the keyed map decides by the same quotas. */
  lemma KeyedQuotas(l: Limits, c: Codec, g: Image, m: Machine, b: Binding, r: Record, now: int, s: nat)
    requires Ready(l, g, m, b, r, s) && Admitted(l, c, m, b, r, now)
    ensures var a := Found(m, KeyOf(b, r), r.parts, now);
            var chunks, grown := a.chunks[r.index := r.text], m.buffered - Size(At(a.chunks, r.index)) + |r.text|;
            AcceptKeyed(l, c, m, b, r, now)
            == if TotalOf(chunks, r.parts) > l.message || grown > l.arena then (m, -1)
               else if |chunks| == r.parts then
                 var whole := Join(chunks, r.parts);
                 if c.document(whole) then (Finished(m, b, r, now, whole), 1) else (m, -1)
               else (Grown(m, b, r, now), 0)
  {
    hide Ready, SlotMap, TotalOf, Join, Admitted, Found, KeyOf, Size, At;
    ChunkMap(l, g, m, b, r, now, s);
    KeyedRoom(l, g, m, b, r, s);
  }

  lemma KeyedRoom(l: Limits, g: Image, m: Machine, b: Binding, r: Record, s: nat)
    requires Ready(l, g, m, b, r, s)
    ensures 0 <= r.index < r.parts && (KeyOf(b, r) in m.pending || |m.pending| < l.slots)
  {
    hide SlotMap, Bytes, Chain, HeaderOk;
    if g.headers[s].live == 1 {
      assert Shows(l, g, m, s);
    }
  }

  lemma ReadyRefines(l: Limits, c: Codec, g: Image, m: Machine, b: Binding, r: Record, now: int, s: nat)
    requires Ready(l, g, m, b, r, s) && AcceptGuard(l, c, g, b, r, now) && Admitted(l, c, m, b, r, now)
    requires l.parts > 0 && s < l.slots == |g.headers| && 0 <= r.index < r.parts <= l.parts
    requires g.clock <= now <= CLOCK_MAX
    ensures var (g', code) := AcceptSlot(l, c, g, b, r, now, s);
            var (m', code') := AcceptKeyed(l, c, m, b, r, now);
            code == code' && Represents(l, g', m')
  {
    hide Ready, Represents, AcceptGuard, Admitted, SlotMap, Bytes, Chain, Append, Completed, AcceptSlot, AcceptKeyed,
         IdOf, Found, Grown, Finished, PoolOk;
    ReadyFacts(l, g, m, b, r, s);
    Quotas(l, c, g, m, b, r, now, s);
    KeyedQuotas(l, c, g, m, b, r, now, s);
    var chunks := Found(m, KeyOf(b, r), r.parts, now).chunks[r.index := r.text];
    var (g', code) := AcceptSlot(l, c, g, b, r, now, s);
    if code == 1 {
      CompletedRepresents(l, g, m, b, r, now, s, Join(chunks, r.parts));
    } else if code == 0 {
      AppendPoolOk(l, g, m, b, r, now, s);
      AppendRepresents(l, g, m, b, r, now, s);
    }
  }

  lemma SlotRefines(l: Limits, c: Codec, g: Image, m: Machine, b: Binding, r: Record, now: int)
    requires Represents(l, g, m) && l.parts > 0 && AcceptGuard(l, c, g, b, r, now) && Admitted(l, c, m, b, r, now)
    ensures var (g', code) := Accept(l, c, g, b, r, now);
            var (m', code') := AcceptKeyed(l, c, m, b, r, now);
            code == code' && Represents(l, g', m')
  {
    Located(l, c, g, m, b, r, now);
    var s, k := FindSlot(g.headers, b, r, 0, -1), KeyOf(b, r);
    FindSlotRange(g.headers, b, r, 0, -1);
    hide FindSlot, SlotMap, Bytes, Chain, HeaderOk, IdOf, PoolOk, TotalOf;
    if s < 0 {
      assert AcceptKeyed(l, c, m, b, r, now) == (m, -1);
    } else if g.headers[s].live == 1 && g.headers[s].parts != r.parts {
      assert Found(m, k, r.parts, now).parts == g.headers[s].parts;
    } else if g.headers[s].live != 1 && g.pending >= l.slots {
    } else {
      assert Ready(l, g, m, b, r, s);
      ReadyRefines(l, c, g, m, b, r, now, s);
    }
  }
}
