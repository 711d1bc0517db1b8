/**
 What the reassembly pool does with one received part, as functions of its contents:
 numbered slots with headers, one packed arena of parts for all of them, and one
 completed message that stays pinned until it is released.
 */
module Reassembly {
  import opened Common
  import opened Arena

  datatype Limits = Limits(slots: nat, parts: nat, arena: nat, message: nat)

  /** How many part records there are; the number itself ends the list. */
  function Records(l: Limits): nat { l.slots * l.parts }

  /** The shipped sizes. */
  const NATIVE: Limits := Limits(128, 2048, 4194304, 1048576)

  const MAGIC: int := 0x3152414b
  const BINDING_MAGIC: int := 0x3142504b
  const RECORD_MAGIC: int := 0x3146504b
  const CLOCK_MAX: int := 9007199254740991

  datatype Header = Header(live: int, peer: int, epoch: int, key: seq<byte>, ident: seq<byte>, units: int,
                           parts: int, count: int, total: int, touched: int)

  const EMPTY: Header := Header(0, 0, 0, [], [], 0, 0, 0, 0, 0)

  datatype Image = Image(magic: int, version: int, pending: int, size: int, done: int, epoch: int, clock: int,
                         headers: seq<Header>, items: seq<Item>, held: Header, output: seq<byte>)

  datatype Binding = Binding(magic: int, version: int, epoch: int, peer: int, reserved: int, key: seq<byte>, tail: int)

  datatype Record = Record(magic: int, ident: seq<byte>, units: int, index: int, parts: int, text: seq<byte>)

  /** What the pool takes from the codec and the JSON scanner: UTF-16 length and document validity. */
  datatype Codec = Codec(units: seq<byte> -> int, document: seq<byte> -> bool)

  predicate Initialized(l: Limits, g: Image) {
    && g.magic == MAGIC && g.version == 1 && 0 <= g.pending <= l.slots && |Bytes(g.items)| <= l.arena
    && 0 <= g.size <= l.message && 0 <= g.done <= 1
    && 0 < g.epoch <= CLOCK_MAX && 0 <= g.clock <= CLOCK_MAX
  }

  predicate ValidBinding(epoch: int, b: Binding) {
    && b.magic == BINDING_MAGIC && b.version == 1 && b.epoch == epoch
    && 1 <= b.peer <= 64 && b.reserved == 0 && b.tail == 0 && |b.key| == 32
    && exists i :: 0 <= i < |b.key| && b.key[i] != 0
  }

  /** Some field of the binding is not what the pool at `epoch` demands, or its key is all zero. */
  predicate Forged(epoch: int, b: Binding) {
    || b.magic != 0x3142504b || b.version != 1 || b.epoch != epoch || b.peer < 1 || b.peer > 64 || b.reserved != 0
    || b.tail != 0 || |b.key| != 32 || forall i :: 0 <= i < |b.key| ==> b.key[i] == 0
  }

  lemma ForgedExact(epoch: int, b: Binding)
    ensures Forged(epoch, b) <==> !ValidBinding(epoch, b)
    ensures !Forged(epoch, b) ==> b.epoch == epoch
  {
  }

  /** Some field of the record is out of range. */
  predicate Malformed(l: Limits, c: Codec, r: Record) {
    || r.magic != 0x3146504b || |r.ident| < 1 || |r.ident| > 640 || r.units < 1 || r.units > 160
    || c.units(r.ident) != r.units || r.parts < 1 || r.parts > l.parts || r.index < 0 || r.index >= r.parts
        || |r.text| > 700
  }

  predicate ValidRecord(l: Limits, c: Codec, r: Record) {
    && r.magic == RECORD_MAGIC && 1 <= |r.ident| <= 640 && 1 <= r.units <= 160 && c.units(r.ident) == r.units
    && 0 < r.parts <= l.parts && 0 <= r.index < r.parts && |r.text| <= 700
  }

  predicate Bound(h: Header, b: Binding) {
    h.live == 1 && h.peer == b.peer && h.epoch == b.epoch && h.key == b.key
  }

  predicate Matches(h: Header, b: Binding, r: Record) {
    h.live == 1 && h.ident == r.ident && Bound(h, b)
  }

  /** The slot of this assembly, or else the first free slot, or else -1. */
  function FindSlot(hs: seq<Header>, b: Binding, r: Record, s: nat, free: int): int
    requires s <= |hs|
    decreases |hs| - s
  {
    if s == |hs| then free
    else if Matches(hs[s], b, r) then s
    else FindSlot(hs, b, r, s + 1, if free < 0 && hs[s].live == 0 then s else free)
  }

  function PartOf(items: seq<Item>, id: int): Option<seq<byte>> {
    if items == [] then None
    else if items[|items| - 1].id == id then Some(items[|items| - 1].text)
    else PartOf(items[..|items| - 1], id)
  }

  function Size(p: Option<seq<byte>>): nat {
    if p.None? then 0 else |p.value|
  }

  function Text(p: Option<seq<byte>>): seq<byte> {
    if p.None? then [] else p.value
  }

  function Saved(b: Binding, r: Record, now: int): Header {
    Header(1, b.peer, b.epoch, b.key, r.ident, r.units, r.parts, 0, 0, now)
  }

  /** What every page in use says about its peer, its identifier and its clock. */
  predicate Tidy(h: Header) {
    && h.live == 1 && 1 <= h.peer <= 64 && 0 < h.epoch <= CLOCK_MAX && |h.key| == 32
    && 1 <= |h.ident| <= 640 && 1 <= h.units <= 160 && 0 <= h.touched <= CLOCK_MAX
    && exists i :: 0 <= i < |h.key| && h.key[i] != 0
  }

  function Append(l: Limits, g: Image, b: Binding, r: Record, now: int, s: nat): Image
    requires s < |g.headers| && 0 <= r.index
  {
    var h, id := g.headers[s], IdOf(s, l.parts, r.index);
    var prior := PartOf(g.items, id);
    var base := if h.live == 0 then Saved(b, r, now) else h;
    var kept := if prior.Some? then Keep(g.items, OneId(id)) else g.items;
    g.(headers := g.headers[s := base.(count := h.count + (if prior.Some? then 0 else 1),
                                       total := h.total - Size(prior) + |r.text|, touched := now)],
       items := kept + [Item(id, r.text)],
       pending := if h.live == 0 then g.pending + 1 else g.pending,
       clock := now)
  }

  function Zeros(n: nat): (z: seq<byte>)
    ensures |z| == n
  {
    seq(n, _ => 0)
  }

  /** The pool after a reset. */
  function EmptyImage(l: Limits, epoch: int): Image {
    Image(MAGIC, 1, 0, 0, 0, epoch, 0, seq(l.slots, _ => EMPTY), [], EMPTY, Zeros(l.message))
  }

  /** The first `n` parts of slot `s` in index order, with `r` in its place. */
  function Staged(items: seq<Item>, s: nat, parts: nat, r: Record, n: nat): seq<byte> {
    if n == 0 then []
    else Staged(items, s, parts, r, n - 1)
         + (if n - 1 == r.index then r.text else Text(PartOf(items, IdOf(s, parts, n - 1))))
  }

  function Completed(l: Limits, g: Image, b: Binding, r: Record, now: int, s: nat, whole: seq<byte>): Image
    requires s < |g.headers| && |whole| <= l.message && l.parts > 0
  {
    var live := g.headers[s].live == 1;
    g.(headers := if live then g.headers[s := EMPTY] else g.headers,
       items := if live then Keep(g.items, SlotIds(s, l.parts)) else g.items,
       pending := if live then g.pending - 1 else g.pending,
       held := Saved(b, r, now), size := |whole|, done := 1, clock := now,
       output := whole + Zeros(l.message - |whole|))
  }

  function AcceptSlot(l: Limits, c: Codec, g: Image, b: Binding, r: Record, now: int, s: int): (Image, int)
    requires s < |g.headers| && l.parts > 0 && 0 <= r.index && 0 <= r.parts
  {
    if s < 0 then (g, -1)
    else
      var h, prior := g.headers[s], PartOf(g.items, IdOf(s, l.parts, r.index));
      var total := h.total - Size(prior) + |r.text|;
      if || (h.live == 1 && h.parts != r.parts)
         || (h.live != 1 && g.pending >= l.slots)
         || total > l.message
         || |Bytes(g.items)| - Size(prior) + |r.text| > l.arena
      then (g, -1)
      else if h.count + (if prior.Some? then 0 else 1) == r.parts then
        var whole := Staged(g.items, s, l.parts, r, r.parts);
        if |whole| <= l.message && c.document(whole) then (Completed(l, g, b, r, now, s, whole), 1) else (g, -1)
      else (Append(l, g, b, r, now, s), 0)
  }

  predicate AcceptGuard(l: Limits, c: Codec, g: Image, b: Binding, r: Record, now: int) {
    Initialized(l, g) && g.done == 0 && ValidBinding(g.epoch, b) && g.clock <= now <= CLOCK_MAX && ValidRecord(l, c, r)
  }

  /** -1 refused, 0 kept, 1 completed. */
  function Accept(l: Limits, c: Codec, g: Image, b: Binding, r: Record, now: int): (Image, int)
    requires l.parts > 0
  {
    if !AcceptGuard(l, c, g, b, r, now) then (g, -1)
    else
      FindSlotRange(g.headers, b, r, 0, -1);
      AcceptSlot(l, c, g, b, r, now, FindSlot(g.headers, b, r, 0, -1))
  }

  lemma {:induction false} FindSlotRange(hs: seq<Header>, b: Binding, r: Record, s: nat, free: int)
    requires s <= |hs| && -1 <= free < |hs| && (free >= 0 ==> hs[free].live == 0)
    ensures var f := FindSlot(hs, b, r, s, free);
            && -1 <= f < |hs|
            && (f >= 0 && !Matches(hs[f], b, r) ==> hs[f].live == 0)
            && (f < 0 || !Matches(hs[f], b, r) ==> forall t :: s <= t < |hs| ==> !Matches(hs[t], b, r))
            && (f < 0 ==> free < 0 && forall t :: s <= t < |hs| ==> hs[t].live != 0)
    decreases |hs| - s
  {
    if s < |hs| && !Matches(hs[s], b, r) {
      FindSlotRange(hs, b, r, s + 1, if free < 0 && hs[s].live == 0 then s else free);
    }
  }

  // ---------------------------------------------------------------- one slot as a map

  /** The parts of slot `s`, by index. */
  function SlotMap(items: seq<Item>, parts: nat, s: int): map<nat, seq<byte>>
    requires parts > 0
  {
    if items == [] then map[]
    else
      var m, x := SlotMap(items[..|items| - 1], parts, s), items[|items| - 1];
      if SlotOf(x.id, parts) == s then m[IndexOf(x.id, parts) := x.text] else m
  }

  function At(m: map<nat, seq<byte>>, i: nat): Option<seq<byte>> {
    if i in m then Some(m[i]) else None
  }

  /** Bytes held by the first `n` parts. */
  function TotalOf(m: map<nat, seq<byte>>, n: nat): nat {
    if n == 0 then 0 else TotalOf(m, n - 1) + Size(At(m, n - 1))
  }

  lemma IdParts(x: nat, parts: nat, s: nat, i: nat)
    requires i < parts
    ensures x == IdOf(s, parts, i) <==> SlotOf(x, parts) == s && IndexOf(x, parts) == i
  {
    assert x == parts * (x / parts) + x % parts;
    if x == s * parts + i {
      assert i - x % parts == parts * (x / parts - s);
      MultipleIsFar(parts, x / parts - s);
    }
  }

  lemma {:induction false} PartOfIsAt(items: seq<Item>, parts: nat, s: nat, i: nat)
    requires i < parts
    ensures PartOf(items, IdOf(s, parts, i)) == At(SlotMap(items, parts, s), i)
  {
    hide IdOf, SlotOf, IndexOf;
    if items != [] {
      PartOfIsAt(items[..|items| - 1], parts, s, i);
      IdParts(items[|items| - 1].id, parts, s, i);
    }
  }

  lemma SlotMapStep(items: seq<Item>, x: Item, parts: nat, t: int)
    requires parts > 0
    ensures SlotMap(items + [x], parts, t)
         == if SlotOf(x.id, parts) == t then SlotMap(items, parts, t)[IndexOf(x.id, parts) := x.text]
            else SlotMap(items, parts, t)
  {
    assert (items + [x])[..|items|] == items;
  }

  lemma {:induction false} KeepOneMap(items: seq<Item>, parts: nat, s: nat, i: nat, t: int)
    requires i < parts
    ensures SlotMap(Keep(items, OneId(IdOf(s, parts, i))), parts, t)
         == if t == s then SlotMap(items, parts, t) - {i} else SlotMap(items, parts, t)
  {
    hide IdOf, SlotOf, IndexOf;
    if items != [] {
      var front, x, drop := items[..|items| - 1], items[|items| - 1], OneId(IdOf(s, parts, i));
      KeepOneMap(front, parts, s, i, t);
      assert items == front + [x];
      KeepStep(front, x, drop);
      SlotMapStep(front, x, parts, t);
      SlotMapStep(Keep(front, drop), x, parts, t);
      IdParts(x.id, parts, s, i);
      SetThenDrop(SlotMap(front, parts, t), i, IndexOf(x.id, parts), x.text);
      hide Keep, SlotMap;
      assert drop(x.id) <==> SlotOf(x.id, parts) == s && IndexOf(x.id, parts) == i;
      if drop(x.id) {
        assert SlotMap(Keep(items, drop), parts, t) == SlotMap(Keep(front, drop), parts, t);
      } else {
        assert Keep(items, drop) == Keep(front, drop) + [x];
      }
    }
  }

  lemma SetThenDrop(m: map<nat, seq<byte>>, i: nat, j: nat, text: seq<byte>)
    ensures m[j := text] - {i} == if i == j then m - {i} else (m - {i})[j := text]
  {
  }

  lemma {:induction false} KeepSlotMap(items: seq<Item>, parts: nat, s: int, t: int)
    requires parts > 0
    ensures SlotMap(Keep(items, SlotIds(s, parts)), parts, t) == if t == s then map[] else SlotMap(items, parts, t)
  {
    hide SlotOf, IndexOf;
    if items != [] {
      var front, x, drop := items[..|items| - 1], items[|items| - 1], SlotIds(s, parts);
      KeepSlotMap(front, parts, s, t);
      assert items == front + [x];
      KeepStep(front, x, drop);
      SlotMapStep(front, x, parts, t);
      SlotMapStep(Keep(front, drop), x, parts, t);
    }
  }

  lemma AppendMap(items: seq<Item>, parts: nat, s: nat, i: nat, text: seq<byte>, t: int)
    requires i < parts
    ensures SlotMap(items + [Item(IdOf(s, parts, i), text)], parts, t)
         == if t == s then SlotMap(items, parts, t)[i := text] else SlotMap(items, parts, t)
  {
    IdParts(IdOf(s, parts, i), parts, s, i);
    SlotMapStep(items, Item(IdOf(s, parts, i), text), parts, t);
  }

  lemma {:induction false} TotalUpdate(m: map<nat, seq<byte>>, i: nat, text: seq<byte>, n: nat)
    ensures TotalOf(m[i := text], n) == if i < n then TotalOf(m, n) - Size(At(m, i)) + |text| else TotalOf(m, n)
  {
    if n > 0 {
      TotalUpdate(m, i, text, n - 1);
    }
  }

  lemma {:induction false} TotalEmpty(n: nat)
    ensures TotalOf(map[], n) == 0
  {
    if n > 0 {
      TotalEmpty(n - 1);
    }
  }

  /** The parts in index order. */
  function Join(m: map<nat, seq<byte>>, n: nat): (j: seq<byte>)
    ensures |j| == TotalOf(m, n)
  {
    if n == 0 then [] else Join(m, n - 1) + Text(At(m, n - 1))
  }

  /** What is staged is the slot's parts, with the new one in place, joined in index order. */
  lemma {:induction false} StagedIsJoin(items: seq<Item>, parts: nat, s: nat, r: Record, n: nat)
    requires 0 <= r.index < parts && n <= parts
    ensures Staged(items, s, parts, r, n) == Join(SlotMap(items, parts, s)[r.index := r.text], n)
  {
    if n > 0 {
      StagedIsJoin(items, parts, s, r, n - 1);
      PartOfIsAt(items, parts, s, n - 1);
    }
  }

  lemma FreshId(l: Limits, s: nat, i: nat)
    requires s < l.slots && i < l.parts
    ensures IdOf(s, l.parts, i) < Records(l)
  {
    MulLe(s + 1, l.slots, l.parts);
    assert (s + 1) * l.parts == s * l.parts + l.parts;
  }
}
