/**
 The packed payload arena: part records form one arrival list through `next`,
 and their texts lie end to end from the start of the payload, in list order.
 `Item`s are the abstract contents; the records and bytes are determined by them.
 */
module Arena {
  import opened Common

  datatype Entry = Entry(off: int, mark: int, next: int)

  const GONE: Entry := Entry(0, 0, 0)
  const PRESENT: int := 0x8000

  datatype Item = Item(id: nat, text: seq<byte>)

  /** The texts end to end. */
  function Bytes(items: seq<Item>): seq<byte> {
    if items == [] then [] else Bytes(items[..|items| - 1]) + items[|items| - 1].text
  }

  ghost predicate Has(items: seq<Item>, id: int) {
    exists j :: 0 <= j < |items| && items[j].id == id
  }

  ghost predicate Chain(items: seq<Item>, limit: nat) {
    && (forall j :: 0 <= j < |items| ==> items[j].id < limit && |items[j].text| < PRESENT)
    && (forall i, j :: 0 <= i < j < |items| ==> items[i].id != items[j].id)
  }

  function NextId(items: seq<Item>, k: nat, limit: nat): int
    requires k < |items|
  {
    if k + 1 < |items| then items[k + 1].id else limit
  }

  /** The records spell the list: offsets are running lengths, `limit` ends it, and every
      record off the list is zero. */
  ghost predicate Linked(items: seq<Item>, e: seq<Entry>, limit: nat) {
    && Chain(items, limit) && |e| == limit
    && (forall k :: 0 <= k < |items| ==>
          e[items[k].id] == Entry(|Bytes(items[..k])|, PRESENT + |items[k].text|, NextId(items, k, limit)))
    && (forall id :: 0 <= id < limit && !Has(items, id) ==> e[id] == GONE)
  }

  ghost predicate Packed(items: seq<Item>, l: seq<byte>, used: int) {
    && used == |Bytes(items)| <= |l|
    && l[..used] == Bytes(items)
    && forall j :: used <= j < |l| ==> l[j] == 0
  }

  function First(items: seq<Item>, limit: nat): int {
    if items == [] then limit else items[0].id
  }

  function Last(items: seq<Item>, limit: nat): int {
    if items == [] then limit else items[|items| - 1].id
  }

  /** What is left when the ids chosen by `drop` are taken out. */
  function Keep(items: seq<Item>, drop: nat -> bool): seq<Item> {
    if items == [] then []
    else
      var rest, last := Keep(items[..|items| - 1], drop), items[|items| - 1];
      if drop(last.id) then rest else rest + [last]
  }

  function OneId(id: int): nat -> bool { (x: nat) => x == id }

  function SlotIds(s: int, parts: nat): nat -> bool
    requires parts > 0
  {
    (x: nat) => SlotOf(x, parts) == s
  }

  /** Part records are numbered slot by slot. */
  function IdOf(s: nat, parts: nat, i: nat): nat { s * parts + i }

  function SlotOf(id: nat, parts: nat): nat
    requires parts > 0
  {
    id / parts
  }

  function IndexOf(id: nat, parts: nat): nat
    requires parts > 0
  {
    id % parts
  }

  lemma BytesStep(items: seq<Item>, k: nat)
    requires k < |items|
    ensures Bytes(items[..k + 1]) == Bytes(items[..k]) + items[k].text
    ensures items[..k + 1] == items[..k] + [items[k]]
  {
    assert items[..k + 1][..k] == items[..k];
  }

  lemma {:induction false} BytesMonotone(items: seq<Item>, k: nat)
    requires k <= |items|
    ensures |Bytes(items[..k])| <= |Bytes(items)|
    ensures Bytes(items)[..|Bytes(items[..k])|] == Bytes(items[..k])
    decreases |items|
  {
    if k == |items| {
      assert items[..k] == items;
    } else {
      var front := items[..|items| - 1];
      BytesMonotone(front, k);
      assert front[..k] == items[..k];
    }
  }

  /** Where item `k` lies in the packed bytes. */
  lemma ItemBytes(items: seq<Item>, k: nat)
    requires k < |items|
    ensures var at := |Bytes(items[..k])|;
            at + |items[k].text| <= |Bytes(items)| && Bytes(items)[at..at + |items[k].text|] == items[k].text
  {
    BytesStep(items, k);
    BytesMonotone(items, k + 1);
    var at := |Bytes(items[..k])|;
    assert Bytes(items)[at..at + |items[k].text|] == Bytes(items)[..|Bytes(items[..k + 1])|][at..];
  }

  lemma KeepStep(items: seq<Item>, x: Item, drop: nat -> bool)
    ensures Keep(items + [x], drop) == if drop(x.id) then Keep(items, drop) else Keep(items, drop) + [x]
  {
    assert (items + [x])[..|items|] == items;
  }

  lemma {:induction false} KeepMembers(items: seq<Item>, drop: nat -> bool)
    ensures forall x :: x in Keep(items, drop) <==> x in items && !drop(x.id)
  {
    if items != [] {
      var front, last := items[..|items| - 1], items[|items| - 1];
      KeepMembers(front, drop);
      assert items == front + [last];
    }
  }

  lemma {:induction false} KeepShrinks(items: seq<Item>, drop: nat -> bool)
    ensures |Bytes(Keep(items, drop))| <= |Bytes(items)|
  {
    if items != [] {
      var kept, last := Keep(items[..|items| - 1], drop), items[|items| - 1];
      KeepShrinks(items[..|items| - 1], drop);
      assert (kept + [last])[..|kept|] == kept;
    }
  }

  lemma ChainFront(items: seq<Item>, limit: nat)
    requires Chain(items, limit) && items != []
    ensures Chain(items[..|items| - 1], limit)
    ensures var last := items[|items| - 1];
            last.id < limit && |last.text| < PRESENT && forall j :: 0 <= j < |items| - 1 ==> items[j].id != last.id
  {
  }

  lemma ChainAppend(items: seq<Item>, x: Item, limit: nat)
    requires Chain(items, limit) && x.id < limit && |x.text| < PRESENT
    requires forall j :: 0 <= j < |items| ==> items[j].id != x.id
    ensures Chain(items + [x], limit)
  {
  }

  lemma {:induction false} KeepChain(items: seq<Item>, drop: nat -> bool, limit: nat)
    requires Chain(items, limit)
    ensures Chain(Keep(items, drop), limit)
  {
    if items != [] {
      hide Chain;
      var front, last := items[..|items| - 1], items[|items| - 1];
      ChainFront(items, limit);
      KeepChain(front, drop, limit);
      KeepMembers(front, drop);
      var kept := Keep(front, drop);
      forall j | 0 <= j < |kept|
        ensures kept[j].id != last.id
      {
        assert kept[j] in kept && kept[j] in front;
      }
      ChainAppend(kept, last, limit);
    }
  }

  // ---------------------------------------------------------------- half-way through a compaction

  /** After `k` items the survivors `kept` are relinked (all but the last one's `next`), the
      dropped records are zero and the rest of the list is as it was. */
  ghost predicate Midway(items: seq<Item>, k: nat, kept: seq<Item>, e: seq<Entry>, limit: nat) {
    && Chain(items, limit) && |e| == limit && k <= |items| && Chain(kept, limit)
    && (forall x :: x in kept ==> x in items[..k])
    && (forall j :: 0 <= j < |kept| ==>
          && e[kept[j].id].off == |Bytes(kept[..j])| && e[kept[j].id].mark == PRESENT + |kept[j].text|
          && (j + 1 < |kept| ==> e[kept[j].id].next == kept[j + 1].id))
    && (forall j :: k <= j < |items| ==>
          e[items[j].id] == Entry(|Bytes(items[..j])|, PRESENT + |items[j].text|, NextId(items, j, limit)))
    && (forall id :: 0 <= id < limit && !Has(kept, id) && !Has(items[k..], id) ==> e[id] == GONE)
  }

  lemma MidwayStart(items: seq<Item>, e: seq<Entry>, limit: nat)
    requires Linked(items, e, limit)
    ensures Midway(items, 0, [], e, limit)
  {
    assert items[0..] == items;
  }

  lemma HasTail(items: seq<Item>, k: nat, id: int)
    requires k < |items|
    ensures Has(items[k..], id) <==> items[k].id == id || Has(items[k + 1..], id)
  {
    var t, u := items[k..], items[k + 1..];
    if Has(t, id) {
      var j :| 0 <= j < |t| && t[j].id == id;
      if j > 0 {
        assert u[j - 1] == t[j];
      }
    }
    if Has(u, id) {
      var j :| 0 <= j < |u| && u[j].id == id;
      assert t[j + 1] == u[j];
    }
    assert t[0] == items[k];
  }

  function Relinked(kept: seq<Item>, i: nat, off: int, e: seq<Entry>): (f: seq<Entry>)
    requires i < |e| && forall x :: x in kept ==> x.id < |e|
    ensures |f| == |e|
  {
    var f := e[i := e[i].(off := off)];
    if kept == [] then f else f[kept[|kept| - 1].id := f[kept[|kept| - 1].id].(next := i)]
  }

  lemma NotYetKept(items: seq<Item>, k: nat, kept: seq<Item>, limit: nat)
    requires Chain(items, limit) && k < |items| && Chain(kept, limit) && forall x :: x in kept ==> x in items[..k]
    ensures forall i, j :: 0 <= i < |kept| && k <= j < |items| ==> kept[i].id != items[j].id
    ensures Chain(kept + [items[k]], limit)
  {
    forall i, j | 0 <= i < |kept| && k <= j < |items|
      ensures kept[i].id != items[j].id
    {
      assert kept[i] in items[..k];
    }
  }

  lemma MidwayDrop(items: seq<Item>, k: nat, kept: seq<Item>, e: seq<Entry>, limit: nat)
    requires Midway(items, k, kept, e, limit) && k < |items|
    ensures Midway(items, k + 1, kept, e[items[k].id := GONE], limit)
  {
    hide Bytes;
    var f := e[items[k].id := GONE];
    assert items[..k + 1] == items[..k] + [items[k]];
    NotYetKept(items, k, kept, limit);
    forall id | 0 <= id < limit && !Has(kept, id) && !Has(items[k + 1..], id)
      ensures f[id] == GONE
    {
      HasTail(items, k, id);
    }
  }

  lemma RelinkedAt(items: seq<Item>, k: nat, kept: seq<Item>, e: seq<Entry>, limit: nat)
    requires Midway(items, k, kept, e, limit) && k < |items|
    ensures var f := Relinked(kept, items[k].id, |Bytes(kept)|, e);
            && f[items[k].id] == e[items[k].id].(off := |Bytes(kept)|)
            && (forall j :: 0 <= j < |kept| ==>
                  f[kept[j].id] == if j + 1 < |kept| then e[kept[j].id] else e[kept[j].id].(next := items[k].id))
            && (forall id :: 0 <= id < limit && id != items[k].id && !Has(kept, id) ==> f[id] == e[id])
  {
    NotYetKept(items, k, kept, limit);
  }

  lemma HasAppend(kept: seq<Item>, item: Item, id: int)
    ensures Has(kept + [item], id) <==> Has(kept, id) || id == item.id
  {
    var more := kept + [item];
    assert more[|kept|] == item;
    if Has(kept, id) {
      var j :| 0 <= j < |kept| && kept[j].id == id;
      assert more[j] == kept[j];
    }
  }

  lemma KeepLinks(items: seq<Item>, k: nat, kept: seq<Item>, e: seq<Entry>, limit: nat)
    requires Midway(items, k, kept, e, limit) && k < |items|
    ensures var more, f := kept + [items[k]], Relinked(kept, items[k].id, |Bytes(kept)|, e);
            forall j :: 0 <= j < |more| ==>
              && more[j].id < limit
              && f[more[j].id].off == |Bytes(more[..j])| && f[more[j].id].mark == PRESENT + |more[j].text|
              && (j + 1 < |more| ==> f[more[j].id].next == more[j + 1].id)
  {
    RelinkedAt(items, k, kept, e, limit);
    var more, f := kept + [items[k]], Relinked(kept, items[k].id, |Bytes(kept)|, e);
    hide Relinked, Bytes;
    forall j | 0 <= j < |more|
      ensures more[j].id < limit && f[more[j].id].off == |Bytes(more[..j])|
      ensures f[more[j].id].mark == PRESENT + |more[j].text|
      ensures j + 1 < |more| ==> f[more[j].id].next == more[j + 1].id
    {
      if j < |kept| {
        assert more[..j] == kept[..j] && more[j] == kept[j];
      } else {
        assert more[..j] == kept && more[j] == items[k];
      }
    }
  }

  lemma KeepRest(items: seq<Item>, k: nat, kept: seq<Item>, e: seq<Entry>, limit: nat)
    requires Midway(items, k, kept, e, limit) && k < |items|
    ensures var more, f := kept + [items[k]], Relinked(kept, items[k].id, |Bytes(kept)|, e);
            && (forall j :: k + 1 <= j < |items| ==> f[items[j].id] == e[items[j].id])
            && (forall id :: 0 <= id < limit && !Has(more, id) && !Has(items[k + 1..], id) ==> f[id] == GONE)
  {
    NotYetKept(items, k, kept, limit);
    RelinkedAt(items, k, kept, e, limit);
    var more, f := kept + [items[k]], Relinked(kept, items[k].id, |Bytes(kept)|, e);
    forall j | k + 1 <= j < |items|
      ensures f[items[j].id] == e[items[j].id]
    {
      assert !Has(kept, items[j].id);
    }
    forall id | 0 <= id < limit && !Has(more, id) && !Has(items[k + 1..], id)
      ensures f[id] == GONE
    {
      HasTail(items, k, id);
      HasAppend(kept, items[k], id);
    }
  }

  lemma MidwayKeep(items: seq<Item>, k: nat, kept: seq<Item>, e: seq<Entry>, limit: nat)
    requires Midway(items, k, kept, e, limit) && k < |items|
    ensures Midway(items, k + 1, kept + [items[k]], Relinked(kept, items[k].id, |Bytes(kept)|, e), limit)
  {
    hide Relinked, Bytes, Has, Chain, NextId;
    NotYetKept(items, k, kept, limit);
    KeepLinks(items, k, kept, e, limit);
    KeepRest(items, k, kept, e, limit);
    MembersGrow(items, k, kept);
  }

  lemma MembersGrow(items: seq<Item>, k: nat, kept: seq<Item>)
    requires k < |items| && forall x :: x in kept ==> x in items[..k]
    ensures forall x :: x in kept + [items[k]] ==> x in items[..k + 1]
  {
    assert items[..k + 1] == items[..k] + [items[k]];
  }

  lemma MidwayEnd(items: seq<Item>, kept: seq<Item>, e: seq<Entry>, limit: nat)
    requires Midway(items, |items|, kept, e, limit)
    ensures var f := if kept == [] then e else e[kept[|kept| - 1].id := e[kept[|kept| - 1].id].(next := limit)];
            Linked(kept, f, limit)
  {
    assert items[|items|..] == [];
  }
}
