/** The arena in place: one array of part records, one payload array, and the words that
    hold the ends of the list and the bytes in use. */
module ArenaBuffer {
  import opened Common
  import opened Arena

  /** Which records a compaction removes: one record, or a whole slot when `part` is negative. */
  function Dropper(slot: int, part: int, parts: nat): nat -> bool
    requires parts > 0
  {
    if part < 0 then SlotIds(slot, parts) else OneId(part)
  }

  function Moved(l: seq<byte>, to: nat, from: nat, size: nat): seq<byte>
    requires to <= from && from + size <= |l|
  {
    l[..to] + l[from..from + size] + l[to + size..]
  }

  lemma BothParts<T>(a: seq<T>, b: seq<T>)
    ensures (a + b)[..|a|] == a && (a + b)[|a|..] == b
  {
  }

  /** A slice of a slice. */
  lemma Inside<T>(l: seq<T>, at: nat, i: nat, n: nat)
    requires at + i + n <= |l|
    ensures l[at..][i..i + n] == l[at + i..at + i + n] && l[at..][i..] == l[at + i..]
  {
  }

  lemma MovedPieces(l: seq<byte>, to: nat, from: nat, i: nat, n: nat)
    requires to <= from && from + i + n <= |l|
    ensures var p := Moved(l, to, from, i);
            && |p| == |l| && p[..to + i] == l[..to] + l[from..from + i]
            && p[from + i..from + i + n] == l[from + i..from + i + n] && p[to + i + n..] == l[to + i + n..]
  {
    var p := Moved(l, to, from, i);
    BothParts(l[..to] + l[from..from + i], l[to + i..]);
    Inside(p, to + i, from - to, n);
    Inside(p, to + i, n, 0);
    Inside(l, to + i, from - to, n);
    Inside(l, to + i, n, 0);
  }

  lemma MiddleOut(a: seq<byte>, b: seq<byte>, c: seq<byte>, d: seq<byte>)
    ensures a + b + c + d == a + (b + c) + d
  {
  }

  /** Moving `n` more bytes after `i` moved ones: the source bytes were not overwritten. */
  lemma MovedStep(l: seq<byte>, to: nat, from: nat, i: nat, n: nat)
    requires to <= from && from + i + n <= |l|
    ensures var p := Moved(l, to, from, i);
            |p| == |l| && p[..to + i] + p[from + i..from + i + n] + p[to + i + n..] == Moved(l, to, from, i + n)
  {
    MovedPieces(l, to, from, i, n);
    Glue(l, from, from + i, from + i + n);
    MiddleOut(l[..to], l[from..from + i], l[from + i..from + i + n], l[to + i + n..]);
  }

  lemma MoveKeeps(items: seq<Item>, k: nat, kept: seq<Item>, l0: seq<byte>, l: seq<byte>, m: seq<byte>)
    requires k < |items| && |l| == |l0| == |m|
    requires |Bytes(items)| <= |l0| && l0[..|Bytes(items)|] == Bytes(items)
    requires var u, at, size := |Bytes(kept)|, |Bytes(items[..k])|, |items[k].text|;
             && u <= at <= |l0| && l[..u] == Bytes(kept) && l[at..] == l0[at..] && at + size <= |l|
             && m == Moved(l, u, at, size)
    ensures var more := kept + [items[k]];
            && |Bytes(more)| == |Bytes(kept)| + |items[k].text| <= |Bytes(items[..k + 1])| <= |l0|
            && m[..|Bytes(more)|] == Bytes(more) && m[|Bytes(items[..k + 1])|..] == l0[|Bytes(items[..k + 1])|..]
  {
    var u, at, size := |Bytes(kept)|, |Bytes(items[..k])|, |items[k].text|;
    BytesStep(items, k);
    BytesMonotone(items, k + 1);
    ItemBytes(items, k);
    assert (kept + [items[k]])[..|kept|] == kept;
    PrefixOfSuffix(l, at, size);
    PrefixOfSuffix(l0, at, size);
    SliceOfPrefix(l0, |Bytes(items)|, at, size);
    assert l[at..at + size] == items[k].text;
    assert m[at + size..] == l[at + size..] == l[at..][size..];
    assert l0[at + size..] == l0[at..][size..];
  }

  function At(items: seq<Item>, k: nat, limit: nat): int {
    if k < |items| then items[k].id else limit
  }

  /** A compaction after `k` items: survivors relinked and moved down, the rest untouched. */
  ghost predicate Walking(items: seq<Item>, k: nat, kept: seq<Item>, drop: nat -> bool,
                          e: seq<Entry>, l: seq<byte>, l0: seq<byte>, limit: nat)
  {
    && Midway(items, k, kept, e, limit) && kept == Keep(items[..k], drop)
    && |l| == |l0| && |Bytes(items)| <= |l0| && l0[..|Bytes(items)|] == Bytes(items)
    && |Bytes(kept)| <= |Bytes(items[..k])| <= |Bytes(items)|
    && l[..|Bytes(kept)|] == Bytes(kept) && l[|Bytes(items[..k])|..] == l0[|Bytes(items[..k])|..]
  }

  lemma WalkStart(items: seq<Item>, e: seq<Entry>, l0: seq<byte>, used: int, limit: nat, drop: nat -> bool)
    requires Linked(items, e, limit) && Packed(items, l0, used)
    ensures Walking(items, 0, [], drop, e, l0, l0, limit)
  {
    MidwayStart(items, e, limit);
    assert items[..0] == [];
  }

  lemma WalkDrop(items: seq<Item>, k: nat, kept: seq<Item>, drop: nat -> bool,
                 e: seq<Entry>, l: seq<byte>, l0: seq<byte>, limit: nat)
    requires Walking(items, k, kept, drop, e, l, l0, limit) && k < |items| && drop(items[k].id)
    ensures e[items[k].id].next == At(items, k + 1, limit)
    ensures Walking(items, k + 1, kept, drop, e[items[k].id := GONE], l, l0, limit)
  {
    NextEntry(items, k, kept, e, limit);
    hide Midway, Bytes, Keep, At;
    MidwayDrop(items, k, kept, e, limit);
    BytesStep(items, k);
    KeepStep(items[..k], items[k], drop);
    BytesMonotone(items, k + 1);
    SameTail(l, l0, |Bytes(items[..k])|, |Bytes(items[..k + 1])|);
  }

  lemma NextEntry(items: seq<Item>, k: nat, kept: seq<Item>, e: seq<Entry>, limit: nat)
    requires Midway(items, k, kept, e, limit) && k < |items|
    ensures items[k].id < |e| && e[items[k].id].next == At(items, k + 1, limit)
  {
  }

  lemma SameTail(l: seq<byte>, l0: seq<byte>, at: nat, more: nat)
    requires at <= more <= |l| == |l0| && l[at..] == l0[at..]
    ensures l[more..] == l0[more..]
  {
    assert l[more..] == l[at..][more - at..] && l0[more..] == l0[at..][more - at..];
  }

  /** The record under the walker says where its text lies, at or after the gap. */
  lemma WalkItem(items: seq<Item>, k: nat, kept: seq<Item>, drop: nat -> bool,
                 e: seq<Entry>, l: seq<byte>, l0: seq<byte>, limit: nat)
    requires Walking(items, k, kept, drop, e, l, l0, limit) && k < |items|
    ensures items[k].id < |e| == limit
    ensures e[items[k].id] == Entry(|Bytes(items[..k])|, PRESENT + |items[k].text|, At(items, k + 1, limit))
    ensures |Bytes(kept)| <= |Bytes(items[..k])| && |Bytes(items[..k])| + |items[k].text| <= |l|
    ensures First(kept + [items[k]], limit) == if First(kept, limit) == limit then items[k].id else First(kept, limit)
    ensures Last(kept + [items[k]], limit) == items[k].id
  {
    ItemBytes(items, k);
  }

  lemma KeptBelow(items: seq<Item>, k: nat, kept: seq<Item>, e: seq<Entry>, limit: nat)
    requires Midway(items, k, kept, e, limit)
    ensures |e| == limit && (forall x :: x in kept ==> x.id < limit) && (Last(kept, limit) < limit <==> kept != [])
  {
    hide Bytes;
  }

  lemma WalkKeep(items: seq<Item>, k: nat, kept: seq<Item>, drop: nat -> bool,
                 e: seq<Entry>, l: seq<byte>, l0: seq<byte>, limit: nat, m: seq<byte>)
    requires Walking(items, k, kept, drop, e, l, l0, limit) && k < |items| && !drop(items[k].id)
    requires var u, at, size := |Bytes(kept)|, |Bytes(items[..k])|, |items[k].text|;
             at + size <= |l| && m == Moved(l, u, at, size)
    ensures |Bytes(kept + [items[k]])| == |Bytes(kept)| + |items[k].text|
    ensures Walking(items, k + 1, kept + [items[k]], drop, Relinked(kept, items[k].id, |Bytes(kept)|, e), m, l0, limit)
  {
    MidwayKeep(items, k, kept, e, limit);
    BytesStep(items, k);
    KeepStep(items[..k], items[k], drop);
    BytesMonotone(items, k + 1);
    MoveKeeps(items, k, kept, l0, l, m);
  }

  /** The last survivor ends the list. */
  function Terminated(kept: seq<Item>, e: seq<Entry>, limit: nat): (f: seq<Entry>)
    requires forall x :: x in kept ==> x.id < |e|
    ensures |f| == |e|
  {
    if kept == [] then e else e[kept[|kept| - 1].id := e[kept[|kept| - 1].id].(next := limit)]
  }

  lemma LastBelow(kept: seq<Item>, e: seq<Entry>, limit: nat)
    requires Linked(kept, e, limit)
    ensures Last(kept, limit) < limit <==> kept != []
  {
    hide Bytes;
  }

  lemma AtEnd(items: seq<Item>, k: nat, limit: nat)
    requires Chain(items, limit) && k <= |items|
    ensures At(items, k, limit) == limit <==> k == |items|
  {
  }

  lemma WalkEnd(items: seq<Item>, kept: seq<Item>, drop: nat -> bool,
                e: seq<Entry>, l: seq<byte>, l0: seq<byte>, used: int, limit: nat)
    requires Walking(items, |items|, kept, drop, e, l, l0, limit)
    requires Packed(items, l0, used)
    ensures kept == Keep(items, drop) && |Bytes(kept)| <= used && l[..|Bytes(kept)|] == Bytes(kept)
    ensures forall j :: used <= j < |l| ==> l[j] == 0
    ensures |e| == limit && (forall x :: x in kept ==> x.id < |e|) && Linked(kept, Terminated(kept, e, limit), limit)
  {
    assert items[..|items|] == items;
    MidwayEnd(items, kept, e, limit);
    forall j | used <= j < |l|
      ensures l[j] == 0
    {
      assert l[j] == l[used..][j - used] == l0[used..][j - used] == l0[j];
    }
  }

  lemma AppendPacked(items: seq<Item>, x: Item, l: seq<byte>, m: seq<byte>, used: int)
    requires Packed(items, l, used) && used + |x.text| <= |l|
    requires m == l[..used] + x.text + l[used + |x.text|..]
    ensures Packed(items + [x], m, used + |x.text|)
  {
    assert (items + [x])[..|items|] == items;
  }

  /** The records after `x` was written and linked behind the old last one. */
  function Appended(items: seq<Item>, x: Item, e: seq<Entry>, limit: nat): (f: seq<Entry>)
    requires x.id < |e| && forall y :: y in items ==> y.id < |e|
  {
    var f := e[x.id := Entry(|Bytes(items)|, PRESENT + |x.text|, limit)];
    if items == [] then f else f[items[|items| - 1].id := f[items[|items| - 1].id].(next := x.id)]
  }

  lemma AppendedAt(items: seq<Item>, x: Item, e: seq<Entry>, limit: nat, k: nat)
    requires Linked(items, e, limit) && x.id < limit && !Has(items, x.id) && k < |items|
    ensures forall y :: y in items ==> y.id < |e|
    ensures Appended(items, x, e, limit)[items[k].id]
         == if k + 1 < |items| then e[items[k].id] else e[items[k].id].(next := x.id)
  {
    hide Bytes;
    assert items[k].id != x.id;
  }

  lemma AppendChain(items: seq<Item>, x: Item, limit: nat)
    requires Chain(items, limit) && x.id < limit && !Has(items, x.id) && |x.text| < PRESENT
    ensures Chain(items + [x], limit)
  {
    assert forall k :: 0 <= k < |items| ==> items[k].id != x.id;
  }

  lemma AppendedLink(items: seq<Item>, x: Item, e: seq<Entry>, limit: nat, k: nat)
    requires Linked(items, e, limit) && x.id < limit && !Has(items, x.id) && k <= |items|
    ensures forall y :: y in items ==> y.id < |e|
    ensures var more := items + [x];
            more[k].id < limit
            && Appended(items, x, e, limit)[more[k].id]
               == Entry(|Bytes(more[..k])|, PRESENT + |more[k].text|, NextId(more, k, limit))
  {
    var more := items + [x];
    assert more[..k] == items[..k];
    if k < |items| {
      AppendedAt(items, x, e, limit, k);
      hide Appended, Bytes;
      assert more[k] == items[k];
    } else {
      hide Bytes;
      assert items[..k] == items;
      assert forall j :: 0 <= j < |items| ==> items[j].id != x.id;
    }
  }

  lemma AppendLinked(items: seq<Item>, x: Item, e: seq<Entry>, limit: nat)
    requires Linked(items, e, limit) && x.id < limit && !Has(items, x.id) && |x.text| < PRESENT
    ensures (forall y :: y in items ==> y.id < |e|) && Linked(items + [x], Appended(items, x, e, limit), limit)
  {
    AppendChain(items, x, limit);
    forall k: nat | k < |items + [x]|
      ensures (items + [x])[k].id < |e|
      ensures Appended(items, x, e, limit)[(items + [x])[k].id]
           == Entry(|Bytes((items + [x])[..k])|, PRESENT + |(items + [x])[k].text|, NextId(items + [x], k, limit))
    {
      hide Linked;
      AppendedLink(items, x, e, limit, k);
    }
    AppendedGone(items, x, e, limit);
    hide Bytes, Has, Chain, NextId, Appended;
  }

  /** What appending stores, and the ends of the list it leaves. */
  lemma AppendSteps(items: seq<Item>, x: Item, e: seq<Entry>, limit: nat)
    requires Linked(items, e, limit) && x.id < limit && !Has(items, x.id) && |x.text| < PRESENT
    ensures |e| == limit && (forall y :: y in items ==> y.id < |e|)
    ensures Linked(items + [x], Appended(items, x, e, limit), limit)
    ensures 0 <= Last(items, limit) <= limit && (Last(items, limit) == limit <==> items == [])
    ensures First(items + [x], limit) == if items == [] then x.id else First(items, limit)
    ensures var f, last := e[x.id := Entry(|Bytes(items)|, PRESENT + |x.text|, limit)], Last(items, limit);
            Appended(items, x, e, limit) == if last < limit then f[last := f[last].(next := x.id)] else f
  {
    AppendLinked(items, x, e, limit);
    hide Bytes, Has, NextId;
    if items != [] {
      assert items[|items| - 1] in items && items[0] == (items + [x])[0];
    }
  }

  lemma AppendedGone(items: seq<Item>, x: Item, e: seq<Entry>, limit: nat)
    requires Linked(items, e, limit) && x.id < limit
    ensures forall y :: y in items ==> y.id < |e|
    ensures forall id :: 0 <= id < limit && !Has(items + [x], id) ==> Appended(items, x, e, limit)[id] == GONE
  {
    hide Bytes, NextId;
    forall id | 0 <= id < limit && !Has(items + [x], id)
      ensures Appended(items, x, e, limit)[id] == GONE
    {
      HasAppend(items, x, id);
    }
  }

  lemma RecordAt(items: seq<Item>, e: seq<Entry>, l: seq<byte>, used: int, limit: nat, k: nat)
    requires Linked(items, e, limit) && Packed(items, l, used) && k < |items|
    ensures var x := e[items[k].id];
            && x.mark == PRESENT + |items[k].text| && 0 <= x.off <= x.off + |items[k].text| <= used
            && l[x.off..x.off + |items[k].text|] == items[k].text
  {
    hide Bytes;
    ItemBytes(items, k);
    SliceOfPrefix(l, used, |Bytes(items[..k])|, |items[k].text|);
  }

  /** The records answer which parts are present and where their bytes lie. */
  lemma RecordMeans(items: seq<Item>, e: seq<Entry>, l: seq<byte>, used: int, limit: nat, id: nat)
    requires Linked(items, e, limit) && Packed(items, l, used) && id < limit
    ensures e[id].mark >= PRESENT <==> Has(items, id)
    ensures Has(items, id) ==>
              var at, n := e[id].off, e[id].mark - PRESENT;
              0 <= at <= at + n <= used && Item(id, l[at..at + n]) in items
    ensures !Has(items, id) ==> e[id] == GONE
  {
    hide Bytes, Linked, Packed;
    if Has(items, id) {
      var k :| 0 <= k < |items| && items[k].id == id;
      RecordAt(items, e, l, used, limit, k);
      assert items[k] == Item(id, items[k].text);
    } else {
      NoRecord(items, e, limit, id);
    }
  }

  lemma NoRecord(items: seq<Item>, e: seq<Entry>, limit: nat, id: nat)
    requires Linked(items, e, limit) && id < limit && !Has(items, id)
    ensures |e| == limit && e[id] == GONE
  {
    hide Bytes, NextId;
  }

  lemma EmptyParts(e: seq<Entry>, l: seq<byte>, limit: nat)
    requires |e| == limit && (forall i :: 0 <= i < limit ==> e[i] == GONE) && forall j :: 0 <= j < |l| ==> l[j] == 0
    ensures Linked([], e, limit) && Packed([], l, 0)
  {
  }

  class Buffer {
    const limit: nat
    const parts: nat
    const entries: array<Entry>
    const payload: array<byte>
    var first: int
    var last: int
    var used: int
    ghost var items: seq<Item>

    ghost predicate Valid()
      reads this, entries, payload
      ensures Valid() ==> Chain(items, limit) && used == |Bytes(items)| <= payload.Length && parts > 0
    {
      && parts > 0
      && Linked(items, entries[..], limit)
      && Packed(items, payload[..], used)
      && first == First(items, limit) && last == Last(items, limit)
    }

    constructor (slots: nat, parts: nat, arena: nat)
      requires parts > 0
      ensures Valid() && items == [] && limit == slots * parts && this.parts == parts && payload.Length == arena
      ensures fresh(entries) && fresh(payload)
    {
      limit, this.parts := slots * parts, parts;
      entries := new Entry[slots * parts](_ => GONE);
      payload := new byte[arena](_ => 0);
      first, last, used := slots * parts, slots * parts, 0;
      items := [];
    }

    /** No parts, every record and byte zero. */
    method Reset()
      requires Valid()
      modifies this`first, this`last, this`used, this`items, entries, payload
      ensures Valid() && items == []
    {
      hide Bytes, Has, NextId;
      ClearEntries();
      Zero(0, payload.Length);
      first, last, used, items := limit, limit, 0, [];
      EmptyParts(entries[..], payload[..], limit);
    }

    method ClearEntries()
      modifies entries
      ensures forall i :: 0 <= i < entries.Length ==> entries[i] == GONE
    {
      for i := 0 to entries.Length
        invariant forall j :: 0 <= j < i ==> entries[j] == GONE
      {
        entries[i] := GONE;
      }
    }

    /** Copies towards the front, eight bytes at a time while eight remain, then one by one.
        The two ranges may overlap. */
    method Move(to: nat, from: nat, size: nat)
      requires to <= from && from + size <= payload.Length
      modifies payload
      ensures payload[..] == Moved(old(payload[..]), to, from, size)
    {
      ghost var l := payload[..];
      var i := 0;
      while i < size
        invariant 0 <= i <= size
        invariant payload[..] == Moved(l, to, from, i)
      {
        var n := if i + 8 <= size then 8 else 1;
        var word := payload[from + i..from + i + n];
        ghost var p := payload[..];
        CopyIn(to + i, word);
        assert payload[..] == p[..to + i] + p[from + i..from + i + n] + p[to + i + n..];
        MovedStep(l, to, from, i, n);
        i := i + n;
      }
      assert payload[..] == Moved(l, to, from, i);
    }

    method Zero(at: nat, end: nat)
      requires at <= end <= payload.Length
      modifies payload
      ensures payload[..at] == old(payload[..at]) && payload[end..] == old(payload[end..])
      ensures forall j :: at <= j < end ==> payload[j] == 0
    {
      var i := at;
      while i < end
        invariant at <= i <= end
        invariant forall j :: at <= j < i ==> payload[j] == 0
        invariant forall j :: 0 <= j < payload.Length && !(at <= j < i) ==> payload[j] == old(payload[j])
      {
        if i + 8 <= end {
          forall j | i <= j < i + 8 {
            payload[j] := 0;
          }
          i := i + 8;
        } else {
          payload[i] := 0;
          i := i + 1;
        }
      }
    }

    /** Moves one surviving text down to `u`, records its new offset and links it. */
    method Slide(i: int, previous: int, u: nat, size: nat,
                 ghost k: nat, ghost kept: seq<Item>, ghost drop: nat -> bool, ghost l0: seq<byte>)
      requires Walking(items, k, kept, drop, entries[..], payload[..], l0, limit)
      requires k < |items| && i == items[k].id && !drop(i) && size == |items[k].text|
      requires previous == Last(kept, limit) && u == |Bytes(kept)|
      modifies entries, payload
      ensures Walking(items, k + 1, kept + [items[k]], drop, entries[..], payload[..], l0, limit)
      ensures |Bytes(kept + [items[k]])| == u + size
    {
      hide Midway, Bytes, Keep;
      WalkItem(items, k, kept, drop, entries[..], payload[..], l0, limit);
      KeptBelow(items, k, kept, entries[..], limit);
      ghost var e, l := entries[..], payload[..];
      Move(u, entries[i].off, size);
      WalkKeep(items, k, kept, drop, e, l, l0, limit, payload[..]);
      entries[i] := entries[i].(off := u);
      if previous < limit {
        entries[previous] := entries[previous].(next := i);
      }
      assert entries[..] == Relinked(kept, i, u, e);
    }

    /** Handles one record of the list and answers the next one. */
    method Visit(i: int, slot: int, part: int, previous: int, head: int, u: nat,
                 ghost k: nat, ghost kept: seq<Item>, ghost l0: seq<byte>)
      returns (next: int, previous': int, head': int, u': nat, ghost kept': seq<Item>)
      requires parts > 0
      requires Walking(items, k, kept, Dropper(slot, part, parts), entries[..], payload[..], l0, limit)
      requires k < |items| && i == items[k].id
      requires previous == Last(kept, limit) && head == First(kept, limit) && u == |Bytes(kept)|
      modifies entries, payload
      ensures Walking(items, k + 1, kept', Dropper(slot, part, parts), entries[..], payload[..], l0, limit)
      ensures next == At(items, k + 1, limit)
      ensures previous' == Last(kept', limit) && head' == First(kept', limit) && u' == |Bytes(kept')|
    {
      hide Walking;
      ghost var drop := Dropper(slot, part, parts);
      WalkItem(items, k, kept, drop, entries[..], payload[..], l0, limit);
      var size := entries[i].mark - PRESENT;
      next := entries[i].next;
      if if part < 0 then SlotOf(i, parts) == slot else i == part {
        WalkDrop(items, k, kept, drop, entries[..], payload[..], l0, limit);
        entries[i] := GONE;
        previous', head', u', kept' := previous, head, u, kept;
      } else {
        Slide(i, previous, u, size, k, kept, drop, l0);
        previous', head', u' := i, if head == limit then i else head, u + size;
        kept' := kept + [items[k]];
      }
    }

    /** Walks the list once, dropping records and closing the gaps they leave. */
    method Walk(slot: int, part: int) returns (previous: int, head: int, u: nat, ghost kept: seq<Item>)
      requires Valid()
      modifies entries, payload
      ensures Walking(items, |items|, kept, Dropper(slot, part, parts), entries[..], payload[..], old(payload[..]),
                      limit)
      ensures previous == Last(kept, limit) && head == First(kept, limit) && u == |Bytes(kept)|
    {
      hide Walking, Packed;
      ghost var l0, drop := payload[..], Dropper(slot, part, parts);
      ghost var k: nat := 0;
      var i := first;
      previous, head, u, kept := limit, limit, 0, [];
      WalkStart(items, entries[..], l0, used, limit, drop);
      while i != limit
        invariant k <= |items| && Walking(items, k, kept, drop, entries[..], payload[..], l0, limit)
        invariant i == At(items, k, limit) && previous == Last(kept, limit) && head == First(kept, limit)
        invariant u == |Bytes(kept)|
        decreases |items| - k
      {
        i, previous, head, u, kept := Visit(i, slot, part, previous, head, u, k, kept, l0);
        k := k + 1;
      }
      AtEnd(items, k, limit);
    }

    method Compact(slot: int, part: int)
      requires Valid()
      modifies this`first, this`last, this`used, this`items, entries, payload
      ensures Valid() && items == Keep(old(items), Dropper(slot, part, parts))
    {
      hide Walking;
      ghost var l0 := payload[..];
      var previous, head, u, kept := Walk(slot, part);
      WalkEnd(items, kept, Dropper(slot, part, parts), entries[..], payload[..], l0, used, limit);
      Finish(previous, head, u, kept);
    }

    method Finish(previous: int, head: int, u: nat, ghost kept: seq<Item>)
      requires parts > 0 && |Bytes(kept)| == u <= used <= payload.Length && payload[..u] == Bytes(kept)
      requires forall j :: used <= j < payload.Length ==> payload[j] == 0
      requires forall x :: x in kept ==> x.id < entries.Length
      requires Linked(kept, Terminated(kept, entries[..], limit), limit)
      requires previous == Last(kept, limit) && head == First(kept, limit) && entries.Length == limit
      modifies this`first, this`last, this`used, this`items, entries, payload
      ensures Valid() && items == kept
    {
      hide Bytes, Linked;
      ghost var e := entries[..];
      LastBelow(kept, Terminated(kept, e, limit), limit);
      if previous < limit {
        entries[previous] := entries[previous].(next := limit);
      }
      assert entries[..] == Terminated(kept, e, limit);
      ghost var l := payload[..];
      Zero(u, used);
      assert payload[..u] == l[..u];
      forall j | used <= j < payload.Length
        ensures payload[j] == 0
      {
        assert payload[j] == payload[used..][j - used] == l[used..][j - used] == l[j];
      }
      first, last, used, items := head, previous, u, kept;
    }

    /** Adds a part at the end of the list, right behind the bytes in use. */
    method AppendPart(id: nat, text: seq<byte>)
      requires Valid() && id < limit && !Has(items, id) && |text| < PRESENT && used + |text| <= payload.Length
      modifies this`first, this`last, this`used, this`items, entries, payload
      ensures Valid() && items == old(items) + [Item(id, text)]
    {
      hide Bytes, Linked;
      ghost var x, l := Item(id, text), payload[..];
      CopyIn(used, text);
      AppendPacked(items, x, l, payload[..], used);
      Link(id, |text|, x);
      last, used, items := id, used + |text|, items + [x];
    }

    method Link(id: nat, size: nat, ghost x: Item)
      requires Linked(items, entries[..], limit) && used == |Bytes(items)|
      requires first == First(items, limit) && last == Last(items, limit)
      requires x.id == id < limit && !Has(items, id) && size == |x.text| < PRESENT
      modifies this`first, entries
      ensures Linked(items + [x], entries[..], limit) && first == First(items + [x], limit)
    {
      hide Bytes, Linked, Appended, First, Last, Has;
      ghost var e := entries[..];
      AppendSteps(items, x, e, limit);
      entries[id] := Entry(used, PRESENT + size, limit);
      if last < limit {
        entries[last] := entries[last].(next := id);
      } else {
        first := id;
      }
      assert entries[..] == Appended(items, x, e, limit);
    }

    method CopyIn(at: nat, text: seq<byte>)
      requires at + |text| <= payload.Length
      modifies payload
      ensures payload[..] == old(payload[..])[..at] + text + old(payload[..])[at + |text|..]
    {
      for i := 0 to |text|
        invariant forall j :: 0 <= j < payload.Length ==>
                    payload[j] == if at <= j < at + i then text[j - at] else old(payload[j])
      {
        payload[at + i] := text[i];
      }
    }
  }
}
