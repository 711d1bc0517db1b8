/** Every reachable pool fits its byte form: comparing two pools byte by byte compares what they hold. */
module PoolLegible {
  import opened Common
  import opened Arena
  import opened Reassembly
  import opened PoolBytes
  import RK = ReassemblyKeyed

  /** The sizes themselves fit a 32-bit word, as the shipped ones do. */
  ghost predicate Sized(l: Limits) {
    && l.slots < Pow256(4) && l.parts < Pow256(4) && l.arena < Pow256(4) && l.message < Pow256(4)
    && Records(l) < Pow256(4)
  }

  /** Contents whose every figure has room in the byte form. */
  ghost predicate Legible(l: Limits, g: Image) {
    && |g.headers| == l.slots && |g.output| == l.message && Chain(g.items, Records(l)) && |Bytes(g.items)| <= l.arena
    && 0 <= g.pending <= l.slots && 0 <= g.size <= l.message && 0 <= g.done <= 1
    && 0 <= g.epoch <= CLOCK_MAX && 0 <= g.clock <= CLOCK_MAX
    && Narrow(g.held) && AllNarrow(g.headers)
  }

  lemma Widths()
    ensures Pow256(2) == 65536 && Pow256(4) == 0x1_0000_0000 && CLOCK_MAX < Pow256(8)
  {
    assert Pow256(2) == 65536;
    assert Pow256(4) == 65536 * Pow256(2);
    assert Pow256(6) == 65536 * Pow256(4);
  }

  lemma NativeSized()
    ensures Sized(NATIVE)
  {
    Widths();
  }

  lemma TidyNarrow(l: Limits, h: Header)
    requires Sized(l) && Tidy(h) && 0 <= h.parts <= l.parts && 0 <= h.count <= h.parts && 0 <= h.total <= l.message
    ensures Narrow(h)
  {
    Widths();
    hide Pow256;
  }

  /** Whatever calls a pool has had, its contents are legible. */
  lemma PoolIsLegible(l: Limits, g: Image)
    requires RK.PoolOk(l, g) && Sized(l)
    ensures Legible(l, g)
  {
    hide Chain, Bytes, Records, Pow256, SlotMap, TotalOf, Narrow, Sized;
    forall s | 0 <= s < l.slots
      ensures Narrow(g.headers[s])
    {
      PageNarrow(l, g, s);
    }
    if g.done == 1 {
      TidyNarrow(l, g.held);
    } else {
      EmptyNarrow();
    }
  }

  lemma EmptyNarrow()
    ensures Narrow(EMPTY)
  {
  }

  lemma PageNarrow(l: Limits, g: Image, s: nat)
    requires RK.PoolOk(l, g) && Sized(l) && s < l.slots
    ensures Narrow(g.headers[s])
  {
    assert RK.HeaderOk(l, g, s);
    EmptyNarrow();
    hide Narrow, Sized, SlotMap, TotalOf;
    if g.headers[s].live == 1 {
      TidyNarrow(l, g.headers[s]);
    }
  }

  lemma RecordsNarrow(l: Limits, items: seq<Item>, e: seq<Entry>, id: nat)
    requires Sized(l) && Linked(items, e, Records(l)) && |Bytes(items)| <= l.arena && id < Records(l)
    ensures NarrowEntry(e[id])
  {
    Widths();
    hide Bytes, Pow256, Records;
    if Has(items, id) {
      var k :| 0 <= k < |items| && items[k].id == id;
      BytesMonotone(items, k);
    }
  }

  lemma EndsNarrow(l: Limits, items: seq<Item>)
    requires Sized(l) && Chain(items, Records(l))
    ensures Word(First(items, Records(l))) && Word(Last(items, Records(l)))
  {
    hide Records;
  }

  /** Legible contents have a form in which every field fits. */
  lemma LegibleNarrow(l: Limits, r: Raw, g: Image)
    requires Sized(l) && Stands(l, r, g) && Legible(l, g)
    ensures NarrowRaw(r)
  {
    hide Bytes, Records, Linked, Chain, Packed, Pow256, Narrow, AllFit, First, Last, NarrowEntry;
    WordsFit(l, r, g);
    hide NarrowWords;
    forall x | x in r.records
      ensures NarrowEntry(x)
    {
      var id :| 0 <= id < |r.records| && r.records[id] == x;
      LinkedSize(g.items, r.records, Records(l));
      RecordsNarrow(l, g.items, r.records, id);
    }
  }

  lemma LinkedSize(items: seq<Item>, e: seq<Entry>, limit: nat)
    requires Linked(items, e, limit)
    ensures |e| == limit
  {
  }

  lemma WordsFit(l: Limits, r: Raw, g: Image)
    requires Sized(l) && Stands(l, r, g) && Legible(l, g)
    ensures NarrowWords(r.words)
  {
    Widths();
    EndsNarrow(l, g.items);
    hide Bytes, Records, Linked, Chain, Packed, Pow256, Narrow, First, Last, AllNarrow;
  }

  /** Two buffers are equal byte for byte exactly when the pools in them have the same contents. */
  lemma SameBytes(l: Limits, r: Raw, r': Raw, g: Image, g': Image)
    requires Sized(l) && Stands(l, r, g) && Stands(l, r', g') && r.tail == r'.tail && Legible(l, g) && Legible(l, g')
    ensures RawOk(r) && RawOk(r') && (Encode(r) == Encode(r') <==> g == g')
  {
    LegibleNarrow(l, r, g);
    LegibleNarrow(l, r', g');
    assert |g.headers| == |g'.headers| && |g.output| == |g'.output|;
    hide Sized, Legible, Encode, Stands;
    SameFields(l, r, r', g, g');
  }
}
