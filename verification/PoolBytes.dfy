/**
 The pool as one run of bytes: a front page, one header page per slot, ten bytes per part
 record, the payload arena, the completed message, and an unused tail. `Raw` names the
 fields and `Encode` places them, so a store into the buffer is an update of one field.
 */
module PoolBytes {
  import opened Common
  import opened Arena
  import opened Reassembly

  datatype Words = Words(pending: nat, used: nat, size: nat, done: nat, first: nat, last: nat, epoch: nat, clock: nat)

  datatype Raw = Raw(words: Words, held: Header, heads: seq<Header>, records: seq<Entry>,
                     payload: seq<byte>, output: seq<byte>, tail: nat)

  /** `b` written over `s` at `at`. */
  function Put(s: seq<byte>, at: nat, b: seq<byte>): (t: seq<byte>)
    requires at + |b| <= |s|
    ensures |t| == |s|
  {
    s[..at] + b + s[at + |b|..]
  }

  function Le(v: int, n: nat): (b: seq<byte>)
    ensures |b| == n
  {
    if v < 0 then Zeros(n) else LeBytes(v, n)
  }

  /** `b` at the start of `n` bytes, zero after it. */
  function Padded(b: seq<byte>, n: nat): (p: seq<byte>)
    requires |b| <= n
    ensures |p| == n
  {
    b + Zeros(n - |b|)
  }

  function WordBytes(w: Words): (b: seq<byte>)
    ensures |b| == 48
  {
    Le(MAGIC, 4) + Le(1, 4) + (Le(w.pending, 4) + Le(w.used, 4)) + (Le(w.size, 4) + Le(w.done, 4))
    + (Le(w.first, 4) + Le(w.last, 4)) + Le(w.epoch, 8) + Le(w.clock, 8)
  }

  predicate Fits(h: Header) { |h.key| <= 32 && |h.ident| <= 896 }

  predicate AllFit(hs: seq<Header>) { forall i :: 0 <= i < |hs| ==> Fits(hs[i]) }

  function HeaderBytes(h: Header): (b: seq<byte>)
    requires Fits(h)
    ensures |b| == 1024
  {
    (Le(h.live, 4) + Le(h.peer, 4) + Le(h.epoch, 8)) + Padded(h.key, 32)
    + (Le(|h.ident|, 4) + Le(h.units, 4) + Le(h.parts, 4)) + (Le(h.count, 4) + Le(h.total, 4)) + Zeros(4)
    + Le(h.touched, 8) + Zeros(48) + Padded(h.ident, 896)
  }

  function EntryBytes(e: Entry): (b: seq<byte>)
    ensures |b| == 10
  {
    Le(e.off, 4) + Le(e.mark, 2) + Le(e.next, 4)
  }

  function Heads(hs: seq<Header>): (b: seq<byte>)
    requires AllFit(hs)
    ensures |b| == 1024 * |hs|
  {
    if hs == [] then [] else Heads(hs[..|hs| - 1]) + HeaderBytes(hs[|hs| - 1])
  }

  function Entries(e: seq<Entry>): (b: seq<byte>)
    ensures |b| == 10 * |e|
  {
    if e == [] then [] else Entries(e[..|e| - 1]) + EntryBytes(e[|e| - 1])
  }

  predicate RawOk(r: Raw) { Fits(r.held) && AllFit(r.heads) }

  function Front(r: Raw): (b: seq<byte>)
    requires RawOk(r)
    ensures |b| == 4096
  {
    WordBytes(r.words) + Zeros(80) + HeaderBytes(r.held) + Zeros(2944)
  }

  function Encode(r: Raw): seq<byte>
    requires RawOk(r)
  {
    Front(r) + Heads(r.heads) + Entries(r.records) + r.payload + r.output + Zeros(r.tail)
  }

  function HeaderAt(s: nat): nat { 4096 + 1024 * s }

  function RecordAt(r: Raw, id: nat): nat { 4096 + 1024 * |r.heads| + 10 * id }

  function PayloadAt(r: Raw): nat { RecordAt(r, |r.records|) }

  function OutputAt(r: Raw): nat { PayloadAt(r) + |r.payload| }

  // ---------------------------------------------------------------- stores are field updates

  lemma PutMiddle(x: seq<byte>, m: seq<byte>, y: seq<byte>, j: nat, b: seq<byte>)
    requires j + |b| <= |m|
    ensures Put(x + m + y, |x| + j, b) == x + Put(m, j, b) + y
  {
  }

  lemma {:induction false} HeadsAppend(a: seq<Header>, b: seq<Header>)
    requires AllFit(a) && AllFit(b)
    ensures AllFit(a + b) && Heads(a + b) == Heads(a) + Heads(b)
  {
    hide HeaderBytes, Fits;
    if b == [] {
      assert a + b == a;
    } else {
      var c := b[..|b| - 1];
      HeadsAppend(a, c);
      assert (a + b)[..|a + b| - 1] == a + c;
    }
  }

  lemma {:induction false} PutEntries(e: seq<Entry>, id: nat, x: Entry)
    requires id < |e|
    ensures Put(Entries(e), 10 * id, EntryBytes(x)) == Entries(e[id := x])
  {
    hide EntryBytes;
    var n, new' := |e| - 1, e[id := x];
    var front := e[..n];
    if id == n {
      assert new'[..n] == front;
    } else {
      assert new'[..n] == front[id := x];
      PutEntries(front, id, x);
      PutMiddle([], Entries(front), EntryBytes(e[n]), 10 * id, EntryBytes(x));
      assert Entries(e) == [] + Entries(front) + EntryBytes(e[n]);
      assert Entries(new') == [] + Put(Entries(front), 10 * id, EntryBytes(x)) + EntryBytes(e[n]);
    }
  }

  function AfterWords(r: Raw): seq<byte>
    requires RawOk(r)
  {
    Zeros(80) + HeaderBytes(r.held) + AfterHeld(r)
  }

  lemma AroundWords(r: Raw)
    requires RawOk(r)
    ensures Encode(r) == [] + WordBytes(r.words) + AfterWords(r)
  {
    AroundHeld(r, r.held);
    hide WordBytes, HeaderBytes, AfterHeld, Encode;
  }

  lemma PutWords(r: Raw, at: nat, b: seq<byte>, w: Words)
    requires RawOk(r) && at + |b| <= 48 && Put(WordBytes(r.words), at, b) == WordBytes(w)
    ensures at + |b| <= |Encode(r)| && Put(Encode(r), at, b) == Encode(r.(words := w))
  {
    AroundWords(r);
    AroundWords(r.(words := w));
    assert AfterWords(r.(words := w)) == AfterWords(r);
    hide WordBytes, AfterWords, Encode, Put, RawOk;
    PutMiddle([], WordBytes(r.words), AfterWords(r), at, b);
  }

  function BeforeHeld(r: Raw): (b: seq<byte>)
    ensures |b| == 128
  {
    WordBytes(r.words) + Zeros(80)
  }

  function AfterHeld(r: Raw): seq<byte>
    requires RawOk(r)
  {
    Zeros(2944) + Heads(r.heads) + Entries(r.records) + r.payload + r.output + Zeros(r.tail)
  }

  /** The page of the held message sits between two parts that do not depend on it. */
  lemma AroundHeld(r: Raw, h: Header)
    requires RawOk(r) && Fits(h)
    ensures Encode(r) == BeforeHeld(r) + HeaderBytes(r.held) + AfterHeld(r)
    ensures Encode(r.(held := h)) == BeforeHeld(r) + HeaderBytes(h) + AfterHeld(r)
  {
    hide WordBytes, HeaderBytes, Heads, Entries;
  }

  function BeforeHead(r: Raw, s: nat): (b: seq<byte>)
    requires RawOk(r) && s < |r.heads|
    ensures |b| == HeaderAt(s)
  {
    Front(r) + Heads(r.heads[..s])
  }

  function AfterHead(r: Raw, s: nat): seq<byte>
    requires RawOk(r) && s < |r.heads|
  {
    Heads(r.heads[s + 1..]) + AfterHeads(r)
  }

  lemma HeadsSplit(hs: seq<Header>, k: nat)
    requires AllFit(hs) && k <= |hs|
    ensures AllFit(hs[..k]) && AllFit(hs[k..]) && Heads(hs) == Heads(hs[..k]) + Heads(hs[k..])
  {
    hide Heads, AllFit;
    FitSlices(hs, k);
    HeadsAppend(hs[..k], hs[k..]);
    assert hs[..k] + hs[k..] == hs;
  }

  lemma FitSlices(hs: seq<Header>, k: nat)
    requires AllFit(hs) && k <= |hs|
    ensures AllFit(hs[..k]) && AllFit(hs[k..])
  {
    hide Fits;
  }

  lemma HeadsAround(hs: seq<Header>, s: nat)
    requires AllFit(hs) && s < |hs|
    ensures AllFit(hs[..s]) && AllFit(hs[s + 1..])
    ensures Heads(hs) == Heads(hs[..s]) + HeaderBytes(hs[s]) + Heads(hs[s + 1..])
  {
    var t := hs[s..];
    FitSlices(hs, s + 1);
    hide Heads, HeaderBytes, AllFit;
    HeadsSplit(hs, s);
    HeadsSplit(t, 1);
    OneHead(hs[s]);
    assert t[..1] == [hs[s]] && t[1..] == hs[s + 1..];
    Regroup(Heads(hs[..s]), HeaderBytes(hs[s]), Heads(t[1..]));
  }

  lemma Regroup(a: seq<byte>, b: seq<byte>, c: seq<byte>)
    ensures a + (b + c) == a + b + c
  {
  }

  lemma SplitHead(r: Raw, s: nat)
    requires RawOk(r) && s < |r.heads|
    ensures Encode(r) == BeforeHead(r, s) + HeaderBytes(r.heads[s]) + AfterHead(r, s)
  {
    HeadsAround(r.heads, s);
    AroundHeads(r);
    hide HeaderBytes, Heads, Front, Encode, AfterHeads, RawOk, Fits;
  }

  lemma OneHead(h: Header)
    requires Fits(h)
    ensures Heads([h]) == HeaderBytes(h)
  {
    hide HeaderBytes;
    assert Heads([h]) == Heads([h][..0]) + HeaderBytes(h);
  }

  /** So does the page of slot `s`. */
  lemma AroundHead(r: Raw, s: nat, h: Header)
    requires RawOk(r) && Fits(h) && s < |r.heads|
    ensures RawOk(r.(heads := r.heads[s := h]))
    ensures Encode(r) == BeforeHead(r, s) + HeaderBytes(r.heads[s]) + AfterHead(r, s)
    ensures Encode(r.(heads := r.heads[s := h])) == BeforeHead(r, s) + HeaderBytes(h) + AfterHead(r, s)
  {
    var n := r.(heads := r.heads[s := h]);
    SplitHead(r, s);
    SplitHead(n, s);
    SameFront(r, n);
    assert n.heads[..s] == r.heads[..s] && n.heads[s + 1..] == r.heads[s + 1..];
    hide HeaderBytes, Heads, Front, Encode;
  }

  lemma SameFront(r: Raw, n: Raw)
    requires RawOk(r) && RawOk(n) && r.words == n.words && r.held == n.held
    ensures Front(r) == Front(n)
  {
  }

  function AfterHeads(r: Raw): seq<byte> { Entries(r.records) + r.payload + r.output + Zeros(r.tail) }

  lemma AroundHeads(r: Raw)
    requires RawOk(r)
    ensures Encode(r) == Front(r) + Heads(r.heads) + AfterHeads(r)
  {
    hide WordBytes, HeaderBytes, Heads, Entries, Front;
  }

  function BeforeRecords(r: Raw): (b: seq<byte>)
    requires RawOk(r)
    ensures |b| == 4096 + 1024 * |r.heads|
  {
    Front(r) + Heads(r.heads)
  }

  function AfterRecords(r: Raw): seq<byte> { r.payload + r.output + Zeros(r.tail) }

  lemma AroundRecords(r: Raw)
    requires RawOk(r)
    ensures Encode(r) == BeforeRecords(r) + Entries(r.records) + AfterRecords(r)
  {
    hide Heads, Entries, Front;
  }

  lemma AroundRecord(r: Raw, id: nat, x: Entry)
    requires RawOk(r) && id < |r.records|
    ensures Encode(r) == BeforeRecords(r) + Entries(r.records) + AfterRecords(r)
    ensures Encode(r.(records := r.records[id := x])) == BeforeRecords(r) + Entries(r.records[id := x])
            + AfterRecords(r)
  {
    var n := r.(records := r.records[id := x]);
    SameFront(r, n);
    hide Entries, Heads, Front;
    AroundRecords(r);
    AroundRecords(n);
  }

  lemma PutRecord(r: Raw, id: nat, x: Entry)
    requires RawOk(r) && id < |r.records|
    ensures RecordAt(r, id) + 10 <= |Encode(r)|
    ensures Put(Encode(r), RecordAt(r, id), EntryBytes(x)) == Encode(r.(records := r.records[id := x]))
  {
    hide Entries, BeforeRecords, AfterRecords, EntryBytes, Encode, Put, RawOk;
    AroundRecord(r, id, x);
    PutEntries(r.records, id, x);
    PutMiddle(BeforeRecords(r), Entries(r.records), AfterRecords(r), 10 * id, EntryBytes(x));
  }

  lemma PutPayload(r: Raw, b: seq<byte>)
    requires RawOk(r) && |b| <= |r.payload|
    ensures PayloadAt(r) + |b| <= |Encode(r)|
    ensures Put(Encode(r), PayloadAt(r), b) == Encode(r.(payload := Put(r.payload, 0, b)))
  {
    hide WordBytes, HeaderBytes, Heads, Entries, Front, Put;
    var pre, rest := Front(r) + Heads(r.heads) + Entries(r.records), r.output + Zeros(r.tail);
    assert Encode(r) == pre + r.payload + rest;
    PutMiddle(pre, r.payload, rest, 0, b);
    var n := r.(payload := Put(r.payload, 0, b));
    SameFront(r, n);
    assert Encode(n) == pre + n.payload + rest;
  }

  lemma PutOutput(r: Raw, b: seq<byte>)
    requires RawOk(r) && |b| <= |r.output|
    ensures OutputAt(r) + |b| <= |Encode(r)|
    ensures Put(Encode(r), OutputAt(r), b) == Encode(r.(output := Put(r.output, 0, b)))
  {
    hide WordBytes, HeaderBytes, Heads, Entries, Front, Put;
    var pre, rest := Front(r) + Heads(r.heads) + Entries(r.records) + r.payload, Zeros(r.tail);
    assert Encode(r) == pre + r.output + rest;
    PutMiddle(pre, r.output, rest, 0, b);
    var n := r.(output := Put(r.output, 0, b));
    SameFront(r, n);
    assert Encode(n) == pre + n.output + rest;
  }

  // ---------------------------------------------------------------- what the fields mean

  /** The fields `r` are those of a pool with contents `g`. */
  ghost predicate Stands(l: Limits, r: Raw, g: Image) {
    && g.magic == MAGIC && g.version == 1 && 0 <= g.pending && 0 <= g.size && 0 <= g.done && 0 <= g.epoch
    && 0 <= g.clock
    && r.words == Words(g.pending, |Bytes(g.items)|, g.size, g.done, First(g.items, Records(l)),
                        Last(g.items, Records(l)),
                        g.epoch, g.clock)
    && r.held == g.held && r.heads == g.headers && |r.payload| == l.arena && r.output == g.output
    && Linked(g.items, r.records, Records(l)) && Packed(g.items, r.payload, |Bytes(g.items)|)
  }

  lemma SameStep(a: seq<Item>, b: seq<Item>, e: seq<Entry>, limit: nat, p: seq<byte>, k: nat)
    requires Linked(a, e, limit) && Linked(b, e, limit) && First(a, limit) == First(b, limit)
    requires Packed(a, p, |Bytes(a)|) && Packed(b, p, |Bytes(b)|) && k < |a| && k <= |b| && a[..k] == b[..k]
    ensures k < |b| && a[k] == b[k]
  {
    hide Bytes;
    if k > 0 {
      assert a[..k][k - 1] == b[..k][k - 1];
      assert NextId(a, k - 1, limit) == NextId(b, k - 1, limit);
    }
    assert k < |b| && a[k].id == b[k].id;
    hide Linked, Chain, First;
    TextAt(a, e, limit, p, k);
    TextAt(b, e, limit, p, k);
  }

  lemma TextAt(a: seq<Item>, e: seq<Entry>, limit: nat, p: seq<byte>, k: nat)
    requires Linked(a, e, limit) && Packed(a, p, |Bytes(a)|) && k < |a|
    ensures a[k].id < |e| && var x := e[a[k].id];
            && 0 <= x.off && PRESENT <= x.mark && x.off + (x.mark - PRESENT) <= |p|
            && a[k].text == p[x.off..x.off + (x.mark - PRESENT)]
  {
    hide Bytes;
    ItemBytes(a, k);
    SliceOfPrefix(p, |Bytes(a)|, |Bytes(a[..k])|, |a[k].text|);
  }

  lemma {:induction false} SameUpTo(a: seq<Item>, b: seq<Item>, e: seq<Entry>, limit: nat, p: seq<byte>, k: nat)
    requires Linked(a, e, limit) && Linked(b, e, limit) && First(a, limit) == First(b, limit)
    requires Packed(a, p, |Bytes(a)|) && Packed(b, p, |Bytes(b)|) && k <= |a|
    ensures k <= |b| && a[..k] == b[..k]
  {
    hide Bytes, Linked, First, Packed;
    if k > 0 {
      SameUpTo(a, b, e, limit, p, k - 1);
      SameStep(a, b, e, limit, p, k - 1);
      assert a[..k] == a[..k - 1] + [a[k - 1]] && b[..k] == b[..k - 1] + [b[k - 1]];
    }
  }

  /** Following the links tells everything: the fields stand for one contents only. */
  lemma StandsUnique(l: Limits, r: Raw, g: Image, g': Image)
    requires Stands(l, r, g) && Stands(l, r, g')
    ensures g == g'
  {
    hide Bytes;
    SameUpTo(g.items, g'.items, r.records, Records(l), r.payload, |g.items|);
    SameUpTo(g'.items, g.items, r.records, Records(l), r.payload, |g'.items|);
    assert g.items[..|g.items|] == g.items && g'.items[..|g'.items|] == g'.items;
  }

  lemma {:induction false} SameRecords(a: seq<Item>, e: seq<Entry>, f: seq<Entry>, limit: nat)
    requires Linked(a, e, limit) && Linked(a, f, limit)
    ensures e == f
  {
    forall id | 0 <= id < limit
      ensures e[id] == f[id]
    {
      if Has(a, id) {
        var k :| 0 <= k < |a| && a[k].id == id;
      }
    }
  }

  /** And the contents have one form: comparing two pools byte by byte compares their contents. */
  lemma OneForm(l: Limits, r: Raw, r': Raw, g: Image)
    requires Stands(l, r, g) && Stands(l, r', g) && r.tail == r'.tail
    ensures r == r'
  {
    hide Bytes;
    SameRecords(g.items, r.records, r'.records, Records(l));
    var n := |Bytes(g.items)|;
    assert r.payload == r'.payload by {
      forall j | 0 <= j < l.arena
        ensures r.payload[j] == r'.payload[j]
      {
        if j < n {
          assert r.payload[..n][j] == r'.payload[..n][j];
        }
      }
    }
  }

  /** The shipped sizes put the regions where the pool has them. */
  lemma NativeOffsets(r: Raw)
    requires |r.heads| == NATIVE.slots && |r.records| == Records(NATIVE) && |r.payload| == NATIVE.arena
    requires |r.output| == NATIVE.message && r.tail == 389120 && RawOk(r)
    ensures Records(NATIVE) == 262144 && RecordAt(r, 0) == 135168 && PayloadAt(r) == 2756608 && OutputAt(r) == 6950912
    ensures |Encode(r)| == 8388608
  {
  }

  // ---------------------------------------------------------------- the bytes tell the fields

  /** Every field fits its width, and a page in use carries a full key. */
  ghost predicate Narrow(h: Header)
    ensures Narrow(h) ==> Fits(h)
  {
    h == EMPTY ||
      (&& h.live == 1 && |h.key| == 32 && |h.ident| <= 896
       && Word(h.peer) && Word(h.units) && Word(h.parts) && Word(h.count) && Word(h.total)
       && 0 <= h.epoch < Pow256(8) && 0 <= h.touched < Pow256(8))
  }

  ghost predicate AllNarrow(hs: seq<Header>)
    ensures AllNarrow(hs) ==> AllFit(hs)
  {
    forall i :: 0 <= i < |hs| ==> Narrow(hs[i])
  }

  ghost predicate Word(v: int) { 0 <= v < Pow256(4) }

  ghost predicate NarrowEntry(x: Entry) { Word(x.off) && 0 <= x.mark < Pow256(2) && Word(x.next) }

  ghost predicate NarrowWords(w: Words) {
    && Word(w.pending) && Word(w.used) && Word(w.size) && Word(w.done) && Word(w.first) && Word(w.last)
    && w.epoch < Pow256(8) && w.clock < Pow256(8)
  }

  ghost predicate NarrowRaw(r: Raw) {
    && RawOk(r) && NarrowWords(r.words) && Narrow(r.held)
    && AllNarrow(r.heads) && (forall x :: x in r.records ==> NarrowEntry(x))
  }

  lemma LeInjective(v: int, w: int, n: nat)
    requires 0 <= v < Pow256(n) && 0 <= w < Pow256(n) && Le(v, n) == Le(w, n)
    ensures v == w
  {
    LeNatOfLeBytes(v, n);
    LeNatOfLeBytes(w, n);
  }

  lemma Parted(a: seq<byte>, b: seq<byte>, c: seq<byte>, d: seq<byte>)
    requires |a| == |c| && a + b == c + d
    ensures a == c && b == d
  {
    assert a == (a + b)[..|a|] && b == (a + b)[|a|..];
    assert c == (c + d)[..|c|] && d == (c + d)[|c|..];
  }

  lemma PairInjective(a: int, b: int, c: int, d: int)
    requires Word(a) && Word(b) && Word(c) && Word(d) && Le(a, 4) + Le(b, 4) == Le(c, 4) + Le(d, 4)
    ensures a == c && b == d
  {
    Parted(Le(a, 4), Le(b, 4), Le(c, 4), Le(d, 4));
    LeInjective(a, c, 4);
    LeInjective(b, d, 4);
  }

  lemma EntryInjective(x: Entry, y: Entry)
    requires NarrowEntry(x) && NarrowEntry(y) && EntryBytes(x) == EntryBytes(y)
    ensures x == y
  {
    Parted(Le(x.off, 4) + Le(x.mark, 2), Le(x.next, 4), Le(y.off, 4) + Le(y.mark, 2), Le(y.next, 4));
    Parted(Le(x.off, 4), Le(x.mark, 2), Le(y.off, 4), Le(y.mark, 2));
    hide Le;
    LeInjective(x.off, y.off, 4);
    LeInjective(x.mark, y.mark, 2);
    LeInjective(x.next, y.next, 4);
  }

  lemma {:induction false} EntriesInjective(a: seq<Entry>, b: seq<Entry>)
    requires (forall x :: x in a ==> NarrowEntry(x)) && (forall x :: x in b ==> NarrowEntry(x))
    requires |a| == |b| && Entries(a) == Entries(b)
    ensures a == b
  {
    hide EntryBytes, NarrowEntry;
    if a != [] {
      var n := |a| - 1;
      Parted(Entries(a[..n]), EntryBytes(a[n]), Entries(b[..n]), EntryBytes(b[n]));
      EntriesInjective(a[..n], b[..n]);
      EntryInjective(a[n], b[n]);
      assert a == a[..n] + [a[n]] && b == b[..n] + [b[n]];
    }
  }

  function HeaderTop(h: Header): (b: seq<byte>)
    ensures |b| == 16
  {
    Le(h.live, 4) + Le(h.peer, 4) + Le(h.epoch, 8)
  }

  function HeaderCounts(h: Header): (b: seq<byte>)
    ensures |b| == 20
  {
    (Le(|h.ident|, 4) + Le(h.units, 4) + Le(h.parts, 4)) + (Le(h.count, 4) + Le(h.total, 4))
  }

  /** The page field by field. */
  lemma PagePieces(h: Header, k: Header)
    requires Fits(h) && Fits(k) && HeaderBytes(h) == HeaderBytes(k)
    ensures HeaderTop(h) == HeaderTop(k) && Padded(h.key, 32) == Padded(k.key, 32)
    ensures HeaderCounts(h) == HeaderCounts(k) && Le(h.touched, 8) == Le(k.touched, 8)
    ensures Padded(h.ident, 896) == Padded(k.ident, 896)
  {
    PageSplit(h);
    PageSplit(k);
    hide HeaderBytes, Le, Padded, HeaderTop, HeaderCounts;
    var a, a' := HeaderTop(h) + Padded(h.key, 32), HeaderTop(k) + Padded(k.key, 32);
    var b, b' := a + HeaderCounts(h) + Zeros(4), a' + HeaderCounts(k) + Zeros(4);
    var c, c' := b + Le(h.touched, 8) + Zeros(48), b' + Le(k.touched, 8) + Zeros(48);
    Parted(c, Padded(h.ident, 896), c', Padded(k.ident, 896));
    Parted(b + Le(h.touched, 8), Zeros(48), b' + Le(k.touched, 8), Zeros(48));
    Parted(b, Le(h.touched, 8), b', Le(k.touched, 8));
    Parted(a + HeaderCounts(h), Zeros(4), a' + HeaderCounts(k), Zeros(4));
    Parted(a, HeaderCounts(h), a', HeaderCounts(k));
    Parted(HeaderTop(h), Padded(h.key, 32), HeaderTop(k), Padded(k.key, 32));
  }

  lemma PageSplit(h: Header)
    requires Fits(h)
    ensures HeaderBytes(h) == HeaderTop(h) + Padded(h.key, 32) + HeaderCounts(h) + Zeros(4)
                              + Le(h.touched, 8) + Zeros(48) + Padded(h.ident, 896)
  {
    hide Le, Padded;
  }

  lemma TopInjective(h: Header, k: Header)
    requires Narrow(h) && Narrow(k) && HeaderTop(h) == HeaderTop(k)
    ensures h.live == k.live && h.peer == k.peer && h.epoch == k.epoch
  {
    Parted(Le(h.live, 4) + Le(h.peer, 4), Le(h.epoch, 8), Le(k.live, 4) + Le(k.peer, 4), Le(k.epoch, 8));
    hide Le;
    PairInjective(h.live, h.peer, k.live, k.peer);
    LeInjective(h.epoch, k.epoch, 8);
  }

  lemma CountsInjective(h: Header, k: Header)
    requires Narrow(h) && Narrow(k) && HeaderCounts(h) == HeaderCounts(k)
    ensures |h.ident| == |k.ident| && h.units == k.units && h.parts == k.parts && h.count == k.count
            && h.total == k.total
  {
    hide Le;
    Parted(Le(|h.ident|, 4) + Le(h.units, 4) + Le(h.parts, 4), Le(h.count, 4) + Le(h.total, 4),
           Le(|k.ident|, 4) + Le(k.units, 4) + Le(k.parts, 4), Le(k.count, 4) + Le(k.total, 4));
    Parted(Le(|h.ident|, 4) + Le(h.units, 4), Le(h.parts, 4), Le(|k.ident|, 4) + Le(k.units, 4), Le(k.parts, 4));
    PairInjective(h.count, h.total, k.count, k.total);
    PairInjective(|h.ident|, h.units, |k.ident|, k.units);
    LeInjective(h.parts, k.parts, 4);
  }

  lemma HeaderInjective(h: Header, k: Header)
    requires Narrow(h) && Narrow(k) && HeaderBytes(h) == HeaderBytes(k)
    ensures h == k
  {
    PagePieces(h, k);
    TopInjective(h, k);
    CountsInjective(h, k);
    LeInjective(h.touched, k.touched, 8);
    hide HeaderTop, HeaderCounts, HeaderBytes, Le, Word;
    if h.live == 1 {
      assert h.key == Padded(h.key, 32) && k.key == Padded(k.key, 32);
    }
    assert h.ident == Padded(h.ident, 896)[..|h.ident|] && k.ident == Padded(k.ident, 896)[..|k.ident|];
  }

  lemma {:induction false} HeadsInjective(a: seq<Header>, b: seq<Header>)
    requires AllNarrow(a) && AllNarrow(b)
    requires |a| == |b| && Heads(a) == Heads(b)
    ensures a == b
  {
    hide HeaderBytes, Word;
    if a != [] {
      var n := |a| - 1;
      Parted(Heads(a[..n]), HeaderBytes(a[n]), Heads(b[..n]), HeaderBytes(b[n]));
      HeadsInjective(a[..n], b[..n]);
      HeaderInjective(a[n], b[n]);
      assert a == a[..n] + [a[n]] && b == b[..n] + [b[n]];
    }
  }

  lemma WordsInjective(w: Words, v: Words)
    requires NarrowWords(w) && NarrowWords(v) && WordBytes(w) == WordBytes(v)
    ensures w == v
  {
    var m := Le(MAGIC, 4) + Le(1, 4);
    var p, p' := Le(w.pending, 4) + Le(w.used, 4), Le(v.pending, 4) + Le(v.used, 4);
    var s, s' := Le(w.size, 4) + Le(w.done, 4), Le(v.size, 4) + Le(v.done, 4);
    var f, f' := Le(w.first, 4) + Le(w.last, 4), Le(v.first, 4) + Le(v.last, 4);
    hide Le;
    Parted(m + p + s + f + Le(w.epoch, 8), Le(w.clock, 8), m + p' + s' + f' + Le(v.epoch, 8), Le(v.clock, 8));
    Parted(m + p + s + f, Le(w.epoch, 8), m + p' + s' + f', Le(v.epoch, 8));
    Parted(m + p + s, f, m + p' + s', f');
    Parted(m + p, s, m + p', s');
    Parted(m, p, m, p');
    PairInjective(w.pending, w.used, v.pending, v.used);
    PairInjective(w.size, w.done, v.size, v.done);
    PairInjective(w.first, w.last, v.first, v.last);
    LeInjective(w.epoch, v.epoch, 8);
    LeInjective(w.clock, v.clock, 8);
  }

  lemma RegionsEqual(r: Raw, r': Raw)
    requires RawOk(r) && RawOk(r') && |r.heads| == |r'.heads| && |r.records| == |r'.records|
    requires |r.payload| == |r'.payload| && |r.output| == |r'.output| && r.tail == r'.tail && Encode(r) == Encode(r')
    ensures WordBytes(r.words) == WordBytes(r'.words) && HeaderBytes(r.held) == HeaderBytes(r'.held)
    ensures Heads(r.heads) == Heads(r'.heads) && Entries(r.records) == Entries(r'.records)
    ensures r.payload == r'.payload && r.output == r'.output
  {
    hide WordBytes, HeaderBytes, Heads, Entries;
    var a, a' := Front(r) + Heads(r.heads), Front(r') + Heads(r'.heads);
    var b, b' := a + Entries(r.records), a' + Entries(r'.records);
    Parted(b + r.payload + r.output, Zeros(r.tail), b' + r'.payload + r'.output, Zeros(r.tail));
    Parted(b + r.payload, r.output, b' + r'.payload, r'.output);
    Parted(b, r.payload, b', r'.payload);
    Parted(a, Entries(r.records), a', Entries(r'.records));
    Parted(Front(r), Heads(r.heads), Front(r'), Heads(r'.heads));
    var w, w' := WordBytes(r.words) + Zeros(80), WordBytes(r'.words) + Zeros(80);
    Parted(w + HeaderBytes(r.held), Zeros(2944), w' + HeaderBytes(r'.held), Zeros(2944));
    Parted(w, HeaderBytes(r.held), w', HeaderBytes(r'.held));
    Parted(WordBytes(r.words), Zeros(80), WordBytes(r'.words), Zeros(80));
  }

  /** Fields that fit their widths are equal exactly when the bytes are. */
  lemma SameFields(l: Limits, r: Raw, r': Raw, g: Image, g': Image)
    requires Stands(l, r, g) && Stands(l, r', g') && NarrowRaw(r) && NarrowRaw(r') && r.tail == r'.tail
    requires |g.headers| == |g'.headers| && |g.output| == |g'.output|
    ensures Encode(r) == Encode(r') <==> g == g'
  {
    if Encode(r) == Encode(r') {
      FieldsEqual(r, r');
      StandsUnique(l, r, g, g');
    }
    if g == g' {
      OneForm(l, r, r', g);
    }
  }

  lemma FieldsEqual(r: Raw, r': Raw)
    requires NarrowRaw(r) && NarrowRaw(r') && |r.heads| == |r'.heads| && |r.records| == |r'.records|
    requires |r.payload| == |r'.payload| && |r.output| == |r'.output| && r.tail == r'.tail && Encode(r) == Encode(r')
    ensures r == r'
  {
    RegionsEqual(r, r');
    hide Encode, WordBytes, HeaderBytes, Heads, Entries, Narrow, NarrowEntry, NarrowWords;
    WordsInjective(r.words, r'.words);
    HeaderInjective(r.held, r'.held);
    HeadsInjective(r.heads, r'.heads);
    EntriesInjective(r.records, r'.records);
  }
}
