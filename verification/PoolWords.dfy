/**
 Where every figure of a pool lies in its bytes, and what the expected pools hold there: offsets
 and widths as numbers, values read back as little-endian words.
 */
module PoolWords {
  import opened Common
  import opened Arena
  import opened Reassembly
  import opened PoolBytes
  import opened PoolLegible
  import opened PoolOracle
  import opened Hex
  import F = Fragments

  /** The `n` bytes of `b` at `at` are the number `v`, least significant first. */
  predicate Says(b: seq<byte>, at: nat, n: nat, v: int) {
    at + n <= |b| && LeNat(b[at..at + n]) == v
  }

  predicate Holds(b: seq<byte>, at: nat, text: seq<byte>) {
    at + |text| <= |b| && b[at..at + |text|] == text
  }

  predicate Blank(b: seq<byte>, at: nat, end: nat) {
    at <= end <= |b| && forall i :: at <= i < end ==> b[i] == 0
  }

  // ---------------------------------------------------------------- one piece of a longer text

  lemma Middle(x: seq<byte>, m: seq<byte>, y: seq<byte>, i: nat, j: nat)
    requires i <= j <= |m|
    ensures (x + m + y)[|x| + i..|x| + j] == m[i..j]
  {
  }

  lemma SaysLe(x: seq<byte>, v: int, n: nat, y: seq<byte>)
    requires 0 <= v < Pow256(n)
    ensures Says(x + Le(v, n) + y, |x|, n, v)
  {
    LeNatOfLeBytes(v, n);
    Middle(x, Le(v, n), y, 0, n);
    assert Le(v, n)[0..n] == Le(v, n);
  }

  /** What a piece says, the whole says further on. */
  lemma SaysInside(x: seq<byte>, m: seq<byte>, y: seq<byte>, at: nat, n: nat, v: int)
    requires Says(m, at, n, v)
    ensures Says(x + m + y, |x| + at, n, v)
  {
    Middle(x, m, y, at, at + n);
  }

  lemma HoldsInside(x: seq<byte>, m: seq<byte>, y: seq<byte>, at: nat, text: seq<byte>)
    requires Holds(m, at, text)
    ensures Holds(x + m + y, |x| + at, text)
  {
    Middle(x, m, y, at, at + |text|);
  }

  lemma BlankInside(x: seq<byte>, m: seq<byte>, y: seq<byte>, at: nat, end: nat)
    requires Blank(m, at, end)
    ensures Blank(x + m + y, |x| + at, |x| + end)
  {
  }

  // ---------------------------------------------------------------- part records

  lemma EntryWords(e: Entry)
    requires NarrowEntry(e)
    ensures var b := EntryBytes(e); Says(b, 0, 4, e.off) && Says(b, 4, 2, e.mark) && Says(b, 6, 4, e.next)
  {
    hide Le, Says, Pow256;
    var x, y, z := Le(e.off, 4), Le(e.mark, 2), Le(e.next, 4);
    SaysLe([], e.off, 4, y + z);
    SaysLe(x, e.mark, 2, z);
    SaysLe(x + y, e.next, 4, []);
    assert [] + x + (y + z) == x + y + z && x + y + z + [] == x + y + z;
  }

  lemma {:induction false} EntryAt(e: seq<Entry>, id: nat)
    requires id < |e|
    ensures Entries(e) == Entries(e[..id]) + EntryBytes(e[id]) + Entries(e[id + 1..])
  {
    EntriesAppend(e[..id + 1], e[id + 1..]);
    assert e == e[..id + 1] + e[id + 1..] && e[..id + 1][..id] == e[..id];
    hide EntryBytes;
  }

  lemma {:induction false} EntriesAppend(a: seq<Entry>, b: seq<Entry>)
    ensures Entries(a + b) == Entries(a) + Entries(b)
  {
    hide EntryBytes;
    if b == [] {
      assert a + b == a;
    } else {
      EntriesAppend(a, b[..|b| - 1]);
      assert (a + b)[..|a + b| - 1] == a + b[..|b| - 1];
    }
  }

  predicate EntrySays(b: seq<byte>, at: nat, e: Entry) {
    Says(b, at, 4, e.off) && Says(b, at + 4, 2, e.mark) && Says(b, at + 6, 4, e.next)
  }

  /** Ten bytes for each record: offset, presence bit and length, next record. */
  lemma RecordWords(r: Raw, id: nat)
    requires RawOk(r) && id < |r.records| && NarrowEntry(r.records[id])
    ensures EntrySays(Encode(r), 4096 + 1024 * |r.heads| + 10 * id, r.records[id])
  {
    hide EntryBytes, Entries, Encode, Says, RawOk, NarrowEntry, BeforeRecords, AfterRecords;
    var e := r.records[id];
    AroundRecords(r);
    EntryAt(r.records, id);
    EntryWords(e);
    var x, y := Entries(r.records[..id]), Entries(r.records[id + 1..]);
    RecordWordIn(r, x, e, y, 0, 4, e.off);
    RecordWordIn(r, x, e, y, 4, 2, e.mark);
    RecordWordIn(r, x, e, y, 6, 4, e.next);
  }

  lemma RecordWordIn(r: Raw, x: seq<byte>, e: Entry, y: seq<byte>, at: nat, n: nat, v: int)
    requires RawOk(r) && Entries(r.records) == x + EntryBytes(e) + y && Says(EntryBytes(e), at, n, v)
    requires Encode(r) == BeforeRecords(r) + Entries(r.records) + AfterRecords(r)
    ensures Says(Encode(r), 4096 + 1024 * |r.heads| + |x| + at, n, v)
  {
    hide EntryBytes, Entries, Encode, Says, RawOk, BeforeRecords, AfterRecords;
    SaysInside(x, EntryBytes(e), y, at, n, v);
    SaysInside(BeforeRecords(r), Entries(r.records), AfterRecords(r), |x| + at, n, v);
  }

  // ---------------------------------------------------------------- pages

  lemma TopWords(h: Header)
    requires Word(h.live) && Word(h.peer) && 0 <= h.epoch < Pow256(8)
    ensures var b := HeaderTop(h); Says(b, 0, 4, h.live) && Says(b, 4, 4, h.peer) && Says(b, 8, 8, h.epoch)
  {
    hide Le, Says, Pow256;
    var x, y, z := Le(h.live, 4), Le(h.peer, 4), Le(h.epoch, 8);
    SaysLe([], h.live, 4, y + z);
    SaysLe(x, h.peer, 4, z);
    SaysLe(x + y, h.epoch, 8, []);
    assert [] + x + (y + z) == x + y + z && x + y + z + [] == x + y + z;
  }

  lemma CountWords(h: Header)
    requires |h.ident| <= 896 && Word(h.units) && Word(h.parts) && Word(h.count) && Word(h.total)
    ensures var b := HeaderCounts(h);
            && Says(b, 0, 4, |h.ident|) && Says(b, 4, 4, h.units) && Says(b, 8, 4, h.parts) && Says(b, 12, 4, h.count)
            && Says(b, 16, 4, h.total)
  {
    Widths();
    hide Le, Says, Pow256, HeaderCounts;
    var a, u, p, c, t := Le(|h.ident|, 4), Le(h.units, 4), Le(h.parts, 4), Le(h.count, 4), Le(h.total, 4);
    CountsFlat(h);
    SaysLe([], |h.ident|, 4, u + (p + (c + t)));
    SaysLe(a, h.units, 4, p + (c + t));
    SaysLe(a + u, h.parts, 4, c + t);
    SaysLe(a + u + p, h.count, 4, t);
    SaysLe(a + u + p + c, h.total, 4, []);
  }

  lemma CountsFlat(h: Header)
    ensures var a, u, p, c, t := Le(|h.ident|, 4), Le(h.units, 4), Le(h.parts, 4), Le(h.count, 4), Le(h.total, 4);
            var b := HeaderCounts(h);
            && b == [] + a + (u + (p + (c + t))) && b == a + u + (p + (c + t)) && b == a + u + p + (c + t)
            && b == a + u + p + c + t && b == a + u + p + c + t + []
  {
    hide Le;
  }

  /** What a page in use says, and where. */
  predicate PageSays(b: seq<byte>, at: nat, h: Header) {
    && Says(b, at, 4, h.live) && Says(b, at + 4, 4, h.peer) && Says(b, at + 8, 8, h.epoch) && Holds(b, at + 16, h.key)
    && Says(b, at + 48, 4, |h.ident|) && Says(b, at + 52, 4, h.units) && Says(b, at + 56, 4, h.parts)
    && Says(b, at + 60, 4, h.count) && Says(b, at + 64, 4, h.total) && Blank(b, at + 68, at + 72)
    && Says(b, at + 72, 8, h.touched) && Blank(b, at + 80, at + 128) && Holds(b, at + 128, h.ident)
    && Blank(b, at + 128 + |h.ident|, at + 1024)
  }

  lemma PageFlat(h: Header)
    requires Fits(h)
    ensures var b, t, k, c, n, i := HeaderBytes(h), HeaderTop(h), Padded(h.key, 32), HeaderCounts(h), Le(h.touched, 8),
                                    Padded(h.ident, 896);
            && b == [] + t + (k + (c + (Zeros(4) + (n + (Zeros(48) + i)))))
            && b == t + k + (c + (Zeros(4) + (n + (Zeros(48) + i))))
            && b == t + k + c + (Zeros(4) + (n + (Zeros(48) + i)))
            && b == t + k + c + Zeros(4) + (n + (Zeros(48) + i))
            && b == t + k + c + Zeros(4) + n + (Zeros(48) + i)
            && b == t + k + c + Zeros(4) + n + Zeros(48) + i
            && b == t + k + c + Zeros(4) + n + Zeros(48) + i + []
  {
    PageSplit(h);
    hide HeaderBytes, HeaderTop, HeaderCounts, Padded, Le, Zeros;
    var b, t, k, c, n, i := HeaderBytes(h), HeaderTop(h), Padded(h.key, 32), HeaderCounts(h), Le(h.touched, 8),
                            Padded(h.ident, 896);
    var y5 := Zeros(48) + i;
    var y4 := n + y5;
    var y3 := Zeros(4) + y4;
    Regroup(t + k + c + Zeros(4) + n, Zeros(48), i);
    Regroup(t + k + c + Zeros(4), n, y5);
    Regroup(t + k + c, Zeros(4), y4);
    Regroup(t + k, c, y3);
    Regroup(t, k, c + y3);
  }

  lemma PageWords(h: Header)
    requires Narrow(h) && h.live == 1
    ensures PageSays(HeaderBytes(h), 0, h)
  {
    hide Le, Says, Holds, Blank, Pow256, HeaderBytes, HeaderTop, HeaderCounts;
    Widths();
    PageFlat(h);
    TopWords(h);
    CountWords(h);
    var t, k, c, n, i := HeaderTop(h), Padded(h.key, 32), HeaderCounts(h), Le(h.touched, 8), Padded(h.ident, 896);
    PadBytes(h.key, 32);
    PadBytes(h.ident, 896);
    BlankZeros(4);
    BlankZeros(48);
    hide Padded, Zeros, Narrow;
    TopInside(h, k + (c + (Zeros(4) + (n + (Zeros(48) + i)))));
    HoldsInside(t, k, c + (Zeros(4) + (n + (Zeros(48) + i))), 0, h.key);
    CountInside(h, t + k, Zeros(4) + (n + (Zeros(48) + i)));
    BlankInside(t + k + c, Zeros(4), n + (Zeros(48) + i), 0, 4);
    SaysLe(t + k + c + Zeros(4), h.touched, 8, Zeros(48) + i);
    BlankInside(t + k + c + Zeros(4) + n, Zeros(48), i, 0, 48);
    HoldsInside(t + k + c + Zeros(4) + n + Zeros(48), i, [], 0, h.ident);
    BlankInside(t + k + c + Zeros(4) + n + Zeros(48), i, [], |h.ident|, 896);
  }

  lemma TopInside(h: Header, y: seq<byte>)
    requires var b := HeaderTop(h); Says(b, 0, 4, h.live) && Says(b, 4, 4, h.peer) && Says(b, 8, 8, h.epoch)
    ensures var b := [] + HeaderTop(h) + y; Says(b, 0, 4, h.live) && Says(b, 4, 4, h.peer) && Says(b, 8, 8, h.epoch)
  {
    hide Says, HeaderTop;
    SaysInside([], HeaderTop(h), y, 0, 4, h.live);
    SaysInside([], HeaderTop(h), y, 4, 4, h.peer);
    SaysInside([], HeaderTop(h), y, 8, 8, h.epoch);
  }

  lemma CountInside(h: Header, x: seq<byte>, y: seq<byte>)
    requires var b := HeaderCounts(h);
             && Says(b, 0, 4, |h.ident|) && Says(b, 4, 4, h.units) && Says(b, 8, 4, h.parts) && Says(b, 12, 4, h.count)
             && Says(b, 16, 4, h.total)
    ensures var b, at := x + HeaderCounts(h) + y, |x|;
            && Says(b, at, 4, |h.ident|) && Says(b, at + 4, 4, h.units) && Says(b, at + 8, 4, h.parts)
            && Says(b, at + 12, 4, h.count) && Says(b, at + 16, 4, h.total)
  {
    hide Says, HeaderCounts;
    SaysInside(x, HeaderCounts(h), y, 0, 4, |h.ident|);
    SaysInside(x, HeaderCounts(h), y, 4, 4, h.units);
    SaysInside(x, HeaderCounts(h), y, 8, 4, h.parts);
    SaysInside(x, HeaderCounts(h), y, 12, 4, h.count);
    SaysInside(x, HeaderCounts(h), y, 16, 4, h.total);
  }

  lemma PadBytes(b: seq<byte>, n: nat)
    requires |b| <= n
    ensures Holds(Padded(b, n), 0, b) && Blank(Padded(b, n), |b|, n)
  {
  }

  lemma BlankZeros(n: nat)
    ensures Blank(Zeros(n), 0, n)
  {
  }

  lemma PageInside(x: seq<byte>, m: seq<byte>, y: seq<byte>, at: nat, h: Header)
    requires PageSays(m, at, h)
    ensures PageSays(x + m + y, |x| + at, h)
  {
    hide Says, Holds, Blank;
    SaysInside(x, m, y, at, 4, h.live);
    SaysInside(x, m, y, at + 4, 4, h.peer);
    SaysInside(x, m, y, at + 8, 8, h.epoch);
    HoldsInside(x, m, y, at + 16, h.key);
    SaysInside(x, m, y, at + 48, 4, |h.ident|);
    SaysInside(x, m, y, at + 52, 4, h.units);
    SaysInside(x, m, y, at + 56, 4, h.parts);
    SaysInside(x, m, y, at + 60, 4, h.count);
    SaysInside(x, m, y, at + 64, 4, h.total);
    BlankInside(x, m, y, at + 68, at + 72);
    SaysInside(x, m, y, at + 72, 8, h.touched);
    BlankInside(x, m, y, at + 80, at + 128);
    HoldsInside(x, m, y, at + 128, h.ident);
    BlankInside(x, m, y, at + 128 + |h.ident|, at + 1024);
  }

  /** The page of slot `s` lies at 4096 + 1024 * s; a free one is blank. */
  lemma SlotWords(r: Raw, s: nat)
    requires RawOk(r) && s < |r.heads| && Narrow(r.heads[s])
    ensures var b, at := Encode(r), 4096 + 1024 * s;
            if r.heads[s].live == 1 then PageSays(b, at, r.heads[s]) else Blank(b, at, at + 1024)
  {
    hide Encode, HeaderBytes, BeforeHead, AfterHead, PageSays, Blank, AllFit;
    SplitHead(r, s);
    if r.heads[s].live == 1 {
      PageWords(r.heads[s]);
      PageInside(BeforeHead(r, s), HeaderBytes(r.heads[s]), AfterHead(r, s), 0, r.heads[s]);
    } else {
      BlankPage();
      BlankZeros(1024);
      BlankInside(BeforeHead(r, s), HeaderBytes(r.heads[s]), AfterHead(r, s), 0, 1024);
    }
  }

  /** The page of the pinned message lies at 128. */
  lemma HeldWords(r: Raw)
    requires RawOk(r) && Narrow(r.held)
    ensures var b := Encode(r); if r.held.live == 1 then PageSays(b, 128, r.held) else Blank(b, 128, 1152)
  {
    hide Encode, HeaderBytes, BeforeHeld, AfterHeld, PageSays, Blank, AllFit;
    AroundHeld(r, r.held);
    if r.held.live == 1 {
      PageWords(r.held);
      PageInside(BeforeHeld(r), HeaderBytes(r.held), AfterHeld(r), 0, r.held);
    } else {
      BlankPage();
      BlankZeros(1024);
      BlankInside(BeforeHeld(r), HeaderBytes(r.held), AfterHeld(r), 0, 1024);
    }
  }

  // ---------------------------------------------------------------- the front words and the payload

  /** Magic, version and the eight words of the front page. */
  predicate FrontSays(b: seq<byte>, w: Words) {
    && Says(b, 0, 4, 0x3152414b) && Says(b, 4, 4, 1) && Says(b, 8, 4, w.pending) && Says(b, 12, 4, w.used)
    && Says(b, 16, 4, w.size) && Says(b, 20, 4, w.done) && Says(b, 24, 4, w.first) && Says(b, 28, 4, w.last)
    && Says(b, 32, 8, w.epoch) && Says(b, 40, 8, w.clock) && Blank(b, 48, 128)
  }

  lemma PairWords(x: seq<byte>, u: int, v: int, y: seq<byte>)
    requires Word(u) && Word(v)
    ensures var b := x + (Le(u, 4) + Le(v, 4)) + y; Says(b, |x|, 4, u) && Says(b, |x| + 4, 4, v)
  {
    hide Le, Says, Pow256;
    SaysLe([], u, 4, Le(v, 4));
    SaysLe(Le(u, 4), v, 4, []);
    assert [] + Le(u, 4) + Le(v, 4) == Le(u, 4) + Le(v, 4) && Le(u, 4) + Le(v, 4) + [] == Le(u, 4) + Le(v, 4);
    SaysInside(x, Le(u, 4) + Le(v, 4), y, 0, 4, u);
    SaysInside(x, Le(u, 4) + Le(v, 4), y, 4, 4, v);
  }

  lemma WordsFlat(w: Words)
    ensures var b, m, p, s, f, e, c := WordBytes(w), Le(MAGIC, 4) + Le(1, 4), Le(w.pending, 4) + Le(w.used, 4),
                                       Le(w.size, 4) + Le(w.done, 4), Le(w.first, 4) + Le(w.last, 4), Le(w.epoch, 8),
                                       Le(w.clock, 8);
            && b == [] + m + (p + (s + (f + (e + c)))) && b == m + p + (s + (f + (e + c)))
            && b == m + p + s + (f + (e + c)) && b == m + p + s + f + (e + c) && b == m + p + s + f + e + c
            && b == m + p + s + f + e + c + []
  {
    hide Le;
    var m, p, s, f, e, c := Le(MAGIC, 4) + Le(1, 4), Le(w.pending, 4) + Le(w.used, 4), Le(w.size, 4) + Le(w.done, 4),
                            Le(w.first, 4) + Le(w.last, 4), Le(w.epoch, 8), Le(w.clock, 8);
    assert WordBytes(w) == m + p + s + f + e + c;
    hide WordBytes;
    Regroup(m + p + s + f, e, c);
    Regroup(m + p + s, f, e + c);
    Regroup(m + p, s, f + (e + c));
    Regroup(m, p, s + (f + (e + c)));
  }

  lemma WordWords(w: Words)
    requires NarrowWords(w)
    ensures var b := WordBytes(w);
            && Says(b, 0, 4, 0x3152414b) && Says(b, 4, 4, 1) && Says(b, 8, 4, w.pending) && Says(b, 12, 4, w.used)
            && Says(b, 16, 4, w.size) && Says(b, 20, 4, w.done) && Says(b, 24, 4, w.first) && Says(b, 28, 4, w.last)
            && Says(b, 32, 8, w.epoch) && Says(b, 40, 8, w.clock)
  {
    Widths();
    hide Le, Says, Pow256, WordBytes;
    WordsFlat(w);
    var m, p, s, f, e, c := Le(MAGIC, 4) + Le(1, 4), Le(w.pending, 4) + Le(w.used, 4), Le(w.size, 4) + Le(w.done, 4),
                            Le(w.first, 4) + Le(w.last, 4), Le(w.epoch, 8), Le(w.clock, 8);
    PairWords([], MAGIC, 1, p + (s + (f + (e + c))));
    PairWords(m, w.pending, w.used, s + (f + (e + c)));
    PairWords(m + p, w.size, w.done, f + (e + c));
    PairWords(m + p + s, w.first, w.last, e + c);
    SaysLe(m + p + s + f, w.epoch, 8, c);
    SaysLe(m + p + s + f + e, w.clock, 8, []);
  }

  lemma FrontWordsSay(r: Raw)
    requires RawOk(r) && NarrowWords(r.words)
    ensures FrontSays(Encode(r), r.words)
  {
    hide Encode, WordBytes, AfterWords, Says, Blank, NarrowWords, HeaderBytes, AfterHeld;
    AroundWords(r);
    var w, b, y := r.words, WordBytes(r.words), AfterWords(r);
    WordWords(w);
    SaysInside([], b, y, 0, 4, 0x3152414b);
    SaysInside([], b, y, 4, 4, 1);
    SaysInside([], b, y, 8, 4, w.pending);
    SaysInside([], b, y, 12, 4, w.used);
    SaysInside([], b, y, 16, 4, w.size);
    SaysInside([], b, y, 20, 4, w.done);
    SaysInside([], b, y, 24, 4, w.first);
    SaysInside([], b, y, 28, 4, w.last);
    SaysInside([], b, y, 32, 8, w.epoch);
    SaysInside([], b, y, 40, 8, w.clock);
    FrontGap(r);
  }

  lemma FrontGap(r: Raw)
    requires RawOk(r)
    ensures Blank(Encode(r), 48, 128)
  {
    hide Encode, WordBytes, HeaderBytes, AfterHeld, Blank;
    AroundWords(r);
    BlankZeros(80);
    Regroup(Zeros(80), HeaderBytes(r.held), AfterHeld(r));
    assert AfterWords(r) == Zeros(80) + HeaderBytes(r.held) + AfterHeld(r);
    hide AfterWords;
    BlankInside(WordBytes(r.words), Zeros(80), HeaderBytes(r.held) + AfterHeld(r), 0, 80);
    assert [] + WordBytes(r.words) + AfterWords(r) == WordBytes(r.words) + Zeros(80)
           + (HeaderBytes(r.held) + AfterHeld(r)) by {
      Regroup(WordBytes(r.words), Zeros(80), HeaderBytes(r.held) + AfterHeld(r));
    }
  }

  /** The texts lie behind the records, and the completed message behind them. */
  lemma TextPlaces(r: Raw)
    requires RawOk(r)
    ensures var b, at := Encode(r), 4096 + 1024 * |r.heads| + 10 * |r.records|;
            && Holds(b, at, r.payload) && Holds(b, at + |r.payload|, r.output)
            && Blank(b, at + |r.payload| + |r.output|, |b|) && |b| == at + |r.payload| + |r.output| + r.tail
  {
    hide Front, Heads, Entries;
    var x := Front(r) + Heads(r.heads) + Entries(r.records);
    assert Encode(r) == x + r.payload + r.output + Zeros(r.tail);
    hide Encode;
    var p, o, z := r.payload, r.output, Zeros(r.tail);
    assert x + p + o + z == x + p + (o + z) by {
      Regroup(x + p, o, z);
    }
    assert (x + p + (o + z))[|x|..|x| + |p|] == p;
    assert (x + p + o + z)[|x + p|..|x + p| + |o|] == o;
  }

  // ---------------------------------------------------------------- what the expected pools hold

  /** The parts laid so far are the first of those laid later. */
  lemma {:induction false} PrefixGrows(l: Limits, p: Plan, s: nat, i: nat, top: nat, n: nat)
    requires (s < top && i <= p.count) || (s == top && i <= n)
    ensures Prefix(l, p, s, i) <= Prefix(l, p, top, n)
    decreases top, n
  {
    hide IdOf, F.Part;
    if s < top || i < n {
      if n > 0 {
        PrefixGrows(l, p, s, i, top, n - 1);
        PrefixStep(l, p, top, n);
      } else {
        PrefixGrows(l, p, s, i, top - 1, p.count);
      }
    }
  }

  /** Where part `i` of slot `s` comes in the list, and what comes before it. */
  lemma PrefixAt(l: Limits, p: Plan, s: nat, i: nat)
    requires Planned(l, p) && s < p.used && i < p.count
    ensures var all, k := Prefix(l, p, p.used, 0), |Prefix(l, p, s, i)|;
            && k < |all| && all[..k] == Prefix(l, p, s, i) && k + 1 == |Prefix(l, p, s, i + 1)| <= |all|
            && all[k] == Item(IdOf(s, l.parts, i), F.Part(p.message, p.unit, i))
  {
    hide IdOf, F.Part, Planned, Prefix;
    assert i + 1 <= p.count by {
      CountPositive(l, p);
    }
    PrefixStep(l, p, s, i + 1);
    PrefixGrows(l, p, s, i + 1, p.used, 0);
  }

  lemma PlanFits(l: Limits, p: Plan)
    requires Planned(l, p)
    ensures p.base + p.used <= 256
  {
  }

  lemma CountPositive(l: Limits, p: Plan)
    requires Planned(l, p)
    ensures p.count > 0
  {
  }

  lemma StandsLinked(l: Limits, p: Plan, r: Raw)
    requires Planned(l, p) && Stands(l, r, Filled(l, p, p.used, 0))
    ensures Linked(Prefix(l, p, p.used, 0), r.records, Records(l))
  {
    hide Bytes, Prefix, Packed, First, Last, Linked, Pages;
  }

  lemma LinkedAt(items: seq<Item>, e: seq<Entry>, limit: nat, k: nat)
    requires Linked(items, e, limit) && k < |items|
    ensures items[k].id < |e|
    ensures e[items[k].id] == Entry(|Bytes(items[..k])|, PRESENT + |items[k].text|, NextId(items, k, limit))
  {
    hide Bytes, NextId;
  }

  /** The record of part `i` of slot `s`, and the one after it. */
  lemma RecordIs(l: Limits, p: Plan, r: Raw, s: nat, i: nat)
    requires Planned(l, p) && s < p.used && i < p.count && Stands(l, r, Filled(l, p, p.used, 0))
    ensures IdOf(s, l.parts, i) < |r.records|
    ensures r.records[IdOf(s, l.parts, i)]
         == Entry(|Bytes(Prefix(l, p, s, i))|, PRESENT + |F.Part(p.message, p.unit, i)|, Follow(l, p, s, i))
  {
    hide Stands, Filled, Linked, F.Start, F.Part, Bytes, Prefix, NextId, Follow, IdOf, Records;
    var all, k := Prefix(l, p, p.used, 0), |Prefix(l, p, s, i)|;
    hide Planned;
    PlanFits(l, p);
    StandsLinked(l, p, r);
    PrefixAt(l, p, s, i);
    NextIs(l, p, s, i);
    LinkedAt(all, r.records, Records(l), k);
  }

  lemma PartPlace(l: Limits, p: Plan, s: nat, i: nat)
    requires Planned(l, p) && s < p.used && i < p.count
    ensures |Bytes(Prefix(l, p, s, i))| == s * |p.message| + F.Start(|p.message|, p.unit, i)
    ensures s * l.parts + i < Records(l)
  {
    hide Bytes, Prefix, Has, F.Part;
    PartFacts(l, p, s, i);
  }

  /** The record after that of part `i` of slot `s`: the next part, the next slot, or the end mark. */
  function Follow(l: Limits, p: Plan, s: nat, i: nat): nat {
    if i + 1 < p.count then s * l.parts + i + 1
    else if s + 1 < p.used then (s + 1) * l.parts else l.slots * l.parts
  }

  lemma NextIs(l: Limits, p: Plan, s: nat, i: nat)
    requires Planned(l, p) && s < p.used && i < p.count
    ensures var all, k := Prefix(l, p, p.used, 0), |Prefix(l, p, s, i)|;
            k < |all| && NextId(all, k, Records(l)) == Follow(l, p, s, i)
  {
    hide F.Part, F.Start, Planned, Prefix;
    PrefixAt(l, p, s, i);
    if i + 1 < p.count {
      PrefixAt(l, p, s, i + 1);
    } else {
      NextSlotPrefix(l, p, s);
      if s + 1 < p.used {
        PrefixAt(l, p, s + 1, 0);
      }
    }
  }

  lemma NextSlotPrefix(l: Limits, p: Plan, s: nat)
    ensures Prefix(l, p, s + 1, 0) == Prefix(l, p, s, p.count)
  {
  }

  function RecordPlace(l: Limits, s: nat, i: nat): nat { 4096 + 1024 * l.slots + 10 * (s * l.parts + i) }

  /** The record of part `i` of slot `s`, at its own place: the offset of its text, presence bit and length,
      and the record after it, or the number that ends the list. */
  predicate PartSays(l: Limits, p: Plan, b: seq<byte>, s: nat, i: nat) {
    var at := RecordPlace(l, s, i);
    && Says(b, at, 4, s * |p.message| + From(p, i)) && Says(b, at + 4, 2, 32768 + Long(p, i))
    && Says(b, at + 6, 4, Follow(l, p, s, i))
  }

  lemma PackedRecord(l: Limits, p: Plan, r: Raw, s: nat, i: nat)
    requires Planned(l, p) && NarrowRaw(r) && s < p.used && i < p.count && Stands(l, r, Filled(l, p, p.used, 0))
    ensures PartSays(l, p, Encode(r), s, i)
  {
    hide Stands, Filled, Encode, Says, NarrowEntry, NarrowRaw, RawOk, Planned, F.Start, F.Part, Follow, Bytes, Prefix,
         IdOf,
         PartSays, Narrow, EntrySays;
    PlanFits(l, p);
    RawFacts(r);
    RecordIs(l, p, r, s, i);
    RecordFits(r, IdOf(s, l.parts, i));
    RecordWords(r, IdOf(s, l.parts, i));
    HeadCount(l, p, r);
    PartFrom(l, p, Encode(r), s, i);
  }

  lemma HeadCount(l: Limits, p: Plan, r: Raw)
    requires Planned(l, p) && Stands(l, r, Filled(l, p, p.used, 0))
    ensures |r.heads| == l.slots
  {
    hide Bytes, Prefix, Packed, First, Last;
  }

  lemma PartFrom(l: Limits, p: Plan, b: seq<byte>, s: nat, i: nat)
    requires Planned(l, p) && s < p.used && i < p.count
    requires EntrySays(b, 4096 + 1024 * l.slots + 10 * IdOf(s, l.parts, i),
                       Entry(|Bytes(Prefix(l, p, s, i))|, PRESENT + |F.Part(p.message, p.unit, i)|, Follow(l, p, s, i)))
    ensures PartSays(l, p, b, s, i)
  {
    hide Says, F.Part, Bytes, Prefix, Planned, From, Long, Follow;
    RecordNumbers(l, p, s, i);
  }

  /** Where part `i` starts in its message, and how long it is. */
  function From(p: Plan, i: nat): nat { if i * p.unit <= |p.message| then i * p.unit else |p.message| }

  function Long(p: Plan, i: nat): nat { if |p.message| - From(p, i) < p.unit then |p.message| - From(p, i) else p.unit }

  /** The same record in numbers. */
  lemma RecordNumbers(l: Limits, p: Plan, s: nat, i: nat)
    requires Planned(l, p) && s < p.used && i < p.count
    ensures IdOf(s, l.parts, i) == s * l.parts + i
    ensures |Bytes(Prefix(l, p, s, i))| == s * |p.message| + From(p, i) && |F.Part(p.message, p.unit, i)| == Long(p, i)
  {
    hide Bytes, Prefix, Planned;
    PartPlace(l, p, s, i);
    PartSize(p, i);
  }

  lemma RecordFits(r: Raw, id: nat)
    requires NarrowRaw(r) && id < |r.records|
    ensures NarrowEntry(r.records[id])
  {
    hide NarrowEntry;
    assert r.records[id] in r.records;
  }

  lemma SlotCount(l: Limits, p: Plan, r: Raw)
    requires Planned(l, p) && Stands(l, r, Filled(l, p, p.used, 0))
    ensures |r.heads| == l.slots && |r.records| == l.slots * l.parts && |r.payload| == l.arena
            && |r.output| == l.message
  {
    hide Bytes, Prefix, Packed, First, Last;
  }

  lemma PartSize(p: Plan, i: nat)
    ensures F.Start(|p.message|, p.unit, i) == From(p, i) && |F.Part(p.message, p.unit, i)| == Long(p, i)
  {
    F.StartMonotone(|p.message|, p.unit, i);
    assert (i + 1) * p.unit == i * p.unit + p.unit;
  }

  /** The page of slot `s`: a full one up to the number of slots used, with two digits for an identifier. */
  predicate SlotSays(l: Limits, p: Plan, b: seq<byte>, s: nat) {
    var at, x := 4096 + 1024 * s, p.base + s;
    if s < p.used && x < 256 then
      PageSays(b, at, Header(1, 1, p.epoch, [11] + Zeros(31), [Digit(x / 16), Digit(x % 16)], 2, l.parts, p.count,
                             |p.message|,
                             p.clock))
    else Blank(b, at, at + 1024)
  }

  function Digit(v: nat): byte
    requires v < 16
  {
    "0123456789abcdef"[v] as int
  }

  lemma IdentIs(x: nat)
    requires x < 256
    ensures Ident(x) == [Digit(x / 16), Digit(x % 16)]
  {
    DigitIs(x / 16);
    DigitIs(x % 16);
    hide Digit;
  }

  lemma KeyIs()
    ensures PeerKey() == [11] + Zeros(31)
  {
    hide Le, Zeros;
    EightBytes();
    ZerosApart(7, 24);
    assert [11] + Zeros(7) + Zeros(24) == [11] + (Zeros(7) + Zeros(24));
  }

  lemma EightBytes()
    ensures Le(11, 8) == [11] + Zeros(7)
  {
    LeZero(7);
    assert LeBytes(11, 8) == [11] + LeBytes(0, 7);
    hide LeBytes, Zeros;
  }

  lemma PageOf(l: Limits, p: Plan, s: nat)
    requires p.base + s < 256
    ensures FullPage(l, p, s) == Header(1, 1, p.epoch, [11] + Zeros(31),
                                        [Digit((p.base + s) / 16), Digit((p.base + s) % 16)], 2,
                                        l.parts, p.count, |p.message|, p.clock)
  {
    hide PeerKey, Ident, Digit, Zeros;
    IdentIs(p.base + s);
    KeyIs();
  }

  lemma PackedPage(l: Limits, p: Plan, r: Raw, s: nat)
    requires Planned(l, p) && NarrowRaw(r) && s < l.slots && Stands(l, r, Filled(l, p, p.used, 0))
    ensures SlotSays(l, p, Encode(r), s)
  {
    hide Stands, Filled, Encode, PageSays, Blank, NarrowRaw, RawOk, Planned, Narrow, FullPage, Digit, Zeros;
    PlanFits(l, p);
    RawFacts(r);
    PagesAre(l, p, r, s);
    SlotWords(r, s);
    if s < p.used {
      PageOf(l, p, s);
    }
  }

  lemma RawFacts(r: Raw)
    requires NarrowRaw(r)
    ensures RawOk(r) && NarrowWords(r.words) && Narrow(r.held) && forall s :: 0 <= s < |r.heads| ==> Narrow(r.heads[s])
  {
    hide Narrow;
  }

  lemma PagesAre(l: Limits, p: Plan, r: Raw, s: nat)
    requires Planned(l, p) && s < l.slots && Stands(l, r, Filled(l, p, p.used, 0))
    ensures |r.heads| == l.slots && r.heads[s] == if s < p.used then FullPage(l, p, s) else EMPTY
  {
    hide Bytes, Prefix, Packed, First, Last, Linked, FullPage;
  }

  /** The ten bytes of a record that no part uses. */
  predicate NoRecord(l: Limits, b: seq<byte>, s: nat, i: nat) {
    Blank(b, RecordPlace(l, s, i), RecordPlace(l, s, i) + 10)
  }

  lemma GoneBytes()
    ensures EntryBytes(GONE) == Zeros(10)
  {
    LeZero(4);
    LeZero(2);
    hide Le;
  }

  lemma RecordBlank(r: Raw, id: nat)
    requires RawOk(r) && id < |r.records| && r.records[id] == GONE
    ensures var at := 4096 + 1024 * |r.heads| + 10 * id; Blank(Encode(r), at, at + 10)
  {
    hide EntryBytes, Entries, Encode, Blank, RawOk, BeforeRecords, AfterRecords;
    AroundRecords(r);
    EntryAt(r.records, id);
    GoneBytes();
    BlankZeros(10);
    var x, y := Entries(r.records[..id]), Entries(r.records[id + 1..]);
    BlankInside(x, EntryBytes(GONE), y, 0, 10);
    BlankInside(BeforeRecords(r), Entries(r.records), AfterRecords(r), |x|, |x| + 10);
  }

  lemma UnusedRecord(l: Limits, p: Plan, r: Raw, s: nat, i: nat)
    requires Planned(l, p) && RawOk(r) && Stands(l, r, Filled(l, p, p.used, 0))
    requires s < l.slots && i < l.parts && (s >= p.used || i >= p.count)
    ensures NoRecord(l, Encode(r), s, i)
  {
    hide Stands, Filled, Encode, RawOk, Planned, Prefix, Linked, Blank, Has, IdOf, Records;
    PlanFits(l, p);
    SlotCount(l, p, r);
    StandsLinked(l, p, r);
    NotInPlan(l, p, p.used, 0, s, i);
    FreshId(l, s, i);
    GoneAt(Prefix(l, p, p.used, 0), r.records, Records(l), IdOf(s, l.parts, i));
    RecordBlank(r, IdOf(s, l.parts, i));
    IdIs(l, s, i);
  }

  lemma IdIs(l: Limits, s: nat, i: nat)
    ensures RecordPlace(l, s, i) == 4096 + 1024 * l.slots + 10 * IdOf(s, l.parts, i)
  {
  }

  lemma GoneAt(items: seq<Item>, e: seq<Entry>, limit: nat, id: nat)
    requires Linked(items, e, limit) && id < limit && !Has(items, id)
    ensures id < |e| && e[id] == GONE
  {
    hide Bytes, NextId;
  }

  /** Only the parts of the plan are laid. */
  lemma {:induction false} NotInPlan(l: Limits, p: Plan, top: nat, n: nat, s: nat, i: nat)
    requires Planned(l, p) && n <= p.count && i < l.parts
             && (s > top || (s == top && i >= n) || (s < top && i >= p.count))
    ensures !Has(Prefix(l, p, top, n), IdOf(s, l.parts, i))
    decreases top, n
  {
    hide F.Part, IdOf;
    if n > 0 {
      NotInPlan(l, p, top, n - 1, s, i);
      PrefixStep(l, p, top, n);
      HasAppend(Prefix(l, p, top, n - 1), Item(IdOf(top, l.parts, n - 1), F.Part(p.message, p.unit, n - 1)),
                IdOf(s, l.parts, i));
      IdsApart(l.parts, top, n - 1, s, i);
    } else if top > 0 {
      NotInPlan(l, p, top - 1, p.count, s, i);
    }
  }

  lemma IdsApart(parts: nat, s: nat, i: nat, t: nat, j: nat)
    requires i < parts && j < parts
    ensures IdOf(s, parts, i) == IdOf(t, parts, j) ==> s == t && i == j
  {
    IdParts(IdOf(s, parts, i), parts, s, i);
    IdParts(IdOf(s, parts, i), parts, t, j);
  }

  /** Between the pinned message's page and the first slot's. */
  lemma FrontRest(r: Raw)
    requires RawOk(r)
    ensures Blank(Encode(r), 1152, 4096)
  {
    hide WordBytes, HeaderBytes, Heads, Entries, Blank;
    var x, y := WordBytes(r.words) + Zeros(80) + HeaderBytes(r.held),
        Heads(r.heads) + Entries(r.records) + r.payload + r.output + Zeros(r.tail);
    assert Encode(r) == x + Zeros(2944) + y;
    hide Encode;
    BlankZeros(2944);
    BlankInside(x, Zeros(2944), y, 0, 2944);
  }

  /** The packed pool, byte by byte: the front page, no pinned message, every page, every record of the plan,
      the messages one after another, and zeros. */
  ghost predicate PackedSays(l: Limits, p: Plan, b: seq<byte>)
    requires p.used > 0 && p.count > 0
  {
    && FrontSays(b, PlanWords(l, p)) && Blank(b, 128, 1152) && Blank(b, 1152, 4096)
    && (forall s :: 0 <= s < l.slots ==> SlotSays(l, p, b, s))
    && (forall s, i :: 0 <= s < l.slots && 0 <= i < l.parts ==> RecordSays(l, p, b, s, i))
    && (forall s :: 0 <= s < p.used ==> TextSays(l, p, b, s))
    && Blank(b, TextPlace(l, p, p.used), |b|)
  }

  /** Where the message of slot `s` starts. */
  function TextPlace(l: Limits, p: Plan,
                     s: nat): nat { 4096 + 1024 * l.slots + 10 * (l.slots * l.parts) + s * |p.message| }

  predicate TextSays(l: Limits, p: Plan, b: seq<byte>, s: nat) { Holds(b, TextPlace(l, p, s), p.message) }

  lemma {:induction false} CopyAt(message: seq<byte>, n: nat, s: nat)
    requires s < n
    ensures Holds(Copies(message, n), |Copies(message, s)|, message)
  {
    if s < n - 1 {
      CopyAt(message, n - 1, s);
      HoldsInside([], Copies(message, n - 1), message, |Copies(message, s)|, message);
      assert [] + Copies(message, n - 1) + message == Copies(message, n);
    }
  }

  lemma PackedTexts(l: Limits, p: Plan, r: Raw)
    requires Planned(l, p) && p.used > 0 && RawOk(r) && Stands(l, r, Filled(l, p, p.used, 0))
    ensures forall s :: 0 <= s < p.used ==> TextSays(l, p, Encode(r), s)
    ensures Blank(Encode(r), TextPlace(l, p, p.used), |Encode(r)|)
  {
    hide Stands, Encode, RawOk, Holds, Blank, TextPlace, Filled, Copies;
    hide Planned;
    PlanFits(l, p);
    PayloadIs(l, p, r);
    SlotCount(l, p, r);
    TextPlaces(r);
    TextPlaceIs(l, p, r);
    var b, at, all := Encode(r), TextPlace(l, p, 0), Copies(p.message, p.used);
    forall s | 0 <= s < p.used
      ensures TextSays(l, p, b, s)
    {
      CopyAt(p.message, p.used, s);
      HeldInside(b, at, r.payload, all, |Copies(p.message, s)|, p.message);
    }
    RestBlank(b, at, r.payload, all, r.output);
  }

  lemma TextPlaceIs(l: Limits, p: Plan, r: Raw)
    requires |r.heads| == l.slots && |r.records| == l.slots * l.parts
    ensures TextPlace(l, p, 0) == 4096 + 1024 * |r.heads| + 10 * |r.records|
    ensures forall s: nat :: TextPlace(l, p, s) == TextPlace(l, p, 0) + |Copies(p.message, s)|
  {
    hide Copies;
  }

  lemma PackedIs(items: seq<Item>, payload: seq<byte>, c: seq<byte>)
    requires Packed(items, payload, |Bytes(items)|) && Bytes(items) == c
    ensures |c| <= |payload| && payload == c + Zeros(|payload| - |c|)
  {
    hide Bytes;
    assert payload == payload[..|c|] + payload[|c|..];
    assert payload[|c|..] == Zeros(|payload| - |c|);
  }

  lemma StandsPacked(l: Limits, p: Plan, r: Raw)
    requires Planned(l, p) && Stands(l, r, Filled(l, p, p.used, 0))
    ensures Packed(Prefix(l, p, p.used, 0), r.payload, |Bytes(Prefix(l, p, p.used, 0))|) && r.output == Zeros(l.message)
  {
    hide Bytes, Prefix, First, Last, Linked, Pages, Packed;
  }

  lemma AllBytes(l: Limits, p: Plan)
    requires Planned(l, p)
    ensures Bytes(Prefix(l, p, p.used, 0)) == Copies(p.message, p.used)
  {
    hide Bytes, Prefix, Copies;
    PrefixBytes(l, p, p.used, 0);
    F.StartZero(|p.message|, p.unit);
    hide F.Start;
    assert p.message[..0] == [];
  }

  lemma PayloadIs(l: Limits, p: Plan, r: Raw)
    requires Planned(l, p) && Stands(l, r, Filled(l, p, p.used, 0))
    ensures var c := Copies(p.message, p.used);
            |c| <= |r.payload| && r.payload == c + Zeros(|r.payload| - |c|) && r.output == Zeros(l.message)
  {
    hide Stands, Filled, Planned, Bytes, Prefix, Packed, Copies;
    PlanFits(l, p);
    AllBytes(l, p);
    StandsPacked(l, p, r);
    PackedIs(Prefix(l, p, p.used, 0), r.payload, Copies(p.message, p.used));
  }

  lemma HeldInside(b: seq<byte>, at: nat, payload: seq<byte>, front: seq<byte>, from: nat, text: seq<byte>)
    requires Holds(b, at, payload) && front <= payload && Holds(front, from, text)
    ensures Holds(b, at + from, text)
  {
    SubSlice(b, at, at + |payload|, from, from + |text|);
    assert payload[..|front|] == front;
    assert payload[from..from + |text|] == front[from..from + |text|];
  }

  lemma RestBlank(b: seq<byte>, at: nat, payload: seq<byte>, front: seq<byte>, output: seq<byte>)
    requires Holds(b, at, payload) && |front| <= |payload| && payload == front + Zeros(|payload| - |front|)
    requires Holds(b, at + |payload|, output) && output == Zeros(|output|)
    requires Blank(b, at + |payload| + |output|, |b|)
    ensures Blank(b, at + |front|, |b|)
  {
    forall i | at + |front| <= i < |b|
      ensures b[i] == 0
    {
      if i < at + |payload| {
        assert b[i] == b[at..at + |payload|][i - at] == payload[i - at];
      } else if i < at + |payload| + |output| {
        assert b[i] == b[at + |payload|..at + |payload| + |output|][i - at - |payload|];
      }
    }
  }

  /** The words of a packed pool: slots and bytes in use, the first and the last record, epoch and clock. */
  function PlanWords(l: Limits, p: Plan): Words
    requires p.used > 0 && p.count > 0
  {
    Words(p.used, p.used * |p.message|, 0, 0, 0, (p.used - 1) * l.parts + (p.count - 1), p.epoch, p.clock)
  }

  lemma PackedFront(l: Limits, p: Plan, r: Raw)
    requires Planned(l, p) && p.used > 0 && p.count > 0 && NarrowRaw(r) && Stands(l, r, Filled(l, p, p.used, 0))
    ensures FrontSays(Encode(r), PlanWords(l, p)) && Blank(Encode(r), 128, 1152)
  {
    hide FrontSays, Encode, Stands, NarrowRaw, Blank, Planned, Filled, PlanWords, NarrowWords, Narrow;
    PlanFits(l, p);
    RawFacts(r);
    FrontIs(l, p, r);
    FrontWordsSay(r);
    HeldWords(r);
  }

  lemma StandsFront(l: Limits, p: Plan, r: Raw)
    requires Planned(l, p) && Stands(l, r, Filled(l, p, p.used, 0))
    ensures var items := Prefix(l, p, p.used, 0);
            && r.held == EMPTY && r.words.pending == p.used && r.words.used == |Bytes(items)| && r.words.size == 0
            && r.words.done == 0 && r.words.first == First(items, Records(l)) && r.words.last == Last(items, Records(l))
            && r.words.epoch == p.epoch && r.words.clock == if p.used == 0 then 0 else p.clock
  {
    hide Bytes, Prefix, First, Last, Linked, Pages, Packed, Records;
  }

  lemma FrontIs(l: Limits, p: Plan, r: Raw)
    requires Planned(l, p) && p.used > 0 && p.count > 0 && Stands(l, r, Filled(l, p, p.used, 0))
    ensures r.held == EMPTY && r.words == PlanWords(l, p)
  {
    hide Bytes, Prefix, Stands, Filled, Records, Copies, Planned;
    PlanFits(l, p);
    StandsFront(l, p, r);
    AllBytes(l, p);
    PrefixEnds(l, p, p.used - 1, p.count);
    NextSlotPrefix(l, p, p.used - 1);
  }

  /** Every byte that `Pack` lays down. */
  lemma PackedSpelled(l: Limits, p: Plan, r: Raw)
    requires Planned(l, p) && p.used > 0 && NarrowRaw(r) && Stands(l, r, Filled(l, p, p.used, 0))
    ensures p.count > 0 && PackedSays(l, p, Encode(r))
  {
    hide Planned, Stands, Filled, NarrowRaw, Encode, FrontSays, SlotSays, PartSays, NoRecord, TextSays, Blank,
         TextPlace,
         PlanWords, RawOk, Narrow, NarrowWords;
    PlanFits(l, p);
    CountPositive(l, p);
    RawFacts(r);
    PackedFront(l, p, r);
    PackedTexts(l, p, r);
    forall s | 0 <= s < l.slots
      ensures SlotSays(l, p, Encode(r), s)
    {
      PackedPage(l, p, r, s);
    }
    FrontRest(r);
    forall s, i | 0 <= s < l.slots && 0 <= i < l.parts
      ensures RecordSays(l, p, Encode(r), s, i)
    {
      OneRecord(l, p, r, s, i);
    }
  }

  predicate RecordSays(l: Limits, p: Plan, b: seq<byte>, s: nat, i: nat) {
    if s < p.used && i < p.count then PartSays(l, p, b, s, i) else NoRecord(l, b, s, i)
  }

  lemma OneRecord(l: Limits, p: Plan, r: Raw, s: nat, i: nat)
    requires Planned(l, p) && NarrowRaw(r) && Stands(l, r, Filled(l, p, p.used, 0)) && s < l.slots && i < l.parts
    ensures RecordSays(l, p, Encode(r), s, i)
  {
    hide Planned, Stands, Filled, NarrowRaw, Encode, PartSays, NoRecord, RawOk;
    PlanFits(l, p);
    RawFacts(r);
    if s < p.used && i < p.count {
      PackedRecord(l, p, r, s, i);
    } else {
      UnusedRecord(l, p, r, s, i);
    }
  }

  // ---------------------------------------------------------------- a reset pool and a completed one

  /** Everything behind the front page of a pool with nothing pending, up to the completed message. */
  ghost predicate NothingBehind(l: Limits, b: seq<byte>) {
    && Blank(b, 1152, 4096) && (forall s :: 0 <= s < l.slots ==> Blank(b, 4096 + 1024 * s, 5120 + 1024 * s))
    && (forall s, i :: 0 <= s < l.slots && 0 <= i < l.parts ==> NoRecord(l, b, s, i))
    && Blank(b, OutputPlace(l) - l.arena, OutputPlace(l))
  }

  function OutputPlace(l: Limits): (at: nat)
    ensures at >= l.arena
  {
    4096 + 1024 * l.slots + 10 * (l.slots * l.parts) + l.arena
  }

  lemma EmptyBehind(l: Limits, r: Raw, g: Image)
    requires RawOk(r) && Stands(l, r, g) && g.items == [] && g.headers == seq(l.slots, _ => EMPTY)
    ensures NothingBehind(l, Encode(r)) && Holds(Encode(r), OutputPlace(l), g.output)
    ensures Blank(Encode(r), OutputPlace(l) + |g.output|, |Encode(r)|)
  {
    hide Encode, Stands, RawOk, Blank, NoRecord, Holds, Narrow, Records;
    EmptyFacts(l, r, g);
    FrontRest(r);
    EmptyNarrow();
    TextPlaces(r);
    ZeroPayload(Encode(r), OutputPlace(l) - l.arena, r.payload);
    forall s | 0 <= s < l.slots
      ensures Blank(Encode(r), 4096 + 1024 * s, 5120 + 1024 * s)
    {
      SlotWords(r, s);
    }
    forall s, i | 0 <= s < l.slots && 0 <= i < l.parts
      ensures NoRecord(l, Encode(r), s, i)
    {
      EmptyRecord(l, r, s, i);
    }
  }

  lemma EmptyRecord(l: Limits, r: Raw, s: nat, i: nat)
    requires RawOk(r) && |r.heads| == l.slots && s < l.slots && i < l.parts && r.records == seq(Records(l), _ => GONE)
    ensures NoRecord(l, Encode(r), s, i)
  {
    hide Encode, RawOk, IdOf, Blank, Records;
    FreshId(l, s, i);
    IdIs(l, s, i);
    RecordBlank(r, IdOf(s, l.parts, i));
  }

  lemma ZeroPayload(b: seq<byte>, at: nat, payload: seq<byte>)
    requires Holds(b, at, payload) && payload == Zeros(|payload|)
    ensures Blank(b, at, at + |payload|)
  {
    forall i | at <= i < at + |payload|
      ensures b[i] == 0
    {
      assert b[i] == b[at..at + |payload|][i - at];
    }
  }

  lemma EmptyFacts(l: Limits, r: Raw, g: Image)
    requires Stands(l, r, g) && g.items == [] && g.headers == seq(l.slots, _ => EMPTY)
    ensures |r.heads| == l.slots && (forall s :: 0 <= s < l.slots ==> r.heads[s] == EMPTY)
    ensures |r.records| == l.slots * l.parts && r.records == seq(Records(l), _ => GONE)
    ensures |r.payload| == l.arena && r.payload == Zeros(l.arena) && r.output == g.output && r.held == g.held
    ensures r.words == Words(g.pending, 0, g.size, g.done, Records(l), Records(l), g.epoch, g.clock)
  {
    assert |Bytes(g.items)| == 0;
    assert r.payload == Zeros(l.arena);
    assert r.records == seq(Records(l), _ => GONE);
  }

  /** Every byte that `Fresh` lays down. */
  lemma FreshSpelled(l: Limits, r: Raw, epoch: nat)
    requires NarrowRaw(r) && Stands(l, r, EmptyImage(l, epoch))
    ensures var b, end := Encode(r), l.slots * l.parts;
            && FrontSays(b, Words(0, 0, 0, 0, end, end, epoch, 0)) && Blank(b, 128, 1152) && NothingBehind(l, b)
            && Blank(b, OutputPlace(l), |b|)
  {
    var g := EmptyImage(l, epoch);
    EmptyFacts(l, r, g);
    hide Encode, Stands, NarrowRaw, FrontSays, Blank, NothingBehind, Holds;
    RawFacts(r);
    FrontWordsSay(r);
    HeldWords(r);
    EmptyBehind(l, r, g);
    ZeroPayload(Encode(r), OutputPlace(l), g.output);
    BlankJoin(Encode(r), OutputPlace(l), OutputPlace(l) + |g.output|, |Encode(r)|);
  }

  lemma BlankJoin(b: seq<byte>, i: nat, j: nat, k: nat)
    requires Blank(b, i, j) && Blank(b, j, k)
    ensures Blank(b, i, k)
  {
  }

  /** Every byte that the builder of a completed pool lays down: front words, the pinned message's page, the message. */
  lemma CompletedSpelled(l: Limits, r: Raw, message: seq<byte>, ident: seq<byte>, parts: nat, epoch: nat, now: nat)
    requires NarrowRaw(r) && |message| <= l.message && Stands(l, r, Done(l, message, ident, parts, epoch, now))
    ensures var b, end := Encode(r), l.slots * l.parts;
            && FrontSays(b, Words(0, 0, |message|, 1, end, end, epoch, now))
            && PageSays(b, 128, Header(1, 1, epoch, [11] + Zeros(31), ident, 2, parts, 0, 0, now))
            && NothingBehind(l, b) && Holds(b, OutputPlace(l), message)
            && Blank(b, OutputPlace(l) + |message|, |b|)
  {
    var g := Done(l, message, ident, parts, epoch, now);
    EmptyFacts(l, r, g);
    KeyIs();
    hide Encode, Stands, NarrowRaw, FrontSays, Blank, NothingBehind, Holds, PageSays, PeerKey;
    RawFacts(r);
    FrontWordsSay(r);
    HeldWords(r);
    EmptyBehind(l, r, g);
    MessageThenZeros(Encode(r), OutputPlace(l), message, l.message);
    BlankJoin(Encode(r), OutputPlace(l) + |message|, OutputPlace(l) + l.message, |Encode(r)|);
  }

  lemma MessageThenZeros(b: seq<byte>, at: nat, message: seq<byte>, n: nat)
    requires |message| <= n && Holds(b, at, message + Zeros(n - |message|))
    ensures Holds(b, at, message) && Blank(b, at + |message|, at + n)
  {
    var all := message + Zeros(n - |message|);
    HeldInside(b, at, all, all, 0, message);
    forall i | at + |message| <= i < at + n
      ensures b[i] == 0
    {
      assert b[i] == b[at..at + |all|][i - at] == all[i - at];
    }
  }
}
