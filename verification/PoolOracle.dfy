/**
 The expected pools, built byte by byte and without running the pool: a fresh one, one
 packed with equal messages, and one whose message is complete. Each builder is shown to
 produce the one byte form of the contents it stands for.
 */
module PoolOracle {
  import opened Common
  import opened Hex
  import opened Arena
  import opened Reassembly
  import opened PoolBytes
  import F = Fragments

  /** `used` slots, each with the first `count` parts of `message`; identifiers count up from `base`. */
  datatype Plan = Plan(used: nat, count: nat, base: nat, message: seq<byte>, unit: nat, epoch: nat, clock: nat)

  function Ident(x: nat): (t: seq<byte>)
    requires x < 256
    ensures |t| == 2
  {
    HexByte(x)
  }

  function PeerKey(): (k: seq<byte>)
    ensures |k| == 32
  {
    Le(11, 8) + Zeros(24)
  }

  function Page(ident: seq<byte>, parts: nat, epoch: nat, now: nat): Header {
    Header(1, 1, epoch, PeerKey(), ident, 2, parts, 0, 0, now)
  }

  // ---------------------------------------------------------------- one header page

  /** The five stores that fill a blank page at `at`. */
  function Stamped(s: seq<byte>, at: nat, ident: seq<byte>, parts: nat, epoch: nat, now: nat): (t: seq<byte>)
    requires at + 1024 <= |s| && |ident| == 2
    ensures |t| == |s|
  {
    var a := Put(s, at, Le(1, 4) + Le(1, 4) + Le(epoch, 8));
    var b := Put(a, at + 16, Le(11, 8));
    var c := Put(b, at + 48, Le(2, 4) + Le(2, 4) + Le(parts, 4));
    var d := Put(c, at + 72, Le(now, 8));
    Put(d, at + 128, ident)
  }

  lemma StampedMiddle(x: seq<byte>, m: seq<byte>, y: seq<byte>, ident: seq<byte>, parts: nat, epoch: nat, now: nat)
    requires |m| == 1024 && |ident| == 2
    ensures Stamped(x + m + y, |x|, ident, parts, epoch, now) == x + Stamped(m, 0, ident, parts, epoch, now) + y
  {
    hide Put;
    var a := Put(m, 0, Le(1, 4) + Le(1, 4) + Le(epoch, 8));
    PutMiddle(x, m, y, 0, Le(1, 4) + Le(1, 4) + Le(epoch, 8));
    var b := Put(a, 16, Le(11, 8));
    PutMiddle(x, a, y, 16, Le(11, 8));
    var c := Put(b, 48, Le(2, 4) + Le(2, 4) + Le(parts, 4));
    PutMiddle(x, b, y, 48, Le(2, 4) + Le(2, 4) + Le(parts, 4));
    var d := Put(c, 72, Le(now, 8));
    PutMiddle(x, c, y, 72, Le(now, 8));
    PutMiddle(x, d, y, 128, ident);
  }

  lemma {:induction false} LeZero(n: nat)
    ensures Le(0, n) == Zeros(n)
  {
    if n > 0 {
      LeZero(n - 1);
      assert Zeros(n) == [0] + Zeros(n - 1);
    }
  }

  lemma BlankPage()
    ensures HeaderBytes(EMPTY) == Zeros(1024)
  {
    LeZero(4);
    LeZero(8);
  }

  lemma ZerosApart(i: nat, j: nat)
    ensures Zeros(i + j) == Zeros(i) + Zeros(j)
  {
  }

  /** A store at the start of the blank rest. */
  lemma PutBlank(p: seq<byte>, b: seq<byte>, rest: nat)
    ensures Put(p + Zeros(|b| + rest), |p|, b) == p + b + Zeros(rest)
  {
    ZerosApart(|b|, rest);
    PutMiddle(p, Zeros(|b|), Zeros(rest), 0, b);
    PutAll(Zeros(|b|), b);
    assert p + Zeros(|b| + rest) == p + Zeros(|b|) + Zeros(rest);
    hide Put, Zeros;
  }

  lemma Skip(p: seq<byte>, i: nat, j: nat)
    ensures p + Zeros(i + j) == p + Zeros(i) + Zeros(j)
  {
    ZerosApart(i, j);
    hide Zeros;
  }

  /** On a blank page the stores spell the header. */
  lemma StampedPage(ident: seq<byte>, parts: nat, epoch: nat, now: nat)
    requires |ident| == 2
    ensures Stamped(HeaderBytes(EMPTY), 0, ident, parts, epoch, now) == HeaderBytes(Page(ident, parts, epoch, now))
  {
    BlankPage();
    hide HeaderBytes, Le, Put, Zeros;
    var top, key, counts, time := Le(1, 4) + Le(1, 4) + Le(epoch, 8), Le(11, 8), Le(2, 4) + Le(2, 4) + Le(parts, 4),
                                  Le(now, 8);
    assert [] + Zeros(1024) == Zeros(1024) && [] + top == top;
    PutBlank([], top, 1008);
    PutBlank(top, key, 1000);
    Skip(top + key, 24, 976);
    var p := top + key + Zeros(24);
    PutBlank(p, counts, 964);
    Skip(p + counts, 12, 952);
    var q := p + counts + Zeros(12);
    PutBlank(q, time, 944);
    Skip(q + time, 48, 896);
    PutBlank(q + time + Zeros(48), ident, 894);
    PageText(ident, parts, epoch, now);
  }

  lemma Spread(t: seq<byte>, k: seq<byte>, z: seq<byte>, c: seq<byte>, m: seq<byte>, y: seq<byte>)
    ensures t + (k + z) + c + m + m + m + y == t + k + z + c + (m + m + m) + y
  {
  }

  lemma SpreadEnd(head: seq<byte>, i: seq<byte>, z: seq<byte>)
    ensures head + (i + z) == head + i + z
  {
  }

  lemma PageText(ident: seq<byte>, parts: nat, epoch: nat, now: nat)
    requires |ident| == 2
    ensures HeaderBytes(Page(ident, parts, epoch, now))
         == Le(1, 4) + Le(1, 4) + Le(epoch, 8) + Le(11, 8) + Zeros(24) + (Le(2, 4) + Le(2, 4) + Le(parts, 4))
             + Zeros(12)
            + Le(now, 8) + Zeros(48) + ident + Zeros(894)
  {
    var h := Page(ident, parts, epoch, now);
    var top, key, counts, z := Le(1, 4) + Le(1, 4) + Le(epoch, 8), Le(11, 8), Le(2, 4) + Le(2, 4) + Le(parts, 4),
        Zeros(4);
    LeZero(4);
    PageIs(h);
    assert Padded(h.key, 32) == key + Zeros(24);
    assert Padded(h.ident, 896) == ident + Zeros(894);
    assert Zeros(12) == z + z + z;
    hide Le, Padded, Zeros, HeaderBytes;
    Spread(top, key, Zeros(24), counts, z, Le(now, 8));
    SpreadEnd(top + key + Zeros(24) + counts + (z + z + z) + Le(now, 8) + Zeros(48), ident, Zeros(894));
  }

  lemma PageIs(h: Header)
    requires Fits(h) && h.count == 0 && h.total == 0
    ensures HeaderBytes(h)
         == Le(h.live, 4) + Le(h.peer, 4) + Le(h.epoch, 8) + Padded(h.key, 32)
            + (Le(|h.ident|, 4) + Le(h.units, 4) + Le(h.parts, 4)) + Zeros(4) + Zeros(4) + Zeros(4) + Le(h.touched, 8)
            + Zeros(48) + Padded(h.ident, 896)
  {
    LeZero(4);
    hide Le, Padded, Zeros;
    var z := Zeros(4);
    var head := (Le(h.live, 4) + Le(h.peer, 4) + Le(h.epoch, 8)) + Padded(h.key, 32)
                + (Le(|h.ident|, 4) + Le(h.units, 4) + Le(h.parts, 4));
    SpreadEnd(head, z, z);
  }

  lemma PutAll(m: seq<byte>, b: seq<byte>)
    requires |m| == |b|
    ensures Put(m, 0, b) == b
  {
  }

  /** Storing the part count and the byte total into a page. */
  lemma PageFigures(h: Header, count: nat, total: nat)
    requires Fits(h)
    ensures Put(HeaderBytes(h), 60, Le(count, 4) + Le(total, 4)) == HeaderBytes(h.(count := count, total := total))
  {
    hide Le, Padded;
    var pre := (Le(h.live, 4) + Le(h.peer, 4) + Le(h.epoch, 8)) + Padded(h.key, 32)
               + (Le(|h.ident|, 4) + Le(h.units, 4) + Le(h.parts, 4));
    var m, y, b := Le(h.count, 4) + Le(h.total, 4), Zeros(4) + Le(h.touched, 8) + Zeros(48) + Padded(h.ident, 896),
                   Le(count, 4) + Le(total, 4);
    assert HeaderBytes(h) == pre + m + y;
    PutMiddle(pre, m, y, 0, b);
    PutAll(m, b);
    assert HeaderBytes(h.(count := count, total := total)) == pre + b + y;
  }

  // ---------------------------------------------------------------- the front words

  lemma WordFields(w: Words, a: nat, b: nat)
    ensures Put(WordBytes(w), 8, Le(a, 4) + Le(b, 4)) == WordBytes(w.(pending := a, used := b))
    ensures Put(WordBytes(w), 16, Le(a, 4) + Le(b, 4)) == WordBytes(w.(size := a, done := b))
    ensures Put(WordBytes(w), 24, Le(a, 4) + Le(b, 4)) == WordBytes(w.(first := a, last := b))
    ensures Put(WordBytes(w), 40, Le(a, 8)) == WordBytes(w.(clock := a))
  {
    hide Le, Put;
    var x, y := Le(a, 4) + Le(b, 4), Le(a, 8);
    var top := Le(MAGIC, 4) + Le(1, 4);
    var p, q, f, e, t := Le(w.pending, 4) + Le(w.used, 4), Le(w.size, 4) + Le(w.done, 4),
        Le(w.first, 4) + Le(w.last, 4),
                         Le(w.epoch, 8), Le(w.clock, 8);
    PutMiddle(top, p, q + f + e + t, 0, x);
    PutMiddle(top + p, q, f + e + t, 0, x);
    PutMiddle(top + p + q, f, e + t, 0, x);
    PutMiddle(top + p + q + f + e, t, [], 0, y);
    PutAll(p, x);
    PutAll(q, x);
    PutAll(f, x);
    PutAll(t, y);
    var all := WordBytes(w);
    assert top + p + (q + f + e + t) == all && top + p + q + (f + e + t) == all && top + p + q + f + (e + t) == all
        && top + p + q + f + e + t + [] == all;
    assert top + x + (q + f + e + t) == WordBytes(w.(pending := a, used := b));
    assert top + p + x + (f + e + t) == WordBytes(w.(size := a, done := b));
    assert top + p + q + x + (e + t) == WordBytes(w.(first := a, last := b));
  }

  // ---------------------------------------------------------------- lists under construction

  /** Linked, except that the last record already names the record that comes next. */
  ghost predicate LinkedTo(items: seq<Item>, e: seq<Entry>, limit: nat, follow: nat) {
    && Chain(items, limit) && |e| == limit
    && (forall k :: 0 <= k < |items| ==>
          e[items[k].id] == Entry(|Bytes(items[..k])|, PRESENT + |items[k].text|, NextId(items, k, follow)))
    && (forall id :: 0 <= id < limit && !Has(items, id) ==> e[id] == GONE)
  }

  lemma LinkNext(items: seq<Item>, e: seq<Entry>, limit: nat, id: nat, text: seq<byte>, follow: nat)
    requires LinkedTo(items, e, limit, id) && id < limit && !Has(items, id) && |text| < PRESENT
    ensures LinkedTo(items + [Item(id, text)], e[id := Entry(|Bytes(items)|, PRESENT + |text|, follow)], limit, follow)
  {
    hide Bytes;
    var more, f := items + [Item(id, text)], e[id := Entry(|Bytes(items)|, PRESENT + |text|, follow)];
    forall k | 0 <= k < |more|
      ensures f[more[k].id] == Entry(|Bytes(more[..k])|, PRESENT + |more[k].text|, NextId(more, k, follow))
    {
      if k < |items| {
        assert more[..k] == items[..k] && more[k] == items[k];
      } else {
        assert more[..k] == items;
      }
    }
    forall x | 0 <= x < limit && !Has(more, x)
      ensures f[x] == GONE
    {
      HasAppend(items, Item(id, text), x);
    }
  }

  /** The parts in arrival order: every earlier slot in full, then `i` parts of slot `s`. */
  function Prefix(l: Limits, p: Plan, s: nat, i: nat): seq<Item>
    decreases s, i
  {
    if i > 0 then Prefix(l, p, s, i - 1) + [Item(IdOf(s, l.parts, i - 1), F.Part(p.message, p.unit, i - 1))]
    else if s > 0 then Prefix(l, p, s - 1, p.count)
    else []
  }

  /** The whole message `s` times over. */
  function Copies(message: seq<byte>, s: nat): (c: seq<byte>)
    ensures |c| == s * |message|
  {
    if s == 0 then [] else Copies(message, s - 1) + message
  }

  ghost predicate Planned(l: Limits, p: Plan) {
    && 0 < p.unit <= 700 && p.used <= l.slots && 0 < p.count <= l.parts && p.base + p.used <= 256
    && F.Start(|p.message|, p.unit, p.count) == |p.message| <= l.message && p.used * |p.message| <= l.arena
    && 0 < p.epoch <= CLOCK_MAX && p.clock <= CLOCK_MAX
  }

  lemma PrefixStep(l: Limits, p: Plan, s: nat, i: nat)
    requires i > 0
    ensures Prefix(l, p, s, i) == Prefix(l, p, s, i - 1)
            + [Item(IdOf(s, l.parts, i - 1), F.Part(p.message, p.unit, i - 1))]
  {
  }

  lemma BytesAppend(items: seq<Item>, x: Item)
    ensures Bytes(items + [x]) == Bytes(items) + x.text
  {
    assert (items + [x])[..|items|] == items;
  }

  lemma PartExtends(p: Plan, i: nat)
    ensures p.message[..F.Start(|p.message|, p.unit, i)] + F.Part(p.message, p.unit, i)
         == p.message[..F.Start(|p.message|, p.unit, i + 1)]
  {
    F.StartMonotone(|p.message|, p.unit, i);
    hide F.Start;
  }

  /** The parts tile the arena: slot after slot, part after part, no gap and no overlap. */
  lemma {:induction false} PrefixBytes(l: Limits, p: Plan, s: nat, i: nat)
    requires Planned(l, p) && i <= p.count
    ensures Bytes(Prefix(l, p, s, i)) == Copies(p.message, s) + p.message[..F.Start(|p.message|, p.unit, i)]
    decreases s, i
  {
    if i > 0 {
      var front, x := Prefix(l, p, s, i - 1), Item(IdOf(s, l.parts, i - 1), F.Part(p.message, p.unit, i - 1));
      PrefixBytes(l, p, s, i - 1);
      BytesAppend(front, x);
      PartExtends(p, i - 1);
      hide Bytes, Prefix, Copies, F.Start, F.Part, Planned;
      assert Prefix(l, p, s, i) == front + [x] by {
        PrefixStep(l, p, s, i);
      }
    } else {
      F.StartZero(|p.message|, p.unit);
      if s > 0 {
        PrefixBytes(l, p, s - 1, p.count);
      }
    }
  }

  lemma {:induction false} PrefixIds(l: Limits, p: Plan, s: nat, i: nat)
    requires Planned(l, p) && i <= p.count
    ensures forall x :: x in Prefix(l, p, s, i) ==> x.id < IdOf(s, l.parts, i)
    ensures |Prefix(l, p, s, i)| == s * p.count + i
    decreases s, i
  {
    if i > 0 {
      PrefixIds(l, p, s, i - 1);
    } else if s > 0 {
      PrefixIds(l, p, s - 1, p.count);
      assert IdOf(s, l.parts, 0) == IdOf(s - 1, l.parts, 0) + l.parts && s * p.count == (s - 1) * p.count + p.count;
    }
  }

  // ---------------------------------------------------------------- the builders

  method Store(raw: array<byte>, at: nat, b: seq<byte>)
    requires at + |b| <= raw.Length
    modifies raw
    ensures raw[..] == Put(old(raw[..]), at, b)
  {
    for i := 0 to |b|
      invariant forall j :: 0 <= j < raw.Length ==> raw[j] == if at <= j < at + i then b[j - at] else old(raw[j])
    {
      raw[at + i] := b[i];
    }
  }

  function Bytewise(l: Limits, tail: nat): nat { 4096 + 1024 * l.slots + 10 * Records(l) + l.arena + l.message + tail }

  function BlankRaw(l: Limits, tail: nat, epoch: nat): Raw {
    Raw(Words(0, 0, 0, 0, Records(l), Records(l), epoch, 0), EMPTY, seq(l.slots, _ => EMPTY),
        seq(Records(l), _ => GONE),
        Zeros(l.arena), Zeros(l.message), tail)
  }

  lemma {:induction false} BlankHeads(n: nat)
    ensures Heads(seq(n, _ => EMPTY)) == Zeros(1024 * n)
  {
    hide HeaderBytes;
    if n > 0 {
      BlankHeads(n - 1);
      BlankPage();
      assert seq(n, _ => EMPTY)[..n - 1] == seq(n - 1, _ => EMPTY);
    }
  }

  lemma {:induction false} BlankEntries(n: nat)
    ensures Entries(seq(n, _ => GONE)) == Zeros(10 * n)
  {
    if n > 0 {
      BlankEntries(n - 1);
      LeZero(4);
      LeZero(2);
      hide Le;
      assert seq(n, _ => GONE)[..n - 1] == seq(n - 1, _ => GONE);
    }
  }

  lemma BlankBytes(l: Limits, tail: nat, epoch: nat)
    ensures var r := BlankRaw(l, tail, epoch);
            |Encode(r)| == Bytewise(l, tail) && Encode(r) == WordBytes(r.words) + Zeros(Bytewise(l, tail) - 48)
  {
    BlankHeads(l.slots);
    BlankEntries(Records(l));
    BlankPage();
    hide WordBytes, HeaderBytes, Heads, Entries, Records;
  }

  lemma BlankStands(l: Limits, tail: nat, epoch: nat)
    ensures Stands(l, BlankRaw(l, tail, epoch), EmptyImage(l, epoch))
  {
    hide Records;
  }

  method Fresh(l: Limits, tail: nat, epoch: nat) returns (raw: array<byte>, ghost r: Raw)
    ensures r == BlankRaw(l, tail, epoch) && fresh(raw) && raw[..] == Encode(r)
    ensures Stands(l, r, EmptyImage(l, epoch)) && raw.Length == Bytewise(l, tail)
  {
    r := BlankRaw(l, tail, epoch);
    raw := new byte[Bytewise(l, tail)](_ => 0);
    hide Encode, Stands, Records, WordBytes, Put, EmptyImage;
    BlankBytes(l, tail, epoch);
    BlankStands(l, tail, epoch);
    var w := WordBytes(Words(0, 0, 0, 0, Records(l), Records(l), epoch, 0));
    assert raw[..] == Zeros(raw.Length);
    PutFront(raw.Length, w);
    Store(raw, 0, w);
  }

  method StampAt(raw: array<byte>, at: nat, ident: seq<byte>, parts: nat, epoch: nat, now: nat)
    requires at + 1024 <= raw.Length && |ident| == 2
    modifies raw
    ensures raw[..] == Stamped(old(raw[..]), at, ident, parts, epoch, now)
  {
    hide Put;
    Store(raw, at, Le(1, 4) + Le(1, 4) + Le(epoch, 8));
    Store(raw, at + 16, Le(11, 8));
    Store(raw, at + 48, Le(2, 4) + Le(2, 4) + Le(parts, 4));
    Store(raw, at + 72, Le(now, 8));
    Store(raw, at + 128, ident);
  }

  method StampHeld(raw: array<byte>, ghost r: Raw, ident: seq<byte>, parts: nat, epoch: nat, now: nat)
      returns (ghost n: Raw)
    requires RawOk(r) && raw[..] == Encode(r) && r.held == EMPTY && |ident| == 2
    modifies raw
    ensures RawOk(n) && raw[..] == Encode(n) && n == r.(held := Page(ident, parts, epoch, now))
  {
    hide Encode, HeaderBytes, BeforeHeld, AfterHeld, Stamped;
    n := r.(held := Page(ident, parts, epoch, now));
    AroundHeld(r, n.held);
    StampedMiddle(BeforeHeld(r), HeaderBytes(EMPTY), AfterHeld(r), ident, parts, epoch, now);
    StampedPage(ident, parts, epoch, now);
    StampAt(raw, 128, ident, parts, epoch, now);
  }

  lemma PageFits(ident: seq<byte>, parts: nat, epoch: nat, now: nat, count: nat, total: nat)
    requires |ident| == 2
    ensures var page := Page(ident, parts, epoch, now); Fits(page) && Fits(page.(count := count, total := total))
    ensures Fits(EMPTY)
  {
  }

  /** The stores into the page of slot `s`, and into its two figures, in the whole buffer. */
  lemma StampedFull(r: Raw, s: nat, ident: seq<byte>, parts: nat, epoch: nat, now: nat, count: nat, total: nat)
    requires RawOk(r) && s < |r.heads| && r.heads[s] == EMPTY && |ident| == 2
    ensures HeaderAt(s) + 1024 <= |Encode(r)|
    ensures var n := r.(heads := r.heads[s := Page(ident, parts, epoch, now).(count := count, total := total)]);
            RawOk(n) && Put(Stamped(Encode(r), HeaderAt(s), ident, parts, epoch, now), HeaderAt(s) + 60,
                            Le(count, 4) + Le(total, 4)) == Encode(n)
  {
    hide Encode, HeaderBytes, BeforeHead, AfterHead, Stamped, Put, AllFit, Fits;
    PageFits(ident, parts, epoch, now, count, total);
    var page := Page(ident, parts, epoch, now);
    StampedSlot(r, s, page);
    AroundHead(r, s, page.(count := count, total := total));
    var x, y := BeforeHead(r, s), AfterHead(r, s);
    StampedMiddle(x, HeaderBytes(EMPTY), y, ident, parts, epoch, now);
    StampedPage(ident, parts, epoch, now);
    PageFigures(page, count, total);
    PutMiddle(x, HeaderBytes(page), y, 60, Le(count, 4) + Le(total, 4));
  }

  /** The page of slot `s`, with its part count and byte total. */
  method StampSlot(raw: array<byte>, ghost r: Raw, s: nat, ident: seq<byte>, parts: nat, epoch: nat, now: nat,
                   count: nat, total: nat)
      returns (ghost n: Raw)
    requires RawOk(r) && raw[..] == Encode(r) && s < |r.heads| && r.heads[s] == EMPTY && |ident| == 2
    modifies raw
    ensures RawOk(n) && raw[..] == Encode(n)
    ensures n == r.(heads := r.heads[s := Page(ident, parts, epoch, now).(count := count, total := total)])
  {
    hide Encode, HeaderBytes, Stamped, Put, AllFit, Fits, Page;
    ghost var full := Page(ident, parts, epoch, now).(count := count, total := total);
    StampedFull(r, s, ident, parts, epoch, now, count, total);
    StampAt(raw, HeaderAt(s), ident, parts, epoch, now);
    Store(raw, HeaderAt(s) + 60, Le(count, 4) + Le(total, 4));
    n := r.(heads := r.heads[s := full]);
  }

  lemma StampedSlot(r: Raw, s: nat, page: Header)
    requires RawOk(r) && s < |r.heads| && Fits(page)
    ensures |Encode(r)| >= HeaderAt(s) + 1024
  {
    AroundHead(r, s, page);
  }

  // ---------------------------------------------------------------- a pool full of equal messages

  function FullPage(l: Limits, p: Plan, t: nat): Header
    requires p.base + t < 256
  {
    Page(Ident(p.base + t), l.parts, p.epoch, p.clock).(count := p.count, total := |p.message|)
  }

  /** Full pages up to slot `s`, and in it the page of the `i` parts that are there. */
  function Pages(l: Limits, p: Plan, s: nat, i: nat): (hs: seq<Header>)
    requires p.base + p.used <= 256 && s <= p.used && (s == p.used ==> i == 0)
    ensures |hs| == l.slots
  {
    seq(l.slots, (t: nat) =>
      if t < s then FullPage(l, p, t)
      else if t == s && i > 0 then FullPage(l, p, s).(count := i, total := F.Start(|p.message|, p.unit, i))
      else EMPTY)
  }

  /** The contents after every part of the slots before `s` and `i` parts of slot `s`. */
  function Filled(l: Limits, p: Plan, s: nat, i: nat): Image
    requires p.base + p.used <= 256 && s <= p.used && (s == p.used ==> i == 0)
  {
    Image(MAGIC, 1, if i > 0 then s + 1 else s, 0, 0, p.epoch, if s == 0 && i == 0 then 0 else p.clock,
          Pages(l, p, s, i), Prefix(l, p, s, i), EMPTY, Zeros(l.message))
  }

  function Figures(l: Limits, p: Plan): Words
    requires p.used > 0 && p.count > 0
  {
    Words(p.used, p.used * |p.message|, 0, 0, 0, IdOf(p.used - 1, l.parts, p.count - 1), p.epoch, p.clock)
  }

  /** Where the builder is: `s` slots laid out and `i` records of the next. */
  ghost predicate Building(l: Limits, p: Plan, tail: nat, r: Raw, s: nat, i: nat, pages: nat) {
    && Planned(l, p) && p.used > 0 && s <= pages <= p.used && i <= p.count && (s == p.used ==> i == 0)
    && r.words == Figures(l, p) && r.held == EMPTY && r.heads == Pages(l, p, pages, 0)
    && r.payload == Zeros(l.arena) && r.output == Zeros(l.message) && r.tail == tail
    && |r.records| == Records(l) && LinkedTo(Prefix(l, p, s, i), r.records, Records(l), Following(l, p, s, i))
  }

  /** The record after `i` records of slot `s`. */
  function Following(l: Limits, p: Plan, s: nat, i: nat): nat {
    if i < p.count && s < p.used then IdOf(s, l.parts, i)
    else if s + 1 < p.used then IdOf(s + 1, l.parts, 0)
    else Records(l)
  }

  method FrontWords(raw: array<byte>, ghost r: Raw, l: Limits, p: Plan) returns (ghost n: Raw)
    requires RawOk(r) && raw[..] == Encode(r) && p.used > 0 && p.count > 0
    requires r.words == Words(0, 0, 0, 0, Records(l), Records(l), p.epoch, 0)
    modifies raw
    ensures RawOk(n) && raw[..] == Encode(n) && n == r.(words := Figures(l, p))
  {
    hide Encode, WordBytes, Put, IdOf, Records;
    n := r;
    WordFields(n.words, p.used, p.used * |p.message|);
    PutWords(n, 8, Le(p.used, 4) + Le(p.used * |p.message|, 4),
             n.words.(pending := p.used, used := p.used * |p.message|));
    Store(raw, 8, Le(p.used, 4) + Le(p.used * |p.message|, 4));
    n := n.(words := n.words.(pending := p.used, used := p.used * |p.message|));
    var last := IdOf(p.used - 1, l.parts, p.count - 1);
    WordFields(n.words, 0, last);
    PutWords(n, 24, Le(0, 4) + Le(last, 4), n.words.(first := 0, last := last));
    Store(raw, 24, Le(0, 4) + Le(last, 4));
    n := n.(words := n.words.(first := 0, last := last));
    WordFields(n.words, p.clock, 0);
    PutWords(n, 40, Le(p.clock, 8), n.words.(clock := p.clock));
    Store(raw, 40, Le(p.clock, 8));
    n := n.(words := n.words.(clock := p.clock));
  }

  function Record(l: Limits, p: Plan, s: nat, i: nat): Entry {
    Entry(s * |p.message| + F.Start(|p.message|, p.unit, i), PRESENT + |F.Part(p.message, p.unit, i)|,
          Following(l, p, s, i + 1))
  }

  lemma PartFacts(l: Limits, p: Plan, s: nat, i: nat)
    requires Planned(l, p) && s < p.used && i < p.count
    ensures IdOf(s, l.parts, i) < Records(l) && !Has(Prefix(l, p, s, i), IdOf(s, l.parts, i))
    ensures |F.Part(p.message, p.unit, i)| < PRESENT
    ensures |Bytes(Prefix(l, p, s, i))| == s * |p.message| + F.Start(|p.message|, p.unit, i)
    ensures Following(l, p, s, i) == IdOf(s, l.parts, i)
  {
    FreshId(l, s, i);
    PrefixIds(l, p, s, i);
    PrefixBytes(l, p, s, i);
    F.StartMonotone(|p.message|, p.unit, i);
    hide Bytes, IdOf, Records, Prefix;
  }

  /** One more part record, off the end of the list, extends it. */
  lemma LinkPart(l: Limits, p: Plan, e: seq<Entry>, s: nat, i: nat)
    requires Planned(l, p) && s < p.used && i < p.count
    requires LinkedTo(Prefix(l, p, s, i), e, Records(l), IdOf(s, l.parts, i)) && |e| == Records(l)
    ensures IdOf(s, l.parts, i) < |e|
    ensures LinkedTo(Prefix(l, p, s, i + 1), e[IdOf(s, l.parts, i) := Record(l, p, s, i)], Records(l),
                     Following(l, p, s, i + 1))
  {
    PartFacts(l, p, s, i);
    hide Bytes, IdOf, Records, LinkedTo, Following, Planned, F.Start, F.Part, Has;
    LinkNext(Prefix(l, p, s, i), e, Records(l), IdOf(s, l.parts, i), F.Part(p.message, p.unit, i),
             Following(l, p, s, i + 1));
  }

  lemma LinkOne(l: Limits, p: Plan, tail: nat, r: Raw, s: nat, i: nat, pages: nat)
    requires Building(l, p, tail, r, s, i, pages) && s < p.used && i < p.count
    ensures IdOf(s, l.parts, i) < |r.records|
    ensures Building(l, p, tail, r.(records := r.records[IdOf(s, l.parts, i) := Record(l, p, s, i)]), s, i + 1, pages)
  {
    hide Prefix, LinkedTo, Records, IdOf, Record, Pages, Figures, Zeros;
    LinkPart(l, p, r.records, s, i);
  }

  lemma NextSlot(l: Limits, p: Plan, tail: nat, r: Raw, s: nat, pages: nat)
    requires Building(l, p, tail, r, s, p.count, pages) && s < pages
    ensures Building(l, p, tail, r, s + 1, 0, pages)
  {
    hide LinkedTo, Records, IdOf, Pages, Figures, Zeros;
  }

  lemma NextPage(l: Limits, p: Plan, s: nat)
    requires Planned(l, p) && s < p.used
    ensures Pages(l, p, s + 1, 0) == Pages(l, p, s, 0)[s := FullPage(l, p, s)] && Pages(l, p, s, 0)[s] == EMPTY
  {
  }

  method Lay(raw: array<byte>, ghost r: Raw, l: Limits, p: Plan, tail: nat, s: nat) returns (ghost n: Raw)
    requires RawOk(r) && raw[..] == Encode(r) && Building(l, p, tail, r, s, 0, s) && s < p.used
    modifies raw
    ensures RawOk(n) && raw[..] == Encode(n) && Building(l, p, tail, n, s + 1, 0, s + 1)
  {
    hide Encode, Put, LinkedTo, Prefix, Zeros, Pages, Figures, EntryBytes, IdOf, Records, RawOk;
    NextPage(l, p, s);
    n := StampSlot(raw, r, s, Ident(p.base + s), l.parts, p.epoch, p.clock, p.count, |p.message|);
    for i := 0 to p.count
      invariant RawOk(n) && raw[..] == Encode(n) && Building(l, p, tail, n, s, i, s + 1)
    {
      n := LayOne(raw, n, l, p, tail, s, i);
    }
    NextSlot(l, p, tail, n, s, s + 1);
  }

  method LayOne(raw: array<byte>, ghost r: Raw, l: Limits, p: Plan, tail: nat, s: nat, i: nat) returns (ghost n: Raw)
    requires RawOk(r) && raw[..] == Encode(r) && Building(l, p, tail, r, s, i, s + 1) && s < p.used && i < p.count
    modifies raw
    ensures RawOk(n) && raw[..] == Encode(n) && Building(l, p, tail, n, s, i + 1, s + 1)
  {
    hide Encode, Put, EntryBytes, IdOf, Building, Planned, Fits, F.Start;
    var id, next := IdOf(s, l.parts, i), Following(l, p, s, i + 1);
    var at, size := Cut(p.message, p.unit, i);
    var x := Entry(s * |p.message| + at, PRESENT + size, next);
    LinkOne(l, p, tail, r, s, i, s + 1);
    PutRecord(r, id, x);
    RecordsStart(l, p, tail, r, s, i, id);
    Store(raw, 4096 + 1024 * l.slots + 10 * id, EntryBytes(x));
    n := r.(records := r.records[id := x]);
  }

  /** Where part `i` starts, and the smaller of the unit and what is left. */
  method Cut(message: seq<byte>, unit: nat, i: nat) returns (at: nat, size: nat)
    ensures at == F.Start(|message|, unit, i) && size == |F.Part(message, unit, i)|
  {
    assert (i + 1) * unit == i * unit + unit;
    F.StartMonotone(|message|, unit, i);
    at := if i * unit <= |message| then i * unit else |message|;
    size := if |message| - at < unit then |message| - at else unit;
  }

  lemma RecordsStart(l: Limits, p: Plan, tail: nat, r: Raw, s: nat, i: nat, id: nat)
    requires Building(l, p, tail, r, s, i, s + 1)
    ensures RecordAt(r, id) == 4096 + 1024 * l.slots + 10 * id && |r.records| == Records(l)
  {
    hide Prefix;
  }

  lemma {:induction false} PrefixEnds(l: Limits, p: Plan, s: nat, i: nat)
    requires Planned(l, p) && i <= p.count && s + i > 0
    ensures Prefix(l, p, s, i) != [] && Prefix(l, p, s, i)[0].id == 0
    ensures i > 0 ==> Last(Prefix(l, p, s, i), Records(l)) == IdOf(s, l.parts, i - 1)
    decreases s, i
  {
    if i > 0 {
      if s + i > 1 {
        PrefixEnds(l, p, s, i - 1);
      }
    } else {
      PrefixEnds(l, p, s - 1, p.count);
    }
  }

  lemma StartBuilding(l: Limits, p: Plan, tail: nat, r: Raw)
    requires Planned(l, p) && p.used > 0 && r == BlankRaw(l, tail, p.epoch).(words := Figures(l, p))
    ensures RawOk(r) && Building(l, p, tail, r, 0, 0, 0)
  {
    hide IdOf, Records;
  }

  lemma BuiltLinks(l: Limits, p: Plan, tail: nat, r: Raw)
    requires Building(l, p, tail, r, p.used, 0, p.used)
    ensures Linked(Prefix(l, p, p.used, 0), r.records, Records(l))
  {
    hide Bytes, Prefix, Records, Has, Chain;
  }

  lemma BuiltFigures(l: Limits, p: Plan, tail: nat, r: Raw)
    requires Building(l, p, tail, r, p.used, 0, p.used)
    ensures var items := Prefix(l, p, p.used, 0);
            && Bytes(items) == Copies(p.message, p.used)
            && |Bytes(items)| == p.used * |p.message| <= |r.payload| == l.arena
            && First(items, Records(l)) == r.words.first && Last(items, Records(l)) == r.words.last
            && r.words == Figures(l, p) && r.held == EMPTY && r.heads == Pages(l, p, p.used, 0)
            && r.output == Zeros(l.message)
            && r.payload == Zeros(l.arena)
  {
    PrefixBytes(l, p, p.used, 0);
    F.StartZero(|p.message|, p.unit);
    PrefixEnds(l, p, p.used - 1, p.count);
    hide Bytes, IdOf, Records, LinkedTo, F.Start, Pages;
    assert Prefix(l, p, p.used, 0) == Prefix(l, p, p.used - 1, p.count);
  }

  lemma PackedFront(items: seq<Item>, c: seq<byte>, n: nat)
    requires Bytes(items) == c && |c| <= n
    ensures Packed(items, Put(Zeros(n), 0, c), |c|)
  {
  }

  /** The finished fields stand for the packed contents. */
  lemma BuiltStands(l: Limits, p: Plan, tail: nat, r: Raw)
    requires Building(l, p, tail, r, p.used, 0, p.used)
    ensures p.used * |p.message| <= |r.payload|
    ensures Stands(l, r.(payload := Put(r.payload, 0, Copies(p.message, p.used))), Filled(l, p, p.used, 0))
  {
    BuiltLinks(l, p, tail, r);
    BuiltFigures(l, p, tail, r);
    PackedFront(Prefix(l, p, p.used, 0), Copies(p.message, p.used), l.arena);
    hide Bytes, Prefix, IdOf, Records, Linked, LinkedTo, Packed, First, Last, Pages, Put;
  }

  /** `used` slots packed with the parts of one message each; with the empty message, as
      many zero-length parts. */
  method Pack(l: Limits, p: Plan, tail: nat) returns (raw: array<byte>, ghost r: Raw)
    requires Planned(l, p) && p.used > 0
    ensures fresh(raw) && raw.Length == Bytewise(l, tail) && RawOk(r) && raw[..] == Encode(r)
    ensures r.tail == tail && Stands(l, r, Filled(l, p, p.used, 0))
  {
    assert p.count > 0 && p.base + p.used <= 256;
    hide Encode, Put, Building, Stands, EntryBytes, Records, WordBytes, Planned, Figures;
    raw, r := Fresh(l, tail, p.epoch);
    r := FrontWords(raw, r, l, p);
    StartBuilding(l, p, tail, r);
    for s := 0 to p.used
      invariant RawOk(r) && raw[..] == Encode(r) && Building(l, p, tail, r, s, 0, s)
    {
      r := Lay(raw, r, l, p, tail, s);
    }
    r := Pour(raw, r, l, p, tail);
  }

  method Pour(raw: array<byte>, ghost r: Raw, l: Limits, p: Plan, tail: nat) returns (ghost n: Raw)
    requires RawOk(r) && raw[..] == Encode(r) && Building(l, p, tail, r, p.used, 0, p.used) && p.base + p.used <= 256
    modifies raw
    ensures RawOk(n) && raw[..] == Encode(n) && n.tail == tail && Stands(l, n, Filled(l, p, p.used, 0))
  {
    hide Encode, Put, Building, Stands, Records, Figures;
    BuiltStands(l, p, tail, r);
    BuiltOffsets(l, p, tail, r);
    var c := Copies(p.message, p.used);
    PutPayload(r, c);
    Store(raw, 4096 + 1024 * l.slots + 10 * Records(l), c);
    n := r.(payload := Put(r.payload, 0, c));
  }

  lemma BuiltOffsets(l: Limits, p: Plan, tail: nat, r: Raw)
    requires Building(l, p, tail, r, p.used, 0, p.used)
    ensures PayloadAt(r) == 4096 + 1024 * l.slots + 10 * Records(l) && r.tail == tail && r.words == Figures(l, p)
  {
    hide LinkedTo, Prefix, Records;
  }

  // ---------------------------------------------------------------- a completed message

  /** The contents after a message under `ident` completed and nothing else is pending. */
  function Done(l: Limits, message: seq<byte>, ident: seq<byte>, parts: nat, epoch: nat, now: nat): Image
    requires |message| <= l.message
  {
    EmptyImage(l, epoch).(size := |message|, done := 1, clock := now, held := Page(ident, parts, epoch, now),
                          output := message + Zeros(l.message - |message|))
  }

  method Completed(l: Limits, message: seq<byte>, ident: seq<byte>, parts: nat, epoch: nat, now: nat, tail: nat)
      returns (raw: array<byte>, ghost r: Raw)
    requires |message| <= l.message && |ident| == 2
    ensures fresh(raw) && raw.Length == Bytewise(l, tail) && RawOk(r) && raw[..] == Encode(r)
    ensures r.tail == tail && Stands(l, r, Done(l, message, ident, parts, epoch, now))
  {
    hide Encode, Put, HeaderBytes, WordBytes, Records;
    raw, r := Fresh(l, tail, epoch);
    ghost var w := r.words.(size := |message|, done := 1);
    WordFields(r.words, |message|, 1);
    PutWords(r, 16, Le(|message|, 4) + Le(1, 4), w);
    Store(raw, 16, Le(|message|, 4) + Le(1, 4));
    r := r.(words := w);
    WordFields(w, now, 0);
    PutWords(r, 40, Le(now, 8), w.(clock := now));
    Store(raw, 40, Le(now, 8));
    r := r.(words := w.(clock := now));
    r := StampHeld(raw, r, ident, parts, epoch, now);
    PutOutput(r, message);
    Store(raw, 4096 + 1024 * l.slots + 10 * Records(l) + l.arena, message);
    r := r.(output := Put(r.output, 0, message));
    PutFront(l.message, message);
  }

  lemma PutFront(n: nat, b: seq<byte>)
    requires |b| <= n
    ensures Put(Zeros(n), 0, b) == b + Zeros(n - |b|)
  {
  }
}
