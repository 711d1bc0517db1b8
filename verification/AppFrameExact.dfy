/**
 Which texts the decoder accepts, and what it reads from them, written down with the grammar and
 the names in plain letters; and the text that the encoder writes.
 */
module AppFrameExact {
  import opened Common
  import opened JsonText
  import opened JsonGrammar
  import D = JsonDocument
  import opened AppFrame
  import opened AppFrameRound
  import opened AppFrameSound
  import H = Hex

  /** `x` spells the scalars `t`, one after another, each plain or escaped. */
  ghost predicate SpellsAll(x: seq<byte>, t: seq<nat>)
    decreases |t|
  {
    if t == [] then x == []
    else exists n :: 0 < n <= |x| && Spells(x[..n], t[0]) && SpellsAll(x[n..], t[1..])
  }

  lemma Cut(s: seq<byte>, at: nat, mid: nat, end: nat)
    requires at <= mid <= end <= |s|
    ensures s[at..end][..mid - at] == s[at..mid] && s[at..end][mid - at..] == s[mid..end]
  {
  }

  // ---------------------------------------------------------------- names

  lemma Names()
    ensures VERSION == Ascii("version") && IDENT == Ascii("messageId") && INDEX == Ascii("partIndex")
    ensures COUNT == Ascii("partCount") && PAYLOAD == Ascii("payload")
  {
  }

  lemma {:induction false} KeyExact(s: seq<byte>, at: nat, end: nat, name: seq<byte>, i: nat)
    requires at <= end <= |s| && i <= |name|
    ensures KeyIs(s, at, end, name, i) <==> SpellsAll(s[at..end], name[i..])
    decreases end - at
  {
    hide NextCharacter, Spells;
    if at < end && i < |name| {
      var x, t := s[at..end], NextCharacter(s, at, end);
      if KeyIs(s, at, end, name, i) {
        CharacterExact(s, at, t.next, end, name[i]);
        KeyExact(s, t.next, end, name, i + 1);
        Cut(s, at, t.next, end);
        assert name[i..][1..] == name[i + 1..];
      }
      if SpellsAll(x, name[i..]) {
        var n :| 0 < n <= |x| && Spells(x[..n], name[i..][0]) && SpellsAll(x[n..], name[i..][1..]);
        Cut(s, at, at + n, end);
        assert name[i..][1..] == name[i + 1..];
        CharacterExact(s, at, at + n, end, name[i]);
        KeyExact(s, at + n, end, name, i + 1);
      }
    }
  }

  /** The five names, 1 to 5. */
  function Title(k: nat): string {
    if k == 1 then "version" else if k == 2 then "messageId" else if k == 3 then "partIndex"
    else if k == 4 then "partCount" else "payload"
  }

  ghost predicate Titled(body: seq<byte>, name: string) { SpellsAll(body, Ascii(name)) }

  /** A body spells one text only. */
  lemma {:induction false} SpellsOnce(s: seq<byte>, at: nat, end: nat, t: seq<nat>, u: seq<nat>)
    requires at <= end <= |s| && SpellsAll(s[at..end], t) && SpellsAll(s[at..end], u)
    ensures t == u
    decreases end - at
  {
    hide Spells, NextCharacter;
    var x := s[at..end];
    if t != [] && u != [] {
      var n :| 0 < n <= |x| && Spells(x[..n], t[0]) && SpellsAll(x[n..], t[1..]);
      var m :| 0 < m <= |x| && Spells(x[..m], u[0]) && SpellsAll(x[m..], u[1..]);
      Cut(s, at, at + n, end);
      Cut(s, at, at + m, end);
      CharacterExact(s, at, at + n, end, t[0]);
      CharacterExact(s, at, at + m, end, u[0]);
      SpellsOnce(s, at + n, end, t[1..], u[1..]);
      assert t == [t[0]] + t[1..] && u == [u[0]] + u[1..];
    }
  }

  lemma KindExact(s: seq<byte>, at: nat, end: nat)
    requires at <= end <= |s|
    ensures var k := KeyKind(s, at, end);
            && (k > 0 ==> Titled(s[at..end], Title(k)))
            && (forall q :: 1 <= q <= 5 && Titled(s[at..end], Title(q)) ==> k == q)
  {
    hide KeyIs, SpellsAll, Ascii;
    Names();
    KeyExact(s, at, end, VERSION, 0);
    KeyExact(s, at, end, IDENT, 0);
    KeyExact(s, at, end, INDEX, 0);
    KeyExact(s, at, end, COUNT, 0);
    KeyExact(s, at, end, PAYLOAD, 0);
    assert VERSION[0..] == VERSION && IDENT[0..] == IDENT && INDEX[0..] == INDEX && COUNT[0..] == COUNT
           && PAYLOAD[0..] == PAYLOAD;
    forall q, p | 1 <= q <= 5 && 1 <= p <= 5 && Titled(s[at..end], Title(q)) && Titled(s[at..end], Title(p))
      ensures q == p
    {
      SpellsOnce(s, at, end, Ascii(Title(q)), Ascii(Title(p)));
      TitlesApart(q, p);
    }
  }

  lemma TitlesApart(q: nat, p: nat)
    requires 1 <= q <= 5 && 1 <= p <= 5 && Ascii(Title(q)) == Ascii(Title(p))
    ensures q == p
  {
    Names();
    hide Ascii;
    assert IDENT[4] != INDEX[4] && INDEX[4] != COUNT[4] && IDENT[0] != INDEX[0] && VERSION[0] != PAYLOAD[0];
  }

  // ---------------------------------------------------------------- members

  /** A member of the object: its name as written, its value, and where the value starts. */
  datatype Entry = Entry(name: seq<byte>, value: Value, start: nat)

  function Flat(items: Items, at: nat): seq<Entry> {
    match items
    case Nothing => []
    case Last(tag, value, _) => [Entry(NameIn(tag), value, at + |TagText(tag)|)]
    case More(tag, value, after, before, rest) =>
      var start := at + |TagText(tag)|;
      [Entry(NameIn(tag), value, start)] + Flat(rest, start + |Spelled(value)| + |after| + 1 + |before|)
  }

  function NameIn(tag: Tag): seq<byte> { if tag.Named? then tag.name else [] }

  function Kind(name: seq<byte>): nat { KeyKind(name, 0, |name|) }

  lemma KindLocal(s: seq<byte>, at: nat, end: nat)
    requires at <= end <= |s|
    ensures KeyKind(s, at, end) == Kind(s[at..end])
  {
    hide KeyKind, Titled;
    var x := s[at..end];
    KindExact(s, at, end);
    KindExact(x, 0, |x|);
    assert x[0..|x|] == x;
    KindRange(s, at, end);
    KindRange(x, 0, |x|);
  }

  lemma KindRange(s: seq<byte>, at: nat, end: nat)
    requires at <= end <= |s|
    ensures KeyKind(s, at, end) <= 5
  {
    hide KeyIs;
  }

  function SpanIn(e: Entry): Span { Span(e.start, e.start + |Spelled(e.value)|) }

  /** The span of every member that has one of the five names; nothing if one of them comes twice. */
  function Collect(list: seq<Entry>, found: map<nat, Span>): Option<map<nat, Span>> {
    if list == [] then Some(found)
    else
      var k := Kind(list[0].name);
      if k > 0 && k in found then None
      else Collect(list[1..], if k > 0 then found[k := SpanIn(list[0])] else found)
  }

  function Closed(s: seq<byte>, end: nat, c: Option<map<nat, Span>>): Option<map<nat, Span>> {
    if c.Some? && c.value.Keys == {1, 2, 3, 4, 5} && SkipSpace(s, end + 1) == |s| then c else None
  }

  function Noted(s: seq<byte>, at: nat, finish: nat, found: map<nat, Span>): map<nat, Span>
    requires TagEnd(s, at, true) >= 0
  {
    TagFacts(s, at);
    var k := KeyKind(s, at + 1, StringEnd(s, at + 1));
    if k > 0 then found[k := Span(TagEnd(s, at, true), finish)] else found
  }

  lemma MembersSteps(s: seq<byte>, at: nat, found: map<nat, Span>)
    requires Ordered(found) && TagEnd(s, at, true) >= 0 && ValueEnd(s, TagEnd(s, at, true), 1) >= 0
    ensures at + 1 <= StringEnd(s, at + 1) <= |s|
    ensures var k, finish := KeyKind(s, at + 1, StringEnd(s, at + 1)), ValueEnd(s, TagEnd(s, at, true), 1);
            var more, next := Noted(s, at, finish, found), SkipSpace(s, finish);
            && Ordered(more)
            && Members(s, at, found)
               == if k > 0 && k in found then None
                  else if B(s, next) == 125 then
                    (if more.Keys == {1, 2, 3, 4, 5} && SkipSpace(s, next + 1) == |s| then Some(more) else None)
                  else if B(s, next) == 44 then Members(s, SkipSpace(s, next + 1), more)
                  else None
  {
    hide SkipSpace, StringEnd, ValueEnd, KeyKind;
  }

  lemma MembersNeed(s: seq<byte>, at: nat, found: map<nat, Span>)
    requires Ordered(found) && Members(s, at, found).Some?
    ensures at < |s| && TagEnd(s, at, true) >= 0 && ValueEnd(s, TagEnd(s, at, true), 1) >= 0
  {
    hide SkipSpace, StringEnd, ValueEnd, KeyKind;
  }

  /** Where members are collected, the grammar finds an object's entries. */
  lemma {:induction false} MembersNext(s: seq<byte>, at: nat, found: map<nat, Span>)
    requires Ordered(found) && Members(s, at, found).Some?
    ensures at < |s| && Next(s, at, true, 1) >= 0
    decreases |s| - at
  {
    hide SkipSpace, StringEnd, ValueEnd, KeyKind, Members, Next, TagEnd, Noted;
    MembersNeed(s, at, found);
    MembersSteps(s, at, found);
    NextSteps(s, at, true, 1);
    var finish := ValueEnd(s, TagEnd(s, at, true), 1);
    var next := SkipSpace(s, finish);
    if B(s, next) == 44 {
      MembersNext(s, SkipSpace(s, next + 1), Noted(s, at, finish, found));
    }
  }

  lemma TagName(s: seq<byte>, at: nat, tag: Tag)
    requires Sits(s, at, TagText(tag)) && LegalTag(tag, true)
    ensures var end := at + 1 + |tag.name|;
            end < |s| && StringEnd(s, at + 1) == end && s[at + 1..end] == tag.name
  {
    hide StringEnd, Body, Blank, TagText;
    TagPlaces(s, at, tag);
    BodyComplete(s, at + 1, at + 1 + |tag.name|);
  }

  /** One entry read where it stands. */
  lemma EntryRead(s: seq<byte>, at: nat, items: Items)
    requires items != Nothing && LegalItems(items, true, 1) && Sits(s, at, Listed(items) + [125])
    ensures var mid := at + |TagText(items.tag)|;
            var finish := mid + |Spelled(items.value)|;
            var next := finish + |items.after|;
            && TagEnd(s, at, true) == mid && ValueEnd(s, mid, 1) == finish && SkipSpace(s, finish) == next
            && 0 <= StringEnd(s, at + 1) <= |s| && at < StringEnd(s, at + 1)
            && KeyKind(s, at + 1, StringEnd(s, at + 1)) == Kind(NameIn(items.tag))
            && B(s, next) == (if items.Last? then 125 else 44) && at + |Listed(items)| == next + |Tail(items)|
            && Sits(s, next, Tail(items) + [125]) && (items.Last? ==> |Tail(items)| == 0)
  {
    hide TagText, Spelled, Listed, Sits, SkipSpace, ValueEnd, TagEnd, Blank, Ends, Legal, LegalTag, Tail, StringEnd,
         KeyKind, Kind, White;
    EntryPlaces(s, at, items, 125);
    var mid := at + |TagText(items.tag)|;
    var finish := mid + |Spelled(items.value)|;
    ValueFirst(items.value, 1);
    SitsAt(s, mid, Spelled(items.value), 0);
    TagComplete(s, at, items.tag, true);
    TagKind(s, at, items.tag);
    AfterDark();
    SpaceThen(s, finish, items.after);
    if items.value.Number? {
      NotContinued(items.value.numeral, B(s, finish));
    }
    ValueComplete(s, mid, items.value, 1);
  }

  lemma AfterDark()
    ensures !White(125) && !White(44)
  {
  }

  lemma TagKind(s: seq<byte>, at: nat, tag: Tag)
    requires Sits(s, at, TagText(tag)) && LegalTag(tag, true)
    ensures 0 <= StringEnd(s, at + 1) <= |s| && at < StringEnd(s, at + 1)
    ensures KeyKind(s, at + 1, StringEnd(s, at + 1)) == Kind(NameIn(tag))
  {
    hide StringEnd, KeyKind, Kind, TagText, Sits;
    TagName(s, at, tag);
    KindLocal(s, at + 1, at + 1 + |tag.name|);
  }

  lemma CollectStep(e: Entry, rest: seq<Entry>, found: map<nat, Span>)
    ensures Collect([e] + rest, found)
         == if Kind(e.name) > 0 && Kind(e.name) in found then None
            else Collect(rest, if Kind(e.name) > 0 then found[Kind(e.name) := SpanIn(e)] else found)
  {
    hide Kind;
    assert ([e] + rest)[1..] == rest;
  }

  lemma FlatIs(items: Items, at: nat)
    requires items != Nothing && LegalItems(items, true, 1)
    ensures var start := at + |TagText(items.tag)|;
            var next := start + |Spelled(items.value)| + |items.after|;
            Flat(items, at) == [Entry(NameIn(items.tag), items.value, start)]
                               + (if items.Last? then [] else Flat(items.rest, next + 1 + |items.before|))
    ensures items.More? ==> items.rest != Nothing && LegalItems(items.rest, true, 1)
  {
    hide TagText, Spelled, NameIn, Legal, LegalTag, Blank;
  }

  lemma MembersLast(s: seq<byte>, at: nat, items: Items, found: map<nat, Span>)
    requires items.Last? && LegalItems(items, true, 1) && Sits(s, at, Listed(items) + [125]) && Ordered(found)
    ensures Members(s, at, found) == Closed(s, at + |Listed(items)|, Collect(Flat(items, at), found))
  {
    hide TagText, Spelled, Listed, Sits, SkipSpace, ValueEnd, TagEnd, Legal, LegalTag, Tail, StringEnd, KeyKind, Kind,
         Members, Collect, Flat;
    EntryRead(s, at, items);
    FlatIs(items, at);
    MembersSteps(s, at, found);
    var e := Entry(NameIn(items.tag), items.value, at + |TagText(items.tag)|);
    CollectStep(e, [], found);
    NoneCollected(Noted(s, at, ValueEnd(s, e.start, 1), found));
  }

  /** Reading members is collecting the entries that stand there. */
  lemma {:induction false} MembersAre(s: seq<byte>, at: nat, items: Items, found: map<nat, Span>)
    requires items != Nothing && LegalItems(items, true, 1) && Sits(s, at, Listed(items) + [125]) && Ordered(found)
    ensures Members(s, at, found) == Closed(s, at + |Listed(items)|, Collect(Flat(items, at), found))
    decreases items
  {
    hide TagText, Spelled, Listed, Sits, SkipSpace, ValueEnd, TagEnd, Legal, LegalTag, Tail, StringEnd, KeyKind, Kind,
         Members, Collect, Flat, Closed;
    if items.Last? {
      MembersLast(s, at, items, found);
    } else {
      EntryRead(s, at, items);
      FlatIs(items, at);
      MembersSteps(s, at, found);
      var e := Entry(NameIn(items.tag), items.value, at + |TagText(items.tag)|);
      var next := e.start + |Spelled(items.value)| + |items.after|;
      CollectStep(e, Flat(items.rest, next + 1 + |items.before|), found);
      RestPlaces(s, next, items, true, 1);
      NothingClosed(s);
      MembersAre(s, next + 1 + |items.before|, items.rest, Noted(s, at, ValueEnd(s, e.start, 1), found));
    }
  }

  lemma NothingClosed(s: seq<byte>)
    ensures forall end: nat :: Closed(s, end, None) == None
  {
    hide SkipSpace;
  }

  lemma NoneCollected(found: map<nat, Span>)
    ensures Collect([], found) == Some(found)
  {
  }

  // ---------------------------------------------------------------- every name exactly once

  /** Exactly one entry has the kind `k`, the one at `j`. */
  ghost predicate Only(list: seq<Entry>, k: nat, j: nat) {
    && j < |list| && Kind(list[j].name) == k
    && forall m :: 0 <= m < |list| && m != j ==> Kind(list[m].name) != k
  }

  /** No kind comes twice, nor one that was found before. */
  ghost predicate NoRepeat(list: seq<Entry>, found: map<nat, Span>) {
    && (forall j :: 0 <= j < |list| && Kind(list[j].name) > 0 ==> Kind(list[j].name) !in found)
    && forall j, m :: 0 <= j < m < |list| && Kind(list[j].name) > 0 ==> Kind(list[j].name) != Kind(list[m].name)
  }

  ghost predicate Gathered(list: seq<Entry>, found: map<nat, Span>, all: map<nat, Span>) {
    && (forall k :: k in found ==> k in all && all[k] == found[k])
    && (forall j :: 0 <= j < |list| && Kind(list[j].name) > 0 ==>
          Kind(list[j].name) in all && all[Kind(list[j].name)] == SpanIn(list[j]))
    && forall k :: k in all ==> k in found || (k > 0 && exists j :: 0 <= j < |list| && Kind(list[j].name) == k)
  }

  lemma {:induction false} CollectMeans(list: seq<Entry>, found: map<nat, Span>)
    ensures Collect(list, found).Some? <==> NoRepeat(list, found)
    ensures Collect(list, found).Some? ==> Gathered(list, found, Collect(list, found).value)
    decreases |list|
  {
    hide Kind;
    if list != [] {
      var e, rest, k := list[0], list[1..], Kind(list[0].name);
      var more := if k > 0 then found[k := SpanIn(e)] else found;
      CollectMeans(rest, more);
      RepeatStep(list, found, more);
      if k == 0 || k !in found {
        if Collect(rest, more).Some? {
          GatheredStep(list, found, more, Collect(rest, more).value);
        }
      }
    }
  }

  lemma RepeatStep(list: seq<Entry>, found: map<nat, Span>, more: map<nat, Span>)
    requires list != []
    requires more == if Kind(list[0].name) > 0 then found[Kind(list[0].name) := SpanIn(list[0])] else found
    ensures NoRepeat(list, found) <==>
              NoRepeat(list[1..], more) && (Kind(list[0].name) == 0 || Kind(list[0].name) !in found)
  {
    hide Kind;
    var rest := list[1..];
    assert forall j :: 0 <= j < |rest| ==> rest[j] == list[j + 1];
    if NoRepeat(rest, more) {
      forall j | 0 <= j < |list| && j > 0 && Kind(list[j].name) > 0
        ensures Kind(list[j].name) !in found && Kind(list[0].name) != Kind(list[j].name)
      {
        assert rest[j - 1] == list[j];
      }
      forall j, m | 0 < j < m < |list| && Kind(list[j].name) > 0
        ensures Kind(list[j].name) != Kind(list[m].name)
      {
        assert rest[j - 1] == list[j] && rest[m - 1] == list[m];
      }
    }
  }

  lemma GatheredStep(list: seq<Entry>, found: map<nat, Span>, more: map<nat, Span>, all: map<nat, Span>)
    requires list != []
    requires more == if Kind(list[0].name) > 0 then found[Kind(list[0].name) := SpanIn(list[0])] else found
    requires Gathered(list[1..], more, all) && (Kind(list[0].name) == 0 || Kind(list[0].name) !in found)
    ensures Gathered(list, found, all)
  {
    hide Kind, SpanIn;
    var rest, k := list[1..], Kind(list[0].name);
    forall j | 0 <= j < |list| && Kind(list[j].name) > 0
      ensures Kind(list[j].name) in all && all[Kind(list[j].name)] == SpanIn(list[j])
    {
      if j > 0 {
        assert rest[j - 1] == list[j];
      } else {
        assert k in more && more[k] == SpanIn(list[0]);
      }
    }
    forall q | q in all && q !in found
      ensures q > 0 && exists j :: 0 <= j < |list| && Kind(list[j].name) == q
    {
      if q in more {
        assert Kind(list[0].name) == q;
      } else {
        var j :| 0 <= j < |rest| && Kind(rest[j].name) == q;
        assert list[j + 1] == rest[j];
      }
    }
  }

  ghost predicate Once(list: seq<Entry>, k: nat) { exists j: nat :: Only(list, k, j) }

  /** All five are collected exactly when each of the five names comes exactly once. */
  lemma AllFive(list: seq<Entry>)
    ensures var c := Collect(list, map[]);
            (c.Some? && c.value.Keys == {1, 2, 3, 4, 5}) <==> forall k :: 1 <= k <= 5 ==> Once(list, k)
  {
    hide Kind, SpanIn, Collect;
    CollectMeans(list, map[]);
    var c := Collect(list, map[]);
    forall j | 0 <= j < |list|
      ensures Kind(list[j].name) <= 5
    {
      KindBound(list[j].name);
    }
    if c.Some? && c.value.Keys == {1, 2, 3, 4, 5} {
      forall k | 1 <= k <= 5
        ensures Once(list, k)
      {
        assert k in c.value;
        var j :| 0 <= j < |list| && Kind(list[j].name) == k;
        assert Only(list, k, j);
      }
    }
    if forall k :: 1 <= k <= 5 ==> Once(list, k) {
      NoneTwice(list);
      forall k | 1 <= k <= 5
        ensures k in c.value
      {
        assert Once(list, k);
        var j: nat :| Only(list, k, j);
      }
      assert c.value.Keys == {1, 2, 3, 4, 5};
    }
  }

  lemma NoneTwice(list: seq<Entry>)
    requires forall k :: 1 <= k <= 5 ==> Once(list, k)
    ensures NoRepeat(list, map[])
  {
    hide Kind;
    forall j, m | 0 <= j < m < |list| && Kind(list[j].name) > 0
      ensures Kind(list[j].name) != Kind(list[m].name)
    {
      KindBound(list[j].name);
      assert Once(list, Kind(list[j].name));
      var i: nat :| Only(list, Kind(list[j].name), i);
    }
  }

  /** And then the span of a name is that of its one entry. */
  lemma SpanOfOnly(list: seq<Entry>, k: nat, j: nat)
    requires Collect(list, map[]).Some? && 1 <= k && Only(list, k, j)
    ensures k in Collect(list, map[]).value && Collect(list, map[]).value[k] == SpanIn(list[j])
  {
    hide Kind, SpanIn, Collect;
    CollectMeans(list, map[]);
  }

  lemma KindBound(name: seq<byte>)
    ensures Kind(name) <= 5
  {
    KindRange(name, 0, |name|);
  }

  lemma KindTitle(name: seq<byte>, k: nat)
    requires 1 <= k <= 5
    ensures Kind(name) == k <==> Titled(name, Title(k))
  {
    hide KeyKind, Titled;
    KindExact(name, 0, |name|);
    assert name[0..|name|] == name;
  }

  /** Exactly one member is called `name`, and `v` is its value. */
  ghost predicate Field(list: seq<Entry>, name: string, v: Value) {
    exists j :: 0 <= j < |list| && Sole(list, name, j) && list[j].value == v
  }

  ghost predicate Sole(list: seq<Entry>, name: string, j: nat)
    requires j < |list|
  {
    && Titled(list[j].name, name)
    && forall m :: 0 <= m < |list| && m != j ==> !Titled(list[m].name, name)
  }

  lemma OnlySole(list: seq<Entry>, k: nat, j: nat)
    requires 1 <= k <= 5 && j < |list|
    ensures Only(list, k, j) <==> Sole(list, Title(k), j)
  {
    hide Kind, Titled, Title;
    forall m | 0 <= m < |list|
      ensures Kind(list[m].name) == k <==> Titled(list[m].name, Title(k))
    {
      KindTitle(list[m].name, k);
    }
  }

  // ---------------------------------------------------------------- where the values stand

  /** Every entry's value stands where the list says, and is legal there. */
  ghost predicate Standing(s: seq<byte>, list: seq<Entry>) {
    forall j :: 0 <= j < |list| ==> Sits(s, list[j].start, Spelled(list[j].value)) && Legal(list[j].value, 1)
  }

  lemma {:induction false} FlatStands(s: seq<byte>, at: nat, items: Items)
    requires LegalItems(items, true, 1) && items != Nothing && Sits(s, at, Listed(items) + [125])
    ensures Standing(s, Flat(items, at))
    decreases items
  {
    hide TagText, Spelled, Listed, Sits, Legal, LegalTag, Tail, Blank;
    EntryPlaces(s, at, items, 125);
    var next := at + |TagText(items.tag)| + |Spelled(items.value)| + |items.after|;
    if items.More? {
      RestPlaces(s, next, items, true, 1);
      FlatStands(s, next + 1 + |items.before|, items.rest);
    }
  }

  // ---------------------------------------------------------------- numbers

  lemma {:induction false} LoopSound(s: seq<byte>, at: nat, end: nat, limit: nat, value: nat)
    requires at <= end <= |s| && 0 < value <= limit && NaturalLoop(s, at, end, limit, value) >= 0
    ensures var n := NaturalLoop(s, at, end, limit, value); n <= limit && Decimal(n) == Decimal(value) + s[at..end]
    decreases end - at
  {
    if at == end {
      assert s[at..end] == [] && Decimal(value) + [] == Decimal(value);
    } else {
      var d: int := s[at] - 48;
      var more: nat := value * 10 + d;
      LoopStep(s, at, end, limit, value, d);
      hide NaturalLoop;
      LoopSound(s, at + 1, end, limit, more);
      DecimalAppend(value, d);
      CutOne(s, at, end);
      hide Decimal;
      assert Decimal(value) + [s[at]] + s[at + 1..end] == Decimal(value) + ([s[at]] + s[at + 1..end]);
    }
  }

  lemma DecimalAppend(value: nat, d: nat)
    requires value > 0 && d <= 9
    ensures Decimal(value * 10 + d) == Decimal(value) + [48 + d]
  {
    assert (value * 10 + d) / 10 == value && (value * 10 + d) % 10 == d;
  }

  /** A run of bytes reads as `n` exactly when it is the plain decimal of `n`, and `n` is small enough. */
  lemma NaturalExact(s: seq<byte>, at: nat, end: nat, limit: nat, n: nat)
    requires at <= end <= |s| && limit >= 1
    ensures NaturalValue(s, at, end, limit) == n <==> s[at..end] == Decimal(n) && n <= limit
  {
    if NaturalValue(s, at, end, limit) == n {
      NaturalSound(s, at, end, limit);
    }
    if s[at..end] == Decimal(n) && n <= limit {
      hide NaturalValue, Decimal;
      NumberReads(s, at, n, limit);
    }
  }

  lemma NaturalSound(s: seq<byte>, at: nat, end: nat, limit: nat)
    requires at <= end <= |s| && limit >= 1 && NaturalValue(s, at, end, limit) >= 0
    ensures var n := NaturalValue(s, at, end, limit); s[at..end] == Decimal(n) && n <= limit
  {
    var d: int := s[at] - 48;
    LoopStep(s, at, end, limit, 0, d);
    CutOne(s, at, end);
    assert [48 + d] == Decimal(d);
    if d == 0 {
      assert s[at + 1..end] == [];
    } else {
      LoopSound(s, at + 1, end, limit, d);
    }
  }

  // ---------------------------------------------------------------- spelled texts

  lemma SpellsFirst(x: seq<byte>, n: nat, t: seq<nat>)
    requires 0 < n <= |x| && t != [] && Spells(x[..n], t[0]) && SpellsAll(x[n..], t[1..])
    ensures SpellsAll(x, t)
  {
    hide Spells;
  }

  lemma {:induction false} SpellsJoin(x: seq<byte>, y: seq<byte>, t: seq<nat>, u: seq<nat>)
    requires SpellsAll(x, t) && SpellsAll(y, u)
    ensures SpellsAll(x + y, t + u)
    decreases |t|
  {
    hide Spells;
    if t == [] {
      assert x + y == y && t + u == u;
    } else {
      var n :| 0 < n <= |x| && Spells(x[..n], t[0]) && SpellsAll(x[n..], t[1..]);
      SpellsJoin(x[n..], y, t[1..], u);
      assert (x + y)[..n] == x[..n] && (x + y)[n..] == x[n..] + y && (t + u)[1..] == t[1..] + u;
      SpellsFirst(x + y, n, t + u);
    }
  }

  /** Where the first part of a spelled text ends. */
  lemma {:induction false} SpellsSplit(x: seq<byte>, t: seq<nat>, u: seq<nat>) returns (n: nat)
    requires SpellsAll(x, t + u)
    ensures n <= |x| && SpellsAll(x[..n], t) && SpellsAll(x[n..], u)
    decreases |t|
  {
    hide Spells;
    if t == [] {
      n := 0;
      assert t + u == u && x[0..] == x;
    } else {
      assert (t + u)[1..] == t[1..] + u && (t + u)[0] == t[0];
      var k :| 0 < k <= |x| && Spells(x[..k], t[0]) && SpellsAll(x[k..], (t + u)[1..]);
      var m := SpellsSplit(x[k..], t[1..], u);
      n := k + m;
      assert x[..n][..k] == x[..k] && x[..n][k..] == x[k..][..m] && x[n..] == x[k..][m..];
    }
  }

  function Units(t: seq<nat>): nat {
    if t == [] then 0 else (if t[0] > 65535 then 2 else 1) + Units(t[1..])
  }

  /** The UTF-8 of scalars, one after another. */
  function Utf8All(t: seq<nat>): seq<byte> {
    if t == [] then [] else (if t[0] < 0x110000 then Utf8(t[0]) else []) + Utf8All(t[1..])
  }

  lemma SpellsCons(s: seq<byte>, at: nat, mid: nat, end: nat, t: seq<nat>)
    requires at < mid <= end <= |s| && t != [] && Spells(s[at..mid], t[0]) && SpellsAll(s[mid..end], t[1..])
    ensures SpellsAll(s[at..end], t)
  {
    hide Spells;
    Cut(s, at, mid, end);
  }

  /** Counting reads some scalars; they are what the text spells. */
  lemma {:induction false} UnitsSound(s: seq<byte>, at: nat, end: nat) returns (t: seq<nat>)
    requires at <= end <= |s| && Utf16(s, at, end, false) >= 0
    ensures SpellsAll(s[at..end], t) && Utf16(s, at, end, false) == Units(t)
    decreases end - at
  {
    hide NextCharacter, Spells, SpellsAll;
    if at == end {
      t := [];
      AllRead(s, at, []);
    } else {
      var c := NextCharacter(s, at, end);
      var rest := UnitsSound(s, c.next, end);
      t := [c.scalar] + rest;
      CharacterExact(s, at, c.next, end, c.scalar);
      assert t[1..] == rest;
      SpellsCons(s, at, c.next, end, t);
    }
  }

  /** The first character of a spelled text, under any limit that leaves room for it. */
  lemma FirstCharacter(s: seq<byte>, at: nat, end: nat, limit: nat, t: seq<nat>) returns (n: nat)
    requires at <= end <= limit <= |s| && SpellsAll(s[at..end], t) && t != []
    ensures 0 < n && at + n <= end && NextCharacter(s, at, limit) == Char(at + n, t[0]) && t[0] < 0x110000
    ensures SpellsAll(s[at + n..end], t[1..])
  {
    hide NextCharacter, Spells;
    var x := s[at..end];
    n :| 0 < n <= |x| && Spells(x[..n], t[0]) && SpellsAll(x[n..], t[1..]);
    Cut(s, at, at + n, end);
    CharacterExact(s, at, at + n, limit, t[0]);
  }

  /** Counting and copying go on past a character. */
  lemma StepOver(s: seq<byte>, at: nat, next: nat, end: nat, v: nat, got: seq<byte>)
    requires at < next <= end <= |s| && NextCharacter(s, at, end) == Char(next, v) && v < 0x110000
    ensures Utf16(s, at, end, false)
         == if Utf16(s, next, end, false) < 0 then -1 else Utf16(s, next, end, false) + (if v > 65535 then 2 else 1)
    ensures IdentCopy(s, at, end, got) == if |got| > 640 then None else IdentCopy(s, next, end, got + Utf8(v))
  {
    hide NextCharacter, Utf8;
  }

  lemma TextStep(t: seq<nat>)
    requires t != [] && t[0] < 0x110000
    ensures Units(t) == (if t[0] > 65535 then 2 else 1) + Units(t[1..]) && Utf8All(t) == Utf8(t[0]) + Utf8All(t[1..])
  {
    hide Utf8;
  }

  lemma TextEnds(s: seq<byte>, at: nat, end: nat, got: seq<byte>)
    requires at <= end <= |s| && SpellsAll(s[at..end], [])
    ensures at == end && Utf16(s, at, end, false) == 0 == Units([]) && |Utf8All([])| == 0
    ensures IdentCopy(s, at, end, got) == Some(got)
  {
  }

  lemma {:induction false} UnitsComplete(s: seq<byte>, at: nat, end: nat, t: seq<nat>)
    requires at <= end <= |s| && SpellsAll(s[at..end], t)
    ensures Utf16(s, at, end, false) == Units(t)
    decreases |t|
  {
    hide NextCharacter, SpellsAll, Spells, Utf16, IdentCopy, Units, Utf8All, Utf8;
    if t == [] {
      TextEnds(s, at, end, []);
    } else {
      var n := FirstCharacter(s, at, end, end, t);
      UnitsComplete(s, at + n, end, t[1..]);
      StepOver(s, at, at + n, end, t[0], []);
      TextStep(t);
    }
  }

  lemma {:induction false} CopyExact(s: seq<byte>, at: nat, end: nat, got: seq<byte>, t: seq<nat>)
    requires at <= end <= |s| && SpellsAll(s[at..end], t)
    ensures IdentCopy(s, at, end, got).Some? ==> IdentCopy(s, at, end, got).value == got + Utf8All(t)
    ensures |got + Utf8All(t)| <= 640 ==> IdentCopy(s, at, end, got).Some?
    decreases |t|
  {
    hide NextCharacter, SpellsAll, Spells, Utf16, IdentCopy, Units, Utf8All, Utf8;
    if t == [] {
      TextEnds(s, at, end, got);
    } else {
      var n := FirstCharacter(s, at, end, end, t);
      CopyExact(s, at + n, end, got + Utf8(t[0]), t[1..]);
      StepOver(s, at, at + n, end, t[0], got);
      TextStep(t);
      assert got + Utf8(t[0]) + Utf8All(t[1..]) == got + Utf8All(t);
    }
  }

  /** The text of a string value, between its quotes. */
  lemma TextSpan(s: seq<byte>, at: nat, v: Value)
    requires Sits(s, at, Spelled(v)) && Legal(v, 1)
    ensures var end := at + |Spelled(v)|;
            && (v.Text? ==> at + 2 <= end <= |s| && s[at] == 34 && s[end - 1] == 34 && s[at + 1..end - 1] == v.body)
            && (!v.Text? ==> B(s, at) != 34)
  {
    hide Legal, LegalNumeral;
    if v.Text? {
      TextPlaces(s, at, v.body);
    } else {
      NoQuote(v);
      hide Spelled;
      SitsAt(s, at, Spelled(v), 0);
    }
  }

  lemma NoQuote(v: Value)
    requires Legal(v, 1) && !v.Text?
    ensures Spelled(v) != [] && Spelled(v)[0] != 34
  {
    ValueFirst(v, 1);
    hide NumeralText, LegalNumeral, Listed;
  }

  /** The identifier is read exactly from a string that spells it, within its limits. */
  ghost predicate Identifies(v: Value, ident: seq<byte>, units: int) {
    && v.Text? && 1 <= units <= 160 && 1 <= |ident| <= 640
    && exists t :: SpellsAll(v.body, t) && ident == Utf8All(t) && units == Units(t)
  }

  lemma IdentExact(s: seq<byte>, at: nat, v: Value, ident: seq<byte>, units: int)
    requires Sits(s, at, Spelled(v)) && Legal(v, 1)
    ensures IdentRead(s, Span(at, at + |Spelled(v)|)) == Some((ident, units)) <==> Identifies(v, ident, units)
  {
    hide Spelled, Legal, SpellsAll, Utf16, IdentCopy, Units, Utf8All;
    TextSpan(s, at, v);
    var end := at + |Spelled(v)|;
    if v.Text? {
      if IdentRead(s, Span(at, end)) == Some((ident, units)) {
        var t := UnitsSound(s, at + 1, end - 1);
        CopyExact(s, at + 1, end - 1, [], t);
        assert [] + Utf8All(t) == Utf8All(t);
      }
      if Identifies(v, ident, units) {
        var t :| SpellsAll(v.body, t) && ident == Utf8All(t) && units == Units(t);
        UnitsComplete(s, at + 1, end - 1, t);
        CopyExact(s, at + 1, end - 1, [], t);
        assert [] + Utf8All(t) == Utf8All(t);
      }
    }
  }

  // ---------------------------------------------------------------- payload

  predicate Below(v: seq<nat>) { forall k :: 0 <= k < |v| ==> v[k] < 128 }

  lemma QuartetStep(s: seq<byte>, at: nat, next: nat, end: nat, i: nat, c: nat)
    requires i < 4 && NextCharacter(s, at, end) == Char(next, c)
    ensures Quartet(s, at, end, i)
         == if c > 127 || Quartet(s, next, end, i + 1).NoFour? then NoFour
            else Four([c] + Quartet(s, next, end, i + 1).v, Quartet(s, next, end, i + 1).next)
  {
    hide NextCharacter;
  }

  lemma QuartetNeeds(s: seq<byte>, at: nat, end: nat, i: nat)
    requires i < 4 && Quartet(s, at, end, i).Four?
    ensures NextCharacter(s, at, end).Char? && NextCharacter(s, at, end).next <= Quartet(s, at, end, i).next
  {
    hide NextCharacter;
  }

  lemma QuartetEnds(s: seq<byte>, at: nat, end: nat, next: nat)
    requires at <= next <= end <= |s|
    ensures Quartet(s, at, end, 4) == Four([], next) <==> SpellsAll(s[at..next], [])
  {
  }

  lemma BelowStep(c: nat, v: seq<nat>)
    ensures Below([c] + v) <==> c < 128 && Below(v)
  {
    var w := [c] + v;
    assert w[0] == c;
    if Below(w) {
      forall k | 0 <= k < |v|
        ensures v[k] < 128
      {
        assert w[k + 1] == v[k];
      }
    }
  }

  /** Four characters are read exactly when the text spells them, each below 128. */
  lemma {:induction false} QuartetExact(s: seq<byte>, at: nat, end: nat, i: nat, v: seq<nat>, next: nat)
    requires i <= 4 && |v| == 4 - i && at <= next <= end <= |s|
    ensures Quartet(s, at, end, i) == Four(v, next) <==> SpellsAll(s[at..next], v) && Below(v)
    decreases 4 - i
  {
    hide NextCharacter, Spells, Quartet, SpellsAll, Below;
    if i == 4 {
      QuartetEnds(s, at, end, next);
      assert v == [];
      NothingAbove();
    } else {
      assert v == [v[0]] + v[1..];
      BelowStep(v[0], v[1..]);
      if Quartet(s, at, end, i) == Four(v, next) {
        QuartetNeeds(s, at, end, i);
        var t := NextCharacter(s, at, end);
        QuartetStep(s, at, t.next, end, i, t.scalar);
        QuartetExact(s, t.next, end, i + 1, v[1..], next);
        CharacterExact(s, at, t.next, end, t.scalar);
        SpellsCons(s, at, t.next, next, v);
      }
      if SpellsAll(s[at..next], v) && Below(v) {
        var n := FirstCharacter(s, at, next, end, v);
        QuartetStep(s, at, at + n, end, i, v[0]);
        QuartetExact(s, at + n, end, i + 1, v[1..], next);
      }
    }
  }

  lemma NothingAbove()
    ensures Below([])
  {
  }

  lemma PayloadStep(s: seq<byte>, at: nat, end: nat, got: seq<byte>)
    requires at < end <= |s| && Base64Read(s, at, end, got).Some?
    ensures var q := Quartet(s, at, end, 0);
            && q.Four? && |q.v| == 4 && at < q.next <= end
            && Group(q.v, q.next == end, |got|).Some?
            && Base64Read(s, at, end, got)
               == Base64Read(s, q.next, end, got + Group(q.v, q.next == end, |got|).value)
  {
    hide Quartet, Group;
  }

  lemma AllRead(s: seq<byte>, at: nat, got: seq<byte>)
    requires at <= |s|
    ensures Base64Read(s, at, at, got) == Some(got) && Base64(got[|got|..]) == s[at..at] == [] && got[..|got|] == got
    ensures SpellsAll([], [])
  {
  }

  /** What was read from a payload is what its text spells. */
  lemma {:induction false} Base64Sound(s: seq<byte>, at: nat, end: nat, got: seq<byte>)
    requires at <= end <= |s| && Base64Read(s, at, end, got).Some?
    ensures var out := Base64Read(s, at, end, got).value;
            |got| <= |out| && out[..|got|] == got && SpellsAll(s[at..end], Base64(out[|got|..]))
    decreases end - at
  {
    hide Quartet, Group, Quad, Base64Read, Base64, Codes, SpellsAll;
    if at == end {
      AllRead(s, at, got);
    } else {
      PayloadStep(s, at, end, got);
      var q := Quartet(s, at, end, 0);
      QuartetExact(s, at, end, 0, q.v, q.next);
      var w: seq<byte> := [q.v[0], q.v[1], q.v[2], q.v[3]];
      assert w == q.v;
      CodesAre(w);
      GroupCanonical(w, q.next == end, |got|);
      var g := Group(q.v, q.next == end, |got|).value;
      Base64Sound(s, q.next, end, got + g);
      var out := Base64Read(s, at, end, got).value;
      Middle(out, got, g);
      if q.next == end {
        AllRead(s, end, got + g);
      }
      Base64Join(g, out[|got + g|..]);
      SpellsJoin(s[at..q.next], s[q.next..end], w, Base64(out[|got + g|..]));
      assert s[at..end] == s[at..q.next] + s[q.next..end];
    }
  }

  lemma CodesAre(w: seq<byte>)
    requires |w| == 4
    ensures Codes(w) == w
  {
  }

  lemma GroupStep(s: seq<byte>, at: nat, next: nat, end: nat, v: seq<nat>, g: seq<byte>, got: seq<byte>)
    requires at < next <= end <= |s| && |v| == 4 && Quartet(s, at, end, 0) == Four(v, next)
    requires Group(v, next == end, |got|) == Some(g)
    ensures Base64Read(s, at, end, got) == Base64Read(s, next, end, got + g)
  {
    hide Quartet, Group;
  }

  lemma NoText(x: seq<byte>)
    requires SpellsAll(x, Base64([]))
    ensures x == []
  {
  }

  lemma SomeText(x: seq<byte>, q: seq<byte>)
    requires |q| == 4 && SpellsAll(x, q)
    ensures x != []
  {
    hide Spells;
  }

  /** However the base64 of `b` is spelled, it is read. */
  lemma {:induction false} Base64Complete(b: seq<byte>, s: seq<byte>, at: nat, end: nat, got: seq<byte>)
    requires at <= end <= |s| && SpellsAll(s[at..end], Base64(b)) && |got| + |b| <= 700
    ensures Base64Read(s, at, end, got) == Some(got + b)
    decreases |b|
  {
    hide Quartet, Group, Quad, Base64Read, Base64, Codes, SpellsAll;
    if b == [] {
      NoText(s[at..end]);
      NothingLeft(s, at, got);
    } else {
      var h, rest := if |b| <= 3 then b else b[..3], if |b| <= 3 then [] else b[3..];
      Base64Step(b, h, rest);
      var x := s[at..end];
      var n := SpellsSplit(x, Quad(h), Base64(rest));
      Cut(s, at, at + n, end);
      SomeText(x[..n], Quad(h));
      if rest == [] {
        NoText(x[n..]);
      }
      QuadPlain(h);
      CodesAre(Quad(h));
      QuartetExact(s, at, end, 0, Quad(h), at + n);
      GroupReads(h, at + n == end, |got|);
      GroupStep(s, at, at + n, end, Codes(Quad(h)), h, got);
      Base64Complete(rest, s, at + n, end, got + h);
      assert got + h + rest == got + b by {
        assert b == h + rest;
      }
    }
  }

  /** The payload is read exactly from a string that spells its base64, up to 700 bytes. */
  ghost predicate Encloses(v: Value, text: seq<byte>) {
    v.Text? && |text| <= 700 && SpellsAll(v.body, Base64(text))
  }

  lemma PayloadExact(s: seq<byte>, at: nat, v: Value, text: seq<byte>)
    requires Sits(s, at, Spelled(v)) && Legal(v, 1)
    ensures PayloadRead(s, Span(at, at + |Spelled(v)|)) == Some(text) <==> Encloses(v, text)
  {
    hide Spelled, Legal, SpellsAll, Base64, Base64Read;
    TextSpan(s, at, v);
    var end := at + |Spelled(v)|;
    if v.Text? {
      if PayloadRead(s, Span(at, end)) == Some(text) {
        Base64Sound(s, at + 1, end - 1, []);
        Base64Bound(s, at + 1, end - 1, []);
        assert text[0..] == text;
      }
      if Encloses(v, text) {
        Base64Complete(text, s, at + 1, end - 1, []);
        assert [] + text == text;
      }
    }
  }

  lemma NumeralExact(s: seq<byte>, at: nat, v: Value, limit: nat, n: nat)
    requires Sits(s, at, Spelled(v)) && limit >= 1
    ensures Natural(s, Span(at, at + |Spelled(v)|), limit) == n <==> Spelled(v) == Decimal(n) && n <= limit
  {
    hide Spelled, NaturalValue, Decimal;
    SitsInside(s, at, Spelled(v));
    NaturalExact(s, at, at + |Spelled(v)|, limit, n);
  }

  // ---------------------------------------------------------------- the whole object

  /** Where the members of an object start. */
  function Entries(v: Value, at: nat): seq<Entry>
    requires v.Object?
  {
    Flat(v.items, at + 1 + |v.pad|)
  }

  function Complete(c: Option<map<nat, Span>>): Option<map<nat, Span>> {
    if c.Some? && c.value.Keys == {1, 2, 3, 4, 5} then c else None
  }

  lemma FirstPlace(s: seq<byte>, v: Value, i: nat, j: nat)
    requires D.Holds(s, v, i, j) && v.Object? && v.items != Nothing
    ensures var at := i + 1 + |v.pad|;
            && SkipSpace(s, 0) == i && B(s, i) == 123 && SkipSpace(s, i + 1) == at && LegalItems(v.items, true, 1)
            && Sits(s, at, Listed(v.items) + [125]) && at + |Listed(v.items)| + 1 == j && SkipSpace(s, j) == |s|
  {
    hide Listed, SkipSpace, LegalItems, Spelled, Sits;
    WholeSits(s, i, j, Spelled(v));
    ContainerPlaces(s, i, v);
    ListedFirst(v.items, true, 1);
    StartMark(s, i + 1 + |v.pad|, v.items, true);
    SpaceThen(s, i + 1, v.pad);
    assert s[0..i] == s[..i] && s[j..|s|] == s[j..];
    SpaceComplete(s, 0, i);
    SpaceComplete(s, j, |s|);
  }

  lemma WholeSits(s: seq<byte>, i: nat, j: nat, x: seq<byte>)
    requires i <= j <= |s| && s[i..j] == x
    ensures Sits(s, i, x) && i + |x| == j
  {
  }

  /** An object that fills the text is read by collecting its entries. */
  lemma ParseIs(s: seq<byte>, v: Value, i: nat, j: nat)
    requires D.Holds(s, v, i, j) && v.Object? && v.items != Nothing
    ensures Parse(s) == Complete(Collect(Entries(v, i), map[])) && Standing(s, Entries(v, i))
  {
    hide D.Holds, Listed, SkipSpace, Members, Collect, Standing, Flat, LegalItems, Sits;
    FirstPlace(s, v, i, j);
    var at := i + 1 + |v.pad|;
    MembersAre(s, at, v.items, map[]);
    FlatStands(s, at, v.items);
  }

  /** What is read is such an object. */
  lemma ParseSound(s: seq<byte>) returns (v: Value, i: nat, j: nat)
    requires Parse(s).Some?
    ensures D.Holds(s, v, i, j) && v.Object? && v.items != Nothing
  {
    hide Listed, SkipSpace, Members, Collect, Flat, LegalItems, Spelled, Sits, Blank, Next;
    i := SkipSpace(s, 0);
    var at := SkipSpace(s, i + 1);
    MembersNext(s, at, map[]);
    SpaceSound(s, 0);
    SpaceSound(s, i + 1);
    var items := ItemsSound(s, at, true, 1);
    j := Next(s, at, true, 1);
    v := Object(s[i + 1..at], items);
    JoinContainer(s, i, at, j - 1, true, items);
    ItemsSit(s, at, j, items);
    MembersAre(s, at, items, map[]);
    SpaceSound(s, j);
    assert s[0..i] == s[..i] && s[j..|s|] == s[j..];
    ObjectLegal(v);
  }

  lemma ItemsSit(s: seq<byte>, at: nat, j: nat, items: Items)
    requires at < j <= |s| && s[at..j - 1] == Listed(items) && s[j - 1] == 125
    ensures Sits(s, at, Listed(items) + [125]) && at + |Listed(items)| + 1 == j
  {
    hide Listed;
    assert s[at..j] == s[at..j - 1] + [125];
  }

  lemma ObjectLegal(v: Value)
    requires v.Object? && Blank(v.pad) && LegalItems(v.items, true, 1)
    ensures Legal(v, 0)
  {
    hide Blank, LegalItems;
  }

  // ---------------------------------------------------------------- the fields

  /** What the members of an object say of a part. Other members may say anything. */
  ghost predicate Carries(list: seq<Entry>, r: Part) {
    && (exists v :: Field(list, "version", v) && Spelled(v) == Ascii("1"))
    && (exists v :: Field(list, "messageId", v) && Identifies(v, r.ident, r.units))
    && (exists v :: Field(list, "partIndex", v) && Spelled(v) == Decimal(r.index))
    && (exists v :: Field(list, "partCount", v) && Spelled(v) == Decimal(r.parts))
    && (exists v :: Field(list, "payload", v) && Encloses(v, r.text))
    && r.index < r.parts <= 2048
  }

  /** The name `k` has one entry: its value, and the span it was read from. */
  lemma TheField(s: seq<byte>, list: seq<Entry>, k: nat) returns (e: Entry)
    requires 1 <= k <= 5 && Once(list, k) && Standing(s, list) && Collect(list, map[]).Some?
    ensures Sits(s, e.start, Spelled(e.value)) && Legal(e.value, 1)
    ensures k in Collect(list, map[]).value && Collect(list, map[]).value[k] == SpanIn(e)
    ensures forall v :: Field(list, Title(k), v) <==> v == e.value
  {
    hide Kind, Titled, Title, Collect, Sits, Legal, Spelled;
    var j: nat :| Only(list, k, j);
    e := list[j];
    SpanOfOnly(list, k, j);
    OnlySole(list, k, j);
    forall v | Field(list, Title(k), v)
      ensures v == e.value
    {
      var m :| 0 <= m < |list| && Sole(list, Title(k), m) && list[m].value == v;
    }
  }

  lemma FieldOnce(list: seq<Entry>, k: nat, v: Value)
    requires 1 <= k <= 5 && Field(list, Title(k), v)
    ensures Once(list, k)
  {
    hide Kind, Titled, Title;
    var m :| 0 <= m < |list| && Sole(list, Title(k), m) && list[m].value == v;
    OnlySole(list, k, m);
  }

  lemma CarriesAll(list: seq<Entry>, r: Part)
    requires Carries(list, r)
    ensures forall k :: 1 <= k <= 5 ==> Once(list, k)
  {
    hide Field, Spelled, Decimal, Ascii, Identifies, Encloses, Once;
    Titles();
    hide Title;
    forall k | 1 <= k <= 5
      ensures Once(list, k)
    {
      var v :| Field(list, Title(k), v);
      FieldOnce(list, k, v);
    }
  }

  lemma Titles()
    ensures Title(1) == "version" && Title(2) == "messageId" && Title(3) == "partIndex" && Title(4) == "partCount"
    ensures Title(5) == "payload"
  {
  }

  lemma One()
    ensures Ascii("1") == Decimal(1)
  {
  }

  lemma DecodeSteps(s: seq<byte>, r: Part)
    requires |s| <= 65536 && Parse(s).Some?
    ensures var m := Parse(s).value;
            Decode(s) == Some(r) <==>
              && Natural(s, m[1], 1) == 1 && IdentRead(s, m[2]) == Some((r.ident, r.units))
              && Natural(s, m[3], 2047) == r.index && Natural(s, m[4], 2048) == r.parts
              && r.index < r.parts && PayloadRead(s, m[5]) == Some(r.text)
  {
    hide Parse, IdentRead, PayloadRead, Natural;
    assert forall p: Part :: p == Part(p.ident, p.units, p.index, p.parts, p.text);
  }

  lemma ReadExact(s: seq<byte>, v: Value, i: nat, j: nat, r: Part)
    requires D.Holds(s, v, i, j) && v.Object? && v.items != Nothing && |s| <= 65536
    ensures Decode(s) == Some(r) <==> Carries(Entries(v, i), r)
  {
    hide D.Holds, Parse, Decode, Collect, Standing, Entries, Spelled, Decimal, Ascii, Identifies, Encloses, Field, Once,
         Title, IdentRead, PayloadRead, Natural, Sits, Legal, SpanIn;
    var list := Entries(v, i);
    ParseIs(s, v, i, j);
    AllFive(list);
    if Carries(list, r) {
      CarriesAll(list, r);
    }
    if Parse(s).Some? {
      DecodeSteps(s, r);
      FieldsExact(s, list, r);
    } else {
      NothingParsed(s);
    }
  }

  lemma NothingParsed(s: seq<byte>)
    requires Parse(s).None?
    ensures Decode(s).None?
  {
    hide Parse;
  }

  lemma FieldsExact(s: seq<byte>, list: seq<Entry>, r: Part)
    requires Standing(s, list) && Collect(list, map[]).Some? && forall k :: 1 <= k <= 5 ==> Once(list, k)
    ensures forall k :: 1 <= k <= 5 ==> k in Collect(list, map[]).value
    ensures var m := Collect(list, map[]).value;
            Carries(list, r) <==>
              && Natural(s, m[1], 1) == 1 && IdentRead(s, m[2]) == Some((r.ident, r.units))
              && Natural(s, m[3], 2047) == r.index && Natural(s, m[4], 2048) == r.parts
              && r.index < r.parts && PayloadRead(s, m[5]) == Some(r.text)
  {
    hide Collect, Standing, Spelled, Decimal, Ascii, Identifies, Encloses, Field, Once, Title, IdentRead, PayloadRead,
         Natural, Sits, Legal;
    Titles();
    One();
    var a := TheField(s, list, 1);
    var b := TheField(s, list, 2);
    var c := TheField(s, list, 3);
    var d := TheField(s, list, 4);
    var e := TheField(s, list, 5);
    NumeralExact(s, a.start, a.value, 1, 1);
    IdentExact(s, b.start, b.value, r.ident, r.units);
    NumeralExact(s, c.start, c.value, 2047, r.index);
    NumeralExact(s, d.start, d.value, 2048, r.parts);
    PayloadExact(s, e.start, e.value, r.text);
  }

  /** A text decodes to a part exactly when it is one object with space around it, of at most 65536
      bytes, and the members with the five names, each there once, say so. */
  lemma DecodeExact(s: seq<byte>, r: Part)
    ensures Decode(s) == Some(r) <==>
              && |s| <= 65536
              && exists v, i, j :: D.Holds(s, v, i, j) && v.Object? && Carries(Entries(v, i), r)
  {
    hide D.Holds, Parse, Carries, Entries;
    if Decode(s) == Some(r) {
      DecodedParses(s);
      var v, i, j := ParseSound(s);
      ReadExact(s, v, i, j, r);
    }
    if |s| <= 65536 && exists v, i, j :: D.Holds(s, v, i, j) && v.Object? && Carries(Entries(v, i), r) {
      var v, i, j :| D.Holds(s, v, i, j) && v.Object? && Carries(Entries(v, i), r);
      SomethingCarries(v, i, r);
      ReadExact(s, v, i, j, r);
    }
  }

  lemma DecodedParses(s: seq<byte>)
    requires Decode(s).Some?
    ensures |s| <= 65536 && Parse(s).Some?
  {
    hide Parse;
  }

  lemma SomethingCarries(v: Value, i: nat, r: Part)
    requires v.Object? && Carries(Entries(v, i), r)
    ensures v.items != Nothing
  {
    hide Spelled, Decimal, Ascii, Identifies, Encloses;
  }

  // ---------------------------------------------------------------- the text that is written

  lemma OpenVersion()
    ensures Ascii("{\"version\":1,") == [123] + Member(VERSION, [49]) + [44]
  {
  }

  lemma OpenIdent()
    ensures Ascii("\"messageId\":\"") == Member(IDENT, [34])
  {
  }

  lemma Middles()
    ensures Ascii("\",\"partIndex\":") == [34] + [44] + Member(INDEX, [])
    ensures Ascii(",\"partCount\":") == [44] + Member(COUNT, [])
  {
  }

  lemma Endings()
    ensures Ascii(",\"payload\":\"") == [44] + Member(PAYLOAD, [34]) && Ascii("\"}") == [34] + [125]
  {
  }

  lemma MemberOpens(name: seq<byte>, t: seq<byte>)
    ensures Member(name, Quoted(t)) == Member(name, [34]) + t + [34] && Member(name, t) == Member(name, []) + t
  {
  }

  lemma Weave(h: seq<byte>, n2: seq<byte>, n3: seq<byte>, n4: seq<byte>, n5: seq<byte>, e: seq<byte>, d: seq<byte>,
              p: seq<byte>, t: seq<byte>)
    ensures h + [44] + (n2 + e + [34]) + [44] + (n3 + d) + [44] + (n4 + p) + [44] + (n5 + t + [34]) + [125]
         == (h + [44] + n2) + e + ([34] + [44] + n3) + d + ([44] + n4) + p + ([44] + n5) + t + ([34] + [125])
  {
    assert h + [44] + (n2 + e + [34]) + [44] + (n3 + d) == (h + [44] + n2) + e + ([34] + [44] + n3) + d;
  }

  /** The encoded text, letter by letter. */
  lemma EncodeExact(r: Part)
    ensures Encode(r)
         == Ascii("{\"version\":1,") + Ascii("\"messageId\":\"") + Escape(r.ident)
            + Ascii("\",\"partIndex\":") + Decimal(r.index) + Ascii(",\"partCount\":") + Decimal(r.parts)
            + Ascii(",\"payload\":\"") + Base64(r.text) + Ascii("\"}")
  {
    hide Escape, Decimal, Base64, Ascii, Member, Quoted;
    OpenVersion();
    OpenIdent();
    Middles();
    Endings();
    MemberOpens(IDENT, Escape(r.ident));
    MemberOpens(INDEX, Decimal(r.index));
    MemberOpens(COUNT, Decimal(r.parts));
    MemberOpens(PAYLOAD, Base64(r.text));
    Weave([123] + Member(VERSION, [49]), Member(IDENT, [34]), Member(INDEX, []), Member(COUNT, []),
          Member(PAYLOAD, [34]), Escape(r.ident), Decimal(r.index), Decimal(r.parts), Base64(r.text));
  }

  /** Every byte below 128 is written in the shortest way that the grammar allows it. */
  lemma EscapeShortest(v: byte, x: seq<byte>)
    requires v < 128 && Spells(x, v) && x[0] >= 32 && x[0] != 34
    ensures Spells(Escape([v]), v) && |Escape([v])| <= |x|
  {
    OneEscape(v);
    H.DigitIs(v / 16);
    H.DigitIs(v % 16);
  }

  /** The letter of a number below 64: A to Z, a to z, 0 to 9, + and /. */
  predicate Stands(c: byte, v: nat) {
    if v < 26 then c == 'A' as int + v else if v < 52 then c == 'a' as int + (v - 26)
    else if v < 62 then c == '0' as int + (v - 52) else c == (if v == 62 then '+' else '/') as int
  }

  lemma LetterStands(v: nat)
    requires v < 64
    ensures Stands(Letter(v), v)
  {
  }

  lemma QuadLetters(b: seq<byte>)
    requires 1 <= |b| <= 3
    ensures var a: int, c: int, d: int := b[0], if |b| > 1 then b[1] else 0, if |b| > 2 then b[2] else 0;
            && Base64(b) == Quad(b) && |Base64(b)| == 4 && Stands(Base64(b)[0], a / 4)
            && Stands(Base64(b)[1], a % 4 * 16 + c / 16)
            && (if |b| > 1 then Stands(Base64(b)[2], c % 16 * 4 + d / 64) else Base64(b)[2] == '=' as int)
            && (if |b| > 2 then Stands(Base64(b)[3], d % 64) else Base64(b)[3] == '=' as int)
  {
    hide Letter, Stands;
    var a: int, c: int, d: int := b[0], if |b| > 1 then b[1] else 0, if |b| > 2 then b[2] else 0;
    QuadArithmetic(a, c, d);
    LetterStands(a / 4);
    LetterStands(a % 4 * 16 + c / 16);
    LetterStands(c % 16 * 4 + d / 64);
    LetterStands(d % 64);
  }

  lemma SameNumber(a: nat, c: nat, d: nat, i: nat, j: nat, k: nat, l: nat)
    requires a < 256 && c < 256 && d < 256 && i < 64 && j < 64 && k < 64 && l < 64
    requires i * 262144 + j * 4096 + k * 64 + l == a * 65536 + c * 256 + d
    ensures i == a / 4 && j == a % 4 * 16 + c / 16 && k == c % 16 * 4 + d / 64 && l == d % 64
  {
  }

  /** Up to three bytes, the missing ones zero, are one number; its four digits in base 64 are the
      letters, with padding for the missing bytes. */
  lemma QuadMeans(b: seq<byte>, i: nat, j: nat, k: nat, l: nat)
    requires 1 <= |b| <= 3 && i < 64 && j < 64 && k < 64 && l < 64
    requires var a: int, c: int, d: int := b[0], if |b| > 1 then b[1] else 0, if |b| > 2 then b[2] else 0;
             i * 262144 + j * 4096 + k * 64 + l == a * 65536 + c * 256 + d
    ensures var t := Base64(b);
            && |t| == 4 && Stands(t[0], i) && Stands(t[1], j)
            && (if |b| > 1 then Stands(t[2], k) else t[2] == '=' as int)
            && (if |b| > 2 then Stands(t[3], l) else t[3] == '=' as int)
  {
    hide Stands, Base64, Quad;
    QuadLetters(b);
    var a: int, c: int, d: int := b[0], if |b| > 1 then b[1] else 0, if |b| > 2 then b[2] else 0;
    SameNumber(a, c, d, i, j, k, l);
  }

  /** Base64 goes on from any number of whole groups. */
  lemma {:induction false} Base64Appends(a: seq<byte>, b: seq<byte>)
    requires |a| % 3 == 0
    ensures Base64(a + b) == Base64(a) + Base64(b)
    decreases |a|
  {
    hide Quad, Base64;
    if a == [] {
      assert a + b == b;
      NothingLeft([], 0, []);
    } else {
      var g := a[..3];
      Base64Appends(a[3..], b);
      Base64Join(g, a[3..]);
      Base64Join(g, a[3..] + b);
      assert a == g + a[3..] && a + b == g + (a[3..] + b);
    }
  }
}
