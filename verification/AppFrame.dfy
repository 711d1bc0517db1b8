/**
 The application frame codec: one message part as a JSON object, and back. The identifier is
 UTF-8 text with escapes, the payload canonical base64, the numbers plain decimals.
 */
module AppFrame {
  import opened Common
  import opened JsonText
  import H = Hex

  datatype Part = Part(ident: seq<byte>, units: int, index: nat, parts: nat, text: seq<byte>)

  const VERSION: seq<byte> := [118, 101, 114, 115, 105, 111, 110]
  const IDENT: seq<byte> := [109, 101, 115, 115, 97, 103, 101, 73, 100]
  const INDEX: seq<byte> := [112, 97, 114, 116, 73, 110, 100, 101, 120]
  const COUNT: seq<byte> := [112, 97, 114, 116, 67, 111, 117, 110, 116]
  const PAYLOAD: seq<byte> := [112, 97, 121, 108, 111, 97, 100]

  /** What the encoder demands of a record. */
  predicate Valid(r: Part) {
    && 1 <= |r.ident| <= 640 && 1 <= r.units <= 160 && Utf16(r.ident, 0, |r.ident|, true) == r.units
    && 0 < r.parts <= 2048 && r.index < r.parts && |r.text| <= 700
  }

  // ---------------------------------------------------------------- writing

  /** One identifier byte as string text. */
  function EscapeByte(v: byte): (e: seq<byte>)
    ensures 1 <= |e| <= 6
  {
    if v == 34 || v == 92 then [92, v]
    else if v == 8 then [92, 98]
    else if v == 9 then [92, 116]
    else if v == 10 then [92, 110]
    else if v == 12 then [92, 102]
    else if v == 13 then [92, 114]
    else if v < 32 then [92, 117, 48, 48, H.HexDigit(v / 16), H.HexDigit(v % 16)]
    else [v]
  }

  function Escape(s: seq<byte>): (e: seq<byte>)
    ensures |e| <= 6 * |s|
  {
    if s == [] then [] else EscapeByte(s[0]) + Escape(s[1..])
  }

  function Letter(v: nat): byte
    requires v < 64
  {
    if v < 26 then 65 + v else if v < 52 then 71 + v else if v < 62 then v - 4 else if v == 62 then 43 else 47
  }

  /** Up to three bytes as four characters. */
  function Quad(b: seq<byte>): (q: seq<byte>)
    requires |b| > 0
    ensures |q| == 4
  {
    var a: int, c: int, d: int := b[0], if |b| > 1 then b[1] else 0, if |b| > 2 then b[2] else 0;
    [Letter(a / 4), Letter(a % 4 * 16 + c / 16), if |b| > 1 then Letter(c % 16 * 4 + d / 64) else 61,
     if |b| > 2 then Letter(d % 64) else 61]
  }

  function Base64(b: seq<byte>): (t: seq<byte>)
    ensures |t| == (|b| + 2) / 3 * 4
  {
    if |b| == 0 then [] else if |b| <= 3 then Quad(b) else Quad(b[..3]) + Base64(b[3..])
  }

  /** `"name":value` */
  function Member(name: seq<byte>, value: seq<byte>): seq<byte> { [34] + name + [34, 58] + value }

  function Quoted(t: seq<byte>): seq<byte> { [34] + t + [34] }

  /** The name of each member, 1 to 5. */
  function NameOf(kind: nat): seq<byte> {
    if kind == 1 then VERSION else if kind == 2 then IDENT else if kind == 3 then INDEX else if kind == 4 then COUNT
        else PAYLOAD
  }

  function ValueOf(r: Part, kind: nat): seq<byte> {
    if kind == 1 then [49] else if kind == 2 then Quoted(Escape(r.ident)) else if kind == 3 then Decimal(r.index)
    else if kind == 4 then Decimal(r.parts) else Quoted(Base64(r.text))
  }

  function MemberOf(r: Part, kind: nat): seq<byte> { Member(NameOf(kind), ValueOf(r, kind)) }

  function Encode(r: Part): seq<byte> {
    [123] + MemberOf(r, 1) + [44] + MemberOf(r, 2) + [44] + MemberOf(r, 3) + [44] + MemberOf(r, 4) + [44]
    + MemberOf(r, 5) + [125]
  }

  // ---------------------------------------------------------------- reading

  /** The string text from `at` to `end`, from its `i`th character on, spells `name`. */
  predicate KeyIs(s: seq<byte>, at: nat, end: nat, name: seq<byte>, i: nat)
    requires at <= end <= |s| && i <= |name|
    decreases end - at
  {
    if at == end then i == |name|
    else if i == |name| then false
    else
      var t := NextCharacter(s, at, end);
      t.Char? && t.scalar == name[i] && KeyIs(s, t.next, end, name, i + 1)
  }

  /** 1 to 5 for the names that matter, otherwise 0. */
  function KeyKind(s: seq<byte>, at: nat, end: nat): (k: nat)
    requires at <= end <= |s|
    ensures k <= 5
  {
    if KeyIs(s, at, end, VERSION, 0) then 1 else if KeyIs(s, at, end, IDENT, 0) then 2
    else if KeyIs(s, at, end, INDEX, 0) then 3 else if KeyIs(s, at, end, COUNT, 0) then 4
    else if KeyIs(s, at, end, PAYLOAD, 0) then 5 else 0
  }

  datatype Span = Span(start: nat, end: nat)

  ghost predicate Ordered(found: map<nat, Span>) { forall k :: k in found ==> found[k].start < found[k].end }

  /** The members of the object from `at` on: every name that matters exactly once, then nothing
      but space. Members with other names are only passed over. */
  function Members(s: seq<byte>, at: nat, found: map<nat, Span>): (r: Option<map<nat, Span>>)
    requires Ordered(found)
    ensures r.Some? ==> r.value.Keys == {1, 2, 3, 4, 5} && Ordered(r.value)
    decreases |s| - at
  {
    if B(s, at) != QUOTE then None
    else
      var keyEnd := StringEnd(s, at + 1);
      if keyEnd < 0 then None
      else
        var kind, colon := KeyKind(s, at + 1, keyEnd), SkipSpace(s, keyEnd + 1);
        if B(s, colon) != 58 || (kind > 0 && kind in found) then None
        else
          var start := SkipSpace(s, colon + 1);
          var end := ValueEnd(s, start, 1);
          if end < 0 then None
          else
            var more, next := if kind > 0 then found[kind := Span(start, end)] else found, SkipSpace(s, end);
            if B(s, next) == 125 then
              if more.Keys == {1, 2, 3, 4, 5} && SkipSpace(s, next + 1) == |s| then Some(more) else None
            else if B(s, next) == 44 then Members(s, SkipSpace(s, next + 1), more)
            else None
  }

  function Parse(s: seq<byte>): (r: Option<map<nat, Span>>)
    ensures r.Some? ==> r.value.Keys == {1, 2, 3, 4, 5} && Ordered(r.value)
  {
    var start := SkipSpace(s, 0);
    if B(s, start) == 123 then Members(s, SkipSpace(s, start + 1), map[]) else None
  }

  /** The scalars from `at` to `end` written out again, in at most 640 bytes. */
  function IdentCopy(s: seq<byte>, at: nat, end: nat, got: seq<byte>): Option<seq<byte>>
    requires at <= end <= |s|
    decreases end - at
  {
    if at == end then Some(got)
    else
      var t := NextCharacter(s, at, end);
      if t.Bad? || |got| + 4 > 644 then None else IdentCopy(s, t.next, end, got + Utf8(t.scalar))
  }

  function IdentRead(s: seq<byte>, p: Span): Option<(seq<byte>, int)> {
    if !(p.start + 2 <= p.end <= |s| && B(s, p.start) == QUOTE && B(s, p.end - 1) == QUOTE) then None
    else
      var units := Utf16(s, p.start + 1, p.end - 1, false);
      if !(1 <= units <= 160) then None
      else
        var got := IdentCopy(s, p.start + 1, p.end - 1, []);
        if got.Some? && 0 < |got.value| <= 640 then Some((got.value, units)) else None
  }

  function Sextet(v: int): (x: int)
    ensures -1 <= x < 64
  {
    if 65 <= v <= 90 then v - 65 else if 97 <= v <= 122 then v - 71 else if 48 <= v <= 57 then v + 4
    else if v == 43 then 62 else if v == 47 then 63 else -1
  }

  datatype Four = NoFour | Four(v: seq<nat>, next: nat)

  /** Four characters, each below 128. */
  function Quartet(s: seq<byte>, at: nat, end: nat, i: nat): (r: Four)
    requires i <= 4
    ensures r.Four? ==> |r.v| == 4 - i && (if i == 4 then r.next == at else at < r.next <= end <= |s|)
    decreases 4 - i
  {
    if i == 4 then Four([], at)
    else
      var t := NextCharacter(s, at, end);
      if t.Bad? || t.scalar > 127 then NoFour
      else
        var rest := Quartet(s, t.next, end, i + 1);
        if rest.NoFour? then NoFour else Four([t.scalar] + rest.v, rest.next)
  }

  /** What a group adds; unused bits must be zero and padding may only end the text. */
  function Group(v: seq<nat>, last: bool, pos: nat): (r: Option<seq<byte>>)
    requires |v| == 4
    ensures r.Some? ==> 1 <= |r.value| <= 3 && pos + |r.value| <= 700
  {
    var a, b, c, d := Sextet(v[0]), Sextet(v[1]), Sextet(v[2]), Sextet(v[3]);
    if a < 0 || b < 0 then None
    else if v[2] == 61 then
      if last && v[3] == 61 && b % 16 == 0 && pos < 700 then Some([a * 4 + b / 16]) else None
    else if c < 0 then None
    else if v[3] == 61 then
      if last && c % 4 == 0 && pos + 2 <= 700 then Some([a * 4 + b / 16, b % 16 * 16 + c / 4]) else None
    else if d >= 0 && pos + 3 <= 700 then Some([a * 4 + b / 16, b % 16 * 16 + c / 4, c % 4 * 64 + d])
    else None
  }

  function Base64Read(s: seq<byte>, at: nat, end: nat, got: seq<byte>): Option<seq<byte>>
    requires at <= end <= |s|
    decreases end - at
  {
    if at == end then Some(got)
    else
      var q := Quartet(s, at, end, 0);
      if q.NoFour? then None
      else
        var g := Group(q.v, q.next == end, |got|);
        if g.None? then None else Base64Read(s, q.next, end, got + g.value)
  }

  function PayloadRead(s: seq<byte>, p: Span): Option<seq<byte>> {
    if p.start + 2 <= p.end <= |s| && B(s, p.start) == QUOTE && B(s, p.end - 1) == QUOTE
    then Base64Read(s, p.start + 1, p.end - 1, []) else None
  }

  function Natural(s: seq<byte>, p: Span, limit: nat): (n: int)
    ensures n == -1 || 0 <= n
  {
    if p.start <= p.end <= |s| then NaturalValue(s, p.start, p.end, limit) else -1
  }

  function Decode(s: seq<byte>): Option<Part> {
    if |s| > 65536 then None
    else
      var m := Parse(s);
      if m.None? || Natural(s, m.value[1], 1) != 1 then None
      else
        var id := IdentRead(s, m.value[2]);
        if id.None? then None
        else
          var index, parts, text := Natural(s, m.value[3], 2047), Natural(s, m.value[4], 2048),
              PayloadRead(s, m.value[5]);
          if index >= 0 && parts > 0 && index < parts && text.Some?
          then Some(Part(id.value.0, id.value.1, index, parts, text.value)) else None
  }
}
