/** The encoder in place: the text is written byte by byte into a private work area, copied
    out if it fits the caller's buffer, and the work area is wiped whatever happens. */
module AppFrameBuffer {
  import opened Common
  import opened JsonText
  import opened AppFrame
  import AR = AppFrameRound
  import H = Hex

  const WORK: nat := 8192

  /** `text` written at `at`; what stood before it stays. */
  twostate predicate Wrote(work: array<byte>, at: nat, text: seq<byte>)
    reads work
  {
    at + |text| <= work.Length && work[..at + |text|] == old(work[..at]) + text
  }

  method Fixed(work: array<byte>, at: nat, text: seq<byte>) returns (next: nat)
    requires at + |text| <= work.Length
    modifies work
    ensures next == at + |text| && Wrote(work, at, text)
  {
    for i := 0 to |text|
      invariant work[..at + i] == old(work[..at]) + text[..i]
    {
      work[at + i] := text[i];
    }
    assert text[..|text|] == text;
    next := at + |text|;
  }

  method EscapeOne(work: array<byte>, at: nat, v: byte) returns (next: nat)
    requires at + |EscapeByte(v)| <= work.Length
    modifies work
    ensures next == at + |EscapeByte(v)| && Wrote(work, at, EscapeByte(v))
  {
    if v == 34 || v == 92 {
      next := Fixed(work, at, [92, v]);
    } else if v == 8 || v == 9 || v == 10 || v == 12 || v == 13 {
      next := Fixed(work, at, [92, if v == 8 then 98 else if v == 9 then 116 else if v == 10 then 110
                                   else if v == 12 then 102 else 114]);
    } else if v < 32 {
      next := Fixed(work, at, [92, 117, 48, 48, H.HexDigit(v / 16), H.HexDigit(v % 16)]);
    } else {
      next := Fixed(work, at, [v]);
    }
  }

  method EscapeId(work: array<byte>, at: nat, ident: seq<byte>) returns (next: nat)
    requires at + |Escape(ident)| <= work.Length
    modifies work
    ensures next == at + |Escape(ident)| && Wrote(work, at, Escape(ident))
  {
    hide EscapeByte;
    next := at;
    var i := 0;
    assert ident[..0] == [] && old(work[..at]) + [] == old(work[..at]);
    while i < |ident|
      invariant 0 <= i <= |ident| && next == at + |Escape(ident[..i])| <= work.Length
      invariant work[..next] == old(work[..at]) + Escape(ident[..i])
    {
      hide Escape;
      StillFits(ident, i);
      next := EscapeOne(work, next, ident[i]);
      i := i + 1;
    }
    assert ident[..i] == ident;
  }

  lemma StillFits(ident: seq<byte>, i: nat)
    requires i < |ident|
    ensures Escape(ident[..i + 1]) == Escape(ident[..i]) + EscapeByte(ident[i])
    ensures |Escape(ident[..i + 1])| <= |Escape(ident)|
  {
    AR.EscapeAppend(ident[..i], [ident[i]]);
    AR.OneEscape(ident[i]);
    assert ident[..i + 1] == ident[..i] + [ident[i]];
    AR.EscapeAppend(ident[..i + 1], ident[i + 1..]);
    assert ident == ident[..i + 1] + ident[i + 1..];
  }

  method DecimalOut(work: array<byte>, at: nat, n: nat) returns (next: nat)
    requires at + |Decimal(n)| <= work.Length
    modifies work
    ensures next == at + |Decimal(n)| && Wrote(work, at, Decimal(n))
  {
    if n < 10 {
      next := Fixed(work, at, [48 + n]);
    } else {
      var mid := DecimalOut(work, at, n / 10);
      next := Fixed(work, mid, [48 + n % 10]);
    }
  }

  /** Four characters for the next one to three bytes. */
  method QuadOut(work: array<byte>, at: nat, b: seq<byte>) returns (next: nat)
    requires 0 < |b| && at + 4 <= work.Length
    modifies work
    ensures next == at + 4 && Wrote(work, at, Quad(if |b| <= 3 then b else b[..3]))
  {
    var a: int, c: int, d: int := b[0], if |b| > 1 then b[1] else 0, if |b| > 2 then b[2] else 0;
    var q: seq<byte> := [Letter(a / 4), Letter(a % 4 * 16 + c / 16),
                         if |b| > 1 then Letter(c % 16 * 4 + d / 64) else 61, if |b| > 2 then Letter(d % 64) else 61];
    assert q == Quad(if |b| <= 3 then b else b[..3]);
    next := Fixed(work, at, q);
  }

  method Base64Out(work: array<byte>, at: nat, b: seq<byte>) returns (next: nat)
    requires at + |Base64(b)| <= work.Length
    modifies work
    ensures next == at + |Base64(b)| && Wrote(work, at, Base64(b))
    decreases |b|
  {
    hide Quad;
    if b == [] {
      assert old(work[..at]) + [] == old(work[..at]);
      return at;
    }
    var h, rest := if |b| <= 3 then b else b[..3], if |b| <= 3 then [] else b[3..];
    AR.Base64Step(b, h, rest);
    hide Base64;
    var mid := QuadOut(work, at, b);
    next := Base64Out(work, mid, rest);
    assert old(work[..at]) + Quad(h) + Base64(rest) == old(work[..at]) + (Quad(h) + Base64(rest));
  }

  method Clear(work: array<byte>)
    requires work.Length >= WORK
    modifies work
    ensures forall i :: 0 <= i < WORK ==> work[i] == 0
    ensures forall i :: WORK <= i < work.Length ==> work[i] == old(work[i])
  {
    for i := 0 to WORK
      invariant forall j :: 0 <= j < i ==> work[j] == 0
      invariant forall j :: WORK <= j < work.Length ==> work[j] == old(work[j])
    {
      work[i] := 0;
    }
  }

  function Opening(): seq<byte> { [123] + Member(VERSION, [49]) + [44, 34] + IDENT + [34, 58, 34] }

  function Numbers(): seq<byte> { [34, 44, 34] + INDEX + [34, 58] }

  function Counts(): seq<byte> { [44, 34] + COUNT + [34, 58] }

  function Closing(): seq<byte> { [44, 34] + PAYLOAD + [34, 58, 34] }

  lemma JoinIdent(a: seq<byte>, name: seq<byte>, x: seq<byte>)
    ensures a + [44] + Member(name, Quoted(x)) == (a + [44, 34] + name + [34, 58, 34]) + x + [34]
  {
  }

  lemma JoinIndex(a: seq<byte>, x: seq<byte>, name: seq<byte>, d: seq<byte>)
    ensures (a + x + [34]) + [44] + Member(name, d) == a + x + ([34, 44, 34] + name + [34, 58]) + d
  {
  }

  lemma JoinCount(a: seq<byte>, d: seq<byte>, name: seq<byte>, e: seq<byte>)
    ensures (a + d) + [44] + Member(name, e) == a + d + ([44, 34] + name + [34, 58]) + e
  {
  }

  lemma JoinPayload(a: seq<byte>, e: seq<byte>, name: seq<byte>, b: seq<byte>)
    ensures (a + e) + [44] + Member(name, Quoted(b)) + [125] == a + e + ([44, 34] + name + [34, 58, 34]) + b + [34, 125]
  {
  }

  function Front(r: Part): seq<byte> { Opening() + Escape(r.ident) + Numbers() + Decimal(r.index) }

  /** The fixed texts between the four variable ones. */
  lemma Pieces(r: Part)
    ensures Encode(r) == Front(r) + Counts() + Decimal(r.parts) + Closing() + Base64(r.text) + [34, 125]
  {
    hide Member, Escape, Decimal, Base64, Quoted;
    var h: seq<byte> := [123];
    var a := h + Member(VERSION, [49]);
    var x, d, e, b := Escape(r.ident), Decimal(r.index), Decimal(r.parts), Base64(r.text);
    JoinIdent(a, IDENT, x);
    JoinIndex(Opening(), x, INDEX, d);
    JoinCount(Opening() + x + Numbers(), d, COUNT, e);
    JoinPayload(Front(r) + Counts(), e, PAYLOAD, b);
  }

  lemma FrontIs(r: Part)
    ensures Front(r) == [] + Opening() + Escape(r.ident) + Numbers() + Decimal(r.index)
    ensures |Front(r)| == |Opening()| + |Escape(r.ident)| + |Numbers()| + |Decimal(r.index)|
  {
    hide Opening, Escape, Numbers, Decimal;
    assert [] + Opening() == Opening();
  }

  method Head(work: array<byte>, r: Part) returns (size: nat)
    requires |Front(r)| <= work.Length
    modifies work
    ensures size == |Front(r)| && work[..size] == Front(r)
  {
    hide Escape, Decimal, Opening, Numbers, Front;
    FrontIs(r);
    assert work[..0] == [];
    var a := Fixed(work, 0, Opening());
    var b := EscapeId(work, a, r.ident);
    var c := Fixed(work, b, Numbers());
    size := DecimalOut(work, c, r.index);
  }

  function Tail(r: Part): seq<byte> { Closing() + Base64(r.text) + [34, 125] }

  lemma TailIs(pre: seq<byte>, r: Part)
    ensures pre + Tail(r) == pre + Closing() + Base64(r.text) + [34, 125]
    ensures |Tail(r)| == |Closing()| + |Base64(r.text)| + 2
  {
    hide Closing, Base64;
  }

  method TailOut(work: array<byte>, at: nat, r: Part) returns (size: nat)
    requires at + |Tail(r)| <= work.Length
    modifies work
    ensures size == at + |Tail(r)| && Wrote(work, at, Tail(r))
  {
    hide Base64, Closing, Tail;
    ghost var before := work[..at];
    TailIs(before, r);
    var g := Fixed(work, at, Closing());
    assert work[..g] == before + Closing();
    var h := Base64Out(work, g, r.text);
    assert work[..h] == before + Closing() + Base64(r.text);
    size := Fixed(work, h, [34, 125]);
  }

  lemma Thirds(r: Part)
    ensures Encode(r) == Front(r) + Counts() + Decimal(r.parts) + Tail(r)
  {
    Pieces(r);
    hide Encode, Base64, Front, Counts, Closing, Decimal;
    assert Front(r) + Counts() + Decimal(r.parts) + Closing() + Base64(r.text) + [34, 125]
        == Front(r) + Counts() + Decimal(r.parts) + Tail(r);
  }

  /** The whole text, written from the start of the work area, never runs past it. */
  method Encoded(work: array<byte>, r: Part) returns (size: nat)
    requires work.Length >= WORK && Valid(r)
    modifies work
    ensures size == |Encode(r)| <= WORK && work[..size] == Encode(r)
  {
    hide Encode, Decimal, Front, Counts, Tail, Valid;
    AR.EncodeLength(r);
    Thirds(r);
    var d := Head(work, r);
    var e := Fixed(work, d, Counts());
    var f := DecimalOut(work, e, r.parts);
    size := TailOut(work, f, r);
  }

  method Commit(work: array<byte>, used: nat, output: array<byte>)
    requires used <= work.Length && used <= output.Length && work != output
    modifies output
    ensures output[..] == work[..used] + old(output[used..])
  {
    for i := 0 to used
      invariant forall j :: 0 <= j < output.Length ==> output[j] == if j < i then work[j] else old(output[j])
    {
      output[i] := work[i];
    }
    assert output[..used] == work[..used] && output[used..] == old(output[used..]);
    assert output[..] == output[..used] + output[used..];
  }

  /** Refused, or too long for the output: the output is as it was. Either way the work area is blank. */
  method EncodeRun(work: array<byte>, r: Part, output: array<byte>) returns (size: int)
    requires work.Length >= WORK && work != output
    modifies work, output
    ensures size == if Valid(r) && |Encode(r)| <= output.Length then |Encode(r)| else -1
    ensures output[..] == if size >= 0 then Encode(r) + old(output[size..]) else old(output[..])
    ensures forall i :: 0 <= i < WORK ==> work[i] == 0
  {
    hide Encode, Valid;
    Clear(work);
    size := -1;
    if Valid(r) {
      var used := Encoded(work, r);
      if used <= output.Length {
        size := used;
        Commit(work, used, output);
      }
    }
    Clear(work);
  }
}
