/** What the decoder lets through: only valid parts, and only canonical base64. */
module AppFrameSound {
  import opened Common
  import opened JsonText
  import opened JsonGrammar
  import opened AppFrame
  import opened AppFrameRound

  /** No reader ever returns a surrogate. */
  lemma StepScalar(s: seq<byte>, at: nat, limit: nat)
    ensures NextCharacter(s, at, limit).Char? ==> Scalar(NextCharacter(s, at, limit).scalar)
  {
  }

  /** A scalar written as UTF-8 reads back as that scalar. */
  lemma Utf8Reads(v: nat, s: seq<byte>, at: nat, limit: nat)
    requires Scalar(v) && Sits(s, at, Utf8(v)) && at + |Utf8(v)| <= limit <= |s|
    ensures RawStep(s, at, limit) == Char(at + |Utf8(v)|, v)
  {
    LiteralReads(v, s, at, limit);
    SitsAt(s, at, Utf8(v), 0);
  }

  /** One character of the text: what is copied and counted for it. */
  lemma CopyStep(s: seq<byte>, at: nat, end: nat, got: seq<byte>)
    requires at < end <= |s| && Utf16(s, at, end, false) >= 0 && IdentCopy(s, at, end, got).Some?
    ensures var t := NextCharacter(s, at, end);
            && t.Char? && Scalar(t.scalar) && Utf16(s, t.next, end, false) >= 0
            && Utf16(s, at, end, false) == Utf16(s, t.next, end, false) + (if t.scalar > 65535 then 2 else 1)
            && IdentCopy(s, at, end, got) == IdentCopy(s, t.next, end, got + Utf8(t.scalar))
  {
    StepScalar(s, at, end);
    hide NextCharacter, Utf8;
  }

  /** What UTF-8 adds to the count. */
  lemma CountStep(out: seq<byte>, at: nat, v: nat)
    requires Scalar(v) && Sits(out, at, Utf8(v)) && Utf16(out, at + |Utf8(v)|, |out|, true) >= 0
    ensures Utf16(out, at, |out|, true) == Utf16(out, at + |Utf8(v)|, |out|, true) + (if v > 65535 then 2 else 1)
  {
    Utf8Reads(v, out, at, |out|);
    hide RawStep, Utf8, Sits;
  }

  lemma CopiedSits(out: seq<byte>, got: seq<byte>, u: seq<byte>)
    requires |got + u| <= |out| && out[..|got + u|] == got + u
    ensures out[..|got|] == got && Sits(out, |got|, u)
  {
    assert out[..|got|] == out[..|got + u|][..|got|];
    assert out[|got|..|got| + |u|] == out[..|got + u|][|got|..];
  }

  lemma CopyDone(s: seq<byte>, at: nat, got: seq<byte>)
    requires at <= |s|
    ensures IdentCopy(s, at, at, got) == Some(got) && got[..|got|] == got
    ensures Utf16(got, |got|, |got|, true) == 0 == Utf16(s, at, at, false)
  {
  }

  /** Copying an escaped text gives UTF-8 with the same number of UTF-16 units. */
  lemma {:induction false} CopyValid(s: seq<byte>, at: nat, end: nat, got: seq<byte>)
    requires at <= end <= |s| && Utf16(s, at, end, false) >= 0 && IdentCopy(s, at, end, got).Some?
    ensures var out := IdentCopy(s, at, end, got).value;
            && |got| <= |out| && out[..|got|] == got && Utf16(out, |got|, |out|, true) == Utf16(s, at, end, false)
    decreases end - at
  {
    hide NextCharacter, Utf8, Sits, Utf16, IdentCopy;
    if at == end {
      CopyDone(s, at, got);
    } else {
      CopyStep(s, at, end, got);
      var t := NextCharacter(s, at, end);
      CopyValid(s, t.next, end, got + Utf8(t.scalar));
      var out := IdentCopy(s, at, end, got).value;
      CopiedSits(out, got, Utf8(t.scalar));
      CountStep(out, |got|, t.scalar);
    }
  }

  lemma IdentValid(s: seq<byte>, p: Span)
    requires IdentRead(s, p).Some?
    ensures var (ident, units) := IdentRead(s, p).value;
            1 <= |ident| <= 640 && 1 <= units <= 160 && Utf16(ident, 0, |ident|, true) == units
  {
    hide IdentCopy, Utf16;
    CopyValid(s, p.start + 1, p.end - 1, []);
  }

  lemma {:induction false} Base64Bound(s: seq<byte>, at: nat, end: nat, got: seq<byte>)
    requires at <= end <= |s| && |got| <= 700 && Base64Read(s, at, end, got).Some?
    ensures |Base64Read(s, at, end, got).value| <= 700
    decreases end - at
  {
    hide Quartet, Group;
    if at < end {
      var q := Quartet(s, at, end, 0);
      var g := Group(q.v, q.next == end, |got|);
      Base64Bound(s, q.next, end, got + g.value);
    }
  }

  lemma PayloadBound(s: seq<byte>, p: Span)
    requires PayloadRead(s, p).Some?
    ensures |PayloadRead(s, p).value| <= 700
  {
    hide Base64Read;
    Base64Bound(s, p.start + 1, p.end - 1, []);
  }

  /** The pieces of an accepted text. */
  lemma DecodeParts(s: seq<byte>)
    requires Decode(s).Some?
    ensures Parse(s).Some? && var m, p := Parse(s).value, Decode(s).value;
            && IdentRead(s, m[2]) == Some((p.ident, p.units)) && PayloadRead(s, m[5]) == Some(p.text)
            && p.index < p.parts == Natural(s, m[4], 2048)
  {
    hide Parse, IdentRead, PayloadRead, Natural;
  }

  /** Everything the decoder accepts is a valid part, which the encoder would write out again. */
  lemma DecodeValid(s: seq<byte>)
    requires Decode(s).Some?
    ensures Valid(Decode(s).value) && Decode(Encode(Decode(s).value)) == Decode(s)
  {
    hide Parse, IdentRead, PayloadRead, Natural, Encode, Utf16, Decode;
    DecodeParts(s);
    var m := Parse(s).value;
    IdentValid(s, m[2]);
    PayloadBound(s, m[5]);
    NaturalBound(s, m[4], 2048);
    RoundTrip(Decode(s).value);
  }

  lemma NaturalBound(s: seq<byte>, p: Span, limit: nat)
    ensures Natural(s, p, limit) <= limit
  {
    if p.start < p.end <= |s| {
      LoopBound(s, p.start, p.end, limit, 0);
    }
  }

  lemma {:induction false} LoopBound(s: seq<byte>, at: nat, end: nat, limit: nat, value: nat)
    requires at <= end <= |s| && value <= limit
    ensures NaturalLoop(s, at, end, limit, value) <= limit
    decreases end - at
  {
    if at < end {
      var v := B(s, at);
      if Digit(v) && value * 10 + (v - 48) <= limit {
        LoopBound(s, at + 1, end, limit, value * 10 + (v - 48));
      }
    }
  }

  // ---------------------------------------------------------------- base64 has one spelling

  lemma SextetLetter(v: int)
    requires Sextet(v) >= 0
    ensures Letter(Sextet(v)) == v
  {
  }

  lemma {:induction false} QuartetPlain(s: seq<byte>, at: nat, end: nat)
    requires at <= end <= |s| && PlainText(s[at..end]) && Quartet(s, at, end, 0).Four?
    ensures var q := Quartet(s, at, end, 0); q.next == at + 4 && q.v == Codes(s[at..at + 4])
  {
    hide NextCharacter;
    var t := s[at..end];
    PlainAt(s, at, end, at);
    assert Quartet(s, at + 1, end, 1).Four?;
    PlainAt(s, at, end, at + 1);
    assert Quartet(s, at + 2, end, 2).Four?;
    PlainAt(s, at, end, at + 2);
    assert Quartet(s, at + 3, end, 3).Four?;
    PlainAt(s, at, end, at + 3);
    assert Quartet(s, at + 4, end, 4) == Four([], at + 4);
    assert Quartet(s, at + 3, end, 3).v == [s[at + 3]];
    assert Quartet(s, at + 2, end, 2).v == [s[at + 2], s[at + 3]];
    assert Quartet(s, at + 1, end, 1).v == [s[at + 1], s[at + 2], s[at + 3]];
  }

  lemma PlainAt(s: seq<byte>, at: nat, end: nat, i: nat)
    requires at <= end <= |s| && PlainText(s[at..end]) && at <= i
    ensures i < end ==> NextCharacter(s, i, end) == Char(i + 1, s[i])
    ensures i >= end ==> NextCharacter(s, i, end).Bad?
  {
    if i < end {
      assert s[at..end][i - at] == s[i];
      PlainStep(s, i, end);
    }
  }

  /** A group that is accepted is the one way to write its bytes. */
  lemma GroupCanonical(q: seq<byte>, last: bool, pos: nat)
    requires |q| == 4 && Group(Codes(q), last, pos).Some?
    ensures var g := Group(Codes(q), last, pos).value; Quad(g) == q && (|g| < 3 ==> last)
  {
    hide Sextet, Letter;
    var a, b, c, d := Sextet(q[0]), Sextet(q[1]), Sextet(q[2]), Sextet(q[3]);
    var g := Group(Codes(q), last, pos).value;
    SextetLetter(q[0]);
    SextetLetter(q[1]);
    if c >= 0 {
      SextetLetter(q[2]);
    }
    if d >= 0 {
      SextetLetter(q[3]);
    }
    GroupBits(a, b, if c >= 0 then c else 0, if d >= 0 then d else 0);
    assert q == [q[0], q[1], q[2], q[3]];
  }

  lemma GroupBits(a: int, b: int, c: int, d: int)
    requires 0 <= a < 64 && 0 <= b < 64 && 0 <= c < 64 && 0 <= d < 64
    ensures var x, y, z := a * 4 + b / 16, b % 16 * 16 + c / 4, c % 4 * 64 + d;
            && x / 4 == a && x % 4 * 16 + y / 16 == b && y % 16 * 4 + z / 64 == c && z % 64 == d
            && (b % 16 == 0 ==> x % 4 * 16 == b) && (c % 4 == 0 ==> y % 16 * 4 == c)
  {
  }

  lemma Base64Join(g: seq<byte>, rest: seq<byte>)
    requires 1 <= |g| <= 3 && (|g| < 3 ==> rest == [])
    ensures Base64(g + rest) == Quad(g) + Base64(rest)
  {
    hide Quad, Base64;
    if |g + rest| <= 3 {
      assert g + rest == g && rest == [];
    } else {
      assert (g + rest)[..3] == g && (g + rest)[3..] == rest;
    }
    Base64Step(g + rest, g, rest);
  }

  lemma ReadStep(s: seq<byte>, at: nat, end: nat, got: seq<byte>)
    requires at < end <= |s| && PlainText(s[at..end]) && Base64Read(s, at, end, got).Some?
    ensures at + 4 <= end && Group(Codes(s[at..at + 4]), at + 4 == end, |got|).Some?
    ensures Base64Read(s, at, end, got)
         == Base64Read(s, at + 4, end, got + Group(Codes(s[at..at + 4]), at + 4 == end, |got|).value)
  {
    hide Group, PlainText;
    QuartetPlain(s, at, end);
    hide Quartet;
  }

  lemma PlainTail(s: seq<byte>, at: nat, end: nat, n: nat)
    requires at + n <= end <= |s| && PlainText(s[at..end])
    ensures PlainText(s[at + n..end]) && s[at..end] == s[at..at + n] + s[at + n..end]
  {
    assert s[at + n..end] == s[at..end][n..];
  }

  lemma Middle(out: seq<byte>, got: seq<byte>, g: seq<byte>)
    requires |got + g| <= |out| && out[..|got + g|] == got + g
    ensures out[..|got|] == got && out[|got|..] == g + out[|got + g|..]
  {
    assert out[..|got|] == out[..|got + g|][..|got|];
    assert out[|got|..|got + g|] == out[..|got + g|][|got|..];
    assert out[|got|..] == out[|got|..|got + g|] + out[|got + g|..];
  }

  lemma NothingRead(s: seq<byte>, at: nat, got: seq<byte>)
    requires at <= |s|
    ensures Base64Read(s, at, at, got) == Some(got) && Base64(got[|got|..]) == s[at..at] && got[..|got|] == got
  {
  }

  /** Plain text that decodes is the encoding of what it decodes to. */
  lemma {:induction false} Base64Canonical(s: seq<byte>, at: nat, end: nat, got: seq<byte>)
    requires at <= end <= |s| && PlainText(s[at..end]) && Base64Read(s, at, end, got).Some?
    ensures var out := Base64Read(s, at, end, got).value;
            |got| <= |out| && out[..|got|] == got && Base64(out[|got|..]) == s[at..end]
    decreases end - at
  {
    hide Group, Quad, PlainText, Base64Read, Base64, Codes;
    if at == end {
      NothingRead(s, at, got);
    } else {
      ReadStep(s, at, end, got);
      var q := s[at..at + 4];
      PlainTail(s, at, end, 4);
      GroupCanonical(q, at + 4 == end, |got|);
      var g := Group(Codes(q), at + 4 == end, |got|).value;
      Base64Canonical(s, at + 4, end, got + g);
      var out := Base64Read(s, at, end, got).value;
      Middle(out, got, g);
      assert |g| < 3 ==> |Base64(out[|got + g|..])| == 0;
      Base64Join(g, out[|got + g|..]);
    }
  }
}
