/** Reading back what was written: every valid part survives the text unchanged. */
module AppFrameRound {
  import opened Common
  import opened JsonText
  import opened AppFrame
  import H = Hex

  // ---------------------------------------------------------------- characters

  lemma {:induction false} EscapeAppend(a: seq<byte>, b: seq<byte>)
    ensures Escape(a + b) == Escape(a) + Escape(b)
    decreases |a|
  {
    hide EscapeByte;
    if a == [] {
      assert a + b == b;
    } else {
      EscapeAppend(a[1..], b);
      assert (a + b)[1..] == a[1..] + b;
    }
  }

  lemma {:induction false} EscapeHigh(a: seq<byte>)
    requires forall i :: 0 <= i < |a| ==> a[i] >= 128
    ensures Escape(a) == a
  {
    if a != [] {
      EscapeHigh(a[1..]);
      assert a == [a[0]] + a[1..];
    }
  }

  /** A literal step looks no further than the bytes it consumes. */
  lemma LiteralLocal(s: seq<byte>, at: nat, limit: nat, t: seq<byte>, at': nat, limit': nat)
    requires LiteralStep(s, at, limit).Char?
    requires var k := LiteralStep(s, at, limit).next - at;
             at' + k <= limit' <= |t| && t[at'..at' + k] == s[at..at + k]
    ensures LiteralStep(t, at', limit')
            == Char(at' + LiteralStep(s, at, limit).next - at, LiteralStep(s, at, limit).scalar)
  {
    var k := LiteralStep(s, at, limit).next - at;
    var u := s[at..at + k];
    SitsAt(t, at', u, 0);
    if k > 1 {
      SitsAt(t, at', u, 1);
    }
    if k > 2 {
      SitsAt(t, at', u, 2);
    }
    if k > 3 {
      SitsAt(t, at', u, 3);
    }
  }

  lemma HexBack(v: nat)
    requires v < 16
    ensures HexDigit(H.HexDigit(v)) == v
  {
  }

  lemma ControlByte(s: seq<byte>, at: nat, limit: nat, v: byte)
    requires v < 32 && at + 6 <= limit <= |s|
    requires s[at] == 92 && s[at + 1] == 117 && s[at + 2] == 48 && s[at + 3] == 48 && s[at + 4] == H.HexDigit(v / 16)
             && s[at + 5] == H.HexDigit(v % 16)
    ensures NextCharacter(s, at, limit) == Char(at + 6, v)
  {
    HexBack(v / 16);
    HexBack(v % 16);
    HexBack(0);
    hide H.HexDigit;
    assert HexDigit(48) == 0;
    hide HexDigit;
    assert FourHex(s, at + 2, limit) == v;
  }

  /** An escaped ASCII byte reads as that byte. */
  lemma EscapedByte(s: seq<byte>, at: nat, limit: nat, v: byte)
    requires v < 128 && Sits(s, at, EscapeByte(v)) && at + |EscapeByte(v)| <= limit <= |s|
    ensures NextCharacter(s, at, limit) == Char(at + |EscapeByte(v)|, v)
    ensures s[at] >= 32 && s[at] != 34
  {
    var e := EscapeByte(v);
    SitsAt(s, at, e, 0);
    if |e| == 6 {
      SitsAt(s, at, e, 1);
      SitsAt(s, at, e, 2);
      SitsAt(s, at, e, 3);
      SitsAt(s, at, e, 4);
      SitsAt(s, at, e, 5);
      ControlByte(s, at, limit, v);
    } else if |e| == 2 {
      SitsAt(s, at, e, 1);
    }
  }

  /** The bytes of a multi-byte scalar are all above ASCII. */
  lemma HighBytes(s: seq<byte>, at: nat, limit: nat)
    requires LiteralStep(s, at, limit).Char? && s[at] >= 128
    ensures forall i :: at <= i < LiteralStep(s, at, limit).next ==> s[i] >= 128
  {
  }

  /** One character of an identifier, and how it reads in the escaped text. */
  lemma OneCharacter(ident: seq<byte>, i: nat, s: seq<byte>, at: nat, limit: nat)
    requires i < |ident| && RawStep(ident, i, |ident|).Char?
    requires var j := RawStep(ident, i, |ident|).next;
             Sits(s, at, Escape(ident[i..j])) && at + |Escape(ident[i..j])| <= limit <= |s|
    ensures var t := RawStep(ident, i, |ident|);
            && NextCharacter(s, at, limit) == Char(at + |Escape(ident[i..t.next])|, t.scalar)
            && s[at] >= 32 && s[at] != 34 && Utf8(t.scalar) == ident[i..t.next]
  {
    var t := RawStep(ident, i, |ident|);
    if ident[i] < 128 {
      assert t == Char(i + 1, ident[i]);
      assert ident[i..i + 1] == [ident[i]];
      OneEscape(ident[i]);
      EscapedByte(s, at, limit, ident[i]);
    } else {
      HighBytes(ident, i, |ident|);
      var u := ident[i..t.next];
      EscapeHigh(u);
      LiteralCanonical(ident, i, |ident|);
      LiteralLocal(ident, i, |ident|, s, at, limit);
      SitsAt(s, at, u, 0);
    }
  }

  lemma OneEscape(v: byte)
    ensures Escape([v]) == EscapeByte(v)
  {
    assert [v][1..] == [];
  }

  /** Past one character, the text of the rest follows. */
  lemma RestSits(ident: seq<byte>, i: nat, j: nat, s: seq<byte>, at: nat)
    requires i < j <= |ident| && Sits(s, at, Escape(ident[i..]) + [34])
    ensures Sits(s, at, Escape(ident[i..j])) && Sits(s, at + |Escape(ident[i..j])|, Escape(ident[j..]) + [34])
    ensures |Escape(ident[i..])| == |Escape(ident[i..j])| + |Escape(ident[j..])|
  {
    hide Escape, Sits;
    assert ident[i..] == ident[i..j] + ident[j..];
    EscapeAppend(ident[i..j], ident[j..]);
    var q: seq<byte> := [34];
    assert Escape(ident[i..]) + q == Escape(ident[i..j]) + (Escape(ident[j..]) + q);
    SitsSplit(s, at, Escape(ident[i..j]), Escape(ident[j..]) + q);
  }

  /** The three readers take the same step. */
  lemma ReaderStep(s: seq<byte>, at: nat, next: nat, end: nat, scalar: nat, got: seq<byte>)
    requires at < next <= end < |s| && s[at] >= 32 && s[at] != 34 && |got| <= 640
    requires NextCharacter(s, at, end) == NextCharacter(s, at, |s|) == Char(next, scalar)
    ensures StringEnd(s, at) == StringEnd(s, next)
    ensures var rest := Utf16(s, next, end, false);
            Utf16(s, at, end, false) == if rest < 0 then -1 else rest + (if scalar > 65535 then 2 else 1)
    ensures scalar < 0x110000 && IdentCopy(s, at, end, got) == IdentCopy(s, next, end, got + Utf8(scalar))
  {
    hide NextCharacter, Utf8;
  }

  lemma CharacterStep(ident: seq<byte>, i: nat, s: seq<byte>, at: nat, got: seq<byte>)
    requires i < |ident| && RawStep(ident, i, |ident|).Char? && |got| <= 640
    requires Sits(s, at, Escape(ident[i..]) + [34])
    ensures var t, end := RawStep(ident, i, |ident|), at + |Escape(ident[i..])|;
            var next := at + |Escape(ident[i..t.next])|;
            && next <= end < |s| && Sits(s, next, Escape(ident[t.next..]) + [34])
            && next + |Escape(ident[t.next..])| == end
            && StringEnd(s, at) == StringEnd(s, next)
            && IdentCopy(s, at, end, got) == IdentCopy(s, next, end, got + ident[i..t.next])
            && var rest := Utf16(s, next, end, false);
               Utf16(s, at, end, false) == if rest < 0 then -1 else rest + (if t.scalar > 65535 then 2 else 1)
  {
    hide LiteralStep, EscapeByte, Utf8, Escape, StringEnd, Utf16, IdentCopy;
    var t, end := RawStep(ident, i, |ident|), at + |Escape(ident[i..])|;
    RestSits(ident, i, t.next, s, at);
    SitsEnd(s, at, Escape(ident[i..]), 34);
    hide Sits, RawStep, NextCharacter;
    OneCharacter(ident, i, s, at, end);
    OneCharacter(ident, i, s, at, |s|);
    ReaderStep(s, at, at + |Escape(ident[i..t.next])|, end, t.scalar, got);
  }

  lemma UnitsStep(ident: seq<byte>, i: nat)
    requires i < |ident| && Utf16(ident, i, |ident|, true) >= 0
    ensures var t := RawStep(ident, i, |ident|);
            && t.Char? && Utf16(ident, t.next, |ident|, true) >= 0
            && Utf16(ident, i, |ident|, true) == Utf16(ident, t.next, |ident|, true)
                 + (if t.scalar > 65535 then 2 else 1)
  {
    hide RawStep;
  }

  lemma NoneLeft(ident: seq<byte>, s: seq<byte>, at: nat, got: seq<byte>)
    requires Sits(s, at, Escape(ident[|ident|..]) + [34])
    ensures |Escape(ident[|ident|..])| == 0 && at < |s| && StringEnd(s, at) == at && Utf16(s, at, at, false) == 0
    ensures IdentCopy(s, at, at, got) == Some(got + ident[|ident|..]) && Utf16(ident, |ident|, |ident|, true) == 0
  {
    assert ident[|ident|..] == [];
    SitsEnd(s, at, Escape([]), 34);
    assert got + [] == got;
  }

  /** From position `i` of the identifier and `at` of its text on: the closing quote is found,
      the units agree, and the copy is the rest of the identifier. */
  lemma {:induction false} IdentReads(ident: seq<byte>, i: nat, s: seq<byte>, at: nat, got: seq<byte>)
    requires i <= |ident| && Utf16(ident, i, |ident|, true) >= 0 && |got| + |ident| - i <= 640
    requires Sits(s, at, Escape(ident[i..]) + [34])
    ensures var end := at + |Escape(ident[i..])|;
            && end < |s| && StringEnd(s, at) == end && Utf16(s, at, end, false) == Utf16(ident, i, |ident|, true)
            && IdentCopy(s, at, end, got) == Some(got + ident[i..])
    decreases |ident| - i
  {
    hide Escape, RawStep, Sits, StringEnd, IdentCopy, Utf16;
    if i == |ident| {
      NoneLeft(ident, s, at, got);
    } else {
      UnitsStep(ident, i);
      var t := RawStep(ident, i, |ident|);
      CharacterStep(ident, i, s, at, got);
      assert got + ident[i..t.next] + ident[t.next..] == got + ident[i..];
      IdentReads(ident, t.next, s, at + |Escape(ident[i..t.next])|, got + ident[i..t.next]);
    }
  }

  // ---------------------------------------------------------------- base64

  lemma LetterSextet(v: nat)
    requires v < 64
    ensures Sextet(Letter(v)) == v && Letter(v) != 61 && 43 <= Letter(v) <= 122 && Letter(v) != 92 && Letter(v) != 34
  {
  }

  predicate PlainByte(v: int) { 32 <= v < 128 && v != 34 && v != 92 }

  lemma PlainStep(s: seq<byte>, at: nat, limit: nat)
    requires at < limit <= |s| && PlainByte(s[at])
    ensures NextCharacter(s, at, limit) == Char(at + 1, s[at])
  {
  }

  lemma QuadPlain(b: seq<byte>)
    requires |b| > 0
    ensures forall i :: 0 <= i < 4 ==> PlainByte(Quad(b)[i])
  {
    var a: int, c: int, d: int := b[0], if |b| > 1 then b[1] else 0, if |b| > 2 then b[2] else 0;
    LetterSextet(a / 4);
    LetterSextet(a % 4 * 16 + c / 16);
    LetterSextet(c % 16 * 4 + d / 64);
    LetterSextet(d % 64);
  }

  function Codes(q: seq<byte>): (v: seq<nat>)
    requires |q| == 4
    ensures |v| == 4
  {
    [q[0], q[1], q[2], q[3]]
  }

  lemma QuartetReads(s: seq<byte>, at: nat, end: nat, q: seq<byte>)
    requires Sits(s, at, q) && |q| == 4 && at + 4 <= end <= |s| && forall i :: 0 <= i < 4 ==> PlainByte(q[i])
    ensures Quartet(s, at, end, 0) == Four(Codes(q), at + 4)
  {
    SitsAt(s, at, q, 0);
    SitsAt(s, at, q, 1);
    SitsAt(s, at, q, 2);
    SitsAt(s, at, q, 3);
    PlainStep(s, at, end);
    PlainStep(s, at + 1, end);
    PlainStep(s, at + 2, end);
    PlainStep(s, at + 3, end);
    hide NextCharacter;
    assert Quartet(s, at + 4, end, 4) == Four([], at + 4);
    assert Quartet(s, at + 3, end, 3) == Four([q[3]], at + 4);
    assert Quartet(s, at + 2, end, 2) == Four([q[2], q[3]], at + 4);
    assert Quartet(s, at + 1, end, 1) == Four([q[1], q[2], q[3]], at + 4);
  }

  lemma QuadArithmetic(a: int, c: int, d: int)
    requires 0 <= a < 256 && 0 <= c < 256 && 0 <= d < 256
    ensures var x, y, z, w := a / 4, a % 4 * 16 + c / 16, c % 16 * 4 + d / 64, d % 64;
            && 0 <= x < 64 && 0 <= y < 64 && 0 <= z < 64 && 0 <= w < 64
            && x * 4 + y / 16 == a && y % 16 * 16 + z / 4 == c && z % 4 * 64 + w == d
            && (c == 0 ==> y % 16 == 0) && (d == 0 ==> z % 4 == 0)
  {
  }

  /** The group of `v`, when its four characters stand for `x`, `y`, `z` and `w`, or are padding. */
  lemma GroupIs(v: seq<nat>, x: int, y: int, z: int, w: int, n: nat, last: bool, pos: nat)
    requires |v| == 4 && 1 <= n <= 3 && (n == 3 || last) && pos + n <= 700
    requires Sextet(v[0]) == x >= 0 && Sextet(v[1]) == y >= 0
    requires if n > 1 then Sextet(v[2]) == z >= 0 && v[2] != 61 else v[2] == 61 && y % 16 == 0
    requires if n > 2 then Sextet(v[3]) == w >= 0 && v[3] != 61 else v[3] == 61 && (n == 2 ==> z % 4 == 0)
    ensures Group(v, last, pos).Some?
    ensures var g := Group(v, last, pos).value;
            && |g| == n && g[0] == x * 4 + y / 16 && (n > 1 ==> g[1] == y % 16 * 16 + z / 4)
            && (n > 2 ==> g[2] == z % 4 * 64 + w)
  {
    hide Sextet;
  }

  /** The sextets of a written group, and which of its characters are padding. */
  lemma QuadCodes(b: seq<byte>)
    requires 1 <= |b| <= 3
    ensures var a: int, c: int, d: int := b[0], if |b| > 1 then b[1] else 0, if |b| > 2 then b[2] else 0;
            var v := Codes(Quad(b));
            && Sextet(v[0]) == a / 4 && Sextet(v[1]) == a % 4 * 16 + c / 16
            && (if |b| > 1 then Sextet(v[2]) == c % 16 * 4 + d / 64 && v[2] != 61 else v[2] == 61)
            && (if |b| > 2 then Sextet(v[3]) == d % 64 && v[3] != 61 else v[3] == 61)
  {
    var a: int, c: int, d: int := b[0], if |b| > 1 then b[1] else 0, if |b| > 2 then b[2] else 0;
    QuadArithmetic(a, c, d);
    LetterSextet(a / 4);
    LetterSextet(a % 4 * 16 + c / 16);
    LetterSextet(c % 16 * 4 + d / 64);
    LetterSextet(d % 64);
    hide Sextet, Letter;
  }

  lemma ThreeBytes(g: seq<byte>, b: seq<byte>)
    requires |g| == |b| && 1 <= |b| <= 3 && g[0] == b[0] && (|b| > 1 ==> g[1] == b[1]) && (|b| > 2 ==> g[2] == b[2])
    ensures g == b
  {
  }

  /** A group of one to three bytes comes back; a short one must be the last. */
  lemma GroupReads(b: seq<byte>, last: bool, pos: nat)
    requires 1 <= |b| <= 3 && (|b| == 3 || last) && pos + |b| <= 700
    ensures Group(Codes(Quad(b)), last, pos) == Some(b)
  {
    hide Sextet, Group, Quad, Codes;
    var a: int, c: int, d: int := b[0], if |b| > 1 then b[1] else 0, if |b| > 2 then b[2] else 0;
    QuadArithmetic(a, c, d);
    QuadCodes(b);
    var v := Codes(Quad(b));
    GroupIs(v, a / 4, a % 4 * 16 + c / 16, c % 16 * 4 + d / 64, d % 64, |b|, last, pos);
    ThreeBytes(Group(v, last, pos).value, b);
  }

  lemma ReadGroup(s: seq<byte>, at: nat, end: nat, q: seq<byte>, g: seq<byte>, got: seq<byte>)
    requires at < end <= |s| && |q| == 4 && Quartet(s, at, end, 0) == Four(Codes(q), at + 4)
    requires Group(Codes(q), at + 4 == end, |got|) == Some(g)
    ensures Base64Read(s, at, end, got) == Base64Read(s, at + 4, end, got + g)
  {
    hide Quartet, Group, Codes;
  }

  lemma {:induction false} Base64Reads(b: seq<byte>, s: seq<byte>, at: nat, got: seq<byte>)
    requires Sits(s, at, Base64(b)) && |got| + |b| <= 700
    ensures Base64Read(s, at, at + |Base64(b)|, got) == Some(got + b)
    decreases |b|
  {
    hide Quartet, Group, Quad, Codes, Sits, Base64, Base64Read;
    SitsInside(s, at, Base64(b));
    if b == [] {
      NothingLeft(s, at, got);
    } else {
      var h, rest := if |b| <= 3 then b else b[..3], if |b| <= 3 then [] else b[3..];
      Base64Step(b, h, rest);
      var end := at + |Base64(b)|;
      SitsSplit(s, at, Quad(h), Base64(rest));
      QuadPlain(h);
      QuartetReads(s, at, end, Quad(h));
      GroupReads(h, at + 4 == end, |got|);
      ReadGroup(s, at, end, Quad(h), h, got);
      Base64Reads(rest, s, at + 4, got + h);
      assert got + h + rest == got + b by {
        assert b == h + rest;
      }
    }
  }

  lemma NothingLeft(s: seq<byte>, at: nat, got: seq<byte>)
    requires at <= |s|
    ensures |Base64([])| == 0 && Base64Read(s, at, at, got) == Some(got) && got + [] == got
  {
  }

  lemma Base64Step(b: seq<byte>, h: seq<byte>, rest: seq<byte>)
    requires |b| > 0 && h == (if |b| <= 3 then b else b[..3]) && rest == (if |b| <= 3 then [] else b[3..])
    ensures Base64(b) == Quad(h) + Base64(rest)
  {
    hide Quad;
    if |b| <= 3 {
      assert Quad(h) + [] == Quad(h);
    }
  }

  // ---------------------------------------------------------------- numbers

  lemma {:induction false} DecimalDigits(n: nat)
    ensures forall i :: 0 <= i < |Decimal(n)| ==> 48 <= Decimal(n)[i] <= 57
    ensures |Decimal(n)| > 1 ==> Decimal(n)[0] != 48
    ensures n > 0 ==> Decimal(n)[0] != 48
  {
    if n >= 10 {
      DecimalDigits(n / 10);
    }
  }

  /** The loop over the digits after some of them have been read. */
  lemma {:induction false} DigitsRead(s: seq<byte>, at: nat, n: nat, limit: nat)
    requires Sits(s, at, Decimal(n)) && n <= limit
    ensures NaturalLoop(s, at, at + |Decimal(n)|, limit, 0) == n
  {
    DigitsPrefix(s, at, n, at + |Decimal(n)|, limit);
    assert NaturalLoop(s, at + |Decimal(n)|, at + |Decimal(n)|, limit, n) == n;
  }

  lemma {:induction false} DigitsPrefix(s: seq<byte>, at: nat, n: nat, end: nat, limit: nat)
    requires Sits(s, at, Decimal(n)) && n <= limit && at + |Decimal(n)| <= end <= |s|
    ensures NaturalLoop(s, at, end, limit, 0) == NaturalLoop(s, at + |Decimal(n)|, end, limit, n)
  {
    hide NaturalLoop, Sits;
    if n < 10 {
      SitsAt(s, at, Decimal(n), 0);
      LoopStep(s, at, end, limit, 0, n);
    } else {
      var digit: seq<byte> := [48 + n % 10];
      SitsSplit(s, at, Decimal(n / 10), digit);
      SitsAt(s, at + |Decimal(n / 10)|, digit, 0);
      hide Decimal;
      DigitsPrefix(s, at, n / 10, end, limit);
      LoopStep(s, at + |Decimal(n / 10)|, end, limit, n / 10, n % 10);
    }
  }

  lemma LoopStep(s: seq<byte>, at: nat, end: nat, limit: nat, value: nat, d: nat)
    requires at < end <= |s| && d <= 9 && s[at] == 48 + d && value * 10 + d <= limit
    ensures NaturalLoop(s, at, end, limit, value) == NaturalLoop(s, at + 1, end, limit, value * 10 + d)
  {
  }

  lemma NumberReads(s: seq<byte>, at: nat, n: nat, limit: nat)
    requires Sits(s, at, Decimal(n)) && n <= limit
    ensures NaturalValue(s, at, at + |Decimal(n)|, limit) == n
  {
    DecimalDigits(n);
    SitsAt(s, at, Decimal(n), 0);
    DigitsRead(s, at, n, limit);
  }

  lemma {:induction false} DigitsStop(s: seq<byte>, at: nat, end: nat)
    requires at <= end < |s| && !Digit(s[end]) && forall i :: at <= i < end ==> Digit(s[i])
    ensures DigitsEnd(s, at) == end
    decreases end - at
  {
    if at < end {
      DigitsStop(s, at + 1, end);
    }
  }

  lemma NumberIs(s: seq<byte>, at: nat, end: nat)
    requires at < end < |s| && s[end] == 44 && (s[at] == 48 ==> end == at + 1)
    requires forall i :: at <= i < end ==> Digit(s[i])
    ensures ValueEnd(s, at, 1) == end
  {
    assert Digit(s[at]);
    if s[at] != 48 {
      DigitsStop(s, at + 1, end);
    }
    assert FractionEnd(s, end) == end;
    assert NumberEnd(s, at) == end;
  }

  /** A decimal followed by a comma is one whole value. */
  lemma NumberValue(s: seq<byte>, at: nat, n: nat)
    requires Sits(s, at, Decimal(n) + [44])
    ensures ValueEnd(s, at, 1) == at + |Decimal(n)|
  {
    hide ValueEnd;
    var d := Decimal(n);
    SitsSplit(s, at, d, [44]);
    DecimalDigits(n);
    hide Decimal;
    var end := at + |d|;
    SitsAt(s, end, [44], 0);
    forall i | at <= i < end
      ensures Digit(s[i])
    {
      SitsAt(s, at, d, i - at);
    }
    SitsAt(s, at, d, 0);
    NumberIs(s, at, end);
  }

  // ---------------------------------------------------------------- names and members

  predicate PlainText(t: seq<byte>) { forall i :: 0 <= i < |t| ==> PlainByte(t[i]) }

  /** Text without escapes ends at its quote. */
  lemma {:induction false} PlainEnd(s: seq<byte>, at: nat, t: seq<byte>)
    requires Sits(s, at, t + [34]) && PlainText(t)
    ensures StringEnd(s, at) == at + |t|
    decreases |t|
  {
    SitsSplit(s, at, t, [34]);
    if t == [] {
      SitsAt(s, at, [34], 0);
    } else {
      SitsAt(s, at, t, 0);
      PlainStep(s, at, |s|);
      var rest := t[1..];
      assert t + [34] == [t[0]] + (rest + [34]);
      SitsSplit(s, at, [t[0]], rest + [34]);
      hide NextCharacter;
      PlainEnd(s, at + 1, rest);
    }
  }

  /** A plain key spells a name exactly when it is that name. */
  lemma {:induction false} KeyMeans(s: seq<byte>, at: nat, end: nat, name: seq<byte>, i: nat)
    requires at <= end <= |s| && i <= |name| && PlainText(s[at..end])
    ensures KeyIs(s, at, end, name, i) <==> s[at..end] == name[i..]
    decreases end - at
  {
    if at < end && i < |name| {
      var k, n := s[at..end], name[i..];
      assert k[0] == s[at] && k[1..] == s[at + 1..end] && n[0] == name[i] && n[1..] == name[i + 1..];
      assert PlainByte(k[0]);
      PlainStep(s, at, end);
      hide NextCharacter;
      KeyMeans(s, at + 1, end, name, i + 1);
      assert k == [k[0]] + k[1..] && n == [n[0]] + n[1..];
    }
  }

  lemma KindReads(s: seq<byte>, at: nat, kind: nat)
    requires 1 <= kind <= 5 && Sits(s, at, NameOf(kind))
    ensures KeyKind(s, at, at + |NameOf(kind)|) == kind && PlainText(NameOf(kind))
  {
    hide KeyIs;
    var name := NameOf(kind);
    assert PlainText(name);
    KeyMeans(s, at, at + |name|, VERSION, 0);
    KeyMeans(s, at, at + |name|, IDENT, 0);
    KeyMeans(s, at, at + |name|, INDEX, 0);
    KeyMeans(s, at, at + |name|, COUNT, 0);
    KeyMeans(s, at, at + |name|, PAYLOAD, 0);
    assert IDENT[4] != INDEX[4] && INDEX[4] != COUNT[4] && IDENT[0] != INDEX[0] && VERSION[0] != PAYLOAD[0];
  }

  /** One unfolding of the reader. */
  lemma MembersIs(s: seq<byte>, at: nat, keyEnd: nat, kind: nat, start: nat, end: nat, found: map<nat, Span>)
    requires Ordered(found) && 1 <= kind && kind !in found && at < keyEnd < |s|
    requires B(s, at) == 34 && StringEnd(s, at + 1) == keyEnd && KeyKind(s, at + 1, keyEnd) == kind
    requires SkipSpace(s, keyEnd + 1) == keyEnd + 1 && B(s, keyEnd + 1) == 58 && SkipSpace(s, keyEnd + 2) == start
    requires ValueEnd(s, start, 1) == end && SkipSpace(s, end) == end && start < end
    ensures var more := found[kind := Span(start, end)];
            && Ordered(more)
            && (B(s, end) == 44 ==> Members(s, at, found) == Members(s, SkipSpace(s, end + 1), more))
            && (B(s, end) == 125 ==>
                  Members(s, at, found)
                  == if more.Keys == {1, 2, 3, 4, 5} && SkipSpace(s, end + 1) == |s| then Some(more) else None)
  {
    hide StringEnd, KeyKind, ValueEnd, SkipSpace;
  }

  predicate Starts(v: seq<byte>) { v != [] && v[0] != 32 && v[0] != 9 && v[0] != 10 && v[0] != 13 }

  lemma ValueSits(s: seq<byte>, at: nat, name: seq<byte>, value: seq<byte>, c: byte)
    requires Sits(s, at, Member(name, value) + [c])
    ensures Sits(s, at + |name| + 3, value + [c]) && Sits(s, at + |name| + 3, value) && Sits(s, at, Member(name, value))
    ensures |Member(name, value)| == |name| + 3 + |value|
  {
    hide Sits;
    var head: seq<byte> := [34] + name + [34, 58];
    assert Member(name, value) + [c] == head + (value + [c]);
    SitsSplit(s, at, Member(name, value), [c]);
    SitsSplit(s, at, head, value + [c]);
    SitsSplit(s, at + |head|, value, [c]);
  }

  /** One member: its value is recorded under its name, and the next one starts after the comma. */
  lemma MemberReads(s: seq<byte>, at: nat, name: seq<byte>, kind: nat, value: seq<byte>, c: byte, found: map<nat, Span>)
    requires 1 <= kind <= 5 && kind !in found && Ordered(found) && PlainText(name)
    requires Sits(s, at, Member(name, value) + [c]) && Starts(value) && (c == 44 || c == 125)
    requires at + 1 + |name| <= |s| && KeyKind(s, at + 1, at + 1 + |name|) == kind
    requires ValueEnd(s, at + |name| + 3, 1) == at + |name| + 3 + |value|
    ensures var e := at + |name| + 3 + |value|;
            var more := found[kind := Span(at + |name| + 3, e)];
            && Ordered(more)
            && (c == 44 && B(s, e + 1) == 34 ==> Members(s, at, found) == Members(s, e + 1, more))
            && (c == 125 && e + 1 == |s| ==>
                  Members(s, at, found) == if more.Keys == {1, 2, 3, 4, 5} then Some(more) else None)
  {
    hide StringEnd, KeyKind, ValueEnd, Sits, Member, Members, Ordered, PlainText, SkipSpace;
    var n, e := |name|, at + |name| + 3 + |value|;
    ValueSits(s, at, name, value, c);
    SitsEnd(s, at, Member(name, value), c);
    MemberParts(s, at, name, value);
    PlainEnd(s, at + 1, name);
    NoSpace(s, at + n + 2);
    NoSpace(s, at + n + 3);
    NoSpace(s, e);
    NoSpace(s, e + 1);
    MembersIs(s, at, at + 1 + n, kind, at + n + 3, e, found);
  }

  lemma NoSpace(s: seq<byte>, at: nat)
    ensures B(s, at) != 32 && B(s, at) != 9 && B(s, at) != 10 && B(s, at) != 13 ==> SkipSpace(s, at) == at
  {
  }

  lemma MemberParts(s: seq<byte>, at: nat, name: seq<byte>, value: seq<byte>)
    requires Sits(s, at, Member(name, value)) && value != []
    ensures at + |name| + 3 < |s| && s[at] == 34
    ensures Sits(s, at + 1, name) && Sits(s, at + 1, name + [34]) && Sits(s, at + |name| + 3, value)
    ensures s[at + 1 + |name|] == 34 && s[at + |name| + 2] == 58 && s[at + |name| + 3] == value[0]
  {
    hide Sits;
    var quote: seq<byte>, colon: seq<byte> := [34], [58];
    MemberNest(name, value);
    SitsSplit(s, at, quote, name + (quote + (colon + value)));
    SitsSplit(s, at + 1, name, quote + (colon + value));
    SitsSplit(s, at + 1 + |name|, quote, colon + value);
    SitsSplit(s, at + 2 + |name|, colon, value);
    SitsJoin(s, at + 1, name, quote);
    SitsAt(s, at, quote, 0);
    SitsAt(s, at + 1 + |name|, quote, 0);
    SitsAt(s, at + 2 + |name|, colon, 0);
    SitsAt(s, at + |name| + 3, value, 0);
  }

  lemma MemberNest(name: seq<byte>, value: seq<byte>)
    ensures Member(name, value) == [34] + (name + ([34] + ([58] + value)))
  {
    Nest([34], name, [34, 58], value);
    assert [34, 58] + value == [34] + ([58] + value);
  }

  // ---------------------------------------------------------------- the whole object

  /** Where member `kind` starts. */
  function Place(r: Part, kind: nat): nat {
    if kind <= 1 then 1 else Place(r, kind - 1) + |MemberOf(r, kind - 1)| + 1
  }

  function Mark(kind: nat): byte { if kind == 5 then 125 else 44 }

  lemma Chain5(s: seq<byte>, h: seq<byte>, a: seq<byte>, b: seq<byte>, c: seq<byte>, d: seq<byte>, e: seq<byte>)
    requires s == h + (a + (b + (c + (d + e))))
    ensures Sits(s, |h|, a) && Sits(s, |h| + |a|, b) && Sits(s, |h| + |a| + |b|, c) && Sits(s, |h| + |a| + |b| + |c|, d)
    ensures Sits(s, |h| + |a| + |b| + |c| + |d|, e) && |s| == |h| + |a| + |b| + |c| + |d| + |e|
  {
    assert Sits(s, 0, h + (a + (b + (c + (d + e)))));
    hide Sits;
    SitsSplit(s, 0, h, a + (b + (c + (d + e))));
    SitsSplit(s, |h|, a, b + (c + (d + e)));
    SitsSplit(s, |h| + |a|, b, c + (d + e));
    SitsSplit(s, |h| + |a| + |b|, c, d + e);
    SitsSplit(s, |h| + |a| + |b| + |c|, d, e);
  }

  lemma Nest5(h: seq<byte>, a: seq<byte>, b: seq<byte>, c: seq<byte>, d: seq<byte>, e: seq<byte>)
    ensures h + a + [44] + b + [44] + c + [44] + d + [44] + e + [125]
         == h + ((a + [44]) + ((b + [44]) + ((c + [44]) + ((d + [44]) + (e + [125])))))
  {
  }

  lemma Placed(r: Part)
    ensures var s := Encode(r);
            && |s| == Place(r, 5) + |MemberOf(r, 5)| + 1 && s[0] == 123
            && (forall k :: 1 <= k <= 5 ==> Sits(s, Place(r, k), MemberOf(r, k) + [Mark(k)]))
  {
    hide MemberOf, Sits;
    var s, h: seq<byte> := Encode(r), [123];
    var a, b, c, d, e := MemberOf(r, 1), MemberOf(r, 2), MemberOf(r, 3), MemberOf(r, 4), MemberOf(r, 5);
    Nest5(h, a, b, c, d, e);
    Chain5(s, h, a + [44], b + [44], c + [44], d + [44], e + [125]);
    assert Place(r, 1) == 1 && Place(r, 2) == 1 + |a + [44]| && Place(r, 3) == Place(r, 2) + |b + [44]|;
    assert Place(r, 4) == Place(r, 3) + |c + [44]| && Place(r, 5) == Place(r, 4) + |d + [44]|;
  }

  lemma QuotedStart(s: seq<byte>, at: nat, t: seq<byte>)
    requires Sits(s, at, Quoted(t))
    ensures Sits(s, at + 1, t + [34]) && Sits(s, at + 1, t) && B(s, at) == 34 && B(s, at + |t| + 1) == 34
  {
    hide Sits;
    var q: seq<byte> := [34];
    assert Quoted(t) == q + (t + q);
    SitsSplit(s, at, q, t + q);
    SitsAt(s, at, q, 0);
    SitsSplit(s, at + 1, t, q);
    SitsAt(s, at + 1 + |t|, q, 0);
  }

  lemma QuotedValue(s: seq<byte>, at: nat, t: seq<byte>)
    requires B(s, at) == 34 && StringEnd(s, at + 1) == at + 1 + |t|
    ensures ValueEnd(s, at, 1) == at + |Quoted(t)| == at + |t| + 2
  {
    hide StringEnd;
  }

  /** The identifier's value: one string, its units and its bytes. */
  lemma IdentValue(s: seq<byte>, at: nat, r: Part)
    requires Valid(r) && Sits(s, at, Quoted(Escape(r.ident)))
    ensures ValueEnd(s, at, 1) == at + |Quoted(Escape(r.ident))|
    ensures IdentRead(s, Span(at, at + |Quoted(Escape(r.ident))|)) == Some((r.ident, r.units))
  {
    hide Escape, StringEnd, ValueEnd, IdentCopy, Utf16, Sits;
    var t := Escape(r.ident);
    QuotedStart(s, at, t);
    assert r.ident[0..] == r.ident;
    IdentReads(r.ident, 0, s, at + 1, []);
    assert [] + r.ident == r.ident;
    QuotedValue(s, at, t);
  }

  lemma {:induction false} Base64Plain(b: seq<byte>)
    ensures PlainText(Base64(b))
    decreases |b|
  {
    hide Quad, Base64;
    if b == [] {
      assert Base64([]) == [];
    } else {
      var h, rest := if |b| <= 3 then b else b[..3], if |b| <= 3 then [] else b[3..];
      Base64Step(b, h, rest);
      QuadPlain(h);
      Base64Plain(rest);
    }
  }

  lemma PayloadValue(s: seq<byte>, at: nat, b: seq<byte>)
    requires |b| <= 700 && Sits(s, at, Quoted(Base64(b)))
    ensures ValueEnd(s, at, 1) == at + |Quoted(Base64(b))|
    ensures PayloadRead(s, Span(at, at + |Quoted(Base64(b))|)) == Some(b)
  {
    hide Base64, StringEnd, ValueEnd, Base64Read, Sits, PlainText;
    var t := Base64(b);
    QuotedStart(s, at, t);
    Base64Plain(b);
    PlainEnd(s, at + 1, t);
    QuotedValue(s, at, t);
    Base64Reads(b, s, at + 1, []);
    assert [] + b == b;
  }

  /** The span of each value. */
  function SpanOf(r: Part, kind: nat): Span {
    Span(Place(r, kind) + |NameOf(kind)| + 3, Place(r, kind) + |NameOf(kind)| + 3 + |ValueOf(r, kind)|)
  }

  lemma SpanSits(r: Part, k: nat)
    requires 1 <= k <= 5
    ensures var s, p := Encode(r), SpanOf(r, k);
            && Sits(s, p.start, ValueOf(r, k)) && Sits(s, p.start, ValueOf(r, k) + [Mark(k)])
            && Sits(s, Place(r, k), Member(NameOf(k), ValueOf(r, k)) + [Mark(k)])
            && p.end == Place(r, k) + |MemberOf(r, k)| && p.end == p.start + |ValueOf(r, k)|
  {
    Placed(r);
    hide Sits, Encode, Place, NameOf, ValueOf, Member;
    assert Sits(Encode(r), Place(r, k), Member(NameOf(k), ValueOf(r, k)) + [Mark(k)]);
    ValueSits(Encode(r), Place(r, k), NameOf(k), ValueOf(r, k), Mark(k));
  }

  lemma ValueStarts(r: Part, k: nat)
    ensures Starts(ValueOf(r, k))
  {
    DecimalDigits(r.index);
    DecimalDigits(r.parts);
    hide Decimal, Escape, Base64;
  }

  /** Every value of the object ends where its mark stands. */
  lemma ValueEnds(r: Part, k: nat)
    requires Valid(r) && 1 <= k <= 5
    ensures ValueEnd(Encode(r), SpanOf(r, k).start, 1) == SpanOf(r, k).end
  {
    hide Encode, ValueEnd, SpanOf, Escape, Base64, Valid, Sits;
    var s, at := Encode(r), SpanOf(r, k).start;
    SpanSits(r, k);
    if k == 1 {
      assert Decimal(1) == [49];
      NumberValue(s, at, 1);
    } else if k == 2 {
      IdentValue(s, at, r);
    } else if k == 5 {
      TextBound(r);
      PayloadValue(s, at, r.text);
    } else {
      hide Decimal;
      NumberValue(s, at, if k == 3 then r.index else r.parts);
    }
  }

  lemma TextBound(r: Part)
    requires Valid(r)
    ensures |r.text| <= 700 && r.index <= 2047 && 1 <= r.parts <= 2048 && r.index < r.parts && 1 <= r.units <= 160
  {
  }

  /** The spans of the members before `k`. */
  function Spans(r: Part, k: nat): (m: map<nat, Span>)
    ensures Ordered(m)
  {
    forall i
      ensures SpanOf(r, i).start < SpanOf(r, i).end
    {
      ValueStarts(r, i);
    }
    map i | 1 <= i < k :: SpanOf(r, i)
  }

  lemma SpansStep(r: Part, k: nat)
    requires 1 <= k
    ensures Spans(r, k)[k := SpanOf(r, k)] == Spans(r, k + 1) && k !in Spans(r, k)
  {
    hide SpanOf;
  }

  lemma AllSpans(r: Part)
    ensures Spans(r, 6).Keys == {1, 2, 3, 4, 5} && Spans(r, 1) == map[]
    ensures forall k :: 1 <= k <= 5 ==> Spans(r, 6)[k] == SpanOf(r, k)
  {
    hide SpanOf;
  }

  lemma NextPlace(r: Part, k: nat)
    requires 1 <= k <= 5
    ensures SpanOf(r, k).start == Place(r, k) + |NameOf(k)| + 3
            && SpanOf(r, k).end == SpanOf(r, k).start + |ValueOf(r, k)|
    ensures k < 5 ==> Place(r, k + 1) == SpanOf(r, k).end + 1 && B(Encode(r), SpanOf(r, k).end + 1) == 34
    ensures k == 5 ==> SpanOf(r, k).end + 1 == |Encode(r)|
  {
    hide Encode, NameOf, ValueOf, Sits, Member;
    Placed(r);
    SpanSits(r, k);
    if k < 5 {
      NextStarts(r, k + 1);
    }
  }

  /** One step of the reader over the object's own text. */
  lemma MemberOne(r: Part, k: nat)
    requires Valid(r) && 1 <= k <= 5
    ensures Members(Encode(r), Place(r, k), Spans(r, k))
         == if k < 5 then Members(Encode(r), Place(r, k + 1), Spans(r, k + 1)) else Some(Spans(r, 6))
  {
    hide Encode, ValueEnd, ValueOf, NameOf, Members, Sits, Member, Ordered, Valid, Spans, Place, KeyKind, Starts,
         MemberOf,
         SpanOf, PlainText, B;
    SpanSits(r, k);
    ValueStarts(r, k);
    ValueEnds(r, k);
    NameReads(r, k);
    SpansStep(r, k);
    AllSpans(r);
    NextPlace(r, k);
    var p := SpanOf(r, k);
    assert p == Span(p.start, p.end);
    MemberReads(Encode(r), Place(r, k), NameOf(k), k, ValueOf(r, k), Mark(k), Spans(r, k));
  }

  lemma NameReads(r: Part, k: nat)
    requires 1 <= k <= 5
    ensures var at := Place(r, k) + 1;
            && at + |NameOf(k)| <= |Encode(r)| && PlainText(NameOf(k)) && KeyKind(Encode(r), at, at + |NameOf(k)|) == k
  {
    hide Encode, Place, NameOf, ValueOf, Sits, Member;
    SpanSits(r, k);
    ValueSits(Encode(r), Place(r, k), NameOf(k), ValueOf(r, k), Mark(k));
    ValueStarts(r, k);
    MemberParts(Encode(r), Place(r, k), NameOf(k), ValueOf(r, k));
    SitsInside(Encode(r), Place(r, k) + 1, NameOf(k));
    KindReads(Encode(r), Place(r, k) + 1, k);
  }

  lemma NextStarts(r: Part, k: nat)
    requires 1 <= k <= 5
    ensures B(Encode(r), Place(r, k)) == 34
  {
    hide Encode, Place, NameOf, ValueOf, Sits, Member;
    SpanSits(r, k);
    ValueSits(Encode(r), Place(r, k), NameOf(k), ValueOf(r, k), Mark(k));
    ValueStarts(r, k);
    MemberParts(Encode(r), Place(r, k), NameOf(k), ValueOf(r, k));
  }

  /** Reading from member `k` on collects the spans of the rest. */
  lemma {:induction false} MembersRead(r: Part, k: nat)
    requires Valid(r) && 1 <= k <= 5
    ensures Members(Encode(r), Place(r, k), Spans(r, k)) == Some(Spans(r, 6))
    decreases 5 - k
  {
    hide Encode, Members, SpanOf, Place, Spans, Valid;
    MemberOne(r, k);
    if k < 5 {
      MembersRead(r, k + 1);
    }
  }

  lemma ParseIs(s: seq<byte>)
    requires B(s, 0) == 123 && B(s, 1) == 34
    ensures Parse(s) == Members(s, 1, map[])
  {
    hide Members;
    NoSpace(s, 0);
    NoSpace(s, 1);
    hide SkipSpace;
  }

  lemma ParseReads(r: Part)
    requires Valid(r)
    ensures Parse(Encode(r)) == Some(Spans(r, 6))
  {
    hide Encode, Members, Sits, Spans, SkipSpace, Valid, MemberOf, Parse;
    Placed(r);
    NextStarts(r, 1);
    AllSpans(r);
    MembersRead(r, 1);
    ParseIs(Encode(r));
  }

  function Pow10(k: nat): (p: nat)
    ensures p >= 1
  {
    if k == 0 then 1 else 10 * Pow10(k - 1)
  }

  lemma {:induction false} DecimalLength(n: nat, k: nat)
    requires n < Pow10(k) && k > 0
    ensures |Decimal(n)| <= k
  {
    if n >= 10 {
      DecimalLength(n / 10, k - 1);
    }
  }

  /** The text is never longer than 4851 bytes. */
  lemma EncodeLength(r: Part)
    requires Valid(r)
    ensures |Encode(r)| <= 4851
  {
    assert Pow10(4) == 10000 by {
      assert Pow10(2) == 100;
    }
    DecimalLength(r.index, 4);
    DecimalLength(r.parts, 4);
    hide Escape, Base64, Decimal, Utf16;
  }

  lemma NumbersBack(r: Part)
    requires Valid(r)
    ensures var s := Encode(r);
            && Natural(s, SpanOf(r, 1), 1) == 1 && Natural(s, SpanOf(r, 3), 2047) == r.index
            && Natural(s, SpanOf(r, 4), 2048) == r.parts
  {
    assert Decimal(1) == [49];
    TextBound(r);
    hide Encode, SpanOf, NaturalValue, Decimal, Sits, Valid, Quoted, Escape, Base64;
    NumberBack(r, 1, 1, 1);
    NumberBack(r, 3, r.index, 2047);
    NumberBack(r, 4, r.parts, 2048);
  }

  lemma NumberBack(r: Part, k: nat, n: nat, limit: nat)
    requires 1 <= k <= 5 && ValueOf(r, k) == Decimal(n) && n <= limit
    ensures Natural(Encode(r), SpanOf(r, k), limit) == n
  {
    hide Encode, SpanOf, NaturalValue, Decimal, Sits, ValueOf;
    SpanSits(r, k);
    SitsInside(Encode(r), SpanOf(r, k).start, ValueOf(r, k));
    NumberReads(Encode(r), SpanOf(r, k).start, n, limit);
  }

  lemma SpanIs(r: Part, k: nat)
    ensures SpanOf(r, k) == Span(SpanOf(r, k).start, SpanOf(r, k).end)
  {
    hide SpanOf;
  }

  lemma TextValues(r: Part)
    ensures ValueOf(r, 2) == Quoted(Escape(r.ident)) && ValueOf(r, 5) == Quoted(Base64(r.text))
  {
  }

  lemma IdentBack(r: Part)
    requires Valid(r)
    ensures IdentRead(Encode(r), SpanOf(r, 2)) == Some((r.ident, r.units))
  {
    hide Encode, SpanOf, IdentRead, Sits, Escape, Quoted, Valid, Place, Member, MemberOf, NameOf, ValueOf;
    TextBound(r);
    SpanSits(r, 2);
    SpanIs(r, 2);
    TextValues(r);
    IdentValue(Encode(r), SpanOf(r, 2).start, r);
  }

  lemma PayloadBack(r: Part)
    requires Valid(r)
    ensures PayloadRead(Encode(r), SpanOf(r, 5)) == Some(r.text)
  {
    hide Encode, SpanOf, PayloadRead, Sits, Base64, Quoted, Valid, Place, Member, MemberOf, NameOf, ValueOf;
    TextBound(r);
    SpanSits(r, 5);
    SpanIs(r, 5);
    TextValues(r);
    PayloadValue(Encode(r), SpanOf(r, 5).start, r.text);
  }

  /** Decoding what was encoded gives the part back. */
  lemma RoundTrip(r: Part)
    requires Valid(r)
    ensures Decode(Encode(r)) == Some(r)
  {
    hide Encode, Parse, SpanOf, IdentRead, PayloadRead, Natural, Valid, Spans;
    TextBound(r);
    EncodeLength(r);
    ParseReads(r);
    NumbersBack(r);
    IdentBack(r);
    PayloadBack(r);
    AllSpans(r);
  }
}
