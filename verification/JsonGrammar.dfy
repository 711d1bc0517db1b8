/**
 What the strict cursor recognises, written down without the cursor: characters, strings,
 numbers and values nested at most 64 deep. Each cursor function accepts exactly its part.
 */
module JsonGrammar {
  import opened Common
  import opened JsonText

  // ---------------------------------------------------------------- characters

  predicate Scalar(v: nat) { v < 0xd800 || 0xe000 <= v < 0x110000 }

  /** `x` is the UTF-8 of a scalar other than the backslash. */
  predicate Plain(x: seq<byte>, v: nat) { Scalar(v) && v != BACKSLASH && x == Utf8(v) }

  /** A backslash and one of `"\/bfnrt`. */
  predicate Escaped(x: seq<byte>, v: nat) {
    && |x| == 2 && x[0] == BACKSLASH
    && (x[1], v) in {(34, 34), (92, 92), (47, 47), (98, 8), (102, 12), (110, 10), (114, 13), (116, 9)}
  }

  /** `\uXXXX` for the unit `v`. */
  predicate Unit(x: seq<byte>, v: nat) {
    && |x| == 6 && x[0] == BACKSLASH && x[1] == 117
    && (forall i :: 2 <= i < 6 ==> HexDigit(x[i]) >= 0)
    && v == ((HexDigit(x[2]) * 16 + HexDigit(x[3])) * 16 + HexDigit(x[4])) * 16 + HexDigit(x[5])
  }

  /** The unit numbers of a pair. */
  function High(v: nat): nat
    requires v >= 0x10000
  {
    0xd800 + (v - 0x10000) / 0x400
  }

  function Low(v: nat): nat
    requires v >= 0x10000
  {
    0xdc00 + (v - 0x10000) % 0x400
  }

  /** Two units, the high surrogate first. */
  ghost predicate Pair(x: seq<byte>, v: nat) {
    && |x| == 12 && 0x10000 <= v < 0x110000
    && Unit(x[..6], High(v)) && Unit(x[6..], Low(v))
  }

  /** One character of a string: `x` is a spelling of the scalar `v`. */
  ghost predicate Spells(x: seq<byte>, v: nat) {
    Plain(x, v) || Escaped(x, v) || (Unit(x, v) && Scalar(v)) || Pair(x, v)
  }

  /** A scalar written as UTF-8 reads back as that scalar. */
  lemma LiteralReads(v: nat, s: seq<byte>, at: nat, limit: nat)
    requires Scalar(v) && Sits(s, at, Utf8(v)) && at + |Utf8(v)| <= limit <= |s|
    ensures LiteralStep(s, at, limit) == Char(at + |Utf8(v)|, v)
  {
    var u := Utf8(v);
    SitsAt(s, at, u, 0);
    if |u| > 1 {
      SitsAt(s, at, u, 1);
    }
    if |u| > 2 {
      SitsAt(s, at, u, 2);
    }
    if |u| > 3 {
      SitsAt(s, at, u, 3);
    }
    Rebuild(v);
  }

  lemma Rebuild(v: nat)
    ensures v == v / 64 * 64 + v % 64
    ensures v / 64 == v / 4096 * 64 + v / 64 % 64
    ensures v / 4096 == v / 262144 * 64 + v / 4096 % 64
  {
    assert v / 64 / 64 == v / 4096 && v / 4096 / 64 == v / 262144;
  }

  lemma FourUnit(s: seq<byte>, at: nat, limit: nat, v: nat)
    requires at + 6 <= limit <= |s| && s[at] == BACKSLASH && s[at + 1] == 117
    ensures FourHex(s, at + 2, limit) == v <==> Unit(s[at..at + 6], v)
  {
    var x := s[at..at + 6];
    assert forall i :: 0 <= i < 6 ==> x[i] == B(s, at + i);
  }

  lemma PlainExact(s: seq<byte>, at: nat, n: nat, limit: nat, v: nat)
    requires at < n <= limit <= |s| && s[at] != BACKSLASH
    ensures LiteralStep(s, at, limit) == Char(n, v) <==> Plain(s[at..n], v)
  {
    if LiteralStep(s, at, limit) == Char(n, v) {
      LiteralCanonical(s, at, limit);
      LiteralScalar(s, at, limit);
    }
    if Plain(s[at..n], v) {
      assert Sits(s, at, Utf8(v));
      LiteralReads(v, s, at, limit);
    }
  }

  lemma LiteralScalar(s: seq<byte>, at: nat, limit: nat)
    requires LiteralStep(s, at, limit).Char? && s[at] != BACKSLASH
    ensures Scalar(LiteralStep(s, at, limit).scalar) && LiteralStep(s, at, limit).scalar != BACKSLASH
  {
  }

  lemma ShortExact(s: seq<byte>, at: nat, n: nat, limit: nat, v: nat)
    requires at + 1 < limit <= |s| && n <= limit && at < n && s[at] == BACKSLASH && s[at + 1] != 117
    ensures NextCharacter(s, at, limit) == Char(n, v) <==> Escaped(s[at..n], v)
  {
  }

  lemma PairUnits(x: seq<byte>, a: nat, b: nat, v: nat)
    requires |x| == 12
    ensures (Unit(x[..6], a) && Unit(x[6..], b) && 0xd800 <= a < 0xdc00 <= b < 0xe000
             && v == 0x10000 + (a - 0xd800) * 0x400 + (b - 0xdc00))
       ==> Pair(x, v)
  {
    var a', b' := a - 0xd800, b - 0xdc00;
    if 0 <= a' < 0x400 && 0 <= b' < 0x400 {
      assert (a' * 0x400 + b') / 0x400 == a' && (a' * 0x400 + b') % 0x400 == b';
    }
  }

  lemma UnicodeExact(s: seq<byte>, at: nat, n: nat, limit: nat, v: nat)
    requires at + 1 < limit <= |s| && at < n <= limit && s[at] == BACKSLASH && s[at + 1] == 117
    ensures NextCharacter(s, at, limit) == Char(n, v) <==> (Unit(s[at..n], v) && Scalar(v)) || Pair(s[at..n], v)
  {
    var first := FourHex(s, at + 2, limit);
    var x := s[at..n];
    assert x[0] == BACKSLASH && (n > at + 1 ==> x[1] == 117);
    if at + 6 <= limit && first >= 0 {
      FourUnit(s, at, limit, first);
      if n == at + 12 {
        PairExact(s, at, limit, first, v);
      } else if n == at + 6 {
        assert Unit(x, v) <==> v == first;
      }
    }
  }

  lemma PairExact(s: seq<byte>, at: nat, limit: nat, first: nat, v: nat)
    requires at + 12 <= limit <= |s| && s[at] == BACKSLASH && s[at + 1] == 117 && FourHex(s, at + 2, limit) == first
    ensures UnicodeEscape(s, at, limit, first) == Char(at + 12, v) <==> Pair(s[at..at + 12], v)
  {
    var x := s[at..at + 12];
    assert x[..6] == s[at..at + 6] && x[6..] == s[at + 6..at + 12];
    FourUnit(s, at, limit, first);
    assert x[6] == s[at + 6] && x[7] == s[at + 7];
    if s[at + 6] == BACKSLASH && s[at + 7] == 117 {
      var low := FourHex(s, at + 8, limit);
      if low >= 0 {
        FourUnit(s, at + 6, limit, low);
        PairUnits(x, first, low, v);
      }
    }
    hide FourHex;
    if Pair(x, v) {
      UnitUnique(s, at, limit, High(v));
      UnitUnique(s, at + 6, limit, Low(v));
    }
  }

  lemma UnitUnique(s: seq<byte>, at: nat, limit: nat, v: nat)
    requires at + 6 <= limit <= |s| && Unit(s[at..at + 6], v)
    ensures s[at] == BACKSLASH && s[at + 1] == 117 && FourHex(s, at + 2, limit) == v
  {
    var x := s[at..at + 6];
    assert s[at] == x[0] && s[at + 1] == x[1];
    FourUnit(s, at, limit, v);
  }

  /** A character step reads exactly the spellings: nothing else is accepted, and the scalar is the one spelled. */
  lemma CharacterExact(s: seq<byte>, at: nat, n: nat, limit: nat, v: nat)
    requires at < n <= limit <= |s|
    ensures NextCharacter(s, at, limit) == Char(n, v) <==> Spells(s[at..n], v)
  {
    var x := s[at..n];
    assert x[0] == s[at] && (n > at + 1 ==> x[1] == s[at + 1]);
    if s[at] != BACKSLASH {
      PlainExact(s, at, n, limit, v);
      hide Plain;
    } else {
      PlainHead(x, v);
      if at + 1 < limit {
        if s[at + 1] == 117 {
          UnicodeExact(s, at, n, limit, v);
        } else {
          ShortExact(s, at, n, limit, v);
        }
      }
    }
  }

  lemma PlainHead(x: seq<byte>, v: nat)
    ensures Plain(x, v) ==> x != [] && x[0] != BACKSLASH
  {
  }

  /** The hexadecimal digits, in either case. */
  lemma HexDigitIs(c: int, h: nat)
    requires h < 16
    ensures HexDigit(c) == h <==> c == "0123456789abcdef"[h] as int || c == "0123456789ABCDEF"[h] as int
  {
  }

  /** Known spellings: one scalar of each UTF-8 length, the first and last of each, and an escaped pair. */
  lemma Known()
    ensures Spells([0x41], 0x41) && Spells([0x7f], 0x7f) && Spells([0xc2, 0x80], 0x80) && Spells([0xdf, 0xbf], 0x7ff)
    ensures Spells([0xe0, 0xa0, 0x80], 0x800) && Spells([0xe2, 0x82, 0xac], 0x20ac)
    ensures Spells([0xef, 0xbf, 0xbf], 0xffff) && Spells([0xf0, 0x90, 0x80, 0x80], 0x10000)
    ensures Spells([0xf4, 0x8f, 0xbf, 0xbf], 0x10ffff)
    ensures TRUE == Ascii("true") && FALSE == Ascii("false") && NULL == Ascii("null")
  {
  }

  // ---------------------------------------------------------------- strings and space

  /** The text between two quotes: characters, none of them a bare quote or a control. */
  ghost predicate Body(x: seq<byte>) {
    x == [] || exists n, v :: 0 < n <= |x| && x[0] >= 32 && x[0] != QUOTE && Spells(x[..n], v) && Body(x[n..])
  }

  lemma {:induction false} BodySound(s: seq<byte>, at: nat)
    requires StringEnd(s, at) >= 0
    ensures Body(s[at..StringEnd(s, at)]) && s[StringEnd(s, at)] == QUOTE
    decreases |s| - at
  {
    hide Spells, NextCharacter;
    var r := StringEnd(s, at);
    if at < r {
      var t, x := NextCharacter(s, at, |s|), s[at..r];
      BodySound(s, t.next);
      CharacterExact(s, at, t.next, |s|, t.scalar);
      assert x[..t.next - at] == s[at..t.next] && x[t.next - at..] == s[t.next..r];
    }
  }

  lemma {:induction false} BodyComplete(s: seq<byte>, at: nat, r: nat)
    requires at <= r < |s| && s[r] == QUOTE && Body(s[at..r])
    ensures StringEnd(s, at) == r
    decreases r - at
  {
    hide Spells, NextCharacter;
    var x := s[at..r];
    if at < r {
      var n, v :| 0 < n <= |x| && x[0] >= 32 && x[0] != QUOTE && Spells(x[..n], v) && Body(x[n..]);
      assert x[..n] == s[at..at + n] && x[n..] == s[at + n..r];
      CharacterExact(s, at, at + n, |s|, v);
      BodyComplete(s, at + n, r);
    }
  }

  predicate White(v: int) { v == 32 || v == 9 || v == 10 || v == 13 }

  predicate Blank(x: seq<byte>) { forall i :: 0 <= i < |x| ==> White(x[i]) }

  lemma {:induction false} SpaceSound(s: seq<byte>, at: nat)
    requires at <= |s|
    ensures Blank(s[at..SkipSpace(s, at)]) && !White(B(s, SkipSpace(s, at)))
    decreases |s| - at
  {
    if White(B(s, at)) {
      SpaceSound(s, at + 1);
      var r := SkipSpace(s, at);
      assert s[at..r] == [s[at]] + s[at + 1..r];
    }
  }

  lemma {:induction false} SpaceComplete(s: seq<byte>, at: nat, r: nat)
    requires at <= r <= |s| && Blank(s[at..r]) && !White(B(s, r))
    ensures SkipSpace(s, at) == r
    decreases r - at
  {
    if at < r {
      assert s[at..r][0] == s[at] && s[at..r][1..] == s[at + 1..r];
      SpaceComplete(s, at + 1, r);
    }
  }

  // ---------------------------------------------------------------- numbers

  datatype Numeral = Numeral(minus: bool, whole: seq<byte>, fraction: seq<byte>, mark: seq<byte>, exponent: seq<byte>)

  predicate Digits(x: seq<byte>) { forall i :: 0 <= i < |x| ==> Digit(x[i]) }

  predicate Marked(x: seq<byte>) {
    && 1 <= |x| <= 2 && (x[0] == 101 || x[0] == 69) && (|x| == 2 ==> x[1] == 43 || x[1] == 45)
  }

  /** No leading zero; a point and an exponent are followed by at least one digit. */
  predicate LegalNumeral(n: Numeral) {
    && Digits(n.whole) && n.whole != [] && (n.whole[0] == 48 ==> |n.whole| == 1)
    && Digits(n.fraction) && Digits(n.exponent)
    && (if n.exponent == [] then n.mark == [] else Marked(n.mark))
  }

  function NumeralText(n: Numeral): seq<byte> {
    (if n.minus then [45] else []) + n.whole + Pointed(n.fraction) + (n.mark + n.exponent)
  }

  function Pointed(fraction: seq<byte>): seq<byte> { if fraction == [] then [] else [46] + fraction }

  /** The byte after the numeral does not continue it. */
  predicate Ends(n: Numeral, next: int) {
    && (Digit(next) ==> n.whole == [48] && n.fraction == [] && n.exponent == [])
    && (next == 46 ==> n.fraction != [] || n.exponent != [])
    && (next == 101 || next == 69 ==> n.exponent != [])
  }

  lemma {:induction false} DigitsSound(s: seq<byte>, at: nat)
    requires at <= |s|
    ensures Digits(s[at..DigitsEnd(s, at)]) && !Digit(B(s, DigitsEnd(s, at)))
    decreases |s| - at
  {
    if Digit(B(s, at)) {
      DigitsSound(s, at + 1);
      var r := DigitsEnd(s, at);
      assert s[at..r] == [s[at]] + s[at + 1..r];
    }
  }

  lemma {:induction false} DigitsComplete(s: seq<byte>, at: nat, r: nat)
    requires at <= r <= |s| && Digits(s[at..r]) && !Digit(B(s, r))
    ensures DigitsEnd(s, at) == r
    decreases r - at
  {
    if at < r {
      assert s[at..r][0] == s[at] && s[at..r][1..] == s[at + 1..r];
      DigitsComplete(s, at + 1, r);
    }
  }

  lemma DigitsCons(d: byte, x: seq<byte>)
    requires Digit(d) && Digits(x)
    ensures Digits([d] + x) && ([d] + x)[0] == d
  {
  }

  /** Digits from `at` on, the first of them known. */
  lemma DigitsFrom(s: seq<byte>, at: nat)
    requires at < |s| && Digit(s[at])
    ensures var r := DigitsEnd(s, at + 1);
            at < r <= |s| && Digits(s[at..r]) && s[at..r] != [] && s[at..r][0] == s[at] && !Digit(B(s, r))
  {
    hide Digits, DigitsEnd;
    DigitsSound(s, at + 1);
    CutOne(s, at, DigitsEnd(s, at + 1));
    DigitsCons(s[at], s[at + 1..DigitsEnd(s, at + 1)]);
  }

  lemma ExponentSound(s: seq<byte>, at: nat) returns (mark: seq<byte>, exponent: seq<byte>)
    requires at <= |s| && ExponentEnd(s, at) >= 0
    ensures s[at..ExponentEnd(s, at)] == mark + exponent && Digits(exponent)
    ensures if exponent == [] then mark == [] && B(s, at) != 101 && B(s, at) != 69
            else Marked(mark) && !Digit(B(s, ExponentEnd(s, at)))
  {
    var r := ExponentEnd(s, at);
    mark, exponent := [], [];
    if B(s, at) == 101 || B(s, at) == 69 {
      var start := if B(s, at + 1) == 43 || B(s, at + 1) == 45 then at + 2 else at + 1;
      DigitsFrom(s, start);
      mark, exponent := s[at..start], s[start..r];
    }
  }

  lemma FractionSound(s: seq<byte>, at: nat) returns (fraction: seq<byte>, mark: seq<byte>, exponent: seq<byte>)
    requires at <= |s| && FractionEnd(s, at) >= 0
    ensures s[at..FractionEnd(s, at)] == Pointed(fraction) + (mark + exponent) && Digits(fraction) && Digits(exponent)
    ensures if exponent == [] then mark == [] else Marked(mark)
    ensures var next := B(s, FractionEnd(s, at));
            && (Digit(next) ==> fraction == [] && exponent == [])
            && (next == 46 ==> fraction != [] || exponent != [])
            && (next == 101 || next == 69 ==> exponent != [])
  {
    if B(s, at) == 46 {
      DigitsFrom(s, at + 1);
      var mid := DigitsEnd(s, at + 2);
      fraction := s[at + 1..mid];
      mark, exponent := ExponentSound(s, mid);
      assert s[at..mid] == [46] + fraction;
      assert s[at..FractionEnd(s, at)] == s[at..mid] + s[mid..FractionEnd(s, at)];
    } else {
      fraction := [];
      mark, exponent := ExponentSound(s, at);
    }
  }

  /** Where the digits before the point end. */
  function WholeEnd(s: seq<byte>, at: nat): nat { if B(s, at) == 48 then at + 1 else DigitsEnd(s, at + 1) }

  function AfterSign(s: seq<byte>, at: nat): nat { if B(s, at) == 45 then at + 1 else at }

  lemma NumberSteps(s: seq<byte>, at: nat)
    ensures NumberEnd(s, at)
         == if Digit(B(s, AfterSign(s, at))) then FractionEnd(s, WholeEnd(s, AfterSign(s, at))) else -1
  {
  }

  lemma WholeSound(s: seq<byte>, at: nat)
    requires Digit(B(s, at))
    ensures var end := WholeEnd(s, at);
            && at < end <= |s| && Digits(s[at..end]) && s[at..end][0] == s[at] && (s[at] == 48 ==> end == at + 1)
            && (s[at] != 48 ==> !Digit(B(s, end)))
  {
    DigitsFrom(s, at);
  }

  lemma NumberSound(s: seq<byte>, at: nat) returns (n: Numeral)
    requires at <= |s| && NumberEnd(s, at) >= 0
    ensures LegalNumeral(n) && s[at..NumberEnd(s, at)] == NumeralText(n) && Ends(n, B(s, NumberEnd(s, at)))
  {
    NumberSteps(s, at);
    var end, start := NumberEnd(s, at), AfterSign(s, at);
    WholeSound(s, start);
    var mid := WholeEnd(s, start);
    hide FractionEnd, WholeEnd, Digits, NumberEnd, AfterSign, Pointed, Marked;
    var fraction, mark, exponent := FractionSound(s, mid);
    n := Numeral(B(s, at) == 45, s[start..mid], fraction, mark, exponent);
    SignText(s, at);
    NumberText(s, at, start, mid, end, n);
    WholeIsZero(s, start, n.whole);
  }

  lemma SignText(s: seq<byte>, at: nat)
    requires at < |s|
    ensures s[at..AfterSign(s, at)] == if B(s, at) == 45 then [45] else []
  {
  }

  lemma WholeIsZero(s: seq<byte>, at: nat, whole: seq<byte>)
    requires whole != [] && B(s, at) == whole[0] && (whole[0] == 48 ==> |whole| == 1)
    ensures B(s, at) == 48 ==> whole == [48]
  {
  }

  lemma NumberText(s: seq<byte>, at: nat, start: nat, mid: nat, end: nat, n: Numeral)
    requires at <= start <= mid <= end <= |s| && s[at..start] == (if n.minus then [45] else [])
    requires s[start..mid] == n.whole && s[mid..end] == Pointed(n.fraction) + (n.mark + n.exponent)
    ensures s[at..end] == NumeralText(n)
  {
    hide Pointed;
    var sign: seq<byte> := if n.minus then [45] else [];
    Glue(s, start, mid, end);
    Glue(s, at, start, end);
    Nest(sign, n.whole, Pointed(n.fraction), n.mark + n.exponent);
  }

  lemma ExponentComplete(s: seq<byte>, at: nat, mark: seq<byte>, exponent: seq<byte>)
    requires Sits(s, at, mark + exponent) && Digits(exponent) && (if exponent == [] then mark == [] else Marked(mark))
    requires if exponent == [] then B(s, at) != 101 && B(s, at) != 69 else !Digit(B(s, at + |mark + exponent|))
    ensures ExponentEnd(s, at) == at + |mark + exponent|
  {
    if exponent != [] {
      SitsSplit(s, at, mark, exponent);
      SitsAt(s, at, mark, 0);
      var start, end := at + |mark|, at + |mark + exponent|;
      SitsAt(s, start, exponent, 0);
      if |mark| == 2 {
        SitsAt(s, at, mark, 1);
      }
      assert s[start + 1..end] == exponent[1..];
      DigitsComplete(s, start + 1, end);
    }
  }

  lemma FractionComplete(s: seq<byte>, at: nat, fraction: seq<byte>, mark: seq<byte>, exponent: seq<byte>)
    requires Sits(s, at, Pointed(fraction) + (mark + exponent)) && Digits(fraction) && Digits(exponent)
    requires if exponent == [] then mark == [] else Marked(mark)
    requires var next := B(s, at + |Pointed(fraction) + (mark + exponent)|);
             && (Digit(next) ==> fraction == [] && exponent == [])
             && (next == 46 ==> fraction != [] || exponent != [])
             && (next == 101 || next == 69 ==> exponent != [])
    ensures FractionEnd(s, at) == at + |Pointed(fraction) + (mark + exponent)|
  {
    var mid := at + |Pointed(fraction)|;
    SitsSplit(s, at, Pointed(fraction), mark + exponent);
    if exponent != [] {
      SitsAt(s, mid, mark + exponent, 0);
    }
    hide ExponentEnd;
    ExponentComplete(s, mid, mark, exponent);
    if fraction != [] {
      SitsAt(s, at, Pointed(fraction), 0);
      SitsAt(s, at, Pointed(fraction), 1);
      assert s[at + 2..mid] == Pointed(fraction)[2..] == fraction[1..];
      DigitsComplete(s, at + 2, mid);
    }
  }

  lemma WholeComplete(s: seq<byte>, at: nat, whole: seq<byte>)
    requires Sits(s, at, whole) && Digits(whole) && whole != [] && (whole[0] == 48 ==> |whole| == 1)
    requires whole[0] != 48 ==> !Digit(B(s, at + |whole|))
    ensures Digit(B(s, at)) && WholeEnd(s, at) == at + |whole|
  {
    SitsAt(s, at, whole, 0);
    if s[at] != 48 {
      assert s[at + 1..at + |whole|] == whole[1..];
      DigitsComplete(s, at + 1, at + |whole|);
    }
  }

  lemma SignComplete(s: seq<byte>, at: nat, minus: bool, whole: seq<byte>)
    requires Sits(s, at, (if minus then [45] else []) + whole) && whole != [] && whole[0] != 45
    ensures AfterSign(s, at) == if minus then at + 1 else at
    ensures Sits(s, AfterSign(s, at), whole)
  {
    var sign: seq<byte> := if minus then [45] else [];
    SitsSplit(s, at, sign, whole);
    if minus {
      SitsAt(s, at, sign, 0);
    } else {
      SitsAt(s, at, whole, 0);
    }
  }

  lemma NumberComplete(s: seq<byte>, at: nat, n: Numeral)
    requires LegalNumeral(n) && Sits(s, at, NumeralText(n)) && Ends(n, B(s, at + |NumeralText(n)|))
    ensures NumberEnd(s, at) == at + |NumeralText(n)|
  {
    hide FractionEnd, WholeEnd, Digits, Sits, NumberEnd, AfterSign, Pointed, Marked, NumeralText;
    var tail := Pointed(n.fraction) + (n.mark + n.exponent);
    SignApart(n);
    FirstDigit(n.whole);
    SignComplete(s, at, n.minus, n.whole + tail);
    var start := AfterSign(s, at);
    SitsSplit(s, start, n.whole, tail);
    var mid := start + |n.whole|;
    TailFirst(s, mid, n.fraction, n.mark, n.exponent);
    FractionComplete(s, mid, n.fraction, n.mark, n.exponent);
    WholeIs(n);
    WholeComplete(s, start, n.whole);
    NumberSteps(s, at);
  }

  lemma SignApart(n: Numeral)
    ensures NumeralText(n) == (if n.minus then [45] else []) + (n.whole + (Pointed(n.fraction) + (n.mark + n.exponent)))
  {
    hide Pointed;
    Nest(if n.minus then [45] else [], n.whole, Pointed(n.fraction), n.mark + n.exponent);
  }

  lemma WholeIs(n: Numeral)
    requires LegalNumeral(n)
    ensures n.whole[0] != 48 ==> n.whole != [48]
  {
  }

  lemma FirstDigit(x: seq<byte>)
    requires Digits(x) && x != []
    ensures Digit(x[0])
  {
  }

  /** What comes after the whole digits is not another digit. */
  lemma TailFirst(s: seq<byte>, at: nat, fraction: seq<byte>, mark: seq<byte>, exponent: seq<byte>)
    requires Sits(s, at, Pointed(fraction) + (mark + exponent)) && (if exponent == [] then mark == [] else Marked(mark))
    ensures fraction != [] || exponent != [] ==> !Digit(B(s, at))
    ensures fraction == [] && exponent == [] ==> Pointed(fraction) + (mark + exponent) == []
  {
    if fraction != [] || exponent != [] {
      SitsAt(s, at, Pointed(fraction) + (mark + exponent), 0);
    }
  }

  // ---------------------------------------------------------------- values

  datatype Value =
    | Literal(text: seq<byte>)
    | Number(numeral: Numeral)
    | Text(body: seq<byte>)
    | Array(pad: seq<byte>, items: Items)
    | Object(pad: seq<byte>, items: Items)

  /** What a container holds, each with the space after it; `before` is the space after a comma. */
  datatype Items =
    | Nothing
    | Last(tag: Tag, value: Value, after: seq<byte>)
    | More(tag: Tag, value: Value, after: seq<byte>, before: seq<byte>, rest: Items)

  /** The name of an object's member, with the space around its colon. */
  datatype Tag = Unnamed | Named(name: seq<byte>, gap: seq<byte>, space: seq<byte>)

  function TagText(n: Tag): seq<byte> {
    if n.Unnamed? then [] else [34] + n.name + [34] + n.gap + [58] + n.space
  }

  function Spelled(v: Value): seq<byte> {
    match v
    case Literal(text) => text
    case Number(n) => NumeralText(n)
    case Text(body) => [34] + body + [34]
    case Array(pad, items) => [91] + pad + Listed(items) + [93]
    case Object(pad, items) => [123] + pad + Listed(items) + [125]
  }

  function Listed(items: Items): seq<byte> {
    match items
    case Nothing => []
    case Last(tag, value, after) => TagText(tag) + Spelled(value) + after
    case More(tag, value, after, before, rest) => TagText(tag) + Spelled(value) + after + [44] + before + Listed(rest)
  }

  ghost predicate LegalTag(n: Tag, named: bool) {
    if named then n.Named? && Body(n.name) && Blank(n.gap) && Blank(n.space) else n.Unnamed?
  }

  /** A value inside `depth` containers. */
  ghost predicate Legal(v: Value, depth: nat) {
    match v
    case Literal(text) => text == TRUE || text == FALSE || text == NULL
    case Number(n) => LegalNumeral(n)
    case Text(body) => Body(body)
    case Array(pad, items) => depth < 64 && Blank(pad) && LegalItems(items, false, depth + 1)
    case Object(pad, items) => depth < 64 && Blank(pad) && LegalItems(items, true, depth + 1)
  }

  ghost predicate LegalItems(items: Items, named: bool, depth: nat) {
    match items
    case Nothing => true
    case Last(tag, value, after) => LegalTag(tag, named) && Legal(value, depth) && Blank(after)
    case More(tag, value, after, before, rest) =>
      && LegalTag(tag, named) && Legal(value, depth) && Blank(after) && Blank(before)
      && rest != Nothing && LegalItems(rest, named, depth)
  }

  // ---------------------------------------------------------------- arrays and objects step by step

  function Close(named: bool): byte { if named then 125 else 93 }

  function Next(s: seq<byte>, at: nat, named: bool, depth: nat): (r: int)
    ensures r == -1 || at < r <= |s|
  {
    if named then ObjectNext(s, at, depth) else ArrayNext(s, at, depth)
  }

  /** Where the value of the entry at `at` starts, after its name and colon if it has one. */
  function TagEnd(s: seq<byte>, at: nat, named: bool): (r: int)
    ensures r == -1 || at <= r
  {
    if !named then at
    else if B(s, at) != QUOTE || StringEnd(s, at + 1) < 0 then -1
    else
      var colon := SkipSpace(s, StringEnd(s, at + 1) + 1);
      if B(s, colon) != 58 then -1 else SkipSpace(s, colon + 1)
  }

  lemma NextSteps(s: seq<byte>, at: nat, named: bool, depth: nat)
    ensures Next(s, at, named, depth)
         == if TagEnd(s, at, named) < 0 then -1
            else
              var finish := ValueEnd(s, TagEnd(s, at, named), depth);
              if finish < 0 then -1
              else
                var next := SkipSpace(s, finish);
                if B(s, next) == Close(named) then next + 1
                else if B(s, next) == 44 then Next(s, SkipSpace(s, next + 1), named, depth)
                else -1
  {
    hide SkipSpace, StringEnd, ValueEnd;
  }

  lemma TagFacts(s: seq<byte>, at: nat)
    requires TagEnd(s, at, true) >= 0
    ensures s[at] == 34 && StringEnd(s, at + 1) >= 0
    ensures var colon := SkipSpace(s, StringEnd(s, at + 1) + 1);
            at < StringEnd(s, at + 1) < colon < |s| && s[colon] == 58 && TagEnd(s, at, true) == SkipSpace(s, colon + 1)
  {
    hide StringEnd;
  }

  lemma NamedSound(s: seq<byte>, at: nat) returns (tag: Tag)
    requires at <= |s| && TagEnd(s, at, true) >= 0
    ensures TagEnd(s, at, true) <= |s| && LegalTag(tag, true) && s[at..TagEnd(s, at, true)] == TagText(tag)
  {
    hide SkipSpace, StringEnd, Body, Blank, TagEnd, TagText, White;
    TagFacts(s, at);
    var end := StringEnd(s, at + 1);
    var colon := SkipSpace(s, end + 1);
    var mid := TagEnd(s, at, true);
    BodySound(s, at + 1);
    SpaceSound(s, end + 1);
    SpaceSound(s, colon + 1);
    tag := Named(s[at + 1..end], s[end + 1..colon], s[colon + 1..mid]);
    TagPieces(s, at, end, colon, mid);
  }

  lemma TagSound(s: seq<byte>, at: nat, named: bool) returns (tag: Tag)
    requires at <= |s| && TagEnd(s, at, named) >= 0
    ensures TagEnd(s, at, named) <= |s| && LegalTag(tag, named) && s[at..TagEnd(s, at, named)] == TagText(tag)
  {
    hide LegalTag, SkipSpace, StringEnd;
    if named {
      tag := NamedSound(s, at);
    } else {
      tag := Unnamed;
      UnnamedText();
    }
  }

  lemma UnnamedText()
    ensures |TagText(Unnamed)| == 0 && LegalTag(Unnamed, false)
  {
  }

  lemma TagPieces(s: seq<byte>, at: nat, end: nat, colon: nat, mid: nat)
    requires at < end < colon < mid <= |s| && s[at] == 34 && s[end] == 34 && s[colon] == 58
    ensures s[at..mid] == TagText(Named(s[at + 1..end], s[end + 1..colon], s[colon + 1..mid]))
  {
    var name, gap, space := s[at + 1..end], s[end + 1..colon], s[colon + 1..mid];
    CutOne(s, at, mid);
    Glue(s, at + 1, end, mid);
    CutOne(s, end, mid);
    Glue(s, end + 1, colon, mid);
    CutOne(s, colon, mid);
    assert s[end..mid] == [34] + (gap + ([58] + space));
    Six([34], name, [34], gap, [58], space);
  }

  lemma Six(a: seq<byte>, b: seq<byte>, c: seq<byte>, d: seq<byte>, e: seq<byte>, f: seq<byte>)
    ensures a + (b + (c + (d + (e + f)))) == a + b + c + d + e + f
  {
    Nest(a + b, c, d, e + f);
    Nest(a, b, c, d + (e + f));
  }

  lemma JoinLast(s: seq<byte>, at: nat, mid: nat, finish: nat, next: nat, tag: Tag, v: Value)
    requires at <= mid <= finish <= next <= |s| && s[at..mid] == TagText(tag) && s[mid..finish] == Spelled(v)
    ensures s[at..next] == Listed(Last(tag, v, s[finish..next]))
  {
    hide TagText, Spelled;
    Glue(s, at, mid, finish);
    Glue(s, at, finish, next);
  }

  lemma CommaGlue(s: seq<byte>, at: nat, next: nat, start: nat, end: nat, head: seq<byte>, tail: seq<byte>)
    requires at <= next < start <= end <= |s| && s[next] == 44 && s[at..next] == head && s[start..end] == tail
    ensures s[at..end] == head + [44] + s[next + 1..start] + tail
  {
    Glue(s, at, next, end);
    Glue(s, next, next + 1, end);
    Glue(s, next + 1, start, end);
    assert s[next..next + 1] == [44];
  }

  lemma JoinMore(s: seq<byte>, at: nat, mid: nat, finish: nat, next: nat, start: nat, end: nat, tag: Tag, v: Value,
                 rest: Items)
    requires at <= mid <= finish <= next < start <= end <= |s| && s[at..mid] == TagText(tag)
             && s[mid..finish] == Spelled(v)
    requires s[next] == 44 && s[start..end] == Listed(rest)
    ensures s[at..end] == Listed(More(tag, v, s[finish..next], s[next + 1..start], rest))
  {
    JoinLast(s, at, mid, finish, next, tag, v);
    ListedMore(tag, v, s[finish..next], s[next + 1..start], rest);
    hide TagText, Spelled, Listed;
    CommaGlue(s, at, next, start, end, Listed(Last(tag, v, s[finish..next])), Listed(rest));
  }

  lemma ListedMore(tag: Tag, v: Value, after: seq<byte>, before: seq<byte>, rest: Items)
    ensures Listed(More(tag, v, after, before, rest)) == Listed(Last(tag, v, after)) + [44] + before + Listed(rest)
  {
    hide TagText, Spelled;
  }

  lemma JoinContainer(s: seq<byte>, at: nat, start: nat, end: nat, named: bool, items: Items)
    requires at < start <= end < |s| && s[at] == (if named then 123 else 91) && s[start..end] == Listed(items)
    requires s[end] == Close(named)
    ensures s[at..end + 1] == Spelled(Container(s[at + 1..start], items, named))
  {
    hide Listed;
    assert s[at..end + 1] == [s[at]] + s[at + 1..start] + s[start..end] + [s[end]];
  }

  function Container(pad: seq<byte>, items: Items, named: bool): Value {
    if named then Object(pad, items) else Array(pad, items)
  }

  lemma ContainerSteps(s: seq<byte>, at: nat, depth: nat, named: bool)
    requires B(s, at) == if named then 123 else 91
    ensures ValueEnd(s, at, depth)
         == if depth >= 64 then -1
            else
              var start := SkipSpace(s, at + 1);
              if B(s, start) == Close(named) then start + 1 else Next(s, start, named, depth + 1)
  {
    hide SkipSpace, ArrayNext, ObjectNext;
  }

  lemma PlainSteps(s: seq<byte>, at: nat, depth: nat)
    requires B(s, at) != 123 && B(s, at) != 91 && ValueEnd(s, at, depth) >= 0
    ensures var r, first := ValueEnd(s, at, depth), s[at];
            if first == QUOTE then StringEnd(s, at + 1) >= 0 && r == StringEnd(s, at + 1) + 1
            else if first == 116 then r == at + 4 && s[at..r] == TRUE
            else if first == 102 then r == at + 5 && s[at..r] == FALSE
            else if first == 110 then r == at + 4 && s[at..r] == NULL
            else r == NumberEnd(s, at)
  {
    hide StringEnd, NumberEnd;
  }

  lemma PlainSound(s: seq<byte>, at: nat, depth: nat) returns (v: Value)
    requires B(s, at) != 123 && B(s, at) != 91 && ValueEnd(s, at, depth) >= 0
    ensures Legal(v, depth) && s[at..ValueEnd(s, at, depth)] == Spelled(v)
    ensures v.Number? ==> Ends(v.numeral, B(s, ValueEnd(s, at, depth)))
  {
    hide ValueEnd, StringEnd, NumberEnd, Body, LegalNumeral, Ends, NumeralText;
    PlainSteps(s, at, depth);
    var r := ValueEnd(s, at, depth);
    if s[at] == QUOTE {
      BodySound(s, at + 1);
      v := Text(s[at + 1..r - 1]);
      QuotedText(s, at, r - 1);
    } else if s[at] == 116 || s[at] == 102 || s[at] == 110 {
      v := Literal(s[at..r]);
    } else {
      var n := NumberSound(s, at);
      v := Number(n);
    }
  }

  lemma QuotedText(s: seq<byte>, at: nat, end: nat)
    requires at < end < |s| && s[at] == 34 && s[end] == 34
    ensures s[at..end + 1] == Spelled(Text(s[at + 1..end]))
  {
  }

  lemma {:induction false} ValueSound(s: seq<byte>, at: nat, depth: nat) returns (v: Value)
    requires ValueEnd(s, at, depth) >= 0
    ensures Legal(v, depth) && s[at..ValueEnd(s, at, depth)] == Spelled(v)
    ensures v.Number? ==> Ends(v.numeral, B(s, ValueEnd(s, at, depth)))
    decreases |s| - at, 1
  {
    hide ValueEnd, Spelled, Blank, SkipSpace, Next, LegalItems, Listed, White;
    var first := B(s, at);
    if first == 123 || first == 91 {
      var named := first == 123;
      ContainerSteps(s, at, depth, named);
      var start := SkipSpace(s, at + 1);
      SpaceSound(s, at + 1);
      var items := Nothing;
      NothingLegal(named, depth + 1);
      if B(s, start) != Close(named) {
        items := ItemsSound(s, start, named, depth + 1);
      }
      v := Container(s[at + 1..start], items, named);
      JoinContainer(s, at, start, ValueEnd(s, at, depth) - 1, named, items);
    } else {
      v := PlainSound(s, at, depth);
    }
  }

  lemma NothingLegal(named: bool, depth: nat)
    ensures LegalItems(Nothing, named, depth) && |Listed(Nothing)| == 0
  {
  }

  /** Where an entry's value ends, the mark after it, and where the next entry starts. */
  lemma NextFacts(s: seq<byte>, at: nat, named: bool, depth: nat)
    requires at <= |s| && Next(s, at, named, depth) >= 0
    ensures var r, mid := Next(s, at, named, depth), TagEnd(s, at, named);
            && mid >= 0 && ValueEnd(s, mid, depth) >= 0
            && var next := SkipSpace(s, ValueEnd(s, mid, depth));
               && at <= mid < ValueEnd(s, mid, depth) <= next < |s|
               && if s[next] == Close(named) then r == next + 1
                  else
                    && s[next] == 44 && next < SkipSpace(s, next + 1) <= |s|
                    && Next(s, SkipSpace(s, next + 1), named, depth) == r
  {
    hide TagEnd, Next, ValueEnd;
    NextSteps(s, at, named, depth);
  }

  lemma {:induction false} ItemsSound(s: seq<byte>, at: nat, named: bool, depth: nat) returns (items: Items)
    requires at <= |s| && Next(s, at, named, depth) >= 0
    ensures LegalItems(items, named, depth) && items != Nothing
    ensures var r := Next(s, at, named, depth); s[at..r - 1] == Listed(items) && s[r - 1] == Close(named)
    decreases |s| - at, 2
  {
    hide ValueEnd, SkipSpace, TagEnd, Next, Spelled, Listed, Blank, LegalTag, TagText, Legal;
    NextFacts(s, at, named, depth);
    var tag := TagSound(s, at, named);
    var mid := TagEnd(s, at, named);
    var finish := ValueEnd(s, mid, depth);
    var v := ValueSound(s, mid, depth);
    SpaceSound(s, finish);
    var next := SkipSpace(s, finish);
    if s[next] == Close(named) {
      items := Last(tag, v, s[finish..next]);
      JoinLast(s, at, mid, finish, next, tag, v);
    } else {
      SpaceSound(s, next + 1);
      var start := SkipSpace(s, next + 1);
      var rest := ItemsSound(s, start, named, depth);
      items := More(tag, v, s[finish..next], s[next + 1..start], rest);
      JoinMore(s, at, mid, finish, next, start, Next(s, start, named, depth) - 1, tag, v, rest);
    }
  }

  // ---------------------------------------------------------------- whatever is legal is recognised

  lemma NumeralFirst(n: Numeral)
    requires LegalNumeral(n)
    ensures NumeralText(n) != [] && (Digit(NumeralText(n)[0]) || NumeralText(n)[0] == 45)
  {
    FirstDigit(n.whole);
    hide Pointed, Digits;
  }

  /** No value starts with space or with a closing bracket. */
  lemma ValueFirst(v: Value, depth: nat)
    requires Legal(v, depth)
    ensures Spelled(v) != [] && !White(Spelled(v)[0]) && Spelled(v)[0] != 93 && Spelled(v)[0] != 125
    ensures v.Number? <==> Digit(Spelled(v)[0]) || Spelled(v)[0] == 45
  {
    if v.Number? {
      NumeralFirst(v.numeral);
    }
    hide NumeralText, LegalNumeral, Body, Listed;
  }

  lemma ListedParts(items: Items)
    requires items != Nothing
    ensures Listed(items) == TagText(items.tag) + (Spelled(items.value) + (items.after + Tail(items)))
  {
    hide TagText, Spelled;
    var tag, value, after := TagText(items.tag), Spelled(items.value), items.after;
    Nest(tag, value, after, Tail(items));
    if items.More? {
      Regroup(tag + value + after, items.before, Listed(items.rest));
    } else {
      assert tag + value + after + [] == tag + value + after;
    }
  }

  lemma Regroup(head: seq<byte>, before: seq<byte>, rest: seq<byte>)
    ensures head + [44] + before + rest == head + ([44] + before + rest)
  {
  }

  /** What follows an entry and its space. */
  function Tail(items: Items): seq<byte>
    requires items != Nothing
  {
    if items.Last? then [] else [44] + items.before + Listed(items.rest)
  }

  lemma ListedFirst(items: Items, named: bool, depth: nat)
    requires LegalItems(items, named, depth) && items != Nothing
    ensures Listed(items) != [] && !White(Listed(items)[0]) && Listed(items)[0] != Close(named)
  {
    ListedParts(items);
    ValueFirst(items.value, depth);
    hide Listed, Spelled, Legal, Body;
    if named {
      assert TagText(items.tag)[0] == 34;
    }
  }

  lemma TagSteps(s: seq<byte>, at: nat, end: nat, colon: nat)
    requires B(s, at) == 34 && StringEnd(s, at + 1) == end && SkipSpace(s, end + 1) == colon && B(s, colon) == 58
    ensures TagEnd(s, at, true) == SkipSpace(s, colon + 1)
  {
    hide StringEnd, SkipSpace;
  }

  lemma TagComplete(s: seq<byte>, at: nat, tag: Tag, named: bool)
    requires Sits(s, at, TagText(tag)) && LegalTag(tag, named) && !White(B(s, at + |TagText(tag)|))
    ensures TagEnd(s, at, named) == at + |TagText(tag)|
  {
    hide StringEnd, SkipSpace, Body, Blank, Sits, TagText;
    if named {
      hide TagEnd;
      var end := at + 1 + |tag.name|;
      var colon := end + 1 + |tag.gap|;
      TagPlaces(s, at, tag);
      BodyComplete(s, at + 1, end);
      SpaceComplete(s, end + 1, colon);
      SpaceComplete(s, colon + 1, at + |TagText(tag)|);
      TagSteps(s, at, end, colon);
    } else {
      UnnamedText();
    }
  }

  lemma TagNest(tag: Tag)
    requires tag.Named?
    ensures TagText(tag) == [34] + (tag.name + ([34] + (tag.gap + ([58] + tag.space))))
  {
    Six([34], tag.name, [34], tag.gap, [58], tag.space);
  }

  lemma TagPlaces(s: seq<byte>, at: nat, tag: Tag)
    requires Sits(s, at, TagText(tag)) && tag.Named?
    ensures var end := at + 1 + |tag.name|;
            var colon, mid := end + 1 + |tag.gap|, at + |TagText(tag)|;
            && end < colon < mid <= |s| && s[at] == 34 && s[at + 1..end] == tag.name && s[end] == 34
            && s[end + 1..colon] == tag.gap && s[colon] == 58 && s[colon + 1..mid] == tag.space
  {
    hide TagText, Sits;
    var end := at + 1 + |tag.name|;
    var colon := end + 1 + |tag.gap|;
    var quote: seq<byte>, dots: seq<byte> := [34], [58];
    TagNest(tag);
    SitsSplit(s, at, quote, tag.name + (quote + (tag.gap + (dots + tag.space))));
    SitsSplit(s, at + 1, tag.name, quote + (tag.gap + (dots + tag.space)));
    SitsSplit(s, end, quote, tag.gap + (dots + tag.space));
    SitsSplit(s, end + 1, tag.gap, dots + tag.space);
    SitsSplit(s, colon, dots, tag.space);
    SitsAt(s, at, quote, 0);
    SitsAt(s, end, quote, 0);
    SitsAt(s, colon, dots, 0);
    SitsInside(s, at + 1, tag.name);
    SitsInside(s, end + 1, tag.gap);
    SitsInside(s, colon + 1, tag.space);
  }

  lemma ListedNest(items: Items, end: seq<byte>)
    requires items != Nothing
    ensures Listed(items) + end
         == TagText(items.tag) + (Spelled(items.value) + (items.after + (Tail(items) + end)))
    ensures |Listed(items)| == |TagText(items.tag)| + |Spelled(items.value)| + |items.after| + |Tail(items)|
  {
    hide TagText, Spelled, Listed, Tail;
    ListedParts(items);
    Four(TagText(items.tag), Spelled(items.value), items.after, Tail(items), end);
  }

  lemma TailHead(items: Items, close: byte)
    requires items != Nothing
    ensures items.Last? ==> |Tail(items)| == 0
    ensures (Tail(items) + [close])[0] == if items.Last? then close else 44
  {
    hide Listed;
  }

  /** The pieces of an entry where they stand. */
  lemma EntryPlaces(s: seq<byte>, at: nat, items: Items, close: byte)
    requires items != Nothing && Sits(s, at, Listed(items) + [close])
    ensures var mid := at + |TagText(items.tag)|;
            var finish := mid + |Spelled(items.value)|;
            var next := finish + |items.after|;
            && Sits(s, at, TagText(items.tag)) && Sits(s, mid, Spelled(items.value)) && Sits(s, finish, items.after)
            && Sits(s, next, Tail(items) + [close]) && at + |Listed(items)| == next + |Tail(items)| && next < |s|
            && (items.Last? ==> |Tail(items)| == 0) && s[next] == if items.Last? then close else 44
  {
    hide TagText, Spelled, Listed, Sits, Tail;
    var mid := at + |TagText(items.tag)|;
    var finish := mid + |Spelled(items.value)|;
    var end: seq<byte> := [close];
    ListedNest(items, end);
    TailHead(items, close);
    SitsSplit(s, at, TagText(items.tag), Spelled(items.value) + (items.after + (Tail(items) + end)));
    SitsSplit(s, mid, Spelled(items.value), items.after + (Tail(items) + end));
    SitsSplit(s, finish, items.after, Tail(items) + end);
    SitsAt(s, finish + |items.after|, Tail(items) + end, 0);
    SitsInside(s, finish + |items.after|, Tail(items) + end);
  }

  lemma Four(a: seq<byte>, b: seq<byte>, c: seq<byte>, d: seq<byte>, e: seq<byte>)
    ensures a + (b + (c + d)) + e == a + (b + (c + (d + e)))
  {
  }

  /** Space, then a mark that is none. */
  lemma SpaceThen(s: seq<byte>, at: nat, pad: seq<byte>)
    requires Sits(s, at, pad) && Blank(pad) && !White(B(s, at + |pad|))
    ensures SkipSpace(s, at) == at + |pad|
    ensures B(s, at) == (if pad == [] then B(s, at) else pad[0]) && (pad != [] ==> White(B(s, at)))
  {
    SpaceComplete(s, at, at + |pad|);
    if pad != [] {
      SitsAt(s, at, pad, 0);
    }
  }

  lemma CommaPlaces(s: seq<byte>, next: nat, before: seq<byte>, rest: seq<byte>, close: byte)
    requires Sits(s, next, [44] + before + rest + [close])
    ensures Sits(s, next + 1, before) && Sits(s, next + 1 + |before|, rest + [close])
  {
    hide Sits;
    var comma: seq<byte>, end: seq<byte> := [44], [close];
    Nest(comma, before, rest, end);
    SitsSplit(s, next, comma, before + (rest + end));
    SitsSplit(s, next + 1, before, rest + end);
  }

  lemma StartsDark(s: seq<byte>, at: nat, rest: seq<byte>, close: byte)
    requires Sits(s, at, rest + [close]) && rest != [] && !White(rest[0])
    ensures !White(B(s, at))
  {
    SitsAt(s, at, rest + [close], 0);
  }

  /** After a comma and space, the next entry. */
  lemma RestPlaces(s: seq<byte>, next: nat, items: Items, named: bool, depth: nat)
    requires items.More? && LegalItems(items, named, depth) && Sits(s, next, Tail(items) + [Close(named)])
    ensures var start := next + 1 + |items.before|;
            && SkipSpace(s, next + 1) == start && Sits(s, start, Listed(items.rest) + [Close(named)])
            && next + |Tail(items)| == start + |Listed(items.rest)|
  {
    hide Listed, SkipSpace, Legal, LegalTag, Blank, White, Close, Sits, B;
    ListedFirst(items.rest, named, depth);
    CommaPlaces(s, next, items.before, Listed(items.rest), Close(named));
    StartsDark(s, next + 1 + |items.before|, Listed(items.rest), Close(named));
    SpaceThen(s, next + 1, items.before);
  }

  lemma NotContinued(n: Numeral, next: int)
    requires White(next) || next == 44 || next == 93 || next == 125
    ensures Ends(n, next)
  {
  }

  lemma {:induction false} ItemsComplete(s: seq<byte>, at: nat, items: Items, named: bool, depth: nat)
    requires items != Nothing && LegalItems(items, named, depth) && depth <= 64
             && Sits(s, at, Listed(items) + [Close(named)])
    ensures Next(s, at, named, depth) == at + |Listed(items)| + 1
    decreases items
  {
    hide TagText, Spelled, Listed, Sits, SkipSpace, ValueEnd, TagEnd, Next, Blank, Ends, Legal, LegalTag, Tail;
    EntryPlaces(s, at, items, Close(named));
    var mid := at + |TagText(items.tag)|;
    var finish := mid + |Spelled(items.value)|;
    var next := finish + |items.after|;
    ValueFirst(items.value, depth);
    SitsAt(s, mid, Spelled(items.value), 0);
    TagComplete(s, at, items.tag, named);
    SpaceThen(s, finish, items.after);
    if items.value.Number? {
      NotContinued(items.value.numeral, B(s, finish));
    }
    ValueComplete(s, mid, items.value, depth);
    NextSteps(s, at, named, depth);
    if items.More? {
      RestPlaces(s, next, items, named, depth);
      ItemsComplete(s, next + 1 + |items.before|, items.rest, named, depth);
    }
  }

  lemma {:induction false} ValueComplete(s: seq<byte>, at: nat, v: Value, depth: nat)
    requires Legal(v, depth) && depth <= 64 && Sits(s, at, Spelled(v))
    requires v.Number? ==> Ends(v.numeral, B(s, at + |Spelled(v)|))
    ensures ValueEnd(s, at, depth) == at + |Spelled(v)|
    decreases v
  {
    hide Listed, Sits, SkipSpace, ValueEnd, Next, Blank, Ends, Body, NumeralText, LegalNumeral, NumberEnd, StringEnd;
    if v.Array? || v.Object? {
      var named := v.Object?;
      ContainerPlaces(s, at, v);
      var start := at + 1 + |v.pad|;
      if v.items != Nothing {
        ListedFirst(v.items, named, depth + 1);
        ItemsComplete(s, start, v.items, named, depth + 1);
      }
      StartMark(s, start, v.items, named);
      SpaceThen(s, at + 1, v.pad);
      ContainerSteps(s, at, depth, named);
    } else {
      PlainComplete(s, at, v, depth);
    }
  }

  lemma StartMark(s: seq<byte>, start: nat, items: Items, named: bool)
    requires Sits(s, start, Listed(items) + [Close(named)])
    requires items != Nothing ==> Listed(items) != [] && !White(Listed(items)[0]) && Listed(items)[0] != Close(named)
    ensures !White(B(s, start)) && (B(s, start) == Close(named) <==> items == Nothing)
    ensures items == Nothing ==> |Listed(items)| == 0
  {
    SitsAt(s, start, Listed(items) + [Close(named)], 0);
  }

  lemma ContainerPlaces(s: seq<byte>, at: nat, v: Value)
    requires (v.Array? || v.Object?) && Sits(s, at, Spelled(v))
    ensures s[at] == (if v.Object? then 123 else 91) && Sits(s, at + 1, v.pad)
    ensures Sits(s, at + 1 + |v.pad|, Listed(v.items) + [Close(v.Object?)])
    ensures |Spelled(v)| == 1 + |v.pad| + |Listed(v.items)| + 1
  {
    var open: seq<byte>, close: seq<byte> := [if v.Object? then 123 else 91], [Close(v.Object?)];
    Nest(open, v.pad, Listed(v.items), close);
    hide Listed;
    assert Spelled(v) == open + (v.pad + (Listed(v.items) + close));
    hide Spelled, Sits;
    SitsSplit(s, at, open, v.pad + (Listed(v.items) + close));
    SitsSplit(s, at + 1, v.pad, Listed(v.items) + close);
    SitsAt(s, at, open, 0);
  }

  lemma WordComplete(s: seq<byte>, at: nat, text: seq<byte>, depth: nat)
    requires Sits(s, at, text) && depth <= 64 && (text == TRUE || text == FALSE || text == NULL)
    ensures ValueEnd(s, at, depth) == at + |text|
  {
    SitsAt(s, at, text, 0);
  }

  lemma NumberValueEnd(s: seq<byte>, at: nat, depth: nat)
    requires depth <= 64 && at < |s| && (Digit(s[at]) || s[at] == 45)
    ensures ValueEnd(s, at, depth) == NumberEnd(s, at)
  {
    hide NumberEnd;
  }

  lemma TextValueEnd(s: seq<byte>, at: nat, depth: nat)
    requires depth <= 64 && at < |s| && s[at] == 34 && StringEnd(s, at + 1) >= 0
    ensures ValueEnd(s, at, depth) == StringEnd(s, at + 1) + 1
  {
    hide StringEnd;
  }

  lemma PlainComplete(s: seq<byte>, at: nat, v: Value, depth: nat)
    requires Legal(v, depth) && depth <= 64 && Sits(s, at, Spelled(v)) && !v.Array? && !v.Object?
    requires v.Number? ==> Ends(v.numeral, B(s, at + |Spelled(v)|))
    ensures ValueEnd(s, at, depth) == at + |Spelled(v)|
  {
    hide Ends, Body, NumeralText, LegalNumeral, NumberEnd, StringEnd, ValueEnd, Sits;
    match v
    case Literal(text) =>
      WordComplete(s, at, text, depth);
    case Number(n) =>
      ValueFirst(v, depth);
      SitsAt(s, at, NumeralText(n), 0);
      NumberValueEnd(s, at, depth);
      NumberComplete(s, at, n);
    case Text(body) =>
      TextPlaces(s, at, body);
      BodyComplete(s, at + 1, at + 1 + |body|);
      TextValueEnd(s, at, depth);
  }

  lemma TextPlaces(s: seq<byte>, at: nat, body: seq<byte>)
    requires Sits(s, at, [34] + body + [34])
    ensures at + 1 + |body| < |s| && s[at] == 34 && s[at + 1..at + 1 + |body|] == body && s[at + 1 + |body|] == 34
  {
    var q: seq<byte> := [34];
    assert q + body + q == q + (body + q);
    SitsSplit(s, at, q, body + q);
    SitsSplit(s, at + 1, body, q);
    SitsAt(s, at, q, 0);
    SitsAt(s, at + 1 + |body|, q, 0);
  }

  /** The cursor accepts exactly the legal values, each up to its own end. */
  lemma ValueExact(s: seq<byte>, at: nat, end: nat, depth: nat)
    requires at <= end <= |s| && depth <= 64
    ensures ValueEnd(s, at, depth) == end <==>
              exists v :: Legal(v, depth) && Spelled(v) == s[at..end] && (v.Number? ==> Ends(v.numeral, B(s, end)))
  {
    hide ValueEnd, Spelled, Legal, Ends;
    if ValueEnd(s, at, depth) == end {
      var v := ValueSound(s, at, depth);
    }
    forall v | Legal(v, depth) && Spelled(v) == s[at..end] && (v.Number? ==> Ends(v.numeral, B(s, end)))
      ensures ValueEnd(s, at, depth) == end
    {
      ValueComplete(s, at, v, depth);
    }
  }

  /** What is recognised depends on nothing but its own bytes and the one after them. */
  lemma ValueLocal(s: seq<byte>, at: nat, t: seq<byte>, at': nat, n: nat, depth: nat)
    requires at + n <= |s| && at' + n <= |t| && depth <= 64
    requires s[at..at + n] == t[at'..at' + n] && B(s, at + n) == B(t, at' + n)
    ensures ValueEnd(s, at, depth) == at + n <==> ValueEnd(t, at', depth) == at' + n
  {
    hide ValueEnd, Spelled, Legal, Ends, B;
    ValueExact(s, at, at + n, depth);
    ValueExact(t, at', at' + n, depth);
  }
}
