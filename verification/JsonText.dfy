/**
 The strict JSON cursor over a run of bytes: characters with UTF-8 and escapes, strings,
 numbers and whole values, nested at most 64 deep. Positions outside the text read as -1.
 A character step is packed by the source into one number, `next * 2^21 + scalar`.
 */
module JsonText {
  import opened Common

  datatype Step = Bad | Char(next: nat, scalar: nat)

  const QUOTE: int := 34
  const SLASH: int := 47
  const BACKSLASH: int := 92

  function B(s: seq<byte>, at: int): int {
    if 0 <= at < |s| then s[at] else -1
  }

  predicate Continuation(v: int) { 128 <= v <= 191 }

  /** One UTF-8 scalar: no overlong form, no surrogate, nothing above U+10FFFF. */
  function LiteralStep(s: seq<byte>, at: int, limit: int): (r: Step)
    ensures r.Char? ==> 0 <= at < r.next <= limit <= |s| && r.scalar < 0x110000
  {
    var a, c, d, e := B(s, at), B(s, at + 1), B(s, at + 2), B(s, at + 3);
    if at < 0 || at >= limit || limit > |s| then Bad
    else if a < 128 then Char(at + 1, a)
    else if 194 <= a <= 223 && at + 1 < limit && Continuation(c) then
      Char(at + 2, (a - 192) * 64 + (c - 128))
    else if 224 <= a <= 239 && at + 2 < limit && Continuation(c) && Continuation(d)
            && (a != 224 || c >= 160) && (a != 237 || c < 160) then
      Char(at + 3, (a - 224) * 4096 + (c - 128) * 64 + (d - 128))
    else if 240 <= a <= 244 && at + 3 < limit && Continuation(c) && Continuation(d) && Continuation(e)
            && (a != 240 || c >= 144) && (a != 244 || c < 144) then
      Char(at + 4, (a - 240) * 262144 + (c - 128) * 4096 + (d - 128) * 64 + (e - 128))
    else Bad
  }

  function HexDigit(v: int): (h: int)
    ensures -1 <= h < 16
  {
    if 48 <= v <= 57 then v - 48 else if 65 <= v <= 70 then v - 55 else if 97 <= v <= 102 then v - 87 else -1
  }

  function FourHex(s: seq<byte>, at: int, limit: int): (h: int)
    ensures -1 <= h < 65536
  {
    var p, q, u, v := HexDigit(B(s, at)), HexDigit(B(s, at + 1)), HexDigit(B(s, at + 2)), HexDigit(B(s, at + 3));
    if at + 4 > limit || p < 0 || q < 0 || u < 0 || v < 0 then -1 else p * 4096 + q * 256 + u * 16 + v
  }

  /** `\uXXXX`, or a surrogate pair of them; a lone surrogate is refused. */
  function UnicodeEscape(s: seq<byte>, at: nat, limit: int, first: int): (r: Step)
    requires limit <= |s| && -1 <= first < 65536 && (first >= 0 ==> at + 6 <= limit)
    ensures r.Char? ==> at < r.next <= limit && r.scalar < 0x110000
  {
    if first < 0 then Bad
    else if 55296 <= first <= 56319 then
      var low := FourHex(s, at + 8, limit);
      if at + 12 <= limit && B(s, at + 6) == BACKSLASH && B(s, at + 7) == 117 && 56320 <= low <= 57343
      then Char(at + 12, 65536 + (first - 55296) * 1024 + (low - 56320)) else Bad
    else if 56320 <= first <= 57343 then Bad
    else Char(at + 6, first)
  }

  function Short(v: int): (c: int)
    ensures c == -1 || 0 <= c < 128
  {
    if v == 34 then 34 else if v == 92 then 92 else if v == 116 then 9 else if v == 114 then 13
    else if v == 110 then 10 else if v == 98 then 8 else if v == 102 then 12 else -1
  }

  /** One character of a string, escaped or not; JSON also admits the escaped slash. */
  function NextCharacter(s: seq<byte>, at: int, limit: int): (r: Step)
    ensures r.Char? ==> 0 <= at < r.next <= limit <= |s| && r.scalar < 0x110000
  {
    if at < 0 || at >= limit || limit > |s| then Bad
    else if B(s, at) != BACKSLASH then LiteralStep(s, at, limit)
    else if at + 1 >= limit then Bad
    else if B(s, at + 1) == SLASH then Char(at + 2, SLASH)
    else if B(s, at + 1) == 117 then UnicodeEscape(s, at, limit, FourHex(s, at + 2, limit))
    else
      var v := Short(B(s, at + 1));
      if v < 0 then Bad else Char(at + 2, v)
  }

  /** One character of text that has no escapes. */
  function RawStep(s: seq<byte>, at: int, limit: int): (r: Step)
    ensures r.Char? ==> 0 <= at < r.next <= limit <= |s| && r.scalar < 0x110000
  {
    if at < 0 || at >= limit || limit > |s| then Bad
    else if B(s, at) == BACKSLASH then Char(at + 1, BACKSLASH)
    else LiteralStep(s, at, limit)
  }

  /** UTF-16 code units between `at` and `end`, or -1. */
  function Utf16(s: seq<byte>, at: nat, end: nat, raw: bool): int
    requires at <= end <= |s|
    decreases end - at
  {
    if at == end then 0
    else
      var t := if raw then RawStep(s, at, end) else NextCharacter(s, at, end);
      if t.Bad? then -1
      else
        var rest := Utf16(s, t.next, end, raw);
        if rest < 0 then -1 else rest + (if t.scalar > 65535 then 2 else 1)
  }

  function SkipSpace(s: seq<byte>, at: nat): (r: nat)
    ensures r >= at && (at <= |s| ==> r <= |s|)
    decreases |s| - at
  {
    if B(s, at) == 32 || B(s, at) == 9 || B(s, at) == 10 || B(s, at) == 13 then SkipSpace(s, at + 1) else at
  }

  /** The closing quote of the string whose text starts at `at`, or -1. */
  function StringEnd(s: seq<byte>, at: nat): (r: int)
    ensures r == -1 || at <= r < |s|
    decreases |s| - at
  {
    if at >= |s| || B(s, at) < 32 then -1
    else if B(s, at) == QUOTE then at
    else
      var t := NextCharacter(s, at, |s|);
      if t.Bad? then -1 else StringEnd(s, t.next)
  }

  predicate Digit(v: int) { 48 <= v <= 57 }

  function DigitsEnd(s: seq<byte>, at: nat): (r: nat)
    ensures r >= at && (at <= |s| ==> r <= |s|)
    decreases |s| - at
  {
    if Digit(B(s, at)) then DigitsEnd(s, at + 1) else at
  }

  function ExponentEnd(s: seq<byte>, at: nat): (r: int)
    ensures r == -1 || (at <= r && (at <= |s| ==> r <= |s|))
  {
    if B(s, at) == 101 || B(s, at) == 69 then
      var start := if B(s, at + 1) == 43 || B(s, at + 1) == 45 then at + 2 else at + 1;
      if Digit(B(s, start)) then DigitsEnd(s, start + 1) else -1
    else at
  }

  function FractionEnd(s: seq<byte>, at: nat): (r: int)
    ensures r == -1 || (at <= r && (at <= |s| ==> r <= |s|))
  {
    if B(s, at) == 46 then
      if Digit(B(s, at + 1)) then ExponentEnd(s, DigitsEnd(s, at + 2)) else -1
    else ExponentEnd(s, at)
  }

  function NumberEnd(s: seq<byte>, at: nat): (r: int)
    ensures r == -1 || at < r <= |s|
  {
    var start := if B(s, at) == 45 then at + 1 else at;
    if B(s, start) == 48 then FractionEnd(s, start + 1)
    else if 49 <= B(s, start) <= 57 then FractionEnd(s, DigitsEnd(s, start + 1))
    else -1
  }

  function Word(s: seq<byte>, at: nat, w: seq<byte>): int {
    if at + |w| <= |s| && s[at..at + |w|] == w then at + |w| else -1
  }

  const TRUE: seq<byte> := [116, 114, 117, 101]
  const FALSE: seq<byte> := [102, 97, 108, 115, 101]
  const NULL: seq<byte> := [110, 117, 108, 108]

  /** The end of one value, or -1. */
  function ValueEnd(s: seq<byte>, at: nat, depth: nat): (r: int)
    ensures r == -1 || at < r <= |s|
    decreases |s| - at, 1
  {
    if at >= |s| || depth > 64 then -1
    else
      var first := B(s, at);
      if (first == 123 || first == 91) && depth >= 64 then -1
      else if first == 123 then
        var start := SkipSpace(s, at + 1);
        if B(s, start) == 125 then start + 1 else ObjectNext(s, start, depth + 1)
      else if first == 91 then
        var start := SkipSpace(s, at + 1);
        if B(s, start) == 93 then start + 1 else ArrayNext(s, start, depth + 1)
      else if first == QUOTE then
        var end := StringEnd(s, at + 1);
        if end < 0 then -1 else end + 1
      else if first == 116 then Word(s, at, TRUE)
      else if first == 102 then Word(s, at, FALSE)
      else if first == 110 then Word(s, at, NULL)
      else NumberEnd(s, at)
  }

  function ArrayNext(s: seq<byte>, at: nat, depth: nat): (r: int)
    ensures r == -1 || at < r <= |s|
    decreases |s| - at, 2
  {
    var finish := ValueEnd(s, at, depth);
    if finish < 0 then -1
    else
      var next := SkipSpace(s, finish);
      if B(s, next) == 93 then next + 1
      else if B(s, next) == 44 then ArrayNext(s, SkipSpace(s, next + 1), depth)
      else -1
  }

  function ObjectNext(s: seq<byte>, at: nat, depth: nat): (r: int)
    ensures r == -1 || at < r <= |s|
    decreases |s| - at, 2
  {
    if B(s, at) != QUOTE then -1
    else
      var keyEnd := StringEnd(s, at + 1);
      if keyEnd < 0 then -1
      else
        var colon := SkipSpace(s, keyEnd + 1);
        if B(s, colon) != 58 then -1
        else
          var finish := ValueEnd(s, SkipSpace(s, colon + 1), depth);
          if finish < 0 then -1
          else
            var next := SkipSpace(s, finish);
            if B(s, next) == 125 then next + 1
            else if B(s, next) == 44 then ObjectNext(s, SkipSpace(s, next + 1), depth)
            else -1
  }

  /** A plain decimal no greater than `limit`, without a leading zero, or -1. */
  function NaturalValue(s: seq<byte>, at: nat, end: nat, limit: nat): (n: int)
    requires at <= end <= |s|
    ensures n == -1 || 0 <= n
  {
    if end > at && !(end - at > 1 && B(s, at) == 48) then NaturalLoop(s, at, end, limit, 0) else -1
  }

  function NaturalLoop(s: seq<byte>, at: nat, end: nat, limit: nat, value: nat): (n: int)
    requires at <= end <= |s|
    ensures n == -1 || 0 <= n
    decreases end - at
  {
    if at == end then value
    else
      var v := B(s, at);
      if !Digit(v) || value * 10 + (v - 48) > limit then -1
      else NaturalLoop(s, at + 1, end, limit, value * 10 + (v - 48))
  }

  // ---------------------------------------------------------------- UTF-8 is canonical

  /** The one way to write a scalar. */
  function Utf8(v: nat): seq<byte>
    requires v < 0x110000
  {
    if v < 128 then [v]
    else if v < 2048 then [192 + v / 64, 128 + v % 64]
    else if v < 65536 then [224 + v / 4096, 128 + v / 64 % 64, 128 + v % 64]
    else [240 + v / 262144, 128 + v / 4096 % 64, 128 + v / 64 % 64, 128 + v % 64]
  }

  lemma Three(a: nat, c: nat, d: nat)
    requires c < 64 && d < 64
    ensures var v := a * 4096 + c * 64 + d; v / 4096 == a && v / 64 % 64 == c && v % 64 == d
  {
    var v := a * 4096 + c * 64 + d;
    assert v / 64 == a * 64 + c;
  }

  lemma Four(a: nat, c: nat, d: nat, e: nat)
    requires c < 64 && d < 64 && e < 64
    ensures var v := a * 262144 + c * 4096 + d * 64 + e;
            v / 262144 == a && v / 4096 % 64 == c && v / 64 % 64 == d && v % 64 == e
  {
    var v := a * 262144 + c * 4096 + d * 64 + e;
    assert v / 64 == a * 4096 + c * 64 + d;
    assert v / 4096 == a * 64 + c;
  }

  /** What a literal step reads is exactly the canonical bytes of the scalar it returns. */
  lemma LiteralCanonical(s: seq<byte>, at: nat, limit: nat)
    ensures var r := LiteralStep(s, at, limit);
            r.Char? ==> s[at..r.next] == Utf8(r.scalar)
  {
    var r := LiteralStep(s, at, limit);
    if r.Char? {
      var a: int, c, d, e := B(s, at), B(s, at + 1), B(s, at + 2), B(s, at + 3);
      if r.next == at + 3 {
        Three(a - 224, c - 128, d - 128);
      } else if r.next == at + 4 {
        Four(a - 240, c - 128, d - 128, e - 128);
      }
    }
  }
}
