/**
 The scanner for whole documents of up to a mebibyte. It reads characters through a window of
 twelve bytes and passes over plain ASCII directly; it accepts exactly the grammar.
 */
module JsonDocument {
  import opened Common
  import opened JsonText
  import opened JsonGrammar

  const WINDOW: nat := 12
  const LARGEST: nat := 1048576

  /** One character, seen through the window. */
  function WindowStep(s: seq<byte>, at: nat, end: nat): (r: Step)
    requires at < end <= |s|
    ensures r.Char? ==> at < r.next <= end
  {
    var size := if end - at < WINDOW then end - at else WINDOW;
    var t := NextCharacter(s[at..at + size], 0, size);
    if t.Bad? then Bad else Char(at + t.next, t.scalar)
  }

  /** The position after the closing quote of the string whose text starts at `at`, or -1. */
  function ScanString(s: seq<byte>, at: nat): (r: int)
    ensures r == -1 || at < r <= |s|
    decreases |s| - at
  {
    var v := B(s, at);
    if at >= |s| || v < 32 then -1
    else if v == QUOTE then at + 1
    else if v < 128 && v != BACKSLASH then ScanString(s, at + 1)
    else
      var t := WindowStep(s, at, |s|);
      if t.Bad? then -1 else ScanString(s, t.next)
  }

  function Scan(s: seq<byte>, at: nat, depth: nat): (r: int)
    ensures r == -1 || at < r <= |s|
    decreases |s| - at, 1
  {
    if at >= |s| || depth > 64 then -1
    else
      var first := B(s, at);
      if (first == 123 || first == 91) && depth >= 64 then -1
      else if first == 123 then
        var start := SkipSpace(s, at + 1);
        if B(s, start) == 125 then start + 1 else ScanMembers(s, start, depth + 1)
      else if first == 91 then
        var start := SkipSpace(s, at + 1);
        if B(s, start) == 93 then start + 1 else ScanElements(s, start, depth + 1)
      else if first == QUOTE then ScanString(s, at + 1)
      else if first == 116 then Word(s, at, TRUE)
      else if first == 102 then Word(s, at, FALSE)
      else if first == 110 then Word(s, at, NULL)
      else NumberEnd(s, at)
  }

  function ScanElements(s: seq<byte>, at: nat, depth: nat): (r: int)
    ensures r == -1 || at < r <= |s|
    decreases |s| - at, 2
  {
    var end := Scan(s, at, depth);
    if end < 0 then -1
    else
      var next := SkipSpace(s, end);
      if B(s, next) == 93 then next + 1
      else if B(s, next) == 44 then ScanElements(s, SkipSpace(s, next + 1), depth)
      else -1
  }

  function ScanMembers(s: seq<byte>, at: nat, depth: nat): (r: int)
    ensures r == -1 || at < r <= |s|
    decreases |s| - at, 2
  {
    if B(s, at) != QUOTE then -1
    else
      var end := ScanString(s, at + 1);
      if end < 0 then -1
      else
        var colon := SkipSpace(s, end);
        if B(s, colon) != 58 then -1
        else
          var finish := Scan(s, SkipSpace(s, colon + 1), depth);
          if finish < 0 then -1
          else
            var next := SkipSpace(s, finish);
            if B(s, next) == 125 then next + 1
            else if B(s, next) == 44 then ScanMembers(s, SkipSpace(s, next + 1), depth)
            else -1
  }

  predicate ValidDocument(s: seq<byte>) {
    && |s| <= LARGEST
    && var end := Scan(s, SkipSpace(s, 0), 0);
       end >= 0 && SkipSpace(s, end) == |s|
  }

  // ---------------------------------------------------------------- the window loses nothing

  lemma SpellingSize(x: seq<byte>, v: nat)
    requires Spells(x, v)
    ensures 1 <= |x| <= WINDOW
  {
  }

  /** A character through the window is the character: none is longer than twelve bytes. */
  lemma WindowExact(s: seq<byte>, at: nat, end: nat)
    requires at < end <= |s|
    ensures WindowStep(s, at, end) == NextCharacter(s, at, end)
  {
    hide NextCharacter, Spells;
    var size := if end - at < WINDOW then end - at else WINDOW;
    var w := s[at..at + size];
    var t, u := NextCharacter(w, 0, size), NextCharacter(s, at, end);
    if t.Char? {
      CharacterExact(w, 0, t.next, size, t.scalar);
      assert w[0..t.next] == s[at..at + t.next];
      CharacterExact(s, at, at + t.next, end, t.scalar);
    }
    if u.Char? {
      CharacterExact(s, at, u.next, end, u.scalar);
      SpellingSize(s[at..u.next], u.scalar);
      assert w[0..u.next - at] == s[at..u.next];
      CharacterExact(w, 0, u.next - at, size, u.scalar);
    }
  }

  /** The fast string scanner finds the same closing quote. */
  lemma {:induction false} ScanStringExact(s: seq<byte>, at: nat)
    ensures ScanString(s, at) == if StringEnd(s, at) < 0 then -1 else StringEnd(s, at) + 1
    decreases |s| - at
  {
    var v := B(s, at);
    if at < |s| && v >= 32 && v != QUOTE {
      if v < 128 && v != BACKSLASH {
        assert NextCharacter(s, at, |s|) == Char(at + 1, v);
        ScanStringExact(s, at + 1);
      } else {
        hide NextCharacter, WindowStep;
        WindowExact(s, at, |s|);
        if NextCharacter(s, at, |s|).Char? {
          ScanStringExact(s, NextCharacter(s, at, |s|).next);
        }
      }
    }
  }

  lemma {:induction false} ScanExact(s: seq<byte>, at: nat, depth: nat)
    ensures Scan(s, at, depth) == ValueEnd(s, at, depth)
    decreases |s| - at, 1
  {
    hide ScanString, StringEnd, SkipSpace, NumberEnd;
    if at < |s| && depth <= 64 {
      ScanStringExact(s, at + 1);
      if depth < 64 && s[at] == 123 {
        MembersExact(s, SkipSpace(s, at + 1), depth + 1);
      } else if depth < 64 && s[at] == 91 {
        ElementsExact(s, SkipSpace(s, at + 1), depth + 1);
      }
    }
  }

  lemma {:induction false} ElementsExact(s: seq<byte>, at: nat, depth: nat)
    ensures ScanElements(s, at, depth) == ArrayNext(s, at, depth)
    decreases |s| - at, 2
  {
    hide SkipSpace, Scan, ValueEnd;
    ScanExact(s, at, depth);
    if Scan(s, at, depth) >= 0 {
      var next := SkipSpace(s, Scan(s, at, depth));
      if B(s, next) == 44 {
        ElementsExact(s, SkipSpace(s, next + 1), depth);
      }
    }
  }

  lemma MembersSteps(s: seq<byte>, at: nat, depth: nat)
    ensures ScanMembers(s, at, depth)
         == if TagEnd(s, at, true) < 0 then -1
            else
              var finish := Scan(s, TagEnd(s, at, true), depth);
              if finish < 0 then -1
              else
                var next := SkipSpace(s, finish);
                if B(s, next) == 125 then next + 1
                else if B(s, next) == 44 then ScanMembers(s, SkipSpace(s, next + 1), depth)
                else -1
  {
    hide SkipSpace, Scan, ScanString, StringEnd;
    ScanStringExact(s, at + 1);
  }

  lemma {:induction false} MembersExact(s: seq<byte>, at: nat, depth: nat)
    ensures ScanMembers(s, at, depth) == Next(s, at, true, depth)
    decreases |s| - at, 2
  {
    hide SkipSpace, Scan, ValueEnd, ScanMembers, Next;
    NextSteps(s, at, true, depth);
    MembersSteps(s, at, depth);
    var mid := TagEnd(s, at, true);
    if mid >= 0 {
      TagForward(s, at);
      hide TagEnd;
      ScanExact(s, mid, depth);
      if Scan(s, mid, depth) >= 0 {
        var next := SkipSpace(s, Scan(s, mid, depth));
        if B(s, next) == 44 {
          MembersExact(s, SkipSpace(s, next + 1), depth);
        }
      }
    }
  }

  lemma TagForward(s: seq<byte>, at: nat)
    requires TagEnd(s, at, true) >= 0
    ensures at < |s| && at < TagEnd(s, at, true)
  {
    hide StringEnd, SkipSpace;
  }

  // ---------------------------------------------------------------- exactly the documents

  /** `s` is one value between `i` and `j`, and otherwise only space. */
  ghost predicate Holds(s: seq<byte>, v: Value, i: nat, j: nat) {
    i <= j <= |s| && Blank(s[..i]) && Legal(v, 0) && Spelled(v) == s[i..j] && Blank(s[j..])
  }

  lemma DocumentSound(s: seq<byte>) returns (v: Value, i: nat, j: nat)
    requires ValidDocument(s)
    ensures Holds(s, v, i, j)
  {
    hide Scan, ValueEnd, SkipSpace, Blank, Legal, Spelled;
    i := SkipSpace(s, 0);
    j := Scan(s, i, 0);
    SpaceSound(s, 0);
    SpaceSound(s, j);
    ScanExact(s, i, 0);
    v := ValueSound(s, i, 0);
    assert s[0..i] == s[..i] && s[j..|s|] == s[j..];
  }

  lemma DocumentComplete(s: seq<byte>, v: Value, i: nat, j: nat)
    requires Holds(s, v, i, j) && |s| <= LARGEST
    ensures ValidDocument(s)
  {
    hide Scan, ValueEnd, SkipSpace, Legal, Spelled, Ends;
    ValueFirst(v, 0);
    assert Sits(s, i, Spelled(v));
    SitsAt(s, i, Spelled(v), 0);
    assert s[0..i] == s[..i] && s[j..|s|] == s[j..];
    SpaceComplete(s, 0, i);
    SpaceComplete(s, j, |s|);
    if v.Number? {
      AfterDocument(s, j, v.numeral);
    }
    ValueComplete(s, i, v, 0);
    ScanExact(s, i, 0);
  }

  lemma AfterDocument(s: seq<byte>, j: nat, n: Numeral)
    requires j <= |s| && Blank(s[j..])
    ensures Ends(n, B(s, j))
  {
    if j < |s| {
      assert s[j..][0] == s[j];
    }
  }

  /** A text is a valid document exactly when it is one legal value with space around it. */
  lemma DocumentExact(s: seq<byte>)
    ensures ValidDocument(s) <==> |s| <= 1048576 && exists v, i, j :: Holds(s, v, i, j)
  {
    hide Holds, Scan, SkipSpace;
    if ValidDocument(s) {
      var v, i, j := DocumentSound(s);
    }
    if |s| <= 1048576 && exists v, i, j :: Holds(s, v, i, j) {
      var v, i, j :| Holds(s, v, i, j);
      DocumentComplete(s, v, i, j);
    }
  }
}
