/** Comparing the printed oracle lines of a sweep with a table of expected digests. */
module Sweep {
  import opened Common

  datatype Key = Key(kind: string, length: nat)

  /** A printed line, already recognised. A footer without a number reads as -1. */
  datatype Line = Oracle(key: Key, value: string) | Footer(count: int) | Other

  datatype Tally = Tally(seen: map<Key, string>, mismatches: seq<Key>, duplicates: seq<Key>, footer: Option<int>)

  datatype Report = Report(lines: nat, expected: nat, mismatches: nat, missing: nat, duplicates: nat,
                           footer: Option<int>)

  predicate Agrees(expected: map<Key, string>, k: Key, v: string) { k in expected && expected[k] == v }

  function Step(t: Tally, line: Line, expected: map<Key, string>): Tally {
    match line
    case Footer(n) => t.(footer := Some(n))
    case Other => t
    case Oracle(k, v) =>
      Tally(t.seen[k := v],
            if Agrees(expected, k, v) then t.mismatches else t.mismatches + [k],
            if k in t.seen then t.duplicates + [k] else t.duplicates,
            t.footer)
  }

  function Fold(lines: seq<Line>, expected: map<Key, string>): Tally {
    if lines == [] then Tally(map[], [], [], None)
    else Step(Fold(lines[..|lines| - 1], expected), lines[|lines| - 1], expected)
  }

  function Missing(expected: map<Key, string>, seen: map<Key, string>): set<Key> {
    set k | k in expected && k !in seen
  }

  function Summary(t: Tally, expected: map<Key, string>): Report {
    Report(|t.seen|, |expected|, |t.mismatches|, |Missing(expected, t.seen)|, |t.duplicates|, t.footer)
  }

  predicate Passed(r: Report) {
    r.lines == r.expected && r.footer == Some(r.expected) && r.mismatches == 0 && r.missing == 0 && r.duplicates == 0
  }

  method Compare(lines: seq<Line>, expected: map<Key, string>) returns (r: Report)
    ensures r == Summary(Fold(lines, expected), expected)
  {
    var seen: map<Key, string>, mismatches: seq<Key>, duplicates: seq<Key>, footer: Option<int> := map[], [], [], None;
    for i := 0 to |lines|
      invariant Tally(seen, mismatches, duplicates, footer) == Fold(lines[..i], expected)
    {
      assert lines[..i + 1][..i] == lines[..i];
      match lines[i] {
        case Footer(n) =>
          footer := Some(n);
        case Other =>
        case Oracle(k, v) =>
          if k in seen {
            duplicates := duplicates + [k];
          }
          seen := seen[k := v];
          if k !in expected || expected[k] != v {
            mismatches := mismatches + [k];
          }
      }
    }
    assert lines[..|lines|] == lines;
    r := Report(|seen|, |expected|, |mismatches|, |Missing(expected, seen)|, |duplicates|, footer);
  }

  // ---------------------------------------------------------------- what a pass means

  /** Line `i` is the oracle line of key `k`. */
  ghost predicate At(lines: seq<Line>, i: int, k: Key) {
    0 <= i < |lines| && lines[i].Oracle? && lines[i].key == k
  }

  ghost predicate Printed(lines: seq<Line>, k: Key) { exists i :: At(lines, i, k) }

  /** No key is printed twice. */
  ghost predicate Once(lines: seq<Line>) {
    forall i, j, k :: At(lines, i, k) && At(lines, j, k) ==> i == j
  }

  ghost predicate Right(lines: seq<Line>, expected: map<Key, string>) {
    forall i :: 0 <= i < |lines| && lines[i].Oracle? ==> Agrees(expected, lines[i].key, lines[i].value)
  }

  function LastFooter(lines: seq<Line>): Option<int> {
    if lines == [] then None
    else if lines[|lines| - 1].Footer? then Some(lines[|lines| - 1].count)
    else LastFooter(lines[..|lines| - 1])
  }

  lemma AtFront(lines: seq<Line>, i: int, k: Key)
    requires lines != []
    ensures At(lines, i, k) <==> At(lines[..|lines| - 1], i, k) || (i == |lines| - 1 && At(lines, i, k))
  {
  }

  lemma PrintedFront(lines: seq<Line>, k: Key)
    requires lines != []
    ensures Printed(lines, k) <==> Printed(lines[..|lines| - 1], k) || At(lines, |lines| - 1, k)
  {
    var front := lines[..|lines| - 1];
    if Printed(front, k) {
      var i :| At(front, i, k);
      assert At(lines, i, k);
    }
    if Printed(lines, k) {
      var i :| At(lines, i, k);
      AtFront(lines, i, k);
    }
  }

  lemma {:induction false} FoldSeen(lines: seq<Line>, expected: map<Key, string>)
    ensures forall k :: k in Fold(lines, expected).seen <==> Printed(lines, k)
    ensures Fold(lines, expected).footer == LastFooter(lines)
  {
    if lines != [] {
      FoldSeen(lines[..|lines| - 1], expected);
      forall k: Key
        ensures k in Fold(lines, expected).seen <==> Printed(lines, k)
      {
        PrintedFront(lines, k);
      }
    }
  }

  lemma OnceFront(lines: seq<Line>)
    requires lines != []
    ensures var front, last := lines[..|lines| - 1], lines[|lines| - 1];
            Once(lines) <==> Once(front) && (last.Oracle? ==> !Printed(front, last.key))
  {
    var front, last, n := lines[..|lines| - 1], lines[|lines| - 1], |lines| - 1;
    if Once(lines) {
      forall i, j, k | At(front, i, k) && At(front, j, k)
        ensures i == j
      {
        assert At(lines, i, k) && At(lines, j, k);
      }
      if last.Oracle? {
        forall i
          ensures !At(front, i, last.key)
        {
          assert At(front, i, last.key) ==> At(lines, i, last.key) && i != n;
          assert At(lines, n, last.key);
        }
      }
    }
    if Once(front) && (last.Oracle? ==> !Printed(front, last.key)) {
      forall i, j, k | At(lines, i, k) && At(lines, j, k)
        ensures i == j
      {
        AtFront(lines, i, k);
        AtFront(lines, j, k);
        assert last.Oracle? ==> !At(front, i, last.key) && !At(front, j, last.key);
      }
    }
  }

  lemma {:induction false} FoldCounts(lines: seq<Line>, expected: map<Key, string>)
    ensures Fold(lines, expected).duplicates == [] <==> Once(lines)
    ensures Fold(lines, expected).mismatches == [] <==> Right(lines, expected)
  {
    if lines != [] {
      var front, last := lines[..|lines| - 1], lines[|lines| - 1];
      FoldCounts(front, expected);
      FoldSeen(front, expected);
      OnceFront(lines);
      assert lines == front + [last];
      hide Once, Printed, Agrees;
      assert Right(lines, expected) <==>
          Right(front, expected) && (last.Oracle? ==> Agrees(expected, last.key, last.value));
    }
  }

  /** A sweep passes exactly when every expected entry is printed, once and rightly, nothing else
      is printed, and the last footer gives the size of the table. */
  lemma PassedMeans(lines: seq<Line>, expected: map<Key, string>)
    ensures Passed(Summary(Fold(lines, expected), expected)) <==>
              && Right(lines, expected) && Once(lines)
              && (forall k :: k in expected ==> Printed(lines, k))
              && LastFooter(lines) == Some(|expected|)
  {
    var t := Fold(lines, expected);
    FoldSeen(lines, expected);
    FoldCounts(lines, expected);
    hide Fold, Once, LastFooter;
    var none := Missing(expected, t.seen);
    forall k | k in expected
      ensures k in none <==> !Printed(lines, k)
    {
    }
    assert |none| == 0 <==> none == {};
    assert none == {} <==> forall k :: k in expected ==> k !in none;
    if Right(lines, expected) && forall k :: k in expected ==> Printed(lines, k) {
      forall k | k in t.seen
        ensures k in expected
      {
        var i :| At(lines, i, k);
        assert Agrees(expected, lines[i].key, lines[i].value);
      }
      assert t.seen.Keys == expected.Keys;
      assert |t.seen| == |t.seen.Keys| && |expected| == |expected.Keys|;
    }
  }

  // ---------------------------------------------------------------- the corrupted copy

  /** A changed last digit. */
  function Flipped(v: string): string
    requires v != ""
  {
    v[..|v| - 1] + (if v[|v| - 1] != '0' then "0" else "1")
  }

  lemma FlippedDiffers(v: string)
    requires v != ""
    ensures Flipped(v) != v && |Flipped(v)| == |v|
  {
    assert Flipped(v)[|v| - 1] != v[|v| - 1];
  }

  /** Changing one right value is one mismatch; every other line counts as before. */
  lemma {:induction false} OneMismatch(lines: seq<Line>, expected: map<Key, string>, i: nat, w: string)
    requires Right(lines, expected) && i < |lines| && lines[i].Oracle? && lines[i].value != w
    ensures var a, b := Fold(lines, expected), Fold(lines[i := Oracle(lines[i].key, w)], expected);
            && |b.mismatches| == 1 && b.seen.Keys == a.seen.Keys && b.duplicates == a.duplicates && b.footer == a.footer
  {
    var n := |lines| - 1;
    var front, changed := lines[..n], lines[i := Oracle(lines[i].key, w)];
    assert Right(front, expected);
    FoldCounts(front, expected);
    if i == n {
      assert changed[..n] == front;
      assert Agrees(expected, lines[n].key, lines[n].value);
    } else {
      assert changed[..n] == front[i := Oracle(lines[i].key, w)];
      OneMismatch(front, expected, i, w);
      assert lines[n].Oracle? ==> Agrees(expected, lines[n].key, lines[n].value);
    }
  }

  /** The control: flip the last digit of one oracle line of a passing sweep, and the comparison
      reports exactly one mismatch and nothing else. */
  lemma CorruptedCopy(lines: seq<Line>, expected: map<Key, string>, i: nat)
    requires Passed(Summary(Fold(lines, expected), expected))
    requires i < |lines| && lines[i].Oracle? && lines[i].value != ""
    ensures var r := Summary(Fold(lines[i := Oracle(lines[i].key, Flipped(lines[i].value))], expected), expected);
            r == Report(|expected|, |expected|, 1, 0, 0, Some(|expected|)) && !Passed(r)
  {
    PassedMeans(lines, expected);
    var w := Flipped(lines[i].value);
    FlippedDiffers(lines[i].value);
    OneMismatch(lines, expected, i, w);
    var a, b := Fold(lines, expected), Fold(lines[i := Oracle(lines[i].key, w)], expected);
    assert |a.seen| == |a.seen.Keys| && |b.seen| == |b.seen.Keys|;
    assert Missing(expected, a.seen) == Missing(expected, b.seen);
  }
}
