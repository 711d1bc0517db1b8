/**
 The programs that the test scripts write out. Byte strings become nested literals, test cases
 become boolean expressions, and a chunk of cases becomes a sum. Evaluating the program gives
 back the bytes, the verdicts and the count that went in.
 */
module Generated {
  import opened Common
  import F = Fragments

  /** Vector expressions: literals, the two joins, and calls into the library under test. */
  datatype Vector = Lit(items: seq<int>) | Cat(x: Vector, y: Vector) | Into(x: Vector, y: Vector)
                  | Exchange(key: Vector, point: Vector)
                  | Seal(key: Vector, iv: Vector, aad: Vector, text: Vector)
                  | Open(key: Vector, iv: Vector, aad: Vector, text: Vector)

  datatype Test = Same(x: Vector, y: Vector) | Refused(v: Vector) | And(a: Test, b: Test)

  /** Whatever the library computes. */
  datatype Library = Library(exchange: (seq<int>, seq<int>) -> seq<int>,
                             seal: (seq<int>, seq<int>, seq<int>, seq<int>) -> seq<int>,
                             open: (seq<int>, seq<int>, seq<int>, seq<int>) -> seq<int>)

  function Value(lib: Library, e: Vector): seq<int> {
    match e
    case Lit(items) => items
    case Cat(x, y) => Value(lib, x) + Value(lib, y)
    case Into(x, y) => Value(lib, x) + Value(lib, y)
    case Exchange(k, p) => lib.exchange(Value(lib, k), Value(lib, p))
    case Seal(k, i, a, t) => lib.seal(Value(lib, k), Value(lib, i), Value(lib, a), Value(lib, t))
    case Open(k, i, a, t) => lib.open(Value(lib, k), Value(lib, i), Value(lib, a), Value(lib, t))
  }

  predicate Holds(lib: Library, t: Test) {
    match t
    case Same(x, y) => Value(lib, x) == Value(lib, y)
    case Refused(v) => Value(lib, v) == [-1]
    case And(a, b) => Holds(lib, a) && Holds(lib, b)
  }

  // ---------------------------------------------------------------- the emitted helpers

  /** `cat`: a vector of the joint length, filled element by element. */
  method CatLoop(x: seq<int>, y: seq<int>) returns (out: array<int>)
    ensures fresh(out) && out[..] == x + y
  {
    var n := |x|;
    out := new int[n + |y|];
    var i := 0;
    while i != out.Length
      invariant 0 <= i <= out.Length
      invariant forall j :: 0 <= j < i ==> out[j] == (x + y)[j]
    {
      out[i] := if i < n then x[i] else y[i - n];
      i := i + 1;
    }
  }

  /** `same?`: equal counts, then element by element up to the first difference. */
  method SameLoop(x: seq<int>, y: seq<int>) returns (same: bool)
    ensures same <==> x == y
  {
    if |x| != |y| {
      return false;
    }
    var i := 0;
    while i != |x|
      invariant 0 <= i <= |x| && x[..i] == y[..i]
    {
      if x[i] != y[i] {
        return false;
      }
      i := i + 1;
    }
    assert x[..i] == x && y[..i] == y;
    return true;
  }

  method RefusedTest(v: seq<int>) returns (refused: bool)
    ensures refused <==> v == [-1]
  {
    return |v| == 1 && v[0] == -1;
  }

  // ---------------------------------------------------------------- byte strings as literals

  function Whole(data: seq<byte>): seq<int> { seq(|data|, i requires 0 <= i < |data| => data[i]) }

  /** The longest literal in a nest of joins. */
  function Widest(e: Vector): nat {
    match e
    case Lit(items) => |items|
    case Cat(x, y) => if Widest(x) < Widest(y) then Widest(y) else Widest(x)
    case Into(x, y) => if Widest(x) < Widest(y) then Widest(y) else Widest(x)
    case _ => 0
  }

  /** The first `n` pieces of `unit` bytes, joined from the left. */
  function Nest(data: seq<byte>, unit: nat, n: nat, join: (Vector, Vector) -> Vector): Vector
    requires n > 0
  {
    if n == 1 then Lit(Whole(F.Part(data, unit, 0)))
    else join(Nest(data, unit, n - 1, join), Lit(Whole(F.Part(data, unit, n - 1))))
  }

  function ByCat(): (Vector, Vector) -> Vector { (x: Vector, y: Vector) => Cat(x, y) }

  function ByInto(): (Vector, Vector) -> Vector { (x: Vector, y: Vector) => Into(x, y) }

  function BytesLiteral(data: seq<byte>): Vector {
    if data == [] then Lit([]) else Nest(data, 64, (|data| + 63) / 64, ByCat())
  }

  function Literal(data: seq<byte>): Vector {
    if data == [] then Lit([]) else Nest(data, 48, (|data| + 47) / 48, ByInto())
  }

  lemma WholeAppend(a: seq<byte>, b: seq<byte>)
    ensures Whole(a + b) == Whole(a) + Whole(b)
  {
  }

  lemma {:induction false} NestValue(lib: Library, data: seq<byte>, unit: nat, n: nat, join: (Vector, Vector) -> Vector)
    requires n > 0 && (join == ByCat() || join == ByInto())
    ensures Value(lib, Nest(data, unit, n, join)) == Whole(F.JoinParts(data, unit, n))
    ensures Widest(Nest(data, unit, n, join)) <= unit
  {
    var last := F.Part(data, unit, n - 1);
    assert |last| <= unit by {
      F.StartMonotone(|data|, unit, n - 1);
    }
    assert F.JoinParts(data, unit, n) == F.JoinParts(data, unit, n - 1) + last;
    WholeAppend(F.JoinParts(data, unit, n - 1), last);
    if n == 1 {
      assert F.JoinParts(data, unit, 0) == [] && [] + Whole(last) == Whole(last);
    } else {
      hide F.Part, F.JoinParts, Whole;
      NestValue(lib, data, unit, n - 1, join);
    }
  }

  /** The expression evaluates to exactly the bytes, and no literal in it is wider than 64. */
  lemma BytesLiteralMeans(lib: Library, data: seq<byte>)
    ensures Value(lib, BytesLiteral(data)) == Whole(data) && Widest(BytesLiteral(data)) <= 64
  {
    if data != [] {
      NestValue(lib, data, 64, (|data| + 63) / 64, ByCat());
      F.SplitJoin(data, 64);
    }
  }

  /** Likewise for the 48-element literals joined by `into`. */
  lemma LiteralMeans(lib: Library, data: seq<byte>)
    ensures Value(lib, Literal(data)) == Whole(data) && Widest(Literal(data)) <= 48
  {
    if data != [] {
      NestValue(lib, data, 48, (|data| + 47) / 48, ByInto());
      F.SplitJoin(data, 48);
    }
  }

  /** The loop that writes the expression: cut, then fold the pieces from the left. */
  method WriteBytesLiteral(data: seq<byte>) returns (e: Vector)
    ensures e == BytesLiteral(data)
  {
    if data == [] {
      return Lit([]);
    }
    var parts: seq<seq<byte>>, i := [], 0;
    while i < |data|
      invariant 0 <= i == |parts| * 64 && (i < |data| + 64)
      invariant forall k :: 0 <= k < |parts| ==> parts[k] == F.Part(data, 64, k)
    {
      parts := parts + [data[i..if i + 64 < |data| then i + 64 else |data|]];
      i := i + 64;
    }
    assert |parts| == (|data| + 63) / 64;
    e := Lit(Whole(parts[0]));
    var k := 1;
    while k < |parts|
      invariant 1 <= k <= |parts| && e == Nest(data, 64, k, ByCat())
    {
      e := Cat(e, Lit(Whole(parts[k])));
      k := k + 1;
    }
  }

  // ---------------------------------------------------------------- cases and chunks

  datatype Case = Agreement(secret: seq<byte>, public: seq<byte>, shared: seq<byte>)
                | Sealed(key: seq<byte>, iv: seq<byte>, aad: seq<byte>, msg: seq<byte>, ct: seq<byte>, tag: seq<byte>,
                         valid: bool)

  function CaseTest(c: Case): Test {
    match c
    case Agreement(s, p, shared) => Same(Exchange(BytesLiteral(s), BytesLiteral(p)), BytesLiteral(shared))
    case Sealed(k, i, a, m, ct, tag, valid) =>
      var key, iv, aad, sealed := BytesLiteral(k), BytesLiteral(i), BytesLiteral(a), BytesLiteral(ct + tag);
      if valid then And(Same(Seal(key, iv, aad, BytesLiteral(m)), sealed),
                        Same(Open(key, iv, aad, sealed), BytesLiteral(m)))
      else Refused(Open(key, iv, aad, sealed))
  }

  /** What the vector file demands of the library, on the bytes themselves. */
  predicate Passes(lib: Library, c: Case) {
    match c
    case Agreement(s, p, shared) => lib.exchange(Whole(s), Whole(p)) == Whole(shared)
    case Sealed(k, i, a, m, ct, tag, valid) =>
      var sealed := Whole(ct) + Whole(tag);
      if valid
      then lib.seal(Whole(k), Whole(i), Whole(a), Whole(m)) == sealed
          && lib.open(Whole(k), Whole(i), Whole(a), sealed) == Whole(m)
      else lib.open(Whole(k), Whole(i), Whole(a), sealed) == [-1]
  }

  /** The generated test holds exactly when the library does what the case demands. */
  lemma CaseMeans(lib: Library, c: Case)
    ensures Holds(lib, CaseTest(c)) <==> Passes(lib, c)
  {
    hide BytesLiteral, Whole, Widest;
    match c {
      case Agreement(s, p, shared) =>
        BytesLiteralMeans(lib, s);
        BytesLiteralMeans(lib, p);
        BytesLiteralMeans(lib, shared);
      case Sealed(k, i, a, m, ct, tag, valid) =>
        BytesLiteralMeans(lib, k);
        BytesLiteralMeans(lib, i);
        BytesLiteralMeans(lib, a);
        BytesLiteralMeans(lib, m);
        BytesLiteralMeans(lib, ct + tag);
        WholeAppend(ct, tag);
    }
  }

  /** `(+ 0 (if test 1 0) …)` */
  function MainValue(lib: Library, part: seq<Case>): nat {
    if part == [] then 0
    else MainValue(lib, part[..|part| - 1]) + (if Holds(lib, CaseTest(part[|part| - 1])) then 1 else 0)
  }

  function Flatten(chunks: seq<seq<Case>>): seq<Case> {
    if chunks == [] then [] else Flatten(chunks[..|chunks| - 1]) + chunks[|chunks| - 1]
  }

  /** Slices of `size`: nothing lost, repeated or reordered, none empty, all but the last full. */
  method Chunks(cases: seq<Case>, size: nat) returns (out: seq<seq<Case>>)
    requires size > 0
    ensures Flatten(out) == cases
    ensures forall k :: 0 <= k < |out| ==> 0 < |out[k]| <= size && (k < |out| - 1 ==> |out[k]| == size)
  {
    out := [];
    var i := 0;
    while i < |cases|
      invariant 0 <= i && Flatten(out) == cases[..if i < |cases| then i else |cases|]
      invariant forall k :: 0 <= k < |out| ==>
                  0 < |out[k]| <= size && (k < |out| - 1 || i < |cases| ==> |out[k]| == size)
    {
      var part := cases[i..if i + size < |cases| then i + size else |cases|];
      assert (out + [part])[..|out|] == out;
      out := out + [part];
      i := i + size;
    }
  }

  function Passing(lib: Library, cases: seq<Case>): nat {
    if cases == [] then 0
    else Passing(lib, cases[..|cases| - 1]) + (if Passes(lib, cases[|cases| - 1]) then 1 else 0)
  }

  /** A chunk's program evaluates to the number of its cases that pass. */
  lemma {:induction false} MainCounts(lib: Library, part: seq<Case>)
    ensures MainValue(lib, part) == Passing(lib, part) <= |part|
  {
    if part != [] {
      MainCounts(lib, part[..|part| - 1]);
      CaseMeans(lib, part[|part| - 1]);
    }
  }

  lemma {:induction false} AllPassing(lib: Library, cases: seq<Case>)
    ensures Passing(lib, cases) <= |cases|
    ensures Passing(lib, cases) == |cases| <==> forall c :: c in cases ==> Passes(lib, c)
  {
    if cases != [] {
      var front, last := cases[..|cases| - 1], cases[|cases| - 1];
      AllPassing(lib, front);
      assert cases == front + [last];
    }
  }

  lemma {:induction false} InFlatten(chunks: seq<seq<Case>>, c: Case)
    ensures c in Flatten(chunks) <==> exists k :: 0 <= k < |chunks| && c in chunks[k]
  {
    if chunks != [] {
      var n := |chunks| - 1;
      InFlatten(chunks[..n], c);
      assert forall k :: 0 <= k < n ==> chunks[..n][k] == chunks[k];
    }
  }

  /** Every chunk returns its number of cases exactly when every case passes. */
  lemma AllChunks(lib: Library, chunks: seq<seq<Case>>)
    ensures (forall k :: 0 <= k < |chunks| ==> MainValue(lib, chunks[k]) == |chunks[k]|) <==>
            (forall c :: c in Flatten(chunks) ==> Passes(lib, c))
  {
    forall k | 0 <= k < |chunks|
      ensures MainValue(lib, chunks[k]) == |chunks[k]| <==> forall c :: c in chunks[k] ==> Passes(lib, c)
    {
      MainCounts(lib, chunks[k]);
      AllPassing(lib, chunks[k]);
    }
    forall c: Case
      ensures c in Flatten(chunks) <==> exists k :: 0 <= k < |chunks| && c in chunks[k]
    {
      InFlatten(chunks, c);
    }
    hide MainValue, Passes, Flatten;
  }
}
