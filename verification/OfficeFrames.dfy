/** Length-prefixed frames: the printer, and the loop that reads records of eight of them. */
module OfficeFrames {
  import opened Common

  const COLON: byte := 58
  const B31: seq<byte> := [98, 51, 49]

  predicate Digit(c: byte) { 48 <= c <= 57 }

  /** A run of digits; `None` if it is empty or holds anything else. */
  function ReadDecimal(d: seq<byte>): Option<nat> {
    if d == [] || !Digit(d[|d| - 1]) then None
    else if |d| == 1 then Some(d[0] - 48)
    else
      var front, low: int := ReadDecimal(d[..|d| - 1]), d[|d| - 1] - 48;
      if front.None? then None else Some(10 * front.value + low)
  }

  lemma {:induction false} DecimalRoundTrip(n: nat)
    ensures ReadDecimal(Decimal(n)) == Some(n) && forall c :: c in Decimal(n) ==> c != COLON
  {
    if n >= 10 {
      DecimalRoundTrip(n / 10);
      var d := Decimal(n);
      assert d[..|d| - 1] == Decimal(n / 10);
    }
  }

  function Frame(s: seq<byte>): (f: seq<byte>)
    ensures |f| > |s|
  {
    Decimal(|s|) + [COLON] + s
  }

  function Frames(list: seq<seq<byte>>): seq<byte> {
    if list == [] then [] else Frame(list[0]) + Frames(list[1..])
  }

  /** The field at `p` and where it ends; a size that runs past the end is cut short there. */
  function ReadField(data: seq<byte>, p: nat): (r: Option<(seq<byte>, nat)>)
    requires p <= |data|
    ensures r.Some? ==> p < r.value.1
  {
    var end := p + Before(data[p..], COLON);
    if end == |data| then None
    else
      var size := ReadDecimal(data[p..end]);
      if size.None? then None
      else
        var stop := end + 1 + size.value;
        Some((data[end + 1..if stop < |data| then stop else |data|], stop))
  }

  function ReadFields(data: seq<byte>, p: nat, n: nat): (r: Option<(seq<seq<byte>>, nat)>)
    ensures r.Some? ==> |r.value.0| == n && p + n <= r.value.1
  {
    if n == 0 then Some(([], p))
    else
      var front := ReadFields(data, p, n - 1);
      if front.None? || front.value.1 > |data| then None
      else
        var last := ReadField(data, front.value.1);
        if last.None? then None else Some((front.value.0 + [last.value.0], last.value.1))
  }

  function ReadRecords(data: seq<byte>, p: nat): Option<seq<seq<seq<byte>>>>
    decreases |data| - p
  {
    if p + 1 >= |data| then Some([])
    else
      var r := ReadFields(data, p, 8);
      if r.None? then None
      else
        var rest := ReadRecords(data, r.value.1);
        if rest.None? then None else Some([r.value.0] + rest.value)
  }

  /** The greatest index whose fourth field is `b31`, or -1. */
  ghost predicate LastAction(records: seq<seq<seq<byte>>>, last: int)
    requires forall r :: r in records ==> |r| == 8
  {
    && -1 <= last < |records| && (last >= 0 ==> records[last][3] == B31)
    && forall k :: last < k < |records| ==> records[k][3] != B31
  }

  lemma {:induction false} RecordsShape(data: seq<byte>, p: nat)
    ensures ReadRecords(data, p).Some? ==> forall r :: r in ReadRecords(data, p).value ==> |r| == 8
    decreases |data| - p
  {
    if p + 1 < |data| && ReadFields(data, p, 8).Some? {
      RecordsShape(data, ReadFields(data, p, 8).value.1);
    }
  }

  /** Eight fields in a row. */
  method Fields(data: seq<byte>, p: nat) returns (fields: Option<(seq<seq<byte>>, nat)>)
    requires p + 1 < |data|
    ensures fields == ReadFields(data, p, 8)
    ensures fields.None? ==> ReadRecords(data, p).None?
  {
    hide ReadField;
    var list: seq<seq<byte>>, q := [], p;
    for k := 0 to 8
      invariant p <= q && ReadFields(data, p, k) == Some((list, q))
    {
      if q > |data| {
        TooFar(data, p, k);
        return None;
      }
      var f := ReadField(data, q);
      if f.None? {
        TooFar(data, p, k);
        return None;
      }
      list, q := list + [f.value.0], f.value.1;
    }
    return Some((list, q));
  }

  /** The loop: it ends, and finds the records, their number and the last action. */
  method Parse(data: seq<byte>) returns (r: Option<(seq<seq<seq<byte>>>, nat, int)>)
    ensures r.None? <==> ReadRecords(data, 4).None?
    ensures r.Some? ==>
              var records := r.value.0;
              && records == ReadRecords(data, 4).value && r.value.1 == |records|
              && (forall x :: x in records ==> |x| == 8) && LastAction(records, r.value.2)
  {
    var p, idx, last := 4, 0, -1;
    var records: seq<seq<seq<byte>>> := [];
    JoinedEmpty(ReadRecords(data, 4));
    while p + 1 < |data|
      invariant idx == |records| && (forall x :: x in records ==> |x| == 8) && LastAction(records, last)
      invariant ReadRecords(data, 4) == Joined(records, ReadRecords(data, p))
      decreases |data| - p
    {
      var f := Fields(data, p);
      if f.None? {
        return None;
      }
      var fields := f.value.0;
      JoinedOne(records, fields, ReadRecords(data, f.value.1));
      if fields[3] == B31 {
        last := idx;
      }
      records, idx, p := records + [fields], idx + 1, f.value.1;
    }
    return Some((records, idx, last));
  }

  lemma JoinedEmpty(b: Option<seq<seq<seq<byte>>>>)
    ensures Joined([], b) == b
  {
    assert b.Some? ==> [] + b.value == b.value;
  }

  lemma JoinedOne(a: seq<seq<seq<byte>>>, x: seq<seq<byte>>, b: Option<seq<seq<seq<byte>>>>)
    ensures Joined(a, if b.None? then None else Some([x] + b.value)) == Joined(a + [x], b)
  {
    assert b.Some? ==> a + ([x] + b.value) == (a + [x]) + b.value;
  }

  function Joined(a: seq<seq<seq<byte>>>, b: Option<seq<seq<seq<byte>>>>): Option<seq<seq<seq<byte>>>> {
    if b.None? then None else Some(a + b.value)
  }

  /** Once the fields stop, so does the record. */
  lemma {:induction false} TooFar(data: seq<byte>, p: nat, k: nat)
    requires p + 1 < |data| && k < 8 && ReadFields(data, p, k + 1).None?
    ensures ReadFields(data, p, 8).None? && ReadRecords(data, p).None?
  {
    NoMore(data, p, k + 1, 8);
  }

  lemma {:induction false} NoMore(data: seq<byte>, p: nat, k: nat, n: nat)
    requires k <= n && ReadFields(data, p, k).None?
    ensures ReadFields(data, p, n).None?
  {
    if k < n {
      NoMore(data, p, k, n - 1);
    }
  }

  // ---------------------------------------------------------------- reading what was printed

  lemma ColonAt(data: seq<byte>, p: nat, d: seq<byte>)
    requires p + |d| < |data| && data[p..p + |d|] == d && data[p + |d|] == COLON && forall c :: c in d ==> c != COLON
    ensures Before(data[p..], COLON) == |d|
  {
    var t := data[p..];
    forall i | 0 <= i < |d|
      ensures t[i] != COLON
    {
      assert t[i] == data[p..p + |d|][i] && d[i] in d;
    }
    hide Before;
    SameBefore(t, COLON, |d|);
  }

  /** Where the digits, the colon and the text of a frame lie. */
  lemma FrameSlices(pre: seq<byte>, d: seq<byte>, s: seq<byte>, post: seq<byte>)
    ensures var data, p := pre + d + [COLON] + s + post, |pre|;
            && data[p..p + |d|] == d && data[p + |d|] == COLON && data[p + |d| + 1..p + |d| + 1 + |s|] == s
  {
  }

  lemma FieldIs(data: seq<byte>, p: nat, d: seq<byte>, s: seq<byte>)
    requires p + |d| + 1 + |s| <= |data| && Before(data[p..], COLON) == |d| && data[p..p + |d|] == d
    requires ReadDecimal(d) == Some(|s|) && data[p + |d| + 1..p + |d| + 1 + |s|] == s
    ensures ReadField(data, p) == Some((s, p + |d| + 1 + |s|))
  {
    hide Before, ReadDecimal;
  }

  lemma ReadsAt(data: seq<byte>, p: nat, d: seq<byte>, s: seq<byte>)
    requires (forall c :: c in d ==> c != COLON) && ReadDecimal(d) == Some(|s|) && p + |d| + 1 + |s| <= |data|
    requires data[p..p + |d|] == d && data[p + |d|] == COLON && data[p + |d| + 1..p + |d| + 1 + |s|] == s
    ensures ReadField(data, p) == Some((s, p + |d| + 1 + |s|))
  {
    hide Before, ReadDecimal, ReadField;
    ColonAt(data, p, d);
    FieldIs(data, p, d, s);
  }

  lemma FieldParts(pre: seq<byte>, d: seq<byte>, s: seq<byte>, post: seq<byte>)
    requires (forall c :: c in d ==> c != COLON) && ReadDecimal(d) == Some(|s|)
    ensures ReadField(pre + d + [COLON] + s + post, |pre|) == Some((s, |pre| + |d| + 1 + |s|))
  {
    hide Before, ReadDecimal, ReadField;
    FrameSlices(pre, d, s, post);
    ReadsAt(pre + d + [COLON] + s + post, |pre|, d, s);
  }

  lemma FieldAt(pre: seq<byte>, s: seq<byte>, post: seq<byte>)
    ensures ReadField(pre + Frame(s) + post, |pre|) == Some((s, |pre| + |Frame(s)|))
  {
    var d := Decimal(|s|);
    DecimalRoundTrip(|s|);
    hide ReadField, Decimal, ReadDecimal;
    FieldParts(pre, d, s, post);
    assert pre + Frame(s) + post == pre + d + [COLON] + s + post;
  }

  lemma {:induction false} FramesAppend(a: seq<seq<byte>>, b: seq<seq<byte>>)
    ensures Frames(a + b) == Frames(a) + Frames(b)
  {
    hide Frame;
    if a == [] {
      assert a + b == b;
    } else {
      FramesAppend(a[1..], b);
      assert (a + b)[1..] == a[1..] + b;
    }
  }

  lemma OneFrame(s: seq<byte>)
    ensures Frames([s]) == Frame(s)
  {
    assert [s][1..] == [];
  }

  lemma {:induction false} FieldsAt(pre: seq<byte>, list: seq<seq<byte>>, post: seq<byte>)
    ensures ReadFields(pre + Frames(list) + post, |pre|, |list|) == Some((list, |pre| + |Frames(list)|))
    decreases |list|
  {
    hide ReadField, Frame;
    if list != [] {
      var front, s := list[..|list| - 1], list[|list| - 1];
      FramesAppend(front, [s]);
      OneFrame(s);
      hide Frames;
      assert front + [s] == list;
      FieldsAt(pre, front, Frame(s) + post);
      assert pre + Frames(front) + (Frame(s) + post) == pre + Frames(list) + post;
      FieldAt(pre + Frames(front), s, post);
      assert pre + Frames(front) + Frame(s) + post == pre + Frames(list) + post;
    }
  }

  function Wire(records: seq<seq<seq<byte>>>): seq<byte> {
    if records == [] then [] else Frames(records[0]) + Wire(records[1..])
  }

  lemma WireApart(pre: seq<byte>, records: seq<seq<seq<byte>>>)
    requires records != []
    ensures pre + Wire(records) + [10] == pre + Frames(records[0]) + (Wire(records[1..]) + [10])
    ensures pre + Wire(records) + [10] == pre + Frames(records[0]) + Wire(records[1..]) + [10]
    ensures |pre + Wire(records) + [10]| >= |pre| + |Frames(records[0])| + 1
  {
    hide Frames;
  }

  lemma ReadStep(data: seq<byte>, p: nat, r: seq<seq<byte>>, next: nat, rest: seq<seq<seq<byte>>>)
    requires p + 1 < |data| && ReadFields(data, p, 8) == Some((r, next)) && ReadRecords(data, next) == Some(rest)
    ensures ReadRecords(data, p) == Some([r] + rest)
  {
    hide ReadFields;
  }

  lemma NoRecords(pre: seq<byte>)
    ensures ReadRecords(pre + Wire([]) + [10], |pre|) == Some([])
  {
  }

  lemma {:induction false} RecordsAt(pre: seq<byte>, records: seq<seq<seq<byte>>>)
    requires forall r :: r in records ==> |r| == 8
    ensures ReadRecords(pre + Wire(records) + [10], |pre|) == Some(records)
    decreases |records|
  {
    hide ReadFields, ReadRecords, Frames, Wire;
    if records == [] {
      NoRecords(pre);
    } else {
      var r, rest := records[0], records[1..];
      FieldsAt(pre, r, Wire(rest) + [10]);
      FramesLong(r);
      WireApart(pre, records);
      RecordsAt(pre + Frames(r), rest);
      ReadStep(pre + Wire(records) + [10], |pre|, r, |pre + Frames(r)|, rest);
      assert [r] + rest == records;
    }
  }

  lemma FramesLong(list: seq<seq<byte>>)
    requires list != []
    ensures |Frames(list)| > 0
  {
  }

  /** A frame, letter by letter. */
  lemma FrameIs(s: seq<byte>)
    ensures Frame(s) == Decimal(|s|) + [':' as int] + s && B31 == ['b' as int, '3' as int, '1' as int]
  {
    hide Decimal;
  }

  lemma KnownDecimals()
    ensures Decimal(0) == Ascii("0") && Decimal(2048) == Ascii("2048")
  {
    assert Decimal(20) == [50, 48];
    assert Decimal(204) == [50, 48, 52];
  }

  /** Printing records and reading them gives them back. */
  lemma PrintThenRead(head: seq<byte>, records: seq<seq<seq<byte>>>)
    requires |head| == 4 && forall r :: r in records ==> |r| == 8
    ensures ReadRecords(head + Wire(records) + [10], 4) == Some(records)
  {
    RecordsAt(head, records);
  }

  lemma FirstFrame(a: seq<byte>, x: seq<byte>, b: seq<byte>, y: seq<byte>)
    requires Frame(a) + x == Frame(b) + y
    ensures a == b && x == y
  {
    FieldAt([], a, x);
    FieldAt([], b, y);
    hide Frame, ReadField;
    var f := Frame(a) + x;
    assert [] + Frame(a) + x == f && [] + Frame(b) + y == f;
    assert x == f[|Frame(a)|..] && y == f[|Frame(b)|..];
  }

  /** Frames need no separator: different lists never print alike. */
  lemma {:induction false} FramesInjective(a: seq<seq<byte>>, b: seq<seq<byte>>)
    requires Frames(a) == Frames(b)
    ensures a == b
    decreases |a|
  {
    if a == [] {
      if b != [] {
        FramesLong(b);
      }
    } else if b == [] {
      FramesLong(a);
    } else {
      hide Frame;
      FirstFrame(a[0], Frames(a[1..]), b[0], Frames(b[1..]));
      FramesInjective(a[1..], b[1..]);
      assert a == [a[0]] + a[1..] && b == [b[0]] + b[1..];
    }
  }
}
