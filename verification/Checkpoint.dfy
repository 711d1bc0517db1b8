/**
 How an observer outside the machine follows the checkpoints of a guest inside it. The guest
 writes a kind, then a phase number, then spins until the observer writes that number back.
 The observer reads the words one at a time while the guest runs, pauses it when the phase
 has moved, takes a snapshot, acknowledges, and lets it go on.
 */
module Checkpoint {
  import opened Common

  const BEFORE: int := 10
  const AFTER: int := 11

  datatype Mark<T> = Mark(kind: int, owners: T)

  datatype Watch<T> = Watch(phase: nat, before: Option<T>, report: seq<Mark<T>>, violations: seq<nat>)

  function Start<T>(): Watch<T> { Watch(0, None, [], []) }

  function Note<T>(w: Watch<T>, m: Mark<T>, before: Option<T>, fault: bool): Watch<T> {
    Watch(w.phase + 1, before, w.report + [m], if fault then w.violations + [w.phase + 1] else w.violations)
  }

  /** One checkpoint, or `None` when the observer's own assertions stop it. */
  function Take<T(==)>(w: Watch<T>, v: nat, m: Mark<T>, golden: (int, T) -> bool): Option<Watch<T>> {
    if v != w.phase + 1 then None
    else if m.kind == BEFORE then
      if w.before.Some? then None else Some(Note(w, m, Some(m.owners), false))
    else if m.kind == AFTER then
      if w.before.None? then None else Some(Note(w, m, None, m.owners != w.before.value))
    else Some(Note(w, m, w.before, !golden(m.kind, m.owners)))
  }

  /** The observer's own variables. */
  class Observer<T(==)> {
    var phase: nat
    var before: Option<T>
    var report: seq<Mark<T>>
    var violations: seq<nat>

    ghost function View(): Watch<T>
      reads this
    {
      Watch(phase, before, report, violations)
    }

    constructor ()
      ensures View() == Start()
    {
      phase, before, report, violations := 0, None, [], [];
    }

    method Handle(v: nat, m: Mark<T>, golden: (int, T) -> bool) returns (ok: bool)
      modifies this
      ensures ok <==> Take(old(View()), v, m, golden).Some?
      ensures View() == if ok then Take(old(View()), v, m, golden).value else old(View())
    {
      if v != phase + 1 {
        return false;
      }
      if m.kind == BEFORE {
        if before.Some? {
          return false;
        }
        before := Some(m.owners);
      } else if m.kind == AFTER {
        if before.None? {
          return false;
        }
        if before.value != m.owners {
          violations := violations + [v];
        }
        before := None;
      } else if !golden(m.kind, m.owners) {
        violations := violations + [v];
      }
      report := report + [m];
      phase := v;
      return true;
    }
  }

  // ---------------------------------------------------------------- guest and observer together

  datatype GuestAt = Working | Marked | Spinning | Halted

  datatype Reader = Idle | Status(done: bool) | Phase(done: bool, v: nat) | Row(done: bool, v: nat, kind: int)
                  | Stopped(done: bool, v: nat, kind: int)
                  | Taken(done: bool, v: nat) | Acked(done: bool) | Over | Failed

  /** `trail` is the history of what the guest published; no step reads it. */
  datatype World<T> = World(guest: GuestAt, owners: T, kindWord: int, phaseWord: nat, ackWord: nat,
                            trail: seq<Mark<T>>, reader: Reader, watch: Watch<T>)

  predicate Paused(r: Reader) { r.Stopped? || r.Taken? || r.Acked? }

  ghost predicate Init<T>(w: World<T>) {
    w.guest == Working && w.phaseWord == 0 && w.ackWord == 0 && w.trail == [] && w.reader == Idle && w.watch == Start()
  }

  ghost predicate GuestStep<T>(a: World<T>, b: World<T>) {
    && !Paused(a.reader)
    && match a.guest
       case Working =>
         || b == a.(owners := b.owners)
         || b == a.(guest := Marked, kindWord := b.kindWord)
         || b == a.(guest := Halted)
       case Marked =>
         b == a.(guest := Spinning, phaseWord := a.phaseWord + 1, trail := a.trail + [Mark(a.kindWord, a.owners)])
       case Spinning =>
         b == a || (a.ackWord == a.phaseWord && b == a.(guest := Working))
       case Halted => b == a
  }

  ghost predicate ObserverStep<T>(a: World<T>, b: World<T>, golden: (int, T) -> bool) {
    match a.reader
    case Idle => b == a.(reader := Status(a.guest == Halted))
    case Status(d) => b == a.(reader := Phase(d, a.phaseWord))
    case Phase(d, v) => b == a.(reader := Row(d, v, a.kindWord))
    case Row(d, v, k) =>
      b == a.(reader := if v > a.watch.phase then Stopped(d, v, k) else if d then Over else Idle)
    case Stopped(d, v, k) =>
      var t := Take(a.watch, v, Mark(k, a.owners), golden);
      b == if t.Some? then a.(reader := Taken(d, v), watch := t.value) else a.(reader := Failed)
    case Taken(d, v) => b == a.(reader := Acked(d), ackWord := v)
    case Acked(d) => b == a.(reader := if d then Over else Idle)
    case Over => b == a
    case Failed => b == a
  }

  ghost predicate Next<T>(a: World<T>, b: World<T>, golden: (int, T) -> bool) {
    GuestStep(a, b) || ObserverStep(a, b, golden)
  }

  ghost predicate Run<T>(ws: seq<World<T>>, golden: (int, T) -> bool) {
    |ws| > 0 && Init(ws[0]) && forall i :: 0 <= i < |ws| - 1 ==> Next(ws[i], ws[i + 1], golden)
  }

  /** The observer's state after a list of checkpoints taken in order from the start. */
  function Follow<T(==)>(trail: seq<Mark<T>>, golden: (int, T) -> bool): Option<Watch<T>> {
    if trail == [] then Some(Start())
    else
      var w := Follow(trail[..|trail| - 1], golden);
      if w.None? then None else Take(w.value, |trail|, trail[|trail| - 1], golden)
  }

  /** The guest waits at each checkpoint: while it is unacknowledged nothing it published changes. */
  ghost predicate GuestInv<T>(w: World<T>) {
    && |w.trail| == w.phaseWord
    && (if w.guest == Spinning
        then w.phaseWord > 0 && w.trail[w.phaseWord - 1] == Mark(w.kindWord, w.owners)
             && w.phaseWord - 1 <= w.ackWord <= w.phaseWord
        else w.ackWord == w.phaseWord)
  }

  ghost predicate Fresh<T>(w: World<T>, v: nat) {
    v <= w.phaseWord && (v > w.ackWord ==> w.guest == Spinning && v == w.phaseWord)
  }

  ghost predicate ReaderInv<T>(w: World<T>) {
    match w.reader
    case Idle => w.watch.phase == w.ackWord
    case Status(d) => w.watch.phase == w.ackWord && (d ==> w.guest == Halted)
    case Phase(d, v) => w.watch.phase == w.ackWord && (d ==> w.guest == Halted) && Fresh(w, v)
    case Row(d, v, k) =>
      w.watch.phase == w.ackWord && (d ==> w.guest == Halted) && Fresh(w, v) && (v > w.ackWord ==> k == w.kindWord)
    case Stopped(d, v, k) =>
      w.watch.phase == w.ackWord && w.guest == Spinning && v == w.phaseWord == w.ackWord + 1 && k == w.kindWord && !d
    case Taken(d, v) => w.watch.phase == v == w.phaseWord == w.ackWord + 1 && w.guest == Spinning && !d
    case Acked(d) => w.watch.phase == w.ackWord && !d
    case Over => w.watch.phase == w.ackWord && w.guest == Halted
    case Failed => w.watch.phase == w.ackWord
  }

  ghost predicate Inv<T>(w: World<T>, golden: (int, T) -> bool) {
    && GuestInv(w) && ReaderInv(w) && w.watch.phase <= |w.trail|
    && Follow(w.trail[..w.watch.phase], golden) == Some(w.watch)
  }

  lemma GuestKeeps<T>(a: World<T>, b: World<T>, golden: (int, T) -> bool)
    requires Inv(a, golden) && GuestStep(a, b)
    ensures Inv(b, golden)
  {
    hide Follow;
    assert b.trail[..b.watch.phase] == a.trail[..a.watch.phase];
  }

  lemma TakeNext<T>(trail: seq<Mark<T>>, n: nat, golden: (int, T) -> bool)
    requires n < |trail|
    ensures Follow(trail[..n + 1], golden)
         == var w := Follow(trail[..n], golden); if w.None? then None else Take(w.value, n + 1, trail[n], golden)
  {
    assert trail[..n + 1][..n] == trail[..n];
  }

  lemma HandledKeeps<T>(a: World<T>, b: World<T>, golden: (int, T) -> bool)
    requires Inv(a, golden) && ObserverStep(a, b, golden) && a.reader.Stopped?
    ensures Inv(b, golden)
  {
    TakeNext(a.trail, a.watch.phase, golden);
    hide Follow;
  }

  lemma ObserverKeeps<T>(a: World<T>, b: World<T>, golden: (int, T) -> bool)
    requires Inv(a, golden) && ObserverStep(a, b, golden)
    ensures Inv(b, golden)
  {
    if a.reader.Stopped? {
      HandledKeeps(a, b, golden);
    } else {
      hide Follow, Take;
    }
  }

  lemma {:induction false} RunInv<T>(ws: seq<World<T>>, golden: (int, T) -> bool)
    requires Run(ws, golden)
    ensures Inv(ws[|ws| - 1], golden)
  {
    if |ws| > 1 {
      var pre := ws[..|ws| - 1];
      assert Run(pre, golden) by {
        forall i | 0 <= i < |pre| - 1
          ensures Next(pre[i], pre[i + 1], golden)
        {
          assert Next(ws[i], ws[i + 1], golden);
        }
      }
      RunInv(pre, golden);
      var a, b := ws[|ws| - 2], ws[|ws| - 1];
      assert Next(a, b, golden);
      if GuestStep(a, b) {
        GuestKeeps(a, b, golden);
      } else {
        ObserverKeeps(a, b, golden);
      }
    }
  }

  /** What the observer stops for is always the guest's next checkpoint, as the guest published it. */
  lemma NeverSkips<T>(ws: seq<World<T>>, golden: (int, T) -> bool)
    requires Run(ws, golden) && ws[|ws| - 1].reader.Stopped?
    ensures var w := ws[|ws| - 1];
            w.reader.v == w.watch.phase + 1 == |w.trail| && w.trail[w.watch.phase] == Mark(w.reader.kind, w.owners)
  {
    RunInv(ws, golden);
  }

  // ---------------------------------------------------------------- before and after

  predicate Marks<T>(m: Mark<T>) { m.kind == 10 || m.kind == 11 }

  /** The last before-or-after mark, or -1. */
  function LastMark<T>(t: seq<Mark<T>>): (k: int)
    ensures -1 <= k < |t|
    ensures k >= 0 ==> Marks(t[k])
    ensures forall j :: k < j < |t| ==> !Marks(t[j])
  {
    if t == [] then -1
    else if Marks(t[|t| - 1]) then |t| - 1
    else LastMark(t[..|t| - 1])
  }

  predicate Open<T>(t: seq<Mark<T>>) { LastMark(t) >= 0 && t[LastMark(t)].kind == 10 }

  /** Every mark alternates with the one before it. */
  ghost predicate Alternates<T>(t: seq<Mark<T>>) {
    forall j :: 0 <= j < |t| ==> (t[j].kind == 11 ==> Open(t[..j])) && (t[j].kind == 10 ==> !Open(t[..j]))
  }

  /** An after shows what its before showed; any other checkpoint shows what it should. */
  ghost predicate Clean<T>(t: seq<Mark<T>>, j: nat, golden: (int, T) -> bool)
    requires j < |t|
  {
    && (t[j].kind == 11 && Open(t[..j]) ==> t[j].owners == t[LastMark(t[..j])].owners)
    && (!Marks(t[j]) ==> golden(t[j].kind, t[j].owners))
  }

  /** The state that `t` leads to, but for the violations. */
  ghost predicate Tracks<T>(w: Watch<T>, t: seq<Mark<T>>) {
    w.phase == |t| && w.report == t && w.before == if Open(t) then Some(t[LastMark(t)].owners) else None
  }

  ghost predicate AllClean<T>(t: seq<Mark<T>>, n: nat, golden: (int, T) -> bool)
    requires n <= |t|
  {
    forall j :: 0 <= j < n ==> Clean(t, j, golden)
  }

  /** Whether the mark `m` may follow `pre`. */
  predicate Follows<T>(pre: seq<Mark<T>>, m: Mark<T>) {
    (m.kind == 11 ==> Open(pre)) && (m.kind == 10 ==> !Open(pre))
  }

  lemma AlternatesStep<T>(pre: seq<Mark<T>>, m: Mark<T>)
    ensures Alternates(pre + [m]) <==> Alternates(pre) && Follows(pre, m)
  {
    hide Open;
    var t := pre + [m];
    assert forall j :: 0 <= j < |pre| ==> t[..j] == pre[..j] && t[j] == pre[j];
    assert t[..|pre|] == pre && t[|pre|] == m;
    if Alternates(t) {
      assert forall j :: 0 <= j < |pre| ==> Follows(t[..j], t[j]);
    }
  }

  lemma CleanPrefix<T>(pre: seq<Mark<T>>, m: Mark<T>, golden: (int, T) -> bool)
    ensures AllClean(pre + [m], |pre| + 1, golden) <==> AllClean(pre, |pre|, golden) && Clean(pre + [m], |pre|, golden)
  {
    var t := pre + [m];
    forall j | 0 <= j < |pre|
      ensures Clean(t, j, golden) <==> Clean(pre, j, golden)
    {
      assert t[..j] == pre[..j] && t[j] == pre[j];
    }
    hide Clean;
  }

  lemma TakeTracks<T>(w: Watch<T>, pre: seq<Mark<T>>, m: Mark<T>, golden: (int, T) -> bool)
    requires Tracks(w, pre) && Follows(pre, m)
    ensures var x := Take(w, |pre| + 1, m, golden);
            && x.Some? && Tracks(x.value, pre + [m])
            && x.value.violations == if Clean(pre + [m], |pre|, golden) then w.violations
                 else w.violations + [|pre| + 1]
  {
    var t := pre + [m];
    assert t[..|pre|] == pre;
    assert LastMark(t) == if Marks(m) then |pre| else LastMark(pre);
    hide LastMark;
    assert LastMark(pre) >= 0 ==> pre[LastMark(pre)] == t[LastMark(pre)];
  }

  /** A mark that may not follow ends the observation. */
  lemma TakeRefuses<T>(w: Watch<T>, pre: seq<Mark<T>>, m: Mark<T>, golden: (int, T) -> bool)
    requires Tracks(w, pre) && !Follows(pre, m)
    ensures Take(w, |pre| + 1, m, golden).None?
  {
    hide LastMark;
  }

  lemma FollowUnfold<T>(pre: seq<Mark<T>>, m: Mark<T>, golden: (int, T) -> bool)
    ensures Follow(pre + [m], golden)
         == if Follow(pre, golden).None? then None else Take(Follow(pre, golden).value, |pre| + 1, m, golden)
  {
    hide Take;
    assert (pre + [m])[..|pre|] == pre;
  }

  lemma {:induction false} FollowMeans<T>(t: seq<Mark<T>>, golden: (int, T) -> bool)
    ensures Follow(t, golden).Some? <==> Alternates(t)
    ensures Alternates(t) ==>
              var w := Follow(t, golden).value;
              && w.phase == |t| && w.report == t
              && w.before == (if Open(t) then Some(t[LastMark(t)].owners) else None)
              && (w.violations == [] <==> forall j :: 0 <= j < |t| ==> Clean(t, j, golden))
  {
    hide Alternates, Tracks, Follow, Take, Clean, Open, LastMark, Follows, AllClean;
    FollowTracks(t, golden);
    if Alternates(t) {
      MeansTracks(t, golden);
    }
  }

  lemma MeansTracks<T>(t: seq<Mark<T>>, golden: (int, T) -> bool)
    requires Follow(t, golden).Some? && Tracks(Follow(t, golden).value, t)
    requires Follow(t, golden).value.violations == [] <==> AllClean(t, |t|, golden)
    ensures var w := Follow(t, golden).value;
            && w.phase == |t| && w.report == t
            && w.before == (if Open(t) then Some(t[LastMark(t)].owners) else None)
            && (w.violations == [] <==> forall j :: 0 <= j < |t| ==> Clean(t, j, golden))
  {
    hide Follow, Clean, Open, LastMark;
  }

  lemma {:induction false} FollowTracks<T>(t: seq<Mark<T>>, golden: (int, T) -> bool)
    ensures Follow(t, golden).Some? <==> Alternates(t)
    ensures Alternates(t) ==>
              Tracks(Follow(t, golden).value, t)
              && (Follow(t, golden).value.violations == [] <==> AllClean(t, |t|, golden))
  {
    if t != [] {
      hide Alternates, Tracks, Follow, Take, Clean, Open, LastMark, Follows, AllClean;
      var pre, m := t[..|t| - 1], t[|t| - 1];
      assert t == pre + [m];
      FollowTracks(pre, golden);
      FollowUnfold(pre, m, golden);
      AlternatesStep(pre, m);
      CleanPrefix(pre, m, golden);
      if Alternates(pre) {
        if Follows(pre, m) {
          TakeTracks(Follow(pre, golden).value, pre, m, golden);
        } else {
          TakeRefuses(Follow(pre, golden).value, pre, m, golden);
        }
      }
    }
  }

  /** `j` is the after of the before at `i`: no other mark lies between them. */
  ghost predicate Mates<T>(t: seq<Mark<T>>, i: nat, j: nat) {
    i < j < |t| && t[i].kind == 10 && t[j].kind == 11 && forall k :: i < k < j ==> !Marks(t[k])
  }

  lemma MateIsLast<T>(t: seq<Mark<T>>, i: nat, j: nat)
    requires Mates(t, i, j)
    ensures LastMark(t[..j]) == i
  {
    var k := LastMark(t[..j]);
    assert k >= 0 ==> Marks(t[k]);
    assert forall x :: k < x < j ==> t[..j][x] == t[x];
    assert Marks(t[..j][i]);
  }

  lemma AfterHasMate<T>(t: seq<Mark<T>>, j: nat)
    requires Alternates(t) && j < |t| && t[j].kind == 11
    ensures exists i :: Mates(t, i, j)
  {
    var i := LastMark(t[..j]);
    assert Open(t[..j]);
    assert forall k :: i < k < j ==> t[..j][k] == t[k];
    assert Mates(t, i, j);
  }

  /** The next mark after an open one closes it. */
  lemma {:induction false} BeforeHasMate<T>(t: seq<Mark<T>>, i: nat, j: nat)
    requires Alternates(t) && !Open(t) && i < j <= |t| && t[i].kind == 10 && forall k :: i < k < j ==> !Marks(t[k])
    ensures exists x :: Mates(t, i, x)
    decreases |t| - j
  {
    assert LastMark(t[..j]) == i by {
      assert t[..j][i] == t[i];
      assert forall k :: i < k < j ==> t[..j][k] == t[k];
    }
    assert t[..|t|] == t;
    if j == |t| {
    } else if Marks(t[j]) {
      assert Open(t[..j]);
      assert Mates(t, i, j);
    } else {
      BeforeHasMate(t, i, j + 1);
    }
  }

  /** A run that ends accepted saw every checkpoint of the guest once, in order; befores and
      afters pair up; and no violation means that every pair is equal and the rest are golden. */
  lemma Accepted<T>(ws: seq<World<T>>, golden: (int, T) -> bool, total: nat)
    requires Run(ws, golden)
    requires var w := ws[|ws| - 1]; w.reader.Over? && w.watch.phase == total && w.watch.before.None?
    ensures var w := ws[|ws| - 1];
            && w.guest == Halted && |w.trail| == total && w.watch.report == w.trail
            && (forall j :: 0 <= j < total && w.trail[j].kind == 11 ==> exists i :: Mates(w.trail, i, j))
            && (forall i :: 0 <= i < total && w.trail[i].kind == 10 ==> exists j :: Mates(w.trail, i, j))
            && (w.watch.violations == [] <==>
                  && (forall i: nat, j: nat :: Mates(w.trail, i, j) ==> w.trail[i].owners == w.trail[j].owners)
                  && (forall j :: 0 <= j < total && !Marks(w.trail[j]) ==> golden(w.trail[j].kind, w.trail[j].owners)))
  {
    RunInv(ws, golden);
    var w := ws[|ws| - 1];
    var t := w.trail;
    assert t[..w.watch.phase] == t;
    FollowMeans(t, golden);
    forall j | 0 <= j < total && t[j].kind == 11
      ensures exists i :: Mates(t, i, j)
    {
      AfterHasMate(t, j);
    }
    forall i | 0 <= i < total && t[i].kind == 10
      ensures exists j :: Mates(t, i, j)
    {
      BeforeHasMate(t, i, i + 1);
    }
    CleanPairs(t, golden);
  }

  lemma CleanPairs<T>(t: seq<Mark<T>>, golden: (int, T) -> bool)
    requires Alternates(t)
    ensures (forall j :: 0 <= j < |t| ==> Clean(t, j, golden)) <==>
              && (forall i: nat, j: nat :: Mates(t, i, j) ==> t[i].owners == t[j].owners)
              && (forall j :: 0 <= j < |t| && !Marks(t[j]) ==> golden(t[j].kind, t[j].owners))
  {
    if forall j :: 0 <= j < |t| ==> Clean(t, j, golden) {
      forall i: nat, j: nat | Mates(t, i, j)
        ensures t[i].owners == t[j].owners
      {
        assert Clean(t, j, golden);
        MateIsLast(t, i, j);
      }
      forall j | 0 <= j < |t| && !Marks(t[j])
        ensures golden(t[j].kind, t[j].owners)
      {
        assert Clean(t, j, golden);
      }
    }
    if && (forall i: nat, j: nat :: Mates(t, i, j) ==> t[i].owners == t[j].owners)
       && (forall j :: 0 <= j < |t| && !Marks(t[j]) ==> golden(t[j].kind, t[j].owners))
    {
      forall j: nat | j < |t|
        ensures Clean(t, j, golden)
      {
        if t[j].kind == 11 {
          AfterHasMate(t, j);
          var i: nat :| Mates(t, i, j);
          MateIsLast(t, i, j);
        }
      }
    }
  }
}
