/** Cutting a message into parts of at most `unit` bytes, and joining the parts again. */
module Fragments {
  import opened Common

  /** Bytes before part `i`. */
  function Start(size: nat, unit: nat, i: nat): (at: nat)
    ensures at <= size
  {
    if i * unit <= size then i * unit else size
  }

  function Part(message: seq<byte>, unit: nat, i: nat): seq<byte> {
    StartMonotone(|message|, unit, i);
    message[Start(|message|, unit, i)..Start(|message|, unit, i + 1)]
  }

  function Count(size: nat, unit: nat): nat
    requires unit > 0
  {
    (size + unit - 1) / unit
  }

  lemma StartMonotone(size: nat, unit: nat, i: nat)
    ensures Start(size, unit, i) <= Start(size, unit, i + 1) <= Start(size, unit, i) + unit
  {
    assert (i + 1) * unit == i * unit + unit;
  }

  lemma StartZero(size: nat, unit: nat)
    ensures Start(size, unit, 0) == 0
  {
  }

  /** The first `n` parts in order. */
  function JoinParts(message: seq<byte>, unit: nat, n: nat): seq<byte> {
    if n == 0 then [] else JoinParts(message, unit, n - 1) + Part(message, unit, n - 1)
  }

  lemma {:induction false} JoinIsPrefix(message: seq<byte>, unit: nat, n: nat)
    ensures JoinParts(message, unit, n) == message[..Start(|message|, unit, n)]
  {
    if n > 0 {
      JoinIsPrefix(message, unit, n - 1);
      StartMonotone(|message|, unit, n - 1);
    } else {
      StartZero(|message|, unit);
    }
  }

  lemma CountCovers(size: nat, unit: nat)
    requires unit > 0
    ensures Count(size, unit) * unit >= size
    ensures Start(size, unit, Count(size, unit)) == size
  {
    var q := Count(size, unit);
    assert size + unit - 1 == unit * q + (size + unit - 1) % unit;
  }

  /** Joining all the parts gives the message back. */
  lemma SplitJoin(message: seq<byte>, unit: nat)
    requires unit > 0
    ensures JoinParts(message, unit, Count(|message|, unit)) == message
  {
    JoinIsPrefix(message, unit, Count(|message|, unit));
    CountCovers(|message|, unit);
  }
}
