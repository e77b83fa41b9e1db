/** Registers fed bit by bit, whatever they are made of. */
module BitFold {
  /** The state after the bits, one at a time. */
  function Fold<S>(next: (S, bool) -> S, c: S, bits: seq<bool>): S
    decreases |bits|
  {
    if bits == [] then c else Fold(next, next(c, bits[0]), bits[1..])
  }

  lemma {:induction false} FoldAppend<S>(next: (S, bool) -> S, c: S, a: seq<bool>, b: seq<bool>)
    ensures Fold(next, c, a + b) == Fold(next, Fold(next, c, a), b)
    decreases |a|
  {
    if a == [] {
      assert a + b == b;
    } else {
      assert (a + b)[1..] == a[1..] + b;
      FoldAppend(next, next(c, a[0]), a[1..], b);
    }
  }

  ghost predicate Injective<S(!new)>(next: (S, bool) -> S) {
    forall x, y, b :: x != y ==> next(x, b) != next(y, b)
  }

  lemma {:induction false} FoldInjective<S(!new)>(next: (S, bool) -> S, c: S, d: S, bits: seq<bool>)
    requires Injective(next) && c != d
    ensures Fold(next, c, bits) != Fold(next, d, bits)
    decreases |bits|
  {
    if bits != [] {
      var b := bits[0];
      assert next(c, b) != next(d, b);
      FoldInjective(next, next(c, b), next(d, b), bits[1..]);
    }
  }

  function Repeat<S>(step: S -> S, c: S, n: nat): S
    decreases n
  {
    if n == 0 then c else Repeat(step, step(c), n - 1)
  }

  lemma {:induction false} RepeatInjective<S(!new)>(step: S -> S, c: S, d: S, n: nat)
    requires (forall x, y :: x != y ==> step(x) != step(y)) && c != d
    ensures Repeat(step, c, n) != Repeat(step, d, n)
    decreases n
  {
    if n > 0 { RepeatInjective(step, step(c), step(d), n - 1); }
  }

  /** The bits put into one register, the first one last. */
  function Gather<S>(put: (bool, S) -> S, zero: S, bits: seq<bool>): S
    decreases |bits|
  {
    if bits == [] then zero else put(bits[0], Gather(put, zero, bits[1..]))
  }

  /** What a register that can hold 32 bits has to do: `room` says that it holds at most `n` bits. */
  ghost predicate Holds32<S(!new)>(put: (bool, S) -> S, zero: S, room: (nat, S) -> bool) {
    && room(0, zero)
    && (forall n: nat, p, b :: n < 32 && room(n, p) ==> room(n + 1, put(b, p)))
    && (forall n: nat, p, q, a, b :: n < 32 && room(n, p) && room(n, q) && put(a, p) == put(b, q) ==> a == b && p == q)
  }

  lemma {:induction false} GatherFits<S(!new)>(put: (bool, S) -> S, zero: S, room: (nat, S) -> bool, bits: seq<bool>)
    requires Holds32(put, zero, room) && |bits| <= 32
    ensures room(|bits|, Gather(put, zero, bits))
    decreases |bits|
  {
    if bits != [] {
      var n, p, b := |bits| - 1, Gather(put, zero, bits[1..]), bits[0];
      GatherFits(put, zero, room, bits[1..]);
      assert room(n, p) && room(n + 1, put(b, p));
    }
  }

  lemma {:induction false} GatherInjective<S(!new)>(put: (bool, S) -> S, zero: S, room: (nat, S) -> bool, a: seq<bool>, b: seq<bool>)
    requires Holds32(put, zero, room) && |a| == |b| <= 32
    requires Gather(put, zero, a) == Gather(put, zero, b)
    ensures a == b
    decreases |a|
  {
    if a != [] {
      GatherFits(put, zero, room, a[1..]);
      GatherFits(put, zero, room, b[1..]);
      var n, p, q, x, y := |a| - 1, Gather(put, zero, a[1..]), Gather(put, zero, b[1..]), a[0], b[0];
      assert room(n, p) && room(n, q) && put(x, p) == put(y, q);
      GatherInjective(put, zero, room, a[1..], b[1..]);
      assert a == [a[0]] + a[1..] && b == [b[0]] + b[1..];
    }
  }

  /** The state after a bit: the bit is mixed into the lowest place, then comes a step. */
  function Feed<S>(step: S -> S, mix: (S, S) -> S, unit: bool -> S, c: S, b: bool): S {
    step(mix(c, unit(b)))
  }

  /** One more bit below those of a register. */
  function PutBelow<S>(mix: (S, S) -> S, shift: S -> S, unit: bool -> S, b: bool, p: S): S {
    mix(shift(p), unit(b))
  }

  /** A step moves every place but the lowest one down, and mixing is exclusive or. */
  ghost predicate Linear<S(!new)>(step: S -> S, mix: (S, S) -> S, shift: S -> S, unit: bool -> S, zero: S, room: (nat, S) -> bool) {
    && (forall c :: mix(c, zero) == c)
    && (forall n: nat, x, p :: n < 32 && room(n, p) ==> step(mix(x, shift(p))) == mix(step(x), p))
    && (forall c, s, u :: mix(mix(c, u), s) == mix(c, mix(s, u)))
  }

  /** The functions that feed a bit and that put one into a register. */
  ghost predicate Feeds<S(!new)>(next: (S, bool) -> S, put: (bool, S) -> S, step: S -> S, mix: (S, S) -> S, shift: S -> S, unit: bool -> S) {
    && (forall c, b :: next(c, b) == Feed(step, mix, unit, c, b))
    && (forall b, p :: put(b, p) == PutBelow(mix, shift, unit, b, p))
  }

  /** Bits fed one at a time act as a full register mixed into the state before the first step. */
  lemma {:induction false} FoldAtOnce<S(!new)>(next: (S, bool) -> S, put: (bool, S) -> S, step: S -> S, mix: (S, S) -> S,
      shift: S -> S, unit: bool -> S, zero: S, room: (nat, S) -> bool, c: S, bits: seq<bool>)
    requires Holds32(put, zero, room) && Linear(step, mix, shift, unit, zero, room)
    requires Feeds(next, put, step, mix, shift, unit) && |bits| <= 32
    ensures Fold(next, c, bits) == Repeat(step, mix(c, Gather(put, zero, bits)), |bits|)
    decreases |bits|
  {
    if bits != [] {
      var n, p, b := |bits| - 1, Gather(put, zero, bits[1..]), bits[0];
      GatherFits(put, zero, room, bits[1..]);
      FoldAtOnce(next, put, step, mix, shift, unit, zero, room, next(c, b), bits[1..]);
      assert room(n, p) && next(c, b) == Feed(step, mix, unit, c, b) && put(b, p) == PutBelow(mix, shift, unit, b, p);
      assert step(mix(mix(c, unit(b)), shift(p))) == mix(next(c, b), p);
      assert mix(mix(c, unit(b)), shift(p)) == mix(c, put(b, p));
    }
  }
}
