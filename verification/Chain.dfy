/** Items coded one after the other, and read back one after the other. */
module Chain {
  import opened Sequences

  function Concat<T>(code: T -> seq<bool>, items: seq<T>): seq<bool> {
    if items == [] then [] else code(items[0]) + Concat(code, items[1..])
  }

  /** The items are read one after the other through the places `ps`. */
  ghost predicate Chained<P, T>(reads1: (P, T, P) -> bool, items: seq<T>, ps: seq<P>) {
    && |ps| == |items| + 1
    && forall k {:trigger items[k]} :: 0 <= k < |items| ==> reads1(ps[k], items[k], ps[k + 1])
  }

  /** `q` is the place reached from `p` by reading `it`, with `tail` before it. */
  ghost predicate Reached<P, T>(reads1: (P, T, P) -> bool, ahead: (P, seq<bool>) -> bool, p: P, it: T, q: P, tail: seq<bool>) {
    reads1(p, it, q) && ahead(q, tail)
  }

  /** Wherever the code of an item and more bits lie ahead, the item is read and those bits remain. */
  ghost predicate Readable<P(!new), T(!new)>(code: T -> seq<bool>, reads1: (P, T, P) -> bool,
                                             ahead: (P, seq<bool>) -> bool, items: seq<T>) {
    forall p, k, tail | 0 <= k < |items| && ahead(p, code(items[k]) + tail) ::
      exists q :: Reached(reads1, ahead, p, items[k], q, tail)
  }

  lemma ReadableTail<P(!new), T(!new)>(code: T -> seq<bool>, reads1: (P, T, P) -> bool,
                                       ahead: (P, seq<bool>) -> bool, items: seq<T>)
    requires items != [] && Readable(code, reads1, ahead, items)
    ensures Readable(code, reads1, ahead, items[1..])
  {
    forall p, k, tail | 0 <= k < |items[1..]| && ahead(p, code(items[1..][k]) + tail)
      ensures exists q :: Reached(reads1, ahead, p, items[1..][k], q, tail)
    {
      assert items[1..][k] == items[k + 1];
    }
  }

  lemma ChainedCons<P, T>(reads1: (P, T, P) -> bool, p: P, items: seq<T>, qs: seq<P>)
    requires items != [] && Chained(reads1, items[1..], qs) && reads1(p, items[0], qs[0])
    ensures Chained(reads1, items, [p] + qs)
  {
    var ps := [p] + qs;
    forall k {:trigger items[k]} | 0 <= k < |items| ensures reads1(ps[k], items[k], ps[k + 1]) {
      if k > 0 { assert items[k] == items[1..][k - 1]; }
    }
  }

  /** If every item can be read wherever its code lies ahead, the whole sequence can. */
  lemma {:induction false} ChainRoundTrip<P(!new), T(!new)>(code: T -> seq<bool>, reads1: (P, T, P) -> bool,
      ahead: (P, seq<bool>) -> bool, items: seq<T>, p: P, rest: seq<bool>) returns (ps: seq<P>)
    requires Readable(code, reads1, ahead, items) && ahead(p, Concat(code, items) + rest)
    ensures Chained(reads1, items, ps) && ps[0] == p && ahead(ps[|items|], rest)
    decreases |items|
  {
    if items == [] {
      assert Concat(code, items) + rest == rest;
      ps := [p];
    } else {
      var tail := Concat(code, items[1..]) + rest;
      Assoc(code(items[0]), Concat(code, items[1..]), rest);
      assert ahead(p, code(items[0]) + tail);
      var q :| Reached(reads1, ahead, p, items[0], q, tail);
      ReadableTail(code, reads1, ahead, items);
      var qs := ChainRoundTrip(code, reads1, ahead, items[1..], q, rest);
      ps := [p] + qs;
      ChainedCons(reads1, p, items, qs);
    }
  }

  ghost predicate Closer<X>(going: X -> bool, left: X -> nat, x: X, y: X) {
    going(y) && left(y) < left(x)
  }

  /** What can always go on while something is left comes to where nothing is left. */
  lemma {:induction false} Follow<X(!new)>(going: X -> bool, left: X -> nat, x: X) returns (y: X)
    requires going(x) && forall z | going(z) && left(z) > 0 :: exists t :: Closer(going, left, z, t)
    ensures going(y) && left(y) == 0
    decreases left(x)
  {
    y := x;
    if left(x) > 0 {
      var t :| Closer(going, left, x, t);
      y := Follow(going, left, t);
    }
  }
}
