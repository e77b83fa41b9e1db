/** Sequences: contents stored into others, and facts that every component needs. */
module Sequences {
  import opened Machine

  /** Facts under a quantifier that this triggers are used only by proofs that ask for them. */
  predicate Asked(n: nat) {
    true
  }

  function Zeros(n: nat): (z: seq<byte>)
    ensures |z| == n && forall i :: 0 <= i < n ==> z[i] == 0
  {
    seq<byte>(n, _ => 0)
  }

  /** The contents `was` with `bytes` stored from `at` on. */
  function Patched(was: seq<byte>, at: nat, bytes: seq<byte>): (r: seq<byte>)
    requires at + |bytes| <= |was|
    ensures |r| == |was|
  {
    was[..at] + bytes + was[at + |bytes|..]
  }

  lemma PatchedTwice(was: seq<byte>, at: nat, a: seq<byte>, b: seq<byte>)
    requires at + |a| + |b| <= |was|
    ensures Patched(Patched(was, at, a), at + |a|, b) == Patched(was, at, a + b)
  {
  }

  lemma Assoc<T>(a: seq<T>, b: seq<T>, c: seq<T>)
    ensures (a + b) + c == a + (b + c)
  {
  }

  /** A part of a part. */
  lemma PartOfPart<T>(s: seq<T>, from: nat, len: nat, at: nat, n: nat)
    requires from + len <= |s| && at + n <= len
    ensures s[from..from + len][at..at + n] == s[from + at..from + at + n]
  {
    var part := s[from..from + len];
    var a, b := part[at..at + n], s[from + at..from + at + n];
    forall k {:trigger a[k]} | 0 <= k < n ensures a[k] == b[k] {
      assert part[at + k] == s[from + (at + k)];
    }
  }

  ghost predicate Distinct<T>(s: seq<T>) {
    forall i, j :: 0 <= i < j < |s| ==> s[i] != s[j]
  }
}
