/** Canonical Huffman tables: the codes of section C.2 of ITU-T T.81, the Kraft sum that
    decides whether they are usable, and the search by code length. */
module Huffman {
  import opened BitStream
  import opened Machine

  const MAX_LEN: nat := 16

  /** The number of 16-bit words. */
  const SPACE: nat := 0x1_0000

  /** A table as the decoder stores it: the number of codes of each length, the code words
      and the symbol of each code word. */
  datatype Table = Table(bits: seq<nat>, code: seq<nat>, data: seq<nat>)

  /** The length of each code in order (HUFFSIZE, Figure C.1 of ITU-T T.81). */
  function Sizes(bits: seq<nat>): (sizes: seq<nat>)
    ensures forall j :: 0 <= j < |sizes| ==> 1 <= sizes[j] <= |bits|
    ensures forall i, j :: 0 <= i < j < |sizes| ==> sizes[i] <= sizes[j]
  {
    if bits == [] then [] else
    Sizes(bits[..|bits| - 1]) + seq(bits[|bits| - 1], _ => |bits|)
  }

  ghost predicate Ordered(sizes: seq<nat>) {
    && (forall j :: 0 <= j < |sizes| ==> 1 <= sizes[j] <= MAX_LEN)
    && (forall i, j :: 0 <= i < j < |sizes| ==> sizes[i] <= sizes[j])
  }

  /** The code of index `j` (HUFFCODE, Figure C.2 of ITU-T T.81), on unbounded integers. */
  function CodeOf(sizes: seq<nat>, j: nat): nat
    requires Ordered(sizes) && j < |sizes|
  {
    if j == 0 then 0
    else Shl(CodeOf(sizes, j - 1) + 1, sizes[j] - sizes[j - 1])
  }

  /** The share of the 16-bit code space used by the given lengths, in units of 2^-16. */
  function Kraft(sizes: seq<nat>): nat
    requires forall j :: 0 <= j < |sizes| ==> sizes[j] <= MAX_LEN
  {
    if sizes == [] then 0
    else Kraft(sizes[..|sizes| - 1]) + Pow2(MAX_LEN - sizes[|sizes| - 1])
  }

  lemma {:induction false} KraftMonotone(sizes: seq<nat>, i: nat, j: nat)
    requires Ordered(sizes) && i <= j <= |sizes|
    ensures Kraft(sizes[..i]) <= Kraft(sizes[..j])
  {
    if i < j {
      assert sizes[..j][..j - 1] == sizes[..j - 1];
      KraftMonotone(sizes, i, j - 1);
    }
  }

  lemma KraftStep(sizes: seq<nat>, j: nat)
    requires Ordered(sizes) && j < |sizes|
    ensures Kraft(sizes[..j + 1]) == Kraft(sizes[..j]) + Pow2(MAX_LEN - sizes[j])
  {
    assert sizes[..j + 1][..j] == sizes[..j];
  }

  /** Aligned to 16 bits, a code is the share of the code space used by the codes before it. */
  lemma {:induction false} CodeIsKraft(sizes: seq<nat>, j: nat)
    requires Ordered(sizes) && j < |sizes|
    ensures Shl(CodeOf(sizes, j), MAX_LEN - sizes[j]) == Kraft(sizes[..j])
  {
    var n := MAX_LEN - sizes[j];
    if j == 0 {
      assert sizes[..0] == [];
      ShlAdd(0, 0, n);
    } else {
      CodeIsKraft(sizes, j - 1);
      KraftStep(sizes, j - 1);
      var c := CodeOf(sizes, j - 1);
      ShlShl(c + 1, sizes[j] - sizes[j - 1], n);
      ShlAdd(c, 1, MAX_LEN - sizes[j - 1]);
      ShlOne(MAX_LEN - sizes[j - 1]);
    }
  }

  /** The code word of index `j`, as stored in a 16-bit cell. */
  function Stored(sizes: seq<nat>, j: nat): nat
    requires Ordered(sizes) && j < |sizes|
  {
    U16(CodeOf(sizes, j))
  }

  function Word(sizes: seq<nat>, j: nat): seq<bool>
    requires Ordered(sizes) && j < |sizes|
  {
    BitsOf(Stored(sizes, j), sizes[j])
  }

  ghost predicate CodesFit(sizes: seq<nat>)
    requires Ordered(sizes)
  {
    forall j :: 0 <= j < |sizes| ==> Stored(sizes, j) < Pow2(sizes[j])
  }

  ghost predicate PrefixFree(sizes: seq<nat>)
    requires Ordered(sizes)
  {
    forall i, j :: 0 <= i < |sizes| && 0 <= j < |sizes| && i != j ==> !(Word(sizes, i) <= Word(sizes, j))
  }

  /** The codes are in strict order: a later one, aligned to 16 bits, begins past all words that begin
      with an earlier one. */
  lemma CodesIncrease(sizes: seq<nat>, i: nat, j: nat)
    requires Ordered(sizes) && i < j < |sizes|
    ensures Shl(CodeOf(sizes, i), MAX_LEN - sizes[i]) + Pow2(MAX_LEN - sizes[i]) <= Shl(CodeOf(sizes, j), MAX_LEN - sizes[j])
    ensures sizes[i] == sizes[j] ==> CodeOf(sizes, i) < CodeOf(sizes, j)
  {
    CodeIsKraft(sizes, i);
    CodeIsKraft(sizes, j);
    KraftStep(sizes, i);
    KraftMonotone(sizes, i + 1, j);
    if sizes[i] == sizes[j] && CodeOf(sizes, j) <= CodeOf(sizes, i) {
      ShlOrder(CodeOf(sizes, j), CodeOf(sizes, i), MAX_LEN - sizes[i]);
    }
  }

  lemma FitsUnderKraft(sizes: seq<nat>, j: nat)
    requires Ordered(sizes) && j < |sizes|
    requires Kraft(sizes) <= SPACE
    ensures CodeOf(sizes, j) < Pow2(sizes[j])
    ensures Stored(sizes, j) == CodeOf(sizes, j)
  {
    CodeIsKraft(sizes, j);
    KraftRoom(sizes, j);
    RoomBoundsCode(CodeOf(sizes, j), sizes[j]);
  }

  lemma KraftRoom(sizes: seq<nat>, j: nat)
    requires Ordered(sizes) && j < |sizes|
    requires Kraft(sizes) <= SPACE
    ensures Kraft(sizes[..j]) + Pow2(MAX_LEN - sizes[j]) <= SPACE
  {
    KraftStep(sizes, j);
    KraftMonotone(sizes, j + 1, |sizes|);
    assert sizes[..|sizes|] == sizes;
  }

  lemma RoomBoundsCode(c: nat, n: nat)
    requires n <= MAX_LEN
    requires Shl(c, MAX_LEN - n) + Pow2(MAX_LEN - n) <= SPACE
    ensures c < Pow2(n) <= SPACE
  {
    FullLength(n);
    ShlOrder(Pow2(n), c, MAX_LEN - n);
    SpaceIsPow2();
    if n < MAX_LEN { Pow2Less(n, MAX_LEN); }
  }

  lemma SpaceIsPow2()
    ensures Pow2(MAX_LEN) == SPACE
  {
    assert Pow2(4) == 16 && Pow2(8) == 256 && Pow2(12) == 4096;
  }

  lemma FullLength(n: nat)
    requires n <= MAX_LEN
    ensures Shl(Pow2(n), MAX_LEN - n) == SPACE
  {
    ShlOne(n);
    ShlShl(1, n, MAX_LEN - n);
    ShlOne(MAX_LEN);
    SpaceIsPow2();
  }

  /** A word that begins another one occupies the part of the code space where the other lies. */
  lemma PrefixInterval(sizes: seq<nat>, i: nat, j: nat)
    requires Ordered(sizes) && i < |sizes| && j < |sizes|
    requires Kraft(sizes) <= SPACE
    requires Word(sizes, i) <= Word(sizes, j)
    ensures sizes[i] <= sizes[j]
    ensures Kraft(sizes[..i]) <= Kraft(sizes[..j]) < Kraft(sizes[..i + 1])
  {
    var rest := WordPrefixRest(sizes, i, j);
    ShiftedInterval(CodeOf(sizes, i), CodeOf(sizes, j), rest, sizes[i], sizes[j]);
    KraftSpan(sizes, i);
    KraftSpan(sizes, j);
  }

  /** The part of the code space that belongs to a code. */
  lemma KraftSpan(sizes: seq<nat>, j: nat)
    requires Ordered(sizes) && j < |sizes|
    ensures Kraft(sizes[..j]) == Shl(CodeOf(sizes, j), MAX_LEN - sizes[j])
    ensures Kraft(sizes[..j + 1]) == Shl(CodeOf(sizes, j), MAX_LEN - sizes[j]) + Pow2(MAX_LEN - sizes[j])
  {
    CodeIsKraft(sizes, j);
    KraftStep(sizes, j);
  }

  lemma WordPrefixRest(sizes: seq<nat>, i: nat, j: nat) returns (rest: nat)
    requires Ordered(sizes) && i < |sizes| && j < |sizes|
    requires Kraft(sizes) <= SPACE
    requires Word(sizes, i) <= Word(sizes, j)
    ensures sizes[i] <= sizes[j]
    ensures CodeOf(sizes, j) == Shl(CodeOf(sizes, i), sizes[j] - sizes[i]) + rest
    ensures rest < Pow2(sizes[j] - sizes[i])
  {
    WordValue(sizes, i);
    WordValue(sizes, j);
    rest := ValueOfPrefix(Word(sizes, i), Word(sizes, j));
  }

  lemma ShiftedInterval(ci: nat, cj: nat, rest: nat, si: nat, sj: nat)
    requires si <= sj <= MAX_LEN
    requires cj == Shl(ci, sj - si) + rest && rest < Pow2(sj - si)
    ensures Shl(ci, MAX_LEN - si) <= Shl(cj, MAX_LEN - sj) < Shl(ci, MAX_LEN - si) + Pow2(MAX_LEN - si)
  {
    PrefixShift(ci, rest, sj - si, MAX_LEN - sj);
  }

  lemma WordValue(sizes: seq<nat>, j: nat)
    requires Ordered(sizes) && j < |sizes|
    requires Kraft(sizes) <= SPACE
    ensures |Word(sizes, j)| == sizes[j]
    ensures Value(Word(sizes, j)) == CodeOf(sizes, j)
  {
    FitsUnderKraft(sizes, j);
    ValueOfBits(CodeOf(sizes, j), sizes[j]);
  }

  lemma ValueOfPrefix(w: seq<bool>, bits: seq<bool>) returns (rest: nat)
    requires w <= bits
    ensures Value(bits) == Shl(Value(w), |bits| - |w|) + rest
    ensures rest < Pow2(|bits| - |w|)
  {
    var tail := bits[|w|..];
    assert bits == w + tail;
    ValueConcat(w, tail);
    ValueBound(tail);
    rest := Value(tail);
  }

  lemma PrefixShift(c: nat, rest: nat, d: nat, n: nat)
    requires rest < Pow2(d)
    ensures Shl(c, d + n) <= Shl(Shl(c, d) + rest, n) < Shl(c, d + n) + Pow2(d + n)
  {
    ShlAdd(Shl(c, d), rest, n);
    ShlShl(c, d, n);
    ShlOne(d);
    ShlShl(1, d, n);
    ShlOne(d + n);
    ShlOrder(rest, Pow2(d), n);
  }

  lemma PrefixFreeUnderKraft(sizes: seq<nat>)
    requires Ordered(sizes)
    requires Kraft(sizes) <= SPACE
    ensures PrefixFree(sizes)
  {
    forall i, j | 0 <= i < |sizes| && 0 <= j < |sizes| && i != j
      ensures !(Word(sizes, i) <= Word(sizes, j))
    {
      if Word(sizes, i) <= Word(sizes, j) {
        PrefixInterval(sizes, i, j);
        if i < j {
          KraftMonotone(sizes, i + 1, j);
        } else {
          KraftStep(sizes, j);
          KraftMonotone(sizes, j + 1, i);
        }
      }
    }
  }

  /** The words are usable exactly when the lengths satisfy the Kraft inequality. */
  lemma UsableIffKraft(sizes: seq<nat>)
    requires Ordered(sizes)
    ensures CodesFit(sizes) && PrefixFree(sizes) <==> Kraft(sizes) <= SPACE
  {
    if Kraft(sizes) <= SPACE {
      forall j | 0 <= j < |sizes| ensures Stored(sizes, j) < Pow2(sizes[j]) {
        FitsUnderKraft(sizes, j);
      }
      PrefixFreeUnderKraft(sizes);
    } else {
      assert sizes[..|sizes|] == sizes;
      var j := FirstOverflow(sizes, |sizes|);
      OverflowBreaks(sizes, j);
    }
  }

  lemma {:induction false} FirstOverflow(sizes: seq<nat>, n: nat) returns (j: nat)
    requires Ordered(sizes) && n <= |sizes|
    requires Kraft(sizes[..n]) > SPACE
    ensures j < n
    ensures Kraft(sizes[..j]) <= SPACE < Kraft(sizes[..j + 1])
  {
    if Kraft(sizes[..n - 1]) > SPACE {
      j := FirstOverflow(sizes, n - 1);
    } else {
      j := n - 1;
    }
  }

  lemma OverflowBreaks(sizes: seq<nat>, j: nat)
    requires Ordered(sizes) && j < |sizes|
    requires Kraft(sizes[..j]) <= SPACE < Kraft(sizes[..j + 1])
    ensures !CodesFit(sizes) || !PrefixFree(sizes)
  {
    CodeIsKraft(sizes, j);
    KraftStep(sizes, j);
    var c, s, n := CodeOf(sizes, j), Pow2(sizes[j]), MAX_LEN - sizes[j];
    FullLength(sizes[j]);
    ShlOrder(c, s, n);
    ShlOrder(s, c, n);
    assert c == s;
    if sizes[j] < MAX_LEN {
      Pow2Less(sizes[j], MAX_LEN);
      SpaceIsPow2();
      assert Stored(sizes, j) == Pow2(sizes[j]);
    } else {
      assert j > 0 by { assert sizes[..0] == []; }
      assert Stored(sizes, j) == 0 && Stored(sizes, 0) == 0;
      ZeroPrefix(sizes[0], sizes[j]);
      assert Word(sizes, 0) <= Word(sizes, j);
    }
  }

  lemma {:induction false} ZeroPrefix(m: nat, n: nat)
    requires m <= n
    ensures BitsOf(0, m) <= BitsOf(0, n)
  {
    if m < n { ZeroPrefix(m, n - 1); }
  }

  // ----- the search -----

  ghost predicate WellFormed(t: Table) {
    && |t.bits| == MAX_LEN
    && |Sizes(t.bits)| == |t.code| == |t.data|
  }

  /** The table holds the codes of section C.2 and their lengths satisfy the Kraft inequality. */
  ghost predicate Canonical(t: Table) {
    && WellFormed(t)
    && Kraft(Sizes(t.bits)) <= SPACE
    && forall j :: 0 <= j < |t.code| ==> t.code[j] == CodeOf(Sizes(t.bits), j)
  }

  predicate Matches(t: Table, k: nat, bits: seq<bool>)
    requires WellFormed(t) && k < |t.code|
  {
    var n := Sizes(t.bits)[k];
    n <= |bits| && Value(bits[..n]) == t.code[k]
  }

  /** The first index from `k` on whose code word begins `bits`; the table size if there is none. */
  function FirstMatch(t: Table, k: nat, bits: seq<bool>): (r: nat)
    requires WellFormed(t) && k <= |t.code|
    ensures k <= r <= |t.code|
    ensures forall i :: k <= i < r ==> !Matches(t, i, bits)
    ensures r < |t.code| ==> Matches(t, r, bits)
    decreases |t.code| - k
  {
    if k == |t.code| then k
    else if Matches(t, k, bits) then k
    else FirstMatch(t, k + 1, bits)
  }

  lemma MatchIsWord(t: Table, k: nat, bits: seq<bool>)
    requires Canonical(t) && k < |t.code|
    ensures Matches(t, k, bits) <==> Word(Sizes(t.bits), k) <= bits
  {
    var sizes := Sizes(t.bits);
    var n := sizes[k];
    FitsUnderKraft(sizes, k);
    ValueOfBits(t.code[k], n);
    var w := Word(sizes, k);
    assert |w| == n && Value(w) == t.code[k];
    if n <= |bits| {
      BitsOfValue(bits[..n]);
      if Value(bits[..n]) == t.code[k] { assert bits[..n] == w; }
      if w <= bits { assert bits[..n] == w; }
    }
  }

  /** In a bit string that begins with the code word of `j`, the search by length finds `j`. */
  lemma SearchFindsWord(t: Table, j: nat, bits: seq<bool>)
    requires Canonical(t) && j < |t.code|
    requires Word(Sizes(t.bits), j) <= bits
    ensures FirstMatch(t, 0, bits) == j
  {
    MatchIsWord(t, j, bits);
    var k := FirstMatch(t, 0, bits);
    if k < j {
      MatchIsWord(t, k, bits);
      TwoPrefixes(Sizes(t.bits), k, j, bits);
      PrefixFreeUnderKraft(Sizes(t.bits));
      assert false;
    }
  }

  lemma TwoPrefixes(sizes: seq<nat>, k: nat, j: nat, bits: seq<bool>)
    requires Ordered(sizes) && k <= j < |sizes|
    requires Word(sizes, k) <= bits && Word(sizes, j) <= bits
    ensures Word(sizes, k) <= Word(sizes, j)
  {
    var wk, wj := Word(sizes, k), Word(sizes, j);
    assert |wk| == sizes[k] <= sizes[j] == |wj|;
    assert wk == bits[..|wk|] == wj[..|wk|];
  }
}
