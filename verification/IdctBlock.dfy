/** The two passes of the inverse DCT together: the blocks for which neither overflows, and how far
    the result is from exact rational arithmetic. */
module IdctBlock {
  import opened Machine
  import opened Sequences
  import opened Idct

  /** The largest coefficient magnitude for which neither pass can overflow. */
  const BLOCK_LIMIT: int := 6227

  predicate Abs(x: int, m: int) {
    -m <= x <= m
  }

  lemma IdealEvenBound(v0: int, v1: int, v2: int, v3: int, m: int)
    requires Abs(v0, m) && Abs(v1, m) && Abs(v2, m) && Abs(v3, m)
    ensures var e := IdealEven(v0, v1, v2, v3);
      Abs(e.b0, 16384 * m) && Abs(e.b1, 19776 * m) && Abs(e.b2, 19776 * m) && Abs(e.b3, 16384 * m)
  {
    assert IdealEven(v0, v1, v2, v3).b1 == 4096 * v0 - 4096 * v2 + 1696 * v1 - 9888 * v3;
  }

  lemma IdealOddBound(v4: int, v5: int, v6: int, v7: int, m: int)
    requires Abs(v4, m) && Abs(v5, m) && Abs(v6, m) && Abs(v7, m)
    ensures var o := IdealOdd(v4, v5, v6, v7);
      Abs(o.b0, 16384 * m) && Abs(o.b1, 23328 * m) && Abs(o.b2, 26046 * m) && Abs(o.b3, 30272 * m)
  {
    var o := IdealOdd(v4, v5, v6, v7);
    assert o.b1 == 3472 * v5 - 11664 * v4 - 7231 * v6 - 961 * v7;
    assert o.b2 == 2320 * v5 + 17456 * v4 + 1439 * v6 - 4831 * v7;
    assert o.b3 == 815 * v5 - 20591 * v4 + 6129 * v6 - 2737 * v7;
  }

  lemma IdealBound(v: Eight, m: int, k: nat)
    requires m >= 0 && Within(v, m, m) && k < 8
    ensures Abs(Lane(Ideal(v), k), 46656 * m)
  {
    IdealEvenBound(v.a0, v.a2, v.a4, v.a6, m);
    IdealOddBound(v.a7, v.a1, v.a5, v.a3, m);
  }

  lemma CloseLane(x: Eight, ideal: Eight, k: nat)
    requires Close(x, ideal, 3) && k < 8
    ensures Near(Lane(x, k), Lane(ideal, k), 3, 3)
  {
  }

  lemma ColumnBound(v: Eight, k: nat)
    requires Within(v, BLOCK_LIMIT, BLOCK_LIMIT) && k < 8
    ensures NoOverflow(v)
    ensures Abs(Lane(Butterfly(v), k), LIMIT)
  {
    LimitIsSafe(v);
    ButterflyNear(v);
    var x, i := Butterfly(v), Ideal(v);
    CloseLane(x, i, k);
    IdealBound(v, BLOCK_LIMIT, k);
  }

  /** The coefficients of a block are of magnitude up to `b`. */
  predicate BlockWithin(m: seq<int>, b: int) {
    |m| == 64 && forall k :: 0 <= k < 64 ==> -b <= m[k] <= b
  }

  /** Neither pass over the block overflows, the level shift included. */
  predicate BlockSafe(m: seq<int>)
    requires |m| == 64
  {
    && (forall c :: 0 <= c < 8 ==> NoOverflow(Column(m, c)))
    && forall r :: 0 <= r < 8 ==> NoOverflow(Row(ColumnPass(Butterfly, m), r)) && Fits(ColumnPass(Butterfly, m)[8 * r] + SHIFT)
  }

  /** With coefficients up to the block limit, no column and no row of the block overflows. */
  lemma BlockIsSafe(m: seq<int>)
    requires BlockWithin(m, BLOCK_LIMIT)
    ensures BlockSafe(m)
  {
    forall c | 0 <= c < 8 ensures NoOverflow(Column(m, c)) {
      ColumnBound(Column(m, c), 0);
    }
    var s := ColumnPass(Butterfly, m);
    forall k | 0 <= k < 64 ensures Abs(s[k], LIMIT) {
      ColumnBound(Column(m, k % 8), k / 8);
    }
    forall r | 0 <= r < 8 ensures NoOverflow(Row(s, r)) && Fits(s[8 * r] + SHIFT) {
      LimitIsSafe(Row(s, r));
    }
  }

  /** One more than the limit. */
  const OVER: int := 6228

  /** The column that grows most in its fourth value. */
  const WORST: Eight := Eight(OVER, OVER, -OVER, -OVER, OVER, OVER, -OVER, -OVER)

  const BEST: Eight := Eight(-OVER, -OVER, OVER, OVER, -OVER, -OVER, OVER, OVER)

  const NULL: Eight := Eight(0, 0, 0, 0, 0, 0, 0, 0)

  /** That column in places 1 and 5, and negated in places 3 and 7. */
  function WorstAt(c: nat): Eight {
    if c == 1 || c == 5 then WORST else if c == 3 || c == 7 then BEST else NULL
  }

  function WorstBlock(): (m: seq<int>)
    ensures |m| == 64
  {
    seq(64, k requires 0 <= k < 64 => Lane(WorstAt(k % 8), k / 8))
  }

  lemma Place8(r: nat, c: nat)
    requires c < 8
    ensures (8 * r + c) / 8 == r && (8 * r + c) % 8 == c
  {
  }

  lemma WorstColumnAt(c: nat)
    requires c < 8
    ensures Column(WorstBlock(), c) == WorstAt(c)
  {
    forall r: nat | r < 8 ensures WorstBlock()[8 * r + c] == Lane(WorstAt(c), r) {
      Place8(r, c);
    }
  }

  lemma PassAt(f: Eight -> Eight, m: seq<int>, r: nat, c: nat)
    requires |m| == 64 && r < 8 && c < 8
    ensures ColumnPass(f, m)[8 * r + c] == Lane(f(Column(m, c)), r)
  {
    Place8(r, c);
  }

  lemma WorstColumn()
    ensures Lane(Butterfly(WORST), 3) == 70941
  {
    assert Even(OVER, -OVER, OVER, -OVER) == Four(0, 12456, -12456, 24912);
    assert Odd(-OVER, OVER, OVER, -OVER) == Four(0, 13481, -13481, 46029);
  }

  lemma BestColumn()
    ensures Lane(Butterfly(BEST), 3) == -70941
  {
    assert Even(-OVER, OVER, -OVER, OVER) == Four(0, -12456, 12456, -24912);
    assert Odd(OVER, -OVER, -OVER, OVER) == Four(0, -13481, 13481, -46029);
  }

  lemma NullColumn()
    ensures Lane(Butterfly(NULL), 3) == 0
  {
    assert Even(0, 0, 0, 0) == Odd(0, 0, 0, 0) == Four(0, 0, 0, 0);
  }

  lemma FourthAt(f: Eight -> Eight, c: nat)
    requires c < 8
    ensures ColumnPass(f, WorstBlock())[24 + c] == Lane(f(WorstAt(c)), 3)
  {
    PassAt(f, WorstBlock(), 3, c);
    WorstColumnAt(c);
  }

  /** The fourth row of the block after the column pass, for any transform of columns. */
  lemma FourthRow(f: Eight -> Eight, a: int)
    requires Lane(f(WORST), 3) == a && Lane(f(BEST), 3) == -a && Lane(f(NULL), 3) == 0
    ensures Row(ColumnPass(f, WorstBlock()), 3) == Eight(SHIFT, a, 0, -a, 0, a, 0, -a)
  {
    FourthAt(f, 0);
    FourthAt(f, 1);
    FourthAt(f, 2);
    FourthAt(f, 3);
    FourthAt(f, 4);
    FourthAt(f, 5);
    FourthAt(f, 6);
    FourthAt(f, 7);
  }

  /** The block limit is exact. */
  lemma SafeBlockBound(b: int)
    requires b >= 0
    ensures (forall m: seq<int> :: BlockWithin(m, b) ==> BlockSafe(m)) <==> b <= BLOCK_LIMIT
  {
    if b <= BLOCK_LIMIT {
      forall m: seq<int> | BlockWithin(m, b) ensures BlockSafe(m) {
        BlockIsSafe(m);
      }
    } else {
      WorstColumn();
      BestColumn();
      NullColumn();
      FourthRow(Butterfly, 70941);
      var m := WorstBlock();
      assert BlockWithin(m, b);
      assert !Fits((70941 + 70941 + (70941 + 70941)) * M5);
      assert !NoOverflow(Row(ColumnPass(Butterfly, m), 3));
    }
  }

  // ----- distance from the exact transform -----

  /** A row between the passes in exact rational arithmetic, scaled by 4096, with the level shift. */
  function ExactRow(m: seq<int>, r: nat): Eight
    requires |m| == 64 && r < 8
  {
    var e := ColumnPass(Ideal, m);
    Eight(e[8 * r] + 4096 * SHIFT, e[8 * r + 1], e[8 * r + 2], e[8 * r + 3],
          e[8 * r + 4], e[8 * r + 5], e[8 * r + 6], e[8 * r + 7])
  }

  /** How far a value is from one scaled by 4096, lane by lane. */
  function Apart(a: Eight, x: Eight): Eight {
    Eight(4096 * a.a0 - x.a0, 4096 * a.a1 - x.a1, 4096 * a.a2 - x.a2, 4096 * a.a3 - x.a3,
          4096 * a.a4 - x.a4, 4096 * a.a5 - x.a5, 4096 * a.a6 - x.a6, 4096 * a.a7 - x.a7)
  }

  lemma EvenApart(v0: int, v1: int, v2: int, v3: int, x0: int, x1: int, x2: int, x3: int)
    ensures var (d, e, i) := (IdealEven(4096 * v0 - x0, 4096 * v1 - x1, 4096 * v2 - x2, 4096 * v3 - x3),
                              IdealEven(v0, v1, v2, v3), IdealEven(x0, x1, x2, x3));
      d == Four(4096 * e.b0 - i.b0, 4096 * e.b1 - i.b1, 4096 * e.b2 - i.b2, 4096 * e.b3 - i.b3)
  {
  }

  lemma OddApart(v4: int, v5: int, v6: int, v7: int, x4: int, x5: int, x6: int, x7: int)
    ensures var (d, o, i) := (IdealOdd(4096 * v4 - x4, 4096 * v5 - x5, 4096 * v6 - x6, 4096 * v7 - x7),
                              IdealOdd(v4, v5, v6, v7), IdealOdd(x4, x5, x6, x7));
      d == Four(4096 * o.b0 - i.b0, 4096 * o.b1 - i.b1, 4096 * o.b2 - i.b2, 4096 * o.b3 - i.b3)
  {
  }

  /** The exact butterfly is linear. */
  lemma IdealApart(a: Eight, x: Eight)
    ensures Ideal(Apart(a, x)) == Apart(Ideal(a), Ideal(x))
  {
    EvenApart(a.a0, a.a2, a.a4, a.a6, x.a0, x.a2, x.a4, x.a6);
    OddApart(a.a7, a.a1, a.a5, a.a3, x.a7, x.a1, x.a5, x.a3);
  }

  /** Column passes by `f` and by the exact `g`, which is scaled, differ by less than 3 at this place. */
  predicate NearAt(f: Eight -> Eight, g: Eight -> Eight, m: seq<int>, r: nat, c: nat)
    requires |m| == 64 && r < 8 && c < 8
  {
    -3 * 4096 < 4096 * ColumnPass(f, m)[8 * r + c] - ColumnPass(g, m)[8 * r + c] < 3 * 4096
  }

  /** Between the passes every value is within 3 of the exact one. */
  lemma BetweenNear(m: seq<int>, r: nat, c: nat)
    requires |m| == 64 && BlockSafe(m) && r < 8 && c < 8
    ensures NearAt(Butterfly, Ideal, m, r, c)
  {
    PassAt(Butterfly, m, r, c);
    PassAt(Ideal, m, r, c);
    ButterflyNear(Column(m, c));
    CloseLane(Butterfly(Column(m, c)), Ideal(Column(m, c)), r);
  }

  lemma RowApart(f: Eight -> Eight, g: Eight -> Eight, m: seq<int>, r: nat)
    requires |m| == 64 && r < 8 && g == Ideal && Fits(ColumnPass(f, m)[8 * r] + SHIFT)
    requires forall c: nat :: c < 8 ==> NearAt(f, g, m, r, c)
    ensures Within(Apart(Row(ColumnPass(f, m), r), ExactRow(m, r)), 3 * 4096, 3 * 4096)
  {
    RowsApart(f, g, m, r);
    assert NearAt(f, g, m, r, 0) && NearAt(f, g, m, r, 1) && NearAt(f, g, m, r, 2) && NearAt(f, g, m, r, 3);
    assert NearAt(f, g, m, r, 4) && NearAt(f, g, m, r, 5) && NearAt(f, g, m, r, 6) && NearAt(f, g, m, r, 7);
  }

  lemma RowsApart(f: Eight -> Eight, g: Eight -> Eight, m: seq<int>, r: nat)
    requires |m| == 64 && r < 8 && g == Ideal && Fits(ColumnPass(f, m)[8 * r] + SHIFT)
    ensures var (s, e, d) := (ColumnPass(f, m), ColumnPass(g, m), Apart(Row(ColumnPass(f, m), r), ExactRow(m, r)));
      && d.a0 == 4096 * s[8 * r] - e[8 * r] && d.a1 == 4096 * s[8 * r + 1] - e[8 * r + 1]
      && d.a2 == 4096 * s[8 * r + 2] - e[8 * r + 2] && d.a3 == 4096 * s[8 * r + 3] - e[8 * r + 3]
      && d.a4 == 4096 * s[8 * r + 4] - e[8 * r + 4] && d.a5 == 4096 * s[8 * r + 5] - e[8 * r + 5]
      && d.a6 == 4096 * s[8 * r + 6] - e[8 * r + 6] && d.a7 == 4096 * s[8 * r + 7] - e[8 * r + 7]
  {
    Unwrapped();
  }

  /** Both passes together: before the final descaling, every value is within 38 of the exact
      two-pass transform, of which 256 is one level of the sample. */
  lemma BlockNear(m: seq<int>, r: nat, c: nat)
    requires |m| == 64 && BlockSafe(m) && r < 8 && c < 8
    ensures var (x, exact) := (Lane(Butterfly(Row(ColumnPass(Butterfly, m), r)), c), Lane(Ideal(ExactRow(m, r)), c));
      -38 * 4096 * 4096 < 4096 * 4096 * x - exact < 38 * 4096 * 4096
  {
    var a, x := Row(ColumnPass(Butterfly, m), r), ExactRow(m, r);
    forall c: nat | c < 8 ensures NearAt(Butterfly, Ideal, m, r, c) {
      BetweenNear(m, r, c);
    }
    RowApart(Butterfly, Ideal, m, r);
    LaneNearExact(a, x, c);
  }

  /** A row that is near the exact one leads to values near the exact ones. */
  lemma LaneNearExact(a: Eight, x: Eight, c: nat)
    requires NoOverflow(a) && Within(Apart(a, x), 3 * 4096, 3 * 4096) && c < 8
    ensures -38 * 4096 * 4096 < 4096 * 4096 * Lane(Butterfly(a), c) - Lane(Ideal(x), c) < 38 * 4096 * 4096
  {
    IdealApart(a, x);
    IdealBound(Apart(a, x), 3 * 4096, c);
    ButterflyNear(a);
    CloseLane(Butterfly(a), Ideal(a), c);
    LaneApart(Ideal(a), Ideal(x), c);
  }

  lemma LaneApart(a: Eight, x: Eight, c: nat)
    requires c < 8
    ensures Lane(Apart(a, x), c) == 4096 * Lane(a, c) - Lane(x, c)
  {
  }

  // ----- the stored samples -----

  lemma SampleAt(f: Eight -> Eight, s: seq<int>, r: nat, c: nat)
    requires |s| == 64 && r < 8 && c < 8
    ensures RowPass(f, s)[8 * r + c] == ByteClip(Lane(f(Row(s, r)), c) / 256)
  {
    Place8(r, c);
  }

  /** Every stored byte is saturated from a level `q` that lies less than 38 / 256 above the exact
      two-pass transform of the block, and less than 38 / 256 and one level below it. */
  lemma SampleNear(m: seq<int>, r: nat, c: nat) returns (q: int)
    requires |m| == 64 && BlockSafe(m) && r < 8 && c < 8
    ensures Samples(m)[8 * r + c] == ByteClip(q) && (-512 <= q < 512 ==> ByteClip(q) == Clamp(q))
    ensures var exact := Lane(Ideal(ExactRow(m, r)), c);
      exact - (38 + 256) * 4096 * 4096 < 256 * 4096 * 4096 * q < exact + 38 * 4096 * 4096
  {
    BlockNear(m, r, c);
    q := LevelNear(Butterfly, ColumnPass(Butterfly, m), r, c, Lane(Ideal(ExactRow(m, r)), c));
  }

  /** The descaled value of a lane that is near `exact`. */
  lemma LevelNear(f: Eight -> Eight, s: seq<int>, r: nat, c: nat, exact: int) returns (q: int)
    requires |s| == 64 && r < 8 && c < 8
    requires -38 * 4096 * 4096 < 4096 * 4096 * Lane(f(Row(s, r)), c) - exact < 38 * 4096 * 4096
    ensures RowPass(f, s)[8 * r + c] == ByteClip(q) && (-512 <= q < 512 ==> ByteClip(q) == Clamp(q))
    ensures exact - (38 + 256) * 4096 * 4096 < 256 * 4096 * 4096 * q < exact + 38 * 4096 * 4096
  {
    var x := Lane(f(Row(s, r)), c);
    q := x / 256;
    SampleAt(f, s, r, c);
    ClipSaturates(q);
    assert 256 * q <= x < 256 * q + 256;
  }

  /** A block with only its first value: all samples are that value, level shifted, in units of 256. */
  lemma FlatBlock(m: seq<int>, r: nat, c: nat)
    requires |m| == 64 && r < 8 && c < 8 && (forall k :: 1 <= k < 64 ==> m[k] == 0)
    requires Fits(m[0]) && Fits(m[0] + 32768)
    ensures Samples(m)[8 * r + c] == ByteClip((m[0] + 32768) / 256)
  {
    OnlyFirst(m[0]);
    OnlyFirst(m[0] + 32768);
    OnlyFirst(0);
    FlatPasses(Butterfly, m, r, c);
  }

  /** The same for any transform that spreads a single first value evenly. */
  lemma FlatPasses(f: Eight -> Eight, m: seq<int>, r: nat, c: nat)
    requires |m| == 64 && r < 8 && c < 8 && (forall k :: 1 <= k < 64 ==> m[k] == 0) && Fits(m[0] + 32768)
    requires f(First(m[0])) == All(m[0]) && f(First(0)) == All(0) && f(First(m[0] + 32768)) == All(m[0] + 32768)
    ensures RowPass(f, ColumnPass(f, m))[8 * r + c] == ByteClip((m[0] + 32768) / 256)
  {
    SampleAt(f, ColumnPass(f, m), r, c);
    FlatRow(f, m, r);
  }

  function First(v: int): Eight {
    Eight(v, 0, 0, 0, 0, 0, 0, 0)
  }

  function All(v: int): Eight {
    Eight(v, v, v, v, v, v, v, v)
  }

  lemma FlatRow(f: Eight -> Eight, m: seq<int>, r: nat)
    requires |m| == 64 && r < 8 && (forall k :: 1 <= k < 64 ==> m[k] == 0) && Fits(m[0] + 32768)
    requires f(First(m[0])) == All(m[0]) && f(First(0)) == All(0)
    ensures Row(ColumnPass(f, m), r) == First(m[0] + 32768)
  {
    FlatColumn(f, m, r, 0);
    FlatColumn(f, m, r, 1);
    FlatColumn(f, m, r, 2);
    FlatColumn(f, m, r, 3);
    FlatColumn(f, m, r, 4);
    FlatColumn(f, m, r, 5);
    FlatColumn(f, m, r, 6);
    FlatColumn(f, m, r, 7);
  }

  lemma FlatColumn(f: Eight -> Eight, m: seq<int>, r: nat, c: nat)
    requires |m| == 64 && r < 8 && c < 8 && forall k :: 1 <= k < 64 ==> m[k] == 0
    requires f(First(m[0])) == All(m[0]) && f(First(0)) == All(0)
    ensures ColumnPass(f, m)[8 * r + c] == if c == 0 then m[0] else 0
  {
    PassAt(f, m, r, c);
    assert Column(m, c) == First(if c == 0 then m[0] else 0);
  }

  lemma OnlyFirst(v: int)
    requires Fits(v)
    ensures Butterfly(First(v)) == All(v)
  {
    assert Even(v, 0, 0, 0) == Four(v, v, v, v) && Odd(0, 0, 0, 0) == Four(0, 0, 0, 0);
  }

  // ----- the cosines of the inverse DCT -----

  /** 4096 cos((2 x + 1) k pi / 16) / cos(k pi / 16), rounded, for sample `x` and coefficients k from 0 to 7:
      the inverse DCT (section A.3.3 of ITU-T T.81) of coefficients that have been scaled by the cosines
      of the denominator. */
  function Cosines(x: nat): Eight {
    match x
    case 0 => Eight(4096, 4096, 4096, 4096, 4096, 4096, 4096, 4096)
    case 1 => Eight(4096, 3472, 1697, -961, -4096, -7231, -9889, -11664)
    case 2 => Eight(4096, 2320, -1697, -4832, -4096, 1438, 9889, 17457)
    case 3 => Eight(4096, 815, -4096, -2737, 4096, 6130, -4096, -20592)
    case 4 => Eight(4096, -815, -4096, 2737, 4096, -6130, -4096, 20592)
    case 5 => Eight(4096, -2320, -1697, 4832, -4096, -1438, 9889, -17457)
    case 6 => Eight(4096, -3472, 1697, 961, -4096, 7231, -9889, 11664)
    case _ => Eight(4096, -4096, 4096, -4096, 4096, -4096, 4096, -4096)
  }

  /** The products of the lanes. */
  function Products(c: Eight, v: Eight): Eight {
    Eight(c.a0 * v.a0, c.a1 * v.a1, c.a2 * v.a2, c.a3 * v.a3, c.a4 * v.a4, c.a5 * v.a5, c.a6 * v.a6, c.a7 * v.a7)
  }

  function Sum(p: Eight): int {
    p.a0 + p.a1 + p.a2 + p.a3 + p.a4 + p.a5 + p.a6 + p.a7
  }

  function Dot(c: Eight, v: Eight): int {
    Sum(Products(c, v))
  }

  function Size(x: int): int {
    if x < 0 then -x else x
  }

  function Sizes(v: Eight): int {
    Size(v.a0) + Size(v.a1) + Size(v.a2) + Size(v.a3) + Size(v.a4) + Size(v.a5) + Size(v.a6) + Size(v.a7)
  }

  /** The butterfly in exact rationals is the sum over the cosines, but for the rounding of the constants:
      no coefficient counts for more than 1 / 4096 of it too much or too little. */
  lemma IdealIsDct(v: Eight, x: nat)
    requires x < 8
    ensures Abs(Lane(Ideal(v), x) - Dot(Cosines(x), v), Sizes(v))
  {
    IdealSum(v, x);
    DotNear(Cosines(x), Constants(x), v);
  }

  predicate WithinOne(c: Eight, d: Eight) {
    forall k: nat :: k < 8 ==> -1 <= Lane(c, k) - Lane(d, k) <= 1
  }

  lemma DotNear(c: Eight, d: Eight, v: Eight)
    requires WithinOne(c, d)
    ensures Abs(Dot(d, v) - Dot(c, v), Sizes(v))
  {
    forall k: nat | k < 8 ensures LaneNear(Products(c, v), Products(d, v), v, k) {
      OneMore(Lane(c, k), Lane(d, k), Lane(v, k));
    }
    SumNear(Products(c, v), Products(d, v), v);
  }

  predicate LaneNear(p: Eight, q: Eight, v: Eight, k: nat) {
    Abs(Lane(q, k) - Lane(p, k), Size(Lane(v, k)))
  }

  lemma SumNear(p: Eight, q: Eight, v: Eight)
    requires forall k: nat :: k < 8 ==> LaneNear(p, q, v, k)
    ensures Abs(Sum(q) - Sum(p), Sizes(v))
  {
    assert LaneNear(p, q, v, 0) && LaneNear(p, q, v, 1) && LaneNear(p, q, v, 2) && LaneNear(p, q, v, 3);
    assert LaneNear(p, q, v, 4) && LaneNear(p, q, v, 5) && LaneNear(p, q, v, 6) && LaneNear(p, q, v, 7);
  }

  /** The sums as the constants of the algorithm make them. */
  function Constants(x: nat): Eight {
    match x
    case 0 => Eight(4096, 4096, 4096, 4096, 4096, 4096, 4096, 4096)
    case 1 => Eight(4096, 3472, 1696, -961, -4096, -7231, -9888, -11664)
    case 2 => Eight(4096, 2320, -1696, -4831, -4096, 1439, 9888, 17456)
    case 3 => Eight(4096, 815, -4096, -2737, 4096, 6129, -4096, -20591)
    case 4 => Eight(4096, -815, -4096, 2737, 4096, -6129, -4096, 20591)
    case 5 => Eight(4096, -2320, -1696, 4831, -4096, -1439, 9888, -17456)
    case 6 => Eight(4096, -3472, 1696, 961, -4096, 7231, -9888, 11664)
    case _ => Eight(4096, -4096, 4096, -4096, 4096, -4096, 4096, -4096)
  }

  lemma IdealSum(v: Eight, x: nat)
    requires x < 8
    ensures Lane(Ideal(v), x) == Dot(Constants(x), v)
  {
    OddIs(v.a7, v.a1, v.a5, v.a3);
    EvenIs(v.a0, v.a2, v.a4, v.a6);
  }

  lemma OneMore(c: int, d: int, v: int)
    requires -1 <= c - d <= 1
    ensures -Size(v) <= d * v - c * v <= Size(v)
  {
    assert d * v - c * v == (d - c) * v;
  }

  lemma EvenIs(v0: int, v1: int, v2: int, v3: int)
    ensures IdealEven(v0, v1, v2, v3) == Four(4096 * v0 + 4096 * v1 + 4096 * v2 + 4096 * v3, 4096 * v0 + 1696 * v1 - 4096 * v2 - 9888 * v3,
                                              4096 * v0 - 1696 * v1 - 4096 * v2 + 9888 * v3, 4096 * v0 - 4096 * v1 + 4096 * v2 - 4096 * v3)
  {
  }

  lemma OddIs(v4: int, v5: int, v6: int, v7: int)
    ensures IdealOdd(v4, v5, v6, v7) == Four(4096 * v5 + 4096 * v7 + 4096 * v6 + 4096 * v4, 3472 * v5 - 961 * v7 - 7231 * v6 - 11664 * v4,
                                             2320 * v5 - 4831 * v7 + 1439 * v6 + 17456 * v4, 815 * v5 - 2737 * v7 + 6129 * v6 - 20591 * v4)
  {
  }

  // ----- the stored samples and the two-dimensional inverse DCT -----

  /** The columns of a block, each summed over the cosines of row `r`, scaled by 4096. */
  function CosineRow(m: seq<int>, r: nat): Eight
    requires |m| == 64 && r < 8
  {
    Eight(Dot(Cosines(r), Column(m, 0)), Dot(Cosines(r), Column(m, 1)), Dot(Cosines(r), Column(m, 2)), Dot(Cosines(r), Column(m, 3)),
          Dot(Cosines(r), Column(m, 4)), Dot(Cosines(r), Column(m, 5)), Dot(Cosines(r), Column(m, 6)), Dot(Cosines(r), Column(m, 7)))
  }

  /** The inverse DCT of a block at row `r` and column `c`, as a sum over all coefficients, scaled by 4096 * 4096. */
  function InverseDct(m: seq<int>, r: nat, c: nat): int
    requires |m| == 64 && r < 8 && c < 8
  {
    Dot(Cosines(c), CosineRow(m, r))
  }

  /** The magnitudes of the columns of a block, and of all of it. */
  function Columns(m: seq<int>): Eight
    requires |m| == 64
  {
    Eight(Sizes(Column(m, 0)), Sizes(Column(m, 1)), Sizes(Column(m, 2)), Sizes(Column(m, 3)),
          Sizes(Column(m, 4)), Sizes(Column(m, 5)), Sizes(Column(m, 6)), Sizes(Column(m, 7)))
  }

  function Magnitude(m: seq<int>): int
    requires |m| == 64
  {
    Sum(Columns(m))
  }

  /** A row between the passes without the level shift. */
  function PlainRow(m: seq<int>, r: nat): Eight
    requires |m| == 64 && r < 8
  {
    var x := ExactRow(m, r);
    x.(a0 := x.a0 - 4096 * SHIFT)
  }

  lemma PlainLane(m: seq<int>, r: nat, k: nat)
    requires |m| == 64 && r < 8 && k < 8
    ensures Lane(PlainRow(m, r), k) == Lane(Ideal(Column(m, k)), r)
  {
    PassAt(Ideal, m, r, k);
    PlainIs(Ideal, m, r, k);
  }

  lemma PlainIs(f: Eight -> Eight, m: seq<int>, r: nat, k: nat)
    requires |m| == 64 && r < 8 && k < 8 && f == Ideal
    ensures Lane(PlainRow(m, r), k) == ColumnPass(f, m)[8 * r + k]
  {
  }

  /** The level shift counts 4096 times in every lane. */
  lemma ShiftedSum(m: seq<int>, r: nat, c: nat)
    requires |m| == 64 && r < 8 && c < 8
    ensures Lane(Ideal(ExactRow(m, r)), c) == Dot(Constants(c), PlainRow(m, r)) + 4096 * 4096 * SHIFT
  {
    IdealSum(ExactRow(m, r), c);
    ShiftOfFirst(Constants(c), PlainRow(m, r), 4096 * SHIFT);
  }

  lemma ShiftOfFirst(d: Eight, v: Eight, s: int)
    requires d.a0 == 4096
    ensures Dot(d, v.(a0 := v.a0 + s)) == Dot(d, v) + 4096 * s
  {
  }

  lemma SmallProduct(c: int, v: int)
    requires -20592 <= c <= 20592
    ensures Abs(c * v, 20592 * Size(v))
  {
    MulMono(Size(v), 20592, c);
    MulMono(Size(v), c, -20592);
    assert Size(v) * c == if v < 0 then -(c * v) else c * v;
  }

  predicate SmallLane(c: Eight, v: Eight, k: nat) {
    Abs(Lane(Products(c, v), k), 20592 * Size(Lane(v, k)))
  }

  lemma SmallDot(c: Eight, v: Eight)
    requires Within(c, 20592, 20592)
    ensures Abs(Dot(c, v), 20592 * Sizes(v))
  {
    forall k: nat | k < 8 ensures SmallLane(c, v, k) {
      SmallProduct(Lane(c, k), Lane(v, k));
    }
    SmallSum(c, v);
  }

  lemma SmallSum(c: Eight, v: Eight)
    requires forall k: nat :: k < 8 ==> SmallLane(c, v, k)
    ensures Abs(Sum(Products(c, v)), 20592 * Sizes(v))
  {
    assert SmallLane(c, v, 0) && SmallLane(c, v, 1) && SmallLane(c, v, 2) && SmallLane(c, v, 3);
    assert SmallLane(c, v, 4) && SmallLane(c, v, 5) && SmallLane(c, v, 6) && SmallLane(c, v, 7);
  }

  function Minus(a: Eight, b: Eight): Eight {
    Eight(a.a0 - b.a0, a.a1 - b.a1, a.a2 - b.a2, a.a3 - b.a3, a.a4 - b.a4, a.a5 - b.a5, a.a6 - b.a6, a.a7 - b.a7)
  }

  lemma DotMinus(c: Eight, a: Eight, b: Eight)
    ensures Dot(c, Minus(a, b)) == Dot(c, a) - Dot(c, b)
  {
    ProductMinus(c.a0, a.a0, b.a0);
    ProductMinus(c.a1, a.a1, b.a1);
    ProductMinus(c.a2, a.a2, b.a2);
    ProductMinus(c.a3, a.a3, b.a3);
    ProductMinus(c.a4, a.a4, b.a4);
    ProductMinus(c.a5, a.a5, b.a5);
    ProductMinus(c.a6, a.a6, b.a6);
    ProductMinus(c.a7, a.a7, b.a7);
  }

  lemma ProductMinus(c: int, a: int, b: int)
    ensures c * (a - b) == c * a - c * b
  {
  }

  /** The lanes of `v` are at most `n` times those of `w` in magnitude. */
  predicate LaneUpTo(v: Eight, w: Eight, n: nat, k: nat)
    requires n == 1 || n == 20592
  {
    Size(Lane(v, k)) <= if n == 1 then Lane(w, k) else 20592 * Lane(w, k)
  }

  lemma SizesUpTo(v: Eight, w: Eight, n: nat)
    requires (n == 1 || n == 20592) && forall k: nat :: k < 8 ==> LaneUpTo(v, w, n, k)
    ensures Sizes(v) <= if n == 1 then Sum(w) else 20592 * Sum(w)
  {
    assert LaneUpTo(v, w, n, 0) && LaneUpTo(v, w, n, 1) && LaneUpTo(v, w, n, 2) && LaneUpTo(v, w, n, 3);
    assert LaneUpTo(v, w, n, 4) && LaneUpTo(v, w, n, 5) && LaneUpTo(v, w, n, 6) && LaneUpTo(v, w, n, 7);
  }

  lemma ColumnLane(m: seq<int>, r: nat, k: nat)
    requires |m| == 64 && r < 8 && k < 8
    ensures Lane(CosineRow(m, r), k) == Dot(Cosines(r), Column(m, k)) && Lane(Columns(m), k) == Sizes(Column(m, k))
  {
  }

  lemma PlainUpTo(m: seq<int>, r: nat, k: nat)
    requires |m| == 64 && r < 8 && k < 8
    ensures LaneUpTo(PlainRow(m, r), Columns(m), 20592, k)
  {
    PlainLane(m, r, k);
    ColumnLane(m, r, k);
    IdealSum(Column(m, k), r);
    SmallDot(Constants(r), Column(m, k));
  }

  lemma PlainNear(m: seq<int>, r: nat, k: nat)
    requires |m| == 64 && r < 8 && k < 8
    ensures LaneUpTo(Minus(PlainRow(m, r), CosineRow(m, r)), Columns(m), 1, k)
  {
    PlainLane(m, r, k);
    ColumnLane(m, r, k);
    IdealIsDct(Column(m, k), r);
    assert Lane(Minus(PlainRow(m, r), CosineRow(m, r)), k) == Lane(PlainRow(m, r), k) - Lane(CosineRow(m, r), k);
  }

  /** Both passes in exact rationals are the inverse DCT, level shifted, but for the rounding of the constants. */
  lemma ExactIsDct(m: seq<int>, r: nat, c: nat)
    requires |m| == 64 && r < 8 && c < 8
    ensures Abs(Lane(Ideal(ExactRow(m, r)), c) - (InverseDct(m, r, c) + 4096 * 4096 * 32768), 41184 * Magnitude(m))
  {
    ShiftedSum(m, r, c);
    RowErrors(m, r);
    TwoErrors(Cosines(c), Constants(c), PlainRow(m, r), CosineRow(m, r), Columns(m));
  }

  lemma RowErrors(m: seq<int>, r: nat)
    requires |m| == 64 && r < 8
    ensures Errors(PlainRow(m, r), CosineRow(m, r), Columns(m))
  {
    forall k: nat | k < 8
      ensures LaneUpTo(PlainRow(m, r), Columns(m), 20592, k) && LaneUpTo(Minus(PlainRow(m, r), CosineRow(m, r)), Columns(m), 1, k)
    {
      PlainUpTo(m, r, k);
      PlainNear(m, r, k);
    }
  }

  /** `y` is near `e`, in units of `w`, and not too large. A proof that needs to know how asks for it. */
  ghost predicate Errors(y: Eight, e: Eight, w: Eight) {
    forall n: nat {:trigger Asked(n)} :: Asked(n) ==>
      forall k: nat :: k < 8 ==> LaneUpTo(y, w, 20592, k) && LaneUpTo(Minus(y, e), w, 1, k)
  }

  /** The error of the constants of the second pass, and that of the first pass carried through it. */
  lemma TwoErrors(c: Eight, d: Eight, y: Eight, e: Eight, w: Eight)
    requires WithinOne(c, d) && Within(c, 20592, 20592) && Errors(y, e, w)
    ensures Abs(Dot(d, y) - Dot(c, e), 41184 * Sum(w))
  {
    assert Asked(0);
    DotNear(c, d, y);
    SizesUpTo(y, w, 20592);
    SizesUpTo(Minus(y, e), w, 1);
    SmallDot(c, Minus(y, e));
    DotMinus(c, y, e);
  }

  /** Every stored sample is saturated from a level that lies near the inverse DCT of the block plus 128:
      within 38 / 256 and the rounding of the constants, and up to one level below for rounding down. */
  lemma SampleIsDct(m: seq<int>, r: nat, c: nat) returns (q: int)
    requires |m| == 64 && BlockSafe(m) && r < 8 && c < 8
    ensures Samples(m)[8 * r + c] == ByteClip(q) && (-512 <= q < 512 ==> ByteClip(q) == Clamp(q))
    ensures var d := 256 * 4096 * 4096 * (q - 128) - InverseDct(m, r, c);
      -(38 + 256) * 4096 * 4096 - 41184 * Magnitude(m) < d < 38 * 4096 * 4096 + 41184 * Magnitude(m)
  {
    q := SampleNear(m, r, c);
    ExactIsDct(m, r, c);
    BothErrors(q, Lane(Ideal(ExactRow(m, r)), c), InverseDct(m, r, c), Magnitude(m));
  }

  lemma BothErrors(q: int, exact: int, dct: int, size: int)
    requires exact - (38 + 256) * 4096 * 4096 < 256 * 4096 * 4096 * q < exact + 38 * 4096 * 4096
    requires Abs(exact - (dct + 4096 * 4096 * 32768), 41184 * size)
    ensures var d := 256 * 4096 * 4096 * (q - 128) - dct;
      -(38 + 256) * 4096 * 4096 - 41184 * size < d < 38 * 4096 * 4096 + 41184 * size
  {
  }
}
