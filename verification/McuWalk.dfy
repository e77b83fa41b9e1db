/** The walk over the MCUs of an image (jd_decomp): their places, when it ends, where restarts come,
    and the rectangles that are output. */
module McuWalk {
  import opened Machine
  import opened McuOutput
  import HuffmanBuild

  // ----- the sides and the restarts -----

  /** The number of MCUs on a side. */
  function Count(size: nat, m: nat): nat
    requires m > 0
  {
    (size + m - 1) / m
  }

  /** The padded side of the image still fits a 16-bit counter. */
  predicate SideFits(size: nat, m: nat) {
    size + m <= TWO16
  }

  /** MCU number `k` comes right after a complete restart interval. */
  predicate Restarts(k: nat, nrst: nat) {
    nrst > 0 && k > 0 && k % nrst == 0
  }

  /** `q` times `n`. */
  function Times(q: nat, n: nat): nat {
    if q == 0 then 0 else Times(q - 1, n) + n
  }

  lemma {:induction false} TimesIs(q: nat, n: nat)
    ensures Times(q, n) == q * n
  {
    if q > 0 {
      TimesIs(q - 1, n);
      assert q * n == (q - 1) * n + n;
    }
  }

  lemma TimesMod(k: nat, n: nat, q: nat, r: nat)
    requires k == Times(q, n) + r && r < n
    ensures k % n == r && k / n == q
  {
    TimesIs(q, n);
    ModUnique(k, n, q, r);
  }

  /** After `k` MCUs: `rst` MCUs since the last restart, and `rsc` restarts. */
  ghost predicate Counters(k: nat, nrst: nat, rst: nat, rsc: nat, q: nat) {
    nrst > 0 ==> (if k == 0 then rst == rsc == q == 0 else k == Times(q, nrst) + rst && 1 <= rst <= nrst && rsc == U16(q))
  }

  /** The restart counter tells the end of an interval and its number. */
  lemma CounterTells(k: nat, nrst: nat, rst: nat, rsc: nat, q: nat)
    requires Counters(k, nrst, rst, rsc, q) && nrst > 0
    ensures Restarts(k, nrst) <==> rst == nrst
    ensures rst == nrst ==> k / nrst == q + 1 && rsc == U16(q)
  {
    if k > 0 {
      if rst == nrst { TimesMod(k, nrst, q + 1, 0); } else { TimesMod(k, nrst, q, rst); }
    }
  }

  lemma NextRestart(q: nat)
    ensures U16(U16(q) + 1) == U16(q + 1)
  {
    HuffmanBuild.U16Succ(q);
  }

  /** The counters after one more MCU. */
  lemma CountersNext(k: nat, nrst: nat, rst: nat, rsc: nat, q: nat)
    requires Counters(k, nrst, rst, rsc, q) && nrst < TWO16
    ensures Restarts(k, nrst) <==> nrst > 0 && rst == nrst
    ensures Restarts(k, nrst) ==> rsc == U16(k / nrst - 1) && Counters(k + 1, nrst, 1, U16(rsc + 1), q + 1)
    ensures !Restarts(k, nrst) ==> Counters(k + 1, nrst, if nrst > 0 then U16(rst + 1) else rst, rsc, q)
  {
    if nrst > 0 {
      CounterTells(k, nrst, rst, rsc, q);
      NextRestart(q);
    }
  }

  /** A restart comes exactly before the MCUs number n * nrst, n >= 1, and expects RST((n - 1) mod 8). */
  lemma RestartEvery(k: nat, nrst: nat)
    requires nrst > 0
    ensures Restarts(k, nrst) <==> exists n: nat :: n >= 1 && k == n * nrst
    ensures forall n: nat :: n >= 1 && k == n * nrst ==> U16(k / nrst - 1) % 8 == (n - 1) % 8
  {
    if Restarts(k, nrst) {
      var n := k / nrst;
      assert k == n * nrst;
    }
    forall n: nat | n >= 1 && k == n * nrst
      ensures Restarts(k, nrst) && U16(k / nrst - 1) % 8 == (n - 1) % 8
    {
      MultipleRestarts(k, nrst, n);
    }
  }

  lemma MultipleRestarts(k: nat, nrst: nat, n: nat)
    requires nrst > 0 && n >= 1 && k == n * nrst
    ensures Restarts(k, nrst) && U16(k / nrst - 1) % 8 == (n - 1) % 8
  {
    TimesIs(n, nrst);
    TimesMod(k, nrst, n, 0);
    MulMono(nrst, n, 1);
    LowBits(n - 1);
  }

  lemma LowBits(i: nat)
    ensures U16(i) % 8 == i % 8
  {
  }

  lemma CountAbove(size: nat, m: nat, n: nat)
    requires m > 0 && m * n < size
    ensures n < Count(size, m)
  {
    var d := size + m - 1;
    assert d == m * (d / m) + d % m;
    if d / m <= n { MulMono(m, n, d / m); }
  }

  // ----- when the walk ends -----

  /** A 16-bit loop counter after `n` steps of size `m`. */
  function Counter(n: nat, m: nat): nat {
    if n == 0 then 0 else U16(Counter(n - 1, m) + m)
  }

  lemma {:induction false} CounterBound(n: nat, m: nat)
    requires m == 8 || m == 16
    ensures Counter(n, m) % m == 0 && Counter(n, m) <= TWO16 - m
  {
    if n > 0 { CounterBound(n - 1, m); }
  }

  lemma {:induction false} CounterExact(n: nat, m: nat)
    requires m > 0 && m * n < TWO16
    ensures Counter(n, m) == m * n
  {
    if n > 0 {
      assert m * n == m * (n - 1) + m;
      CounterExact(n - 1, m);
    }
  }

  /** The counter of a loop over a side ever reaches the end exactly when the padded side fits 16 bits. */
  lemma SideEnds(size: nat, m: nat)
    requires (m == 8 || m == 16) && size < TWO16
    ensures SideFits(size, m) <==> exists n: nat :: Counter(n, m) >= size
  {
    if SideFits(size, m) {
      var n := Count(size, m);
      CounterExact(n, m);
      assert Counter(n, m) >= size;
    } else {
      forall n: nat ensures Counter(n, m) < size { CounterBound(n, m); }
    }
  }

  // ----- the places of the MCUs -----

  /** Where the two loops are: at an MCU, or past the last one. */
  datatype Place = At(x: nat, y: nat) | Over

  datatype Grid = Grid(width: nat, height: nat, mx: nat, my: nat)

  /** The sides are not empty, and they and the MCU are of 16 bits. */
  predicate Valid(g: Grid) {
    && 0 < g.width < TWO16 && 0 < g.height < TWO16
    && (g.mx == 8 || g.mx == 16) && (g.my == 8 || g.my == 16)
  }

  predicate GridFits(g: Grid) {
    SideFits(g.width, g.mx) && SideFits(g.height, g.my)
  }

  /** The next row, if there is one. */
  function NextRow(g: Grid, y: nat): Place {
    if U16(y + g.my) < g.height then At(0, U16(y + g.my)) else Over
  }

  /** The next MCU of the two loops with their 16-bit counters. */
  function NextPlace(g: Grid, p: Place): Place {
    match p
    case At(x, y) => if U16(x + g.mx) < g.width then At(U16(x + g.mx), y) else NextRow(g, y)
    case Over => Over
  }

  /** The place of MCU number `k`. */
  function PlaceOf(g: Grid, k: nat): Place {
    if k == 0 then At(0, 0) else NextPlace(g, PlaceOf(g, k - 1))
  }

  /** The number of MCUs of the first `r` rows. */
  function Before(g: Grid, r: nat): nat
    requires Valid(g)
  {
    if r == 0 then 0 else Before(g, r - 1) + Count(g.width, g.mx)
  }

  lemma CountPositive(size: nat, m: nat)
    requires m > 0 && size > 0
    ensures Count(size, m) > 0
  {
    CountAbove(size, m, 0);
  }

  /** Up to its last MCU, a counter of a side that fits is a multiple below the side; then it is past it. */
  lemma CounterInSide(size: nat, m: nat, n: nat)
    requires (m == 8 || m == 16) && SideFits(size, m) && n <= Count(size, m)
    ensures Counter(n, m) == m * n
    ensures n < Count(size, m) <==> m * n < size
  {
    CounterExact(n, m);
  }

  /** In a row, the MCUs follow each other as long as the column counter is below the width. */
  lemma {:induction false} RowPlaces(g: Grid, k: nat, y: nat, c: nat)
    requires Valid(g) && PlaceOf(g, k) == At(0, y) && forall i: nat :: i <= c ==> Counter(i, g.mx) < g.width
    ensures PlaceOf(g, k + c) == At(Counter(c, g.mx), y)
    decreases c
  {
    if c > 0 {
      RowPlaces(g, k, y, c - 1);
      NextColumn(g, c, y);
    }
  }

  lemma NextColumn(g: Grid, c: nat, y: nat)
    requires c > 0
    ensures NextPlace(g, At(Counter(c - 1, g.mx), y)) == if Counter(c, g.mx) < g.width then At(Counter(c, g.mx), y) else NextRow(g, y)
  {
  }

  /** After the last MCU of a row that fits comes the next row. */
  lemma RowEnds(g: Grid, r: nat, y: nat)
    requires Valid(g) && SideFits(g.width, g.mx) && PlaceOf(g, Before(g, r)) == At(0, y)
    ensures PlaceOf(g, Before(g, r + 1)) == NextRow(g, y)
  {
    var cols := Count(g.width, g.mx);
    CountPositive(g.width, g.mx);
    forall i: nat | i <= cols - 1 ensures Counter(i, g.mx) < g.width { CounterInSide(g.width, g.mx, i); }
    RowPlaces(g, Before(g, r), y, cols - 1);
    CounterInSide(g.width, g.mx, cols);
    NextColumn(g, cols, y);
  }

  /** The rows follow each other as long as the row counter is below the height. */
  lemma {:induction false} RowsFollow(g: Grid, r: nat)
    requires Valid(g) && SideFits(g.width, g.mx) && forall i: nat :: i <= r ==> Counter(i, g.my) < g.height
    ensures PlaceOf(g, Before(g, r)) == At(0, Counter(r, g.my))
    decreases r
  {
    if r > 0 {
      RowsFollow(g, r - 1);
      RowEnds(g, r - 1, Counter(r - 1, g.my));
      NextRowIs(g, r);
    }
  }

  lemma NextRowIs(g: Grid, r: nat)
    requires r > 0 && Counter(r, g.my) < g.height
    ensures NextRow(g, Counter(r - 1, g.my)) == At(0, Counter(r, g.my))
  {
  }

  /** In a grid that fits, the MCU number `c` after the first `r` rows is in column `c` of row `r`. */
  lemma PlaceInGrid(g: Grid, c: nat, r: nat)
    requires Valid(g) && GridFits(g) && c < Count(g.width, g.mx) && r < Count(g.height, g.my)
    ensures PlaceOf(g, Before(g, r) + c) == At(g.mx * c, g.my * r)
  {
    forall i: nat | i <= r ensures Counter(i, g.my) < g.height { CounterInSide(g.height, g.my, i); }
    RowsFollow(g, r);
    CounterInSide(g.height, g.my, r);
    forall i: nat | i <= c ensures Counter(i, g.mx) < g.width { CounterInSide(g.width, g.mx, i); }
    RowPlaces(g, Before(g, r), g.my * r, c);
    CounterInSide(g.width, g.mx, c);
  }

  /** The number of MCUs of the image. */
  function Total(g: Grid): nat
    requires Valid(g)
  {
    Before(g, Count(g.height, g.my))
  }

  lemma OverAfterAll(g: Grid)
    requires Valid(g) && GridFits(g)
    ensures PlaceOf(g, Total(g)) == Over
  {
    var r := Count(g.height, g.my) - 1;
    CountPositive(g.height, g.my);
    CountPositive(g.width, g.mx);
    PlaceInGrid(g, 0, r);
    RowEnds(g, r, g.my * r);
    CounterInSide(g.height, g.my, r);
    CounterInSide(g.height, g.my, r + 1);
    assert Counter(r + 1, g.my) == U16(g.my * r + g.my);
  }

  lemma {:induction false} OverStays(g: Grid, k: nat, n: nat)
    requires PlaceOf(g, k) == Over && k <= n
    ensures PlaceOf(g, n) == Over
    decreases n
  {
    if k < n { OverStays(g, k, n - 1); }
  }

  /** With too wide a side the first row does not end. */
  lemma {:induction false} WideRow(g: Grid, k: nat)
    requires Valid(g) && !SideFits(g.width, g.mx)
    ensures PlaceOf(g, k) == At(Counter(k, g.mx), 0)
  {
    if k > 0 {
      WideRow(g, k - 1);
      CounterBound(k, g.mx);
    }
  }

  /** With too high a side the rows do not end. */
  lemma HighRows(g: Grid, k: nat)
    requires Valid(g) && SideFits(g.width, g.mx) && !SideFits(g.height, g.my)
    ensures PlaceOf(g, k).At?
  {
    forall i: nat ensures Counter(i, g.my) < g.height { CounterBound(i, g.my); }
    RowsFollow(g, k);
    RowsAtLeast(g, k);
    if PlaceOf(g, k) == Over { OverStays(g, k, Before(g, k)); }
  }

  lemma {:induction false} RowsAtLeast(g: Grid, r: nat)
    requires Valid(g)
    ensures r <= Before(g, r)
  {
    if r > 0 {
      RowsAtLeast(g, r - 1);
      CountPositive(g.width, g.mx);
    }
  }

  /** The walk comes to its end if and only if both padded sides fit 16 bits. */
  lemma WalkEnds(g: Grid)
    requires Valid(g)
    ensures GridFits(g) <==> exists k: nat :: PlaceOf(g, k) == Over
  {
    if GridFits(g) {
      OverAfterAll(g);
    } else {
      forall k: nat ensures PlaceOf(g, k).At? {
        if SideFits(g.width, g.mx) { HighRows(g, k); } else { WideRow(g, k); }
      }
    }
  }

  /** MCU number `k` of a grid that fits is in the grid. */
  lemma {:induction false} PlacedBefore(g: Grid, k: nat) returns (c: nat, r: nat)
    requires Valid(g) && GridFits(g) && k < Total(g)
    ensures c < Count(g.width, g.mx) && r < Count(g.height, g.my) && k == Before(g, r) + c
    ensures PlaceOf(g, k) == At(g.mx * c, g.my * r) && g.mx * c < g.width && g.my * r < g.height
  {
    r := 0;
    while Before(g, r + 1) <= k
      invariant r < Count(g.height, g.my) && Before(g, r) <= k
      decreases Count(g.height, g.my) - r
    {
      r := r + 1;
    }
    c := k - Before(g, r);
    PlaceInGrid(g, c, r);
    CounterInSide(g.width, g.mx, c);
    CounterInSide(g.height, g.my, r);
  }

  // ----- the rectangles -----

  /** Pixel `p` of a side of the scaled image lies in what MCU number `c` outputs. */
  predicate Covers(p: nat, c: nat, m: nat, size: nat, scale: nat) {
    m * c < size && Shrunk(m * c, scale) <= p < Shrunk(m * c, scale) + Visible(m * c, m, size, scale)
  }

  /** The scaled MCU side divides the scaled image evenly, up to its end. */
  lemma Slice(c: nat, m: nat, size: nat, scale: nat)
    requires (m == 8 || m == 16) && scale <= 3 && m * c < size
    ensures Shrunk(m * c, scale) == Shrunk(m, scale) * c
    ensures Shrunk(m * c, scale) + Visible(m * c, m, size, scale) == Min(Shrunk(m, scale) * c + Shrunk(m, scale), Shrunk(size, scale))
  {
    if m == 8 { Slice8(c, size, scale); } else { Slice16(c, size, scale); }
  }

  lemma Slice8(c: nat, size: nat, scale: nat)
    requires scale <= 3 && 8 * c < size
    ensures Shrunk(8 * c, scale) == Shrunk(8, scale) * c
    ensures Shrunk(8 * c, scale) + Visible(8 * c, 8, size, scale) == Min(Shrunk(8, scale) * c + Shrunk(8, scale), Shrunk(size, scale))
  {
  }

  lemma Slice16(c: nat, size: nat, scale: nat)
    requires scale <= 3 && 16 * c < size
    ensures Shrunk(16 * c, scale) == Shrunk(16, scale) * c
    ensures Shrunk(16 * c, scale) + Visible(16 * c, 16, size, scale) == Min(Shrunk(16, scale) * c + Shrunk(16, scale), Shrunk(size, scale))
  {
  }

  /** Along a side, every pixel of the scaled image is output by exactly one MCU, and no other pixel is. */
  lemma SidePartition(p: nat, m: nat, size: nat, scale: nat) returns (c: nat)
    requires (m == 8 || m == 16) && scale <= 3
    ensures p < Shrunk(size, scale) ==> Covers(p, c, m, size, scale) && c < Count(size, m)
    ensures forall d: nat :: Covers(p, d, m, size, scale) ==> d == c && p < Shrunk(size, scale)
  {
    var s := Shrunk(m, scale);
    c := p / s;
    assert s * c <= p < s * c + s;
    if p < Shrunk(size, scale) {
      Inside(p, c, m, size, scale);
      Slice(c, m, size, scale);
      CountAbove(size, m, c);
    }
    forall d: nat | Covers(p, d, m, size, scale) ensures d == c && p < Shrunk(size, scale) {
      Slice(d, m, size, scale);
      ModUnique(p, s, d, p - s * d);
    }
  }

  lemma Inside(p: nat, c: nat, m: nat, size: nat, scale: nat)
    requires (m == 8 || m == 16) && scale <= 3 && p < Shrunk(size, scale) && Shrunk(m, scale) * c <= p
    ensures m * c < size
  {
    if m == 8 { assert 8 * c < size; } else { assert 16 * c < size; }
  }

  /** The rectangles of the MCUs partition the scaled image. */
  lemma RectanglesPartition(px: nat, py: nat, mx: nat, my: nat, width: nat, height: nat, scale: nat) returns (c: nat, r: nat)
    requires Sampling(mx, my) && scale <= 3
    ensures px < Shrunk(width, scale) && py < Shrunk(height, scale) ==>
      Covers(px, c, mx, width, scale) && Covers(py, r, my, height, scale) && c < Count(width, mx) && r < Count(height, my)
    ensures forall d: nat, e: nat :: Covers(px, d, mx, width, scale) && Covers(py, e, my, height, scale) ==>
      d == c && e == r && px < Shrunk(width, scale) && py < Shrunk(height, scale)
  {
    c := SidePartition(px, mx, width, scale);
    r := SidePartition(py, my, height, scale);
  }
}
