/** Building the Huffman tables from a DHT segment (create_huffman_tbl). */
module HuffmanBuild {
  import opened BitStream
  import opened Machine
  import opened Sequences
  import opened Huffman

  // Result codes of the decoder.
  const JDR_OK: int := 0
  const JDR_MEM1: int := 3
  const JDR_FMT1: int := 6

  /** Tables by (number, class): class 0 is DC, class 1 is AC. */
  type Tables = map<(nat, nat), Table>

  datatype Parsed = Parsed(rc: int, pool: nat, huff: Tables)

  /** Up to whole words. */
  function Align4(n: nat): (r: nat)
    ensures r % 4 == 0 && n <= r < n + 4
  {
    (n + 3) / 4 * 4
  }

  function Sum(s: seq<nat>): nat {
    if s == [] then 0 else Sum(s[..|s| - 1]) + s[|s| - 1]
  }

  lemma {:induction false} SizesLength(bits: seq<nat>)
    ensures |Sizes(bits)| == Sum(bits)
  {
    if bits != [] { SizesLength(bits[..|bits| - 1]); }
  }

  lemma {:induction false} SizesPrefix(bits: seq<nat>, i: nat)
    requires i <= |bits|
    ensures Sizes(bits[..i]) <= Sizes(bits)
  {
    if i == |bits| {
      assert bits[..i] == bits;
    } else {
      SizesPrefix(bits[..|bits| - 1], i);
      assert bits[..|bits| - 1][..i] == bits[..i];
    }
  }

  lemma SizesGroup(bits: seq<nat>, i: nat)
    requires i < |bits|
    ensures Sizes(bits[..i + 1]) == Sizes(bits[..i]) + seq(bits[i], _ => i + 1)
  {
    assert bits[..i + 1][..i] == bits[..i];
  }

  /** The position and the length of every code of the group of length `i + 1`. */
  lemma GroupBounds(bits: seq<nat>, i: nat)
    requires i < |bits|
    ensures |Sizes(bits[..i + 1])| == |Sizes(bits[..i])| + bits[i] <= |Sizes(bits)|
    ensures forall j :: |Sizes(bits[..i])| <= j < |Sizes(bits[..i])| + bits[i] ==> Sizes(bits)[j] == i + 1
  {
    SizesGroup(bits, i);
    SizesPrefix(bits, i + 1);
    var g := Sizes(bits[..i + 1]);
    assert forall j :: 0 <= j < |g| ==> Sizes(bits)[j] == g[j];
  }

  /** What the running code is worth for a code of length `len` at index `j`. */
  function Next(sizes: seq<nat>, j: nat, len: nat): nat
    requires Ordered(sizes) && j <= |sizes|
    requires j > 0 ==> sizes[j - 1] <= len
  {
    if j == 0 then 0 else Shl(CodeOf(sizes, j - 1) + 1, len - sizes[j - 1])
  }

  lemma U16Succ(q: nat)
    ensures U16(U16(q) + 1) == U16(q + 1)
  {
    var r := U16(q);
    assert q == TWO16 * (q / TWO16) + r;
    if r + 1 < TWO16 {
      ModUnique(q + 1, TWO16, q / TWO16, r + 1);
    } else {
      ModUnique(q + 1, TWO16, q / TWO16 + 1, 0);
    }
  }

  lemma U16Double(q: nat)
    ensures U16(2 * U16(q)) == U16(2 * q)
  {
    var r, k := U16(q), q / TWO16;
    assert q == TWO16 * k + r;
    if 2 * r < TWO16 {
      ModUnique(2 * q, TWO16, 2 * k, 2 * r);
    } else {
      ModUnique(2 * q, TWO16, 2 * k + 1, 2 * r - TWO16);
      ModUnique(2 * r, TWO16, 1, 2 * r - TWO16);
    }
  }

  /** `hc` is the running 16-bit code before the code of index `j`, at length `len`. */
  ghost predicate Running(sizes: seq<nat>, j: nat, len: nat, hc: nat) {
    && Ordered(sizes) && j <= |sizes|
    && (j > 0 ==> sizes[j - 1] <= len)
    && hc == U16(Next(sizes, j, len))
  }

  lemma RunningSucc(sizes: seq<nat>, j: nat, hc: nat)
    requires Ordered(sizes) && j < |sizes| && Running(sizes, j, sizes[j], hc)
    ensures hc == Stored(sizes, j)
    ensures Running(sizes, j + 1, sizes[j], U16(hc + 1))
  {
    U16Succ(CodeOf(sizes, j));
  }

  lemma RunningDouble(sizes: seq<nat>, j: nat, len: nat, hc: nat)
    requires Running(sizes, j, len, hc)
    ensures Running(sizes, j, len + 1, U16(2 * hc))
  {
    U16Double(Next(sizes, j, len));
  }

  /** The cells of `ph` up to `j` hold their code words. */
  ghost predicate Filled(ph: array<nat>, sizes: seq<nat>, j: nat)
    requires Ordered(sizes)
    reads ph
  {
    ph.Length == |sizes| && j <= |sizes| && forall k :: 0 <= k < j ==> ph[k] == Stored(sizes, k)
  }

  /** The inner loop: the `count` codes of one length. */
  method FillGroup(ph: array<nat>, ghost sizes: seq<nat>, start: nat, count: nat, first: nat, ghost len: nat)
    returns (j: nat, hc: nat)
    requires Ordered(sizes) && start + count <= |sizes|
    requires Filled(ph, sizes, start)
    requires forall k :: start <= k < start + count ==> sizes[k] == len
    requires Running(sizes, start, len, first)
    modifies ph
    ensures j == start + count
    ensures Filled(ph, sizes, j) && Running(sizes, j, len, hc)
  {
    j, hc := start, first;
    var b := count;
    while b > 0
      invariant 0 <= b <= count && j == start + (count - b)
      invariant Filled(ph, sizes, j) && Running(sizes, j, len, hc)
    {
      RunningSucc(sizes, j, hc);
      b := b - 1;
      ph[j] := hc;
      j, hc := j + 1, U16(hc + 1);
    }
  }

  /** The code words of the table, each in a 16-bit cell. */
  method BuildCodes(bits: seq<nat>, np: nat) returns (ph: array<nat>)
    requires |bits| == MAX_LEN
    requires np == Sum(bits)
    ensures fresh(ph) && ph.Length == np == |Sizes(bits)|
    ensures forall j :: 0 <= j < np ==> ph[j] == Stored(Sizes(bits), j)
  {
    ghost var sizes := Sizes(bits);
    SizesLength(bits);
    ph := new nat[np];
    var i, j, hc := 0, 0, 0;
    while i < 16
      invariant 0 <= i <= 16 && GroupAt(bits, sizes, i, j)
      invariant Filled(ph, sizes, j) && Running(sizes, j, i + 1, hc)
    {
      j, hc := FillNext(ph, bits, sizes, i, j, hc);
      i := i + 1;
    }
    GroupEnd(bits, sizes, j);
  }

  /** The codes of length `i + 1` begin at place `j`. A proof that needs to know why asks for it. */
  ghost predicate GroupAt(bits: seq<nat>, sizes: seq<nat>, i: nat, j: nat) {
    forall n: nat {:trigger Asked(n)} :: Asked(n) ==> i <= |bits| && sizes == Sizes(bits) && j == |Sizes(bits[..i])| <= |sizes|
  }

  lemma GroupEnd(bits: seq<nat>, sizes: seq<nat>, j: nat)
    requires |bits| == MAX_LEN && GroupAt(bits, sizes, MAX_LEN, j)
    ensures j == |sizes| && sizes == Sizes(bits)
  {
    assert Asked(0) && bits[..16] == bits;
  }

  /** One round of the outer loop: the codes of one length, and the first code of the next. */
  method FillNext(ph: array<nat>, bits: seq<nat>, ghost sizes: seq<nat>, i: nat, j0: nat, first: nat) returns (j: nat, hc: nat)
    requires i < |bits| == MAX_LEN && GroupAt(bits, sizes, i, j0)
    requires Ordered(sizes) && Filled(ph, sizes, j0) && Running(sizes, j0, i + 1, first)
    modifies ph
    ensures GroupAt(bits, sizes, i + 1, j) && Filled(ph, sizes, j) && Running(sizes, j, i + 2, hc)
  {
    assert Asked(0);
    GroupBounds(bits, i);
    j, hc := FillGroup(ph, sizes, j0, bits[i], first, i + 1);
    RunningDouble(sizes, j, i + 1, hc);
    hc := U16(2 * hc);
  }

  /** The table a definition with these counts and symbols denotes. */
  function TableOf(bits: seq<nat>, values: seq<nat>): Table {
    Table(bits, seq(|Sizes(bits)|, j requires 0 <= j < |Sizes(bits)| =>
      if |bits| == MAX_LEN then Stored(Sizes(bits), j) else 0), values)
  }

  predicate BadDcSymbol(cls: nat, values: seq<nat>) {
    cls == 0 && exists k :: 0 <= k < |values| && values[k] > 11
  }

  /** What a DHT segment denotes: its tables in order, or the first error. */
  function ParseDht(data: seq<nat>, pool: nat, huff: Tables): Parsed
    decreases |data|
  {
    if data == [] then Parsed(JDR_OK, pool, huff)
    else
      var one := ParseTable(data, pool, huff);
      if one.rc != JDR_OK then one else ParseDht(data[17 + Sum(data[1..17])..], one.pool, one.huff)
  }

  /** Parsing the first table of a segment. */
  function ParseTable(data: seq<nat>, pool: nat, huff: Tables): (p: Parsed)
    requires data != []
    ensures p.rc == JDR_OK ==> |data| >= 17 && 17 + Sum(data[1..17]) <= |data|
  {
    if |data| < 17 || And(data[0], 0xEE) != 0 then Parsed(JDR_FMT1, pool, huff)
    else if pool < 16 then Parsed(JDR_MEM1, pool, huff)
    else ParseCodes(data, data[0] / 16, And(data[0], 0x0F), pool - 16, huff)
  }

  /** The codes and symbols of it, after its sixteen counts. */
  function ParseCodes(data: seq<nat>, cls: nat, num: nat, pool: nat, huff: Tables): (p: Parsed)
    requires |data| >= 17
    ensures p.rc == JDR_OK ==> 17 + Sum(data[1..17]) <= |data|
  {
    var np := Sum(data[1..17]);
    if pool < Align4(2 * np) then Parsed(JDR_MEM1, pool, huff)
    else
      var room := pool - Align4(2 * np);
      if |data| - 17 < np then Parsed(JDR_FMT1, room, huff)
      else if room < Align4(np) then Parsed(JDR_MEM1, room, huff)
      else
        var values := data[17..17 + np];
        if BadDcSymbol(cls, values) then Parsed(JDR_FMT1, room - Align4(np), huff)
        else Parsed(JDR_OK, room - Align4(np), huff[(num, cls) := TableOf(data[1..17], values)])
  }

  predicate Bytes(s: seq<nat>) {
    forall k :: 0 <= k < |s| ==> s[k] < 256
  }

  lemma {:induction false} SumBound(s: seq<nat>)
    requires Bytes(s)
    ensures Sum(s) <= 255 * |s|
  {
    if s != [] { SumBound(s[..|s| - 1]); }
  }

  class TableStore {
    /** Where the free memory begins, and how much there is. */
    var pool: nat
    var szPool: nat
    var huff: Tables

    constructor (at: nat, size: nat)
      ensures pool == at && szPool == size && huff == map[]
    {
      pool, szPool, huff := at, size, map[];
    }

    /** A block of whole words, right after the one before it. */
    method AllocPool(nd: nat) returns (ok: bool, rp: nat)
      modifies `szPool, `pool
      ensures ok == (Align4(nd) <= old(szPool))
      ensures szPool == if ok then old(szPool) - Align4(nd) else old(szPool)
      ensures ok ==> rp == old(pool) && pool == rp + Align4(nd)
      ensures !ok ==> pool == old(pool)
    {
      var size := Align4(nd);
      rp, ok := 0, szPool >= size;
      if ok {
        rp := pool;
        szPool, pool := szPool - size, rp + size;
      }
    }

    method CreateHuffmanTbl(data: seq<nat>) returns (rc: int)
      requires Bytes(data)
      modifies this
      ensures Parsed(rc, szPool, huff) == ParseDht(data, old(szPool), old(huff))
    {
      ghost var goal := ParseDht(data, szPool, huff);
      var rest := data;
      while rest != []
        invariant Bytes(rest)
        invariant ParseDht(rest, szPool, huff) == goal
        decreases |rest|
      {
        rc, rest := CreateOne(rest);
        if rc != JDR_OK { return rc; }
      }
      return JDR_OK;
    }

    /** One table of the segment; `rest` is what follows it. */
    method CreateOne(data: seq<nat>) returns (rc: int, rest: seq<nat>)
      requires data != [] && Bytes(data)
      modifies this
      ensures Parsed(rc, szPool, huff) == ParseTable(data, old(szPool), old(huff))
      ensures rc == JDR_OK ==> rest == data[17 + Sum(data[1..17])..]
    {
      rest := [];
      if |data| < 17 { return JDR_FMT1, []; }
      var d := data[0];
      if And(d, 0xEE) != 0 { return JDR_FMT1, []; }
      var cls, num := d / 16, And(d, 0x0F);
      var ok, rp := AllocPool(16);
      if !ok { return JDR_MEM1, []; }
      var pb := new nat[16](i requires 0 <= i < 16 => data[1 + i]);
      var np := LoadCounts(pb, data[1..17]);
      rc := CreateCodes(data, cls, num, pb, np);
      if rc == JDR_OK { rest := data[17 + np..]; }
    }

    /** The code words and symbols of a table with these counts. */
    method CreateCodes(data: seq<nat>, cls: nat, num: nat, pb: array<nat>, np: nat) returns (rc: int)
      requires |data| >= 17 && Bytes(data) && pb.Length == 16 && pb[..] == data[1..17] && np == Sum(data[1..17])
      modifies this
      ensures Parsed(rc, szPool, huff) == ParseCodes(data, cls, num, old(szPool), old(huff))
    {
      var ok, rp := AllocPool(2 * np);
      if !ok { return JDR_MEM1; }
      var ph := BuildCodes(pb[..], np);
      if |data| - 17 < np { return JDR_FMT1; }
      ok, rp := AllocPool(np);
      if !ok { return JDR_MEM1; }
      var bad := LoadSymbols(cls, data[17..17 + np]);
      if bad { return JDR_FMT1; }
      ghost var t := TableOf(data[1..17], data[17..17 + np]);
      assert ph[..] == t.code;
      huff := huff[(num, cls) := Table(pb[..], ph[..], data[17..17 + np])];
      rc := JDR_OK;
    }

    /** Copies the sixteen counts and adds them up in a 16-bit variable. */
    static method LoadCounts(pb: array<nat>, counts: seq<nat>) returns (np: nat)
      requires pb.Length == |counts| == 16 && Bytes(counts)
      modifies pb
      ensures pb[..] == counts && np == Sum(counts)
    {
      np := 0;
      for i := 0 to 16
        invariant np == Sum(counts[..i])
        invariant pb[..i] == counts[..i]
      {
        pb[i] := counts[i];
        assert counts[..i + 1][..i] == counts[..i];
        SumBound(counts[..i + 1]);
        np := U16(np + counts[i]);
      }
      assert counts[..16] == counts;
    }

    /** The symbols of a DC table are bit lengths up to 11. */
    static method LoadSymbols(cls: nat, values: seq<nat>) returns (bad: bool)
      ensures bad == BadDcSymbol(cls, values)
    {
      for i := 0 to |values|
        invariant !BadDcSymbol(cls, values[..i])
      {
        if cls == 0 && values[i] > 11 { return true; }
        assert values[..i + 1] == values[..i] + [values[i]];
      }
      assert values[..|values|] == values;
      return false;
    }
  }

  // ----- a segment written from definitions is read back as those definitions -----

  datatype Def = Def(cls: nat, num: nat, bits: seq<nat>, values: seq<nat>)

  ghost predicate ValidDef(d: Def) {
    && d.cls < 2 && d.num < 2
    && |d.bits| == MAX_LEN && Bytes(d.bits)
    && Bytes(d.values) && |d.values| == Sum(d.bits)
    && !BadDcSymbol(d.cls, d.values)
  }

  /** The bytes of a DHT segment for these tables (section B.2.4.2 of ITU-T T.81). */
  function Segment(defs: seq<Def>): seq<nat> {
    if defs == [] then []
    else [16 * defs[0].cls + defs[0].num] + defs[0].bits + defs[0].values + Segment(defs[1..])
  }

  function PoolNeed(defs: seq<Def>): nat {
    if defs == [] then 0
    else Used(defs[0]) + PoolNeed(defs[1..])
  }

  /** The tables after the definitions, a later one replacing an earlier one of the same name. */
  function Installed(defs: seq<Def>, huff: Tables): Tables {
    if defs == [] then huff
    else Installed(defs[1..], huff[(defs[0].num, defs[0].cls) := TableOf(defs[0].bits, defs[0].values)])
  }

  lemma HeaderBits(cls: nat, num: nat)
    requires cls < 2 && num < 2
    ensures And(16 * cls + num, 0xEE) == 0
    ensures And(16 * cls + num, 0x0F) == num
  {
    AndMask(16 * cls + num, 4);
    assert Pow2(4) == 16;
    HighBits(cls, num);
  }

  lemma HighBits(cls: nat, num: nat)
    requires cls < 2 && num < 2
    ensures And(16 * cls + num, 0xEE) == 0
  {
    assert And(0, 0x0E) == 0 && And(1, 0x0E) == 0;
    var x := 16 * cls + num;
    assert And(x / 2 / 2 / 2 / 2, 0xEE / 2 / 2 / 2 / 2) == And(cls, 0xE);
    assert And(x / 2 / 2 / 2, 0xEE / 2 / 2 / 2) == 0;
    assert And(x / 2 / 2, 0xEE / 2 / 2) == 0;
    assert And(x / 2, 0xEE / 2) == 0;
  }

  function Used(d: Def): nat {
    16 + Align4(2 * |d.values|) + Align4(|d.values|)
  }

  lemma ParseOne(d: Def, rest: seq<nat>, pool: nat, huff: Tables)
    requires ValidDef(d)
    ensures ParseDht([16 * d.cls + d.num] + d.bits + d.values + rest, pool, huff) ==
            if pool < 16 then Parsed(JDR_MEM1, pool, huff)
            else if pool < 16 + Align4(2 * |d.values|) then Parsed(JDR_MEM1, pool - 16, huff)
            else if pool < Used(d) then Parsed(JDR_MEM1, pool - 16 - Align4(2 * |d.values|), huff)
            else ParseDht(rest, pool - Used(d), huff[(d.num, d.cls) := TableOf(d.bits, d.values)])
  {
    var data, np := [16 * d.cls + d.num] + d.bits + d.values + rest, |d.values|;
    HeaderBits(d.cls, d.num);
    assert data[0] / 16 == d.cls;
    assert data[1..17] == d.bits;
    assert data[17..17 + np] == d.values;
    assert data[17 + np..] == rest;
  }

  lemma {:induction false} DhtRoundTrip(defs: seq<Def>, pool: nat, huff: Tables)
    requires forall k :: 0 <= k < |defs| ==> ValidDef(defs[k])
    ensures pool >= PoolNeed(defs) ==>
              ParseDht(Segment(defs), pool, huff) == Parsed(JDR_OK, pool - PoolNeed(defs), Installed(defs, huff))
    ensures pool < PoolNeed(defs) ==> ParseDht(Segment(defs), pool, huff).rc == JDR_MEM1
  {
    if defs != [] {
      var d := defs[0];
      ParseOne(d, Segment(defs[1..]), pool, huff);
      if pool >= Used(d) {
        DhtRoundTrip(defs[1..], pool - Used(d), huff[(d.num, d.cls) := TableOf(d.bits, d.values)]);
      }
    }
  }

  /** With memory enough, a segment of one table is refused only for a DC symbol above 11, and otherwise
      installs the table under its number and class and nothing else. */
  lemma OneTable(cls: nat, num: nat, bits: seq<nat>, values: seq<nat>, pool: nat, huff: Tables)
    requires cls < 2 && num < 2 && |bits| == 16 && Bytes(bits) && |values| == Sum(bits) && pool >= 3 * |values| + 22
    ensures var p := ParseDht([16 * cls + num] + bits + values, pool, huff);
      && (p.rc == JDR_OK <==> cls == 1 || forall k :: 0 <= k < |values| ==> values[k] <= 11)
      && (p.rc == JDR_OK ==> p.huff == huff[(num, cls) := TableOf(bits, values)] && pool - p.pool >= 16 + 3 * |values|)
      && (p.rc != JDR_OK ==> p.rc == JDR_FMT1 && p.huff == huff)
  {
    var data, np := [16 * cls + num] + bits + values, |values|;
    HeaderBits(cls, num);
    assert data[0] / 16 == cls && data[1..17] == bits && data[17..17 + np] == values;
    assert data[17 + np..] == [];
  }

  /** A table that is cut off is refused, wherever it is cut. */
  lemma CutTable(cls: nat, num: nat, bits: seq<nat>, part: seq<nat>, n: nat, pool: nat, huff: Tables)
    requires cls < 2 && num < 2 && |bits| == 16 && |part| < Sum(bits) && pool >= 2 * Sum(bits) + 19 && 0 < n <= 17 + |part|
    ensures ParseDht(([16 * cls + num] + bits + part)[..n], pool, huff).rc == JDR_FMT1
  {
    var data := ([16 * cls + num] + bits + part)[..n];
    HeaderBits(cls, num);
    assert data[0] == 16 * cls + num;
    if n >= 17 { assert data[1..17] == bits; }
  }

  /** A table read from a segment is usable exactly when its counts satisfy the Kraft inequality. */
  lemma InstalledUsable(bits: seq<nat>, values: seq<nat>)
    requires |bits| == MAX_LEN && |values| == Sum(bits)
    ensures WellFormed(TableOf(bits, values))
    ensures Canonical(TableOf(bits, values)) <==> CodesFit(Sizes(bits)) && PrefixFree(Sizes(bits))
  {
    SizesLength(bits);
    UsableIffKraft(Sizes(bits));
    if Kraft(Sizes(bits)) <= SPACE {
      forall j | 0 <= j < |Sizes(bits)| ensures Stored(Sizes(bits), j) == CodeOf(Sizes(bits), j) {
        FitsUnderKraft(Sizes(bits), j);
      }
    }
  }
}
