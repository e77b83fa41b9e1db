/** The coefficients of a block: decoding them as mcu_load does, encoding them as sections F.1.2.1
    and F.1.2.2 of ITU-T T.81 prescribe, and the round trip between the two. */
module Entropy {
  import opened Machine
  import opened BitStream
  import opened Sequences
  import opened Chain
  import opened Huffman
  import opened HuffmanBuild
  import opened BitReader
  import opened BitMeaning

  /** Zigzag order to raster order (the table of the decoder). */
  function Zig(n: nat): (z: nat)
    requires n < 64
    ensures z < 64
  {
    match n
    case 0 => 0 case 1 => 1 case 2 => 8 case 3 => 16 case 4 => 9 case 5 => 2 case 6 => 3 case 7 => 10
    case 8 => 17 case 9 => 24 case 10 => 32 case 11 => 25 case 12 => 18 case 13 => 11 case 14 => 4 case 15 => 5
    case 16 => 12 case 17 => 19 case 18 => 26 case 19 => 33 case 20 => 40 case 21 => 48 case 22 => 41 case 23 => 34
    case 24 => 27 case 25 => 20 case 26 => 13 case 27 => 6 case 28 => 7 case 29 => 14 case 30 => 21 case 31 => 28
    case 32 => 35 case 33 => 42 case 34 => 49 case 35 => 56 case 36 => 57 case 37 => 50 case 38 => 43 case 39 => 36
    case 40 => 29 case 41 => 22 case 42 => 15 case 43 => 23 case 44 => 30 case 45 => 37 case 46 => 44 case 47 => 51
    case 48 => 58 case 49 => 59 case 50 => 52 case 51 => 45 case 52 => 38 case 53 => 31 case 54 => 39 case 55 => 46
    case 56 => 53 case 57 => 60 case 58 => 61 case 59 => 54 case 60 => 47 case 61 => 55 case 62 => 62 case _ => 63
  }

  /** Raster order to zigzag order. */
  function Zag(z: nat): (n: nat)
    requires z < 64
    ensures n < 64
  {
    match z
    case 0 => 0 case 1 => 1 case 2 => 5 case 3 => 6 case 4 => 14 case 5 => 15 case 6 => 27 case 7 => 28
    case 8 => 2 case 9 => 4 case 10 => 7 case 11 => 13 case 12 => 16 case 13 => 26 case 14 => 29 case 15 => 42
    case 16 => 3 case 17 => 8 case 18 => 12 case 19 => 17 case 20 => 25 case 21 => 30 case 22 => 41 case 23 => 43
    case 24 => 9 case 25 => 11 case 26 => 18 case 27 => 24 case 28 => 31 case 29 => 40 case 30 => 44 case 31 => 53
    case 32 => 10 case 33 => 19 case 34 => 23 case 35 => 32 case 36 => 39 case 37 => 45 case 38 => 52 case 39 => 54
    case 40 => 20 case 41 => 22 case 42 => 33 case 43 => 38 case 44 => 46 case 45 => 51 case 46 => 55 case 47 => 60
    case 48 => 21 case 49 => 34 case 50 => 37 case 51 => 47 case 52 => 50 case 53 => 56 case 54 => 59 case 55 => 61
    case 56 => 35 case 57 => 36 case 58 => 48 case 59 => 49 case 60 => 57 case 61 => 58 case 62 => 62 case _ => 63
  }

  lemma ZigInverse(k: nat)
    requires k < 64
    ensures Zag(Zig(k)) == k
  {
  }

  lemma ZagInverse(z: nat)
    requires z < 64
    ensures Zig(Zag(z)) == z
  {
    if z < 32 { ZagInverseLow(z); } else { ZagInverseHigh(z); }
  }

  lemma ZagInverseLow(z: nat)
    requires z < 32
    ensures Zig(Zag(z)) == z
  {
  }

  lemma ZagInverseHigh(z: nat)
    requires 32 <= z < 64
    ensures Zig(Zag(z)) == z
  {
  }

  /** The place after (row, column) of a zigzag walk over eight rows and columns (Figure A.6 of ITU-T T.81):
      along the diagonals, up on the even and down on the odd ones, and along the border between them. */
  function Walked(row: nat, column: nat): (nat, nat)
    requires row < 8 && column < 8
  {
    if (row + column) % 2 == 0 then
      if column == 7 then (row + 1, column) else if row == 0 then (row, column + 1) else (row - 1, column + 1)
    else
      if row == 7 then (row, column + 1) else if column == 0 then (row + 1, column) else (row + 1, column - 1)
  }

  /** The table is the zigzag walk. */
  lemma ZigWalks(n: nat)
    requires n < 63
    ensures Zig(0) == 0
    ensures (Zig(n + 1) / 8, Zig(n + 1) % 8) == Walked(Zig(n) / 8, Zig(n) % 8)
  {
    if n < 20 { ZigWalksFirst(n); } else if n < 42 { ZigWalksMiddle(n); } else { ZigWalksLast(n); }
  }

  lemma ZigWalksFirst(n: nat)
    requires n < 20
    ensures (Zig(n + 1) / 8, Zig(n + 1) % 8) == Walked(Zig(n) / 8, Zig(n) % 8)
  {
  }

  lemma ZigWalksMiddle(n: nat)
    requires 20 <= n < 42
    ensures (Zig(n + 1) / 8, Zig(n + 1) % 8) == Walked(Zig(n) / 8, Zig(n) % 8)
  {
  }

  lemma ZigWalksLast(n: nat)
    requires 42 <= n < 63
    ensures (Zig(n + 1) / 8, Zig(n + 1) % 8) == Walked(Zig(n) / 8, Zig(n) % 8)
  {
  }

  /** A product of 32-bit integers, descaled by 8 bits. */
  function Dequantize(d: int, q: int): int {
    I32(d * q) / 256
  }

  /** The coefficients in raster order, dequantized. */
  function Raster(zz: seq<int>, dqf: seq<int>): (tmp: seq<int>)
    requires |zz| == |dqf| == 64
    ensures |tmp| == 64
  {
    seq(64, z requires 0 <= z < 64 => Dequantize(zz[Zag(z)], dqf[z]))
  }

  /** Storing one coefficient at its raster position. */
  lemma RasterUpdate(zz: seq<int>, dqf: seq<int>, j: nat, v: int)
    requires |zz| == |dqf| == 64 && j < 64
    ensures Raster(zz[j := v], dqf) == Raster(zz, dqf)[Zig(j) := Dequantize(v, dqf[Zig(j)])]
  {
    ZigInverse(j);
    forall z | 0 <= z < 64 && z != Zig(j) ensures Zag(z) != j {
      ZagInverse(z);
    }
  }

  /** Every coefficient lands at the raster position of its zigzag index, times the factor of that
      position and divided by 256, rounded down, if the product fits 32 bits. */
  lemma RasterAt(zz: seq<int>, dqf: seq<int>, j: nat)
    requires |zz| == |dqf| == 64 && j < 64
    ensures Raster(zz, dqf)[Zig(j)] == Dequantize(zz[j], dqf[Zig(j)])
    ensures var x := zz[j] * dqf[Zig(j)];
      -0x8000_0000 <= x < 0x8000_0000 ==> 256 * Raster(zz, dqf)[Zig(j)] <= x < 256 * Raster(zz, dqf)[Zig(j)] + 256
  {
    ZigInverse(j);
  }

  // ----- signed values of a given bit length -----

  /** The number of bits of a magnitude. */
  function BitLength(n: nat): nat {
    if n == 0 then 0 else 1 + BitLength(n / 2)
  }

  /** The category of a coefficient (SSSS, Tables F.1 and F.2 of ITU-T T.81). */
  function Category(v: int): nat {
    BitLength(if v < 0 then -v else v)
  }

  /** Its additional bits, as an unsigned number of that many bits. */
  function Additional(v: int): int {
    if v > 0 then v else v + Pow2(Category(v)) - 1
  }

  /** The decoder's way back: a value whose top bit is clear stands for a negative one. */
  function Restore(e: nat, b: nat): int
    requires b > 0
  {
    var m := Pow2(b - 1);
    if And(e, m) != 0 then e else e - (2 * m - 1)
  }

  lemma {:induction false} BitLengthBounds(n: nat)
    requires n > 0
    ensures BitLength(n) > 0
    ensures Pow2(BitLength(n) - 1) <= n < Pow2(BitLength(n))
  {
    if n > 1 { BitLengthBounds(n / 2); }
  }

  lemma {:induction false} TopBit(e: nat, b: nat)
    requires b > 0 && e < Pow2(b)
    ensures And(e, Pow2(b - 1)) != 0 <==> e >= Pow2(b - 1)
  {
    if b == 1 {
      assert e == 0 || And(1, 1) == 1;
    } else {
      TopBit(e / 2, b - 1);
      assert Pow2(b - 1) / 2 == Pow2(b - 2);
      if e > 0 { assert And(e, Pow2(b - 1)) == 2 * And(e / 2, Pow2(b - 2)); }
    }
  }

  /** Restoring the sign is the EXTEND procedure (Figure F.12 of ITU-T T.81): the upper half of the range
      stands for itself, the lower half for the negative values. */
  lemma RestoreExtends(e: nat, b: nat)
    requires b > 0 && e < Pow2(b)
    ensures Restore(e, b) == if e >= Pow2(b - 1) then e else e - Pow2(b) + 1
  {
    TopBit(e, b);
  }

  /** The decoder restores exactly the value whose additional bits it read. */
  lemma RestoreAdditional(v: int)
    requires v != 0
    ensures Category(v) > 0 && 0 <= Additional(v) < Pow2(Category(v))
    ensures Restore(Additional(v), Category(v)) == v
  {
    BitLengthBounds(if v < 0 then -v else v);
    TopBit(Additional(v), Category(v));
  }

  // ----- decoding -----

  /** Zigzag index of the first AC coefficient. */
  const FIRST: nat := 1

  /** What decoding a block yields: an error code or JDR_OK, the coefficients in zigzag order, the
      DC value kept for the next block, and the place reached. */
  datatype Block = Block(rc: int, zz: seq<int>, dcv: int, p: Pos)

  /** A block with only its DC coefficient set. */
  function DcOnly(d: int): (zz: seq<int>)
    ensures |zz| == 64 && zz[0] == d
    ensures forall i :: 0 < i < 64 ==> zz[i] == 0
  {
    seq(64, i => if i == 0 then d else 0)
  }

  /** A signed value read, or a negative error code. */
  datatype Signed = Amount(v: int, p: Pos) | Failed(rc: int)

  /** The two reads of a decoding loop: a symbol of one table, and a value of `n` additional bits. */
  datatype Reads = Reads(symbol: Pos -> Got, value: (Pos, nat) -> Signed)

  function ReadSigned(stream: seq<nat>, p: Pos, n: nat): Signed {
    var e := ReadBits(stream, p, n, NONE);
    if e.v < 0 then Failed(e.v)
    else if n == 0 then Amount(0, e.p)
    else Amount(Restore(e.v, n), e.p)
  }

  function ReadsOf(stream: seq<nat>, t: Table): Reads {
    Reads(p => if Shaped(t) then Symbol(stream, p, t) else Got(-JDR_FMT1, p),
          (p: Pos, n: nat) => ReadSigned(stream, p, n))
  }

  /** One round of the AC loop: end of block, an error, a run of zeros, or a coefficient after a run. */
  datatype AcStep = EndOfBlock(p: Pos) | Broken(rc: int, p: Pos) | Skip(next: nat, p: Pos) | Coefficient(j: nat, v: int, p: Pos)

  function ReadAc(rd: Reads, p: Pos, i: nat): (s: AcStep)
    ensures s.Skip? ==> i < s.next
    ensures s.Coefficient? ==> i <= s.j < 64
  {
    var g := rd.symbol(p);
    if g.v < 0 then Broken(-g.v, p)
    else if g.v == 0 then EndOfBlock(g.p)
    else
      var j := i + g.v / 16;
      var b := g.v % 16;
      if j >= 64 then Broken(JDR_FMT1, g.p)
      else if b == 0 then Skip(j + 1, g.p)
      else match rd.value(g.p, b)
        case Failed(rc) => Broken(-rc, g.p)
        case Amount(v, q) => Coefficient(j, v, q)
  }

  /** A symbol holds the run of zeros in its high half and the number of bits of the value in its low half
      (section F.1.2.2.1 of ITU-T T.81). */
  lemma AcSymbols(rd: Reads, p: Pos, i: nat, q: Pos, run: nat, size: nat)
    requires i < 64 && run < 16 && size < 16 && rd.symbol(p) == Got(16 * run + size, q)
    ensures run == size == 0 ==> ReadAc(rd, p, i) == EndOfBlock(q)
    ensures run == 15 && size == 0 && i + 15 < 64 ==> ReadAc(rd, p, i) == Skip(i + 16, q)
    ensures size > 0 && i + run < 64 ==>
      ReadAc(rd, p, i) == match rd.value(q, size) case Failed(rc) => Broken(-rc, q) case Amount(v, end) => Coefficient(i + run, v, end)
    ensures (run > 0 || size > 0) && i + run >= 64 ==> ReadAc(rd, p, i) == Broken(JDR_FMT1, q)
  {
    ModUnique(16 * run + size, 16, run, size);
  }

  /** The AC coefficients from zigzag index `i` on. */
  function DecodeAc(rd: Reads, p: Pos, i: nat, zz: seq<int>, dcv: int): Block
    requires |zz| == 64
    decreases 64 - i
  {
    if i >= 64 then Block(JDR_OK, zz, dcv, p)
    else match ReadAc(rd, p, i)
      case EndOfBlock(q) => Block(JDR_OK, zz, dcv, q)
      case Broken(rc, q) => Block(rc, zz, dcv, q)
      case Skip(n, q) => DecodeAc(rd, q, n, zz, dcv)
      case Coefficient(j, v, q) => DecodeAc(rd, q, j + 1, zz[j := v], dcv)
  }

  /** The DC coefficient and the 16 bits of it that are kept, or an error code. */
  datatype DcRead = DcIs(d: int, dcv: int, p: Pos) | DcFailed(rc: int, p: Pos)

  /** The DC coefficient is coded as a difference to `prev`. */
  function DecodeDc(dc: Reads, p: Pos, prev: int): DcRead {
    var g := dc.symbol(p);
    if g.v < 0 then DcFailed(-g.v, p)
    else if g.v == 0 then DcIs(prev, prev, g.p)
    else match dc.value(g.p, g.v)
      case Failed(rc) => DcFailed(-rc, g.p)
      case Amount(v, q) => DcIs(prev + v, I16(prev + v), q)
  }

  function DecodeBlock(dc: Reads, ac: Reads, p: Pos, prev: int): Block {
    match DecodeDc(dc, p, prev)
    case DcFailed(rc, q) => Block(rc, [], prev, q)
    case DcIs(d, dcv, q) => DecodeAc(ac, q, FIRST, DcOnly(d), dcv)
  }

  // ----- encoding -----

  /** A symbol, and the value whose additional bits follow it when its low half is not zero. */
  datatype Token = Token(sym: nat, v: int)

  function Categories(zz: seq<int>): (cat: seq<nat>)
    ensures |cat| == |zz|
  {
    seq(|zz|, i requires 0 <= i < |zz| => Category(zz[i]))
  }

  /** The AC coefficients from zigzag index `k` on, after a run of `r` zeros, as symbols and values
      (Figure F.2 of ITU-T T.81). */
  function AcTokens(zz: seq<int>, cat: seq<nat>, k: nat, r: nat): seq<Token>
    requires |zz| == |cat| == 64
    decreases 64 - k, r
  {
    if k >= 64 then (if r == 0 then [] else [Token(0, 0)])
    else if zz[k] == 0 then AcTokens(zz, cat, k + 1, r + 1)
    else if r >= 16 then [Token(0xF0, 0)] + AcTokens(zz, cat, k, r - 16)
    else [Token(16 * r + cat[k], zz[k])] + AcTokens(zz, cat, k + 1, NONE)
  }

  function AcCode(zz: seq<int>): seq<Token>
    requires |zz| == 64
  {
    AcTokens(zz, Categories(zz), FIRST, NONE)
  }

  /** The DC coefficient, as the category and the value of its difference to `prev`. */
  function DcCode(zz: seq<int>, prev: int): Token
    requires |zz| == 64
  {
    Token(Category(zz[0] - prev), zz[0] - prev)
  }

  /** The code word of a symbol. */
  function CodeFor(t: Table, s: nat): seq<bool>
    requires WellFormed(t)
  {
    if s in t.data then Word(Sizes(t.bits), IndexOf(t.data, s)) else []
  }

  function IndexOf(data: seq<nat>, s: nat): (k: nat)
    requires s in data
    ensures k < |data| && data[k] == s
  {
    if data[0] == s then 0 else 1 + IndexOf(data[1..], s)
  }

  /** A token as bits: the code word, then as many additional bits as the value has. */
  function TokenBits(t: Table, tok: Token): seq<bool>
    requires WellFormed(t)
  {
    CodeFor(t, tok.sym) + (if tok.v != 0 && Additional(tok.v) >= 0 then BitsOf(Additional(tok.v), Category(tok.v)) else [])
  }

  ghost function TokenCoder(t: Table): Token -> seq<bool> {
    tok => if WellFormed(t) then TokenBits(t, tok) else []
  }

  ghost function Emit(t: Table, toks: seq<Token>): seq<bool>
    requires WellFormed(t)
  {
    Concat(TokenCoder(t), toks)
  }

  /** A block in zigzag order (sections F.1.2.1 and F.1.2.2 of ITU-T T.81). */
  ghost function EncodeBlock(dct: Table, act: Table, zz: seq<int>, prev: int): seq<bool>
    requires WellFormed(dct) && WellFormed(act) && |zz| == 64
  {
    TokenBits(dct, DcCode(zz, prev)) + Emit(act, AcCode(zz))
  }

  ghost predicate WellCoded(tok: Token) {
    Category(tok.v) == tok.sym % 16
  }

  /** Every symbol of the tokens is in the table, and every value fits its additional bits. */
  ghost predicate Covers(t: Table, toks: seq<Token>) {
    forall k :: 0 <= k < |toks| ==> toks[k].sym in t.data && WellCoded(toks[k])
  }

  // ----- the round trip -----

  /** Tables as create_huffman_tbl builds them from counts that satisfy the Kraft inequality. */
  ghost predicate Usable(t: Table) {
    Canonical(t) && Shaped(t)
  }

  /** The reader at `p` has exactly `bits` before it, ending as `stop` says. */
  ghost predicate Ahead(stream: seq<nat>, p: Pos, bits: seq<bool>, stop: Stop) {
    p.next <= |stream| && View(stream, p) == Source(bits, stop)
  }

  lemma DecodeCode(stream: seq<nat>, p: Pos, t: Table, s: nat, rest: seq<bool>, stop: Stop)
    requires Usable(t) && s in t.data
    requires Ahead(stream, p, CodeFor(t, s) + rest, stop)
    ensures Symbol(stream, p, t).v == s && Ahead(stream, Symbol(stream, p, t).p, rest, stop)
  {
    var k, w := IndexOf(t.data, s), CodeFor(t, s);
    assert |w| == Sizes(t.bits)[k];
    SearchFindsWord(t, k, w + rest);
    SymbolMeans(stream, p, t);
    assert (w + rest)[|w|..] == rest;
  }

  lemma DecodeAdditional(stream: seq<nat>, p: Pos, v: int, rest: seq<bool>, stop: Stop)
    requires v != 0 && Category(v) <= 16 && Additional(v) >= 0
    requires Ahead(stream, p, BitsOf(Additional(v), Category(v)) + rest, stop)
    ensures var e := ReadSigned(stream, p, Category(v));
      e.Amount? && e.v == v && Ahead(stream, e.p, rest, stop)
  {
    RestoreAdditional(v);
    ReadsExactly(stream, p, BitsOf(Additional(v), Category(v)), rest, stop);
    ValueOfBits(Additional(v), Category(v));
  }

  /** The bits ahead of others are read as their value. */
  lemma ReadsExactly(stream: seq<nat>, p: Pos, b: seq<bool>, rest: seq<bool>, stop: Stop)
    requires 0 < |b| <= 16 && Ahead(stream, p, b + rest, stop)
    ensures var e := ReadBits(stream, p, |b|, NONE);
      e.v == Value(b) && Ahead(stream, e.p, rest, stop)
  {
    ReadBitsMeans(stream, p, |b|, []);
    assert [] + (b + rest)[..|b|] == b && (b + rest)[|b|..] == rest;
  }

  /** Reading token `tok` leads from `p` to `q`. */
  ghost predicate ReadsAs(rd: Reads, p: Pos, tok: Token, q: Pos) {
    var g := rd.symbol(p);
    g.v == tok.sym && (if tok.sym % 16 == 0 then g.p == q else rd.value(g.p, tok.sym % 16) == Amount(tok.v, q))
  }

  ghost predicate TokenAt(stream: seq<nat>, t: Table, p: Pos, tok: Token, q: Pos)
    requires Shaped(t)
  {
    var g := Symbol(stream, p, t);
    g.v == tok.sym && (if tok.sym % 16 == 0 then g.p == q else ReadSigned(stream, g.p, tok.sym % 16) == Amount(tok.v, q))
  }

  lemma TokenAtReads(stream: seq<nat>, t: Table, p: Pos, tok: Token, q: Pos)
    requires Shaped(t) && TokenAt(stream, t, p, tok, q)
    ensures ReadsAs(ReadsOf(stream, t), p, tok, q)
  {
  }

  /** A token written with a table is read back with that table. */
  lemma DecodeToken(stream: seq<nat>, p: Pos, t: Table, tok: Token, rest: seq<bool>, stop: Stop) returns (q: Pos)
    requires Usable(t) && tok.sym in t.data && WellCoded(tok)
    requires Ahead(stream, p, TokenBits(t, tok) + rest, stop)
    ensures TokenAt(stream, t, p, tok, q) && Ahead(stream, q, rest, stop)
  {
    if tok.v == 0 {
      assert TokenBits(t, tok) == CodeFor(t, tok.sym);
      DecodeCode(stream, p, t, tok.sym, rest, stop);
      q := Symbol(stream, p, t).p;
    } else {
      q := DecodeValue(stream, p, t, tok, rest, stop);
    }
  }

  lemma DecodeValue(stream: seq<nat>, p: Pos, t: Table, tok: Token, rest: seq<bool>, stop: Stop) returns (q: Pos)
    requires Usable(t) && tok.sym in t.data && WellCoded(tok) && tok.v != 0
    requires Ahead(stream, p, TokenBits(t, tok) + rest, stop)
    ensures TokenAt(stream, t, p, tok, q) && Ahead(stream, q, rest, stop)
  {
    var extra := TokenSplits(t, tok, rest);
    DecodeCode(stream, p, t, tok.sym, extra + rest, stop);
    var g := Symbol(stream, p, t);
    DecodeAdditional(stream, g.p, tok.v, rest, stop);
    q := ReadSigned(stream, g.p, Category(tok.v)).p;
  }

  lemma TokenSplits(t: Table, tok: Token, rest: seq<bool>) returns (extra: seq<bool>)
    requires WellFormed(t) && WellCoded(tok) && tok.v != 0
    ensures 0 < Category(tok.v) == tok.sym % 16 && Additional(tok.v) >= 0
    ensures extra == BitsOf(Additional(tok.v), Category(tok.v))
    ensures TokenBits(t, tok) + rest == CodeFor(t, tok.sym) + (extra + rest)
  {
    RestoreAdditional(tok.v);
    extra := BitsOf(Additional(tok.v), Category(tok.v));
    assert TokenBits(t, tok) == CodeFor(t, tok.sym) + extra;
  }

  ghost function TokenReader(rd: Reads): (Pos, Token, Pos) -> bool {
    (p, tok, q) => ReadsAs(rd, p, tok, q)
  }

  /** The reads go through the places `ps`, giving the tokens one after the other. */
  ghost predicate Follows(rd: Reads, toks: seq<Token>, ps: seq<Pos>) {
    Chained(TokenReader(rd), toks, ps)
  }

  ghost function Before(stream: seq<nat>, stop: Stop): (Pos, seq<bool>) -> bool {
    (p, bits) => Ahead(stream, p, bits, stop)
  }

  /** Wherever a token written with a table lies ahead, it is read. */
  lemma TokensReadable(stream: seq<nat>, t: Table, toks: seq<Token>, stop: Stop)
    requires Usable(t) && Covers(t, toks)
    ensures Readable(TokenCoder(t), TokenReader(ReadsOf(stream, t)), Before(stream, stop), toks)
  {
    var code, reads1, ahead := TokenCoder(t), TokenReader(ReadsOf(stream, t)), Before(stream, stop);
    forall p, k, tail | 0 <= k < |toks| && ahead(p, code(toks[k]) + tail)
      ensures exists q :: Reached(reads1, ahead, p, toks[k], q, tail)
    {
      var q := DecodeToken(stream, p, t, toks[k], tail, stop);
      TokenAtReads(stream, t, p, toks[k], q);
      assert Reached(reads1, ahead, p, toks[k], q, tail);
    }
  }

  /** Any tokens a table covers, written with it, are read back in order. */
  lemma EmitFollows(stream: seq<nat>, p: Pos, t: Table, toks: seq<Token>, rest: seq<bool>, stop: Stop)
    returns (ps: seq<Pos>)
    requires Usable(t) && Covers(t, toks)
    requires Ahead(stream, p, Emit(t, toks) + rest, stop)
    ensures Follows(ReadsOf(stream, t), toks, ps)
    ensures ps[0] == p && Ahead(stream, ps[|toks|], rest, stop)
  {
    TokensReadable(stream, t, toks, stop);
    ps := ChainRoundTrip(TokenCoder(t), TokenReader(ReadsOf(stream, t)), Before(stream, stop), toks, p, rest);
  }

  lemma NextToken<T>(toks: seq<T>, m: nat, tok: T, tail: seq<T>)
    requires m <= |toks| && toks[m..] == [tok] + tail
    ensures m < |toks| && toks[m] == tok && toks[m + 1..] == tail
  {
    assert toks[m] == toks[m..][0];
    assert toks[m + 1..] == toks[m..][1..];
  }

  /** `cur` holds the coefficients before index `k`, and zeros from there on. (Asked for, like the next ones.) */
  ghost predicate Partial(cur: seq<int>, zz: seq<int>, k: nat) {
    && |cur| == |zz| == 64
    && forall n: nat {:trigger Asked(n)} :: Asked(n) ==> forall j :: 0 <= j < 64 ==> cur[j] == if j < k then zz[j] else 0
  }

  /** Categories that fit four bits and tell zero from non-zero. */
  ghost predicate FourBits(zz: seq<int>, cat: seq<nat>) {
    |zz| == |cat| == 64 && forall j :: 0 <= j < 64 ==> cat[j] < 16 && (cat[j] == 0 <==> zz[j] == 0)
  }

  /** `toks[m..]` code the coefficients from index `k` on, after a run of `r` zeros. A proof that needs to
      know how asks for it. */
  ghost predicate Coding(toks: seq<Token>, m: nat, zz: seq<int>, cat: seq<nat>, k: nat, r: nat) {
    && r < k <= 64 && m <= |toks| && |zz| == |cat| == 64
    && forall n: nat {:trigger Asked(n)} :: Asked(n) ==> FourBits(zz, cat) && toks[m..] == AcTokens(zz, cat, k, r)
  }

  /** From `p` and index `i` on, the loop comes to `goal`. A proof that needs to know how asks for it. */
  ghost predicate ComesTo(rd: Reads, p: Pos, i: nat, cur: seq<int>, dcv: int, goal: Block) {
    forall n: nat {:trigger Asked(n)} :: Asked(n) ==> |cur| == 64 && DecodeAc(rd, p, i, cur, dcv) == goal
  }

  /** The decoding loop undoes the run-length coding. */
  lemma LoopUndoesRuns(rd: Reads, toks: seq<Token>, ps: seq<Pos>, m: nat, zz: seq<int>,
                       cat: seq<nat>, k: nat, r: nat, cur: seq<int>, dcv: int)
    requires Follows(rd, toks, ps) && Partial(cur, zz, k) && Coding(toks, m, zz, cat, k, r)
    ensures DecodeAc(rd, ps[m], k - r, cur, dcv) == Block(JDR_OK, zz, dcv, ps[|toks|])
  {
    LoopComes(rd, toks, ps, m, zz, cat, k, r, k - r, cur, dcv, Block(JDR_OK, zz, dcv, ps[|toks|]));
    assert Asked(0);
  }

  lemma {:induction false} LoopComes(rd: Reads, toks: seq<Token>, ps: seq<Pos>, m: nat, zz: seq<int>,
                                     cat: seq<nat>, k: nat, r: nat, i: nat, cur: seq<int>, dcv: int, goal: Block)
    requires Followed(rd, toks, ps) && Partial(cur, zz, k) && Coding(toks, m, zz, cat, k, r)
    requires i == k - r && goal == Block(JDR_OK, zz, dcv, ps[|toks|])
    ensures ComesTo(rd, ps[m], i, cur, dcv, goal)
    decreases 64 - k, r, 1
  {
    if k == 64 {
      CodingEnd(toks, m, zz, cat, r);
      LastRound(rd, toks, ps, m, zz, r, i, cur, dcv);
    } else if zz[k] == 0 {
      CodingZero(toks, m, zz, cat, k, r);
      LoopComes(rd, toks, ps, m, zz, cat, k + 1, r + 1, i, cur, dcv, goal);
    } else if r >= 16 {
      RunComes(rd, toks, ps, m, zz, cat, k, r, i, cur, dcv, goal);
    } else {
      ValueComes(rd, toks, ps, m, zz, cat, k, r, i, cur, dcv, goal);
    }
  }

  /** A run of 16 zeros, and what comes after it. */
  lemma {:induction false} RunComes(rd: Reads, toks: seq<Token>, ps: seq<Pos>, m: nat, zz: seq<int>,
                                    cat: seq<nat>, k: nat, r: nat, i: nat, cur: seq<int>, dcv: int, goal: Block)
    requires Followed(rd, toks, ps) && Partial(cur, zz, k) && Coding(toks, m, zz, cat, k, r)
    requires i == k - r && goal == Block(JDR_OK, zz, dcv, ps[|toks|]) && k < 64 && zz[k] != 0 && r >= 16
    ensures ComesTo(rd, ps[m], i, cur, dcv, goal)
    decreases 64 - k, r, 0
  {
    CodingRun(toks, m, zz, cat, k, r);
    LoopComes(rd, toks, ps, m + 1, zz, cat, k, r - 16, i + 16, cur, dcv, goal);
    ReadAt(rd, toks, ps, m, Token(0xF0, 0));
    RunRound(rd, ps[m], ps[m + 1], i, cur, dcv, goal);
  }

  /** A run and a value, and what comes after them. */
  lemma {:induction false} ValueComes(rd: Reads, toks: seq<Token>, ps: seq<Pos>, m: nat, zz: seq<int>,
                                      cat: seq<nat>, k: nat, r: nat, i: nat, cur: seq<int>, dcv: int, goal: Block)
    requires Followed(rd, toks, ps) && Partial(cur, zz, k) && Coding(toks, m, zz, cat, k, r)
    requires i == k - r && goal == Block(JDR_OK, zz, dcv, ps[|toks|]) && k < 64 && zz[k] != 0 && r < 16
    ensures ComesTo(rd, ps[m], i, cur, dcv, goal)
    decreases 64 - k, r, 0
  {
    CodingNonZero(toks, m, zz, cat, k, r);
    PartialNext(cur, zz, k);
    LoopComes(rd, toks, ps, m + 1, zz, cat, k + 1, NONE, k + 1, cur[k := zz[k]], dcv, goal);
    ReadAt(rd, toks, ps, m, Token(16 * r + cat[k], zz[k]));
    ValueRound(rd, ps[m], ps[m + 1], i, k, r, cat[k], zz[k], cur, dcv, goal);
  }

  lemma ReadAt(rd: Reads, toks: seq<Token>, ps: seq<Pos>, m: nat, tok: Token)
    requires Followed(rd, toks, ps) && m < |toks| && toks[m] == tok
    ensures ReadsAs(rd, ps[m], tok, ps[m + 1])
  {
    assert Asked(0);
  }

  /** The tokens have been read through the places `ps`, for a proof that asks for it. */
  ghost predicate Followed(rd: Reads, toks: seq<Token>, ps: seq<Pos>) {
    |ps| == |toks| + 1 && forall n: nat {:trigger Asked(n)} :: Asked(n) ==> Follows(rd, toks, ps)
  }

  /** At the end of the block there is nothing more to read, or only the end-of-block symbol. */
  lemma LastRound(rd: Reads, toks: seq<Token>, ps: seq<Pos>, m: nat, zz: seq<int>, r: nat, i: nat, cur: seq<int>, dcv: int)
    requires Followed(rd, toks, ps) && Partial(cur, zz, 64) && r < 64 && i == 64 - r
    requires if r == 0 then m == |toks| else m + 1 == |toks| && toks[m] == Token(0, 0)
    ensures ComesTo(rd, ps[m], i, cur, dcv, Block(JDR_OK, zz, dcv, ps[|toks|]))
  {
    assert Asked(0) && cur == zz;
    if r > 0 { EndRound(rd, ps[m], ps[m + 1], i, cur, dcv); }
  }

  lemma PartialNext(cur: seq<int>, zz: seq<int>, k: nat)
    requires Partial(cur, zz, k) && k < 64
    ensures Partial(cur[k := zz[k]], zz, k + 1)
  {
    assert Asked(0);
  }

  lemma CodingEnd(toks: seq<Token>, m: nat, zz: seq<int>, cat: seq<nat>, r: nat)
    requires Coding(toks, m, zz, cat, 64, r)
    ensures if r == 0 then m == |toks| else m + 1 == |toks| && toks[m] == Token(0, 0)
  {
    assert Asked(0);
    if r > 0 { NextToken(toks, m, Token(0, 0), []); }
  }

  lemma CodingZero(toks: seq<Token>, m: nat, zz: seq<int>, cat: seq<nat>, k: nat, r: nat)
    requires Coding(toks, m, zz, cat, k, r) && k < 64 && zz[k] == 0
    ensures Coding(toks, m, zz, cat, k + 1, r + 1)
  {
    assert Asked(0);
  }

  lemma CodingRun(toks: seq<Token>, m: nat, zz: seq<int>, cat: seq<nat>, k: nat, r: nat)
    requires Coding(toks, m, zz, cat, k, r) && k < 64 && zz[k] != 0 && r >= 16
    ensures m < |toks| && toks[m] == Token(0xF0, 0) && Coding(toks, m + 1, zz, cat, k, r - 16)
  {
    assert Asked(0);
    NextToken(toks, m, Token(0xF0, 0), AcTokens(zz, cat, k, r - 16));
  }

  /** The round of the loop that finds the end of the block. */
  lemma EndRound(rd: Reads, p: Pos, q: Pos, i: nat, cur: seq<int>, dcv: int)
    requires |cur| == 64 && i < 64 && ReadsAs(rd, p, Token(0, 0), q)
    ensures DecodeAc(rd, p, i, cur, dcv) == Block(JDR_OK, cur, dcv, q)
  {
  }

  /** The round of the loop that skips 16 zeros. */
  lemma RunRound(rd: Reads, p: Pos, q: Pos, i: nat, cur: seq<int>, dcv: int, goal: Block)
    requires |cur| == 64 && i + 16 <= 64 && ReadsAs(rd, p, Token(0xF0, 0), q) && ComesTo(rd, q, i + 16, cur, dcv, goal)
    ensures ComesTo(rd, p, i, cur, dcv, goal)
  {
    assert Asked(0);
  }

  lemma CodingNonZero(toks: seq<Token>, m: nat, zz: seq<int>, cat: seq<nat>, k: nat, r: nat)
    requires Coding(toks, m, zz, cat, k, r) && k < 64 && zz[k] != 0 && r < 16
    ensures m < |toks| && toks[m] == Token(16 * r + cat[k], zz[k]) && 0 < cat[k] < 16
    ensures Coding(toks, m + 1, zz, cat, k + 1, NONE)
  {
    assert Asked(0);
    NextToken(toks, m, Token(16 * r + cat[k], zz[k]), AcTokens(zz, cat, k + 1, NONE));
  }

  /** The round of the loop that stores a value `v` after a run of `r` zeros. */
  lemma ValueRound(rd: Reads, p: Pos, q: Pos, i: nat, j: nat, r: nat, b: nat, v: int, cur: seq<int>, dcv: int, goal: Block)
    requires |cur| == 64 && r < 16 && 0 < b < 16 && j == i + r < 64
    requires ReadsAs(rd, p, Token(16 * r + b, v), q) && ComesTo(rd, q, j + 1, cur[j := v], dcv, goal)
    ensures ComesTo(rd, p, i, cur, dcv, goal)
  {
    assert Asked(0);
  }

  lemma AcRoundTrip(stream: seq<nat>, q: Pos, act: Table, zz: seq<int>, dcv: int, rest: seq<bool>, stop: Stop)
    returns (end: Pos)
    requires Usable(act) && |zz| == 64 && FourBits(zz, Categories(zz)) && Covers(act, AcCode(zz))
    requires Ahead(stream, q, Emit(act, AcCode(zz)) + rest, stop)
    ensures Ahead(stream, end, rest, stop)
    ensures DecodeAc(ReadsOf(stream, act), q, FIRST, DcOnly(zz[0]), dcv) == Block(JDR_OK, zz, dcv, end)
  {
    var ps := EmitFollows(stream, q, act, AcCode(zz), rest, stop);
    end := WholeBlock(ReadsOf(stream, act), ps, zz, dcv);
  }

  lemma WholeBlock(rd: Reads, ps: seq<Pos>, zz: seq<int>, dcv: int) returns (end: Pos)
    requires |zz| == 64 && FourBits(zz, Categories(zz)) && Follows(rd, AcCode(zz), ps)
    ensures end == ps[|AcCode(zz)|]
    ensures DecodeAc(rd, ps[0], FIRST, DcOnly(zz[0]), dcv) == Block(JDR_OK, zz, dcv, end)
  {
    var toks := AcCode(zz);
    assert toks[0..] == toks;
    LoopUndoesRuns(rd, toks, ps, 0, zz, Categories(zz), FIRST, NONE, DcOnly(zz[0]), dcv);
    end := ps[|toks|];
  }

  lemma DcRoundTrip(stream: seq<nat>, p: Pos, dct: Table, ac: Reads, zz: seq<int>, prev: int, rest: seq<bool>, stop: Stop)
    returns (q: Pos)
    requires Usable(dct) && |zz| == 64 && DcCode(zz, prev).sym in dct.data
    requires Category(zz[0] - prev) < 16 && zz[0] == I16(zz[0])
    requires Ahead(stream, p, TokenBits(dct, DcCode(zz, prev)) + rest, stop)
    ensures Ahead(stream, q, rest, stop)
    ensures DecodeBlock(ReadsOf(stream, dct), ac, p, prev) == DecodeAc(ac, q, FIRST, DcOnly(zz[0]), zz[0])
  {
    q := DecodeToken(stream, p, dct, DcCode(zz, prev), rest, stop);
    TokenAtReads(stream, dct, p, DcCode(zz, prev), q);
    DcRound(ReadsOf(stream, dct), ac, p, q, zz, prev);
  }

  /** The values and tables for which a block can be coded: 16-bit DC, categories of four bits, and
      a code word for every symbol needed. */
  ghost predicate Codable(dct: Table, act: Table, zz: seq<int>, prev: int) {
    && |zz| == 64 && FourBits(zz, Categories(zz)) && zz[0] == I16(zz[0])
    && Category(zz[0] - prev) < 16 && DcCode(zz, prev).sym in dct.data
    && Covers(act, AcCode(zz))
  }

  /** Decoding the encoding of a block gives back every coefficient and the DC value kept for the
      next block, and leaves the reader at the next bit. */
  lemma BlockRoundTrip(stream: seq<nat>, p: Pos, dct: Table, act: Table, zz: seq<int>, prev: int,
                       rest: seq<bool>, stop: Stop) returns (end: Pos)
    requires Usable(dct) && Usable(act) && Codable(dct, act, zz, prev)
    requires Ahead(stream, p, EncodeBlock(dct, act, zz, prev) + rest, stop)
    ensures DecodeBlock(ReadsOf(stream, dct), ReadsOf(stream, act), p, prev) == Block(JDR_OK, zz, zz[0], end)
    ensures Ahead(stream, end, rest, stop)
  {
    Assoc(TokenBits(dct, DcCode(zz, prev)), Emit(act, AcCode(zz)), rest);
    var q := DcRoundTrip(stream, p, dct, ReadsOf(stream, act), zz, prev, Emit(act, AcCode(zz)) + rest, stop);
    end := AcRoundTrip(stream, q, act, zz, zz[0], rest, stop);
  }

  lemma DcRound(dc: Reads, ac: Reads, p: Pos, q: Pos, zz: seq<int>, prev: int)
    requires |zz| == 64 && Category(zz[0] - prev) < 16 && zz[0] == I16(zz[0])
    requires ReadsAs(dc, p, DcCode(zz, prev), q)
    ensures DecodeBlock(dc, ac, p, prev) == DecodeAc(ac, q, FIRST, DcOnly(zz[0]), zz[0])
  {
    if zz[0] != prev {
      RestoreAdditional(zz[0] - prev);
    }
  }
}
