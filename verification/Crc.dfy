/** The CRC of littlefs (lfs_crc): a table of 16 entries, a nibble at a time, against the definition
    that takes one bit at a time, and the errors that it always detects. */
module Crc {
  import opened BitFold

  /** The generator polynomial of section 3.2.9 of IEEE 802.3 (x^32 + x^26 + x^23 + x^22 + x^16 + x^12 + x^11
      + x^10 + x^8 + x^7 + x^5 + x^4 + x^2 + x + 1): bit 31 - k stands for x^k. */
  const POLY: bv32 := 0xEDB8_8320

  function Table(n: bv32): bv32 {
    if n == 0 then 0x0000_0000 else if n == 1 then 0x1DB7_1064 else if n == 2 then 0x3B6E_20C8
    else if n == 3 then 0x26D9_30AC else if n == 4 then 0x76DC_4190 else if n == 5 then 0x6B6B_51F4
    else if n == 6 then 0x4DB2_6158 else if n == 7 then 0x5005_713C else if n == 8 then 0xEDB8_8320
    else if n == 9 then 0xF00F_9344 else if n == 10 then 0xD6D6_A3E8 else if n == 11 then 0xCB61_B38C
    else if n == 12 then 0x9B64_C2B0 else if n == 13 then 0x86D3_D2D4 else if n == 14 then 0xA00A_E278
    else 0xBDBD_F21C
  }

  function Xor(x: bv32, y: bv32): bv32 {
    x ^ y
  }

  function Up(x: bv32): bv32 {
    x << 1
  }

  function Down(x: bv32): bv32 {
    x >> 1
  }

  predicate Lowest(x: bv32) {
    x & 1 == 1
  }

  predicate Highest(x: bv32) {
    x & 0x8000_0000 != 0
  }

  function Unit(b: bool): bv32 {
    if b then 1 else 0
  }

  /** The state after a zero bit: one step of the polynomial division. */
  function Step(c: bv32): bv32 {
    if Lowest(c) then Xor(Down(c), POLY) else Down(c)
  }

  /** The state after a bit. */
  function Next(c: bv32, b: bool): bv32 {
    Step(Xor(c, Unit(b)))
  }

  /** The definition: the remainder of the division after the given bits. */
  function Serial(c: bv32, bits: seq<bool>): bv32 {
    Fold(Next, c, bits)
  }

  /** The bits of a byte, lowest first. */
  function BitsOf(b: bv8): (bits: seq<bool>)
    ensures |bits| == 8
  {
    [b & 1 == 1, b & 2 == 2, b & 4 == 4, b & 8 == 8] + [b & 16 == 16, b & 32 == 32, b & 64 == 64, b & 128 == 128]
  }

  function BitsOfAll(data: seq<bv8>): (bits: seq<bool>)
    ensures |bits| == 8 * |data|
    decreases |data|
  {
    if data == [] then [] else BitsOf(data[0]) + BitsOfAll(data[1..])
  }

  function Down4(c: bv32): bv32 {
    c >> 4
  }

  function Low4(n: bv32): bv32 {
    n & 0xF
  }

  function Nibble(c: bv32, n: bv32): bv32 {
    Xor(Down4(c), Table(Low4(Xor(c, n))))
  }

  /** One byte: its low nibble, then its high nibble. */
  function ByByte(c: bv32, b: bv8): bv32 {
    Nibble(Nibble(c, b as bv32), (b >> 4) as bv32)
  }

  function ByTable(c: bv32, data: seq<bv8>): bv32
    decreases |data|
  {
    if data == [] then c else ByTable(ByByte(c, data[0]), data[1..])
  }

  method LfsCrc(crc0: bv32, buffer: array<bv8>, size: nat) returns (crc: bv32)
    requires size <= buffer.Length
    ensures crc == Serial(crc0, BitsOfAll(buffer[..size]))
  {
    crc := crc0;
    assert buffer[0..size] == buffer[..size];
    for i := 0 to size
      invariant ByTable(crc, buffer[i..size]) == ByTable(crc0, buffer[..size])
    {
      TakeByte(crc, buffer[i..size]);
      assert buffer[i..size][1..] == buffer[i + 1..size];
      crc := Nibble(crc, buffer[i] as bv32);
      crc := Nibble(crc, (buffer[i] >> 4) as bv32);
    }
    TableIsSerial(crc0, buffer[..size]);
  }

  lemma TakeByte(c: bv32, data: seq<bv8>)
    requires data != []
    ensures ByTable(c, data) == ByTable(Nibble(Nibble(c, data[0] as bv32), (data[0] >> 4) as bv32), data[1..])
  {
  }

  // ----- bits added to the state all at once -----

  /** One more bit below those of a register. */
  function Put(b: bool, p: bv32): bv32 {
    Xor(Up(p), Unit(b))
  }

  /** All ones from place `n` on. */
  function From(n: nat): bv32 {
    match n
    case 0 => 0xFFFF_FFFF case 1 => 0xFFFF_FFFE case 2 => 0xFFFF_FFFC case 3 => 0xFFFF_FFF8
    case 4 => 0xFFFF_FFF0 case 5 => 0xFFFF_FFE0 case 6 => 0xFFFF_FFC0 case 7 => 0xFFFF_FF80
    case 8 => 0xFFFF_FF00 case 9 => 0xFFFF_FE00 case 10 => 0xFFFF_FC00 case 11 => 0xFFFF_F800
    case 12 => 0xFFFF_F000 case 13 => 0xFFFF_E000 case 14 => 0xFFFF_C000 case 15 => 0xFFFF_8000
    case 16 => 0xFFFF_0000 case 17 => 0xFFFE_0000 case 18 => 0xFFFC_0000 case 19 => 0xFFF8_0000
    case 20 => 0xFFF0_0000 case 21 => 0xFFE0_0000 case 22 => 0xFFC0_0000 case 23 => 0xFF80_0000
    case 24 => 0xFF00_0000 case 25 => 0xFE00_0000 case 26 => 0xFC00_0000 case 27 => 0xF800_0000
    case 28 => 0xF000_0000 case 29 => 0xE000_0000 case 30 => 0xC000_0000 case 31 => 0x8000_0000
    case _ => 0
  }

  predicate Outside(p: bv32, mask: bv32) {
    p & mask == 0
  }

  predicate Room(n: nat, p: bv32) {
    Outside(p, From(n))
  }

  lemma UpOutside(p: bv32, f: bv32)
    requires Outside(p, f)
    ensures Outside(Up(p), Up(f))
  {
  }

  lemma UnitOutside(s: bv32, f: bv32, b: bool)
    requires Outside(s, Up(f))
    ensures Outside(Xor(s, Unit(b)), Up(f))
  {
  }

  lemma FromNext(n: nat)
    requires n < 32
    ensures From(n + 1) == Up(From(n)) && Highest(From(n))
  {
    if n < 8 { FromNext0(n); } else if n < 16 { FromNext8(n); } else if n < 24 { FromNext16(n); } else { FromNext24(n); }
  }

  lemma FromNext0(n: nat)
    requires 0 <= n < 8
    ensures From(n + 1) == Up(From(n)) && Highest(From(n))
  {
  }

  lemma FromNext8(n: nat)
    requires 8 <= n < 16
    ensures From(n + 1) == Up(From(n)) && Highest(From(n))
  {
  }

  lemma FromNext16(n: nat)
    requires 16 <= n < 24
    ensures From(n + 1) == Up(From(n)) && Highest(From(n))
  {
  }

  lemma FromNext24(n: nat)
    requires 24 <= n < 32
    ensures From(n + 1) == Up(From(n)) && Highest(From(n))
  {
  }

  lemma HighestFree(p: bv32, f: bv32)
    requires Outside(p, f) && Highest(f)
    ensures !Highest(p)
  {
  }

  lemma UpDown(p: bv32)
    requires !Highest(p)
    ensures Down(Up(p)) == p
  {
  }

  lemma LowestOfPut(p: bv32, b: bool)
    ensures Lowest(Xor(Up(p), Unit(b))) <==> b
  {
  }

  lemma XorTwice(s: bv32, u: bv32)
    ensures Xor(Xor(s, u), u) == s
  {
  }

  lemma PutInjective(p: bv32, q: bv32, a: bool, b: bool)
    requires !Highest(p) && !Highest(q) && Put(a, p) == Put(b, q)
    ensures a == b && p == q
  {
    LowestOfPut(p, a);
    LowestOfPut(q, b);
    XorTwice(Up(p), Unit(a));
    XorTwice(Up(q), Unit(b));
    UpDown(p);
    UpDown(q);
  }

  lemma PutFits(n: nat, p: bv32, b: bool)
    requires n < 32 && Room(n, p)
    ensures Room(n + 1, Put(b, p)) && !Highest(p)
  {
    FromNext(n);
    UpOutside(p, From(n));
    UnitOutside(Up(p), From(n), b);
    HighestFree(p, From(n));
  }

  lemma RegisterHolds32()
    ensures Holds32(Put, 0, Room)
  {
    forall n: nat, p, b | n < 32 && Room(n, p) ensures Room(n + 1, Put(b, p)) {
      PutFits(n, p, b);
    }
    forall n: nat, p, q, a, b | n < 32 && Room(n, p) && Room(n, q) && Put(a, p) == Put(b, q) ensures a == b && p == q {
      PutFits(n, p, a);
      PutFits(n, q, b);
      PutInjective(p, q, a, b);
    }
  }

  /** A bit can be added to the state early, if the steps before it move it to the lowest place. */
  lemma StepXor(x: bv32, y: bv32)
    requires !Highest(y)
    ensures Step(Xor(x, Up(y))) == Xor(Step(x), y)
  {
    DownXor(x, y);
    XorMiddle(Down(x), y, POLY);
  }

  lemma ShiftsXor(x: bv32, y: bv32)
    requires y & 0x8000_0000 == 0
    ensures (x ^ (y << 1)) >> 1 == (x >> 1) ^ y && (x ^ (y << 1)) & 1 == x & 1
  {
  }

  lemma DownXor(x: bv32, y: bv32)
    requires !Highest(y)
    ensures Down(Xor(x, Up(y))) == Xor(Down(x), y) && (Lowest(Xor(x, Up(y))) <==> Lowest(x))
  {
    ShiftsXor(x, y);
  }

  lemma XorMiddle(a: bv32, y: bv32, p: bv32)
    ensures Xor(Xor(a, y), p) == Xor(Xor(a, p), y)
  {
    XorRegroup(a, y, p);
    XorRegroup(a, p, y);
    XorSwaps(p, y);
  }

  lemma XorRegroup(c: bv32, u: bv32, p: bv32)
    ensures Xor(Xor(c, u), p) == Xor(c, Xor(p, u))
  {
  }

  lemma XorZero(c: bv32)
    ensures Xor(c, 0) == c
  {
  }

  lemma StepIsLinear()
    ensures Linear(Step, Xor, Up, Unit, 0, Room)
  {
    forall n: nat, x, p | n < 32 && Room(n, p) ensures Step(Xor(x, Up(p))) == Xor(Step(x), p) {
      PutFits(n, p, true);
      StepXor(x, p);
    }
    forall c, s, u ensures Xor(Xor(c, u), s) == Xor(c, Xor(s, u)) {
      XorRegroup(c, u, s);
    }
    forall c ensures Xor(c, 0) == c {
      XorZero(c);
    }
  }

  lemma NextAndPut()
    ensures Feeds(Next, Put, Step, Xor, Up, Unit)
  {
    forall c, b ensures Next(c, b) == Feed(Step, Xor, Unit, c, b) {}
    forall b, p ensures Put(b, p) == PutBelow(Xor, Up, Unit, b, p) {}
  }

  /** Up to 32 bits act as if they were all added to the state before the first step. */
  lemma WindowAtOnce(c: bv32, bits: seq<bool>)
    requires |bits| <= 32
    ensures Serial(c, bits) == Repeat(Step, Xor(c, Gather(Put, 0, bits)), |bits|)
  {
    RegisterHolds32();
    StepIsLinear();
    NextAndPut();
    FoldAtOnce(Next, Put, Step, Xor, Up, Unit, 0, Room, c, bits);
  }

  // ----- the table against the definition -----

  function Step4(c: bv32): bv32 {
    Step(Step(Step(Step(c))))
  }

  function Up4(y: bv32): bv32 {
    Up(Up(Up(Up(y))))
  }

  /** Four steps move what is above the lowest four places down. */
  lemma FourSteps(x: bv32, y: bv32)
    requires !Highest(y) && !Highest(Up(y)) && !Highest(Up(Up(y))) && !Highest(Up(Up(Up(y))))
    ensures Step4(Xor(x, Up4(y))) == Xor(Step4(x), y)
  {
    StepXor(x, Up(Up(Up(y))));
    StepXor(Step(x), Up(Up(y)));
    StepXor(Step(Step(x)), Up(y));
    StepXor(Step(Step(Step(x))), y);
  }

  /** The table holds what four steps make of a nibble. */
  lemma TableIsFourSteps(n: bv32)
    requires n < 16
    ensures Table(n) == Step4(n)
  {
    if n == 0 {} else if n == 1 {} else if n == 2 {} else if n == 3 {} else if n == 4 {} else if n == 5 {}
    else if n == 6 {} else if n == 7 {} else if n == 8 {} else if n == 9 {} else if n == 10 {} else if n == 11 {}
    else if n == 12 {} else if n == 13 {} else if n == 14 {} else { assert n == 15; }
  }

  lemma SplitNibble(c: bv32, n: bv32)
    ensures Xor(c, Low4(n)) == Xor(Low4(Xor(c, n)), Up4(Down4(c)))
  {
  }

  lemma DownFree(c: bv32)
    ensures var y := Down4(c); !Highest(y) && !Highest(Up(y)) && !Highest(Up(Up(y))) && !Highest(Up(Up(Up(y))))
  {
  }

  lemma Low4Small(n: bv32)
    ensures Low4(n) < 16
  {
  }

  lemma XorSwaps(x: bv32, y: bv32)
    ensures Xor(x, y) == Xor(y, x)
  {
  }

  lemma NibbleIsFourSteps(c: bv32, n: bv32)
    ensures Nibble(c, n) == Step4(Xor(c, Low4(n)))
  {
    var low := Low4(Xor(c, n));
    SplitNibble(c, n);
    DownFree(c);
    FourSteps(low, Down4(c));
    Low4Small(Xor(c, n));
    TableIsFourSteps(low);
    XorSwaps(Table(low), Down4(c));
  }

  function LowBits(n: bv32): (bits: seq<bool>)
    ensures |bits| == 4
  {
    [n & 1 == 1, n & 2 == 2, n & 4 == 4, n & 8 == 8]
  }

  lemma PutFour(n: bv32)
    ensures Put(n & 1 == 1, Put(n & 2 == 2, Put(n & 4 == 4, Put(n & 8 == 8, 0)))) == Low4(n)
  {
  }

  lemma GatherFour<S>(put: (bool, S) -> S, zero: S, b: seq<bool>)
    requires |b| == 4
    ensures Gather(put, zero, b) == put(b[0], put(b[1], put(b[2], put(b[3], zero))))
  {
    assert b[1..][0] == b[1] && b[1..][1..] == b[2..] && b[2..][0] == b[2] && b[2..][1..] == b[3..];
    assert b[3..][0] == b[3] && b[3..][1..] == [];
    assert Gather(put, zero, b[3..]) == put(b[3], zero);
    assert Gather(put, zero, b[2..]) == put(b[2], put(b[3], zero));
    assert Gather(put, zero, b[1..]) == put(b[1], put(b[2], put(b[3], zero)));
  }

  lemma RepeatFour<S>(step: S -> S, c: S, n: nat)
    requires n == 4
    ensures Repeat(step, c, n) == step(step(step(step(c))))
  {
    assert Repeat(step, step(step(step(c))), n - 3) == Repeat(step, step(step(step(step(c)))), n - 4);
  }

  /** The table takes a nibble as the definition takes its bits. */
  lemma NibbleIsSerial(c: bv32, n: bv32)
    ensures Nibble(c, n) == Serial(c, LowBits(n))
  {
    NibbleIsFourSteps(c, n);
    WindowAtOnce(c, LowBits(n));
    GatherFour(Put, 0, LowBits(n));
    PutFour(n);
    RepeatFour(Step, Xor(c, Low4(n)), |LowBits(n)|);
  }

  lemma ByteNibbles(b: bv8)
    ensures BitsOf(b) == LowBits(b as bv32) + LowBits((b >> 4) as bv32)
  {
    LowNibble(b);
    HighNibble(b);
  }

  lemma HighNibble(b: bv8)
    ensures ((b >> 4) as bv32) & 1 == 1 <==> b & 16 == 16
    ensures ((b >> 4) as bv32) & 2 == 2 <==> b & 32 == 32
    ensures ((b >> 4) as bv32) & 4 == 4 <==> b & 64 == 64
    ensures ((b >> 4) as bv32) & 8 == 8 <==> b & 128 == 128
  {
  }

  lemma LowNibble(b: bv8)
    ensures (b as bv32) & 1 == 1 <==> b & 1 == 1
    ensures (b as bv32) & 2 == 2 <==> b & 2 == 2
    ensures (b as bv32) & 4 == 4 <==> b & 4 == 4
    ensures (b as bv32) & 8 == 8 <==> b & 8 == 8
  {
  }

  /** The table takes a byte as the definition takes its bits. */
  lemma ByteIsSerial(c: bv32, b: bv8)
    ensures ByByte(c, b) == Serial(c, BitsOf(b))
  {
    var m, n := b as bv32, (b >> 4) as bv32;
    NibbleIsSerial(c, m);
    NibbleIsSerial(Nibble(c, m), n);
    ByteNibbles(b);
    FoldAppend(Next, c, LowBits(m), LowBits(n));
  }

  /** For every buffer and start value the function computes the CRC of the definition. */
  lemma {:induction false} TableIsSerial(c: bv32, data: seq<bv8>)
    ensures ByTable(c, data) == Serial(c, BitsOfAll(data))
    decreases |data|
  {
    if data != [] {
      ByteIsSerial(c, data[0]);
      TableIsSerial(ByByte(c, data[0]), data[1..]);
      FoldAppend(Next, c, BitsOf(data[0]), BitsOfAll(data[1..]));
    }
  }

  /** A buffer can be taken in parts. */
  lemma {:induction false} ByTableAppend(c: bv32, a: seq<bv8>, b: seq<bv8>)
    ensures ByTable(c, a + b) == ByTable(ByTable(c, a), b)
    decreases |a|
  {
    if a == [] {
      assert a + b == b;
    } else {
      assert (a + b)[1..] == a[1..] + b;
      ByTableAppend(ByByte(c, a[0]), a[1..], b);
    }
  }

  // ----- errors -----

  function StepBack(d: bv32): bv32 {
    if Highest(d) then Xor(Up(Xor(d, POLY)), 1) else Up(d)
  }

  /** A step can be undone: it is injective. */
  lemma StepForthAndBack(c: bv32)
    ensures StepBack(Step(c)) == c
  {
  }

  lemma StepInjective(c: bv32, d: bv32)
    requires Step(c) == Step(d)
    ensures c == d
  {
    StepForthAndBack(c);
    StepForthAndBack(d);
  }

  lemma XorInjective(c: bv32, x: bv32, y: bv32)
    ensures Xor(c, x) == Xor(c, y) ==> x == y
    ensures Xor(x, c) == Xor(y, c) ==> x == y
  {
    XorTwice(x, c);
    XorTwice(y, c);
    XorSwaps(c, x);
    XorSwaps(c, y);
  }

  lemma NextInjective()
    ensures Injective(Next) && forall x, y :: x != y ==> Step(x) != Step(y)
  {
    forall x, y, b | x != y ensures Next(x, b) != Next(y, b) {
      XorInjective(Unit(b), x, y);
      if Next(x, b) == Next(y, b) {
        StepInjective(Xor(x, Unit(b)), Xor(y, Unit(b)));
        assert false;
      }
    }
    forall x, y | x != y ensures Step(x) != Step(y) {
      if Step(x) == Step(y) {
        StepInjective(x, y);
        assert false;
      }
    }
  }

  /** Different bits within 32 lead to different states. */
  lemma WindowDiffers(c: bv32, a: seq<bool>, b: seq<bool>)
    requires |a| == |b| <= 32 && a != b
    ensures Serial(c, a) != Serial(c, b)
  {
    var p, q := Gather(Put, 0, a), Gather(Put, 0, b);
    if p == q {
      RegisterHolds32();
      GatherInjective(Put, 0, Room, a, b);
      assert false;
    } else {
      WindowAtOnce(c, a);
      WindowAtOnce(c, b);
      XorInjective(c, p, q);
      NextInjective();
      RepeatInjective(Step, Xor(c, p), Xor(c, q), |a|);
    }
  }

  /** An error burst of at most 32 bits, wherever it begins, always changes the CRC. */
  lemma BurstDetected(c: bv32, before: seq<bool>, a: seq<bool>, b: seq<bool>, after: seq<bool>)
    requires |a| == |b| <= 32 && a != b
    ensures Serial(c, before + a + after) != Serial(c, before + b + after)
  {
    var s := Serial(c, before);
    FoldAppend(Next, c, before, a);
    FoldAppend(Next, c, before, b);
    FoldAppend(Next, c, before + a, after);
    FoldAppend(Next, c, before + b, after);
    WindowDiffers(s, a, b);
    NextInjective();
    FoldInjective(Next, Serial(s, a), Serial(s, b), after);
  }

  lemma {:induction false} BitsAppend(a: seq<bv8>, b: seq<bv8>)
    ensures BitsOfAll(a + b) == BitsOfAll(a) + BitsOfAll(b)
    decreases |a|
  {
    if a == [] {
      assert a + b == b;
    } else {
      assert (a + b)[1..] == a[1..] + b;
      BitsAppend(a[1..], b);
      assert BitsOf(a[0]) + BitsOfAll(a[1..]) + BitsOfAll(b) == BitsOf(a[0]) + (BitsOfAll(a[1..]) + BitsOfAll(b));
    }
  }

  /** A byte is given by its bits. */
  function ByteOf(s: seq<bool>): bv8
    requires |s| == 8
  {
    (if s[0] then 1 else 0) | (if s[1] then 2 else 0) | (if s[2] then 4 else 0) | (if s[3] then 8 else 0)
    | (if s[4] then 16 else 0) | (if s[5] then 32 else 0) | (if s[6] then 64 else 0) | (if s[7] then 128 else 0)
  }

  lemma ByteOfBits(b: bv8)
    ensures ByteOf(BitsOf(b)) == b
  {
  }

  lemma {:induction false} AllBitsInjective(a: seq<bv8>, b: seq<bv8>)
    requires |a| == |b| && BitsOfAll(a) == BitsOfAll(b)
    ensures a == b
    decreases |a|
  {
    if a != [] {
      var s, t := BitsOfAll(a), BitsOfAll(b);
      assert s[..8] == BitsOf(a[0]) && t[..8] == BitsOf(b[0]);
      assert s[8..] == BitsOfAll(a[1..]) && t[8..] == BitsOfAll(b[1..]);
      ByteOfBits(a[0]);
      ByteOfBits(b[0]);
      AllBitsInjective(a[1..], b[1..]);
      assert a == [a[0]] + a[1..] && b == [b[0]] + b[1..];
    }
  }

  lemma ThreeParts(c: bv32, before: seq<bv8>, a: seq<bv8>, after: seq<bv8>)
    ensures ByTable(c, before + a + after) == Serial(c, BitsOfAll(before) + BitsOfAll(a) + BitsOfAll(after))
  {
    TableIsSerial(c, before + a + after);
    BitsAppend(before, a);
    BitsAppend(before + a, after);
  }

  /** Buffers that differ within at most 4 consecutive bytes have different CRCs. */
  lemma WindowDetected(c: bv32, before: seq<bv8>, a: seq<bv8>, b: seq<bv8>, after: seq<bv8>)
    requires |a| == |b| <= 4 && a != b
    ensures ByTable(c, before + a + after) != ByTable(c, before + b + after)
  {
    ThreeParts(c, before, a, after);
    ThreeParts(c, before, b, after);
    if BitsOfAll(a) == BitsOfAll(b) {
      AllBitsInjective(a, b);
      assert false;
    } else {
      BurstDetected(c, BitsOfAll(before), BitsOfAll(a), BitsOfAll(b), BitsOfAll(after));
    }
  }
}
