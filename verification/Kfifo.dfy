/** The byte queue of fifo.h: a buffer whose size is a power of two, and two free-running indices that
    wrap at 2^32. */
module Kfifo {
  import opened Machine

  /** The place `i` places after place `o` in a ring of `size`. */
  function Slot(size: nat, o: nat, i: nat): nat
    requires i <= size
  {
    if o + i < size then o + i else if o + i < size + size then o + i - size else 0
  }

  lemma {:induction false} PowerSum(a: nat, b: nat)
    ensures Pow2(a) * Pow2(b) == Pow2(a + b)
    decreases a
  {
    if a > 0 {
      PowerSum(a - 1, b);
      assert 2 * Pow2(a - 1) * Pow2(b) == 2 * (Pow2(a - 1) * Pow2(b));
    }
  }

  /** A size divides 2^32 when it is a power of two up to it. */
  lemma PowerDivides(k: nat) returns (q: nat)
    requires k <= 32
    ensures TWO32 == Pow2(k) * q
  {
    PowerValues();
    PowerSum(k, 32 - k);
    q := Pow2(32 - k);
  }

  lemma PowerValues()
    ensures Pow2(32) == TWO32
  {
    assert Pow2(8) == 256;
    assert Pow2(16) == 65536;
    assert Pow2(24) == 16777216;
  }

  lemma ModBelow(x: nat, d: nat)
    requires d > 0
    ensures x % d < d && x == d * (x / d) + x % d
  {
  }

  /** An index advances in the ring as its low bits do, also when it wraps. */
  lemma Advance(x: nat, n: nat, size: nat, q: nat)
    requires size > 0 && x < TWO32 && n <= size && TWO32 == size * q
    ensures x % size < size && U32(x + n) % size == Slot(size, x % size, n)
  {
    ModBelow(x, size);
    var o, d := x % size, x / size;
    if x + n < TWO32 {
      AdvancePlain(x + n, o + n, d, size);
    } else {
      Wraps(x + n);
      assert size * (d - q) == size * d - size * q;
      assert x + n - TWO32 == size * (d - q) + (o + n);
      AdvancePlain(x + n - TWO32, o + n, d - q, size);
    }
  }

  lemma Wraps(y: nat)
    requires TWO32 <= y < 2 * TWO32
    ensures U32(y) == y - TWO32
  {
  }

  lemma AdvancePlain(y: nat, r: nat, d: int, size: nat)
    requires size > 0 && y == size * d + r && r < 2 * size
    ensures y % size == if r < size then r else r - size
  {
    if r < size {
      ModUnique(y, size, d, r);
    } else {
      assert size * (d + 1) == size * d + size;
      ModUnique(y, size, d + 1, r - size);
    }
  }

  /** Index arithmetic modulo 2^32: putting, getting, and the free space. */
  lemma PutCount(i: nat, o: nat, n: nat)
    requires i < TWO32 && o < TWO32 && U32(i - o) + n < TWO32
    ensures U32(U32(i + n) - o) == U32(i - o) + n
  {
  }

  lemma GetCount(i: nat, o: nat, n: nat)
    requires i < TWO32 && o < TWO32 && n <= U32(i - o)
    ensures U32(i - U32(o + n)) == U32(i - o) - n
  {
  }

  lemma InputIs(i: nat, o: nat)
    requires i < TWO32 && o < TWO32
    ensures i == U32(o + U32(i - o))
  {
  }

  lemma FreeCount(i: nat, o: nat, size: nat)
    requires i < TWO32 && o < TWO32 && U32(i - o) <= size < TWO32
    ensures U32(size - i + o) == size - U32(i - o)
  {
  }

  class Fifo {
    var input: nat
    var output: nat
    const size: nat
    const mask: nat
    const buffer: array<byte>

    /** The number of bytes in the queue. */
    function Count(): nat
      reads this
    {
      U32(input - output)
    }

    /** The low bits of an index: its place in the buffer. */
    function Low(index: nat): nat
      requires size > 0
    {
      And(index, size - 1)
    }

    ghost predicate PowerOfTwo() {
      exists k: nat :: k < 32 && size == Pow2(k)
    }

    ghost predicate Valid()
      reads this
    {
      && 0 < size < TWO32 && PowerOfTwo() && mask == size - 1 && buffer.Length == size
      && input < TWO32 && output < TWO32 && Count() <= size
    }

    /** The place of the byte `i` of the queue. */
    function At(i: nat): nat
      requires size > 0 && i <= size
      reads this
    {
      Slot(size, Low(output), i)
    }

    /** The bytes in the queue, oldest first. */
    ghost function Contents(): (s: seq<byte>)
      requires Valid()
      reads this, buffer
      ensures |s| == Count()
    {
      LowIsMod(output);
      Ring(buffer[..], size, Low(output), Count())
    }

    /** kfifo_init, on a buffer of the size; a size that fails the test is a bug. */
    constructor (buffer: array<byte>, size: nat)
      requires 0 < size < TWO32 && buffer.Length == size && And(size, size - 1) == 0
      ensures Valid() && Contents() == [] && this.buffer == buffer && this.size == size
    {
      this.buffer, this.size, mask, input, output := buffer, size, size - 1, 0, 0;
      new;
      PowerOfTwoTest(size);
      var k: nat :| size == Pow2(k);
      if k >= 32 {
        PowerValues();
        if k > 32 { Pow2Less(32, k); }
        assert false;
      }
    }

    lemma LowIsMod(x: nat)
      requires size > 0 && PowerOfTwo()
      ensures Low(x) == x % size < size
    {
      var k: nat :| k < 32 && size == Pow2(k);
      AndMask(x, k);
      ModBelow(x, size);
    }

    /** Masking an index gives its place in the buffer. */
    method Place(index: nat) returns (p: nat)
      requires Valid()
      ensures p == Low(index) && p < size
    {
      LowIsMod(index);
      p := And(index, size - 1);
    }

    lemma InputPlace()
      requires Valid()
      ensures Low(input) == At(Count()) && Low(output) < size
    {
      LowIsMod(input);
      LowIsMod(output);
      InputIs(input, output);
      var k: nat :| k < 32 && size == Pow2(k);
      var q := PowerDivides(k);
      Advance(output, Count(), size, q);
    }

    lemma OutputPlace(n: nat)
      requires Valid() && n <= size
      ensures Low(U32(output + n)) == At(n) && Low(output) < size
    {
      LowIsMod(output);
      LowIsMod(U32(output + n));
      var k: nat :| k < 32 && size == Pow2(k);
      var q := PowerDivides(k);
      Advance(output, n, size, q);
    }

    /** Copies data into the ring from place `at` on, around the end of the buffer. */
    method Store(data: array<byte>, len: nat, at: nat, ghost o: nat, ghost c: nat)
      requires buffer.Length == size && len <= data.Length && data != buffer
      requires o < size && c + len <= size && at == Slot(size, o, c) < size
      modifies buffer
      ensures Ring(buffer[..], size, o, c + len) == Ring(old(buffer[..]), size, o, c) + data[..len]
    {
      ghost var was := buffer[..];
      var l := Min(len, size - at);
      forall i | 0 <= i < l { buffer[at + i] := data[i]; }
      forall i | 0 <= i < len - l { buffer[i] := data[l + i]; }
      RingAppend(was, buffer[..], size, o, c, data[..len]);
    }

    /** Appends as much of the data as fits; the index may wrap, and so may the copy. */
    method Put(data: array<byte>, len0: nat) returns (len: nat)
      requires Valid() && len0 <= data.Length && len0 < TWO32 && data != buffer
      modifies this`input, buffer
      ensures Valid() && len == Min(len0, size - old(Count()))
      ensures Contents() == old(Contents()) + data[..len]
    {
      InputPlace();
      FreeCount(input, output, size);
      len := Min(len0, U32(size - input + output));
      PutCount(input, output, len);
      var at := Place(input);
      Store(data, len, at, Low(output), Count());
      input := U32(input + len);
    }

    /** The longest available prefix, copied from the place of `off` on, around the end of the buffer. */
    method CopyOut(dst: array<byte>, len: nat, off: nat)
      requires Valid() && len <= size && len <= dst.Length && dst != buffer
      modifies dst
      ensures Low(off) < size && dst[..len] == Ring(buffer[..], size, Low(off), len)
      ensures forall i :: len <= i < dst.Length ==> dst[i] == old(dst[i])
    {
      var at := Place(off);
      var l := Min(len, size - at);
      forall i | 0 <= i < l { dst[i] := buffer[at + i]; }
      forall i | 0 <= i < len - l { dst[l + i] := buffer[i]; }
    }

    /** Removes as many bytes as there are, up to the length asked for. */
    method Get(dst: array<byte>, len0: nat) returns (len: nat)
      requires Valid() && len0 <= dst.Length && dst != buffer
      modifies this`output, dst
      ensures Valid() && len == Min(len0, |old(Contents())|)
      ensures dst[..len] == old(Contents())[..len] && Contents() == old(Contents())[len..]
      ensures forall i :: len <= i < dst.Length ==> dst[i] == old(dst[i])
    {
      len := Min(len0, U32(input - output));
      OutputPlace(len);
      GetCount(input, output, len);
      RingSplit(buffer[..], size, Low(output), Count(), len);
      CopyOut(dst, len, output);
      output := U32(output + len);
    }

    /** What Get would give, without removing it. */
    method OutPeek(dst: array<byte>, len0: nat) returns (len: nat)
      requires Valid() && len0 <= dst.Length && dst != buffer
      modifies dst
      ensures Valid() && len == Min(len0, |Contents()|) && dst[..len] == Contents()[..len]
      ensures Contents() == old(Contents())
      ensures forall i :: len <= i < dst.Length ==> dst[i] == old(dst[i])
    {
      len := len0;
      var l := U32(input - output);
      if len > l { len := l; }
      OutputPlace(len);
      RingSplit(buffer[..], size, Low(output), Count(), len);
      CopyOut(dst, len, output);
    }

    method DataSize() returns (n: nat)
      requires Valid()
      ensures n == |Contents()| <= size
    {
      n := U32(input - output);
    }

    method Unused() returns (n: nat)
      requires Valid()
      ensures n + |Contents()| == size
    {
      n := U32(mask + 1 - U32(input - output));
    }
  }

  /** `n` bytes of a ring from place `o` on. */
  function Ring(buf: seq<byte>, size: nat, o: nat, n: nat): (s: seq<byte>)
    requires |buf| == size && o < size && n <= size
    ensures |s| == n
  {
    seq(n, i requires 0 <= i < n => buf[Slot(size, o, i)])
  }

  /** New bytes in the free places after the old ones are appended to them. */
  lemma RingAppend(was: seq<byte>, now: seq<byte>, size: nat, o: nat, c: nat, data: seq<byte>)
    requires |was| == |now| == size && o < size && c + |data| <= size
    requires var at := Slot(size, o, c);
      var l := Min(|data|, size - at);
      && (forall i :: 0 <= i < l ==> now[at + i] == data[i])
      && (forall i :: 0 <= i < |data| - l ==> now[i] == data[l + i])
      && (forall j :: 0 <= j < size && !(at <= j < at + l) && !(j < |data| - l) ==> now[j] == was[j])
    ensures Ring(now, size, o, c + |data|) == Ring(was, size, o, c) + data
  {
    var at := Slot(size, o, c);
    var l := Min(|data|, size - at);
    forall i | 0 <= i < c + |data| ensures Ring(now, size, o, c + |data|)[i] == (Ring(was, size, o, c) + data)[i] {
      var j := Slot(size, o, i);
      if i >= c {
        var k := i - c;
        if k < l { assert j == at + k; } else { assert j == k - l && now[k - l] == data[l + (k - l)]; }
      }
    }
  }

  lemma RingSplit(buf: seq<byte>, size: nat, o: nat, c: nat, n: nat)
    requires |buf| == size && o < size && n <= c <= size
    ensures Ring(buf, size, o, n) == Ring(buf, size, o, c)[..n]
    ensures Slot(size, o, n) < size && Ring(buf, size, Slot(size, o, n), c - n) == Ring(buf, size, o, c)[n..]
  {
    var a, b := Ring(buf, size, Slot(size, o, n), c - n), Ring(buf, size, o, c)[n..];
    forall i | 0 <= i < c - n ensures a[i] == b[i] {
      assert Slot(size, Slot(size, o, n), i) == Slot(size, o, n + i);
    }
  }
}
