/** The DMA channel that plays the send buffer, next to the driver that refills it: what is played is
    what was copied, and the channel never reads a byte that has not been filled in. */
module Dma {
  import opened Machine
  import opened NodeQueue
  import opened Sequences
  import opened Codec

  /** What happens to the channel and the driver: a buffer is written, the driver is reset, or the channel
      takes a word of four bytes. */
  datatype Happening = Writes(n: Node) | Resets | Word

  /** The run of the driver, the place in the send buffer that is read next, all bytes played, and all
      bytes copied to the send buffer. */
  datatype Sound = Sound(r: Run, at: nat, played: seq<byte>, copied: seq<byte>)

  /** The channel stops before the word at the pause address, if one is set. */
  predicate Stopped(x: Sound) {
    x.r.d.pauseAt != 0 && x.at == x.r.d.pauseAt
  }

  /** The driver makes a step. */
  function Stepped(x: Sound, s: Step): Sound
    requires WellShaped(x.r.d)
  {
    x.(r := Extend(x.r, s), copied := x.copied + Next(x.r.d, s).copied)
  }

  /** A word is played. Halfway through the buffer and at its end, where the channel begins again, comes
      an interrupt. */
  function Played(x: Sound): Sound
    requires WellShaped(x.r.d) && x.at + 4 <= FIFO
  {
    var next := x.(at := if x.at + 4 == FIFO then 0 else x.at + 4, played := x.played + x.r.d.fifo[x.at..x.at + 4]);
    if next.at == HALF then Stepped(next, Half) else if next.at == 0 then Stepped(next, Finish) else next
  }

  function Happened(x: Sound, h: Happening): Sound
    requires WellShaped(x.r.d) && x.at + 4 <= FIFO
  {
    match h
    case Writes(n) => Stepped(x, Step.Write(n))
    case Resets => Stepped(x, Step.Reset)
    case Word => if Stopped(x) then x else Played(x)
  }

  /** Where the half that is being played begins, and the other one. */
  function Playing(x: Sound): nat {
    if x.at < HALF then 0 else HALF
  }

  function Other(x: Sound): nat {
    if x.at < HALF then HALF else 0
  }

  /** What the half at `base` has been given. */
  function GivenTo(r: Run, base: nat): seq<byte> {
    if base == 0 then r.h.low else r.h.high
  }

  /** What is in the other half to be played: all of it, or what it has been given so far. */
  function Prepared(x: Sound): seq<byte>
    requires |x.r.d.fifo| == FIFO
  {
    if x.r.d.paused then GivenTo(x.r, Other(x)) else HalfAt(x.r.d, Other(x))
  }

  /** A paused driver fills the other half, and the channel stops at the end of this one. */
  predicate Held(x: Sound) {
    x.r.d.paused ==> x.r.d.pos + x.r.d.size == Other(x) + HALF && x.r.d.pauseAt + 4 == Playing(x) + HALF
  }

  /** What has been played, what is left of this half, and what is prepared in the other one are the
      initial silence and then all bytes copied. */
  predicate InOrder(x: Sound)
    requires |x.r.d.fifo| == FIFO && x.at < FIFO
  {
    x.played + x.r.d.fifo[x.at..Playing(x) + HALF] + Prepared(x) == Zeros(FIFO) + x.copied
  }

  predicate Sounds(x: Sound) {
    Good(x.r) && x.at % 4 == 0 && x.at < FIFO && Held(x) && InOrder(x)
  }

  function Beginning(): Sound {
    Sound(Start(), 0, [], [])
  }

  lemma BeginningSounds()
    ensures Sounds(Beginning())
  {
    StartGood();
    var x := Beginning();
    assert Zeros(FIFO)[0..HALF] + Zeros(FIFO)[HALF..FIFO] == Zeros(FIFO);
    assert x.r.d.fifo[0..HALF] == Zeros(FIFO)[0..HALF] && HalfAt(x.r.d, HALF) == Zeros(FIFO)[HALF..FIFO];
    assert [] + x.r.d.fifo[0..HALF] == x.r.d.fifo[0..HALF] && Zeros(FIFO) + [] == Zeros(FIFO);
  }

  /** A half that has been given the same is the same. */
  lemma SameHalf(d: Driver, e: Driver, base: nat, copied: seq<byte>)
    requires |d.fifo| == |e.fifo| == FIFO && base + HALF <= FIFO && Fresh(d, base, copied) && Fresh(e, base, copied)
    ensures HalfAt(d, base) == HalfAt(e, base)
  {
  }

  lemma RestOfHalf(d: Driver, e: Driver, base: nat, at: nat)
    requires |d.fifo| == |e.fifo| == FIFO && base <= at <= base + HALF <= FIFO && HalfAt(d, base) == HalfAt(e, base)
    ensures d.fifo[at..base + HALF] == e.fifo[at..base + HALF]
  {
    assert d.fifo[at..base + HALF] == HalfAt(d, base)[at - base..];
    assert e.fifo[at..base + HALF] == HalfAt(e, base)[at - base..];
  }

  /** The writer leaves the half that is played as it is. */
  lemma WriteSounds(x: Sound, n: Node)
    requires Sounds(x)
    ensures Sounds(Stepped(x, Step.Write(n)))
  {
    var s := Step.Write(n);
    var y := Stepped(x, s);
    StepGood(x.r, s);
    SameHalf(x.r.d, y.r.d, Playing(x), GivenTo(x.r, Playing(x)));
    RestOfHalf(x.r.d, y.r.d, Playing(x), x.at);
    if x.r.d.paused {
      assert GivenTo(y.r, Other(x)) == GivenTo(x.r, Other(x)) + Next(x.r.d, s).copied;
      PreparedMore(x, y, Next(x.r.d, s).copied);
    } else {
      QueueGood(x.r.d, x.r.h, n);
      SameHalf(x.r.d, y.r.d, Other(x), GivenTo(x.r, Other(x)));
      assert x.copied + [] == x.copied;
    }
  }

  lemma PreparedMore(x: Sound, y: Sound, more: seq<byte>)
    requires Sounds(x) && x.r.d.paused && Good(y.r) && y.at == x.at && y.played == x.played && y.copied == x.copied + more
    requires GivenTo(y.r, Other(x)) == GivenTo(x.r, Other(x)) + more && (!y.r.d.paused ==> |GivenTo(y.r, Other(x))| == HALF)
    requires y.r.d.fifo[x.at..Playing(x) + HALF] == x.r.d.fifo[x.at..Playing(x) + HALF]
    ensures InOrder(y)
  {
    var given := GivenTo(y.r, Other(y));
    if !y.r.d.paused { assert HalfAt(y.r.d, Other(y)) == given + Zeros(0) == given; }
    Assoc(x.played + x.r.d.fifo[x.at..Playing(x) + HALF], Prepared(x), more);
    Assoc(Zeros(FIFO), x.copied, more);
  }

  lemma ResetSounds(x: Sound)
    requires Sounds(x)
    ensures Sounds(Stepped(x, Step.Reset))
  {
    StepGood(x.r, Step.Reset);
    assert x.copied + [] == x.copied;
  }

  /** A word inside a half. */
  lemma InsideSounds(x: Sound)
    requires Sounds(x) && x.at + 4 != HALF && x.at + 4 != FIFO
    ensures Sounds(Played(x))
  {
    var end := Playing(x) + HALF;
    assert x.r.d.fifo[x.at..end] == x.r.d.fifo[x.at..x.at + 4] + x.r.d.fifo[x.at + 4..end];
    Assoc(x.played, x.r.d.fifo[x.at..x.at + 4], x.r.d.fifo[x.at + 4..end]);
  }

  /** The last word of a half: the other one, all of it prepared, is played next. */
  lemma LastWord(x: Sound)
    requires Sounds(x) && !Stopped(x) && (x.at + 4 == HALF || x.at + 4 == FIFO)
    ensures !x.r.d.paused
    ensures x.played + x.r.d.fifo[x.at..x.at + 4] + HalfAt(x.r.d, Other(x)) == Zeros(FIFO) + x.copied
  {
  }

  /** The interrupt after the last word: the half that has been played is refilled. */
  lemma InterruptSounds(x: Sound, y: Sound, s: Step)
    requires Good(x.r) && !x.r.d.paused && (if x.at == HALF then s == Half else x.at == 0 && s == Finish)
    requires x.played + HalfAt(x.r.d, Playing(x)) == Zeros(FIFO) + x.copied
    requires y == Stepped(x, s)
    ensures Sounds(y)
  {
    StepGood(x.r, s);
    RefillPauses(x.r.d, Other(x));
    var o, before := Next(x.r.d, s), HalfAt(x.r.d, Playing(x));
    SameHalf(x.r.d, y.r.d, Playing(x), GivenTo(x.r, Playing(x)));
    assert GivenTo(y.r, Other(y)) == o.copied;
    if !y.r.d.paused { assert HalfAt(y.r.d, Other(y)) == o.copied + Zeros(0) == o.copied; }
    assert y.r.d.fifo[y.at..Playing(y) + HALF] == before;
    Assoc(Zeros(FIFO), x.copied, o.copied);
  }

  /** After an interrupt of a driver that was not paused, it is if the half has not been filled. */
  lemma RefillPauses(d: Driver, base: nat)
    requires WellShaped(d) && !d.paused && (base == 0 || base == HALF)
    ensures var o := Refill(d, base);
      && |o.copied| <= HALF && (o.d.paused <==> |o.copied| < HALF)
      && (o.d.paused ==> o.d.pos + o.d.size == base + HALF && o.d.pauseAt == if base == 0 then 2044 else 1020)
  {
    ReadTakesPrefix(d.q, HALF);
  }

  lemma WordSounds(x: Sound)
    requires Sounds(x) && !Stopped(x)
    ensures Sounds(Played(x))
  {
    if x.at + 4 == HALF || x.at + 4 == FIFO {
      LastWord(x);
      var next := x.(at := if x.at + 4 == FIFO then 0 else x.at + 4, played := x.played + x.r.d.fifo[x.at..x.at + 4]);
      InterruptSounds(next, Played(x), if next.at == HALF then Half else Finish);
    } else {
      InsideSounds(x);
    }
  }

  lemma HappenedSounds(x: Sound, h: Happening)
    requires Sounds(x)
    ensures Sounds(Happened(x, h))
  {
    match h
    case Writes(n) => WriteSounds(x, n);
    case Resets => ResetSounds(x);
    case Word => if !Stopped(x) { WordSounds(x); }
  }

  /** What comes of the given happenings, from the beginning. */
  function Heard(hs: seq<Happening>): (x: Sound)
    ensures Sounds(x)
    decreases |hs|
  {
    if hs == [] then
      BeginningSounds();
      Beginning()
    else
      var x := Heard(hs[..|hs| - 1]);
      HappenedSounds(x, hs[|hs| - 1]);
      Happened(x, hs[|hs| - 1])
  }

  /** What has been played is a prefix of two halves of silence and then all bytes copied, the rest of
      which fits the send buffer; the channel stops only when nothing is queued, and right before the half
      that is still to be filled. */
  predicate OnlyFilled(x: Sound) {
    && x.played <= Zeros(2048) + x.copied && |x.copied| <= |x.played|
    && (Stopped(x) ==> x.r.d.q.nodes == [] && (x.at + 4) % 2048 <= x.r.d.pos < x.r.d.pos + x.r.d.size == (x.at + 4) % 2048 + 1024)
  }

  lemma SoundsFilled(x: Sound)
    requires Sounds(x)
    ensures OnlyFilled(x)
  {
    var rest := x.r.d.fifo[x.at..Playing(x) + HALF] + Prepared(x);
    Assoc(x.played, x.r.d.fifo[x.at..Playing(x) + HALF], Prepared(x));
    assert x.played <= x.played + rest && |rest| <= 2048;
  }

  /** However writes, resets and words of the channel come one after the other, the channel reads nothing
      that has not been filled in. */
  lemma NothingUnfilled(hs: seq<Happening>)
    ensures OnlyFilled(Heard(hs))
  {
    SoundsFilled(Heard(hs));
  }

  lemma CopiedNext(x: Sound, h: Happening)
    requires Sounds(x) && x.copied == x.r.copied && h != Resets
    ensures Happened(x, h).copied == Happened(x, h).r.copied
  {
  }

  lemma {:induction false} CopiedAll(hs: seq<Happening>)
    requires Resets !in hs
    ensures Heard(hs).copied == Heard(hs).r.copied
    decreases |hs|
  {
    if hs != [] {
      CopiedAll(hs[..|hs| - 1]);
      CopiedNext(Heard(hs[..|hs| - 1]), hs[|hs| - 1]);
    }
  }

  lemma CopiedTaken(x: Sound)
    requires Sounds(x) && x.copied == x.r.copied
    ensures x.played <= Zeros(2048) + x.r.taken
  {
    SoundsFilled(x);
    Assoc(Zeros(2048), x.copied, Pending(x.r.d.q));
    assert Zeros(2048) + x.copied <= Zeros(2048) + x.copied + Pending(x.r.d.q);
  }

  /** Without a reset, what is played is the initial silence and then the bytes of the accepted nodes, in
      their order: none is lost, and none comes twice. */
  lemma PlaysWhatIsWritten(hs: seq<Happening>)
    requires Resets !in hs
    ensures Heard(hs).played <= Zeros(2048) + Heard(hs).r.taken
  {
    CopiedAll(hs);
    CopiedTaken(Heard(hs));
  }

  /** A write lets a stopped channel go on exactly if it fills the half. */
  lemma GoesOn(x: Sound, n: Node)
    requires Sounds(x) && Stopped(x)
    ensures Stopped(Happened(x, Writes(n))) <==> |n.data| < x.r.d.size
  {
    WriteAppends(x.r.d.q, n);
    ReadTakesPrefix(WriteQueue(x.r.d.q, n), x.r.d.size);
  }
}
