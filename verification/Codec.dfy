/** The DMA refill protocol of the audio driver: the writer and the two DMA interrupts share the
    node queue, the send buffer with its two halves, and the pause state. */
module Codec {
  import opened Machine
  import opened NodeQueue
  import opened Sequences

  const FIFO: nat := 2048
  const HALF: nat := 1024

  /** Slots of the node list; one stays free. */
  const SLOTS: nat := 12

  /** The driver: the queue, the send buffer, whether the DMA is told to pause and where, and the part
      of the buffer that the writer is to fill first. */
  datatype Driver = Driver(q: Queue, fifo: seq<byte>, paused: bool, pauseAt: nat, pos: nat, size: nat)

  /** What can happen to it, each at one moment. */
  datatype Step = Write(n: Node) | Half | Finish | Reset

  /** The state after a step, the bytes copied to the send buffer, and the nodes accepted and completed. */
  datatype Outcome = Outcome(d: Driver, copied: seq<byte>, accepted: seq<Node>, done: seq<Node>)

  predicate WellShaped(d: Driver) {
    && WellFormed(d.q) && |d.q.nodes| < SLOTS && |d.fifo| == FIFO
    && (d.paused ==> d.pos + d.size <= FIFO)
  }

  /** The pause address for the half at `base`: the last word of the other half. */
  function PauseFor(base: nat): nat {
    if base == 0 then FIFO - 4 else HALF - 4
  }

  /** A DMA interrupt: the half at `base` is cleared and refilled from the queue; when the queue runs
      dry, the DMA is told to pause before it comes back to this half. */
  function Refill(d: Driver, base: nat): (o: Outcome)
    requires WellShaped(d) && base + HALF <= FIFO
    ensures WellFormed(o.d.q)
  {
    ReadTakesPrefix(d.q, HALF);
    var r := ReadQueue(d.q, HALF);
    var fifo := Patched(Patched(d.fifo, base, Zeros(HALF)), base, r.bytes);
    var n := |r.bytes|;
    if n < HALF then Outcome(Driver(r.q, fifo, true, PauseFor(base), base + n, HALF - n), r.bytes, [], r.done)
    else Outcome(d.(q := r.q, fifo := fifo), r.bytes, [], r.done)
  }

  /** The writer: the node is queued if there is room; a paused DMA gets its bytes at once, and goes
      on when its half is full. */
  function Written(d: Driver, n: Node): (o: Outcome)
    requires WellShaped(d)
    ensures WellFormed(o.d.q)
  {
    WriteAppends(d.q, n);
    var ok := |d.q.nodes| + 1 < SLOTS;
    var q := if ok then WriteQueue(d.q, n) else d.q;
    var accepted := if ok then [n] else [];
    if !d.paused then Outcome(d.(q := q), [], accepted, [])
    else
      ReadTakesPrefix(q, d.size);
      var r := ReadQueue(q, d.size);
      var fifo := Patched(d.fifo, d.pos, r.bytes);
      var k := |r.bytes|;
      if k == d.size then Outcome(d.(q := r.q, fifo := fifo, paused := false, pauseAt := 0), r.bytes, accepted, r.done)
      else Outcome(d.(q := r.q, fifo := fifo, pos := d.pos + k, size := d.size - k), r.bytes, accepted, r.done)
  }

  function Next(d: Driver, s: Step): (o: Outcome)
    requires WellShaped(d)
    ensures WellFormed(o.d.q)
  {
    match s
    case Write(n) => Written(d, n)
    case Half => Refill(d, 0)
    case Finish => Refill(d, HALF)
    case Reset => Outcome(d.(q := Queue([], 0)), [], [], d.q.nodes)
  }

  // ----- the invariant -----

  /** The bytes copied to each half since its last interrupt. */
  datatype Halves = Halves(low: seq<byte>, high: seq<byte>)

  function HalfAt(d: Driver, base: nat): seq<byte>
    requires |d.fifo| == FIFO && base + HALF <= FIFO
  {
    d.fifo[base..base + HALF]
  }

  /** A half holds the bytes copied to it since its interrupt, and zeros after them. */
  predicate Fresh(d: Driver, base: nat, copied: seq<byte>)
    requires |d.fifo| == FIFO && base + HALF <= FIFO
  {
    |copied| <= HALF && HalfAt(d, base) == copied + Zeros(HALF - |copied|)
  }

  /** When the DMA is paused, nothing is queued, the part to be filled is the rest of one half, and
      the pause comes before that half; when it is not, no pause address is set. */
  predicate PauseInv(d: Driver, h: Halves) {
    if d.paused then
      && d.q.nodes == [] && 0 < d.size <= HALF
      && (d.pos + d.size == HALF ==> d.pauseAt == PauseFor(0) && |h.low| + d.size == HALF)
      && (d.pos + d.size != HALF ==> d.pos + d.size == FIFO && d.pauseAt == PauseFor(HALF) && |h.high| + d.size == HALF)
    else d.pauseAt == 0
  }

  predicate Inv(d: Driver, h: Halves) {
    WellShaped(d) && PauseInv(d, h) && Fresh(d, 0, h.low) && Fresh(d, HALF, h.high)
  }

  /** What each half has been given, after a step. */
  function Given(d: Driver, h: Halves, s: Step): Halves
    requires WellShaped(d)
  {
    var o := Next(d, s);
    match s
    case Half => Halves(o.copied, h.high)
    case Finish => Halves(h.low, o.copied)
    case Write(_) => if d.paused && d.pos + d.size == HALF then Halves(h.low + o.copied, h.high)
                     else if d.paused then Halves(h.low, h.high + o.copied) else h
    case Reset => h
  }

  // ----- runs -----

  /** A run: the state, the bytes copied and the bytes accepted since the last reset, and all nodes
      accepted and completed from the beginning. */
  datatype Run = Run(d: Driver, h: Halves, copied: seq<byte>, taken: seq<byte>, accepted: seq<Node>, done: seq<Node>)

  function Start(): Run {
    Run(Driver(Queue([], 0), Zeros(FIFO), false, 0, 0, 0), Halves([], []), [], [], [], [])
  }

  function Extend(r: Run, s: Step): Run
    requires WellShaped(r.d)
  {
    var o := Next(r.d, s);
    Run(o.d, Given(r.d, r.h, s),
        if s.Reset? then [] else r.copied + o.copied,
        if s.Reset? then [] else r.taken + Bytes(o.accepted),
        r.accepted + o.accepted, r.done + o.done)
  }

  /** What every run keeps: the invariant; bytes copied, then bytes queued, are the bytes taken since
      the last reset; nodes completed, then nodes queued, are all nodes ever accepted. */
  predicate Good(r: Run) {
    && Inv(r.d, r.h)
    && r.copied + Pending(r.d.q) == r.taken
    && r.done + r.d.q.nodes == r.accepted
  }

  /** The run of the given steps. */
  function After(steps: seq<Step>): (r: Run)
    ensures Good(r)
    decreases |steps|
  {
    if steps == [] then
      StartGood();
      Start()
    else
      var r := After(steps[..|steps| - 1]);
      StepGood(r, steps[|steps| - 1]);
      Extend(r, steps[|steps| - 1])
  }

  lemma StartGood()
    ensures Good(Start())
  {
    var d := Start().d;
    assert HalfAt(d, 0) == [] + Zeros(HALF) && HalfAt(d, HALF) == [] + Zeros(HALF);
  }

  lemma PatchHalf(fifo: seq<byte>, base: nat, at: nat, bytes: seq<byte>, copied: seq<byte>)
    requires |fifo| == FIFO && (base == 0 || base == HALF)
    requires at == base + |copied| && |copied| + |bytes| <= HALF
    requires fifo[base..base + HALF] == copied + Zeros(HALF - |copied|)
    ensures var f := Patched(fifo, at, bytes);
      f[base..base + HALF] == copied + bytes + Zeros(HALF - |copied| - |bytes|) && f[HALF - base..FIFO - base] == fifo[HALF - base..FIFO - base]
  {
    var f := Patched(fifo, at, bytes);
    var goal := copied + bytes + Zeros(HALF - |copied| - |bytes|);
    forall i | 0 <= i < HALF ensures f[base..base + HALF][i] == goal[i] {
      assert f[base..base + HALF][i] == f[base + i] && fifo[base..base + HALF][i] == fifo[base + i];
      if i < |copied| {
        assert f[base + i] == fifo[base + i] && goal[i] == copied[i];
      } else if i < |copied| + |bytes| {
        assert f[base + i] == bytes[i - |copied|] == goal[i];
      } else {
        assert f[base + i] == fifo[base + i] && goal[i] == 0;
      }
    }
  }

  lemma ClearHalf(fifo: seq<byte>, base: nat)
    requires |fifo| == FIFO && (base == 0 || base == HALF)
    ensures var f := Patched(fifo, base, Zeros(HALF));
      f[base..base + HALF] == [] + Zeros(HALF) && f[HALF - base..FIFO - base] == fifo[HALF - base..FIFO - base]
  {
  }

  lemma RefillGood(d: Driver, h: Halves, base: nat)
    requires Inv(d, h) && (base == 0 || base == HALF)
    ensures var o := Refill(d, base);
      && Inv(o.d, if base == 0 then Halves(o.copied, h.high) else Halves(h.low, o.copied))
      && o.copied + Pending(o.d.q) == Pending(d.q) && o.done + o.d.q.nodes == d.q.nodes && o.accepted == []
  {
    ReadTakesPrefix(d.q, HALF);
    var r := ReadQueue(d.q, HALF);
    ClearHalf(d.fifo, base);
    PatchHalf(Patched(d.fifo, base, Zeros(HALF)), base, base, r.bytes, []);
    assert [] + r.bytes == r.bytes;
    assert |r.done| + |r.q.nodes| == |d.q.nodes|;
  }

  /** The half that the writer is filling. */
  function Filling(d: Driver): nat {
    if d.pos + d.size == HALF then 0 else HALF
  }

  lemma FillGood(d: Driver, h: Halves, n: Node)
    requires Inv(d, h) && d.paused
    ensures var o := Written(d, n);
      && Inv(o.d, Given(d, h, Write(n))) && o.accepted == [n]
      && o.copied + Pending(o.d.q) == Pending(d.q) + n.data && o.done + o.d.q.nodes == d.q.nodes + [n]
  {
    WriteAppends(d.q, n);
    var q := WriteQueue(d.q, n);
    ReadTakesPrefix(q, d.size);
    var r := ReadQueue(q, d.size);
    PatchHalf(d.fifo, Filling(d), d.pos, r.bytes, if Filling(d) == 0 then h.low else h.high);
    assert |r.done| + |r.q.nodes| == 1;
  }

  lemma QueueGood(d: Driver, h: Halves, n: Node)
    requires Inv(d, h) && !d.paused
    ensures var o := Written(d, n);
      && Inv(o.d, h) && o.copied == [] && o.done == []
      && Pending(o.d.q) == Pending(d.q) + Bytes(o.accepted) && o.d.q.nodes == d.q.nodes + o.accepted
  {
    WriteAppends(d.q, n);
    assert Bytes([n]) == n.data + Bytes([]) == n.data;
  }

  /** Every step keeps what a run keeps. */
  lemma StepGood(r: Run, s: Step)
    requires Good(r)
    ensures Good(Extend(r, s))
  {
    match s
    case Half => RefillGood(r.d, r.h, 0); Accounts(r, s);
    case Finish => RefillGood(r.d, r.h, HALF); Accounts(r, s);
    case Write(n) =>
      if r.d.paused {
        FillGood(r.d, r.h, n);
        assert Bytes([n]) == n.data + Bytes([]) == n.data;
      } else {
        QueueGood(r.d, r.h, n);
      }
      Accounts(r, s);
    case Reset =>
      assert r.done + r.d.q.nodes + [] == r.accepted;
  }

  /** What a step copies and completes comes from what was queued or is accepted. */
  lemma Accounts(r: Run, s: Step)
    requires Good(r) && !s.Reset?
    requires var o := Next(r.d, s);
      && o.copied + Pending(o.d.q) == Pending(r.d.q) + Bytes(o.accepted) && o.done + o.d.q.nodes == r.d.q.nodes + o.accepted
    ensures var e := Extend(r, s);
      e.copied + Pending(e.d.q) == e.taken && e.done + e.d.q.nodes == e.accepted
  {
    var o := Next(r.d, s);
    Assoc(r.copied, o.copied, Pending(o.d.q));
    Assoc(r.copied, Pending(r.d.q), Bytes(o.accepted));
    Assoc(r.done, o.done, o.d.q.nodes);
    Assoc(r.done, r.d.q.nodes, o.accepted);
  }

  /** A paused DMA: nothing is left to copy; the part still to be filled is the rest of a half, and is
      silent. For the lower half the DMA stops before the last word of the buffer, where it would begin
      again; for the upper half before the word in front of it. */
  predicate Waiting(r: Run) {
    && r.d.q.nodes == [] && r.copied == r.taken && r.done == r.accepted
    && |r.d.fifo| == FIFO && 0 < r.d.size && (r.d.pos + r.d.size == HALF || r.d.pos + r.d.size == FIFO)
    && r.d.pauseAt == (if r.d.pos + r.d.size == 1024 then 2044 else 1020)
    && r.d.fifo[r.d.pos..r.d.pos + r.d.size] == Zeros(r.d.size)
  }

  lemma PausedWaits(r: Run)
    requires Good(r) && r.d.paused
    ensures Waiting(r)
  {
    var d, base, copied := r.d, Filling(r.d), if Filling(r.d) == 0 then r.h.low else r.h.high;
    var rest := HALF - |copied|;
    assert d.fifo[d.pos..d.pos + d.size] == HalfAt(d, base)[|copied|..] == Zeros(rest);
  }

  /** In every run: what has been copied is a prefix of what was taken, and nodes are completed in the
      order in which they were accepted, each once; a paused DMA waits for data. */
  lemma EveryRun(steps: seq<Step>)
    ensures After(steps).copied <= After(steps).taken && After(steps).done <= After(steps).accepted
    ensures After(steps).d.paused ==> Waiting(After(steps))
  {
    var r := After(steps);
    if r.d.paused { PausedWaits(r); }
  }

  /** A refill in the parts that a handler does one after the other. */
  lemma RefillParts(d: Driver, base: nat)
    requires WellShaped(d) && base + HALF <= FIFO
    ensures var (r, o, cleared) := (ReadQueue(d.q, HALF), Refill(d, base), Patched(d.fifo, base, Zeros(HALF)));
      && |r.bytes| <= HALF && |r.q.nodes| < SLOTS
      && o.done == r.done && WellShaped(o.d)
      && o.d == (if |r.bytes| < HALF
           then Driver(r.q, Patched(cleared, base, r.bytes), true, PauseFor(base), base + |r.bytes|, HALF - |r.bytes|)
           else d.(q := r.q, fifo := Patched(cleared, base, r.bytes)))
      && (d.q.nodes == [] ==> r == Read([], d.q, []) && Patched(cleared, base, []) == cleared)
  {
    ReadTakesPrefix(d.q, HALF);
  }

  class AudioCodec {
    const nodeList: NodeList
    const sendFifo: array<byte>
    var paused: bool
    var pauseAddr: nat
    var fillPos: nat
    var fillSize: nat

    constructor ()
      ensures Valid() && Abs() == Start().d
      ensures fresh(nodeList) && fresh(nodeList.node) && fresh(sendFifo)
    {
      nodeList := new NodeList(SLOTS);
      sendFifo := new byte[FIFO](_ => 0);
      paused, pauseAddr, fillPos, fillSize := false, 0, 0, 0;
      new;
      assert sendFifo[..] == Zeros(FIFO);
    }

    ghost predicate Valid()
      reads this, nodeList, nodeList.node, sendFifo
    {
      nodeList.Valid() && nodeList.node.Length == SLOTS && WellShaped(Abs())
    }

    ghost function Abs(): Driver
      requires nodeList.Valid()
      reads this, nodeList, nodeList.node, sendFifo
    {
      Driver(nodeList.Abs(), sendFifo[..], paused, pauseAddr, fillPos, fillSize)
    }

    /** memset of a half. */
    method Clear(base: nat)
      requires sendFifo.Length == FIFO && base + HALF <= FIFO
      modifies sendFifo
      ensures sendFifo[..] == Patched(old(sendFifo[..]), base, Zeros(HALF))
    {
      forall i | base <= i < base + HALF { sendFifo[i] := 0; }
      assert sendFifo[..] == Patched(old(sendFifo[..]), base, Zeros(HALF));
    }

    method PauseBefore(base: nat, filled: nat)
      requires filled <= HALF && (base == 0 || base == HALF)
      modifies this
      ensures paused && pauseAddr == (if base == 0 then 2044 else 1020) && fillPos == base + filled && fillSize == HALF - filled
    {
      pauseAddr := if base == 0 then FIFO - 4 else HALF - 4;
      paused, fillPos, fillSize := true, base + filled, HALF - filled;
    }

    /** Both interrupt handlers, for the half at `base`. */
    method Handler(base: nat)
      requires Valid() && (base == 0 || base == HALF)
      modifies this, nodeList, sendFifo
      ensures Valid() && Abs() == Refill(old(Abs()), base).d
      ensures nodeList.completed == old(nodeList.completed) + Refill(old(Abs()), base).done
    {
      ghost var d := Abs();
      var empty := nodeList.IsEmpty();
      Clear(base);
      RefillParts(d, base);
      if empty {
        PauseBefore(base, 0);
        assert nodeList.completed + [] == nodeList.completed;
      } else {
        var result := nodeList.ReadInto(sendFifo, base, HALF);
        if result < HALF { PauseBefore(base, result); }
      }
    }

    method DacDmaHalfHandler()
      requires Valid()
      modifies this, nodeList, sendFifo
      ensures Valid() && Abs() == Next(old(Abs()), Half).d
      ensures nodeList.completed == old(nodeList.completed) + Next(old(Abs()), Half).done
    {
      Handler(0);
    }

    method DacDmaFinishHandler()
      requires Valid()
      modifies this, nodeList, sendFifo
      ensures Valid() && Abs() == Next(old(Abs()), Finish).d
      ensures nodeList.completed == old(nodeList.completed) + Next(old(Abs()), Finish).done
    {
      Handler(HALF);
    }

    /** audio_codec_write; `ok` is false when the node list is full. */
    method Write(n: Node) returns (ok: bool)
      requires Valid()
      modifies this, nodeList, nodeList.node, sendFifo
      ensures Valid() && Abs() == Next(old(Abs()), Step.Write(n)).d
      ensures nodeList.completed == old(nodeList.completed) + Next(old(Abs()), Step.Write(n)).done
      ensures Next(old(Abs()), Step.Write(n)).accepted == if ok then [n] else []
    {
      ghost var d := Abs();
      ok := nodeList.Write(n);
      if paused {
        ReadTakesPrefix(nodeList.Abs(), fillSize);
        var result := nodeList.ReadInto(sendFifo, fillPos, fillSize);
        if result == fillSize {
          paused, pauseAddr := false, 0;
        } else {
          fillPos, fillSize := fillPos + result, fillSize - result;
        }
      }
    }

    /** The reset command. */
    method Reset()
      requires Valid()
      modifies nodeList
      ensures Valid() && Abs() == Next(old(Abs()), Step.Reset).d
      ensures nodeList.completed == old(nodeList.completed) + Next(old(Abs()), Step.Reset).done
    {
      nodeList.Empty();
    }
  }
}
