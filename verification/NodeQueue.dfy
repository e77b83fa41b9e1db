/** The data-node queue of the audio driver: a ring of buffers of any size, read as one byte stream
    in pieces of any size (rt_data_node_write, _read, _is_empty, _empty). */
module NodeQueue {
  import opened Machine
  import opened Sequences

  /** A node: the buffer it points to, and the bytes in it. */
  datatype Node = Node(ptr: nat, data: seq<byte>)

  /** The queued nodes, and how many bytes of the first have been read. */
  datatype Queue = Queue(nodes: seq<Node>, off: nat)

  predicate WellFormed(q: Queue) {
    q.off > 0 ==> q.nodes != [] && q.off < |q.nodes[0].data|
  }

  function Bytes(nodes: seq<Node>): seq<byte> {
    if nodes == [] then [] else nodes[0].data + Bytes(nodes[1..])
  }

  /** The bytes still to be read. */
  function Pending(q: Queue): seq<byte>
    requires WellFormed(q)
  {
    if q.nodes == [] then [] else q.nodes[0].data[q.off..] + Bytes(q.nodes[1..])
  }

  /** What a read does: the bytes it delivers, the queue it leaves, and the nodes it completes. */
  datatype Read = Read(bytes: seq<byte>, q: Queue, done: seq<Node>)

  /** The read loop, on a queue that is not empty. */
  function ReadLoop(q: Queue, size: nat): (r: Read)
    requires WellFormed(q) && q.nodes != []
    ensures WellFormed(r.q)
    decreases |q.nodes|
  {
    var n := q.nodes[0];
    var copy := Min(size, |n.data| - q.off);
    var piece := n.data[q.off..q.off + copy];
    if q.off + copy < |n.data| then Read(piece, Queue(q.nodes, q.off + copy), [])
    else
      var rest := Queue(q.nodes[1..], 0);
      if rest.nodes == [] || copy == size then Read(piece, rest, [n])
      else
        var r := ReadLoop(rest, size - copy);
        Read(piece + r.bytes, r.q, [n] + r.done)
  }

  /** One round of it: bytes of the first node, which is completed when it is used up. */
  function ReadPart(q: Queue, size: nat): (r: Read)
    requires WellFormed(q) && q.nodes != []
    ensures WellFormed(r.q) && |r.bytes| <= size && |r.q.nodes| <= |q.nodes|
    ensures |r.bytes| < size ==> |r.q.nodes| < |q.nodes|
  {
    var n := q.nodes[0];
    var copy := Min(size, |n.data| - q.off);
    var piece := n.data[q.off..q.off + copy];
    if q.off + copy < |n.data| then Read(piece, Queue(q.nodes, q.off + copy), []) else Read(piece, Queue(q.nodes[1..], 0), [n])
  }

  function ReadQueue(q: Queue, size: nat): (r: Read)
    requires WellFormed(q)
    ensures WellFormed(r.q)
  {
    if q.nodes == [] then Read([], q, []) else ReadLoop(q, size)
  }

  /** A read delivers the longest prefix of the pending bytes that fits, and leaves the rest; it
      completes nodes in order, each exactly when its last byte has been delivered. */
  ghost predicate TakesPrefix(q: Queue, size: nat, r: Read)
    requires WellFormed(q) && WellFormed(r.q)
  {
    && |r.bytes| == Min(size, |Pending(q)|)
    && r.bytes + Pending(r.q) == Pending(q)
    && r.done + r.q.nodes == q.nodes
    && (|r.bytes| < size ==> r.q.nodes == [])
  }

  lemma {:induction false} ReadLoopTakesPrefix(q: Queue, size: nat)
    requires WellFormed(q) && q.nodes != []
    ensures TakesPrefix(q, size, ReadLoop(q, size))
    decreases |q.nodes|
  {
    var n, rest := q.nodes[0], Queue(q.nodes[1..], 0);
    PendingWhole(rest);
    if size < |n.data| - q.off {
      TakesPart(q, size);
    } else if rest.nodes == [] || |n.data| - q.off == size {
      TakesNode(q, size);
    } else {
      var more := size - (|n.data| - q.off);
      ReadLoopTakesPrefix(rest, more);
      ReadLoopOn(q, size);
      TakesMore(q, n, rest, size, n.data[q.off..], ReadLoop(rest, more));
    }
  }

  lemma ReadLoopOn(q: Queue, size: nat)
    requires WellFormed(q) && |q.nodes| > 1 && size > |q.nodes[0].data| - q.off
    ensures var (n, r) := (q.nodes[0], ReadLoop(Queue(q.nodes[1..], 0), size - (|q.nodes[0].data| - q.off)));
      ReadLoop(q, size) == Read(n.data[q.off..] + r.bytes, r.q, [n] + r.done)
  {
    var n := q.nodes[0];
    assert n.data[q.off..|n.data|] == n.data[q.off..];
  }

  /** Only part of the first node. */
  lemma TakesPart(q: Queue, size: nat)
    requires WellFormed(q) && q.nodes != [] && size < |q.nodes[0].data| - q.off
    ensures TakesPrefix(q, size, ReadLoop(q, size))
  {
    SplitSuffix(q.nodes[0].data, q.off, size, Bytes(q.nodes[1..]));
  }

  /** Exactly the first node, or less than asked for if it is the last. */
  lemma TakesNode(q: Queue, size: nat)
    requires WellFormed(q) && q.nodes != [] && size >= |q.nodes[0].data| - q.off
    requires |q.nodes| == 1 || |q.nodes[0].data| - q.off == size
    ensures TakesPrefix(q, size, ReadLoop(q, size))
  {
    var n, rest := q.nodes[0], Queue(q.nodes[1..], 0);
    PendingWhole(rest);
    assert n.data[q.off..|n.data|] == n.data[q.off..];
    assert ReadLoop(q, size) == Read(n.data[q.off..], rest, [n]);
  }

  /** The first node used up, and then a read from the others. */
  lemma TakesMore(q: Queue, n: Node, rest: Queue, size: nat, piece: seq<byte>, r: Read)
    requires WellFormed(q) && WellFormed(rest) && WellFormed(r.q) && q.nodes == [n] + rest.nodes
    requires Pending(q) == piece + Pending(rest) && |piece| <= size && TakesPrefix(rest, size - |piece|, r)
    ensures TakesPrefix(q, size, Read(piece + r.bytes, r.q, [n] + r.done))
  {
    Assoc(piece, r.bytes, Pending(r.q));
    Assoc([n], r.done, r.q.nodes);
  }

  lemma SplitSuffix(data: seq<byte>, off: nat, copy: nat, rest: seq<byte>)
    requires off + copy <= |data|
    ensures data[off..off + copy] + (data[off + copy..] + rest) == data[off..] + rest
  {
  }

  /** With nothing read of the first node, everything is pending. */
  lemma PendingWhole(q: Queue)
    requires q.off == 0
    ensures Pending(q) == Bytes(q.nodes)
  {
    if q.nodes != [] { assert q.nodes[0].data[0..] == q.nodes[0].data; }
  }

  lemma ReadTakesPrefix(q: Queue, size: nat)
    requires WellFormed(q)
    ensures TakesPrefix(q, size, ReadQueue(q, size))
  {
    if q.nodes != [] { ReadLoopTakesPrefix(q, size); }
  }

  function WriteQueue(q: Queue, n: Node): Queue {
    Queue(q.nodes + [n], q.off)
  }

  lemma {:induction false} BytesAppend(nodes: seq<Node>, n: Node)
    ensures Bytes(nodes + [n]) == Bytes(nodes) + n.data
  {
    if nodes == [] {
      assert Bytes([n]) == n.data + Bytes([]) == n.data;
    } else {
      BytesAppend(nodes[1..], n);
      assert (nodes + [n])[1..] == nodes[1..] + [n];
    }
  }

  /** A written node appends its bytes to the stream. */
  lemma WriteAppends(q: Queue, n: Node)
    requires WellFormed(q)
    ensures WellFormed(WriteQueue(q, n)) && Pending(WriteQueue(q, n)) == Pending(q) + n.data
  {
    if q.nodes == [] {
      assert WriteQueue(q, n).nodes == [n] && n.data[0..] == n.data;
    } else {
      BytesAppend(q.nodes[1..], n);
      assert (q.nodes + [n])[1..] == q.nodes[1..] + [n];
    }
  }

  /** The size of the pieces in which the queue is emptied. */
  const PIECE: nat := 1024

  /** A piece read and dropped completes nodes or takes pending bytes. */
  lemma DrainStep(q: Queue, done: seq<Node>, before: seq<Node>)
    requires WellFormed(q) && q.nodes != []
    ensures var r := ReadQueue(q, PIECE);
      && (before + done) + r.done == before + (done + r.done) && (done + r.done) + r.q.nodes == done + q.nodes
      && |r.q.nodes| <= |q.nodes| && (|r.q.nodes| == |q.nodes| ==> |Pending(r.q)| < |Pending(q)|)
  {
    ReadTakesPrefix(q, PIECE);
    var r := ReadQueue(q, PIECE);
    Assoc(before, done, r.done);
    Assoc(done, r.done, r.q.nodes);
    assert |r.done| + |r.q.nodes| == |q.nodes|;
    assert |r.bytes| + |Pending(r.q)| == |Pending(q)|;
  }

  class NodeList {
    const node: array<Node>
    var readIndex: nat
    var writeIndex: nat
    var dataOffset: nat
    /** The nodes that the read_complete callback has been given. */
    var completed: seq<Node>

    constructor (size: nat)
      requires size > 0
      ensures Valid() && fresh(node) && node.Length == size
      ensures Abs() == Queue([], 0) && completed == []
    {
      node := new Node[size](_ => Node(0, []));
      readIndex, writeIndex, dataOffset, completed := 0, 0, 0, [];
    }

    /** The nodes from the read index up to the write index, around the ring. */
    ghost function Live(): seq<Node>
      requires readIndex < node.Length && writeIndex < node.Length
      reads this, node
    {
      if readIndex <= writeIndex then node[readIndex..writeIndex] else node[readIndex..] + node[..writeIndex]
    }

    ghost function Abs(): Queue
      requires readIndex < node.Length && writeIndex < node.Length
      reads this, node
    {
      Queue(Live(), dataOffset)
    }

    ghost predicate Valid()
      reads this, node
    {
      readIndex < node.Length && writeIndex < node.Length && WellFormed(Abs())
    }

    method IsEmpty() returns (empty: bool)
      requires Valid()
      ensures empty <==> Abs().nodes == []
    {
      empty := readIndex == writeIndex;
    }

    /** Queues a buffer unless all slots but one are taken. */
    method Write(n: Node) returns (ok: bool)
      requires Valid()
      modifies this`writeIndex, node
      ensures Valid() && ok == (|old(Abs()).nodes| + 1 < node.Length)
      ensures Abs() == if ok then WriteQueue(old(Abs()), n) else old(Abs())
    {
      var next := writeIndex + 1;
      if next >= node.Length { next := 0; }
      if next == readIndex { return false; }
      node[writeIndex] := n;
      writeIndex := next;
      assert Live() == old(Live()) + [n];
      WriteAppends(old(Abs()), n);
      ok := true;
    }

    /** The first node is used up: the callback, and the next slot. */
    method Complete() returns (last: bool)
      requires readIndex < node.Length && writeIndex < node.Length && readIndex != writeIndex
      modifies this`readIndex, this`dataOffset, this`completed
      ensures Valid() && Abs() == Queue(old(Abs()).nodes[1..], 0)
      ensures completed == old(completed) + [old(Abs()).nodes[0]]
      ensures last <==> Abs().nodes == []
    {
      completed := completed + [node[readIndex]];
      var next := readIndex + 1;
      if next >= node.Length { next := 0; }
      readIndex, dataOffset := next, 0;
      assert Live() == old(Live())[1..];
      last := next == writeIndex;
    }

    /** memcpy to the buffer, unless it is null. */
    method Copy(buffer: array?<byte>, at: nat, src: seq<byte>)
      requires buffer != null ==> at + |src| <= buffer.Length
      modifies buffer
      ensures buffer != null ==> buffer[..] == Patched(old(buffer[..]), at, src)
    {
      if buffer != null {
        forall i | 0 <= i < |src| { buffer[at + i] := src[i]; }
        assert buffer[..] == Patched(old(buffer[..]), at, src);
      }
    }

    /** One round of the read loop: part of the first node is copied, and a node that is used up is
        completed. */
    method ReadNode(buffer: array?<byte>, at: nat, want: nat) returns (copy: nat, last: bool)
      requires Valid() && Abs().nodes != []
      requires buffer != null ==> at + want <= buffer.Length
      modifies this`readIndex, this`dataOffset, this`completed, buffer
      ensures Valid()
      ensures var p := ReadPart(old(Abs()), want);
        && copy == |p.bytes| && Abs() == p.q && completed == old(completed) + p.done && last == (p.q.nodes == [])
        && (buffer != null ==> buffer[..] == Patched(old(buffer[..]), at, p.bytes))
    {
      var src := node[readIndex].data;
      assert src == Abs().nodes[0].data;
      var remain := |src| - dataOffset;
      copy := if want > remain then remain else want;
      Copy(buffer, at, src[dataOffset..dataOffset + copy]);
      last := PassBy(copy, want);
    }

    /** The offset moves past what has been copied; a node that is used up is completed. */
    method PassBy(copy: nat, ghost want: nat) returns (last: bool)
      requires Valid() && Abs().nodes != [] && copy == Min(want, |Abs().nodes[0].data| - dataOffset)
      modifies this`readIndex, this`dataOffset, this`completed
      ensures Valid()
      ensures var p := ReadPart(old(Abs()), want);
        Abs() == p.q && completed == old(completed) + p.done && last == (p.q.nodes == [])
    {
      assert node[readIndex] == Abs().nodes[0] && completed + [] == completed;
      dataOffset, last := dataOffset + copy, false;
      if dataOffset >= |node[readIndex].data| { last := Complete(); }
    }

    /** Reads up to `size` bytes; a null buffer takes them and drops them. */
    method ReadInto(buffer: array?<byte>, at: nat, size: nat) returns (result: nat)
      requires Valid() && (buffer != null ==> at + size <= buffer.Length)
      modifies this`readIndex, this`dataOffset, this`completed, buffer
      ensures Valid()
      ensures var r := ReadQueue(old(Abs()), size);
        && result == |r.bytes| <= size && Abs() == r.q && completed == old(completed) + r.done
        && (buffer != null ==> buffer[..] == Patched(old(buffer[..]), at, r.bytes))
    {
      ReadTakesPrefix(Abs(), size);
      if readIndex == writeIndex {
        result := 0;
      } else {
        result := ReadNodes(buffer, at, size, ReadLoop(Abs(), size), if buffer != null then buffer[..] else []);
      }
    }

    method ReadNodes(buffer: array?<byte>, at: nat, size: nat, ghost goal: Read, ghost was: seq<byte>) returns (result: nat)
      requires Valid() && Abs().nodes != [] && goal == ReadLoop(Abs(), size)
      requires buffer != null ==> at + size <= buffer.Length && was == buffer[..]
      modifies this`readIndex, this`dataOffset, this`completed, buffer
      ensures Valid() && result == |goal.bytes| && Abs() == goal.q && completed == old(completed) + goal.done
      ensures Stored(buffer, was, at, goal.bytes)
    {
      result := size;
      var offset := 0;
      ghost var bytes: seq<byte>, done: seq<Node> := [], [];
      assert Then(bytes, done, goal) == goal && completed + done == completed;
      assert buffer != null ==> Patched(was, at, bytes) == was;
      var more := true;
      while more
        invariant Valid() && |bytes| == offset <= size && completed == old(completed) + done
        invariant Stored(buffer, was, at, bytes)
        invariant Under(goal, bytes, done, Abs(), size, more)
        invariant result == if more then size else offset
        decreases more, |Abs().nodes|
      {
        var last;
        offset, last, bytes, done := ReadRound(buffer, at, size, offset, goal, was, bytes, done, old(completed));
        if last { result := offset; }
        more := !last && offset < size;
      }
    }

    /** Reads and drops a piece: nodes are completed, or bytes of the first one are gone. */
    method DropPiece(ghost done0: seq<Node>, ghost before: seq<Node>) returns (ghost done: seq<Node>)
      requires Valid() && Abs().nodes != [] && completed == before + done0
      modifies this`readIndex, this`dataOffset, this`completed
      ensures Valid() && completed == before + done && done + Abs().nodes == done0 + old(Abs()).nodes
      ensures |Abs().nodes| <= |old(Abs()).nodes|
      ensures |Abs().nodes| == |old(Abs()).nodes| ==> |Pending(Abs())| < |Pending(old(Abs()))|
    {
      DrainStep(Abs(), done0, before);
      done := done0 + ReadQueue(Abs(), PIECE).done;
      var n := ReadInto(null, 0, PIECE);
    }

    /** Reads and drops pieces until nothing is left: ends, with every node completed in order. */
    method Empty()
      requires Valid()
      modifies this`readIndex, this`dataOffset, this`completed
      ensures Valid() && Abs() == Queue([], 0) && completed == old(completed) + old(Abs()).nodes
    {
      ghost var done: seq<Node> := [];
      ghost var nodes, before := Abs().nodes, completed;
      assert before + done == before && done + nodes == nodes;
      while readIndex != writeIndex
        invariant Valid() && completed == before + done && done + Abs().nodes == nodes
        decreases |Abs().nodes|, |Pending(Abs())|
      {
        done := DropPiece(done, before);
      }
      assert done + [] == done;
    }

    /** The buffer, if there is one, holds `bytes` from `at` on and is otherwise as it `was`. */
    ghost predicate Stored(buffer: array?<byte>, was: seq<byte>, at: nat, bytes: seq<byte>)
      reads buffer
    {
      buffer != null ==> at + |bytes| <= |was| == buffer.Length && buffer[..] == Patched(was, at, bytes)
    }

    lemma StoredNext(buffer: array?<byte>, was: seq<byte>, at: nat, a: seq<byte>, b: seq<byte>)
      requires buffer != null ==> at + |a| + |b| <= |was| == buffer.Length
      requires buffer != null ==> buffer[..] == Patched(Patched(was, at, a), at + |a|, b)
      ensures Stored(buffer, was, at, a + b)
    {
      if buffer != null { PatchedTwice(was, at, a, b); }
    }

    method ReadRound(buffer: array?<byte>, at: nat, size: nat, offset0: nat, ghost goal: Read, ghost was: seq<byte>,
                     ghost bytes0: seq<byte>, ghost done0: seq<Node>, ghost before: seq<Node>)
      returns (offset: nat, last: bool, ghost bytes: seq<byte>, ghost done: seq<Node>)
      requires Valid() && |bytes0| == offset0 <= size && Under(goal, bytes0, done0, Abs(), size, true)
      requires completed == before + done0 && Stored(buffer, was, at, bytes0) && (buffer != null ==> at + size <= buffer.Length)
      modifies this`readIndex, this`dataOffset, this`completed, buffer
      ensures Valid() && |bytes| == offset <= size && Stored(buffer, was, at, bytes)
      ensures completed == before + done
      ensures Under(goal, bytes, done, Abs(), size, !last && offset < size)
      ensures !last && offset < size ==> |Abs().nodes| < |old(Abs()).nodes|
    {
      ghost var q := Abs();
      ghost var p := ReadPart(q, size - offset0);
      var copy;
      copy, last := ReadNode(buffer, at + offset0, size - offset0);
      offset, bytes, done := offset0 + copy, bytes0 + p.bytes, done0 + p.done;
      UnderStep(goal, bytes0, done0, q, size);
      StoredNext(buffer, was, at, bytes0, p.bytes);
      Assoc(before, done0, p.done);
    }
  }

  /** With `bytes` and `done` behind it and `q` left, the read comes to `goal`: by going on if there is
      `more` to do, or else as it is. */
  ghost predicate Under(goal: Read, bytes: seq<byte>, done: seq<Node>, q: Queue, size: nat, more: bool) {
    && WellFormed(q) && |bytes| <= size
    && if more then q.nodes != [] && goal == Then(bytes, done, ReadLoop(q, size - |bytes|)) else goal == Read(bytes, q, done)
  }

  lemma UnderStep(goal: Read, bytes: seq<byte>, done: seq<Node>, q: Queue, size: nat)
    requires Under(goal, bytes, done, q, size, true)
    ensures var p := ReadPart(q, size - |bytes|);
      Under(goal, bytes + p.bytes, done + p.done, p.q, size, p.q.nodes != [] && |bytes| + |p.bytes| < size)
  {
    ReadLoopStep(q, size - |bytes|, bytes, done);
  }

  /** A read that follows what has been read already. */
  function Then(bytes: seq<byte>, done: seq<Node>, r: Read): Read {
    Read(bytes + r.bytes, r.q, done + r.done)
  }

  /** One round of the read loop. */
  lemma ReadLoopStep(q: Queue, size: nat, bytes: seq<byte>, done: seq<Node>)
    requires WellFormed(q) && q.nodes != []
    ensures var p := ReadPart(q, size);
      Then(bytes, done, ReadLoop(q, size)) ==
        if p.q.nodes == [] || |p.bytes| == size then Read(bytes + p.bytes, p.q, done + p.done)
        else Then(bytes + p.bytes, done + p.done, ReadLoop(p.q, size - |p.bytes|))
  {
    var p := ReadPart(q, size);
    if p.q.nodes != [] && |p.bytes| < size {
      var r := ReadLoop(p.q, size - |p.bytes|);
      Assoc(bytes, p.bytes, r.bytes);
      Assoc(done, p.done, r.done);
    }
  }
}
