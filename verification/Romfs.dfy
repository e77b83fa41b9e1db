/** The ROM file system image that mkromfs.py writes: its recursive layout with absolute addresses. */
module Romfs {
  import opened Machine
  import opened Sequences

  datatype Node = File(name: seq<byte>, data: seq<byte>) | Folder(name: seq<byte>, children: seq<Node>)

  datatype Option<T> = None | Some(value: T)

  /** Size of a directory entry. */
  const ENTRY: nat := 16

  // ----- writing -----

  /** A name with one to four zero bytes after it. */
  function BinName(name: seq<byte>): (s: seq<byte>)
    ensures |s| % 4 == 0 && |s| > |name|
  {
    name + Zeros(4 - |name| % 4)
  }

  /** Data filled up to a multiple of four bytes. */
  function Padded(data: seq<byte>): (s: seq<byte>)
    ensures |s| % 4 == 0 && data <= s
  {
    if |data| % 4 != 0 then data + Zeros(4 - |data| % 4) else data
  }

  /** Four bytes, low byte first. */
  function Word(v: nat): (s: seq<byte>)
    requires v < TWO32
    ensures |s| == 4
  {
    [v % 256, v / 256 % 256, v / 65536 % 256, v / 16777216]
  }

  /** A directory entry; a field that does not fit 32 bits is an error. */
  function Entry(tp: nat, name: nat, data: nat, size: nat): (s: Option<seq<byte>>)
    ensures s.Some? ==> |s.value| == ENTRY
    ensures s.None? <==> tp >= TWO32 || name >= TWO32 || data >= TWO32 || size >= TWO32
  {
    if tp < TWO32 && name < TWO32 && data < TWO32 && size < TWO32
    then Some(Word(tp) + Word(name) + Word(data) + Word(size)) else None
  }

  function Type(n: Node): nat {
    if n.File? then 0 else 1
  }

  function EntrySize(n: Node): nat {
    match n case File(_, data) => |data| case Folder(_, children) => |children|
  }

  /** The entries of a folder, and the names and data of its children. */
  datatype Parts = Parts(entries: seq<byte>, payload: seq<byte>)

  /** The data of a node when it is placed at address `base`. */
  function BinData(n: Node, base: nat): Option<seq<byte>>
    decreases n, 1
  {
    match n
    case File(_, data) => Some(data)
    case Folder(_, children) =>
      match BinChildren(children, base + ENTRY * |children|)
      case None => None
      case Some(ps) => Some(ps.entries + ps.payload)
  }

  /** A child: its entry, its name and data as they are stored, and the address after them. */
  datatype Placed = Placed(entry: seq<byte>, name: nat, data: seq<byte>, payload: seq<byte>, after: nat)

  /** A child whose name begins at address `at`; its data comes right after the name. */
  function Place(c: Node, at: nat): (r: Option<Placed>)
    ensures r.Some? ==> |r.value.entry| == ENTRY && r.value.after == at + |r.value.payload|
    decreases c, 2
  {
    var name := at + |BinName(c.name)|;
    match BinData(c, name)
    case None => None
    case Some(data) =>
      match Entry(Type(c), at, name, EntrySize(c))
      case None => None
      case Some(entry) => Some(Placed(entry, name, data, BinName(c.name) + Padded(data), name + |Padded(data)|))
  }

  /** The children of a folder, when their names and data begin at address `at`. */
  function BinChildren(cs: seq<Node>, at: nat): (r: Option<Parts>)
    ensures r.Some? ==> |r.value.entries| == ENTRY * |cs|
    decreases cs, 0
  {
    if cs == [] then Some(Parts([], []))
    else
      match Place(cs[0], at)
      case None => None
      case Some(first) =>
        match BinChildren(cs[1..], first.after)
        case None => None
        case Some(rest) => Some(Parts(first.entry + rest.entries, first.payload + rest.payload))
  }

  /** The root entry, its name, and the tree. */
  function Image(tree: Node, base: nat): Option<seq<byte>>
    requires tree.Folder?
  {
    var name := base + ENTRY;
    match Entry(1, name, name + 4, |tree.children|)
    case None => None
    case Some(entry) =>
      match BinData(tree, name + 4)
      case None => None
      case Some(data) => Some(entry + [47, 0, 0, 0] + data)
  }

  /** An image byte by byte: a file "a" of two bytes and an empty folder "bcde", at 0x01020304. */
  lemma SmallImage()
    ensures Image(Folder([], [File([97], [65, 66]), Folder([98, 99, 100, 101], [])]), 0x01020304) == Some(
      [1, 0, 0, 0, 0x14, 3, 2, 1, 0x18, 3, 2, 1, 2, 0, 0, 0] + [47, 0, 0, 0] +
      ([0, 0, 0, 0, 0x38, 3, 2, 1, 0x3C, 3, 2, 1, 2, 0, 0, 0] + [1, 0, 0, 0, 0x40, 3, 2, 1, 0x48, 3, 2, 1, 0, 0, 0, 0] +
       ([97, 0, 0, 0, 65, 66, 0, 0] + [98, 99, 100, 101, 0, 0, 0, 0])))
  {
    var file, folder := File([97], [65, 66]), Folder([98, 99, 100, 101], []);
    var p := SmallFile();
    var q := SmallFolder();
    TwoChildren(file, folder, 0x01020338, p, q);
    SmallRoot();
    TreeImage([file, folder], 0x01020304, Parts(p.entry + q.entry, p.payload + q.payload));
  }

  lemma TreeImage(cs: seq<Node>, base: nat, ps: Parts)
    requires base + ENTRY + 4 < TWO32 && |cs| < TWO32 && BinChildren(cs, base + ENTRY + 4 + ENTRY * |cs|) == Some(ps)
    ensures Image(Folder([], cs), base) ==
      Some(Entry(1, base + ENTRY, base + ENTRY + 4, |cs|).value + [47, 0, 0, 0] + (ps.entries + ps.payload))
  {
  }

  lemma SmallEntry(tp: byte, low0: byte, low1: byte, size: byte)
    ensures Entry(tp, 0x01020300 + low0, 0x01020300 + low1, size) == Some([tp, 0, 0, 0, low0, 3, 2, 1, low1, 3, 2, 1, size, 0, 0, 0])
  {
    SmallWord(low0);
    SmallWord(low1);
    LowWord(tp);
    LowWord(size);
    assert [tp, 0, 0, 0] + [low0, 3, 2, 1] + [low1, 3, 2, 1] + [size, 0, 0, 0] == [tp, 0, 0, 0, low0, 3, 2, 1, low1, 3, 2, 1, size, 0, 0, 0];
  }

  lemma LowWord(low: byte)
    ensures Word(low) == [low, 0, 0, 0]
  {
  }

  lemma SmallWord(low: byte)
    ensures Word(0x01020300 + low) == [low, 3, 2, 1]
  {
  }

  lemma SmallRoot()
    ensures Entry(1, 0x01020314, 0x01020318, 2) == Some([1, 0, 0, 0, 0x14, 3, 2, 1, 0x18, 3, 2, 1, 2, 0, 0, 0])
  {
    SmallEntry(1, 0x14, 0x18, 2);
  }

  lemma SmallFile() returns (p: Placed)
    ensures Place(File([97], [65, 66]), 0x01020338) == Some(p) && p.after == 0x01020340
    ensures p.entry == [0, 0, 0, 0, 0x38, 3, 2, 1, 0x3C, 3, 2, 1, 2, 0, 0, 0] && p.payload == [97, 0, 0, 0, 65, 66, 0, 0]
  {
    SmallEntry(0, 0x38, 0x3C, 2);
    assert BinName([97]) == [97, 0, 0, 0] && Padded([65, 66]) == [65, 66, 0, 0];
    p := Place(File([97], [65, 66]), 0x01020338).value;
  }

  lemma SmallFolder() returns (p: Placed)
    ensures Place(Folder([98, 99, 100, 101], []), 0x01020340) == Some(p)
    ensures p.entry == [1, 0, 0, 0, 0x40, 3, 2, 1, 0x48, 3, 2, 1, 0, 0, 0, 0] && p.payload == [98, 99, 100, 101, 0, 0, 0, 0]
  {
    SmallEntry(1, 0x40, 0x48, 0);
    assert BinName([98, 99, 100, 101]) == [98, 99, 100, 101, 0, 0, 0, 0];
    assert BinData(Folder([98, 99, 100, 101], []), 0x01020348) == Some([] + []);
    p := Place(Folder([98, 99, 100, 101], []), 0x01020340).value;
  }

  lemma TwoChildren(a: Node, b: Node, at: nat, p: Placed, q: Placed)
    requires Place(a, at) == Some(p) && Place(b, p.after) == Some(q)
    ensures BinChildren([a, b], at) == Some(Parts(p.entry + q.entry, p.payload + q.payload))
  {
    LastChild(b, p.after, q);
    assert [a, b][1..] == [b];
  }

  lemma LastChild(b: Node, at: nat, q: Placed)
    requires Place(b, at) == Some(q)
    ensures BinChildren([b], at) == Some(Parts(q.entry, q.payload))
  {
    assert [b][1..] == [] && BinChildren([], q.after) == Some(Parts([], []));
    assert q.entry + [] == q.entry && q.payload + [] == q.payload;
  }

  /** The layout of the first child and of the others. */
  lemma FirstPlaced(cs: seq<Node>, at: nat) returns (first: Placed, rest: Parts)
    requires cs != [] && BinChildren(cs, at).Some?
    ensures Place(cs[0], at) == Some(first) && BinChildren(cs[1..], first.after) == Some(rest)
    ensures BinChildren(cs, at) == Some(Parts(first.entry + rest.entries, first.payload + rest.payload))
  {
    first := Place(cs[0], at).value;
    rest := BinChildren(cs[1..], first.after).value;
  }

  // ----- the loop over the children -----

  function Join(parts: seq<seq<byte>>): seq<byte>
    decreases |parts|
  {
    if parts == [] then [] else Join(parts[..|parts| - 1]) + parts[|parts| - 1]
  }

  lemma JoinMore(parts: seq<seq<byte>>, s: seq<byte>)
    ensures Join(parts + [s]) == Join(parts) + s
  {
    assert (parts + [s])[..|parts|] == parts;
  }

  method Extend(dLi0: seq<seq<byte>>, pLi0: seq<seq<byte>>, entry: seq<byte>, name: seq<byte>, data: seq<byte>)
    returns (dLi: seq<seq<byte>>, pLi: seq<seq<byte>>)
    ensures Join(dLi) == Join(dLi0) + entry && Join(pLi) == Join(pLi0) + (name + data)
  {
    JoinMore(dLi0, entry);
    JoinMore(pLi0, name);
    JoinMore(pLi0 + [name], data);
    Assoc(Join(pLi0), name, data);
    assert pLi0 + [name, data] == pLi0 + [name] + [data];
    dLi, pLi := dLi0 + [entry], pLi0 + [name, data];
  }

  /** What the loop has collected, and what is still to come. */
  function Collected(d: seq<byte>, p: seq<byte>, rest: Option<Parts>): Option<Parts> {
    match rest case None => None case Some(r) => Some(Parts(d + r.entries, p + r.payload))
  }

  lemma CollectMore(d: seq<byte>, p: seq<byte>, c: Placed, rest: Option<Parts>)
    ensures Collected(d + c.entry, p + c.payload, rest) ==
      match rest case None => None case Some(r) => Some(Parts(d + (c.entry + r.entries), p + (c.payload + r.payload)))
  {
    if rest.Some? {
      Assoc(d, c.entry, rest.value.entries);
      Assoc(p, c.payload, rest.value.payload);
    }
  }

  lemma CollectNone(rest: Option<Parts>)
    ensures Collected([], [], rest) == rest
  {
    if rest.Some? { assert [] + rest.value.entries == rest.value.entries && [] + rest.value.payload == rest.value.payload; }
  }

  /** One round of the loop. */
  lemma NextChild(cs: seq<Node>, i: nat, at: nat, d: seq<byte>, p: seq<byte>)
    requires i < |cs|
    ensures Collected(d, p, BinChildren(cs[i..], at)) ==
      match Place(cs[i], at)
      case None => None
      case Some(c) => Collected(d + c.entry, p + c.payload, BinChildren(cs[i + 1..], c.after))
  {
    assert cs[i..][0] == cs[i] && cs[i..][1..] == cs[i + 1..];
    var c := Place(cs[i], at);
    if c.Some? { CollectMore(d, p, c.value, BinChildren(cs[i + 1..], c.value.after)); }
  }

  /** File.bin_data and Folder.bin_data. */
  method NodeBinData(n: Node, base: nat) returns (r: Option<seq<byte>>)
    ensures r == BinData(n, base)
    decreases n, 1
  {
    if n.File? { return Some(n.data); }
    var ps := FolderBinData(n.children, base + ENTRY * |n.children|);
    r := if ps.None? then None else Some(ps.value.entries + ps.value.payload);
  }

  method FolderBinData(cs: seq<Node>, payloadBase: nat) returns (r: Option<Parts>)
    ensures r == BinChildren(cs, payloadBase)
    decreases cs, 0
  {
    var vLen: nat := payloadBase;
    var dLi: seq<seq<byte>>, pLi: seq<seq<byte>>, i := [], [], 0;
    ghost var whole := BinChildren(cs, vLen);
    assert cs[0..] == cs;
    CollectNone(whole);
    while i < |cs|
      invariant 0 <= i <= |cs|
      invariant whole == Collected(Join(dLi), Join(pLi), BinChildren(cs[i..], vLen))
    {
      NextChild(cs, i, vLen, Join(dLi), Join(pLi));
      var c := OneChild(cs[i], vLen);
      if c.None? { return None; }
      dLi, pLi := Extend(dLi, pLi, c.value.entry, BinName(cs[i].name), Padded(c.value.data));
      i, vLen := i + 1, c.value.after;
    }
    assert cs[i..] == [];
    assert Join(dLi) + [] == Join(dLi) && Join(pLi) + [] == Join(pLi);
    r := Some(Parts(Join(dLi), Join(pLi)));
  }

  /** The entry, name and data of one child. */
  method OneChild(c: Node, at: nat) returns (r: Option<Placed>)
    ensures r == Place(c, at)
    ensures r.Some? ==> r.value.payload == BinName(c.name) + Padded(r.value.data)
    decreases c, 2
  {
    var vLen: nat := at;
    var name := BinName(c.name);
    var nameAddr := vLen;
    vLen := vLen + |name|;
    var data := NodeBinData(c, vLen);
    var dataAddr := vLen;
    var entry := Entry(Type(c), nameAddr, dataAddr, EntrySize(c));
    if data.None? || entry.None? { return None; }
    vLen := vLen + |Padded(data.value)|;
    r := Some(Placed(entry.value, dataAddr, data.value, name + Padded(data.value), vLen));
  }

  /** get_bin_data. */
  method GetBinData(tree: Node, base: nat) returns (r: Option<seq<byte>>)
    requires tree.Folder?
    ensures r == Image(tree, base)
  {
    var vLen: nat := base + ENTRY;
    var nameAddr := vLen;
    vLen := vLen + 4;
    var entry := Entry(1, nameAddr, vLen, |tree.children|);
    if entry.None? { return None; }
    var data := NodeBinData(tree, vLen);
    if data.None? { return None; }
    r := Some(entry.value + [47, 0, 0, 0] + data.value);
  }
}
