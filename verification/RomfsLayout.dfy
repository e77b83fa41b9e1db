/** The regions of the ROM file system image: they tile it, and they are aligned. */
module RomfsLayout {
  import opened Machine
  import opened Romfs
  import opened Sequences

  // ----- the regions -----

  /** A part of the image: the entries of a folder, a name, or the contents of a file. */
  datatype Region = Region(at: nat, bytes: seq<byte>)

  function PadUp(n: nat): (m: nat)
    ensures m % 4 == 0 && n <= m < n + 4
  {
    if n % 4 != 0 then n + (4 - n % 4) else n
  }

  lemma SumOfFours(a: nat, b: nat, c: nat)
    requires a % 4 == 0 && b % 4 == 0 && c % 4 == 0
    ensures (a + b + c) % 4 == 0
  {
  }

  /** The length of the data of a node. */
  function DataSize(n: Node): nat
    decreases n, 1
  {
    match n case File(_, data) => |data| case Folder(_, cs) => ENTRY * |cs| + ChildrenSize(cs)
  }

  function ChildrenSize(cs: seq<Node>): (m: nat)
    ensures m % 4 == 0
    decreases cs, 0
  {
    if cs == [] then 0
    else
      var (a, b, c) := (|BinName(cs[0].name)|, PadUp(DataSize(cs[0])), ChildrenSize(cs[1..]));
      SumOfFours(a, b, c);
      a + b + c
  }

  function Regions(n: Node, at: nat): seq<Region>
    decreases n, 1
  {
    match n
    case File(_, data) => [Region(at, Padded(data))]
    case Folder(_, cs) =>
      var start := at + ENTRY * |cs|;
      var entries := match BinChildren(cs, start) case None => [] case Some(ps) => ps.entries;
      [Region(at, entries)] + ChildRegions(cs, start)
  }

  function ChildRegions(cs: seq<Node>, at: nat): seq<Region>
    decreases cs, 0
  {
    if cs == [] then []
    else OneChild(cs[0], at) + ChildRegions(cs[1..], at + |BinName(cs[0].name)| + PadUp(DataSize(cs[0])))
  }

  function OneChild(c: Node, at: nat): seq<Region>
    decreases c, 2
  {
    [Region(at, BinName(c.name))] + Regions(c, at + |BinName(c.name)|)
  }

  function ImageRegions(tree: Node, base: nat): seq<Region>
    requires tree.Folder? && Image(tree, base).Some?
  {
    var name := base + ENTRY;
    [Region(base, Entry(1, name, name + 4, |tree.children|).value), Region(name, [47, 0, 0, 0])] + Regions(tree, name + 4)
  }

  /** Each region begins where the one before it ends, from `from` up to `to`. */
  predicate Tiles(rs: seq<Region>, from: nat, to: nat)
    decreases |rs|
  {
    if rs == [] then from == to else rs[0].at == from && Tiles(rs[1..], from + |rs[0].bytes|, to)
  }

  function Contents(rs: seq<Region>): seq<byte>
    decreases |rs|
  {
    if rs == [] then [] else rs[0].bytes + Contents(rs[1..])
  }

  lemma {:induction false} TilesAppend(a: seq<Region>, b: seq<Region>, from: nat, mid: nat, to: nat)
    requires Tiles(a, from, mid) && Tiles(b, mid, to)
    ensures Tiles(a + b, from, to) && Contents(a + b) == Contents(a) + Contents(b)
    decreases |a|
  {
    if a == [] {
      assert a + b == b;
    } else {
      assert (a + b)[1..] == a[1..] + b;
      TilesAppend(a[1..], b, from + |a[0].bytes|, mid, to);
    }
  }

  lemma {:induction false} NodeTiles(n: Node, at: nat)
    requires BinData(n, at).Some?
    ensures |BinData(n, at).value| == DataSize(n)
    ensures Tiles(Regions(n, at), at, at + PadUp(DataSize(n))) && Contents(Regions(n, at)) == Padded(BinData(n, at).value)
    decreases n, 1
  {
    if n.File? {
      OneRegion(at, Padded(n.data));
      WholeOrPadded(n.data);
    } else {
      var start := at + ENTRY * |n.children|;
      ChildrenTile(n.children, start);
      FolderTiles(n, at, BinChildren(n.children, start).value);
    }
  }

  lemma WholeOrPadded(data: seq<byte>)
    ensures |Padded(data)| == PadUp(|data|)
  {
  }

  /** The data of a folder whose children tile their part. */
  lemma FolderTiles(n: Node, at: nat, ps: Parts)
    requires n.Folder? && BinChildren(n.children, at + ENTRY * |n.children|) == Some(ps)
    requires |ps.payload| == ChildrenSize(n.children) && Contents(ChildRegions(n.children, at + ENTRY * |n.children|)) == ps.payload
    requires Tiles(ChildRegions(n.children, at + ENTRY * |n.children|), at + ENTRY * |n.children|, at + ENTRY * |n.children| + |ps.payload|)
    ensures BinData(n, at) == Some(ps.entries + ps.payload) && |ps.entries + ps.payload| == DataSize(n)
    ensures Tiles(Regions(n, at), at, at + PadUp(DataSize(n))) && Contents(Regions(n, at)) == Padded(ps.entries + ps.payload)
  {
    FolderData(n, at, ps);
    EntriesAligned(|n.children|);
    PartsTile(at, ps.entries, ChildRegions(n.children, at + |ps.entries|), ps.payload);
  }

  /** The data and the regions of a folder, unfolded. */
  lemma FolderData(n: Node, at: nat, ps: Parts)
    requires n.Folder? && BinChildren(n.children, at + ENTRY * |n.children|) == Some(ps)
    ensures BinData(n, at) == Some(ps.entries + ps.payload) && |ps.entries| == ENTRY * |n.children|
    ensures Regions(n, at) == [Region(at, ps.entries)] + ChildRegions(n.children, at + |ps.entries|)
    ensures DataSize(n) == |ps.entries| + ChildrenSize(n.children)
  {
  }

  lemma EntriesAligned(n: nat)
    ensures ENTRY * n % 4 == 0
  {
  }

  lemma WholeFours(a: nat, b: nat)
    requires a % 4 == 0 && b % 4 == 0
    ensures PadUp(a + b) == a + b
  {
    SumOfFours(a, b, 0);
  }

  /** The data of a folder is of whole words. */
  lemma FolderWhole(n: Node)
    requires n.Folder?
    ensures DataSize(n) % 4 == 0 && PadUp(DataSize(n)) == DataSize(n)
  {
    EntriesAligned(|n.children|);
    WholeFours(ENTRY * |n.children|, ChildrenSize(n.children));
  }

  lemma WholeParts(entries: seq<byte>, payload: seq<byte>)
    requires |entries| % 4 == 0 && |payload| % 4 == 0
    ensures Padded(entries + payload) == entries + payload && PadUp(|entries| + |payload|) == |entries| + |payload|
  {
    SumOfFours(|entries|, |payload|, 0);
    PaddedWhole(entries + payload);
  }

  lemma PartsTile(at: nat, entries: seq<byte>, rs: seq<Region>, payload: seq<byte>)
    requires |entries| % 4 == 0 && |payload| % 4 == 0
    requires Tiles(rs, at + |entries|, at + |entries| + |payload|) && Contents(rs) == payload
    ensures var all := [Region(at, entries)] + rs;
      Tiles(all, at, at + PadUp(|entries| + |payload|)) && Contents(all) == Padded(entries + payload)
  {
    WholeParts(entries, payload);
    HeadTiles(at, entries, rs, payload);
  }

  lemma HeadTiles(at: nat, head: seq<byte>, rs: seq<Region>, tail: seq<byte>)
    requires Tiles(rs, at + |head|, at + |head| + |tail|) && Contents(rs) == tail
    ensures var all := [Region(at, head)] + rs;
      Tiles(all, at, at + |head| + |tail|) && Contents(all) == head + tail
  {
    OneRegion(at, head);
    TilesAppend([Region(at, head)], rs, at, at + |head|, at + |head| + |tail|);
  }

  lemma PaddedWhole(s: seq<byte>)
    requires |s| % 4 == 0
    ensures Padded(s) == s && PadUp(|s|) == |s|
  {
  }

  lemma ChildTiles(c: Node, at: nat, p: Placed)
    requires Place(c, at) == Some(p) && |p.data| == DataSize(c)
    requires Tiles(Regions(c, p.name), p.name, p.name + PadUp(DataSize(c))) && Contents(Regions(c, p.name)) == Padded(p.data)
    ensures Tiles(OneChild(c, at), at, p.after) && Contents(OneChild(c, at)) == p.payload
    ensures p.after == at + |BinName(c.name)| + PadUp(DataSize(c)) && |p.payload| == |BinName(c.name)| + PadUp(DataSize(c))
  {
    OneRegion(at, BinName(c.name));
    TilesAppend([Region(at, BinName(c.name))], Regions(c, p.name), at, p.name, p.after);
  }

  lemma OneRegion(at: nat, bytes: seq<byte>)
    ensures Tiles([Region(at, bytes)], at, at + |bytes|) && Contents([Region(at, bytes)]) == bytes
  {
    var rs := [Region(at, bytes)];
    assert rs[1..] == [] && Contents([]) == [];
  }

  lemma {:induction false} ChildrenTile(cs: seq<Node>, at: nat)
    requires BinChildren(cs, at).Some?
    ensures Tiles(ChildRegions(cs, at), at, at + ChildrenSize(cs))
    ensures Contents(ChildRegions(cs, at)) == BinChildren(cs, at).value.payload
    ensures |BinChildren(cs, at).value.payload| == ChildrenSize(cs)
    decreases cs, 0
  {
    if cs != [] {
      var first, rest := FirstPlaced(cs, at);
      NodeTiles(cs[0], first.name);
      ChildTiles(cs[0], at, first);
      ChildrenTile(cs[1..], first.after);
      FirstTiles(cs, at, first, rest);
    }
  }

  lemma FirstTiles(cs: seq<Node>, at: nat, first: Placed, rest: Parts)
    requires cs != [] && BinChildren(cs, at) == Some(Parts(first.entry + rest.entries, first.payload + rest.payload))
    requires first.after == at + |BinName(cs[0].name)| + PadUp(DataSize(cs[0])) == at + |first.payload|
    requires Tiles(OneChild(cs[0], at), at, first.after) && Contents(OneChild(cs[0], at)) == first.payload
    requires Tiles(ChildRegions(cs[1..], first.after), first.after, first.after + |rest.payload|)
    requires Contents(ChildRegions(cs[1..], first.after)) == rest.payload && |rest.payload| == ChildrenSize(cs[1..])
    ensures Tiles(ChildRegions(cs, at), at, at + ChildrenSize(cs)) && Contents(ChildRegions(cs, at)) == first.payload + rest.payload
    ensures |first.payload + rest.payload| == ChildrenSize(cs)
  {
    FirstRegions(cs, at, first, rest);
    TilesAppend(OneChild(cs[0], at), ChildRegions(cs[1..], first.after), at, first.after, first.after + |rest.payload|);
  }

  /** The regions of the first child, then those of the others. */
  lemma FirstRegions(cs: seq<Node>, at: nat, first: Placed, rest: Parts)
    requires cs != [] && BinChildren(cs, at) == Some(Parts(first.entry + rest.entries, first.payload + rest.payload))
    requires first.after == at + |BinName(cs[0].name)| + PadUp(DataSize(cs[0])) == at + |first.payload|
    ensures ChildRegions(cs, at) == OneChild(cs[0], at) + ChildRegions(cs[1..], first.after)
    ensures BinChildren(cs, at).value.payload == first.payload + rest.payload
    ensures ChildrenSize(cs) == |first.payload| + ChildrenSize(cs[1..])
  {
  }

  /** The regions tile the image: they cover it from its base to its end, without overlap, in order. */
  lemma ImageTiles(tree: Node, base: nat)
    requires tree.Folder? && Image(tree, base).Some?
    ensures var img := Image(tree, base).value;
      Tiles(ImageRegions(tree, base), base, base + |img|) && Contents(ImageRegions(tree, base)) == img
  {
    var e, data := ImageParts(tree, base);
    NodeTiles(tree, base + ENTRY + 4);
    FolderWhole(tree);
    PaddedWhole(data);
    RootTiles(base, e, [47, 0, 0, 0], Regions(tree, base + ENTRY + 4), data);
  }

  lemma ImageParts(tree: Node, base: nat) returns (e: seq<byte>, data: seq<byte>)
    requires tree.Folder? && Image(tree, base).Some?
    ensures |e| == ENTRY && BinData(tree, base + ENTRY + 4) == Some(data)
    ensures Image(tree, base).value == e + [47, 0, 0, 0] + data
    ensures ImageRegions(tree, base) == [Region(base, e), Region(base + ENTRY, [47, 0, 0, 0])] + Regions(tree, base + ENTRY + 4)
  {
    e := Entry(1, base + ENTRY, base + ENTRY + 4, |tree.children|).value;
    data := BinData(tree, base + ENTRY + 4).value;
  }

  lemma RootTiles(base: nat, e: seq<byte>, name: seq<byte>, rs: seq<Region>, data: seq<byte>)
    requires Tiles(rs, base + |e| + |name|, base + |e| + |name| + |data|) && Contents(rs) == data
    ensures var all := [Region(base, e), Region(base + |e|, name)] + rs;
      Tiles(all, base, base + |e| + |name| + |data|) && Contents(all) == e + name + data
  {
    HeadTiles(base + |e|, name, rs, data);
    HeadTiles(base, e, [Region(base + |e|, name)] + rs, name + data);
    Assoc([Region(base, e)], [Region(base + |e|, name)], rs);
    Assoc(e, name, data);
    assert [Region(base, e)] + [Region(base + |e|, name)] == [Region(base, e), Region(base + |e|, name)];
  }

  /** Regions that tile do not overlap, and are aligned if the first is and all lengths are. */
  lemma {:induction false} TilesDisjoint(rs: seq<Region>, from: nat, to: nat, i: nat, j: nat)
    requires Tiles(rs, from, to) && i < j < |rs|
    ensures from <= rs[i].at && rs[i].at + |rs[i].bytes| <= rs[j].at && rs[j].at + |rs[j].bytes| <= to
    decreases |rs|
  {
    TilesWithin(rs, from, to, j);
    if i > 0 {
      TilesDisjoint(rs[1..], from + |rs[0].bytes|, to, i - 1, j - 1);
    } else {
      TilesWithin(rs[1..], from + |rs[0].bytes|, to, j - 1);
    }
  }

  lemma {:induction false} TilesWithin(rs: seq<Region>, from: nat, to: nat, j: nat)
    requires Tiles(rs, from, to) && j < |rs|
    ensures from <= rs[j].at && rs[j].at + |rs[j].bytes| <= to
    decreases |rs|
  {
    if j > 0 {
      TilesWithin(rs[1..], from + |rs[0].bytes|, to, j - 1);
    } else {
      TilesOrder(rs[1..], from + |rs[0].bytes|, to);
    }
  }

  lemma {:induction false} TilesOrder(rs: seq<Region>, from: nat, to: nat)
    requires Tiles(rs, from, to)
    ensures from <= to
    decreases |rs|
  {
    if rs != [] { TilesOrder(rs[1..], from + |rs[0].bytes|, to); }
  }

  predicate Aligned(rs: seq<Region>) {
    forall i :: 0 <= i < |rs| ==> rs[i].at % 4 == 0
  }

  /** With an aligned base, everything in the image is aligned. */
  lemma {:induction false} RegionsAligned(n: Node, at: nat)
    requires at % 4 == 0
    ensures Aligned(Regions(n, at))
    decreases n, 1
  {
    if n.Folder? { ChildrenAligned(n.children, at + ENTRY * |n.children|); }
  }

  lemma {:induction false} ChildrenAligned(cs: seq<Node>, at: nat)
    requires at % 4 == 0
    ensures Aligned(ChildRegions(cs, at))
    decreases cs, 0
  {
    if cs != [] {
      var name := at + |BinName(cs[0].name)|;
      RegionsAligned(cs[0], name);
      ChildrenAligned(cs[1..], name + PadUp(DataSize(cs[0])));
    }
  }

  lemma ImageAligned(tree: Node, base: nat)
    requires tree.Folder? && Image(tree, base).Some? && base % 4 == 0
    ensures Aligned(ImageRegions(tree, base))
  {
    var e, data := ImageParts(tree, base);
    var at := base + ENTRY + 4;
    SumOfFours(base, ENTRY + 4, 0);
    RegionsAligned(tree, at);
    AlignedAfter(base, e, Regions(tree, at));
  }

  lemma AlignedAfter(base: nat, e: seq<byte>, rs: seq<Region>)
    requires base % 4 == 0 && Aligned(rs)
    ensures Aligned([Region(base, e), Region(base + ENTRY, [47, 0, 0, 0])] + rs)
  {
  }
}
