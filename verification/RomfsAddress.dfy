/** Which trees can be written at which base: the fields of an entry have 32 bits. */
module RomfsAddress {
  import opened Machine
  import opened Sequences
  import opened Romfs
  import opened RomfsLayout

  /** The number of bytes of every file and of children of every folder fits its field. */
  predicate SizesFit(n: Node)
    decreases n, 1
  {
    EntrySize(n) < TWO32 && (n.Folder? ==> AllSizesFit(n.children))
  }

  predicate AllSizesFit(cs: seq<Node>)
    decreases cs, 0
  {
    cs != [] ==> SizesFit(cs[0]) && AllSizesFit(cs[1..])
  }

  /** The highest address of data in a node with its data at `at`: that of the last file or empty folder. */
  function LastData(n: Node, at: nat): nat
    decreases n, 1
  {
    if n.File? || n.children == [] then at else LastOf(n.children, at + ENTRY * |n.children|)
  }

  function LastOf(cs: seq<Node>, at: nat): nat
    requires cs != []
    decreases cs, 0
  {
    var data := at + |BinName(cs[0].name)|;
    if |cs| == 1 then LastData(cs[0], data) else LastOf(cs[1..], data + PadUp(DataSize(cs[0])))
  }

  /** The last file or folder of a node has no data. */
  predicate EndsEmpty(n: Node)
    decreases n, 1
  {
    match n case File(_, data) => data == [] case Folder(_, cs) => cs == [] || LastEndsEmpty(cs)
  }

  predicate LastEndsEmpty(cs: seq<Node>)
    requires cs != []
    decreases cs, 0
  {
    if |cs| == 1 then EndsEmpty(cs[0]) else LastEndsEmpty(cs[1..])
  }

  /** The last data begins within the node, and at its end exactly if there is none. */
  lemma {:induction false} LastWithin(n: Node, at: nat)
    ensures at <= LastData(n, at) <= at + DataSize(n)
    ensures LastData(n, at) == at + DataSize(n) <==> EndsEmpty(n)
    decreases n, 1
  {
    if n.Folder? && n.children != [] { LastOfWithin(n.children, at + ENTRY * |n.children|); }
  }

  lemma {:induction false} LastOfWithin(cs: seq<Node>, at: nat)
    requires cs != []
    ensures at < LastOf(cs, at) <= at + ChildrenSize(cs)
    ensures LastOf(cs, at) == at + ChildrenSize(cs) <==> LastEndsEmpty(cs)
    decreases cs, 0
  {
    var data := at + |BinName(cs[0].name)|;
    LastWithin(cs[0], data);
    if |cs| == 1 {
      assert cs[1..] == [];
      AloneAtTheEnd(cs[0]);
    } else {
      LastOfWithin(cs[1..], data + PadUp(DataSize(cs[0])));
    }
  }

  /** Nothing is added to data that is empty, or that is a folder. */
  lemma {:induction false} AloneAtTheEnd(n: Node)
    ensures EndsEmpty(n) ==> PadUp(DataSize(n)) == DataSize(n)
  {
    if n.Folder? { FolderWhole(n); }
  }

  /** A child can be placed exactly if its data, its data address and its size fit. */
  lemma PlacePacks(c: Node, at: nat)
    ensures Place(c, at).Some? <==>
      BinData(c, at + |BinName(c.name)|).Some? && at + |BinName(c.name)| < TWO32 && EntrySize(c) < TWO32
  {
    var tp, data, size := Type(c), at + |BinName(c.name)|, EntrySize(c);
    assert tp < TWO32 && at < data;
    assert Entry(tp, at, data, size).None? <==> data >= TWO32 || size >= TWO32;
  }

  lemma PlaceAfter(c: Node, at: nat)
    requires Place(c, at).Some?
    ensures Place(c, at).value.after == at + |BinName(c.name)| + PadUp(DataSize(c))
  {
    var p := Place(c, at).value;
    assert p.name == at + |BinName(c.name)| && BinData(c, p.name) == Some(p.data);
    NodeTiles(c, p.name);
    ChildTiles(c, at, p);
  }

  lemma {:induction false} NodePacks(n: Node, at: nat)
    ensures BinData(n, at).Some? && at < TWO32 && EntrySize(n) < TWO32 <==> LastData(n, at) < TWO32 && SizesFit(n)
    decreases n, 1
  {
    LastWithin(n, at);
    if n.Folder? && n.children != [] { ChildrenPack(n.children, at + ENTRY * |n.children|); }
  }

  lemma {:induction false} ChildrenPack(cs: seq<Node>, at: nat)
    requires cs != []
    ensures BinChildren(cs, at).Some? <==> LastOf(cs, at) < TWO32 && AllSizesFit(cs)
    decreases cs, 0
  {
    var data := at + |BinName(cs[0].name)|;
    var after := data + PadUp(DataSize(cs[0]));
    PlacePacks(cs[0], at);
    NodePacks(cs[0], data);
    if Place(cs[0], at).Some? { PlaceAfter(cs[0], at); }
    FirstPacks(cs, at);
    if |cs| == 1 {
      assert cs[1..] == [] && AllSizesFit([]) && BinChildren([], after).Some?;
    } else {
      LastWithin(cs[0], data);
      LastOfWithin(cs[1..], after);
      ChildrenPack(cs[1..], after);
    }
  }

  lemma FirstPacks(cs: seq<Node>, at: nat)
    requires cs != []
    ensures BinChildren(cs, at).Some? <==> Place(cs[0], at).Some? && BinChildren(cs[1..], Place(cs[0], at).value.after).Some?
  {
  }

  /** An image can be written if and only if every size fits and the last data address does. */
  lemma ImagePacks(tree: Node, base: nat)
    requires tree.Folder?
    ensures Image(tree, base).Some? <==> LastData(tree, base + ENTRY + 4) < TWO32 && SizesFit(tree)
  {
    NodePacks(tree, base + ENTRY + 4);
    LastWithin(tree, base + ENTRY + 4);
  }

  lemma {:induction false} SizesWithin(n: Node)
    requires DataSize(n) < TWO32
    ensures SizesFit(n)
    decreases n, 1
  {
    if n.Folder? { AllSizesWithin(n.children); }
  }

  lemma {:induction false} AllSizesWithin(cs: seq<Node>)
    requires ChildrenSize(cs) < TWO32
    ensures AllSizesFit(cs)
    decreases cs, 0
  {
    if cs != [] {
      SizesWithin(cs[0]);
      AllSizesWithin(cs[1..]);
    }
  }

  /** The address just after the image. */
  function End(tree: Node, base: nat): nat {
    base + ENTRY + 4 + DataSize(tree)
  }

  /** An image that ends at 2^32 or below can be written unless it ends exactly there and its last
      file or folder is empty: the address of that data is the end. */
  lemma ImageFits(tree: Node, base: nat)
    requires tree.Folder? && End(tree, base) <= TWO32
    ensures Image(tree, base).Some? <==> End(tree, base) < TWO32 || !EndsEmpty(tree)
  {
    ImagePacks(tree, base);
    LastWithin(tree, base + ENTRY + 4);
    SizesWithin(tree);
  }

  /** Beyond 2^32 it depends on where the last data begins, not on where the image ends. */
  lemma FourTrees()
    ensures var emptyFile, emptyFolder := Folder([], [File([97], [])]), Folder([], [Folder([97], [])]);
      && End(emptyFile, TWO32 - 40) == TWO32 && Image(emptyFile, TWO32 - 40).None?
      && End(emptyFolder, TWO32 - 40) == TWO32 && Image(emptyFolder, TWO32 - 40).None?
    ensures var eight := Folder([], [File([97], Zeros(8))]);
      && End(eight, TWO32 - 48) == TWO32 && Image(eight, TWO32 - 48).Some?
      && End(eight, TWO32 - 41) > TWO32 && Image(eight, TWO32 - 41).Some?
  {
    OneChildOnly(File([97], []), TWO32 - 40);
    OneChildOnly(Folder([97], []), TWO32 - 40);
    OneChildOnly(File([97], Zeros(8)), TWO32 - 48);
    OneChildOnly(File([97], Zeros(8)), TWO32 - 41);
  }

  lemma OneChildOnly(c: Node, base: nat)
    requires c.name == [97] && EntrySize(c) < TWO32 && (c.Folder? ==> c.children == [])
    ensures var tree := Folder([], [c]);
      && End(tree, base) == base + 40 + PadUp(DataSize(c))
      && (Image(tree, base).Some? <==> base + 40 < TWO32)
  {
    var tree := Folder([], [c]);
    assert tree.children[1..] == [] && |BinName(c.name)| == 4;
    ImagePacks(tree, base);
    assert LastData(tree, base + 20) == LastOf(tree.children, base + 36) == base + 40;
    assert SizesFit(c) && AllSizesFit([]);
    assert DataSize(tree) == 16 + ChildrenSize(tree.children);
  }
}
