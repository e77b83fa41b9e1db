/** A reader of the ROM file system image that starts at the root entry and follows the addresses
    (the entry format of dfs_romfs), and the proof that it recovers the tree. */
module RomfsRead {
  import opened Machine
  import opened Romfs
  import opened Sequences

  // ----- reading -----

  /** The image `img`, placed at address `base`, has `s` at address `a`. */
  predicate Holds(img: seq<byte>, base: nat, a: nat, s: seq<byte>) {
    base <= a && a - base + |s| <= |img| && img[a - base..a - base + |s|] == s
  }

  predicate Inside(img: seq<byte>, base: nat, a: nat, n: nat) {
    base <= a && a - base + n <= |img|
  }

  function WordAt(img: seq<byte>, base: nat, a: nat): nat
    requires Inside(img, base, a, 4)
  {
    var i := a - base;
    (img[i] as nat) + 256 * (img[i + 1] as nat) + 65536 * (img[i + 2] as nat) + 16777216 * (img[i + 3] as nat)
  }

  /** The bytes from `a` on up to the first zero byte. */
  function NameAt(img: seq<byte>, base: nat, a: nat): Option<seq<byte>>
    decreases base + |img| - a
  {
    if !Inside(img, base, a, 1) then None
    else if img[a - base] == 0 then Some([])
    else match NameAt(img, base, a + 1)
      case None => None
      case Some(rest) => Some([img[a - base]] + rest)
  }

  /** The node whose directory entry is at `a`, down to the given depth. */
  function Read(img: seq<byte>, base: nat, a: nat, depth: nat): Option<Node>
    decreases depth, 1, 0
  {
    if depth == 0 || !Inside(img, base, a, ENTRY) then None
    else match NameAt(img, base, WordAt(img, base, a + 4))
      case None => None
      case Some(name) =>
        var (data, size) := (WordAt(img, base, a + 8), WordAt(img, base, a + 12));
        if WordAt(img, base, a) == 0 then
          if Inside(img, base, data, size) then Some(File(name, img[data - base..data - base + size])) else None
        else if WordAt(img, base, a) == 1 then
          match ReadEntries(img, base, data, size, depth - 1)
          case None => None
          case Some(cs) => Some(Folder(name, cs))
        else None
  }

  /** The nodes of `n` consecutive entries. */
  function ReadEntries(img: seq<byte>, base: nat, a: nat, n: nat, depth: nat): Option<seq<Node>>
    decreases depth, 2, n
  {
    if n == 0 then Some([])
    else match Read(img, base, a, depth)
      case None => None
      case Some(c) =>
        match ReadEntries(img, base, a + ENTRY, n - 1, depth)
        case None => None
        case Some(cs) => Some([c] + cs)
  }

  // ----- what is written is read -----

  predicate ZeroFree(name: seq<byte>) {
    forall i :: 0 <= i < |name| ==> name[i] != 0
  }

  /** All names in the tree are free of zero bytes. */
  predicate Named(n: Node) {
    ZeroFree(n.name) && (n.Folder? ==> forall c :: c in n.children ==> Named(c))
  }

  function Height(n: Node): nat
    decreases n, 1
  {
    match n case File(_, _) => 1 case Folder(_, cs) => 1 + HeightOf(cs)
  }

  function HeightOf(cs: seq<Node>): nat
    decreases cs, 0
  {
    if cs == [] then 0 else Max(Height(cs[0]), HeightOf(cs[1..]))
  }

  lemma HoldsParts(img: seq<byte>, base: nat, a: nat, s: seq<byte>, t: seq<byte>)
    requires Holds(img, base, a, s + t)
    ensures Holds(img, base, a, s) && Holds(img, base, a + |s|, t)
  {
    var i := a - base;
    assert img[i..i + |s|] == img[i..i + |s + t|][..|s|];
    assert img[i + |s|..i + |s| + |t|] == img[i..i + |s + t|][|s|..];
  }

  lemma HoldsPrefix(img: seq<byte>, base: nat, a: nat, s: seq<byte>, p: seq<byte>)
    requires Holds(img, base, a, s) && p <= s
    ensures Holds(img, base, a, p)
  {
    assert s == p + s[|p|..];
    HoldsParts(img, base, a, p, s[|p|..]);
  }

  lemma WordRead(img: seq<byte>, base: nat, a: nat, v: nat)
    requires v < TWO32 && Holds(img, base, a, Word(v))
    ensures WordAt(img, base, a) == v
  {
    var i := a - base;
    var w := img[i..i + 4];
    assert w == Word(v);
    assert img[i] == w[0] && img[i + 1] == w[1] && img[i + 2] == w[2] && img[i + 3] == w[3];
    WordValue(v);
  }

  lemma WordValue(v: nat)
    requires v < TWO32
    ensures v % 256 + 256 * (v / 256 % 256) + 65536 * (v / 65536 % 256) + 16777216 * (v / 16777216) == v
  {
  }

  lemma EntryRead(img: seq<byte>, base: nat, a: nat, tp: nat, name: nat, data: nat, size: nat, e: seq<byte>)
    requires Entry(tp, name, data, size) == Some(e) && Holds(img, base, a, e)
    ensures Inside(img, base, a, ENTRY)
    ensures WordAt(img, base, a) == tp && WordAt(img, base, a + 4) == name
    ensures WordAt(img, base, a + 8) == data && WordAt(img, base, a + 12) == size
  {
    FieldsRead(img, base, a, tp, name, data, size);
  }

  lemma FieldsRead(img: seq<byte>, base: nat, a: nat, tp: nat, name: nat, data: nat, size: nat)
    requires tp < TWO32 && name < TWO32 && data < TWO32 && size < TWO32
    requires Holds(img, base, a, Word(tp) + Word(name) + Word(data) + Word(size))
    ensures Inside(img, base, a, ENTRY)
    ensures WordAt(img, base, a) == tp && WordAt(img, base, a + 4) == name
    ensures WordAt(img, base, a + 8) == data && WordAt(img, base, a + 12) == size
  {
    HoldsParts(img, base, a, Word(tp) + Word(name) + Word(data), Word(size));
    HoldsParts(img, base, a, Word(tp) + Word(name), Word(data));
    HoldsParts(img, base, a, Word(tp), Word(name));
    WordRead(img, base, a, tp);
    WordRead(img, base, a + 4, name);
    WordRead(img, base, a + 8, data);
    WordRead(img, base, a + 12, size);
  }

  lemma {:induction false} NameRead(img: seq<byte>, base: nat, a: nat, name: seq<byte>)
    requires ZeroFree(name) && Holds(img, base, a, name + [0])
    ensures NameAt(img, base, a) == Some(name)
    decreases |name|
  {
    assert img[a - base] == (name + [0])[0];
    if name != [] {
      assert name + [0] == [name[0]] + (name[1..] + [0]);
      HoldsParts(img, base, a, [name[0]], name[1..] + [0]);
      NameRead(img, base, a + 1, name[1..]);
      assert [name[0]] + name[1..] == name;
    }
  }

  lemma BinNameRead(img: seq<byte>, base: nat, a: nat, name: seq<byte>)
    requires ZeroFree(name) && Holds(img, base, a, BinName(name))
    ensures NameAt(img, base, a) == Some(name)
  {
    assert name + [0] <= BinName(name);
    HoldsPrefix(img, base, a, BinName(name), name + [0]);
    NameRead(img, base, a, name);
  }

  /** What the reader finds at the data address of `n` is the contents of a file, or the children of a folder. */
  predicate ContentsAt(img: seq<byte>, base: nat, n: Node, at: nat, depth: nat) {
    match n
    case File(_, data) => Inside(img, base, at, |data|) && img[at - base..at - base + |data|] == data
    case Folder(_, children) => ReadEntries(img, base, at, |children|, depth) == Some(children)
  }

  /** The data of a node lies in the image at `at`: its contents are read from there. */
  lemma {:induction false} ContentsRead(img: seq<byte>, base: nat, n: Node, at: nat, data: seq<byte>, depth: nat)
    requires Named(n) && BinData(n, at) == Some(data) && Holds(img, base, at, data) && depth + 1 >= Height(n)
    ensures ContentsAt(img, base, n, at, depth)
    decreases n, 1
  {
    if n.Folder? {
      var start := at + ENTRY * |n.children|;
      var ps := PartsOf(img, base, n, at, data);
      ChildrenRead(img, base, n.children, at, start, ps, depth);
    }
  }

  /** The entries and the payload of a folder lie one after the other. */
  lemma PartsOf(img: seq<byte>, base: nat, n: Node, at: nat, data: seq<byte>) returns (ps: Parts)
    requires n.Folder? && BinData(n, at) == Some(data) && Holds(img, base, at, data)
    ensures BinChildren(n.children, at + ENTRY * |n.children|) == Some(ps)
    ensures Holds(img, base, at, ps.entries) && Holds(img, base, at + ENTRY * |n.children|, ps.payload)
  {
    ps := BinChildren(n.children, at + ENTRY * |n.children|).value;
    HoldsParts(img, base, at, ps.entries, ps.payload);
  }

  /** The entry of node `c` is in the image at `entry`, its name at `at` and its data after the name. */
  ghost predicate Stored(img: seq<byte>, base: nat, c: Node, entry: nat, at: nat) {
    && Place(c, at).Some?
    && var p := Place(c, at).value;
      Holds(img, base, entry, p.entry) && Holds(img, base, at, BinName(c.name)) && Holds(img, base, p.name, p.data)
  }

  ghost function StoredIn(img: seq<byte>, base: nat): (Node, nat, nat) -> bool {
    (c: Node, entry: nat, at: nat) => Stored(img, base, c, entry, at)
  }

  /** The fields of a stored entry. */
  lemma HeadRead(img: seq<byte>, base: nat, c: Node, entry: nat, at: nat) returns (p: Placed)
    requires ZeroFree(c.name) && Stored(img, base, c, entry, at)
    ensures Inside(img, base, entry, ENTRY) && WordAt(img, base, entry) == Type(c)
    ensures NameAt(img, base, WordAt(img, base, entry + 4)) == Some(c.name)
    ensures WordAt(img, base, entry + 8) == p.name && WordAt(img, base, entry + 12) == EntrySize(c)
    ensures BinData(c, p.name) == Some(p.data) && Holds(img, base, p.name, p.data)
  {
    p := Place(c, at).value;
    EntryRead(img, base, entry, Type(c), at, p.name, EntrySize(c), p.entry);
    BinNameRead(img, base, at, c.name);
  }

  lemma {:induction false} ChildRead(img: seq<byte>, base: nat, c: Node, entry: nat, at: nat, depth: nat)
    requires Named(c) && depth >= Height(c) && StoredIn(img, base)(c, entry, at)
    ensures Read(img, base, entry, depth) == Some(c)
    decreases c, 2
  {
    var p := HeadRead(img, base, c, entry, at);
    ContentsRead(img, base, c, p.name, p.data, depth - 1);
    ReadFrom(img, base, entry, c, depth);
  }

  /** A directory entry whose fields lead to the name and the contents of `c`. */
  lemma ReadFrom(img: seq<byte>, base: nat, a: nat, c: Node, depth: nat)
    requires depth > 0 && Inside(img, base, a, ENTRY) && WordAt(img, base, a) == Type(c)
    requires NameAt(img, base, WordAt(img, base, a + 4)) == Some(c.name) && WordAt(img, base, a + 12) == EntrySize(c)
    requires ContentsAt(img, base, c, WordAt(img, base, a + 8), depth - 1)
    ensures Read(img, base, a, depth) == Some(c)
  {
  }

  /** Entries that are read one by one are read together. */
  lemma {:induction false} EntriesRead(img: seq<byte>, base: nat, a: nat, depth: nat, cs: seq<Node>)
    requires forall i: nat :: i < |cs| ==> Read(img, base, a + ENTRY * i, depth) == Some(cs[i])
    ensures ReadEntries(img, base, a, |cs|, depth) == Some(cs)
    decreases |cs|
  {
    if cs != [] {
      assert Read(img, base, a + ENTRY * 0, depth) == Some(cs[0]);
      forall i: nat | i < |cs[1..]| ensures Read(img, base, a + ENTRY + ENTRY * i, depth) == Some(cs[1..][i]) {
        assert Read(img, base, a + ENTRY * (i + 1), depth) == Some(cs[i + 1]);
      }
      EntriesRead(img, base, a + ENTRY, depth, cs[1..]);
      FirstRead(img, base, a, depth, cs);
    }
  }

  lemma FirstRead(img: seq<byte>, base: nat, a: nat, depth: nat, cs: seq<Node>)
    requires cs != [] && Read(img, base, a, depth) == Some(cs[0])
    requires ReadEntries(img, base, a + ENTRY, |cs[1..]|, depth) == Some(cs[1..])
    ensures ReadEntries(img, base, a, |cs|, depth) == Some(cs)
  {
    assert [cs[0]] + cs[1..] == cs;
  }

  /** The first child is stored, and so are the parts of the others. */
  lemma ChildrenParts(img: seq<byte>, base: nat, stored: (Node, nat, nat) -> bool, cs: seq<Node>, entries: nat, at: nat, ps: Parts)
    returns (after: nat, rest: Parts)
    requires stored == StoredIn(img, base) && cs != [] && BinChildren(cs, at) == Some(ps)
    requires Holds(img, base, entries, ps.entries) && Holds(img, base, at, ps.payload)
    ensures stored(cs[0], entries, at) && BinChildren(cs[1..], after) == Some(rest)
    ensures Holds(img, base, entries + ENTRY, rest.entries) && Holds(img, base, after, rest.payload)
  {
    var first;
    first, rest := FirstPlaced(cs, at);
    after := first.after;
    PartsHeld(img, base, entries, at, first, rest);
    PlacedStored(img, base, cs[0], entries, at, first);
  }

  lemma PartsHeld(img: seq<byte>, base: nat, entries: nat, at: nat, first: Placed, rest: Parts)
    requires |first.entry| == ENTRY && first.after == at + |first.payload|
    requires Holds(img, base, entries, first.entry + rest.entries) && Holds(img, base, at, first.payload + rest.payload)
    ensures Holds(img, base, entries, first.entry) && Holds(img, base, at, first.payload)
    ensures Holds(img, base, entries + ENTRY, rest.entries) && Holds(img, base, first.after, rest.payload)
  {
    HoldsParts(img, base, entries, first.entry, rest.entries);
    HoldsParts(img, base, at, first.payload, rest.payload);
  }

  lemma PlacedStored(img: seq<byte>, base: nat, c: Node, entry: nat, at: nat, p: Placed)
    requires Place(c, at) == Some(p) && Holds(img, base, entry, p.entry) && Holds(img, base, at, p.payload)
    ensures StoredIn(img, base)(c, entry, at)
  {
    HoldsParts(img, base, at, BinName(c.name), Padded(p.data));
    HoldsPrefix(img, base, p.name, Padded(p.data), p.data);
  }

  /** All children of a folder are stored in the image. */
  /** Each of the nodes is `stored` with its entry in the table at `entries`, and with what it needs at one of `ats`. */
  ghost predicate AllAt<T>(stored: (T, nat, nat) -> bool, cs: seq<T>, entries: nat, ats: seq<nat>) {
    |ats| == |cs| && forall i: nat :: i < |cs| ==> stored(cs[i], entries + ENTRY * i, ats[i])
  }

  /** The entries and the payload of the nodes are in the image, at these addresses. */
  ghost predicate Laid(img: seq<byte>, base: nat, cs: seq<Node>, entries: nat, at: nat) {
    && BinChildren(cs, at).Some?
    && var ps := BinChildren(cs, at).value;
      Holds(img, base, entries, ps.entries) && Holds(img, base, at, ps.payload)
  }

  ghost function LaidIn(img: seq<byte>, base: nat): (seq<Node>, nat, nat) -> bool {
    (cs: seq<Node>, entries: nat, at: nat) => Laid(img, base, cs, entries, at)
  }

  /** The first node is stored, and the others are laid out after it. */
  ghost predicate Leads<T>(stored: (T, nat, nat) -> bool, laid: (seq<T>, nat, nat) -> bool, cs: seq<T>, entries: nat, at: nat, after: nat)
    requires cs != []
  {
    stored(cs[0], entries, at) && laid(cs[1..], entries + ENTRY, after)
  }

  /** Nodes laid out one after the other are all stored. */
  lemma {:induction false} AllStored<T(!new)>(stored: (T, nat, nat) -> bool, laid: (seq<T>, nat, nat) -> bool, cs: seq<T>,
                                              entries: nat, at: nat) returns (ats: seq<nat>)
    requires forall s, e, a | s != [] && laid(s, e, a) :: exists after :: Leads(stored, laid, s, e, a, after)
    requires laid(cs, entries, at)
    ensures AllAt(stored, cs, entries, ats)
    decreases |cs|
  {
    if cs == [] {
      ats := [];
    } else {
      var after :| Leads(stored, laid, cs, entries, at, after);
      var others := AllStored(stored, laid, cs[1..], entries + ENTRY, after);
      ats := OneMore(stored, cs, entries, at, others);
    }
  }

  lemma FirstLaid(img: seq<byte>, base: nat, cs: seq<Node>, entries: nat, at: nat) returns (after: nat)
    requires cs != [] && Laid(img, base, cs, entries, at)
    ensures Leads(StoredIn(img, base), LaidIn(img, base), cs, entries, at, after)
  {
    var rest;
    after, rest := ChildrenParts(img, base, StoredIn(img, base), cs, entries, at, BinChildren(cs, at).value);
    assert Laid(img, base, cs[1..], entries + ENTRY, after);
  }

  lemma LaidLeads(img: seq<byte>, base: nat, stored: (Node, nat, nat) -> bool, laid: (seq<Node>, nat, nat) -> bool)
    requires stored == StoredIn(img, base) && laid == LaidIn(img, base)
    ensures forall s, e, a | s != [] && laid(s, e, a) :: exists after :: Leads(stored, laid, s, e, a, after)
  {
    forall s, e, a | s != [] && laid(s, e, a) ensures exists after :: Leads(stored, laid, s, e, a, after) {
      var after := FirstLaid(img, base, s, e, a);
      assert Leads(stored, laid, s, e, a, after);
    }
  }

  lemma OneMore<T>(stored: (T, nat, nat) -> bool, cs: seq<T>, entries: nat, at: nat, others: seq<nat>) returns (ats: seq<nat>)
    requires cs != [] && stored(cs[0], entries, at) && AllAt(stored, cs[1..], entries + ENTRY, others)
    ensures AllAt(stored, cs, entries, ats)
  {
    ats := [at] + others;
    forall i: nat | i < |cs| ensures stored(cs[i], entries + ENTRY * i, ats[i]) {
      if i > 0 { assert stored(cs[1..][i - 1], entries + ENTRY + ENTRY * (i - 1), others[i - 1]); }
    }
  }

  lemma {:induction false} HeightAt(cs: seq<Node>, i: nat)
    requires i < |cs|
    ensures Height(cs[i]) <= HeightOf(cs)
    decreases |cs|
  {
    if i > 0 { HeightAt(cs[1..], i - 1); }
  }

  /** The entries of the children at `entries` and their names and data at `at` are in the image. */
  lemma {:induction false} ChildrenRead(img: seq<byte>, base: nat, cs: seq<Node>, entries: nat, at: nat, ps: Parts, depth: nat)
    requires (forall c :: c in cs ==> Named(c)) && depth >= HeightOf(cs) && BinChildren(cs, at) == Some(ps)
    requires Holds(img, base, entries, ps.entries) && Holds(img, base, at, ps.payload)
    ensures ReadEntries(img, base, entries, |cs|, depth) == Some(cs)
    decreases cs, 0
  {
    var stored := StoredIn(img, base);
    LaidLeads(img, base, stored, LaidIn(img, base));
    var ats := AllStored(stored, LaidIn(img, base), cs, entries, at);
    forall i: nat | i < |cs| ensures Read(img, base, entries + ENTRY * i, depth) == Some(cs[i]) {
      HeightAt(cs, i);
      assert stored(cs[i], entries + ENTRY * i, ats[i]);
      ChildRead(img, base, cs[i], entries + ENTRY * i, ats[i], depth);
    }
    EntriesRead(img, base, entries, depth, cs);
  }

  /** A reader that starts at the root entry recovers the whole tree: types, names, sizes, contents. */
  lemma ImageRoundTrip(tree: Node, base: nat, depth: nat)
    requires tree.Folder? && Named(tree) && Image(tree, base).Some? && depth >= Height(tree)
    ensures Read(Image(tree, base).value, base, base, depth) == Some(Folder([47], tree.children))
  {
    RootStored(tree, base);
    ChildRead(Image(tree, base).value, base, Folder([47], tree.children), base, base + ENTRY, depth);
  }

  lemma RootPlaced(tree: Node, base: nat) returns (p: Placed)
    requires tree.Folder? && Image(tree, base).Some?
    ensures Place(Folder([47], tree.children), base + ENTRY) == Some(p) && Image(tree, base).value == p.entry + (BinName([47]) + p.data)
    ensures p.name == base + ENTRY + |BinName([47])|
  {
    var e := Entry(1, base + ENTRY, base + ENTRY + 4, |tree.children|).value;
    var data := BinData(tree, base + ENTRY + 4).value;
    assert BinName([47]) == [47, 0, 0, 0];
    assert BinData(Folder([47], tree.children), base + ENTRY + 4) == Some(data);
    p := Place(Folder([47], tree.children), base + ENTRY).value;
    Assoc(e, [47, 0, 0, 0], data);
  }

  lemma RootStored(tree: Node, base: nat)
    requires tree.Folder? && Image(tree, base).Some?
    ensures StoredIn(Image(tree, base).value, base)(Folder([47], tree.children), base, base + ENTRY)
  {
    var img := Image(tree, base).value;
    var p := RootPlaced(tree, base);
    assert img[0..|img|] == img;
    HoldsParts(img, base, base, p.entry, BinName([47]) + p.data);
    HoldsParts(img, base, base + ENTRY, BinName([47]), p.data);
  }
}
