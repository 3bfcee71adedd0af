/** The two programs together: what mksfs lays out, the kernel finds and reads back. */
module FsRoundTrip {
  import opened Basics
  import opened SimpleFS
  import opened ImageMain
  import opened FsReader

  // ----- paths in the host tree -----------------------------------------------------

  /** ks names a node of the tree by its positions among the kept entries, directory by directory. */
  ghost predicate PathExists(root: Host, ks: seq<nat>)
    decreases |ks|, 0
  {
    ks != [] ==>
      var n := |ks| - 1;
      PathExists(root, ks[..n]) && NodeAt(root, ks[..n]).Directory? && ks[n] < |Kept(NodeAt(root, ks[..n]).entries)|
  }

  ghost function NodeAt(root: Host, ks: seq<nat>): Host
    requires PathExists(root, ks)
    decreases |ks|, 2
  {
    if ks == [] then root else LastEntry(root, ks).node
  }

  ghost function LastEntry(root: Host, ks: seq<nat>): Entry
    requires PathExists(root, ks) && ks != []
    decreases |ks|, 1
  {
    Kept(NodeAt(root, ks[..|ks| - 1]).entries)[ks[|ks| - 1]]
  }

  ghost function NamesAt(root: Host, ks: seq<nat>): (names: seq<string>)
    requires PathExists(root, ks)
    ensures |names| == |ks|
    decreases |ks|
  {
    if ks == [] then [] else NamesAt(root, ks[..|ks| - 1]) + [LastEntry(root, ks).name]
  }

  /** No directory has two kept entries of the same name. */
  ghost predicate NamesDiffer(kept: seq<Entry>, i: nat, j: nat) {
    i < j < |kept| ==> kept[i].name != kept[j].name
  }

  ghost predicate NamesUnique(h: Host)
    decreases h, 1
  {
    h.Directory? ==>
      && (forall i: nat, j: nat {:trigger NamesDiffer(Kept(h.entries), i, j)} :: NamesDiffer(Kept(h.entries), i, j))
      && forall k: nat {:trigger EntryNamesUnique(h, k)} :: EntryNamesUnique(h, k)
  }

  ghost predicate EntryNamesUnique(h: Host, k: nat)
    requires h.Directory?
    decreases h, 0
  {
    k < |h.entries| ==> NamesUnique(h.entries[k].node)
  }

  /** The limits hold everywhere below. */
  lemma {:induction false} LimitsBelow(root: Host, ks: seq<nat>)
    requires PathExists(root, ks) && WithinLimits(root) && NamesUnique(root)
    ensures WithinLimits(NodeAt(root, ks)) && NamesUnique(NodeAt(root, ks))
    ensures ks != [] ==> NameOk(LastEntry(root, ks).name) && !Skipped(LastEntry(root, ks))
    decreases |ks|
  {
    if ks != [] {
      var dir := NodeAt(root, ks[..|ks| - 1]);
      LimitsBelow(root, ks[..|ks| - 1]);
      var e := LastEntry(root, ks);
      assert e in Kept(dir.entries) && e in dir.entries;
      var i: nat :| i < |dir.entries| && dir.entries[i] == e;
      assert EntryWithinLimits(dir, i) && EntryNamesUnique(dir, i);
    }
  }

  // ----- where they are stored --------------------------------------------------------

  ghost predicate LayoutExists(l: Layout, ks: seq<nat>)
    decreases |ks|, 0
  {
    ks != [] ==>
      var n := |ks| - 1;
      LayoutExists(l, ks[..n]) && LayoutAt(l, ks[..n]).DirLayout? && ks[n] < |Layouts(LayoutAt(l, ks[..n]).kids)|
  }

  ghost function LayoutAt(l: Layout, ks: seq<nat>): Layout
    requires LayoutExists(l, ks)
    decreases |ks|, 1
  {
    if ks == [] then l else Layouts(LayoutAt(l, ks[..|ks| - 1]).kids)[ks[|ks| - 1]]
  }

  /** Every node of the tree is stored in the image, in the directory above it. */
  lemma {:induction false} StoredAt(img: Image, root: Host, l: Layout, ks: seq<nat>)
    requires Stored(img, l, "/", root, ROOT_BLOCK) && PathExists(root, ks)
    ensures LayoutExists(l, ks)
    ensures Stored(img, LayoutAt(l, ks), if ks == [] then "/" else LastEntry(root, ks).name, NodeAt(root, ks),
                   if ks == [] then ROOT_BLOCK else LayoutAt(l, ks[..|ks| - 1]).inode)
    decreases |ks|
  {
    if ks != [] {
      var n := |ks| - 1;
      StoredAt(img, root, l, ks[..n]);
      var dir := LayoutAt(l, ks[..n]);
      KidAt(img, dir.kids, Kept(NodeAt(root, ks[..n]).entries), dir.inode, ks[n]);
    }
  }

  // ----- one step down, one step up -----------------------------------------------------

  lemma {:induction false} FirstMatch(direct: DirectItems, name: string, i: nat, n: nat, j: nat)
    requires i <= j < n <= DIRECT && direct[j].name == name && forall m :: i <= m < j ==> direct[m].name != name
    ensures SearchDirect(direct, name, i, n) == Found(direct[j].block)
    decreases n - i
  {
    if i < j { FirstMatch(direct, name, i + 1, n, j); }
  }

  lemma {:induction false} NoMatch(direct: DirectItems, name: string, i: nat, n: nat)
    requires n <= DIRECT && forall m :: i <= m < n ==> direct[m].name != name
    ensures SearchDirect(direct, name, i, n) == NotFound
    decreases n - i
  {
    if i < n { NoMatch(direct, name, i + 1, n); }
  }

  /** The scan of the indirect block from item i on reaches item m, the first with the name. */
  lemma {:induction false} IndirectMatch(img: Image, ino: Inode, items: Items, name: string, i: nat, m: nat)
    requires ino.indirect < BLOCK_NUM && img[ino.indirect] == ItemBlock(items)
    requires i <= m < ino.blocks && m < ITEMS_PER_BLOCK && items[m].name == name && forall j :: i <= j < m ==> items[j].name != name
    ensures SearchIndirect(img, ino, name, i) == if m < ITEMS_TO_END then Found(0) else Undefined
    decreases m - i
  {
    if i < m { IndirectMatch(img, ino, items, name, i + 1, m); }
  }

  /** The scan does not meet the name, and leaves the indirect block if the directory has more than 128 items. */
  lemma {:induction false} IndirectNoMatch(img: Image, ino: Inode, items: Items, name: string, i: nat)
    requires ino.indirect < BLOCK_NUM && img[ino.indirect] == ItemBlock(items) && i <= ITEMS_PER_BLOCK && i <= ino.blocks
    requires forall j :: i <= j < ITEMS_PER_BLOCK && j < ino.blocks ==> items[j].name != name
    ensures SearchIndirect(img, ino, name, i) == if ino.blocks <= ITEMS_PER_BLOCK then NotFound else Undefined
    decreases ITEMS_PER_BLOCK - i
  {
    if i < ino.blocks && i < ITEMS_PER_BLOCK { IndirectNoMatch(img, ino, items, name, i + 1); }
  }

  /** Item j of the indirect block belongs to entry j + 10, if there is one. */
  lemma IndirectItem(img: Image, ino: Inode, inodes: seq<nat>, kept: seq<Entry>, j: nat)
    requires EntriesStored(img, ino, inodes, kept) && 10 < |kept| && j < ITEMS_PER_BLOCK
    ensures ino.indirect < BLOCK_NUM && img[ino.indirect].ItemBlock?
    ensures img[ino.indirect].items[j].name == if j + 10 < |kept| then kept[j + 10].name else ""
  {
    assert EntryStored(img, ino, inodes, kept, j + 10);
  }

  /** What a lookup yields for entry k >= 10 of a directory of n entries. Its item is at k - 10 in the indirect block,
      but the scan begins at 12 there. For k >= 22 it meets the name and takes a block number from behind the inode, where
      there are zeros, so the superblock passes for an inode; otherwise it finds nothing, or leaves the block. */
  function BeyondTen(n: nat, k: nat): LookupResult {
    if k < 22 then if n + 2 <= ITEMS_PER_BLOCK then NotFound else Undefined
    else if k < ITEMS_TO_END + 10 then Found(0)
    else Undefined
  }

  /** The search for each entry of a directory, exactly: the right inode if and only if its position is below ten. */
  lemma SearchOutcome(img: Image, ino: Inode, inodes: seq<nat>, kept: seq<Entry>, k: nat)
    requires EntriesStored(img, ino, inodes, kept) && ino.blocks == 2 + |kept| <= MAX_BLOCKS && k < |kept|
    requires ino.direct[0].name == "." && ino.direct[1].name == ".." && kept[k].name !in {"", ".", ".."}
    requires forall i: nat, j: nat {:trigger NamesDiffer(kept, i, j)} :: NamesDiffer(kept, i, j)
    ensures Search(img, ino, kept[k].name) == if k < 10 then Found(inodes[k]) else BeyondTen(|kept|, k)
  {
    var n := if ino.blocks <= DIRECT then ino.blocks else DIRECT;
    forall m | 2 <= m < n && m != 2 + k
      ensures ino.direct[m].name != kept[k].name
    {
      assert EntryStored(img, ino, inodes, kept, m - 2) && NamesDiffer(kept, k, m - 2) && NamesDiffer(kept, m - 2, k);
    }
    if k < 10 {
      assert EntryStored(img, ino, inodes, kept, k);
      FirstMatch(ino.direct, kept[k].name, 0, n, 2 + k);
    } else {
      NoMatch(ino.direct, kept[k].name, 0, DIRECT);
      IndirectOutcome(img, ino, inodes, kept, k);
    }
  }

  lemma IndirectOutcome(img: Image, ino: Inode, inodes: seq<nat>, kept: seq<Entry>, k: nat)
    requires EntriesStored(img, ino, inodes, kept) && ino.blocks == 2 + |kept| <= MAX_BLOCKS && 10 <= k < |kept|
    requires kept[k].name != ""
    requires forall i: nat, j: nat {:trigger NamesDiffer(kept, i, j)} :: NamesDiffer(kept, i, j)
    ensures SearchIndirect(img, ino, kept[k].name, DIRECT) == BeyondTen(|kept|, k)
  {
    IndirectItem(img, ino, inodes, kept, 0);
    var items := img[ino.indirect].items;
    forall j: nat | j < ITEMS_PER_BLOCK
      ensures items[j].name == kept[k].name <==> j == k - 10
    {
      IndirectItem(img, ino, inodes, kept, j);
      assert NamesDiffer(kept, k, j + 10) && NamesDiffer(kept, j + 10, k);
    }
    if k < 22 {
      IndirectNoMatch(img, ino, items, kept[k].name, DIRECT);
    } else {
      IndirectMatch(img, ino, items, kept[k].name, DIRECT, k - 10);
    }
  }

  /** A name that a directory does not have is not found, unless the scan leaves the indirect block. */
  lemma SearchMissesOthers(img: Image, ino: Inode, inodes: seq<nat>, kept: seq<Entry>, name: string)
    requires EntriesStored(img, ino, inodes, kept) && ino.blocks == 2 + |kept| <= MAX_BLOCKS
    requires ino.direct[0].name == "." && ino.direct[1].name == ".." && name !in {"", ".", ".."}
    requires forall k :: 0 <= k < |kept| ==> kept[k].name != name
    ensures Search(img, ino, name) == if ino.blocks <= ITEMS_PER_BLOCK then NotFound else Undefined
  {
    var n := if ino.blocks <= DIRECT then ino.blocks else DIRECT;
    forall m | 2 <= m < n
      ensures ino.direct[m].name != name
    {
      assert EntryStored(img, ino, inodes, kept, m - 2);
    }
    NoMatch(ino.direct, name, 0, n);
    if ino.blocks > DIRECT {
      IndirectItem(img, ino, inodes, kept, 0);
      forall j: nat | j < ITEMS_PER_BLOCK
        ensures img[ino.indirect].items[j].name != name
      {
        IndirectItem(img, ino, inodes, kept, j);
      }
      IndirectNoMatch(img, ino, img[ino.indirect].items, name, DIRECT);
    }
  }

  // ----- paths as strings ---------------------------------------------------------------

  function Slashed(names: seq<string>): string {
    if names == [] then [] else "/" + names[0] + Slashed(names[1..])
  }

  /** A path from a directory downwards. */
  function Downward(names: seq<string>): string {
    if names == [] then [] else names[0] + Slashed(names[1..])
  }

  /** The path of a node from the root. */
  function PathString(names: seq<string>): string {
    if names == [] then "/" else Slashed(names)
  }

  lemma {:induction false} NameEndOf(name: string, more: string, i: nat)
    requires '/' !in name && i <= |name| && (more != [] ==> more[0] == '/')
    ensures NameEnd(name + more, i) == |name|
    decreases |name| - i
  {
    if i < |name| {
      assert (name + more)[i] == name[i] && name[i] in name;
      NameEndOf(name, more, i + 1);
    }
  }

  /** Names followed by `inner`, if anything follows, behind a slash. */
  lemma SplitBehind(name: string, more: string, inner: string)
    requires NameOk(name) && if more == [] then inner == [] else more == "/" + inner
    ensures var p := name + more; p != [] && p[0] != '/' && FirstName(p) == name && RestOfPath(p) == inner
  {
    var p := name + more;
    NameEndOf(name, more, 0);
    assert p[0] == name[0] && name[0] in name;
    assert p[..|name|] == name;
    if more != [] { assert p[|name| + 1..] == inner; }
  }

  lemma SlashedShape(names: seq<string>)
    ensures if names == [] then Slashed(names) == [] && Downward(names) == [] else Slashed(names) == "/" + Downward(names)
  {
    if names != [] { assert "/" + names[0] + Slashed(names[1..]) == "/" + (names[0] + Slashed(names[1..])); }
  }

  lemma SplitFirst(name: string, rest: seq<string>)
    requires NameOk(name)
    ensures var p := name + Slashed(rest);
            p != [] && p[0] != '/' && FirstName(p) == name && RestOfPath(p) == Downward(rest)
  {
    SlashedShape(rest);
    SplitBehind(name, Slashed(rest), Downward(rest));
  }

  /** A lookup takes the first name, and goes on with the others. */
  lemma LookupFirst(img: Image, b: nat, name: string, rest: seq<string>)
    requires NameOk(name)
    ensures Lookup(img, Some(b), name + Slashed(rest)) == Then(img, Step(img, b, name), Downward(rest))
  {
    SplitFirst(name, rest);
    LookupStep(img, Some(b), name + Slashed(rest));
  }

  /** The lookup of a path as steps from directory to directory. */
  function Steps(img: Image, b: nat, names: seq<string>): LookupResult
    decreases |names|
  {
    if names == [] then Found(b)
    else
      var r := Step(img, b, names[0]);
      if r.Found? then Steps(img, r.block, names[1..]) else r
  }

  lemma {:induction false} LookupIsSteps(img: Image, b: nat, names: seq<string>)
    requires forall i :: 0 <= i < |names| ==> NameOk(names[i])
    ensures Lookup(img, Some(b), Downward(names)) == Steps(img, b, names)
    decreases |names|
  {
    if names != [] {
      LookupFirst(img, b, names[0], names[1..]);
      var r := Step(img, b, names[0]);
      if r.Found? { LookupIsSteps(img, r.block, names[1..]); }
    }
  }

  lemma AbsoluteOfNames(img: Image, node: Option<nat>, names: seq<string>)
    requires forall i :: 0 <= i < |names| ==> NameOk(names[i])
    ensures Lookup(img, node, PathString(names)) == Lookup(img, Some(ROOT_BLOCK), Downward(names))
  {
    SlashedShape(names);
    assert PathString(names) == "/" + Downward(names);
    if names != [] { SplitFirst(names[0], names[1..]); }
    AbsolutePath(img, node, Downward(names));
  }

  /** Prefixes of a path are paths, and their last names are its names. */
  lemma {:induction false} Prefixes(root: Host, ks: seq<nat>, d: nat)
    requires PathExists(root, ks) && d <= |ks|
    ensures PathExists(root, ks[..d])
    ensures d > 0 ==> NamesAt(root, ks)[d - 1] == LastEntry(root, ks[..d]).name
    decreases |ks|
  {
    if d == |ks| {
      assert ks[..d] == ks;
    } else {
      var shorter := ks[..|ks| - 1];
      assert shorter[..d] == ks[..d];
      Prefixes(root, shorter, d);
    }
  }

  ghost predicate FirstTen(ks: seq<nat>, d: nat) {
    forall i :: d <= i < |ks| ==> ks[i] < 10
  }

  /** How many entries the directories on the way to a node have. */
  ghost function SizesAt(root: Host, ks: seq<nat>): (sizes: seq<nat>)
    requires PathExists(root, ks)
    ensures |sizes| == |ks|
    decreases |ks|
  {
    if ks == [] then []
    else SizesAt(root, ks[..|ks| - 1]) + [|Kept(NodeAt(root, ks[..|ks| - 1]).entries)|]
  }

  lemma {:induction false} SizeAt(root: Host, ks: seq<nat>, d: nat)
    requires PathExists(root, ks) && d < |ks|
    ensures PathExists(root, ks[..d]) && NodeAt(root, ks[..d]).Directory?
    ensures SizesAt(root, ks)[d] == |Kept(NodeAt(root, ks[..d]).entries)| > ks[d]
    decreases |ks|
  {
    if d < |ks| - 1 {
      var shorter := ks[..|ks| - 1];
      assert shorter[..d] == ks[..d];
      SizeAt(root, shorter, d);
    }
  }

  /** What the path of a node leads to, from its step d on: the node's inode, or what comes of the first step that is not
      among the first ten. Behind the superblock no path leads on, since its type is not that of a directory. */
  function PathOutcome(ks: seq<nat>, sizes: seq<nat>, inode: nat, d: nat): LookupResult
    requires |sizes| == |ks|
    decreases |ks| - d
  {
    if d >= |ks| then Found(inode)
    else if ks[d] < 10 then PathOutcome(ks, sizes, inode, d + 1)
    else
      var r := BeyondTen(sizes[d], ks[d]);
      if r.Found? && d + 1 < |ks| then NotFound else r
  }

  lemma {:induction false} RightInodeOnlyInFirstTen(ks: seq<nat>, sizes: seq<nat>, inode: nat, d: nat)
    requires |sizes| == |ks| && inode != 0
    ensures PathOutcome(ks, sizes, inode, d) == Found(inode) <==> FirstTen(ks, d)
    decreases |ks| - d
  {
    if d < |ks| { RightInodeOnlyInFirstTen(ks, sizes, inode, d + 1); }
  }

  /** The premises that the image stores the tree, within the limits; a fact that proofs ask for by name. */
  ghost predicate HoldsAs(img: Image, root: Host, l: Layout, name: int) {
    ImageOf(img, root, l) && WithinLimits(root) && NamesUnique(root)
  }

  ghost predicate Holds(img: Image, root: Host, l: Layout) {
    forall name {:trigger HoldsAs(img, root, l, name)} :: HoldsAs(img, root, l, name)
  }

  lemma HasLayout(img: Image, root: Host, l: Layout, ks: seq<nat>)
    requires Holds(img, root, l) && PathExists(root, ks)
    ensures LayoutExists(l, ks)
  {
    assert HoldsAs(img, root, l, 0);
    StoredAt(img, root, l, ks);
  }

  lemma IsStored(img: Image, root: Host, l: Layout, ks: seq<nat>)
    requires Holds(img, root, l) && PathExists(root, ks)
    ensures LayoutExists(l, ks) && LayoutAt(l, ks).inode < BLOCK_NUM && img[LayoutAt(l, ks).inode].InodeBlock?
    ensures ks == [] ==> LayoutAt(l, ks).inode == ROOT_BLOCK
  {
    assert HoldsAs(img, root, l, 0);
    StoredAt(img, root, l, ks);
  }

  lemma {:induction false} NamesOk(root: Host, ks: seq<nat>)
    requires PathExists(root, ks) && WithinLimits(root) && NamesUnique(root)
    ensures forall i :: 0 <= i < |ks| ==> NameOk(NamesAt(root, ks)[i])
    decreases |ks|
  {
    if ks != [] {
      NamesOk(root, ks[..|ks| - 1]);
      LimitsBelow(root, ks);
    }
  }

  lemma NodeIsStored(img: Image, root: Host, l: Layout, ks: seq<nat>) returns (up: nat, name: string)
    requires Holds(img, root, l) && PathExists(root, ks)
    ensures LayoutExists(l, ks) && Stored(img, LayoutAt(l, ks), name, NodeAt(root, ks), up) && NamesUnique(NodeAt(root, ks))
  {
    assert HoldsAs(img, root, l, 0);
    StoredAt(img, root, l, ks);
    LimitsBelow(root, ks);
    up := if ks == [] then ROOT_BLOCK else LayoutAt(l, ks[..|ks| - 1]).inode;
    name := if ks == [] then "/" else LastEntry(root, ks).name;
  }

  lemma NameOfEntry(img: Image, root: Host, l: Layout, ks: seq<nat>)
    requires Holds(img, root, l) && PathExists(root, ks) && ks != []
    ensures LayoutExists(l, ks) && LastEntry(root, ks).name != ""
  {
    assert HoldsAs(img, root, l, 0);
    StoredAt(img, root, l, ks);
    LimitsBelow(root, ks);
  }

  /** The last step of a path, from the directory at `here`. */
  lemma StepFrom(img: Image, root: Host, l: Layout, here: seq<nat>, ks: seq<nat>)
    requires Holds(img, root, l) && PathExists(root, ks) && ks != [] && here == ks[..|ks| - 1]
    ensures LayoutExists(l, here) && LayoutExists(l, ks)
    ensures var k, e := ks[|here|], LastEntry(root, ks);
            Step(img, LayoutAt(l, here).inode, e.name)
            == if k < 10 then Found(LayoutAt(l, ks).inode) else BeyondTen(|Kept(NodeAt(root, here).entries)|, k)
  {
    var up, name := NodeIsStored(img, root, l, here);
    NameOfEntry(img, root, l, ks);
    StepInDirectory(img, LayoutAt(l, here), NodeAt(root, here), up, name, ks[|here|]);
  }

  /** One step from the directory at ks[..d] towards the node at ks. */
  lemma StepDown(img: Image, root: Host, l: Layout, ks: seq<nat>, d: nat, here: seq<nat>, next: seq<nat>)
    requires Holds(img, root, l) && PathExists(root, ks) && d < |ks| && here == ks[..d] && next == ks[..d + 1]
    ensures LayoutExists(l, here) && LayoutExists(l, next)
    ensures Step(img, LayoutAt(l, here).inode, NamesAt(root, ks)[d])
            == if ks[d] < 10 then Found(LayoutAt(l, next).inode) else BeyondTen(SizesAt(root, ks)[d], ks[d])
  {
    assert next[..d] == here;
    assert PathExists(root, next) && NamesAt(root, ks)[d] == LastEntry(root, next).name by { Prefixes(root, ks, d + 1); }
    StepFrom(img, root, l, here, next);
    SizeAt(root, ks, d);
  }

  lemma StepInDirectory(img: Image, l: Layout, dir: Host, up: nat, name: string, k: nat)
    requires Stored(img, l, name, dir, up) && dir.Directory? && NamesUnique(dir) && k < |Kept(dir.entries)|
    requires Kept(dir.entries)[k].name != ""
    ensures l.DirLayout? && k < |Layouts(l.kids)|
    ensures Step(img, l.inode, Kept(dir.entries)[k].name)
            == if k < 10 then Found(Layouts(l.kids)[k].inode) else BeyondTen(|Kept(dir.entries)|, k)
  {
    var kept := Kept(dir.entries);
    assert kept[k] in kept;
    KidAt(img, l.kids, kept, l.inode, k);
    SearchOutcome(img, img[l.inode].inode, Inodes(l.kids), kept, k);
  }

  /** What step d of a path yields, when `inodes` are the blocks along it. */
  ghost predicate StepKnown(img: Image, inodes: seq<nat>, names: seq<string>, ks: seq<nat>, sizes: seq<nat>, d: nat) {
    d < |ks| && |names| == |sizes| == |ks| && |inodes| == |ks| + 1 ==>
      Step(img, inodes[d], names[d]) == if ks[d] < 10 then Found(inodes[d + 1]) else BeyondTen(sizes[d], ks[d])
  }

  lemma {:induction false} StepsAlong(img: Image, inodes: seq<nat>, names: seq<string>, ks: seq<nat>, sizes: seq<nat>, d: nat)
    requires d <= |ks| == |names| == |sizes| && |inodes| == |ks| + 1
    requires forall i: nat {:trigger StepKnown(img, inodes, names, ks, sizes, i)} :: StepKnown(img, inodes, names, ks, sizes, i)
    requires forall rest: seq<string> :: Steps(img, 0, rest) == if rest == [] then Found(0) else NotFound
    ensures Steps(img, inodes[d], names[d..]) == PathOutcome(ks, sizes, inodes[|ks|], d)
    decreases |ks| - d
  {
    if d < |ks| {
      assert StepKnown(img, inodes, names, ks, sizes, d);
      assert names[d..][1..] == names[d + 1..];
      if ks[d] < 10 { StepsAlong(img, inodes, names, ks, sizes, d + 1); }
    }
  }

  /** The inodes' blocks along a path. */
  ghost function InodesAt(l: Layout, ks: seq<nat>): (inodes: seq<nat>)
    requires LayoutExists(l, ks)
    ensures |inodes| == |ks| + 1
    decreases |ks|
  {
    if ks == [] then [l.inode] else InodesAt(l, ks[..|ks| - 1]) + [LayoutAt(l, ks).inode]
  }

  lemma {:induction false} InodeAt(l: Layout, ks: seq<nat>, d: nat)
    requires LayoutExists(l, ks) && d <= |ks|
    ensures LayoutExists(l, ks[..d]) && InodesAt(l, ks)[d] == LayoutAt(l, ks[..d]).inode
    decreases |ks|
  {
    if d == |ks| {
      assert ks[..d] == ks;
    } else {
      var shorter := ks[..|ks| - 1];
      assert shorter[..d] == ks[..d];
      InodeAt(l, shorter, d);
    }
  }

  /** The rest of a path, from the directory at ks[..d]. */
  lemma StepsDown(img: Image, root: Host, l: Layout, ks: seq<nat>, d: nat)
    requires Holds(img, root, l) && PathExists(root, ks) && d <= |ks|
    ensures LayoutExists(l, ks) && LayoutExists(l, ks[..d])
    ensures Steps(img, LayoutAt(l, ks[..d]).inode, NamesAt(root, ks)[d..])
            == PathOutcome(ks, SizesAt(root, ks), LayoutAt(l, ks).inode, d)
  {
    HasLayout(img, root, l, ks);
    var inodes, names, sizes := InodesAt(l, ks), NamesAt(root, ks), SizesAt(root, ks);
    forall i: nat
      ensures StepKnown(img, inodes, names, ks, sizes, i)
    {
      if i < |ks| { StepIsKnown(img, root, l, ks, i); }
    }
    forall rest: seq<string>
      ensures Steps(img, 0, rest) == if rest == [] then Found(0) else NotFound
    {
      NothingBehindSuperBlock(img, root, l, rest);
    }
    InodeAt(l, ks, d);
    InodeAt(l, ks, |ks|);
    assert ks[..|ks|] == ks;
    StepsAlong(img, inodes, names, ks, sizes, d);
  }

  lemma StepIsKnown(img: Image, root: Host, l: Layout, ks: seq<nat>, d: nat)
    requires Holds(img, root, l) && PathExists(root, ks) && d < |ks|
    ensures LayoutExists(l, ks) && StepKnown(img, InodesAt(l, ks), NamesAt(root, ks), ks, SizesAt(root, ks), d)
  {
    HasLayout(img, root, l, ks);
    InodeAt(l, ks, d);
    InodeAt(l, ks, d + 1);
    StepDown(img, root, l, ks, d, ks[..d], ks[..d + 1]);
  }

  lemma NothingBehindSuperBlock(img: Image, root: Host, l: Layout, names: seq<string>)
    requires Holds(img, root, l)
    ensures Steps(img, 0, names) == if names == [] then Found(0) else NotFound
  {
    assert HoldsAs(img, root, l, 0);
  }

  /** The lookup of a path from a directory downwards, from any directory on the way to a node: what it leads to is known
      exactly, and it is the node's inode if and only if each of its steps is among the first ten entries. */
  lemma LookupDown(img: Image, root: Host, l: Layout, ks: seq<nat>, d: nat)
    requires Holds(img, root, l) && PathExists(root, ks) && d <= |ks|
    ensures LayoutExists(l, ks) && LayoutExists(l, ks[..d]) && LayoutAt(l, ks).inode != 0
    ensures var r, inode := Lookup(img, Some(LayoutAt(l, ks[..d]).inode), Downward(NamesAt(root, ks)[d..])), LayoutAt(l, ks).inode;
            r == PathOutcome(ks, SizesAt(root, ks), inode, d) && (r == Found(inode) <==> FirstTen(ks, d))
  {
    assert HoldsAs(img, root, l, 0);
    NamesOk(root, ks);
    StepsDown(img, root, l, ks, d);
    InodeNotZero(img, root, l, ks);
    LookupIsSteps(img, LayoutAt(l, ks[..d]).inode, NamesAt(root, ks)[d..]);
    RightInodeOnlyInFirstTen(ks, SizesAt(root, ks), LayoutAt(l, ks).inode, d);
  }

  lemma InodeNotZero(img: Image, root: Host, l: Layout, ks: seq<nat>)
    requires Holds(img, root, l) && PathExists(root, ks)
    ensures LayoutExists(l, ks) && LayoutAt(l, ks).inode != 0
  {
    IsStored(img, root, l, ks);
    assert HoldsAs(img, root, l, 0);
  }

  /** The round trip. What the absolute path of a node leads to, from any directory, is known exactly, and it is the inode that
      stores the node if and only if at every step the entry is among the first ten of its directory.
      A file then reads back byte for byte, and a directory is refused. */
  lemma ImageRoundTrip(img: Image, root: Host, l: Layout, ks: seq<nat>, node: Option<nat>)
    requires Holds(img, root, l) && PathExists(root, ks)
    ensures LayoutExists(l, ks)
    ensures var b := LayoutAt(l, ks).inode; 0 < b < BLOCK_NUM && img[b].InodeBlock?
    ensures var r, inode := Lookup(img, node, PathString(NamesAt(root, ks))), LayoutAt(l, ks).inode;
            r == PathOutcome(ks, SizesAt(root, ks), inode, 0) && (r == Found(inode) <==> FirstTen(ks, 0))
    ensures ReadAll(img, img[LayoutAt(l, ks).inode].inode)
            == if NodeAt(root, ks).RegularFile? then Bytes(NodeAt(root, ks).bytes) else NotAFile
  {
    PathRoundTrip(img, root, l, ks, node);
    assert HoldsAs(img, root, l, 0);
    StoredAt(img, root, l, ks);
    var ino := img[LayoutAt(l, ks).inode].inode;
    if NodeAt(root, ks).RegularFile? { ReadAllOfStored(img, LayoutAt(l, ks), ino, NodeAt(root, ks).bytes); }
  }

  lemma PathRoundTrip(img: Image, root: Host, l: Layout, ks: seq<nat>, node: Option<nat>)
    requires Holds(img, root, l) && PathExists(root, ks)
    ensures LayoutExists(l, ks) && LayoutAt(l, ks).inode != 0
    ensures var r, inode := Lookup(img, node, PathString(NamesAt(root, ks))), LayoutAt(l, ks).inode;
            r == PathOutcome(ks, SizesAt(root, ks), inode, 0) && (r == Found(inode) <==> FirstTen(ks, 0))
  {
    IsStored(img, root, l, []);
    assert HoldsAs(img, root, l, 0);
    var names := NamesAt(root, ks);
    NamesOk(root, ks);
    AbsoluteOfNames(img, node, names);
    LookupDown(img, root, l, ks, 0);
    assert ks[..0] == [] && names[0..] == names;
  }

  /** Nothing is found below a regular file. */
  lemma NothingBelowAFile(img: Image, root: Host, l: Layout, ks: seq<nat>, node: Option<nat>, q: string)
    requires Holds(img, root, l) && PathExists(root, ks) && ks != [] && NodeAt(root, ks).RegularFile? && FirstTen(ks, 0)
    requires q != [] && q[0] != '/'
    ensures Lookup(img, node, PathString(NamesAt(root, ks)) + "/" + q) == NotFound
  {
    var p := PathString(NamesAt(root, ks));
    ImageRoundTrip(img, root, l, ks, node);
    assert HoldsAs(img, root, l, 0);
    StoredAt(img, root, l, ks);
    NamesOk(root, ks);
    EndOfPath(NamesAt(root, ks));
    LookupOfJoined(img, node, p, q);
    RelativePath(img, Some(LayoutAt(l, ks).inode), q);
  }

  lemma {:induction false} EndOfPath(names: seq<string>)
    requires names != [] && forall i :: 0 <= i < |names| ==> NameOk(names[i])
    ensures var p := Slashed(names); p != [] && p[|p| - 1] != '/'
  {
    if |names| > 1 {
      EndOfPath(names[1..]);
    } else {
      assert Slashed(names[1..]) == [] && names[0][|names[0]| - 1] in names[0];
    }
  }

  /** A stored directory is its own "."; its ".." is the directory above; and a name that it does not have is not found in it,
      unless the scan leaves the indirect block, which it does with more than 126 entries. */
  lemma LookupInDirectory(img: Image, l: Layout, dir: Host, up: nat, dirName: string, name: string)
    requires Stored(img, l, dirName, dir, up) && dir.Directory? && NameOk(name)
    ensures name == "." ==> Lookup(img, Some(l.inode), name) == Found(l.inode)
    ensures name == ".." ==> Lookup(img, Some(l.inode), name) == Found(up)
    ensures name != "." && name != ".." && (forall k :: 0 <= k < |Kept(dir.entries)| ==> Kept(dir.entries)[k].name != name) ==>
              Lookup(img, Some(l.inode), name) == if |Kept(dir.entries)| <= 126 then NotFound else Undefined
  {
    var ino := img[l.inode].inode;
    LookupFirst(img, l.inode, name, []);
    assert name + Slashed([]) == name && Downward([]) == [];
    if name == "." {
      FirstMatch(ino.direct, ".", 0, if ino.blocks <= DIRECT then ino.blocks else DIRECT, 0);
    } else if name == ".." {
      FirstMatch(ino.direct, "..", 0, if ino.blocks <= DIRECT then ino.blocks else DIRECT, 1);
    } else if forall k :: 0 <= k < |Kept(dir.entries)| ==> Kept(dir.entries)[k].name != name {
      SearchMissesOthers(img, ino, Inodes(l.kids), Kept(dir.entries), name);
    }
  }

  /** The root is its own "..". */
  lemma RootIsItsOwnParent(img: Image, root: Host, l: Layout)
    requires Holds(img, root, l) && root.Directory?
    ensures Lookup(img, None, "/") == Lookup(img, None, "..") == Found(2)
  {
    assert HoldsAs(img, root, l, 0);
    LookupInDirectory(img, l, root, ROOT_BLOCK, "/", "..");
    AbsolutePath(img, None, "");
    assert "/" + "" == "/";
    LookupStep(img, None, "..");
    LookupStep(img, Some(ROOT_BLOCK), "..");
  }

  // ----- getInodePath ---------------------------------------------------------------------

  lemma LookupUp(img: Image, l: Layout, dir: Host, up: nat, name: string)
    requires Stored(img, l, name, dir, up) && dir.Directory?
    ensures Lookup(img, Some(l.inode), "..") == Found(up)
  {
    var ino := img[l.inode].inode;
    FirstMatch(ino.direct, "..", 0, if ino.blocks <= DIRECT then ino.blocks else DIRECT, 1);
    NameEndOf("..", "", 0);
    assert ".." + "" == "..";
    SplitBehind("..", "", "");
    LookupStep(img, Some(l.inode), "..");
  }

  /** What the loop of getInodePath sees at a directory: its name, and the directory above. */
  lemma NameOnPath(img: Image, root: Host, l: Layout, ks: seq<nat>, d: nat)
    requires Holds(img, root, l) && PathExists(root, ks) && d <= |ks|
    ensures LayoutExists(l, ks[..d]) && LayoutAt(l, ks[..d]).inode < BLOCK_NUM && img[LayoutAt(l, ks[..d]).inode].InodeBlock?
    ensures var name := img[LayoutAt(l, ks[..d]).inode].inode.name;
            (name == "/" <==> d == 0) && (d > 0 ==> name == NamesAt(root, ks)[d - 1])
  {
    Prefixes(root, ks, d);
    NameInInode(img, root, l, ks[..d]);
  }

  lemma ParentOnPath(img: Image, root: Host, l: Layout, ks: seq<nat>, d: nat)
    requires Holds(img, root, l) && PathExists(root, ks) && NodeAt(root, ks).Directory? && 0 < d <= |ks|
    ensures LayoutExists(l, ks[..d]) && LayoutExists(l, ks[..d - 1])
    ensures Lookup(img, Some(LayoutAt(l, ks[..d]).inode), "..") == Found(LayoutAt(l, ks[..d - 1]).inode)
  {
    var here := ks[..d];
    assert here[..|here| - 1] == ks[..d - 1];
    DirectoryOnPath(root, ks, d);
    ParentOf(img, root, l, here);
  }

  lemma NameInInode(img: Image, root: Host, l: Layout, ks: seq<nat>)
    requires Holds(img, root, l) && PathExists(root, ks)
    ensures LayoutExists(l, ks) && LayoutAt(l, ks).inode < BLOCK_NUM && img[LayoutAt(l, ks).inode].InodeBlock?
    ensures var name := img[LayoutAt(l, ks).inode].inode.name;
            (name == "/" <==> ks == []) && (ks != [] ==> name == LastEntry(root, ks).name)
  {
    assert HoldsAs(img, root, l, 0);
    StoredAt(img, root, l, ks);
    LimitsBelow(root, ks);
  }

  lemma ParentOf(img: Image, root: Host, l: Layout, ks: seq<nat>)
    requires Holds(img, root, l) && PathExists(root, ks) && ks != [] && NodeAt(root, ks).Directory?
    ensures LayoutExists(l, ks)
    ensures Lookup(img, Some(LayoutAt(l, ks).inode), "..") == Found(LayoutAt(l, ks[..|ks| - 1]).inode)
  {
    assert HoldsAs(img, root, l, 0);
    StoredAt(img, root, l, ks);
    LookupUp(img, LayoutAt(l, ks), NodeAt(root, ks), LayoutAt(l, ks[..|ks| - 1]).inode, LastEntry(root, ks).name);
  }

  /** Everything on the way to a directory is a directory. */
  lemma {:induction false} DirectoryOnPath(root: Host, ks: seq<nat>, d: nat)
    requires PathExists(root, ks) && NodeAt(root, ks).Directory? && d <= |ks|
    ensures PathExists(root, ks[..d]) && NodeAt(root, ks[..d]).Directory?
    decreases |ks|
  {
    if d == |ks| {
      assert ks[..d] == ks;
    } else {
      var shorter := ks[..|ks| - 1];
      assert shorter[..d] == ks[..d];
      DirectoryOnPath(root, shorter, d);
    }
  }

  lemma {:induction false} SuffixIsShorter(names: seq<string>, d: nat)
    requires d <= |names|
    ensures |Slashed(names[d..])| <= |Slashed(names)|
    decreases |names|
  {
    if d > 0 {
      SuffixIsShorter(names[1..], d - 1);
      assert names[1..][d - 1..] == names[d..];
    } else {
      assert names[0..] == names;
    }
  }

  lemma SuffixNext(names: seq<string>, d: nat)
    requires 0 < d <= |names|
    ensures Slashed(names[d - 1..]) == "/" + names[d - 1] + Slashed(names[d..])
    ensures "/" + names[d - 1] + (Slashed(names[d..]) + ['\0']) == Slashed(names[d - 1..]) + ['\0']
    ensures |Slashed(names[d..])| + |names[d - 1]| + 1 <= |Slashed(names)|
  {
    assert names[d - 1..][1..] == names[d..];
    SuffixIsShorter(names, d - 1);
  }

  /** Block d of the trail holds a directory: the root for d = 0, otherwise the one called names[d - 1],
      and ".." leads from it to the block before. */
  ghost predicate TrailAt(img: Image, blocks: seq<nat>, names: seq<string>, d: nat) {
    d <= |names| && d < |blocks| ==>
      && blocks[d] < BLOCK_NUM && img[blocks[d]].InodeBlock?
      && (img[blocks[d]].inode.name == "/" <==> d == 0)
      && (d > 0 ==> img[blocks[d]].inode.name == names[d - 1] && Lookup(img, Some(blocks[d]), "..") == Found(blocks[d - 1]))
  }

  ghost predicate Trail(img: Image, blocks: seq<nat>, names: seq<string>) {
    |blocks| == |names| + 1 && forall d: nat {:trigger TrailAt(img, blocks, names, d)} :: TrailAt(img, blocks, names, d)
  }

  /** From every stored directory a trail leads up to the root. */
  lemma {:induction false} DirectoryHasTrail(img: Image, root: Host, l: Layout, ks: seq<nat>, n: nat) returns (blocks: seq<nat>)
    requires Holds(img, root, l) && PathExists(root, ks) && NodeAt(root, ks).Directory? && n <= |ks|
    ensures Trail(img, blocks, NamesAt(root, ks)[..n])
    ensures LayoutExists(l, ks[..n]) && blocks[n] == LayoutAt(l, ks[..n]).inode
    decreases n
  {
    NameOnPath(img, root, l, ks, n);
    if n > 0 { ParentOnPath(img, root, l, ks, n); }
    var names := NamesAt(root, ks)[..n];
    blocks := [LayoutAt(l, ks[..n]).inode];
    if n > 0 {
      var before := DirectoryHasTrail(img, root, l, ks, n - 1);
      blocks := before + blocks;
      forall d: nat
        ensures TrailAt(img, blocks, names, d)
      {
        assert TrailAt(img, before, NamesAt(root, ks)[..n - 1], d);
      }
    }
  }

  /** One step up a trail. */
  lemma TrailStep(img: Image, blocks: seq<nat>, names: seq<string>, d: nat)
    requires Trail(img, blocks, names) && 0 < d <= |names|
    ensures blocks[d] < BLOCK_NUM && img[blocks[d]].InodeBlock? && img[blocks[d]].inode.name == names[d - 1]
    ensures Lookup(img, Some(blocks[d]), "..") == Found(blocks[d - 1])
    ensures blocks[d - 1] < BLOCK_NUM && img[blocks[d - 1]].InodeBlock? && (img[blocks[d - 1]].inode.name == "/" <==> d == 1)
  {
    assert TrailAt(img, blocks, names, d) && TrailAt(img, blocks, names, d - 1);
  }

  /** Writes the path of a directory to the end of the buffer, from the last name backwards, and returns where it begins.
      The buffer has a cell for the terminating zero behind the 256 cells for the path. */
  method GetInodePath(img: Image, inode: nat, buf: array<char>, ghost blocks: seq<nat>, ghost names: seq<string>)
      returns (ptr: nat)
    requires Trail(img, blocks, names) && inode == blocks[|names|]
    requires buf.Length == 257 && |PathString(names)| <= 256
    modifies buf
    ensures ptr <= 256 && buf[ptr..] == PathString(names) + ['\0']
  {
    var p := 256;
    buf[p] := '\0';
    p := p - 1;
    ghost var d := |names|;
    assert names[d..] == [] && TrailAt(img, blocks, names, d);
    if img[inode].inode.name == "/" {
      buf[p] := '/';
      return p;
    }
    var n := inode;
    while img[n].inode.name != "/"
      invariant 0 <= d <= |names| && n == blocks[d] < BLOCK_NUM && img[n].InodeBlock?
      invariant img[n].inode.name == "/" <==> d == 0
      invariant -1 <= p && p + 1 + |Slashed(names[d..])| == 256 && buf[p + 1..] == Slashed(names[d..]) + ['\0']
      decreases d
    {
      TrailStep(img, blocks, names, d);
      SuffixNext(names, d);
      p := PutName(buf, p, img[n].inode.name);
      var up := LookupInode(img, Some(n), "..");
      n := up.block;
      d := d - 1;
    }
    assert names[0..] == names;
    ptr := p + 1;
  }

  /** The loop that copies a name backwards, and the slash before it. */
  method PutName(buf: array<char>, p: int, name: string) returns (p': int)
    requires buf.Length == 257 && |name| <= p <= 255
    modifies buf
    ensures p' == p - |name| - 1
    ensures buf[p' + 1..] == "/" + name + old(buf[p + 1..])
  {
    p' := p;
    ghost var tail := buf[p + 1..];
    var i := |name| - 1;
    NameAndTail(name, tail);
    while i >= 0
      invariant -1 <= i < |name| && p' == p - (|name| - 1 - i)
      invariant buf[p' + 1..] == name[i + 1..] + tail
    {
      PutChar(buf, p', name[i]);
      Prepend(name, i, tail);
      p' := p' - 1;
      i := i - 1;
    }
    PutChar(buf, p', '/');
    p' := p' - 1;
  }

  /** `path[p] = c`, for what is behind p. */
  method PutChar(buf: array<char>, p: int, c: char)
    requires 0 <= p < buf.Length
    modifies buf
    ensures buf[p..] == [c] + old(buf[p + 1..])
  {
    buf[p] := c;
  }

  lemma NameAndTail(name: string, tail: string)
    ensures name[|name|..] + tail == tail && ['/'] + (name[0..] + tail) == "/" + name + tail
  {
  }

  lemma Prepend(name: string, i: nat, tail: string)
    requires i < |name|
    ensures [name[i]] + (name[i + 1..] + tail) == name[i..] + tail
  {
  }

  /** For every stored directory, then, getInodePath has its trail, and the path that it writes leads back to the directory,
      from any other, if and only if every step of it is among the first ten entries. */
  lemma PathLeadsBack(img: Image, root: Host, l: Layout, ks: seq<nat>, node: Option<nat>) returns (blocks: seq<nat>)
    requires Holds(img, root, l) && PathExists(root, ks) && NodeAt(root, ks).Directory?
    ensures Trail(img, blocks, NamesAt(root, ks))
    ensures Lookup(img, node, PathString(NamesAt(root, ks))) == Found(blocks[|ks|]) <==> FirstTen(ks, 0)
  {
    blocks := DirectoryHasTrail(img, root, l, ks, |ks|);
    assert NamesAt(root, ks)[..|ks|] == NamesAt(root, ks) && ks[..|ks|] == ks;
    ImageRoundTrip(img, root, l, ks, node);
  }
}
