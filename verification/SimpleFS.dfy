/** The SimpleFS image of mkfs/simplefs.h, and what it means for an image to store a host directory tree.
    Blocks are typed: what the C programs reach through a cast is a constructor here. */
module SimpleFS {
  import opened Memory

  const BLOCK_SIZE: nat := 4096
  const BLOCK_NUM: nat := 256
  const FREEMAP_NUM: nat := 1
  const ROOT_BLOCK: nat := FREEMAP_NUM + 1
  const DIRECT: nat := 12
  const ITEMS_PER_BLOCK: nat := 128
  const MAX_BLOCKS: nat := DIRECT + ITEMS_PER_BLOCK
  const WORD32: nat := 0x1_0000_0000

  datatype Kind = File | Dir
  datatype Item = Item(name: string, block: nat)

  const NO_ITEM := Item("", 0)

  type DirectItems = s: seq<Item> | |s| == DIRECT witness seq(DIRECT, _ => NO_ITEM)
  type Items = s: seq<Item> | |s| == ITEMS_PER_BLOCK witness seq(ITEMS_PER_BLOCK, _ => NO_ITEM)
  type Data = s: seq<byte> | |s| == BLOCK_SIZE witness seq(BLOCK_SIZE, _ => 0)

  datatype Inode = Inode(size: nat, kind: Kind, name: string, blocks: nat, direct: DirectItems, indirect: nat)

  datatype Block = Blank | SuperBlock(blocks: nat, unused: nat, freemapBlocks: nat) | FreeMap(bytes: seq<nat>)
                 | InodeBlock(inode: Inode) | ItemBlock(items: Items) | DataBlock(data: Data)

  type Image = s: seq<Block> | |s| == BLOCK_NUM witness seq(BLOCK_NUM, _ => Blank)

  /** A block of the image that begins as zeros, seen as an indirect block. */
  function AsItems(b: Block): Items {
    if b.ItemBlock? then b.items else seq(ITEMS_PER_BLOCK, _ => NO_ITEM)
  }

  // ----- host trees -----------------------------------------------------------

  /** What mksfs finds on the host: entries in the order in which readdir delivers them. */
  datatype Host = Directory(entries: seq<Entry>) | RegularFile(bytes: seq<byte>) | SpecialFile
  datatype Entry = Entry(name: string, node: Host)

  predicate Skipped(e: Entry) { e.name == "." || e.name == ".." || e.node.SpecialFile? }

  /** The entries that get into the image. */
  function Kept(entries: seq<Entry>): (r: seq<Entry>)
    ensures |r| <= |entries| && forall e <- r :: e in entries && !Skipped(e)
  {
    if entries == [] then []
    else Kept(entries[..|entries| - 1]) + if Skipped(entries[|entries| - 1]) then [] else [entries[|entries| - 1]]
  }

  /** Exactly the files and directories other than "." and ".." ... */
  lemma {:induction false} KeptExactly(entries: seq<Entry>, e: Entry)
    ensures e in Kept(entries) <==> e in entries && e.name != "." && e.name != ".." && (e.node.Directory? || e.node.RegularFile?)
  {
    if entries != [] {
      var n := |entries| - 1;
      KeptExactly(entries[..n], e);
      assert entries == entries[..n] + [entries[n]];
    }
  }

  /** ... each of them once, in the order in which they come. */
  lemma {:induction false} KeptInOrder(entries: seq<Entry>, i: nat)
    requires i < |entries| && entries[i].name != "." && entries[i].name != ".." && !entries[i].node.SpecialFile?
    ensures |Kept(entries[..i])| < |Kept(entries)| && Kept(entries)[|Kept(entries[..i])|] == entries[i]
    decreases |entries|
  {
    var n := |entries| - 1;
    if i < n {
      assert entries[..n][..i] == entries[..i];
      KeptInOrder(entries[..n], i);
    }
  }

  predicate NameOk(name: string) { 1 <= |name| < 28 && '/' !in name }

  /** The limits within which mksfs writes only where it means to: short names, at most 128 indirect items. */
  ghost predicate WithinLimits(h: Host)
    decreases h, 1
  {
    match h
    case Directory(entries) =>
      |Kept(entries)| + 2 <= MAX_BLOCKS && forall i: nat {:trigger EntryWithinLimits(h, i)} :: EntryWithinLimits(h, i)
    case RegularFile(bytes) => |bytes| <= MAX_BLOCKS * BLOCK_SIZE
    case SpecialFile => true
  }

  ghost predicate EntryWithinLimits(h: Host, i: nat)
    requires h.Directory?
    decreases h, 0
  {
    i < |h.entries| ==> NameOk(h.entries[i].name) && WithinLimits(h.entries[i].node)
  }

  // ----- where a tree is in an image ---------------------------------------------

  /** Which blocks hold a stored file or directory; an indirect block 0 means that there is none. */
  datatype Layout = FileLayout(inode: nat, data: seq<nat>, indirect: nat)
                  | DirLayout(inode: nat, kids: Kids, indirect: nat)
  datatype Kids = NoKids | Kids(init: Kids, last: Layout)

  function Optional(b: nat): multiset<nat> { if b == 0 then multiset{} else multiset{b} }

  /** The blocks of a layout, each as often as it is used. */
  function Blocks(l: Layout): multiset<nat> {
    match l
    case FileLayout(inode, data, indirect) => multiset{inode} + multiset(data) + Optional(indirect)
    case DirLayout(inode, kids, indirect) => multiset{inode} + KidBlocks(kids) + Optional(indirect)
  }

  function KidBlocks(kids: Kids): multiset<nat> {
    match kids
    case NoKids => multiset{}
    case Kids(init, last) => KidBlocks(init) + Blocks(last)
  }

  function Inodes(kids: Kids): seq<nat> {
    match kids
    case NoKids => []
    case Kids(init, last) => Inodes(init) + [last.inode]
  }

  function Layouts(kids: Kids): seq<Layout> {
    match kids
    case NoKids => []
    case Kids(init, last) => Layouts(init) + [last]
  }

  /** Item k of an inode: direct, or behind the indirect block. */
  ghost predicate ItemIs(img: Image, ino: Inode, k: nat, item: Item) {
    if k < DIRECT then ino.direct[k] == item
    else ino.indirect < BLOCK_NUM && img[ino.indirect].ItemBlock? && k < MAX_BLOCKS && img[ino.indirect].items[k - DIRECT] == item
  }

  /** Number of blocks of a file as mksfs computes it, on 32-bit words. */
  function BlockCount(size: nat): nat { (if size == 0 then WORD32 - 1 else size - 1) / BLOCK_SIZE + 1 }

  /** How many blocks the data of a file needs. */
  function DataBlocks(size: nat): nat { (size + BLOCK_SIZE - 1) / BLOCK_SIZE }

  /** Block k of a file: its bytes, with zeros behind the last one. */
  function Filled(bytes: seq<byte>, k: nat): Data
    requires k * BLOCK_SIZE <= |bytes|
  {
    var rest := bytes[k * BLOCK_SIZE..];
    if |rest| >= BLOCK_SIZE then rest[..BLOCK_SIZE] else rest + Zeros(BLOCK_SIZE - |rest|)
  }

  function Zeros(n: nat): (r: seq<byte>)
    ensures |r| == n
  {
    seq(n, _ => 0)
  }

  /** Block k of a file holds the bytes from k * 4096 on, and zeros behind the end of the file. */
  lemma FilledBytes(bytes: seq<byte>, k: nat, j: nat)
    requires k * BLOCK_SIZE <= |bytes| && j < BLOCK_SIZE
    ensures Filled(bytes, k)[j] == if k * 4096 + j < |bytes| then bytes[k * 4096 + j] else 0
  {
  }

  ghost predicate DataStored(img: Image, ino: Inode, data: seq<nat>, bytes: seq<byte>, k: nat) {
    k < |data| ==>
      && data[k] < BLOCK_NUM && k * BLOCK_SIZE <= |bytes|
      && ItemIs(img, ino, k, Item("", data[k])) && img[data[k]] == DataBlock(Filled(bytes, k))
  }

  ghost predicate FileStored(img: Image, ino: Inode, l: Layout, bytes: seq<byte>) {
    && l.FileLayout? && ino.kind == File && ino.size == |bytes| && ino.blocks == BlockCount(|bytes|)
    && ino.indirect == l.indirect && |l.data| == DataBlocks(|bytes|) <= MAX_BLOCKS && (l.indirect == 0 <==> |l.data| <= DIRECT)
    && forall k: nat {:trigger DataStored(img, ino, l.data, bytes, k)} :: DataStored(img, ino, l.data, bytes, k)
  }

  /** Item 2 + k is the one for entry k; behind the entries, an indirect block holds empty items. */
  ghost predicate EntryStored(img: Image, ino: Inode, inodes: seq<nat>, kept: seq<Entry>, k: nat) {
    if k < |kept| then k < |inodes| ==> ItemIs(img, ino, 2 + k, Item(kept[k].name, inodes[k]))
    else 2 + |kept| > DIRECT && 2 + k < MAX_BLOCKS ==> ItemIs(img, ino, 2 + k, NO_ITEM)
  }

  ghost predicate EntriesStored(img: Image, ino: Inode, inodes: seq<nat>, kept: seq<Entry>) {
    |inodes| == |kept| && forall k: nat {:trigger EntryStored(img, ino, inodes, kept, k)} :: EntryStored(img, ino, inodes, kept, k)
  }

  /** Inode `ino`, of block l.inode, stores the host's `node`; `up` is the directory above. */
  ghost predicate InodeStores(img: Image, ino: Inode, l: Layout, node: Host, up: nat)
    decreases l, 0
  {
    match node
    case RegularFile(bytes) => FileStored(img, ino, l, bytes)
    case Directory(entries) =>
      var kept := Kept(entries);
      && l.DirLayout? && ino.kind == Dir && ino.size == 0 && ino.blocks == 2 + |kept| <= MAX_BLOCKS
      && ino.indirect == l.indirect && (l.indirect == 0 <==> ino.blocks <= DIRECT)
      && ino.direct[0] == Item(".", l.inode) && ino.direct[1] == Item("..", up)
      && EntriesStored(img, ino, Inodes(l.kids), kept) && KidsStored(img, l.kids, kept, l.inode)
    case SpecialFile => false
  }

  /** The image stores `node`, under `name`, as laid out by l. */
  ghost predicate Stored(img: Image, l: Layout, name: string, node: Host, up: nat)
    decreases l, 1
  {
    && l.inode < BLOCK_NUM && img[l.inode].InodeBlock? && img[l.inode].inode.name == name
    && InodeStores(img, img[l.inode].inode, l, node, up)
  }

  ghost predicate KidsStored(img: Image, kids: Kids, kept: seq<Entry>, up: nat)
    decreases kids, 0
  {
    match kids
    case NoKids => kept == []
    case Kids(init, last) =>
      && kept != [] && KidsStored(img, init, kept[..|kept| - 1], up)
      && Stored(img, last, kept[|kept| - 1].name, kept[|kept| - 1].node, up)
  }

  // ----- writing elsewhere changes nothing ---------------------------------------

  ghost predicate Same(img: Image, img': Image, b: nat) {
    b < BLOCK_NUM ==> img'[b] == img[b]
  }

  /** The two images agree on the given blocks. */
  ghost predicate Agree(img: Image, img': Image, blocks: multiset<nat>) {
    forall b: nat {:trigger Same(img, img', b)} :: b in blocks ==> Same(img, img', b)
  }

  lemma FileStoredElsewhere(img: Image, img': Image, ino: Inode, l: Layout, bytes: seq<byte>)
    requires FileStored(img, ino, l, bytes) && Agree(img, img', multiset(l.data) + Optional(l.indirect))
    ensures FileStored(img', ino, l, bytes)
  {
    forall k: nat
      ensures DataStored(img', ino, l.data, bytes, k)
    {
      assert DataStored(img, ino, l.data, bytes, k);
      if k < |l.data| {
        assert l.data[k] in multiset(l.data) && Same(img, img', l.data[k]);
        if k >= DIRECT { assert Same(img, img', l.indirect); }
      }
    }
  }

  lemma EntriesStoredElsewhere(img: Image, img': Image, ino: Inode, inodes: seq<nat>, kept: seq<Entry>)
    requires EntriesStored(img, ino, inodes, kept) && (2 + |kept| > DIRECT ==> Same(img, img', ino.indirect))
    ensures EntriesStored(img', ino, inodes, kept)
  {
    forall k: nat
      ensures EntryStored(img', ino, inodes, kept, k)
    {
      assert EntryStored(img, ino, inodes, kept, k);
    }
  }

  lemma DirStoredElsewhere(img: Image, img': Image, ino: Inode, l: Layout, node: Host, up: nat)
    requires node.Directory? && InodeStores(img, ino, l, node, up) && Agree(img, img', KidBlocks(l.kids) + Optional(l.indirect))
    ensures InodeStores(img', ino, l, node, up)
    decreases l, 0
  {
    if l.indirect != 0 { assert Same(img, img', l.indirect); }
    EntriesStoredElsewhere(img, img', ino, Inodes(l.kids), Kept(node.entries));
    KidsStoredElsewhere(img, img', l.kids, Kept(node.entries), l.inode);
  }

  lemma {:induction false} StoredElsewhere(img: Image, img': Image, l: Layout, name: string, node: Host, up: nat)
    requires Stored(img, l, name, node, up) && Agree(img, img', Blocks(l))
    ensures Stored(img', l, name, node, up)
    decreases l, 1
  {
    assert Same(img, img', l.inode);
    var ino := img[l.inode].inode;
    match node
    case RegularFile(bytes) => FileStoredElsewhere(img, img', ino, l, bytes);
    case Directory(entries) => DirStoredElsewhere(img, img', ino, l, node, up);
    case SpecialFile =>
  }

  lemma {:induction false} KidsStoredElsewhere(img: Image, img': Image, kids: Kids, kept: seq<Entry>, up: nat)
    requires KidsStored(img, kids, kept, up) && Agree(img, img', KidBlocks(kids))
    ensures KidsStored(img', kids, kept, up)
    decreases kids, 0
  {
    match kids
    case NoKids =>
    case Kids(init, last) =>
      KidsStoredElsewhere(img, img', init, kept[..|kept| - 1], up);
      StoredElsewhere(img, img', last, kept[|kept| - 1].name, kept[|kept| - 1].node, up);
  }

  lemma {:induction false} KidAt(img: Image, kids: Kids, kept: seq<Entry>, up: nat, k: nat)
    requires KidsStored(img, kids, kept, up) && k < |kept|
    ensures |Layouts(kids)| == |Inodes(kids)| == |kept|
    ensures Layouts(kids)[k].inode == Inodes(kids)[k] && Stored(img, Layouts(kids)[k], kept[k].name, kept[k].node, up)
    ensures Layouts(kids)[k] < kids
    decreases kids
  {
    var n := |kept| - 1;
    if n > 0 { KidAt(img, kids.init, kept[..n], up, if k < n then k else 0); }
  }
}
