/** mkfs/mksfs.c: lays a host directory tree out in an image. */
module ImageBuilder {
  import opened Memory
  import opened SimpleFS
  import opened Basics

  /** Number of clear cells among the first n of the freemap. */
  function ClearCells(cells: seq<bool>, n: nat): nat
    requires n <= |cells|
  {
    if n == 0 then 0 else ClearCells(cells, n - 1) + One(!cells[n - 1])
  }

  lemma {:induction false} MarkOneCell(cells: seq<bool>, b: nat, n: nat)
    requires b < |cells| && !cells[b] && n <= |cells|
    ensures ClearCells(cells[b := true], n) + One(b < n) == ClearCells(cells, n)
  {
    if n > 0 { MarkOneCell(cells, b, n - 1); }
  }

  lemma {:induction false} SomeCellClear(cells: seq<bool>, n: nat)
    requires n <= |cells|
    ensures ClearCells(cells, n) == 0 <==> forall i :: 0 <= i < n ==> cells[i]
  {
    if n > 0 { SomeCellClear(cells, n - 1); }
  }

  // ----- how many blocks a tree takes ---------------------------------------------

  /** Blocks for a file or directory, its inode included. */
  function Need(h: Host): nat
    decreases h, 1, 0
  {
    match h
    case RegularFile(bytes) => 1 + NeedData(DataBlocks(|bytes|))
    case Directory(entries) => 1 + NeedBelow(h)
    case SpecialFile => 0
  }

  /** n data blocks, and the indirect block once they are too many for the inode. */
  function NeedData(n: nat): nat { n + One(n > DIRECT) }

  /** Blocks for what is in a directory, and its indirect block. */
  function NeedBelow(h: Host): nat
    requires h.Directory?
    decreases h, 0, |h.entries| + 1
  {
    NeedEntries(h, |h.entries|) + One(2 + |Kept(h.entries)| > DIRECT)
  }

  function NeedEntries(h: Host, n: nat): nat
    requires h.Directory? && n <= |h.entries|
    decreases h, 0, n
  {
    if n == 0 then 0
    else NeedEntries(h, n - 1) + if Skipped(h.entries[n - 1]) then 0 else Need(h.entries[n - 1].node)
  }

  lemma {:induction false} NeedEntriesMonotonic(h: Host, m: nat, n: nat)
    requires h.Directory? && m <= n <= |h.entries|
    ensures NeedEntries(h, m) <= NeedEntries(h, n) && |Kept(h.entries[..m])| <= |Kept(h.entries[..n])|
    decreases n
  {
    if m < n {
      NeedEntriesMonotonic(h, m, n - 1);
      assert h.entries[..n][..n - 1] == h.entries[..n - 1];
    }
  }

  lemma KeptNext(entries: seq<Entry>, i: nat)
    requires i < |entries|
    ensures Kept(entries[..i + 1]) == Kept(entries[..i]) + if Skipped(entries[i]) then [] else [entries[i]]
  {
    assert entries[..i + 1][..i] == entries[..i];
  }

  // ----- putting an item into an inode ---------------------------------------------

  /** The inode after item k has been put in; `ind` is its indirect block from then on. */
  function PutInode(ino: Inode, k: nat, item: Item, ind: nat): Inode {
    if k < DIRECT then ino.(direct := ino.direct[k := item]) else ino.(indirect := ind)
  }

  function PutImage(img: Image, k: nat, item: Item, ind: nat): Image
    requires k < MAX_BLOCKS && (k >= DIRECT ==> ind < BLOCK_NUM)
  {
    if k < DIRECT then img else img[ind := ItemBlock(AsItems(img[ind])[k - DIRECT := item])]
  }

  lemma PutIsThere(img: Image, ino: Inode, k: nat, item: Item, ind: nat)
    requires k < MAX_BLOCKS && (k >= DIRECT ==> ind < BLOCK_NUM)
    ensures ItemIs(PutImage(img, k, item, ind), PutInode(ino, k, item, ind), k, item)
  {
  }

  lemma PutKeepsRest(ino: Inode, k: nat, item: Item, ind: nat)
    requires k >= 2
    ensures var ino' := PutInode(ino, k, item, ind);
            && ino' == ino.(direct := ino'.direct, indirect := ino'.indirect)
            && ino'.direct[0] == ino.direct[0] && ino'.direct[1] == ino.direct[1]
  {
  }

  lemma PutKeepsItem(img: Image, ino: Inode, k: nat, item: Item, ind: nat, j: nat, other: Item)
    requires k < MAX_BLOCKS && (k >= DIRECT ==> ind < BLOCK_NUM) && j != k
    requires ItemIs(img, ino, j, other) && (k >= DIRECT && j >= DIRECT ==> ind == ino.indirect)
    ensures ItemIs(PutImage(img, k, item, ind), PutInode(ino, k, item, ind), j, other)
  {
  }

  // ----- one block more -------------------------------------------------------------

  /** Data block b has been written, and then its item has been put in. */
  lemma OneMoreDataBlock(img: Image, ino: Inode, data: seq<nat>, bytes: seq<byte>, b: nat, ind: nat)
    requires forall k: nat {:trigger DataStored(img, ino, data, bytes, k)} :: DataStored(img, ino, data, bytes, k)
    requires b < BLOCK_NUM && b !in data && (|data| > DIRECT ==> b != ino.indirect) && |data| < MAX_BLOCKS && |data| * BLOCK_SIZE <= |bytes|
    requires |data| > DIRECT ==> ind == ino.indirect
    requires |data| >= DIRECT ==> ind < BLOCK_NUM && ind !in data && ind != b
    ensures var item := Item("", b);
            var img' := PutImage(img[b := DataBlock(Filled(bytes, |data|))], |data|, item, ind);
            var ino' := PutInode(ino, |data|, item, ind);
            forall k: nat {:trigger DataStored(img', ino', data + [b], bytes, k)} :: DataStored(img', ino', data + [b], bytes, k)
  {
    var n, item := |data|, Item("", b);
    var img1 := img[b := DataBlock(Filled(bytes, n))];
    var img', ino' := PutImage(img1, n, item, ind), PutInode(ino, n, item, ind);
    PutIsThere(img1, ino, n, item, ind);
    forall k: nat
      ensures DataStored(img', ino', data + [b], bytes, k)
    {
      assert DataStored(img, ino, data, bytes, k);
      if k < n {
        assert data[k] in data;
        PutKeepsItem(img1, ino, n, item, ind, k, Item("", data[k]));
      }
    }
  }

  /** A kept entry has been put in. */
  lemma OneMoreEntry(img: Image, ino: Inode, inodes: seq<nat>, kept: seq<Entry>, e: Entry, b: nat, ind: nat)
    requires EntriesStored(img, ino, inodes, kept) && 2 + |kept| < MAX_BLOCKS
    requires 2 + |kept| >= DIRECT ==> ind < BLOCK_NUM
    requires 2 + |kept| > DIRECT ==> ind == ino.indirect
    requires 2 + |kept| == DIRECT ==> img[ind] == Blank
    ensures var item := Item(e.name, b);
            EntriesStored(PutImage(img, 2 + |kept|, item, ind), PutInode(ino, 2 + |kept|, item, ind), inodes + [b], kept + [e])
  {
    var n, item := 2 + |kept|, Item(e.name, b);
    var img', ino' := PutImage(img, n, item, ind), PutInode(ino, n, item, ind);
    PutIsThere(img, ino, n, item, ind);
    forall k: nat
      ensures EntryStored(img', ino', inodes + [b], kept + [e], k)
    {
      assert EntryStored(img, ino, inodes, kept, k);
      if k < |kept| {
        PutKeepsItem(img, ino, n, item, ind, 2 + k, Item(kept[k].name, inodes[k]));
      } else if k > |kept| && n > DIRECT && 2 + k < MAX_BLOCKS {
        PutKeepsItem(img, ino, n, item, ind, 2 + k, NO_ITEM);
      }
    }
  }

  lemma AgreeAfterWrite(img: Image, img': Image, blocks: multiset<nat>, b: nat, x: Block)
    requires b < BLOCK_NUM && b !in blocks && Agree(img, img', blocks)
    ensures Agree(img, img'[b := x], blocks)
  {
    forall c: nat | c in blocks
      ensures Same(img, img'[b := x], c)
    {
      assert Same(img, img', c);
    }
  }

  lemma AgreeOnPart(img: Image, img': Image, blocks: multiset<nat>, part: multiset<nat>)
    requires Agree(img, img', blocks) && forall b: nat :: b in part ==> b in blocks
    ensures Agree(img, img', part)
  {
    forall b: nat | b in part
      ensures Same(img, img', b)
    {
      assert b in blocks;
    }
  }

  lemma AgreeTransitive(img: Image, img': Image, img'': Image, blocks: multiset<nat>, more: multiset<nat>)
    requires Agree(img, img', blocks) && Agree(img', img'', more) && forall b: nat :: b in blocks ==> b in more
    ensures Agree(img, img'', blocks)
  {
    forall b: nat | b in blocks
      ensures Same(img, img'', b)
    {
      assert Same(img, img', b) && b in more && Same(img', img'', b);
    }
  }

  // ----- a directory that is being filled --------------------------------------------

  /** The directory in block b has got the items for `kept`, and `kids` are stored.
      When it was begun, the blocks of `base` were in use and the image was `before`. */
  datatype FillingRecord = Filling(base: multiset<nat>, before: Image, img: Image, ino: Inode, kids: Kids, kept: seq<Entry>, b: nat)

  /** What that guarantees, as a fact that proofs ask for by name. */
  ghost predicate Fills(f: FillingRecord, name: int) {
    && Agree(f.before, f.img, f.base)
    && (f.ino.indirect == 0 <==> 2 + |f.kept| <= DIRECT) && f.ino.indirect < BLOCK_NUM
    && EntriesStored(f.img, f.ino, Inodes(f.kids), f.kept) && KidsStored(f.img, f.kids, f.kept, f.b)
  }

  type Filling = f: FillingRecord | forall name {:trigger Fills(f, name)} :: Fills(f, name)
    ghost witness Filling(multiset{}, BlankImage(), BlankImage(), Inode(0, Dir, "", 0, NoItems(), 0), NoKids, [], 0)

  function BlankImage(): Image { seq(BLOCK_NUM, _ => Blank) }

  function NoItems(): DirectItems { seq(DIRECT, _ => NO_ITEM) }

  ghost function InUse(f: Filling): multiset<nat> {
    f.base + KidBlocks(f.kids) + Optional(f.ino.indirect)
  }

  ghost function NothingFilled(base: multiset<nat>, img: Image, ino: Inode, b: nat): Filling
    requires ino.indirect == 0
  {
    Filling(base, img, img, ino, NoKids, [], b)
  }

  lemma IndirectFits(f: Filling)
    ensures f.ino.indirect < BLOCK_NUM && (f.ino.indirect == 0 <==> 2 + |f.kept| <= DIRECT)
  {
    assert Fills(f, 0);
  }

  /** Blocks not in use have been written. */
  ghost function Elsewhere(f: Filling, img': Image): Filling
    requires Agree(f.img, img', InUse(f))
  {
    StillFills(f, img');
    f.(img := img')
  }

  lemma StillFills(f: Filling, img': Image)
    requires Agree(f.img, img', InUse(f))
    ensures Fills(f.(img := img'), 0)
  {
    assert Fills(f, 0);
    AgreeTransitive(f.before, f.img, img', f.base, InUse(f));
    AgreeOnPart(f.img, img', InUse(f), KidBlocks(f.kids));
    AgreeOnPart(f.img, img', InUse(f), Optional(f.ino.indirect));
    KidsStoredElsewhere(f.img, img', f.kids, f.kept, f.b);
    DirItemsElsewhere(f.img, img', f.ino, Inodes(f.kids), f.kept);
  }

  /** Entry e is stored, laid out by l, for the directory in block b; again a fact that proofs ask for by name. */
  datatype EntryRecord = StoredEntry(img: Image, l: Layout, e: Entry, b: nat)

  ghost predicate IsStored(s: EntryRecord, name: int) { Stored(s.img, s.l, s.e.name, s.e.node, s.b) }

  type StoredEntry = s: EntryRecord | forall name {:trigger IsStored(s, name)} :: IsStored(s, name)
    ghost witness ExampleEntry()

  ghost function ExampleEntry(): (s: EntryRecord)
    ensures Stored(s.img, s.l, s.e.name, s.e.node, s.b)
  {
    StoredEntry(BlankImage()[3 := InodeBlock(Inode(0, File, "a", BlockCount(0), NoItems(), 0))],
                FileLayout(3, [], 0), Entry("a", RegularFile([])), 2)
  }

  /** Its item has been put in; `ind` is the indirect block from then on. */
  ghost function EntryPut(f: Filling, s: StoredEntry, ind: nat): Filling
    requires s.img == f.img && s.b == f.b && 2 + |f.kept| < MAX_BLOCKS
    requires (2 + |f.kept| >= DIRECT ==> 0 < ind < BLOCK_NUM) && (2 + |f.kept| != DIRECT ==> ind == f.ino.indirect)
    requires 2 + |f.kept| == DIRECT ==> f.img[ind] == Blank
    requires ind != 0 ==> ind !in f.base && ind !in KidBlocks(f.kids) + Blocks(s.l)
  {
    var k, item := 2 + |f.kept|, Item(s.e.name, s.l.inode);
    var g := Filling(f.base, f.before, PutImage(f.img, k, item, ind), PutInode(f.ino, k, item, ind), Kids(f.kids, s.l), f.kept + [s.e], f.b);
    StillFillsAfterPut(f, s, ind, g);
    g
  }

  /** The same, with what it means for the blocks in use. */
  lemma KidPut(f: Filling, s: StoredEntry, ind: nat) returns (f': Filling)
    requires s.img == f.img && s.b == f.b && 2 + |f.kept| < MAX_BLOCKS
    requires (2 + |f.kept| >= DIRECT ==> 0 < ind < BLOCK_NUM) && (2 + |f.kept| != DIRECT ==> ind == f.ino.indirect)
    requires 2 + |f.kept| == DIRECT ==> f.img[ind] == Blank
    requires ind != 0 ==> ind !in f.base && ind !in KidBlocks(f.kids) + Blocks(s.l)
    ensures f'.base == f.base && f'.before == f.before && f'.b == f.b && f'.kept == f.kept + [s.e]
    ensures f'.ino == PutInode(f.ino, 2 + |f.kept|, Item(s.e.name, s.l.inode), ind)
    ensures f'.img == PutImage(f.img, 2 + |f.kept|, Item(s.e.name, s.l.inode), ind)
    ensures InUse(f') == f.base + (KidBlocks(f.kids) + Blocks(s.l)) + Optional(ind)
  {
    f' := EntryPut(f, s, ind);
    assert KidBlocks(f'.kids) == KidBlocks(f.kids) + Blocks(s.l);
  }

  lemma EntriesAfterPut(img: Image, img': Image, ino: Inode, ino': Inode, kids: Kids, l: Layout, kept: seq<Entry>, e: Entry, ind: nat)
    requires EntriesStored(img, ino, Inodes(kids), kept) && 2 + |kept| < MAX_BLOCKS
    requires 2 + |kept| >= DIRECT ==> ind < BLOCK_NUM
    requires 2 + |kept| > DIRECT ==> ind == ino.indirect
    requires 2 + |kept| == DIRECT ==> img[ind] == Blank
    requires img' == PutImage(img, 2 + |kept|, Item(e.name, l.inode), ind)
    requires ino' == PutInode(ino, 2 + |kept|, Item(e.name, l.inode), ind)
    ensures EntriesStored(img', ino', Inodes(Kids(kids, l)), kept + [e])
  {
    OneMoreEntry(img, ino, Inodes(kids), kept, e, l.inode, ind);
  }

  lemma StillFillsAfterPut(f: Filling, s: StoredEntry, ind: nat, g: FillingRecord)
    requires s.img == f.img && s.b == f.b && 2 + |f.kept| < MAX_BLOCKS
    requires (2 + |f.kept| >= DIRECT ==> 0 < ind < BLOCK_NUM) && (2 + |f.kept| != DIRECT ==> ind == f.ino.indirect)
    requires 2 + |f.kept| == DIRECT ==> f.img[ind] == Blank
    requires ind != 0 ==> ind !in f.base && ind !in KidBlocks(f.kids) + Blocks(s.l)
    requires g.base == f.base && g.before == f.before && g.b == f.b && g.kept == f.kept + [s.e] && g.kids == Kids(f.kids, s.l)
    requires g.img == PutImage(f.img, 2 + |f.kept|, Item(s.e.name, s.l.inode), ind)
    requires g.ino == PutInode(f.ino, 2 + |f.kept|, Item(s.e.name, s.l.inode), ind)
    ensures Fills(g, 0)
  {
    var k, item := 2 + |f.kept|, Item(s.e.name, s.l.inode);
    assert Fills(f, 0) && IsStored(s, 0);
    ItemWritten(f.before, f.img, g.img, f.base, KidBlocks(g.kids), k, item, ind);
    EntriesAfterPut(f.img, g.img, f.ino, g.ino, f.kids, s.l, f.kept, s.e, ind);
    NewKidStored(f.img, g.img, f.kids, f.kept, s.l, s.e, f.b);
  }

  class Builder {
    const image: array<Block>
    const freemap: array<bool>
    var freenum: nat
    /** All blocks in use, by the superblock, the freemap, inodes, data and indirect items, as often as they are used. */
    ghost var owned: multiset<nat>

    ghost predicate CellOk(i: nat)
      reads this, image, freemap
      requires image.Length == freemap.Length == BLOCK_NUM
    {
      && owned[i] == One(i < BLOCK_NUM && freemap[i])
      && (i < BLOCK_NUM && !freemap[i] ==> image[i] == Blank)
    }

    /** Every marked block has exactly one owner and every clear one none; freenum counts the clear cells;
        a clear block has not been written. */
    ghost predicate Valid()
      reads this, image, freemap
    {
      && image.Length == freemap.Length == BLOCK_NUM
      && (forall i: nat {:trigger CellOk(i)} :: CellOk(i))
      && freenum == ClearCells(freemap[..], BLOCK_NUM)
    }

    ghost function Img(): Image
      reads this, image
      requires image.Length == BLOCK_NUM
    {
      image[..]
    }

    constructor ()
      ensures Valid() && fresh(image) && fresh(freemap)
      ensures owned == multiset{0, 1, ROOT_BLOCK} && freenum == BLOCK_NUM - 3 && Img() == seq(BLOCK_NUM, _ => Blank)
    {
      image := new Block[BLOCK_NUM](_ => Blank);
      freemap := new bool[BLOCK_NUM](_ => false);
      freenum, owned := BLOCK_NUM, multiset{};
      new;
      NoCellMarked(freemap[..], BLOCK_NUM);
      MarkOneCell(freemap[..], 0, BLOCK_NUM);
      freemap[0] := true;
      MarkOneCell(freemap[..], 1, BLOCK_NUM);
      freemap[1] := true;
      MarkOneCell(freemap[..], FREEMAP_NUM + 1, BLOCK_NUM);
      freemap[FREEMAP_NUM + 1] := true;
      freenum, owned := freenum - (FREEMAP_NUM + 2), multiset{0, 1, ROOT_BLOCK};
    }

    method GetFreeBlock() returns (r: Option<nat>)
      requires Valid()
      modifies this`freenum, this`owned, freemap
      ensures Valid()
      ensures r == None <==> old(freenum) == 0
      ensures r == None ==> owned == old(owned) && freenum == 0
      ensures r.Some? ==> r.value < BLOCK_NUM && r.value !in old(owned) && image[r.value] == Blank
      ensures r.Some? ==> owned == old(owned) + multiset{r.value} && freenum + 1 == old(freenum)
      // the first such block
      ensures r.Some? ==> forall b: nat :: b < r.value ==> b in old(owned)
    {
      var i := 0;
      while i < BLOCK_NUM
        invariant i <= BLOCK_NUM && forall j :: 0 <= j < i ==> freemap[j]
        invariant Valid() && owned == old(owned) && freenum == old(freenum) && freemap[..] == old(freemap[..])
      {
        if !freemap[i] {
          assert CellOk(i);
          SomeCellClear(freemap[..], BLOCK_NUM);
          MarkOneCell(freemap[..], i, BLOCK_NUM);
          ghost var cells := freemap[..];
          forall b: nat | b < i
            ensures b in owned
          {
            assert CellOk(b);
          }
          freemap[i] := true;
          assert freemap[..] == cells[i := true];
          freenum, owned := freenum - 1, owned + multiset{i};
          forall j: nat
            ensures CellOk(j)
          {
            assert old(CellOk(j));
          }
          return Some(i);
        }
        i := i + 1;
      }
      SomeCellClear(freemap[..], BLOCK_NUM);
      r := None;
    }

    /** Writes a block that is in use. */
    method WriteBlock(b: nat, x: Block)
      requires Valid() && b < BLOCK_NUM && b in owned
      modifies image
      ensures Valid() && Img() == old(Img())[b := x]
    {
      assert CellOk(b);
      image[b] := x;
      forall j: nat
        ensures CellOk(j)
      {
        assert old(CellOk(j));
      }
    }

    /** Puts item k into the inode, in the indirect block from item 12 on, which is taken when it is needed first. */
    method PutItem(ino: Inode, k: nat, item: Item) returns (ok: bool, ino': Inode)
      requires Valid() && k < MAX_BLOCKS && (ino.indirect != 0 ==> ino.indirect < BLOCK_NUM && ino.indirect in owned) && 0 in owned
      modifies this`freenum, this`owned, freemap, image
      ensures Valid()
      ensures ok <==> !(k >= DIRECT && ino.indirect == 0 && old(freenum) == 0)
      ensures ok ==> ino' == PutInode(ino, k, item, ino'.indirect) && (k >= DIRECT ==> 0 < ino'.indirect < BLOCK_NUM)
      ensures ok ==> Img() == PutImage(old(Img()), k, item, ino'.indirect)
      ensures ok && !(k >= DIRECT && ino.indirect == 0) ==>
                ino'.indirect == ino.indirect && owned == old(owned) && freenum == old(freenum)
      ensures ok && k >= DIRECT && ino.indirect == 0 ==>
                ino'.indirect !in old(owned) && owned == old(owned) + multiset{ino'.indirect} && freenum + 1 == old(freenum)
      ensures ok && k >= DIRECT && ino.indirect == 0 ==> old(Img())[ino'.indirect] == Blank
    {
      ino' := ino;
      ok := true;
      if k < DIRECT {
        ino' := ino'.(direct := ino'.direct[k := item]);
      } else {
        if ino'.indirect == 0 {
          var b := GetFreeBlock();
          if b == None {
            return false, ino';
          }
          ino' := ino'.(indirect := b.value);
        }
        WriteBlock(ino'.indirect, ItemBlock(AsItems(image[ino'.indirect])[k - DIRECT := item]));
      }
    }

    /** The loop that copies a file: data blocks, and their items in the inode. */
    method StoreData(bytes: seq<byte>, finode: Inode) returns (ok: bool, ino: Inode, ghost data: seq<nat>)
      requires Valid() && 0 in owned && |bytes| <= MAX_BLOCKS * BLOCK_SIZE && finode.size == |bytes| && finode.indirect == 0
      modifies this`freenum, this`owned, freemap, image
      ensures Valid()
      ensures ok <==> NeedData(DataBlocks(|bytes|)) <= old(freenum)
      ensures ok ==> freenum + NeedData(DataBlocks(|bytes|)) == old(freenum)
      ensures ok ==> owned == old(owned) + multiset(data) + Optional(ino.indirect) && Agree(old(Img()), Img(), old(owned))
      ensures ok ==> |data| == DataBlocks(|bytes|) && (ino.indirect == 0 <==> |data| <= DIRECT)
      ensures ok ==> ino == finode.(direct := ino.direct, indirect := ino.indirect)
      ensures ok ==> forall k: nat {:trigger DataStored(Img(), ino, data, bytes, k)} :: DataStored(Img(), ino, data, bytes, k)
    {
      ino, data, ok := finode, [], true;
      var l, blockIndex := finode.size, 0;
      while l != 0
        invariant Valid() && blockIndex == |data| <= DataBlocks(|bytes|)
        invariant l == if blockIndex < DataBlocks(|bytes|) then |bytes| - blockIndex * BLOCK_SIZE else 0
        invariant freenum + NeedData(|data|) == old(freenum)
        invariant owned == old(owned) + multiset(data) + Optional(ino.indirect) && Agree(old(Img()), Img(), old(owned))
        invariant (ino.indirect == 0 <==> |data| <= DIRECT) && ino.indirect < BLOCK_NUM
        invariant ino == finode.(direct := ino.direct, indirect := ino.indirect)
        invariant forall k: nat {:trigger DataStored(Img(), ino, data, bytes, k)} :: DataStored(Img(), ino, data, bytes, k)
        decreases l
      {
        ok, ino, data := StoreDataBlock(bytes, ino, blockIndex, l, data, old(owned), old(Img()));
        if !ok {
          return;
        }
        if l > BLOCK_SIZE { l := l - BLOCK_SIZE; } else { l := 0; }
        blockIndex := blockIndex + 1;
      }
    }

    /** Takes a block and copies the next l bytes of the file, or as many as fit. */
    method CopyToBlock(bytes: seq<byte>, blockIndex: nat, l: nat) returns (ffb: Option<nat>)
      requires Valid() && 0 < l && blockIndex * BLOCK_SIZE + l == |bytes|
      modifies this`freenum, this`owned, freemap, image
      ensures Valid() && (ffb == None <==> old(freenum) == 0)
      ensures ffb.Some? ==> ffb.value < BLOCK_NUM && ffb.value !in old(owned) && freenum + 1 == old(freenum)
      ensures ffb.Some? ==> owned == old(owned) + multiset{ffb.value}
      ensures ffb.Some? ==> Img() == old(Img())[ffb.value := DataBlock(Filled(bytes, blockIndex))]
    {
      ffb := GetFreeBlock();
      if ffb.Some? {
        FilledBlock(bytes, blockIndex, l);
        WriteBlock(ffb.value, DataBlock(NextBytes(bytes, l)));
      }
    }

    /** The loop's body. `base` is what was in use, and `img` the image, when the file was begun. */
    method StoreDataBlock(bytes: seq<byte>, ino: Inode, blockIndex: nat, l: nat,
                          ghost data: seq<nat>, ghost base: multiset<nat>, ghost img: Image)
        returns (ok: bool, ino': Inode, ghost data': seq<nat>)
      requires Valid() && 0 in base && blockIndex == |data| < DataBlocks(|bytes|) <= MAX_BLOCKS && l == |bytes| - blockIndex * BLOCK_SIZE
      requires (ino.indirect == 0 <==> |data| <= DIRECT) && ino.indirect < BLOCK_NUM
      requires owned == base + multiset(data) + Optional(ino.indirect) && Agree(img, Img(), base)
      requires forall k: nat {:trigger DataStored(Img(), ino, data, bytes, k)} :: DataStored(Img(), ino, data, bytes, k)
      modifies this`freenum, this`owned, freemap, image
      ensures Valid()
      ensures ok <==> old(freenum) + NeedData(|data|) >= NeedData(|data| + 1)
      ensures ok ==> freenum + NeedData(|data'|) == old(freenum) + NeedData(|data|)
      ensures ok ==> |data'| == |data| + 1 && (ino'.indirect == 0 <==> |data'| <= DIRECT) && ino'.indirect < BLOCK_NUM
      ensures ok ==> owned == base + multiset(data') + Optional(ino'.indirect) && Agree(img, Img(), base)
      ensures ok ==> ino' == ino.(direct := ino'.direct, indirect := ino'.indirect)
      ensures ok ==> forall k: nat {:trigger DataStored(Img(), ino', data', bytes, k)} :: DataStored(Img(), ino', data', bytes, k)
    {
      ino', data' := ino, data;
      ghost var before := Img();
      var ffb := CopyToBlock(bytes, blockIndex, l);
      if ffb == None {
        return false, ino', data';
      }
      var b := ffb.value;
      AgreeAfterWrite(img, before, base, b, Img()[b]);
      ghost var copied := Img();
      ok, ino' := PutItem(ino, blockIndex, Item("", b));
      if ok {
        OwnedOnce(b);
        OwnedOnce(ino'.indirect);
        BlocksApart(base, data, b, ino'.indirect, owned);
        OneMoreDataBlock(before, ino, data, bytes, b, ino'.indirect);
        data' := data + [b];
        if blockIndex >= DIRECT {
          AgreeAfterWrite(img, copied, base, ino'.indirect, Img()[ino'.indirect]);
        }
      }
    }

    /** The branch for a regular file. */
    method StoreFile(name: string, bytes: seq<byte>, ghost up: nat) returns (ok: bool, blockNum: nat, ghost l: Layout)
      requires Valid() && 0 in owned && |bytes| <= MAX_BLOCKS * BLOCK_SIZE
      modifies this`freenum, this`owned, freemap, image
      ensures Valid()
      ensures ok <==> Need(RegularFile(bytes)) <= old(freenum)
      ensures ok ==> freenum + Need(RegularFile(bytes)) == old(freenum) && blockNum == l.inode
      ensures ok ==> owned == old(owned) + Blocks(l) && Agree(old(Img()), Img(), old(owned))
      ensures ok ==> Stored(Img(), l, name, RegularFile(bytes), up)
    {
      ok, blockNum, l := false, 0, FileLayout(0, [], 0);
      var finode := Inode(|bytes|, File, name, BlockCount(|bytes|), NoItems(), 0);
      ghost var img, base := Img(), owned;
      var r := GetFreeBlock();
      if r == None {
        return;
      }
      blockNum := r.value;
      ghost var data;
      ok, finode, data := StoreData(bytes, finode);
      if ok {
        l := FileLayout(blockNum, data, finode.indirect);
        OwnedOnce(blockNum);
        ghost var filled := Img();
        WriteBlock(blockNum, InodeBlock(finode));
        ghost var parts := multiset(data) + Optional(finode.indirect);
        InodeApart(base, blockNum, parts, owned);
        InodeWritten(img, filled, base, blockNum, parts, finode);
        FileStoredElsewhere(filled, Img(), finode, l, bytes);
      }
    }

    /** A kept entry of the directory in block b: a directory or a regular file. */
    method StoreEntry(e: Entry, b: nat) returns (ok: bool, blockNum: nat, ghost l: Layout)
      requires Valid() && 0 in owned && !e.node.SpecialFile? && WithinLimits(e.node)
      modifies this`freenum, this`owned, freemap, image
      ensures Valid()
      ensures ok <==> Need(e.node) <= old(freenum)
      ensures ok ==> freenum + Need(e.node) == old(freenum) && blockNum == l.inode
      ensures ok ==> owned == old(owned) + Blocks(l) && Agree(old(Img()), Img(), old(owned))
      ensures ok ==> Stored(Img(), l, e.name, e.node, b)
      decreases e.node, 1, 1
    {
      if e.node.RegularFile? {
        ok, blockNum, l := StoreFile(e.name, e.node.bytes, b);
      } else {
        ok, blockNum, l := StoreDirectory(e.name, e.node, b);
      }
    }

    /** The branch for a directory, in the directory in block b. */
    method StoreDirectory(name: string, node: Host, b: nat) returns (ok: bool, blockNum: nat, ghost l: Layout)
      requires Valid() && 0 in owned && node.Directory? && WithinLimits(node)
      modifies this`freenum, this`owned, freemap, image
      ensures Valid()
      ensures ok <==> Need(node) <= old(freenum)
      ensures ok ==> freenum + Need(node) == old(freenum) && blockNum == l.inode
      ensures ok ==> owned == old(owned) + Blocks(l) && Agree(old(Img()), Img(), old(owned))
      ensures ok ==> Stored(Img(), l, name, node, b)
      decreases node, 1, 0
    {
      ok, blockNum, l := false, 0, FileLayout(0, [], 0);
      var dinode := Inode(0, Dir, name, 0, NoItems(), 0);
      ghost var img, base := Img(), owned;
      var r := GetFreeBlock();
      if r == None {
        return;
      }
      blockNum := r.value;
      dinode := dinode.(direct := dinode.direct[1 := Item("..", b)]);
      ghost var kids;
      ok, dinode, kids := Walk(false, node, dinode, blockNum, b);
      if ok {
        l := DirLayout(blockNum, kids, dinode.indirect);
        OwnedOnce(blockNum);
        DirectoryFinished(img, Img(), base, owned, blockNum, dinode, kids, node, b);
        WriteBlock(blockNum, InodeBlock(dinode));
      }
    }

    /** Fills the inode of a directory and stores everything below it. `up` is the directory above;
        the root directory is above itself. */
    method Walk(isRoot: bool, node: Host, nowInode: Inode, b: nat, ghost up: nat) returns (ok: bool, ino: Inode, ghost kids: Kids)
      requires Valid() && 0 in owned && node.Directory? && WithinLimits(node)
      requires nowInode.kind == Dir && nowInode.size == 0 && nowInode.indirect == 0
      requires if isRoot then up == b else nowInode.direct[1] == Item("..", up)
      modifies this`freenum, this`owned, freemap, image
      ensures Valid()
      ensures ok <==> NeedBelow(node) <= old(freenum)
      ensures ok ==> freenum + NeedBelow(node) == old(freenum) && ino.name == nowInode.name
      ensures ok ==> owned == old(owned) + KidBlocks(kids) + Optional(ino.indirect) && Agree(old(Img()), Img(), old(owned))
      ensures ok ==> InodeStores(Img(), ino, DirLayout(b, kids, ino.indirect), node, up)
      decreases node, 0, 2
    {
      ino := nowInode.(direct := nowInode.direct[0 := Item(".", b)]);
      if isRoot {
        ino := ino.(direct := ino.direct[1 := Item("..", b)]);
      }
      ghost var f;
      ok, ino, f := WalkEntries(node, ino, b);
      kids := f.kids;
      if ok {
        DirectoryIsStored(f, node, up);
        OldBlocksKept(f);
      }
    }

    /** The loop over the entries. */
    method WalkEntries(node: Host, nowInode: Inode, b: nat) returns (ok: bool, ino: Inode, ghost f: Filling)
      requires Valid() && 0 in owned && node.Directory? && WithinLimits(node) && nowInode.indirect == 0
      modifies this`freenum, this`owned, freemap, image
      ensures Valid()
      ensures ok <==> NeedBelow(node) <= old(freenum)
      ensures ok ==> freenum + NeedBelow(node) == old(freenum)
      ensures ok ==> Shows(f, old(owned), old(Img()), b) && f.kept == Kept(node.entries)
      ensures ok ==> f.ino.name == nowInode.name && f.ino.kind == nowInode.kind && f.ino.size == nowInode.size
      ensures ok ==> f.ino.direct[0] == nowInode.direct[0] && f.ino.direct[1] == nowInode.direct[1]
      ensures ok ==> ino == f.ino.(blocks := 2 + |f.kept|)
      decreases node, 0, 1
    {
      ok, ino, f := true, nowInode, NothingFilled(owned, Img(), nowInode, b);
      var emptyIndex, i := 2, 0;
      while i < |node.entries|
        invariant i <= |node.entries| && Valid() && emptyIndex == 2 + |f.kept|
        invariant Shows(f, old(owned), old(Img()), b) && ino == f.ino && f.kept == Kept(node.entries[..i])
        invariant ino == nowInode.(direct := ino.direct, indirect := ino.indirect)
        invariant ino.direct[0] == nowInode.direct[0] && ino.direct[1] == nowInode.direct[1]
        invariant freenum + NeedEntries(node, i) + One(emptyIndex > DIRECT) == old(freenum)
      {
        ok, ino, emptyIndex, f := VisitEntry(node, i, ino, b, emptyIndex, f);
        if !ok {
          return;
        }
        i := i + 1;
      }
      assert node.entries[..i] == node.entries;
      ino := ino.(blocks := emptyIndex);
    }

    /** The builder is where f says: what was in use before is as it was, and f's blocks have come in addition. */
    ghost predicate Shows(f: Filling, base: multiset<nat>, before: Image, b: nat)
      reads this, image
      requires image.Length == BLOCK_NUM
    {
      f.base == base && f.before == before && f.b == b && owned == InUse(f) && Img() == f.img
    }

    /** The loop's body: entry i is skipped or stored. */
    method VisitEntry(node: Host, i: nat, ino: Inode, b: nat, emptyIndex: nat, ghost f: Filling)
        returns (ok: bool, ino': Inode, emptyIndex': nat, ghost f': Filling)
      requires Valid() && 0 in f.base && node.Directory? && WithinLimits(node) && i < |node.entries|
      requires Shows(f, f.base, f.before, b) && ino == f.ino && f.kept == Kept(node.entries[..i]) && emptyIndex == 2 + |f.kept|
      modifies this`freenum, this`owned, freemap, image
      ensures Valid()
      ensures !ok ==> NeedBelow(node) > old(freenum) + NeedEntries(node, i) + One(emptyIndex > DIRECT)
      ensures ok ==> freenum + NeedEntries(node, i + 1) + One(emptyIndex' > DIRECT)
                     == old(freenum) + NeedEntries(node, i) + One(emptyIndex > DIRECT)
      ensures ok ==> Shows(f', f.base, f.before, b) && ino' == f'.ino
      ensures ok ==> f'.kept == Kept(node.entries[..i + 1]) && emptyIndex' == 2 + |f'.kept|
      ensures ok ==> ino' == ino.(direct := ino'.direct, indirect := ino'.indirect)
      ensures ok ==> ino'.direct[0] == ino.direct[0] && ino'.direct[1] == ino.direct[1]
      decreases node, 0, 0
    {
      var e := node.entries[i];
      assert EntryWithinLimits(node, i);
      KeptNext(node.entries, i);
      NeedEntriesMonotonic(node, i + 1, |node.entries|);
      assert node.entries[..|node.entries|] == node.entries;
      ok, ino', emptyIndex', f' := true, ino, emptyIndex, f;
      if e.name == "." || e.name == ".." || e.node.SpecialFile? {
        return;
      }
      ok, ino', f' := AddEntry(e, ino, b, emptyIndex, f);
      emptyIndex' := emptyIndex + 1;
      if ok {
        ghost var item :| ino' == PutInode(ino, emptyIndex, item, ino'.indirect);
        PutKeepsRest(ino, emptyIndex, item, ino'.indirect);
      }
    }

    /** The rest of the loop's body, for an entry that is kept: first what it consists of, then its item in the directory. */
    method AddEntry(e: Entry, ino: Inode, b: nat, emptyIndex: nat, ghost f: Filling)
        returns (ok: bool, ino': Inode, ghost f': Filling)
      requires Valid() && 0 in f.base && !e.node.SpecialFile? && WithinLimits(e.node)
      requires Shows(f, f.base, f.before, b) && ino == f.ino && emptyIndex == 2 + |f.kept| < MAX_BLOCKS
      modifies this`freenum, this`owned, freemap, image
      ensures Valid()
      ensures ok <==> Need(e.node) + One(emptyIndex + 1 > DIRECT) <= old(freenum) + One(emptyIndex > DIRECT)
      ensures ok ==> freenum + Need(e.node) + One(emptyIndex + 1 > DIRECT) == old(freenum) + One(emptyIndex > DIRECT)
      ensures ok ==> Shows(f', f.base, f.before, b) && ino' == f'.ino && f'.kept == f.kept + [e]
      ensures ok ==> exists item :: ino' == PutInode(ino, emptyIndex, item, ino'.indirect)
      decreases e.node, 2, 0
    {
      ino', f' := ino, f;
      var blockNum;
      ghost var g, kid;
      ok, blockNum, g, kid := StoreKid(e, b, f);
      if ok {
        ok, ino', f' := PutKid(ino, emptyIndex, Item(e.name, blockNum), g, kid);
      }
    }

    method PutKid(ino: Inode, emptyIndex: nat, item: Item, ghost f: Filling, ghost kid: StoredEntry)
        returns (ok: bool, ino': Inode, ghost f': Filling)
      requires Valid() && 0 in f.base && ino == f.ino && 2 <= emptyIndex == 2 + |f.kept| < MAX_BLOCKS
      requires f.img == kid.img == Img() && f.b == kid.b && item == Item(kid.e.name, kid.l.inode) && owned == InUse(f) + Blocks(kid.l)
      modifies this`freenum, this`owned, freemap, image
      ensures Valid()
      ensures ok <==> One(emptyIndex + 1 > DIRECT) <= old(freenum) + One(emptyIndex > DIRECT)
      ensures ok ==> freenum + One(emptyIndex + 1 > DIRECT) == old(freenum) + One(emptyIndex > DIRECT)
      ensures ok ==> Shows(f', f.base, f.before, f.b) && ino' == f'.ino && f'.kept == f.kept + [kid.e]
      ensures ok ==> ino' == PutInode(ino, emptyIndex, item, ino'.indirect)
    {
      f' := f;
      IndirectFits(f);
      ok, ino' := PutEntry(ino, emptyIndex, item, f.base, KidBlocks(f.kids) + Blocks(kid.l));
      if ok {
        f' := KidPut(f, kid, ino'.indirect);
      }
    }

    method StoreKid(e: Entry, b: nat, ghost f: Filling) returns (ok: bool, blockNum: nat, ghost g: Filling, ghost kid: StoredEntry)
      requires Valid() && 0 in f.base && !e.node.SpecialFile? && WithinLimits(e.node) && Shows(f, f.base, f.before, b)
      modifies this`freenum, this`owned, freemap, image
      ensures Valid()
      ensures ok <==> Need(e.node) <= old(freenum)
      ensures ok ==> freenum + Need(e.node) == old(freenum) && owned == InUse(f) + Blocks(kid.l)
      ensures ok ==> g == f.(img := Img()) && kid.img == Img() && kid.e == e && kid.b == b && kid.l.inode == blockNum
      decreases e.node, 1, 2
    {
      ghost var l;
      g, kid := f, ExampleEntry();
      ok, blockNum, l := StoreEntry(e, b);
      if ok {
        g, kid := Elsewhere(f, Img()), StoredEntry(Img(), l, e, b);
      }
    }

    /** The item of an entry goes into the directory, whose indirect block is different from all blocks below it. */
    method PutEntry(ino: Inode, emptyIndex: nat, item: Item, ghost base: multiset<nat>, ghost kids: multiset<nat>)
        returns (ok: bool, ino': Inode)
      requires Valid() && 0 in base && owned == base + kids + Optional(ino.indirect)
      requires 2 <= emptyIndex < MAX_BLOCKS && (ino.indirect == 0 <==> emptyIndex <= DIRECT) && ino.indirect < BLOCK_NUM
      modifies this`freenum, this`owned, freemap, image
      ensures Valid()
      ensures ok <==> One(emptyIndex + 1 > DIRECT) <= old(freenum) + One(emptyIndex > DIRECT)
      ensures ok ==> freenum + One(emptyIndex + 1 > DIRECT) == old(freenum) + One(emptyIndex > DIRECT)
      ensures ok ==> owned == base + kids + Optional(ino'.indirect)
      ensures ok ==> ino' == PutInode(ino, emptyIndex, item, ino'.indirect)
      ensures ok ==> (emptyIndex >= DIRECT ==> 0 < ino'.indirect < BLOCK_NUM)
      ensures ok ==> (if emptyIndex == DIRECT then old(Img())[ino'.indirect] == Blank else ino'.indirect == ino.indirect)
      ensures ok ==> (ino'.indirect != 0 ==> ino'.indirect !in base && ino'.indirect !in kids)
      ensures ok ==> Img() == PutImage(old(Img()), emptyIndex, item, ino'.indirect)
    {
      ok, ino' := PutItem(ino, emptyIndex, item);
      if ok {
        OwnedOnce(ino'.indirect);
        IndirectApart(base, kids, ino'.indirect, owned);
      }
    }

    /** What nobody owns has never been written. */
    lemma UnownedIsBlank(b: nat)
      requires Valid() && b < BLOCK_NUM && b !in owned
      ensures Img()[b] == Blank
    {
      assert CellOk(b);
    }

    lemma OwnersAreMarked()
      requires Valid()
      ensures forall b: nat :: owned[b] == One(b < BLOCK_NUM && freemap[..][b])
    {
      forall b: nat
        ensures owned[b] == One(b < BLOCK_NUM && freemap[..][b])
      {
        assert CellOk(b);
      }
    }

    lemma OwnedOnce(b: nat)
      requires Valid()
      ensures owned[b] <= 1
    {
      assert CellOk(b);
    }
  }

  lemma BlocksApart(base: multiset<nat>, data: seq<nat>, b: nat, ind: nat, owned: multiset<nat>)
    requires owned == base + multiset(data) + multiset{b} + Optional(ind) && owned[b] <= 1 && owned[ind] <= 1
    ensures b !in data && b !in base
    ensures ind != 0 ==> ind !in base && ind !in data && ind != b
  {
    assert owned[b] == base[b] + multiset(data)[b] + 1 + Optional(ind)[b];
    assert owned[ind] == base[ind] + multiset(data)[ind] + multiset{b}[ind] + Optional(ind)[ind];
  }

  /** A fresh block after the next bytes have been read into it, l bytes before the end of the file. */
  function NextBytes(bytes: seq<byte>, l: nat): Data
    requires l <= |bytes|
  {
    var size := if l > BLOCK_SIZE then BLOCK_SIZE else l;
    var start := |bytes| - l;
    bytes[start..start + size] + Zeros(BLOCK_SIZE - size)
  }

  lemma FilledBlock(bytes: seq<byte>, k: nat, l: nat)
    requires 0 < l && k * BLOCK_SIZE + l == |bytes|
    ensures NextBytes(bytes, l) == Filled(bytes, k)
  {
    var start := |bytes| - l;
    if l > BLOCK_SIZE {
      FullBlock(bytes, start);
    } else {
      assert bytes[start..start + l] == bytes[start..];
      if l == BLOCK_SIZE { FullBlock(bytes, start); }
    }
  }

  lemma FullBlock(bytes: seq<byte>, start: nat)
    requires start + BLOCK_SIZE <= |bytes|
    ensures bytes[start..start + BLOCK_SIZE] + Zeros(0) == bytes[start..][..BLOCK_SIZE]
  {
  }

  lemma BlocksFieldIsFree(img: Image, ino: Inode, inodes: seq<nat>, kept: seq<Entry>, blocks: nat)
    requires EntriesStored(img, ino, inodes, kept)
    ensures EntriesStored(img, ino.(blocks := blocks), inodes, kept)
  {
    forall k: nat
      ensures EntryStored(img, ino.(blocks := blocks), inodes, kept, k)
    {
      assert EntryStored(img, ino, inodes, kept, k);
    }
  }

  lemma DirectoryIsStored(f: Filling, node: Host, up: nat)
    requires node.Directory? && 2 + |f.kept| <= MAX_BLOCKS && f.kept == Kept(node.entries)
    requires f.ino.kind == Dir && f.ino.size == 0 && f.ino.direct[0] == Item(".", f.b) && f.ino.direct[1] == Item("..", up)
    ensures InodeStores(f.img, f.ino.(blocks := 2 + |f.kept|), DirLayout(f.b, f.kids, f.ino.indirect), node, up)
  {
    assert Fills(f, 0);
    BlocksFieldIsFree(f.img, f.ino, Inodes(f.kids), f.kept, 2 + |f.kept|);
    DirectoryStores(f.img, f.ino.(blocks := 2 + |f.kept|), f.b, f.kids, node, f.kept, up);
  }

  lemma DirectoryStores(img: Image, ino: Inode, b: nat, kids: Kids, node: Host, kept: seq<Entry>, up: nat)
    requires node.Directory? && kept == Kept(node.entries) && ino.kind == Dir && ino.size == 0 && ino.blocks == 2 + |kept| <= MAX_BLOCKS
    requires (ino.indirect == 0 <==> ino.blocks <= DIRECT) && ino.direct[0] == Item(".", b) && ino.direct[1] == Item("..", up)
    requires EntriesStored(img, ino, Inodes(kids), kept) && KidsStored(img, kids, kept, b)
    ensures InodeStores(img, ino, DirLayout(b, kids, ino.indirect), node, up)
  {
  }

  lemma OldBlocksKept(f: Filling)
    ensures Agree(f.before, f.img, f.base)
  {
    assert Fills(f, 0);
  }

  lemma DirItemsElsewhere(img: Image, img': Image, ino: Inode, inodes: seq<nat>, kept: seq<Entry>)
    requires EntriesStored(img, ino, inodes, kept) && Agree(img, img', Optional(ino.indirect))
    requires ino.indirect == 0 <==> 2 + |kept| <= DIRECT
    ensures EntriesStored(img', ino, inodes, kept)
  {
    assert Same(img, img', ino.indirect) || ino.indirect == 0;
    EntriesStoredElsewhere(img, img', ino, inodes, kept);
  }

  lemma IndirectApart(base: multiset<nat>, kids: multiset<nat>, ind: nat, owned: multiset<nat>)
    requires owned == base + kids + Optional(ind) && owned[ind] <= 1
    ensures ind != 0 ==> ind !in base && ind !in kids
  {
    assert owned[ind] == base[ind] + kids[ind] + Optional(ind)[ind];
  }

  lemma ItemWritten(img: Image, stored: Image, final: Image, base: multiset<nat>, kids: multiset<nat>, k: nat, item: Item, ind: nat)
    requires k < MAX_BLOCKS && (k >= DIRECT ==> 0 < ind < BLOCK_NUM) && final == PutImage(stored, k, item, ind)
    requires ind != 0 ==> ind !in base && ind !in kids
    requires Agree(img, stored, base)
    ensures Agree(img, final, base) && Agree(stored, final, kids)
  {
    assert Agree(stored, stored, kids);
    if k >= DIRECT {
      AgreeAfterWrite(img, stored, base, ind, final[ind]);
      AgreeAfterWrite(stored, stored, kids, ind, final[ind]);
    }
  }

  lemma NewKidStored(img: Image, img': Image, kids: Kids, kept: seq<Entry>, l: Layout, e: Entry, b: nat)
    requires KidsStored(img, kids, kept, b) && Stored(img, l, e.name, e.node, b)
    requires Agree(img, img', KidBlocks(Kids(kids, l)))
    ensures KidsStored(img', Kids(kids, l), kept + [e], b)
  {
    var all := KidBlocks(Kids(kids, l));
    AgreeOnPart(img, img', all, KidBlocks(kids));
    AgreeOnPart(img, img', all, Blocks(l));
    KidsStoredElsewhere(img, img', kids, kept, b);
    StoredElsewhere(img, img', l, e.name, e.node, b);
    assert (kept + [e])[..|kept|] == kept;
  }

  /** Writing the inode of a new file or directory touches neither what was there before nor what it consists of. */
  lemma InodeWritten(img: Image, filled: Image, base: multiset<nat>, b: nat, parts: multiset<nat>, ino: Inode)
    requires b < BLOCK_NUM && b !in base && b !in parts && Agree(img, filled, base)
    ensures Agree(img, filled[b := InodeBlock(ino)], base)
    ensures Agree(filled, filled[b := InodeBlock(ino)], parts)
  {
    AgreeAfterWrite(img, filled, base, b, InodeBlock(ino));
    assert Agree(filled, filled, parts);
    AgreeAfterWrite(filled, filled, parts, b, InodeBlock(ino));
  }

  /** A directory whose entries are in place is stored once its inode is written into block b. */
  lemma DirectoryFinished(img: Image, filled: Image, base: multiset<nat>, owned: multiset<nat>, b: nat, ino: Inode, kids: Kids, node: Host, up: nat)
    requires b < BLOCK_NUM && owned == base + multiset{b} + (KidBlocks(kids) + Optional(ino.indirect)) && owned[b] <= 1
    requires Agree(img, filled, base + multiset{b})
    requires node.Directory? && InodeStores(filled, ino, DirLayout(b, kids, ino.indirect), node, up)
    ensures Agree(img, filled[b := InodeBlock(ino)], base)
    ensures Stored(filled[b := InodeBlock(ino)], DirLayout(b, kids, ino.indirect), ino.name, node, up)
  {
    var parts := KidBlocks(kids) + Optional(ino.indirect);
    InodeApart(base, b, parts, owned);
    AgreeOnPart(img, filled, base + multiset{b}, base);
    InodeWritten(img, filled, base, b, parts, ino);
    DirStoredElsewhere(filled, filled[b := InodeBlock(ino)], ino, DirLayout(b, kids, ino.indirect), node, up);
  }

  lemma InodeApart(base: multiset<nat>, b: nat, parts: multiset<nat>, owned: multiset<nat>)
    requires owned == base + multiset{b} + parts && owned[b] <= 1
    ensures b !in base && b !in parts
  {
    assert owned[b] == base[b] + 1 + parts[b];
  }

  lemma {:induction false} NoCellMarked(cells: seq<bool>, n: nat)
    requires n <= |cells| && forall i :: 0 <= i < n ==> !cells[i]
    ensures ClearCells(cells, n) == n
  {
    if n > 0 { NoCellMarked(cells, n - 1); }
  }
}
