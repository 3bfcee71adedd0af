/** main of mkfs/mksfs.c: the image as a whole, with its superblock and freemap. */
module ImageMain {
  import opened Basics
  import opened Powers
  import opened Bits
  import opened SimpleFS
  import opened ImageBuilder

  lemma {:induction false} BitOfPow2(j: nat, i: nat)
    ensures Bit(Pow2(j), i) <==> i == j
    decreases i
  {
    if j == 0 {
      ZeroHasNoBits(if i == 0 then 0 else i - 1);
    } else if i > 0 {
      BitOfPow2(j - 1, i - 1);
      assert Pow2(j) / 2 == Pow2(j - 1);
    }
  }

  lemma {:induction false} FewBits(c: nat, k: nat)
    requires forall i: nat :: Bit(c, i) ==> i < k
    ensures c < Pow2(k)
    decreases k
  {
    if k == 0 {
      if c > 0 { SomeBit(c); }
    } else {
      forall i: nat | Bit(c / 2, i)
        ensures i < k - 1
      {
        assert Bit(c, i + 1);
      }
      FewBits(c / 2, k - 1);
    }
  }

  /** Bits 0 to 7 of a freemap byte, for the blocks from `first` on. */
  ghost predicate Packs(c: nat, cells: seq<bool>, first: nat, n: nat) {
    forall j: nat :: Bit(c, j) <==> j < n && first + j < |cells| && cells[first + j]
  }

  /** Eight cells become one byte; `c |= 1 << j` for the marked ones. */
  method PackByte(cells: seq<bool>, first: nat) returns (c: nat)
    requires first + 8 <= |cells|
    ensures Packs(c, cells, first, 8) && c < 0x100
  {
    c := 0;
    forall i: nat
      ensures !Bit(0, i)
    {
      ZeroHasNoBits(i);
    }
    var j := 0;
    while j < 8
      invariant j <= 8 && Packs(c, cells, first, j)
    {
      ghost var before := c;
      if cells[first + j] {
        c := Or(c, Pow2(j));
        forall i: nat
          ensures Bit(c, i) <==> Bit(before, i) || i == j
        {
          BitOfOr(before, Pow2(j), i);
          BitOfPow2(j, i);
        }
      }
      j := j + 1;
    }
    FewBits(c, 8);
    Pow2Values();
  }

  /** Bit b of the packed map says whether block b is marked. */
  ghost predicate BitSays(bytes: seq<nat>, cells: seq<bool>, b: nat) {
    b < |cells| && b / 8 < |bytes| ==> (Bit(bytes[b / 8], b % 8) <==> cells[b])
  }

  method PackFreemap(cells: seq<bool>) returns (bytes: seq<nat>)
    requires |cells| == BLOCK_NUM
    ensures |bytes| == BLOCK_NUM / 8 && forall i :: 0 <= i < |bytes| ==> bytes[i] < 0x100
    ensures forall b: nat {:trigger BitSays(bytes, cells, b)} :: BitSays(bytes, cells, b)
  {
    bytes := [];
    var i := 0;
    while i < BLOCK_NUM / 8
      invariant i == |bytes| <= BLOCK_NUM / 8 && forall i :: 0 <= i < |bytes| ==> bytes[i] < 0x100
      invariant forall b: nat {:trigger BitSays(bytes, cells, b)} :: BitSays(bytes, cells, b)
    {
      var c := PackByte(cells, i * 8);
      forall b: nat
        ensures BitSays(bytes + [c], cells, b)
      {
        assert BitSays(bytes, cells, b);
        if b / 8 == i { assert Bit(c, b % 8) <==> cells[i * 8 + b % 8]; }
      }
      bytes := bytes + [c];
      i := i + 1;
    }
  }

  /** How many of the first n blocks nobody owns. */
  ghost function Unowned(owners: multiset<nat>, n: nat): nat {
    if n == 0 then 0 else Unowned(owners, n - 1) + One(n - 1 !in owners)
  }

  /** Block b has at most one owner, and the freemap shows whether it has one. */
  ghost predicate Accounted(owners: multiset<nat>, bytes: seq<nat>, b: nat) {
    owners[b] <= 1 && (b in owners ==> b < BLOCK_NUM)
    && (b < BLOCK_NUM && b / 8 < |bytes| ==> (Bit(bytes[b / 8], b % 8) <==> b in owners))
  }

  /** A finished image: the tree from the root inode on, and the blocks accounted for. The superblock and the freemap
      own blocks 0 and 1, the tree all others that are in use. */
  ghost predicate ImageOf(img: Image, root: Host, l: Layout) {
    var owners := multiset{0, 1} + Blocks(l);
    && l.inode == ROOT_BLOCK && Stored(img, l, "/", root, ROOT_BLOCK)
    && img[0] == SuperBlock(BLOCK_NUM, Unowned(owners, BLOCK_NUM), FREEMAP_NUM)
    && img[1].FreeMap? && |img[1].bytes| == BLOCK_NUM / 8 && (forall i :: 0 <= i < BLOCK_NUM / 8 ==> img[1].bytes[i] < 0x100)
    && forall b: nat {:trigger Accounted(owners, img[1].bytes, b)} :: Accounted(owners, img[1].bytes, b)
  }

  /** What the freemap of a finished image says: a bit for each block, set for the superblock, the freemap and the blocks
      of the tree, and clear for all others. */
  lemma FreemapOfImage(img: Image, root: Host, l: Layout, b: nat)
    requires ImageOf(img, root, l) && b < 256
    ensures img[1].FreeMap? && b / 8 < |img[1].bytes|
    ensures Bit(img[1].bytes[b / 8], b % 8) <==> b == 0 || b == 1 || b in Blocks(l)
    ensures Blocks(l)[b] <= 1
  {
    var owners := multiset{0, 1} + Blocks(l);
    assert Accounted(owners, img[1].bytes, b);
    assert owners[b] == multiset{0, 1}[b] + Blocks(l)[b];
  }

  /** And the superblock says how many are clear. */
  lemma UnusedOfImage(img: Image, root: Host, l: Layout)
    requires ImageOf(img, root, l)
    ensures img[0] == SuperBlock(256, |set b: nat | b < 256 && b != 0 && b != 1 && b !in Blocks(l)|, 1)
  {
    var owners := multiset{0, 1} + Blocks(l);
    CountUnowned(owners, 256);
    assert (set b: nat | b < 256 && b !in owners) == set b: nat | b < 256 && b != 0 && b != 1 && b !in Blocks(l);
  }

  lemma {:induction false} CountUnowned(owners: multiset<nat>, n: nat)
    ensures Unowned(owners, n) == |set b: nat | b < n && b !in owners|
  {
    var s := set b: nat | b < n && b !in owners;
    if n > 0 {
      CountUnowned(owners, n - 1);
      var t := set b: nat | b < n - 1 && b !in owners;
      assert s == t + if n - 1 in owners then {} else {n - 1};
    }
  }

  lemma {:induction false} UnownedIsClear(owners: multiset<nat>, cells: seq<bool>, n: nat)
    requires n <= |cells| && forall i: nat :: i < n ==> (i in owners <==> cells[i])
    ensures Unowned(owners, n) == ClearCells(cells, n)
  {
    if n > 0 { UnownedIsClear(owners, cells, n - 1); }
  }

  /** The last writes do not touch what is below the root directory. */
  lemma RootIsStored(img: Image, img': Image, ino: Inode, kids: Kids, root: Host, owned: multiset<nat>)
    requires root.Directory? && ino.name == "/" && InodeStores(img, ino, DirLayout(ROOT_BLOCK, kids, ino.indirect), root, ROOT_BLOCK)
    requires owned == multiset{0, 1, ROOT_BLOCK} + KidBlocks(kids) + Optional(ino.indirect)
    requires owned[0] <= 1 && owned[1] <= 1 && owned[ROOT_BLOCK] <= 1
    requires forall b: nat :: 3 <= b < BLOCK_NUM ==> img'[b] == img[b]
    requires img'[ROOT_BLOCK] == InodeBlock(ino)
    ensures Stored(img', DirLayout(ROOT_BLOCK, kids, ino.indirect), "/", root, ROOT_BLOCK)
  {
    ReservedApart(img, img', KidBlocks(kids) + Optional(ino.indirect), owned);
    DirStoredElsewhere(img, img', ino, DirLayout(ROOT_BLOCK, kids, ino.indirect), root, ROOT_BLOCK);
  }

  lemma ReservedApart(img: Image, img': Image, below: multiset<nat>, owned: multiset<nat>)
    requires owned == multiset{0, 1, ROOT_BLOCK} + below && owned[0] <= 1 && owned[1] <= 1 && owned[ROOT_BLOCK] <= 1
    requires forall b: nat :: 3 <= b < BLOCK_NUM ==> img'[b] == img[b]
    ensures Agree(img, img', below)
  {
    forall b: nat | b in below
      ensures Same(img, img', b)
    {
      assert owned[b] == multiset{0, 1, ROOT_BLOCK}[b] + below[b];
    }
  }

  lemma AllAccounted(owners: multiset<nat>, bytes: seq<nat>, cells: seq<bool>)
    requires |cells| == BLOCK_NUM && forall b: nat :: owners[b] == One(b < BLOCK_NUM && cells[b])
    requires forall b: nat {:trigger BitSays(bytes, cells, b)} :: BitSays(bytes, cells, b)
    ensures forall b: nat {:trigger Accounted(owners, bytes, b)} :: Accounted(owners, bytes, b)
  {
    forall b: nat
      ensures Accounted(owners, bytes, b)
    {
      assert BitSays(bytes, cells, b) && owners[b] == One(b < BLOCK_NUM && cells[b]);
    }
  }

  lemma ImageIsFinished(img: Image, img': Image, ino: Inode, kids: Kids, root: Host, owned: multiset<nat>, cells: seq<bool>, bytes: seq<nat>)
    requires root.Directory? && ino.name == "/" && InodeStores(img, ino, DirLayout(ROOT_BLOCK, kids, ino.indirect), root, ROOT_BLOCK)
    requires owned == multiset{0, 1, ROOT_BLOCK} + KidBlocks(kids) + Optional(ino.indirect)
    requires |cells| == BLOCK_NUM && forall b: nat :: owned[b] == One(b < BLOCK_NUM && cells[b])
    requires |bytes| == BLOCK_NUM / 8 && forall i :: 0 <= i < |bytes| ==> bytes[i] < 0x100
    requires forall b: nat {:trigger BitSays(bytes, cells, b)} :: BitSays(bytes, cells, b)
    requires img' == img[0 := SuperBlock(BLOCK_NUM, ClearCells(cells, BLOCK_NUM), FREEMAP_NUM)][1 := FreeMap(bytes)][ROOT_BLOCK := InodeBlock(ino)]
    ensures ImageOf(img', root, DirLayout(ROOT_BLOCK, kids, ino.indirect))
  {
    assert owned == multiset{0, 1} + Blocks(DirLayout(ROOT_BLOCK, kids, ino.indirect));
    UnownedIsClear(owned, cells, BLOCK_NUM);
    AllAccounted(owned, bytes, cells);
    RootIsStored(img, img', ino, kids, root, owned);
  }

  /** Builds the image of a host directory. It fails, with `get free block failed`, exactly when the tree needs more
      than the 253 blocks behind the superblock, the freemap and the root inode. */
  method MakeImage(root: Host) returns (ok: bool, image: Image, ghost l: Layout)
    requires root.Directory? && WithinLimits(root)
    ensures ok <==> NeedBelow(root) <= BLOCK_NUM - 3
    ensures ok ==> ImageOf(image, root, l)
    ensures ok ==> forall b: nat :: 2 <= b < 256 && b !in Blocks(l) ==> image[b] == Blank
  {
    image, l := BlankImage(), FileLayout(0, [], 0);
    var builder := new Builder();
    var rootInode := Inode(0, Dir, "/", 0, NoItems(), 0);
    ghost var kids;
    ok, rootInode, kids := builder.Walk(true, root, rootInode, FREEMAP_NUM + 1, ROOT_BLOCK);
    if !ok {
      return;
    }
    l := DirLayout(ROOT_BLOCK, kids, rootInode.indirect);
    ghost var walked, owned, cells := builder.Img(), builder.owned, builder.freemap[..];
    builder.OwnersAreMarked();
    builder.WriteBlock(0, SuperBlock(BLOCK_NUM, builder.freenum, FREEMAP_NUM));
    var bytes := PackFreemap(builder.freemap[..]);
    builder.WriteBlock(1, FreeMap(bytes));
    builder.WriteBlock(FREEMAP_NUM + 1, InodeBlock(rootInode));
    image := builder.image[..];
    ImageIsFinished(walked, image, rootInode, kids, root, owned, cells, bytes);
    forall b: nat | 2 <= b < 256 && b !in Blocks(l)
      ensures image[b] == Blank
    {
      assert b !in builder.owned;
      builder.UnownedIsBlank(b);
    }
  }
}
