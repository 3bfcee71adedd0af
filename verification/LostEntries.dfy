/** A flat directory of n one-byte files called "a", "b", and so on: with the eleventh file mksfs begins to write what
    the kernel does not find, and with the twenty-third what it takes for something else. */
module LostEntries {
  import opened Basics
  import opened SimpleFS
  import opened ImageBuilder
  import opened ImageMain
  import opened FsReader
  import opened FsRoundTrip

  function Name(i: nat): string
    requires i < 26
  {
    [('a' as int + i) as char]
  }

  function Files(n: nat): seq<Entry>
    requires n <= 26
  {
    if n == 0 then [] else Files(n - 1) + [Entry(Name(n - 1), RegularFile([1]))]
  }

  lemma NamesArePlain(i: nat, j: nat)
    requires i < 26 && j < 26
    ensures NameOk(Name(i)) && Name(i) != "." && Name(i) != ".."
    ensures Name(i) == Name(j) <==> i == j
  {
    assert Name(i)[0] == ('a' as int + i) as char && Name(j)[0] == ('a' as int + j) as char;
  }

  lemma {:induction false} FilesAt(n: nat, i: nat)
    requires i < n <= 26
    ensures |Files(n)| == n && Files(n)[i] == Entry(Name(i), RegularFile([1]))
  {
    if n > 1 { FilesAt(n - 1, if i < n - 1 then i else 0); }
  }

  lemma {:induction false} FilesKept(n: nat)
    requires n <= 26
    ensures |Files(n)| == n && Kept(Files(n)) == Files(n)
  {
    if n > 0 {
      FilesKept(n - 1);
      NamesArePlain(n - 1, 0);
      assert Files(n)[..n - 1] == Files(n - 1);
    }
  }

  lemma FilesAreFine(n: nat)
    requires n <= 26
    ensures WithinLimits(Directory(Files(n))) && NamesUnique(Directory(Files(n)))
  {
    var h := Directory(Files(n));
    FilesKept(n);
    forall i: nat
      ensures EntryWithinLimits(h, i) && EntryNamesUnique(h, i)
    {
      if i < n {
        FilesAt(n, i);
        NamesArePlain(i, 0);
      }
    }
    forall i: nat, j: nat
      ensures NamesDiffer(Kept(h.entries), i, j)
    {
      if i < j < n {
        FilesAt(n, i);
        FilesAt(n, j);
        NamesArePlain(i, j);
      }
    }
  }

  lemma NeedOneMore(h: Host, m: nat)
    requires h.Directory? && m < |h.entries| && !Skipped(h.entries[m]) && h.entries[m].node == RegularFile([1])
    ensures NeedEntries(h, m + 1) == NeedEntries(h, m) + 2
  {
    assert DataBlocks(1) == 1;
  }

  lemma {:induction false} FilesNeed(n: nat, h: Host, m: nat)
    requires m <= n <= 26 && h == Directory(Files(n)) && |Files(n)| == n
    ensures NeedEntries(h, m) == 2 * m
    decreases m
  {
    if m > 0 {
      FilesNeed(n, h, m - 1);
      FilesAt(n, m - 1);
      NamesArePlain(m - 1, 0);
      NeedOneMore(h, m - 1);
    }
  }

  /** A path of one step. */
  lemma OneStepPath(root: Host, k: nat)
    requires root.Directory? && k < |Kept(root.entries)|
    ensures PathExists(root, [k]) && NamesAt(root, [k]) == [Kept(root.entries)[k].name]
    ensures SizesAt(root, [k]) == [|Kept(root.entries)|]
  {
    var ks := [k];
    assert ks[..0] == [];
    assert PathExists(root, []) && NodeAt(root, []) == root;
    assert PathExists(root, ks) && LastEntry(root, ks) == Kept(root.entries)[k];
  }

  lemma OneNamePath(name: string)
    ensures PathString([name]) == "/" + name
  {
    assert Slashed([name][1..]) == "";
    assert "/" + name + "" == "/" + name;
  }

  /** The path of file k in the tree. */
  lemma PathOfFile(n: nat, k: nat)
    requires k < n <= 26
    ensures var root := Directory(Files(n));
            PathExists(root, [k]) && NamesAt(root, [k]) == [Name(k)] && SizesAt(root, [k]) == [n]
    ensures PathString([Name(k)]) == "/" + Name(k)
  {
    FilesKept(n);
    FilesAt(n, k);
    OneStepPath(Directory(Files(n)), k);
    OneNamePath(Name(k));
  }

  /** What the kernel makes of file k in an image of n such files. */
  lemma LookupOfFile(img: Image, n: nat, l: Layout, k: nat)
    requires k < n <= 26 && ImageOf(img, Directory(Files(n)), l)
    ensures LayoutExists(l, [k])
    ensures Lookup(img, None, "/" + Name(k)) == if k < 10 then Found(LayoutAt(l, [k]).inode) else BeyondTen(n, k)
  {
    var root := Directory(Files(n));
    PathOfFile(n, k);
    FilesAreFine(n);
    assert forall name {:trigger HoldsAs(img, root, l, name)} :: HoldsAs(img, root, l, name);
    ImageRoundTrip(img, root, l, [k], None);
    OutcomeOfOneStep(k, n, LayoutAt(l, [k]).inode);
  }

  lemma OutcomeOfOneStep(k: nat, n: nat, inode: nat)
    ensures PathOutcome([k], [n], inode, 0) == if k < 10 then Found(inode) else BeyondTen(n, k)
  {
    assert PathOutcome([k], [n], inode, 1) == Found(inode);
  }

  /** Builds the image and looks up file k. */
  method LookupInImage(n: nat, k: nat) returns (image: Image, r: LookupResult)
    requires k < n <= 26
    ensures r == Lookup(image, None, "/" + Name(k)) && image[0].SuperBlock?
    ensures if k < 10 then r.Found? && r.block != 0 else r == BeyondTen(n, k)
  {
    FilesAreFine(n);
    FilesKept(n);
    FilesNeed(n, Directory(Files(n)), n);
    var ok;
    ghost var l;
    ok, image, l := MakeImage(Directory(Files(n)));
    LookupOfFile(image, n, l, k);
    NotBlockZero(image, n, l, k);
    r := LookupInode(image, None, "/" + Name(k));
  }

  lemma NotBlockZero(img: Image, n: nat, l: Layout, k: nat)
    requires k < n <= 26 && ImageOf(img, Directory(Files(n)), l)
    ensures LayoutExists(l, [k]) && LayoutAt(l, [k]).inode != 0
  {
    var root := Directory(Files(n));
    PathOfFile(n, k);
    FilesAreFine(n);
    assert forall name {:trigger HoldsAs(img, root, l, name)} :: HoldsAs(img, root, l, name);
    ImageRoundTrip(img, root, l, [k], None);
  }

  /** Of eleven files the tenth is found, the eleventh is not. */
  method EleventhFileIsLost() returns (tenth: LookupResult, eleventh: LookupResult)
    ensures tenth.Found? && tenth.block != 0 && eleventh == NotFound
  {
    var image;
    image, tenth := LookupInImage(11, 9);
    image, eleventh := LookupInImage(11, 10);
  }

  /** For the last of twenty-three files the kernel takes the superblock for its inode. */
  method SuperBlockForTwentyThirdFile() returns (image: Image, r: LookupResult)
    ensures r == Lookup(image, None, "/" + Name(22)) == Found(0) && image[0].SuperBlock?
  {
    image, r := LookupInImage(23, 22);
  }
}
