/** kernel/fs.c: finding and reading files in a SimpleFS image. */
module FsReader {
  import opened Memory
  import opened Basics
  import opened SimpleFS

  /** A lookup returns an inode, named by its block, or a null pointer.
      Undefined: the code reads memory that does not hold what it takes it for. */
  datatype LookupResult = Found(block: nat) | NotFound | Undefined

  /** Where the first component of a path ends: at the first slash from i on, or at the end. */
  function NameEnd(path: string, i: nat): (e: nat)
    requires i <= |path|
    ensures i <= e <= |path| && '/' !in path[i..e] && (e < |path| ==> path[e] == '/')
    decreases |path| - i
  {
    if i == |path| || path[i] == '/' then i
    else
      var e := NameEnd(path, i + 1);
      assert path[i..e] == [path[i]] + path[i + 1..e];
      e
  }

  function FirstName(path: string): string { path[..NameEnd(path, 0)] }

  /** What is behind the first component and one slash. */
  function RestOfPath(path: string): string {
    var e := NameEnd(path, 0);
    if e < |path| then path[e + 1..] else []
  }

  /** A leading slash is dropped. */
  function Relative(path: string): string {
    if path != [] && path[0] == '/' then path[1..] else path
  }

  /** Where the search begins: at the root for a path with a leading slash, or without a directory. */
  function StartBlock(node: Option<nat>, path: string): nat {
    if (path != [] && path[0] == '/') || node == None then ROOT_BLOCK else node.value
  }

  /** The first of the direct items from i to n - 1 with the given name. */
  function SearchDirect(direct: DirectItems, name: string, i: nat, n: nat): LookupResult
    requires n <= DIRECT
    decreases n - i
  {
    if i >= n then NotFound
    else if direct[i].name == name then Found(direct[i].block)
    else SearchDirect(direct, name, i + 1, n)
  }

  /** Items from direct[0] on whose block number still lies in the inode's block: an item takes 32 bytes
      and the direct items begin at byte 40. */
  const ITEMS_TO_END: nat := (BLOCK_SIZE - 40) / 32

  /** The loop over the indirect items. It starts at item 12 of the indirect block, which is not where the block's items
      begin, and when a name matches it takes the block number from behind the inode. The inode's block holds zeros there. */
  function SearchIndirect(img: Image, ino: Inode, name: string, i: nat): LookupResult
    decreases ino.blocks - i
  {
    if i >= ino.blocks then NotFound
    else if ino.indirect >= BLOCK_NUM || !(img[ino.indirect].ItemBlock? || img[ino.indirect].Blank?) || i >= ITEMS_PER_BLOCK then Undefined
    else if AsItems(img[ino.indirect])[i].name == name then if i < ITEMS_TO_END then Found(0) else Undefined
    else SearchIndirect(img, ino, name, i + 1)
  }

  function Search(img: Image, ino: Inode, name: string): LookupResult {
    if ino.blocks <= DIRECT then SearchDirect(ino.direct, name, 0, ino.blocks)
    else
      var r := SearchDirect(ino.direct, name, 0, DIRECT);
      if r.Found? then r else SearchIndirect(img, ino, name, DIRECT)
  }

  const TYPE_DIR: nat := 1

  /** What a lookup does with the first component. Where an inode's type is, the superblock has its number of blocks. */
  function Step(img: Image, b: nat, name: string): LookupResult {
    if b >= BLOCK_NUM then Undefined
    else match img[b]
      case InodeBlock(ino) => if ino.kind == Dir then Search(img, ino, name) else NotFound
      case SuperBlock(blocks, _, _) => if blocks == TYPE_DIR then Undefined else NotFound
      case _ => Undefined
  }

  /** lookup. */
  function Lookup(img: Image, node: Option<nat>, path: string): LookupResult
    decreases |path|
  {
    var b, p := StartBlock(node, path), Relative(path);
    if p == [] then Found(b)
    else
      var r := Step(img, b, FirstName(p));
      if r.Found? then Lookup(img, Some(r.block), RestOfPath(p)) else r
  }

  /** The C function. */
  method LookupInode(img: Image, node: Option<nat>, filename: string) returns (r: LookupResult)
    ensures r == Lookup(img, node, filename)
    decreases |filename|
  {
    var b, p := node, filename;
    if p != [] && p[0] == '/' {
      b := Some(ROOT_BLOCK);
      p := p[1..];
    }
    if b == None { b := Some(ROOT_BLOCK); }
    if p == [] { return Found(b.value); }
    if b.value >= BLOCK_NUM { return Undefined; }
    match img[b.value] {
      case InodeBlock(ino) =>
        if ino.kind != Dir { return NotFound; }
        var cTarget, rest := SplitName(p);
        r := SearchItems(img, ino, cTarget);
        if r.Found? {
          r := LookupInode(img, Some(r.block), rest);
        }
      case SuperBlock(blocks, _, _) => r := if blocks == TYPE_DIR then Undefined else NotFound;
      case _ => r := Undefined;
    }
  }

  /** Its loop that copies the first component of the path. */
  method SplitName(p: string) returns (cTarget: string, rest: string)
    ensures cTarget == FirstName(p) && rest == RestOfPath(p)
  {
    cTarget, rest := [], p;
    while rest != [] && rest[0] != '/'
      invariant |cTarget| <= |p| && rest == p[|cTarget|..] && cTarget == p[..|cTarget|]
      invariant NameEnd(p, 0) == NameEnd(p, |cTarget|)
      decreases |rest|
    {
      cTarget := cTarget + [rest[0]];
      rest := rest[1..];
    }
    if rest != [] { rest := rest[1..]; }
  }

  /** Its loops over the items of a directory. */
  method SearchItems(img: Image, ino: Inode, cTarget: string) returns (r: LookupResult)
    ensures r == Search(img, ino, cTarget)
  {
    var blockNum := ino.blocks;
    var n := if blockNum <= DIRECT then blockNum else DIRECT;
    var i := 0;
    while i < n
      invariant i <= n && SearchDirect(ino.direct, cTarget, 0, n) == SearchDirect(ino.direct, cTarget, i, n)
    {
      if ino.direct[i].name == cTarget { return Found(ino.direct[i].block); }
      i := i + 1;
    }
    if blockNum <= DIRECT { return NotFound; }
    i := DIRECT;
    while i < blockNum
      invariant DIRECT <= i <= blockNum && SearchIndirect(img, ino, cTarget, DIRECT) == SearchIndirect(img, ino, cTarget, i)
    {
      if ino.indirect >= BLOCK_NUM || !(img[ino.indirect].ItemBlock? || img[ino.indirect].Blank?) || i >= ITEMS_PER_BLOCK {
        return Undefined;
      }
      if AsItems(img[ino.indirect])[i].name == cTarget {
        return if i < ITEMS_TO_END then Found(0) else Undefined;
      }
      i := i + 1;
    }
    r := NotFound;
  }

  // ----- paths --------------------------------------------------------------------

  lemma NameEndAppend(p: string, q: string, i: nat)
    requires i <= |p|
    ensures NameEnd(p + q, i) == if NameEnd(p, i) < |p| then NameEnd(p, i) else NameEnd(p + q, |p|)
    decreases |p| - i
  {
    if i < |p| && p[i] != '/' { NameEndAppend(p, q, i + 1); }
  }

  /** How a path that does not begin with a slash is split, and how it is split with more behind it. */
  lemma JoinedParts(p: string, q: string)
    requires p != [] && p[|p| - 1] != '/'
    ensures FirstName(p + "/" + q) == FirstName(p)
    ensures '/' in p ==> RestOfPath(p) != [] && RestOfPath(p)[|RestOfPath(p)| - 1] != '/'
    ensures '/' in p ==> RestOfPath(p + "/" + q) == RestOfPath(p) + "/" + q
    ensures '/' !in p ==> RestOfPath(p + "/" + q) == q && RestOfPath(p) == []
  {
    assert p + "/" + q == p + ("/" + q);
    NameEndAppend(p, "/" + q, 0);
    var e := NameEnd(p, 0);
    assert p[..e] == p[0..e];
    if e < |p| {
      assert p[e] == '/' && RestOfPath(p)[|RestOfPath(p)| - 1] == p[|p| - 1];
      assert RestOfPath(p + "/" + q) == RestOfPath(p) + "/" + q;
    } else {
      assert p[0..e] == p && RestOfPath(p + "/" + q) == q;
    }
  }

  /** Going on from where a lookup has led; a failure stays a failure. */
  function Then(img: Image, r: LookupResult, path: string): LookupResult {
    if r.Found? then Lookup(img, Some(r.block), path) else r
  }

  lemma LookupStep(img: Image, node: Option<nat>, path: string)
    ensures var b, p := StartBlock(node, path), Relative(path);
            Lookup(img, node, path) == if p == [] then Found(b) else Then(img, Step(img, b, FirstName(p)), RestOfPath(p))
  {
  }

  lemma JoinedStart(node: Option<nat>, p: string, q: string)
    requires p != [] && p[|p| - 1] != '/'
    ensures Relative(p) != [] && Relative(p)[|Relative(p)| - 1] != '/'
    ensures StartBlock(node, p + "/" + q) == StartBlock(node, p) && Relative(p + "/" + q) == Relative(p) + "/" + q
  {
  }

  /** Looking up p and q joined by a slash is looking up q from where p leads.
      p must not be empty and not end in a slash. */
  lemma {:induction false} LookupOfJoined(img: Image, node: Option<nat>, p: string, q: string)
    requires p != [] && p[|p| - 1] != '/'
    ensures Lookup(img, node, p + "/" + q) == Then(img, Lookup(img, node, p), q)
    decreases |p|
  {
    var p' := Relative(p);
    var r := Step(img, StartBlock(node, p), FirstName(p'));
    JoinedStart(node, p, q);
    JoinedParts(p', q);
    assert Lookup(img, node, p) == Then(img, r, RestOfPath(p')) by { LookupStep(img, node, p); }
    assert Lookup(img, node, p + "/" + q) == Then(img, r, RestOfPath(p' + "/" + q)) by { LookupStep(img, node, p + "/" + q); }
    if '/' in p' && r.Found? { LookupOfJoined(img, Some(r.block), RestOfPath(p'), q); }
  }

  /** A path with a leading slash is looked up from the root, whatever directory is given. */
  lemma AbsolutePath(img: Image, node: Option<nat>, p: string)
    ensures Lookup(img, node, "/" + p) == Lookup(img, None, "/" + p)
    ensures p == [] || p[0] != '/' ==> Lookup(img, node, "/" + p) == Lookup(img, Some(FREEMAP_NUM + 1), p)
  {
    assert Relative("/" + p) == p;
    LookupStep(img, node, "/" + p);
    LookupStep(img, None, "/" + p);
    LookupStep(img, Some(FREEMAP_NUM + 1), p);
  }

  /** Without a directory a path is looked up from the root; otherwise, without a leading slash, from the directory. */
  lemma RelativePath(img: Image, node: Option<nat>, p: string)
    requires p != [] && p[0] != '/'
    ensures var b := if node == None then FREEMAP_NUM + 1 else node.value;
            Lookup(img, node, p) == Then(img, Step(img, b, FirstName(p)), RestOfPath(p))
  {
    LookupStep(img, node, p);
  }

  /** So two slashes in the middle of a path start over at the root, once what is before them has been found. */
  lemma TwoSlashesStartOver(img: Image, node: Option<nat>, p: string, q: string)
    requires p != [] && p[|p| - 1] != '/' && Lookup(img, node, p).Found?
    ensures Lookup(img, node, p + "//" + q) == Lookup(img, None, "/" + q)
  {
    var r, rest := Lookup(img, node, p), "/" + q;
    assert p + "//" + q == p + "/" + rest;
    LookupOfJoined(img, node, p, rest);
    assert Lookup(img, node, p + "/" + rest) == Lookup(img, Some(r.block), rest);
    AbsolutePath(img, Some(r.block), q);
  }

  // ----- readall --------------------------------------------------------------------

  datatype ReadResult = Bytes(bytes: seq<byte>) | NotAFile | Unreadable

  /** The number of block i of a file, if the code finds one where it looks. */
  function FileBlock(img: Image, ino: Inode, i: nat): Option<nat> {
    if i < DIRECT then Some(ino.direct[i].block)
    else if ino.indirect >= BLOCK_NUM || !(img[ino.indirect].ItemBlock? || img[ino.indirect].Blank?) || i - DIRECT >= ITEMS_PER_BLOCK then None
    else Some(AsItems(img[ino.indirect])[i - DIRECT].block)
  }

  function CopySize(l: nat): nat { if l >= BLOCK_SIZE then BLOCK_SIZE else l }

  /** The bytes from block i on, when l of them are still to come. Once none are, a pass only computes an address. */
  function ReadFrom(img: Image, ino: Inode, i: nat, l: nat): ReadResult
    decreases ino.blocks - i
  {
    if i >= ino.blocks then Bytes([])
    else if l == 0 then ReadFrom(img, ino, i + 1, 0)
    else
      var b := FileBlock(img, ino, i);
      if b == None || b.value >= BLOCK_NUM || !img[b.value].DataBlock? then Unreadable
      else Before(img[b.value].data[..CopySize(l)], ReadFrom(img, ino, i + 1, l - CopySize(l)))
  }

  /** Two results in a row. */
  function Before(bytes: seq<byte>, r: ReadResult): ReadResult {
    if r.Bytes? then Bytes(bytes + r.bytes) else r
  }

  /** How many passes load an item from behind the indirect block, whether or not its block number is used. */
  function StrayLoads(ino: Inode): nat {
    if ino.blocks > MAX_BLOCKS then ino.blocks - MAX_BLOCKS else 0
  }

  function ReadAll(img: Image, ino: Inode): ReadResult {
    if ino.kind != File then NotAFile else ReadFrom(img, ino, 0, ino.size)
  }

  datatype ReadStatus = Copied | Refused | OutOfBounds

  /** readall fills the caller's buffer from its start and leaves what is behind the file's bytes alone.
      `stray` counts the items that it loads from behind the indirect block. */
  method ReadInode(img: Image, ino: Inode, buf: array<byte>) returns (r: ReadStatus, ghost stray: nat)
    requires ino.size <= buf.Length
    modifies buf
    ensures r == Refused <==> ReadAll(img, ino) == NotAFile
    ensures r == OutOfBounds <==> ReadAll(img, ino) == Unreadable
    ensures r == Copied ==> stray == StrayLoads(ino)
    ensures r == Copied ==> var bytes := ReadAll(img, ino).bytes;
                            |bytes| <= buf.Length && buf[..|bytes|] == bytes && buf[|bytes|..] == old(buf[|bytes|..])
  {
    stray := 0;
    if ino.kind != File { return Refused, stray; }
    var l: nat, b := ino.size, ino.blocks;
    var i, at := 0, 0;
    ghost var was, done := buf[..], [];
    while i < b
      invariant i <= b && |done| == at && at + l == ino.size
      invariant stray == if i > MAX_BLOCKS then i - MAX_BLOCKS else 0
      invariant ReadAll(img, ino) == Before(done, ReadFrom(img, ino, i, l))
      invariant buf[..] == done + was[at..]
    {
      if i >= DIRECT && i - DIRECT >= ITEMS_PER_BLOCK { stray := stray + 1; }
      if l > 0 {
        var block := FileBlock(img, ino, i);
        if block == None || block.value >= BLOCK_NUM || !img[block.value].DataBlock? {
          return OutOfBounds, stray;
        }
        var copySize := if l >= BLOCK_SIZE then BLOCK_SIZE else l;
        ghost var more := img[block.value].data[..copySize];
        BeforeNext(done, more, ReadFrom(img, ino, i + 1, l - copySize));
        CopyByteToBuf(img[block.value].data, buf, at, copySize);
        Splice(done, more, was);
        at, l, done := at + copySize, l - copySize, done + more;
      }
      i := i + 1;
    }
    assert done + [] == done;
    r := Copied;
  }

  /** Overwriting the next part of the buffer. */
  lemma Splice(done: seq<byte>, more: seq<byte>, was: seq<byte>)
    requires |done| + |more| <= |was|
    ensures var now := done + was[|done|..];
            now[..|done|] + more + now[|done| + |more|..] == (done + more) + was[|done + more|..]
  {
    assert (done + was[|done|..])[|done| + |more|..] == was[|done + more|..];
  }

  lemma BeforeNext(done: seq<byte>, more: seq<byte>, rest: ReadResult)
    ensures Before(done, Before(more, rest)) == Before(done + more, rest)
  {
    if rest.Bytes? { assert done + (more + rest.bytes) == (done + more) + rest.bytes; }
  }

  /** copyByteToBuf, to position `at` of the buffer. */
  method CopyByteToBuf(src: Data, buf: array<byte>, at: nat, length: nat)
    requires length <= |src| && at + length <= buf.Length
    modifies buf
    ensures buf[..] == old(buf[..])[..at] + src[..length] + old(buf[..])[at + length..]
  {
    ghost var was := buf[..];
    var i := 0;
    while i < length
      invariant i <= length && buf[..] == was[..at] + src[..i] + was[at + i..]
    {
      ghost var before := buf[..];
      buf[at + i] := src[i];
      assert buf[..] == before[at + i := src[i]];
      NextByte(was, src, at, i);
      i := i + 1;
    }
  }

  lemma NextByte(was: seq<byte>, src: seq<byte>, at: nat, i: nat)
    requires i < |src| && at + i < |was|
    ensures (was[..at] + src[..i] + was[at + i..])[at + i := src[i]] == was[..at] + src[..i + 1] + was[at + i + 1..]
  {
  }

  lemma StoredFileBlock(img: Image, ino: Inode, data: seq<nat>, bytes: seq<byte>, k: nat)
    requires DataStored(img, ino, data, bytes, k) && k < |data|
    ensures FileBlock(img, ino, k) == Some(data[k])
  {
  }

  lemma ReadStep(img: Image, ino: Inode, i: nat, l: nat, b: nat, data: Data, rest: seq<byte>)
    requires i < ino.blocks && l > 0 && FileBlock(img, ino, i) == Some(b) && b < BLOCK_NUM && img[b] == DataBlock(data)
    requires ReadFrom(img, ino, i + 1, l - CopySize(l)) == Bytes(rest)
    ensures ReadFrom(img, ino, i, l) == Bytes(data[..CopySize(l)] + rest)
  {
  }

  /** The bytes of a file from block i on. */
  function BytesFrom(bytes: seq<byte>, i: nat): seq<byte> {
    if i * BLOCK_SIZE <= |bytes| then bytes[i * BLOCK_SIZE..] else []
  }

  lemma BlockAndRest(bytes: seq<byte>, i: nat)
    requires i < DataBlocks(|bytes|)
    ensures i * BLOCK_SIZE < |bytes| && |BytesFrom(bytes, i)| > 0
    ensures var n := CopySize(|BytesFrom(bytes, i)|);
            && Filled(bytes, i)[..n] + BytesFrom(bytes, i + 1) == BytesFrom(bytes, i)
            && |BytesFrom(bytes, i)| - n == |BytesFrom(bytes, i + 1)|
  {
    var rest := bytes[i * BLOCK_SIZE..];
    if |rest| < BLOCK_SIZE {
      assert (rest + Zeros(BLOCK_SIZE - |rest|))[..|rest|] == rest;
    } else {
      assert rest == rest[..BLOCK_SIZE] + rest[BLOCK_SIZE..];
      assert rest[BLOCK_SIZE..] == bytes[(i + 1) * BLOCK_SIZE..];
    }
  }

  lemma ReadBlock(img: Image, ino: Inode, data: seq<nat>, bytes: seq<byte>, i: nat)
    requires i < |data| == ino.blocks && i < DataBlocks(|bytes|) && DataStored(img, ino, data, bytes, i)
    requires ReadFrom(img, ino, i + 1, |BytesFrom(bytes, i + 1)|) == Bytes(BytesFrom(bytes, i + 1))
    ensures ReadFrom(img, ino, i, |BytesFrom(bytes, i)|) == Bytes(BytesFrom(bytes, i))
  {
    var left, block, rest := |BytesFrom(bytes, i)|, Filled(bytes, i), BytesFrom(bytes, i + 1);
    BlockAndRest(bytes, i);
    assert left > 0 && left - CopySize(left) == |rest|;
    assert block[..CopySize(left)] + rest == BytesFrom(bytes, i);
    StoredFileBlock(img, ino, data, bytes, i);
    ReadStep(img, ino, i, left, data[i], block, rest);
  }

  /** A stored file with contents reads back byte for byte ... */
  lemma {:induction false} ReadFromStored(img: Image, ino: Inode, data: seq<nat>, bytes: seq<byte>, i: nat)
    requires i <= |data| == ino.blocks == DataBlocks(|bytes|)
    requires forall k: nat {:trigger DataStored(img, ino, data, bytes, k)} :: DataStored(img, ino, data, bytes, k)
    ensures ReadFrom(img, ino, i, |BytesFrom(bytes, i)|) == Bytes(BytesFrom(bytes, i))
    decreases |data| - i
  {
    if i < |data| {
      ReadFromStored(img, ino, data, bytes, i + 1);
      assert DataStored(img, ino, data, bytes, i);
      ReadBlock(img, ino, data, bytes, i);
    }
  }

  /** ... and when nothing is left to copy, no pass reads a block or changes anything. */
  lemma {:induction false} NothingLeft(img: Image, ino: Inode, i: nat)
    ensures ReadFrom(img, ino, i, 0) == Bytes([])
    decreases ino.blocks - i
  {
    if i < ino.blocks { NothingLeft(img, ino, i + 1); }
  }

  /** So readall returns exactly the bytes of every stored file, of an empty one too. */
  lemma ReadAllOfStored(img: Image, l: Layout, ino: Inode, bytes: seq<byte>)
    requires FileStored(img, ino, l, bytes)
    ensures ReadAll(img, ino) == Bytes(bytes)
  {
    if bytes != [] {
      ReadFromStored(img, ino, l.data, bytes, 0);
      assert BytesFrom(bytes, 0) == bytes;
    } else {
      NothingLeft(img, ino, 0);
    }
  }

  /** But for an empty file, and for no other, the block count that mksfs computes makes it load items from behind
      the indirect block: more than a million, all within 32 MiB from the beginning of the image. */
  lemma StrayLoadsOfStored(img: Image, l: Layout, ino: Inode, bytes: seq<byte>)
    requires FileStored(img, ino, l, bytes)
    ensures StrayLoads(ino) == if bytes == [] then 0x10_0000 - MAX_BLOCKS else 0
    ensures bytes == [] ==> ino.indirect * BLOCK_SIZE + (ino.blocks - DIRECT) * 32 <= 0x200_0000
  {
    if bytes == [] { assert BlockCount(0) == 0x10_0000; }
  }
}
