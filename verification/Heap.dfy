/** Whole runs of the buddy allocator, and the byte heap on top of it (kalloc/kfree, malloc/free). */
module BuddyRuns {
  import opened Powers
  import opened BuddySpec
  import opened BuddyArray

  datatype Request = AllocRequest(size: int) | FreeRequest(offset: nat)

  /** The tree after one call of buddyAlloc or buddyFree (BuddyTree's methods ensure exactly this). */
  ghost function After(t: Tree, h: nat, r: Request): (u: Tree)
    requires Canonical(t, h)
    ensures Canonical(u, h)
  {
    match r
    case AllocRequest(size) =>
      var k := Rounded(size);
      if Serves(t, h, k) then
        AllocIsPlace(t, h, 0, k);
        PlaceAddsBlock(t, h, 0, k, Alloc(t, h, k).1);
        Alloc(t, h, k).0
      else t
    case FreeRequest(x) => if x < Pow2(h) then Release(t, h, x) else t
  }

  ghost function Run(h: nat, rs: seq<Request>): (t: Tree)
    ensures Canonical(t, h)
  {
    if rs == [] then Free else After(Run(h, rs[..|rs| - 1]), h, rs[|rs| - 1])
  }

  /** The same allocator with no tree at all: a set of live blocks. */
  ghost predicate Fits(live: set<Block>, h: nat, k: nat, off: nat) {
    && off + Pow2(k) <= Pow2(h) && Aligned(off, k)
    && forall b <- live :: b.Apart(Block(off, Pow2(k)))
  }

  ghost predicate SetStep(live: set<Block>, live': set<Block>, h: nat, r: Request) {
    match r
    case AllocRequest(size) =>
      var k := Rounded(size);
      if exists o: nat :: k <= h && Fits(live, h, k, o)
      then exists o: nat :: Fits(live, h, k, o) && live' == live + {Block(o, Pow2(k))}
      else live' == live
    case FreeRequest(x) =>
      if exists b <- live :: b.Contains(x)
      then exists b <- live :: b.Contains(x) && live' == live - {b}
      else live' == live
  }

  /** Every run of the array-based allocator is a run of the set-based one. */
  lemma RunRefinesSets(h: nat, rs: seq<Request>, n: nat)
    requires n < |rs|
    ensures SetStep(Live(Run(h, rs[..n]), h, 0), Live(Run(h, rs[..n + 1]), h, 0), h, rs[n])
  {
    assert rs[..n + 1][..n] == rs[..n];
    StepRefinesSets(Run(h, rs[..n]), h, rs[n]);
  }

  lemma StepRefinesSets(t: Tree, h: nat, r: Request)
    requires Canonical(t, h)
    ensures SetStep(Live(t, h, 0), Live(After(t, h, r), h, 0), h, r)
  {
    var live := Live(t, h, 0);
    match r {
      case AllocRequest(size) =>
        var k := Rounded(size);
        AllocOutcome(t, h, k);
        assert forall o: nat :: Fits(live, h, k, o) <==> Legal(t, h, 0, k, o);
        if Serves(t, h, k) {
          assert Fits(live, h, k, Alloc(t, h, k).1);
        }
      case FreeRequest(x) =>
        if x < Pow2(h) {
          ReleaseOutcome(t, h, x);
        } else {
          LiveShape(t, h, 0);
        }
    }
  }

  /** The array after any run is a function of the live blocks alone ... */
  lemma ArrayIsDetermined(h: nat, rs: seq<Request>, qs: seq<Request>, v: seq<int>, w: seq<int>)
    requires IsImage(v, Run(h, rs), h) && IsImage(w, Run(h, qs), h)
    requires Live(Run(h, rs), h, 0) == Live(Run(h, qs), h, 0)
    ensures v == w
  {
    TreeIsDetermined(Run(h, rs), Run(h, qs), h, 0);
  }

  /** ... so once everything has been freed, in whatever order, all blocks have coalesced:
      every entry holds the full size of its node, which is buddyInit's array. */
  lemma AllFreedCoalesces(h: nat, rs: seq<Request>, v: seq<int>)
    requires IsImage(v, Run(h, rs), h) && Live(Run(h, rs), h, 0) == {}
    ensures forall i: nat :: i < |v| ==> Depth(i) <= h && v[i] == Pow2(h - Depth(i))
  {
    LiveShape(Run(h, rs), h, 0);
    forall i: nat | i < |v|
      ensures Depth(i) <= h && v[i] == Pow2(h - Depth(i))
    {
      DepthAtMost(i, h);
      FullValue(h, i);
    }
  }

  /** Freeing any part of the block that an allocation has just returned restores the state before it. */
  lemma FreeAfterAlloc(t: Tree, h: nat, size: int, x: nat)
    requires Canonical(t, h) && Serves(t, h, Rounded(size))
    requires var off := Alloc(t, h, Rounded(size)).1; off <= x < off + Pow2(Rounded(size))
    ensures After(After(t, h, AllocRequest(size)), h, FreeRequest(x)) == t
  {
    var k := Rounded(size);
    AllocIsPlace(t, h, 0, k);
    ReleaseUndoesPlace(t, h, k, Alloc(t, h, k).1, x);
  }
}

module Heap {
  import opened Powers
  import opened BuddySpec
  import opened BuddyArray

  /** What kalloc and malloc return: a null pointer, an address relative to the start of the heap, or a panic. */
  datatype Pointer = Null | Address(offset: nat) | Panic

  class ByteHeap {
    const minBlock: nat      // MIN_BLOCK_SIZE
    const blocks: BuddyTree
    const bytes: array<bv8>  // HEAP

    ghost predicate Valid()
      reads this, blocks, blocks.longest, bytes
    {
      blocks.Valid() && bytes as object != blocks.longest && minBlock >= 2 && bytes.Length == blocks.size * minBlock
    }

    /** The kernel's heap: 0x20000 blocks of 0x40 bytes. */
    constructor Kernel()
      ensures Valid() && minBlock == 0x40 && bytes.Length == 0x80_0000 && blocks.Blocks() == {}
    {
      Pow2Values();
      minBlock := 0x40;
      blocks := new BuddyTree(17, 0x2_0000);
      bytes := new bv8[0x80_0000];
    }

    /** A user program's heap: 0x80 blocks of 0x20 bytes. */
    constructor User()
      ensures Valid() && minBlock == 0x20 && bytes.Length == 0x1000 && blocks.Blocks() == {}
    {
      Pow2Values();
      minBlock := 0x20;
      blocks := new BuddyTree(7, 0x80);
      bytes := new bv8[0x1000];
    }

    /** The bytes of a run of smallest blocks. */
    ghost predicate Covers(b: Block, i: int) {
      b.offset * minBlock <= i < b.offset * minBlock + b.length * minBlock
    }

    /** kalloc, and malloc, whose unsigned argument is never negative. `b` is the block that was taken. */
    method Kalloc(size: int) returns (p: Pointer, ghost b: Block)
      requires Valid() && size < 0x8000_0000
      modifies blocks`tree, blocks.longest, bytes
      ensures Valid()
      ensures p == Null <==> size <= 0
      ensures p.Panic? <==> size > 0 && !HasRoom(old(blocks.tree), blocks.height, Exponent(size, minBlock))
      ensures !p.Address? ==> bytes[..] == old(bytes[..]) && blocks.tree == old(blocks.tree)
      ensures p.Address? ==> p.offset == b.offset * minBlock && Grant(old(blocks.tree), blocks.height, minBlock, size, b)
      ensures p.Address? ==> blocks.Blocks() == old(blocks.Blocks()) + {b}
      // and Kfree of the pointer frees it again
      ensures p.Address? ==> 0 <= p.offset <= bytes.Length - minBlock && b.Contains(p.offset / minBlock)
      // exactly that block is zeroed
      ensures p.Address? ==>
                forall i :: 0 <= i < bytes.Length ==> bytes[i] == if Covers(b, i) then 0 else old(bytes[i])
      // and so every live block keeps its bytes
      ensures forall c, i :: c in old(blocks.Blocks()) && 0 <= i < bytes.Length && Covers(c, i) ==> bytes[i] == old(bytes[i])
    {
      if size <= 0 {
        b := Block(0, 0);
        return Null, b;
      }
      var block, totalBytes;
      block, totalBytes, b := Take(size);
      if block == -1 {
        return Panic, b;
      }
      var begin := block * minBlock;
      PointerIntoGrant(old(blocks.tree), blocks.height, minBlock, size, b);
      ClearBlock(begin, totalBytes, b, old(blocks.tree), size);
      p := Address(begin);
    }

    /** kalloc up to the zeroing. */
    method Take(size: int) returns (block: int, totalBytes: nat, ghost b: Block)
      requires Valid() && 0 < size < 0x8000_0000
      modifies blocks`tree, blocks.longest
      ensures Valid()
      ensures block == -1 <==> !HasRoom(old(blocks.tree), blocks.height, Exponent(size, minBlock))
      ensures block == -1 ==> blocks.tree == old(blocks.tree)
      ensures block != -1 ==> block == b.offset && totalBytes == b.length * minBlock
      ensures block != -1 ==> block * minBlock + totalBytes <= bytes.Length
      ensures block != -1 ==> Grant(old(blocks.tree), blocks.height, minBlock, size, b)
      ensures block != -1 ==> blocks.Blocks() == old(blocks.Blocks()) + {b}
    {
      totalBytes := 0;
      b := Block(0, 0);
      var n := (size - 1) / minBlock + 1;
      BlocksNeeded(size, minBlock);
      assert Exponent(size, minBlock) == Rounded(n) == CeilExp(n);
      block := blocks.BuddyAlloc(n);
      if block != -1 {
        var rounded := FixSize(n);
        b := Block(block, rounded);
        GrantIsEnough(old(blocks.tree), blocks.height, minBlock, size, b);
        totalBytes := rounded * minBlock;
      }
    }

    /** The block granted is zeroed, and no byte of a block that was live before. */
    method ClearBlock(begin: nat, totalBytes: nat, ghost b: Block, ghost t: Tree, ghost size: int)
      requires minBlock > 0 && Grant(t, blocks.height, minBlock, size, b)
      requires begin == b.offset * minBlock && totalBytes == b.length * minBlock && begin + totalBytes <= bytes.Length
      modifies bytes
      ensures forall i :: 0 <= i < bytes.Length ==> bytes[i] == if Covers(b, i) then 0 else old(bytes[i])
      ensures forall c, i :: c in Live(t, blocks.height, 0) && 0 <= i < bytes.Length && Covers(c, i) ==> bytes[i] == old(bytes[i])
    {
      Clear(begin, totalBytes);
      forall c, i | c in Live(t, blocks.height, 0) && 0 <= i < bytes.Length && Covers(c, i)
        ensures !Covers(b, i)
      {
        LiveBytesKept(this, t, blocks.height, size, b, c, i);
      }
    }

    /** kalloc's loop over the bytes of the block. */
    method Clear(begin: nat, totalBytes: nat)
      requires begin + totalBytes <= bytes.Length
      modifies bytes
      ensures forall i :: 0 <= i < bytes.Length ==> bytes[i] == if begin <= i < begin + totalBytes then 0 else old(bytes[i])
    {
      var i := 0;
      while i < totalBytes
        invariant 0 <= i <= totalBytes
        invariant forall j :: 0 <= j < bytes.Length ==> bytes[j] == if begin <= j < begin + i then 0 else old(bytes[j])
      {
        bytes[begin + i] := 0;
        i := i + 1;
      }
    }

    /** kfree and free, with the pointer relative to the start of the heap: pointers outside the heap are ignored,
        any other frees the live block it points into, and bytes never change. */
    method Kfree(p: int)
      requires Valid()
      modifies blocks`tree, blocks.longest
      ensures Valid()
      ensures forall b <- old(blocks.Blocks()) ::
                0 <= p <= bytes.Length - minBlock && b.Contains(p / minBlock) ==> blocks.Blocks() == old(blocks.Blocks()) - {b}
      ensures (forall b <- old(blocks.Blocks()) :: !(0 <= p <= bytes.Length - minBlock && b.Contains(p / minBlock))) ==>
                blocks.tree == old(blocks.tree)
    {
      if p < 0 { return; }
      if p > bytes.Length - minBlock { return; }
      BlockOfByte(p, blocks.size, minBlock);
      blocks.BuddyFree(p / minBlock);
    }
  }

  /** The exponent of the block that serves a request of `size` bytes. */
  ghost function Exponent(size: int, m: nat): nat
    requires m > 0
  {
    if size <= 0 then 0 else CeilExp((size - 1) / m + 1)
  }

  /** Block b serves a request of `size` bytes: it is an aligned block of the rounded size apart from every live
      block, it has room for the request, and it lies inside the heap. */
  ghost predicate Grant(t: Tree, h: nat, m: nat, size: int, b: Block)
    requires m > 0
  {
    && b.length == Pow2(Exponent(size, m)) && Legal(t, h, 0, Exponent(size, m), b.offset)
    && size <= b.length * m && b.offset * m + b.length * m == (b.offset + b.length) * m <= Pow2(h) * m
  }

  lemma GrantIsEnough(t: Tree, h: nat, m: nat, size: int, b: Block)
    requires m >= 2 && 0 < size < 0x8000_0000
    requires b.length == Pow2(Exponent(size, m)) && Legal(t, h, 0, Exponent(size, m), b.offset)
    ensures Grant(t, h, m, size, b)
  {
    BlocksNeeded(size, m);
    MulMonotonic(m, (size - 1) / m + 1, b.length);
    BytesInside(b, Pow2(h), m);
  }

  /** Nor is it larger than it has to be: half of it would be too small. */
  lemma GrantIsTight(t: Tree, h: nat, m: nat, size: int, b: Block)
    requires m >= 2 && 0 < size < 0x8000_0000 && Grant(t, h, m, size, b)
    ensures b.length == 1 || (b.length % 2 == 0 && b.length / 2 * m < size)
  {
    var k, n := Exponent(size, m), (size - 1) / m + 1;
    if k > 0 {
      var half := Pow2(k - 1);
      assert b.length == 2 * half && n > half;
      FewerBlocks(half, size, m);
    }
  }

  /** At most as many blocks as fit into fewer bytes than asked for are too few. */
  lemma FewerBlocks(blocks: nat, size: int, m: nat)
    requires m > 0 && size > 0 && blocks <= (size - 1) / m
    ensures blocks * m < size
  {
    var q := (size - 1) / m;
    MulMonotonic(m, blocks, q);
    assert size - 1 == q * m + (size - 1) % m;
  }

  /** The address handed out points into the heap and into the block that was taken, so freeing it frees that block. */
  lemma PointerIntoGrant(t: Tree, h: nat, m: nat, size: int, b: Block)
    requires m > 0 && Grant(t, h, m, size, b)
    ensures b.offset * m + m <= Pow2(h) * m && b.offset * m / m == b.offset && b.Contains(b.offset)
  {
    BlockStart(b.offset, Pow2(h), m);
  }

  /** Where a smallest block begins. */
  lemma BlockStart(offset: nat, total: nat, m: nat)
    requires m > 0 && offset < total
    ensures offset * m + m <= total * m && offset * m / m == offset
  {
    MulMonotonic(m, offset + 1, total);
    assert (offset + 1) * m == offset * m + m;
    QuotientIsUnique(offset * m, m, offset, 0);
  }

  lemma BlocksNeeded(size: int, m: nat)
    requires 0 < size < 0x8000_0000 && m >= 2
    ensures 0 < (size - 1) / m + 1 <= 0x4000_0000
    ensures size <= ((size - 1) / m + 1) * m
  {
    var q := (size - 1) / m;
    MulMonotonic(q, 2, m);
    assert size - 1 == q * m + (size - 1) % m;
  }

  lemma BytesInside(b: Block, total: nat, m: nat)
    requires b.offset + b.length <= total
    ensures b.offset * m + b.length * m == (b.offset + b.length) * m <= total * m
  {
  }

  lemma BlockOfByte(p: int, total: nat, m: nat)
    requires m > 0 && 0 <= p <= total * m - m
    ensures 0 <= p / m < total
  {
  }

  /** No byte of a block that is live before an allocation belongs to the block granted by it. */
  lemma LiveBytesKept(heap: ByteHeap, t: Tree, h: nat, size: int, b: Block, c: Block, i: int)
    requires heap.minBlock > 0 && Grant(t, h, heap.minBlock, size, b) && c in Live(t, h, 0) && heap.Covers(c, i)
    ensures !heap.Covers(b, i)
  {
    var m := heap.minBlock;
    assert c.Apart(b);
    if b.offset + b.length <= c.offset {
      BytesInside(b, c.offset, m);
    } else {
      BytesInside(c, b.offset, m);
    }
  }

  lemma MulMonotonic(m: nat, a: nat, b: nat)
    requires a <= b
    ensures a * m <= b * m
  {
  }
}
