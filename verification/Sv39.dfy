/** Physical memory as pages of 64-bit words. Page tables use the words; program text and data use their bytes,
    which lie in the words in little-endian order. */
module Memory {
  import opened Basics

  newtype byte = x: int | 0 <= x < 0x100

  const PAGE_SIZE: nat := 4096
  const ENTRIES: nat := 512        // PAGE_SIZE >> 3

  type Word = w: nat | w < WORD_LIMIT

  type Page = p: seq<Word> | |p| == ENTRIES witness seq(ENTRIES, _ => 0)

  /** Installed memory: the contents of each frame, by physical page number. */
  type Ram = map<nat, Page>

  function ZeroPage(): (p: Page)
    ensures forall i :: 0 <= i < ENTRIES ==> p[i] == 0
  {
    seq(ENTRIES, _ => 0)
  }

  /** Byte r of a word. */
  function WordByte(w: nat, r: nat): byte {
    if r == 0 then (w % 0x100) as byte else WordByte(w / 0x100, r - 1)
  }

  function SetWordByte(w: nat, r: nat, b: byte): nat {
    if r == 0 then w / 0x100 * 0x100 + b as nat else SetWordByte(w / 0x100, r - 1, b) * 0x100 + w % 0x100
  }

  lemma {:induction false} WordByteOfSet(w: nat, r: nat, b: byte, s: nat)
    ensures WordByte(SetWordByte(w, r, b), s) == if s == r then b else WordByte(w, s)
    decreases r
  {
    var v := SetWordByte(w, r, b);
    if r > 0 {
      assert v / 0x100 == SetWordByte(w / 0x100, r - 1, b) && v % 0x100 == w % 0x100;
      if s > 0 { WordByteOfSet(w / 0x100, r - 1, b, s - 1); }
    } else {
      assert v / 0x100 == w / 0x100;
    }
  }

  /** The number of values of k bytes. */
  function Capacity(k: nat): nat {
    if k == 0 then 1 else 0x100 * Capacity(k - 1)
  }

  lemma EightBytes()
    ensures Capacity(8) == WORD_LIMIT
  {
    assert Capacity(2) == 0x1_0000;
    assert Capacity(4) == 0x1_0000_0000;
    assert Capacity(6) == 0x1_0000_0000_0000;
  }

  lemma {:induction false} SetWordByteBound(w: nat, r: nat, b: byte, k: nat)
    requires r < k && w < Capacity(k)
    ensures SetWordByte(w, r, b) < Capacity(k)
    decreases k
  {
    var c := Capacity(k - 1);
    UpperBytes(w, c);
    if r > 0 {
      SetWordByteBound(w / 0x100, r - 1, b, k - 1);
      LowerByte(SetWordByte(w / 0x100, r - 1, b), w % 0x100, c);
    } else {
      LowerByte(w / 0x100, b as nat, c);
    }
  }

  lemma UpperBytes(w: nat, c: nat)
    requires w < 0x100 * c
    ensures w / 0x100 < c
  {
  }

  lemma LowerByte(q: nat, m: nat, c: nat)
    requires q < c && m < 0x100
    ensures q * 0x100 + m < 0x100 * c
  {
  }

  lemma SetWordByteFits(w: Word, r: nat, b: byte)
    requires r < 8
    ensures SetWordByte(w, r, b) < WORD_LIMIT
  {
    EightBytes();
    SetWordByteBound(w, r, b, 8);
  }

  /** A word is determined by its bytes; here, all of them zero. */
  lemma {:induction false} ZeroBytes(w: nat, k: nat)
    requires w < Capacity(k) && forall r: nat :: r < k ==> WordByte(w, r) == 0
    ensures w == 0
  {
    if k > 0 {
      assert WordByte(w, 0) == 0;
      forall r: nat | r < k - 1
        ensures WordByte(w / 0x100, r) == 0
      {
        assert WordByte(w, r + 1) == 0;
      }
      ZeroBytes(w / 0x100, k - 1);
    }
  }

  lemma AllBytesZero(p: Page)
    requires forall j: nat :: j < PAGE_SIZE ==> PageByte(p, j) == 0
    ensures p == ZeroPage()
  {
    forall i: nat | i < ENTRIES
      ensures p[i] == 0
    {
      forall r: nat | r < 8
        ensures WordByte(p[i], r) == 0
      {
        assert PageByte(p, 8 * i + r) == 0;
      }
      EightBytes();
      ZeroBytes(p[i], 8);
    }
  }

  /** Byte i of a page. */
  function PageByte(p: Page, i: nat): byte
    requires i < PAGE_SIZE
  {
    WordByte(p[i / 8], i % 8)
  }

  function SetPageByte(p: Page, i: nat, b: byte): Page
    requires i < PAGE_SIZE
  {
    SetWordByteFits(p[i / 8], i % 8, b);
    p[i / 8 := SetWordByte(p[i / 8], i % 8, b)]
  }

  /** A byte that is written is read back there and nowhere else. */
  lemma PageByteOfSet(p: Page, i: nat, b: byte, j: nat)
    requires i < PAGE_SIZE && j < PAGE_SIZE
    ensures PageByte(SetPageByte(p, i, b), j) == if j == i then b else PageByte(p, j)
  {
    if j / 8 == i / 8 {
      WordByteOfSet(p[i / 8], i % 8, b, j % 8);
      assert j % 8 == i % 8 <==> j == i;
    }
  }

  lemma {:induction false} ByteOfZero(r: nat)
    ensures WordByte(0, r) == 0
  {
    if r > 0 { ByteOfZero(r - 1); }
  }

  /** Entry i of the frame at page number a; a frame that is not installed reads as invalid entries. */
  function PteAt(ram: Ram, a: nat, i: nat): nat
    requires i < ENTRIES
  {
    if a in ram then ram[a][i] else 0
  }
}

/** Address translation as the processor performs it: the RISC-V Privileged Architecture v1.11, section 4.4 (Sv39)
    with the algorithm of section 4.3.2. Permission checks and the A and D bits are not modelled. */
module Sv39 {
  import opened Basics
  import opened Memory

  const PPN_LIMIT: nat := 0x1000_0000_0000      // 44 bits of physical page number
  const VPN_LIMIT: nat := 0x800_0000            // 27 bits of virtual page number take part in the walk
  datatype LoadResult = PageFault | Loaded(value: byte)

  datatype Translation = Fault | Frame(ppn: nat, flags: nat)

  predicate V(pte: nat) { pte % 2 == 1 }
  predicate R(pte: nat) { pte / 2 % 2 == 1 }
  predicate W(pte: nat) { pte / 4 % 2 == 1 }
  predicate X(pte: nat) { pte / 8 % 2 == 1 }

  function PpnOf(pte: nat): nat { pte / 0x400 % PPN_LIMIT }
  function FlagsOf(pte: nat): nat { pte % 0x400 }

  /** The index into the table of level i: bits 9i to 9i+8 of the virtual page number. */
  function VpnIndex(vpn: nat, i: nat): (r: nat)
    requires i <= 2
    ensures r < ENTRIES
  {
    if i == 2 then vpn / 0x4_0000 % ENTRIES else if i == 1 then vpn / 0x200 % ENTRIES else vpn % ENTRIES
  }

  /** Steps 2 to 8 of the algorithm, for the table at page number a on level i. */
  function WalkFrom(ram: Ram, a: nat, vpn: nat, i: nat): Translation
    requires i <= 2
    decreases i
  {
    var pte := PteAt(ram, a, VpnIndex(vpn, i));
    if !V(pte) || (!R(pte) && W(pte)) then Fault
    else if R(pte) || X(pte) then
      // a leaf; above level 0 a superpage, whose low page-number fields must be zero
      if i == 0 then Frame(PpnOf(pte), FlagsOf(pte))
      else if i == 1 then
        if PpnOf(pte) % 0x200 != 0 then Fault else Frame(PpnOf(pte) + vpn % 0x200, FlagsOf(pte))
      else
        if PpnOf(pte) % 0x4_0000 != 0 then Fault else Frame(PpnOf(pte) + vpn % 0x4_0000, FlagsOf(pte))
    else if i == 0 then Fault
    else WalkFrom(ram, PpnOf(pte), vpn, i - 1)
  }

  function Walk(ram: Ram, root: nat, vpn: nat): Translation {
    WalkFrom(ram, root, vpn, 2)
  }

  /** Bits 63 to 39 of a virtual address must equal bit 38; here on the 52-bit page number. */
  predicate CanonicalVpn(vpn: nat) {
    vpn < 0x400_0000 || 0x10_0000_0000_0000 - 0x400_0000 <= vpn < 0x10_0000_0000_0000
  }

  /** The byte a load from virtual address va sees. */
  function Load(ram: Ram, root: nat, va: nat): (b: LoadResult) {
    var vpn := va / PAGE_SIZE;
    if !CanonicalVpn(vpn) then PageFault
    else match Walk(ram, root, vpn % VPN_LIMIT)
      case Fault => PageFault
      case Frame(ppn, _) => if ppn in ram then Loaded(PageByte(ram[ppn], va % PAGE_SIZE)) else PageFault
  }

  // ----- the tree of tables -------------------------------------------------

  /** What a three-level table stands for: the tables by the index prefix that leads to them,
      and the last-level entries by virtual page number. */
  datatype Shape = Shape(root: nat, dir: map<nat, nat>, sub: map<nat, nat>, leaf: map<nat, nat>)

  /** The entry that points to the table stored under key k, or the empty entry. */
  function Pointer(tables: map<nat, nat>, k: nat): nat {
    if k in tables then tables[k] * 0x400 + 1 else 0
  }

  function LeafEntry(leaf: map<nat, nat>, k: nat): nat {
    if k in leaf then leaf[k] else 0
  }

  /** The keys of a shape are in range, every table has its parent, and no table is the root. */
  ghost predicate GoodDir(s: Shape, k: nat) {
    k in s.dir ==> k < 0x200 && s.dir[k] != s.root
  }

  ghost predicate GoodSub(s: Shape, k: nat) {
    k in s.sub ==> k < 0x4_0000 && k / 0x200 in s.dir && s.sub[k] != s.root
  }

  ghost predicate GoodLeaf(s: Shape, k: nat) {
    k in s.leaf ==> k < VPN_LIMIT && k / 0x200 in s.sub && 0 < s.leaf[k] < WORD_LIMIT
  }

  /** The tables with keys j and k are two frames: both middle, both last-level, or one of each. */
  ghost predicate TwoDirs(s: Shape, j: nat, k: nat) {
    j in s.dir && k in s.dir && j != k ==> s.dir[j] != s.dir[k]
  }

  ghost predicate TwoSubs(s: Shape, j: nat, k: nat) {
    j in s.sub && k in s.sub && j != k ==> s.sub[j] != s.sub[k]
  }

  ghost predicate DirAndSub(s: Shape, j: nat, k: nat) {
    j in s.dir && k in s.sub ==> s.dir[j] != s.sub[k]
  }

  /** Every table has its parent, and no frame serves as two tables. */
  ghost predicate IsTree(s: Shape) {
    && (forall k {:trigger GoodDir(s, k)} :: GoodDir(s, k))
    && (forall k {:trigger GoodSub(s, k)} :: GoodSub(s, k))
    && (forall k {:trigger GoodLeaf(s, k)} :: GoodLeaf(s, k))
    && (forall j, k {:trigger TwoDirs(s, j, k)} :: TwoDirs(s, j, k))
    && (forall j, k {:trigger TwoSubs(s, j, k)} :: TwoSubs(s, j, k))
    && (forall j, k {:trigger DirAndSub(s, j, k)} :: DirAndSub(s, j, k))
  }

  /** Frame t holds a table: it is installed and its number fits in an entry. */
  predicate Installed(ram: Ram, t: nat) { t in ram && t < PPN_LIMIT }

  /** Entry i of the root, of the middle table with key k, of the last-level table with key k. */
  ghost predicate RootEntry(ram: Ram, s: Shape, i: nat) {
    s.root in ram && i < ENTRIES && ram[s.root][i] == Pointer(s.dir, i)
  }

  ghost predicate DirEntry(ram: Ram, s: Shape, k: nat, i: nat) {
    k in s.dir && s.dir[k] in ram && i < ENTRIES && ram[s.dir[k]][i] == Pointer(s.sub, k * 0x200 + i)
  }

  ghost predicate SubEntry(ram: Ram, s: Shape, k: nat, i: nat) {
    k in s.sub && s.sub[k] in ram && i < ENTRIES && ram[s.sub[k]][i] == LeafEntry(s.leaf, k * 0x200 + i)
  }

  /** The pages in memory hold exactly the tables of the shape. */
  ghost predicate Represents(ram: Ram, s: Shape) {
    && IsTree(s)
    && Installed(ram, s.root)
    && (forall k <- s.dir :: Installed(ram, s.dir[k]))
    && (forall k <- s.sub :: Installed(ram, s.sub[k]))
    && (forall i: nat :: i < ENTRIES ==> RootEntry(ram, s, i))
    && (forall k, i: nat {:trigger DirEntry(ram, s, k, i)} :: k in s.dir && i < ENTRIES ==> DirEntry(ram, s, k, i))
    && (forall k, i: nat {:trigger SubEntry(ram, s, k, i)} :: k in s.sub && i < ENTRIES ==> SubEntry(ram, s, k, i))
  }

  /** How the processor understands a last-level entry. */
  function Meaning(pte: nat): Translation {
    if !V(pte) || (!R(pte) && W(pte)) || !(R(pte) || X(pte)) then Fault else Frame(PpnOf(pte), FlagsOf(pte))
  }

  lemma PointerEntry(ppn: nat)
    requires ppn < PPN_LIMIT
    ensures var pte := ppn * 0x400 + 1;
            V(pte) && !R(pte) && !W(pte) && !X(pte) && PpnOf(pte) == ppn && pte < WORD_LIMIT
  {
    var pte := ppn * 0x400 + 1;
    EntryParts(ppn, 1, pte);
    LowBits(pte, 1);
  }

  /** A page number and the flags below it, put together and taken apart. */
  lemma EntryParts(high: nat, flags: nat, pte: nat)
    requires pte == high * 0x400 + flags && flags < 0x400
    ensures pte / 0x400 == high && pte % 0x400 == flags
  {
  }

  /** The permission bits of an entry are those of its flags. */
  lemma LowBits(pte: nat, v: nat)
    requires v == pte % 0x400
    ensures V(pte) == V(v) && R(pte) == R(v) && W(pte) == W(v) && X(pte) == X(v)
  {
    var q := pte / 0x400;
    SameParity(0x200 * q, v, pte);
    HalfOf(0x200 * q, v, pte);
    SameParity(0x100 * q, v / 2, pte / 2);
    HalfOf(0x100 * q, v / 2, pte / 2);
    SameParity(0x80 * q, v / 4, pte / 4);
    HalfOf(0x80 * q, v / 4, pte / 4);
    SameParity(0x40 * q, v / 8, pte / 8);
  }

  lemma SameParity(m: nat, v: nat, x: nat)
    requires x == 2 * m + v
    ensures x % 2 == v % 2
  {
  }

  lemma HalfOf(m: nat, v: nat, x: nat)
    requires x == 2 * m + v
    ensures x / 2 == m + v / 2
    ensures x / 4 == x / 2 / 2 && x / 8 == x / 4 / 2 && v / 4 == v / 2 / 2 && v / 8 == v / 4 / 2
  {
  }

  lemma FollowPointer(ram: Ram, a: nat, vpn: nat, i: nat, next: nat)
    requires 1 <= i <= 2 && next < PPN_LIMIT && PteAt(ram, a, VpnIndex(vpn, i)) == next * 0x400 + 1
    ensures WalkFrom(ram, a, vpn, i) == WalkFrom(ram, next, vpn, i - 1)
  {
    PointerEntry(next);
  }

  /** The parts of a virtual page number fit together as table keys. */
  lemma KeysOfVpn(vpn: nat)
    requires vpn < VPN_LIMIT
    ensures var k2, k1 := vpn / 0x4_0000, vpn / 0x200;
            && k1 / 0x200 == k2 == VpnIndex(vpn, 2)
            && k2 * 0x200 + VpnIndex(vpn, 1) == k1 < 0x4_0000
            && k1 * 0x200 + VpnIndex(vpn, 0) == vpn
  {
  }

  /** The hardware walk over the tables computes exactly the partial map `leaf`. */
  lemma WalkIsLookup(ram: Ram, s: Shape, vpn: nat)
    requires Represents(ram, s) && vpn < VPN_LIMIT
    ensures Walk(ram, s.root, vpn) == if vpn in s.leaf then Meaning(s.leaf[vpn]) else Fault
  {
    var k2: nat, k1: nat := vpn / 0x4_0000, vpn / 0x200;
    KeysOfVpn(vpn);
    assert RootEntry(ram, s, VpnIndex(vpn, 2)) && GoodSub(s, k1) && GoodLeaf(s, vpn);
    if k2 in s.dir {
      assert DirEntry(ram, s, k2, VpnIndex(vpn, 1));
      FollowPointer(ram, s.root, vpn, 2, s.dir[k2]);
      if k1 in s.sub {
        FollowPointer(ram, s.dir[k2], vpn, 1, s.sub[k1]);
        LastLevel(ram, s, vpn);
      }
    }
  }

  lemma LastLevel(ram: Ram, s: Shape, vpn: nat)
    requires Represents(ram, s) && vpn < VPN_LIMIT && vpn / 0x200 in s.sub
    ensures WalkFrom(ram, s.sub[vpn / 0x200], vpn, 0) == if vpn in s.leaf then Meaning(s.leaf[vpn]) else Fault
  {
    var k1: nat, i := vpn / 0x200, VpnIndex(vpn, 0);
    KeysOfVpn(vpn);
    assert SubEntry(ram, s, k1, i);
    ReadLastLevel(ram, s.sub[k1], vpn);
  }

  lemma ReadLastLevel(ram: Ram, a: nat, vpn: nat)
    ensures WalkFrom(ram, a, vpn, 0) == Meaning(PteAt(ram, a, VpnIndex(vpn, 0)))
    ensures Meaning(0) == Fault
  {
  }
}
