/** How one write to physical memory changes what the page tables represent. */
module TableUpdates {
  import opened Basics
  import opened Memory
  import opened Sv39

  /** Frame t is none of the tables. */
  ghost predicate Unused(s: Shape, t: nat) {
    t != s.root && (forall k <- s.dir :: s.dir[k] != t) && (forall k <- s.sub :: s.sub[k] != t)
  }

  /** A page that is no table does not matter. */
  lemma WriteUnused(ram: Ram, s: Shape, t: nat, page: Page)
    requires Represents(ram, s) && Unused(s, t)
    ensures Represents(ram[t := page], s)
  {
    var ram' := ram[t := page];
    forall i: nat | i < ENTRIES
      ensures RootEntry(ram', s, i)
    {
      assert RootEntry(ram, s, i);
    }
    forall k, i: nat | k in s.dir && i < ENTRIES
      ensures DirEntry(ram', s, k, i)
    {
      assert DirEntry(ram, s, k, i);
    }
    forall k, i: nat | k in s.sub && i < ENTRIES
      ensures SubEntry(ram', s, k, i)
    {
      assert SubEntry(ram, s, k, i);
    }
  }

  /** Memory after entry i of table a has been written. */
  function Written(ram: Ram, a: nat, i: nat, pte: nat): Ram
    requires a in ram && i < ENTRIES && pte < WORD_LIMIT
  {
    ram[a := ram[a][i := pte]]
  }

  lemma SameKey(k: nat, i: nat, k': nat, i': nat)
    requires i < 0x200 && i' < 0x200
    ensures (k * 0x200 + i) / 0x200 == k
    ensures k * 0x200 + i == k' * 0x200 + i' <==> k == k' && i == i'
  {
  }

  /** A free, zeroed frame can become the table for an empty slot of the root ... */
  lemma AddDir(ram: Ram, s: Shape, k: nat, t: nat)
    requires Represents(ram, s) && k < 0x200 && k !in s.dir
    requires Unused(s, t) && Installed(ram, t) && ram[t] == ZeroPage()
    ensures Represents(Written(ram, s.root, k, t * 0x400 + 1), s.(dir := s.dir[k := t]))
  {
    var s' := s.(dir := s.dir[k := t]);
    var ram' := Written(ram, s.root, k, t * 0x400 + 1);
    forall i: nat | i < ENTRIES
      ensures RootEntry(ram', s', i)
    {
      RootAfter(ram, s, k, t, i);
    }
    forall k', i: nat | k' in s'.dir && i < ENTRIES
      ensures DirEntry(ram', s', k', i)
    {
      if k' == k { NewDirEntry(ram, s, k, t, i); } else { assert DirEntry(ram, s, k', i) && GoodDir(s, k'); }
    }
    forall k', i: nat | k' in s'.sub && i < ENTRIES
      ensures SubEntry(ram', s', k', i)
    {
      assert SubEntry(ram, s, k', i) && GoodSub(s, k');
    }
    NewDirTree(s, k, t);
  }

  lemma NewDirTree(s: Shape, k: nat, t: nat)
    requires IsTree(s) && k < 0x200 && k !in s.dir && Unused(s, t)
    ensures IsTree(s.(dir := s.dir[k := t]))
  {
    var u := s.(dir := s.dir[k := t]);
    forall j
      ensures GoodDir(u, j) && GoodSub(u, j) && GoodLeaf(u, j)
    {
      assert GoodDir(s, j) && GoodSub(s, j) && GoodLeaf(s, j);
    }
    forall i, j
      ensures TwoDirs(u, i, j) && TwoSubs(u, i, j) && DirAndSub(u, i, j)
    {
      assert TwoDirs(s, i, j) && TwoSubs(s, i, j) && DirAndSub(s, i, j);
    }
  }

  lemma RootAfter(ram: Ram, s: Shape, k: nat, t: nat, i: nat)
    requires Represents(ram, s) && k < 0x200 && i < ENTRIES && t < PPN_LIMIT
    ensures RootEntry(Written(ram, s.root, k, t * 0x400 + 1), s.(dir := s.dir[k := t]), i)
  {
    assert RootEntry(ram, s, i);
  }

  lemma NewDirEntry(ram: Ram, s: Shape, k: nat, t: nat, i: nat)
    requires Represents(ram, s) && k < 0x200 && k !in s.dir && i < ENTRIES
    requires Unused(s, t) && Installed(ram, t) && ram[t] == ZeroPage()
    ensures DirEntry(Written(ram, s.root, k, t * 0x400 + 1), s.(dir := s.dir[k := t]), k, i)
  {
    SameKey(k, i, k, i);
    assert GoodSub(s, k * 0x200 + i);
  }

  lemma NewSubEntry(ram: Ram, s: Shape, d: nat, i: nat, t: nat, j: nat)
    requires Represents(ram, s) && d in s.dir && s.dir[d] in ram && i < 0x200 && d * 0x200 + i !in s.sub && j < ENTRIES
    requires Unused(s, t) && Installed(ram, t) && ram[t] == ZeroPage()
    ensures SubEntry(Written(ram, s.dir[d], i, t * 0x400 + 1), s.(sub := s.sub[d * 0x200 + i := t]), d * 0x200 + i, j)
  {
    var k := d * 0x200 + i;
    SameKey(k, j, k, j);
    assert GoodLeaf(s, k * 0x200 + j);
  }

  /** ... and for an empty slot of a middle table. */
  lemma AddSub(ram: Ram, s: Shape, d: nat, i: nat, t: nat)
    requires Represents(ram, s) && d in s.dir && i < 0x200 && d * 0x200 + i !in s.sub
    requires Unused(s, t) && Installed(ram, t) && ram[t] == ZeroPage()
    ensures s.dir[d] in ram
    ensures Represents(Written(ram, s.dir[d], i, t * 0x400 + 1), s.(sub := s.sub[d * 0x200 + i := t]))
  {
    var k := d * 0x200 + i;
    var s' := s.(sub := s.sub[k := t]);
    assert Installed(ram, s.dir[d]);
    var ram' := Written(ram, s.dir[d], i, t * 0x400 + 1);
    NewSubTree(s, d, i, t);
    forall j: nat | j < ENTRIES
      ensures RootEntry(ram', s', j)
    {
      assert RootEntry(ram, s, j) && GoodDir(s, d);
    }
    forall k', j: nat | k' in s'.dir && j < ENTRIES
      ensures DirEntry(ram', s', k', j)
    {
      DirAfter(ram, s, d, i, t, k', j);
    }
    forall k', j: nat | k' in s'.sub && j < ENTRIES
      ensures SubEntry(ram', s', k', j)
    {
      if k' == k { NewSubEntry(ram, s, d, i, t, j); } else { assert SubEntry(ram, s, k', j) && DirAndSub(s, d, k'); }
    }
  }

  lemma NewSubTree(s: Shape, d: nat, i: nat, t: nat)
    requires IsTree(s) && d in s.dir && i < 0x200 && d * 0x200 + i !in s.sub && Unused(s, t)
    ensures IsTree(s.(sub := s.sub[d * 0x200 + i := t]))
  {
    var u := s.(sub := s.sub[d * 0x200 + i := t]);
    SameKey(d, i, d, i);
    assert GoodDir(s, d);
    forall j
      ensures GoodDir(u, j) && GoodSub(u, j) && GoodLeaf(u, j)
    {
      assert GoodDir(s, j) && GoodSub(s, j) && GoodLeaf(s, j);
    }
    forall i, j
      ensures TwoDirs(u, i, j) && TwoSubs(u, i, j) && DirAndSub(u, i, j)
    {
      assert TwoDirs(s, i, j) && TwoSubs(s, i, j) && DirAndSub(s, i, j);
    }
  }

  lemma DirAfter(ram: Ram, s: Shape, d: nat, i: nat, t: nat, k: nat, j: nat)
    requires Represents(ram, s) && d in s.dir && i < 0x200 && k in s.dir && j < ENTRIES
    requires Installed(ram, s.dir[d]) && t < PPN_LIMIT
    ensures DirEntry(Written(ram, s.dir[d], i, t * 0x400 + 1), s.(sub := s.sub[d * 0x200 + i := t]), k, j)
  {
    assert DirEntry(ram, s, k, j) && TwoDirs(s, k, d);
    SameKey(k, j, d, i);
  }

  /** A last-level entry that is written extends the partial map at exactly its page. */
  lemma AddLeaf(ram: Ram, s: Shape, k: nat, i: nat, pte: nat)
    requires Represents(ram, s) && k in s.sub && i < 0x200 && 0 < pte < WORD_LIMIT
    ensures s.sub[k] in ram
    ensures Represents(Written(ram, s.sub[k], i, pte), s.(leaf := s.leaf[k * 0x200 + i := pte]))
  {
    var s' := s.(leaf := s.leaf[k * 0x200 + i := pte]);
    assert Installed(ram, s.sub[k]);
    var ram' := Written(ram, s.sub[k], i, pte);
    NewLeafTree(s, k, i, pte);
    forall j: nat | j < ENTRIES
      ensures RootEntry(ram', s', j)
    {
      assert RootEntry(ram, s, j) && GoodSub(s, k);
    }
    forall k', j: nat | k' in s'.dir && j < ENTRIES
      ensures DirEntry(ram', s', k', j)
    {
      assert DirEntry(ram, s, k', j) && DirAndSub(s, k', k);
    }
    forall k', j: nat | k' in s'.sub && j < ENTRIES
      ensures SubEntry(ram', s', k', j)
    {
      SubAfter(ram, s, k, i, pte, k', j);
    }
  }

  lemma NewLeafTree(s: Shape, k: nat, i: nat, pte: nat)
    requires IsTree(s) && k in s.sub && i < 0x200 && 0 < pte < WORD_LIMIT
    ensures IsTree(s.(leaf := s.leaf[k * 0x200 + i := pte]))
  {
    var u := s.(leaf := s.leaf[k * 0x200 + i := pte]);
    SameKey(k, i, k, i);
    assert GoodSub(s, k);
    forall j
      ensures GoodDir(u, j) && GoodSub(u, j) && GoodLeaf(u, j)
    {
      assert GoodDir(s, j) && GoodSub(s, j) && GoodLeaf(s, j);
    }
    forall i, j
      ensures TwoDirs(u, i, j) && TwoSubs(u, i, j) && DirAndSub(u, i, j)
    {
      assert TwoDirs(s, i, j) && TwoSubs(s, i, j) && DirAndSub(s, i, j);
    }
  }

  lemma SubAfter(ram: Ram, s: Shape, k: nat, i: nat, pte: nat, k': nat, j: nat)
    requires Represents(ram, s) && k in s.sub && i < 0x200 && k' in s.sub && j < ENTRIES
    requires Installed(ram, s.sub[k]) && pte < WORD_LIMIT
    ensures SubEntry(Written(ram, s.sub[k], i, pte), s.(leaf := s.leaf[k * 0x200 + i := pte]), k', j)
  {
    assert SubEntry(ram, s, k', j) && TwoSubs(s, k, k');
    SameKey(k', j, k, i);
  }

  /** Two pages share a last-level slot exactly when they agree on the 27 bits that the walk looks at. */
  lemma SlotAgreement(s: Shape, u: nat, v: nat)
    requires IsTree(s) && u % VPN_LIMIT / 0x200 in s.sub && v % VPN_LIMIT / 0x200 in s.sub
    ensures (s.sub[u % VPN_LIMIT / 0x200], u % 0x200) == (s.sub[v % VPN_LIMIT / 0x200], v % 0x200)
            <==> u % VPN_LIMIT == v % VPN_LIMIT
  {
    assert TwoSubs(s, u % VPN_LIMIT / 0x200, v % VPN_LIMIT / 0x200);
    SplitVpn(u);
    SplitVpn(v);
  }

  lemma SplitVpn(v: nat)
    ensures v % VPN_LIMIT == v % VPN_LIMIT / 0x200 * 0x200 + v % 0x200
  {
  }
}

/** kernel/memory.c's allocFrame, and what the page-table code of kernel/mapping.c does to memory.
    Shifts and masks on usize appear as the multiplications, divisions and remainders that they are.
    The kernel reaches a physical frame through its linear mapping (AccessVaViaPa); methods here and in module
    Segments access the frame directly, which KernelSpace.EveryFrameMapsToItself justifies. */
module MappingState {
  import opened Basics
  import opened Memory
  import opened Sv39
  import opened TableUpdates
  import opened Frames

  /** KERNEL_PAGE_OFFSET and KERNEL_MAP_OFFSET. */
  const KERNEL_PAGE_OFFSET: nat := 0xf_ffff_fff0_0000
  const KERNEL_MAP_OFFSET: nat := 0xffff_ffff_0000_0000

  datatype Mapping = Mapping(rootPpn: nat)
  datatype Segment = Segment(startVaddr: nat, endVaddr: nat, flags: nat)
  datatype Slot = Slot(ppn: nat, index: nat)

  /** The panics of the mapping functions are outcomes; after a panic nothing runs any more. */
  datatype Outcome = Done | AlreadyMapped | OutOfMemory

  ghost predicate AllInstalled(ram: Ram, free: set<nat>) {
    forall q {:trigger Installed(ram, q)} :: q in free ==> Installed(ram, q)
  }

  /** Writing to installed frames and taking free ones leaves the rest of the free frames installed. */
  lemma StillInstalled(ram: Ram, free: set<nat>, ram': Ram, free': set<nat>)
    requires AllInstalled(ram, free) && free' <= free && ram'.Keys == ram.Keys
    ensures AllInstalled(ram', free')
  {
    forall q | q in free'
      ensures Installed(ram', q)
    {
      assert Installed(ram, q);
    }
  }

  /** The first i bytes of a page are zero. */
  ghost predicate ZeroedUpTo(p: Page, i: nat) {
    forall j: nat :: j < i && j < PAGE_SIZE ==> PageByte(p, j) == 0
  }

  lemma ZeroOneMore(p: Page, i: nat)
    requires ZeroedUpTo(p, i) && i < PAGE_SIZE
    ensures ZeroedUpTo(SetPageByte(p, i, 0), i + 1)
  {
    forall j: nat | j < i + 1
      ensures PageByte(SetPageByte(p, i, 0), j) == 0
    {
      PageByteOfSet(p, i, 0, j);
    }
  }
  
  class PhysicalMemory {
    const frames: FrameAllocator
    var ram: Ram

    /** Every frame that can be handed out is installed memory. */
    ghost predicate Valid()
      reads this, frames, frames.node
    {
      frames.Valid() && AllInstalled(ram, frames.free)
    }

    constructor (allocator: FrameAllocator, installed: Ram)
      requires allocator.Valid() && AllInstalled(installed, allocator.free)
      ensures Valid() && frames == allocator && ram == installed
    {
      frames := allocator;
      ram := installed;
    }

    /** `*entry = pte` for entry `index` of the table in frame `ppn`. */
    method WriteEntry(ppn: nat, index: nat, pte: nat)
      requires Valid() && ppn in ram && index < ENTRIES && pte < WORD_LIMIT
      modifies this`ram
      ensures Valid() && ram == Written(old(ram), ppn, index, pte)
    {
      StillInstalled(ram, frames.free, Written(ram, ppn, index, pte), frames.free);
      ram := Written(ram, ppn, index, pte);
    }

    /** `dst[i] = x` for byte i of frame `ppn`. */
    method WriteByte(ppn: nat, i: nat, x: byte)
      requires Valid() && ppn in ram && i < PAGE_SIZE
      modifies this`ram
      ensures Valid() && ram == old(ram)[ppn := SetPageByte(old(ram)[ppn], i, x)]
    {
      StillInstalled(ram, frames.free, ram[ppn := SetPageByte(ram[ppn], i, x)], frames.free);
      ram := ram[ppn := SetPageByte(ram[ppn], i, x)];
    }

    /** Hands out the address of the first free frame (page number q), zeroed byte by byte. */
    method AllocFrame() returns (r: Option<nat>, ghost q: nat)
      requires Valid()
      modifies this`ram, frames`free, frames.node
      ensures Valid()
      ensures r == None <==> old(frames.free) == {}
      ensures r == None ==> ram == old(ram) && frames.free == old(frames.free)
      ensures r.Some? ==> r.value == q * PAGE_SIZE && q in old(frames.free) && frames.free == old(frames.free) - {q}
      ensures r.Some? ==> forall f <- old(frames.free) :: q <= f
      ensures r.Some? ==> |frames.free| + 1 == |old(frames.free)|
      ensures r.Some? ==> ram == old(ram)[q := ZeroPage()]
    {
      q := 0;
      var a := frames.Alloc();
      if a == None {
        return None, q;
      }
      var ppn: nat := a.value;
      assert Installed(ram, ppn);
      StillInstalled(ram, old(frames.free), ram, frames.free);
      var i := 0;
      while i < PAGE_SIZE
        invariant 0 <= i <= PAGE_SIZE
        invariant ppn in ram && ram == old(ram)[ppn := ram[ppn]]
        invariant ZeroedUpTo(ram[ppn], i)
        invariant Valid() && frames.free == old(frames.free) - {ppn}
        modifies this`ram
      {
        ZeroOneMore(ram[ppn], i);
        WriteByte(ppn, i, 0);
        i := i + 1;
      }
      AllBytesZero(ram[ppn]);
      r, q := Some(ppn * PAGE_SIZE), ppn;
    }
  }

  // ----- what mapping does to memory, as a relation between states ----------

  /** Memory, the free frames, and the tables of one address space. */
  datatype State = State(ram: Ram, free: set<nat>, shape: Shape)

  /** Frame q is memory that may be handed out: none of the tables uses it. */
  ghost predicate FreeFrame(a: State, q: nat) {
    Installed(a.ram, q) && Unused(a.shape, q)
  }

  /** The address space is well formed in memory, and its tables are not up for allocation. */
  ghost predicate Sound(a: State) {
    Represents(a.ram, a.shape) && forall q {:trigger FreeFrame(a, q)} :: q in a.free ==> FreeFrame(a, q)
  }

  /** The table with key k has not moved, or is new and was a free frame. */
  ghost predicate KeepsTable(was: map<nat, nat>, now: map<nat, nat>, free: set<nat>, k: nat) {
    if k in was then k in now && now[k] == was[k] else k in now ==> now[k] in free
  }

  ghost predicate KeepsTables(was: map<nat, nat>, now: map<nat, nat>, free: set<nat>) {
    forall k {:trigger KeepsTable(was, now, free, k)} :: KeepsTable(was, now, free, k)
  }

  /** An installed frame that is neither free nor a table keeps its contents. */
  ghost predicate KeepsPage(a: State, b: State, q: nat) {
    q in a.ram && q !in a.free && Unused(a.shape, q) ==> q in b.ram && b.ram[q] == a.ram[q]
  }

  /** From a to b: no table moves, new tables come from free frames, and no other page is written. */
  ghost predicate Grown(a: State, b: State) {
    && b.free <= a.free && b.ram.Keys == a.ram.Keys && b.shape.root == a.shape.root
    && KeepsTables(a.shape.dir, b.shape.dir, a.free) && KeepsTables(a.shape.sub, b.shape.sub, a.free)
    && forall q {:trigger KeepsPage(a, b, q)} :: KeepsPage(a, b, q)
  }

  lemma GrownTransitive(a: State, b: State, c: State)
    requires Grown(a, b) && Grown(b, c)
    ensures Grown(a, c)
  {
    TablesKeptTransitive(a.shape.dir, b.shape.dir, c.shape.dir, a.free, b.free);
    TablesKeptTransitive(a.shape.sub, b.shape.sub, c.shape.sub, a.free, b.free);
    forall q
      ensures KeepsPage(a, c, q)
    {
      assert KeepsPage(a, b, q) && KeepsPage(b, c, q);
      if q in a.ram && q !in a.free && Unused(a.shape, q) { StillUnused(a, b, q); }
    }
  }

  lemma TablesKeptTransitive(m: map<nat, nat>, n: map<nat, nat>, o: map<nat, nat>, free: set<nat>, free': set<nat>)
    requires KeepsTables(m, n, free) && KeepsTables(n, o, free') && free' <= free
    ensures KeepsTables(m, o, free)
  {
    forall k
      ensures KeepsTable(m, o, free, k)
    {
      assert KeepsTable(m, n, free, k) && KeepsTable(n, o, free', k);
    }
  }

  /** A frame that was neither free nor a table does not become a table. */
  lemma StillUnused(a: State, b: State, q: nat)
    requires Grown(a, b) && q !in a.free && Unused(a.shape, q)
    ensures Unused(b.shape, q)
  {
    forall k <- b.shape.dir
      ensures b.shape.dir[k] != q
    {
      assert KeepsTable(a.shape.dir, b.shape.dir, a.free, k);
    }
    forall k <- b.shape.sub
      ensures b.shape.sub[k] != q
    {
      assert KeepsTable(a.shape.sub, b.shape.sub, a.free, k);
    }
  }

  /** Memory is in state a. */
  ghost predicate In(mem: PhysicalMemory, a: State)
    reads mem, mem.frames, mem.frames.node
  {
    mem.Valid() && mem.ram == a.ram && mem.frames.free == a.free
  }

  /** The table with key `key` on level 2 (the root), 1 or 0. */
  ghost predicate TableAt(s: Shape, level: nat, key: nat, table: nat) {
    if level == 2 then key == 0 && table == s.root
    else if level == 1 then key in s.dir && table == s.dir[key]
    else key in s.sub && table == s.sub[key]
  }

  /** The shape after `table` has been hung below level `level` under `key`. */
  ghost function Hang(s: Shape, level: nat, key: nat, table: nat): Shape {
    if level == 2 then s.(dir := s.dir[key := table]) else s.(sub := s.sub[key := table])
  }

  ghost predicate HasTable(s: Shape, level: nat, key: nat) {
    if level == 2 then key in s.dir else key in s.sub
  }

  /** The state after fresh frame q, zeroed, has been hung into entry `index` of `table`. */
  ghost function Hung(a: State, level: nat, key: nat, table: nat, index: nat, q: nat): State
    requires table in a.ram && index < ENTRIES && q < PPN_LIMIT
  {
    State(Written(a.ram[q := ZeroPage()], table, index, q * 0x400 + 1), a.free - {q},
          Hang(a.shape, level, key * 0x200 + index, q))
  }

  /** Hanging a fresh table keeps the address space sound and adds nothing else: below the root ... */
  lemma HangDir(a: State, index: nat, q: nat)
    requires Sound(a) && q < PPN_LIMIT && index < ENTRIES && q in a.free && index !in a.shape.dir
    ensures a.shape.root in a.ram
    ensures var b := Hung(a, 2, 0, a.shape.root, index, q);
            Sound(b) && Grown(a, b)
  {
    HangDirSound(a, index, q);
    assert FreeFrame(a, q);
    HangDirGrown(a, index, q);
  }

  lemma HangDirSound(a: State, index: nat, q: nat)
    requires Sound(a) && q < PPN_LIMIT && index < ENTRIES && q in a.free && index !in a.shape.dir
    ensures a.shape.root in a.ram && Sound(Hung(a, 2, 0, a.shape.root, index, q))
  {
    var s := a.shape;
    assert FreeFrame(a, q);
    WriteUnused(a.ram, s, q, ZeroPage());
    AddDir(a.ram[q := ZeroPage()], s, index, q);
    StillFree(a, Hung(a, 2, 0, s.root, index, q), q);
  }

  lemma HangDirGrown(a: State, index: nat, q: nat)
    requires a.shape.root in a.ram && q in a.ram && index < ENTRIES && q in a.free && index !in a.shape.dir && q < PPN_LIMIT
    ensures var b := Hung(a, 2, 0, a.shape.root, index, q);
            Grown(a, b)
  {
    var b := Hung(a, 2, 0, a.shape.root, index, q);
    forall f
      ensures KeepsPage(a, b, f) && KeepsTable(a.shape.dir, b.shape.dir, a.free, f)
      ensures KeepsTable(a.shape.sub, b.shape.sub, a.free, f)
    {
    }
  }

  /** ... and below a middle table. */
  lemma HangSub(a: State, key: nat, index: nat, q: nat)
    requires Sound(a) && q < PPN_LIMIT && key in a.shape.dir && index < ENTRIES && q in a.free && key * 0x200 + index !in a.shape.sub
    ensures a.shape.dir[key] in a.ram
    ensures var b := Hung(a, 1, key, a.shape.dir[key], index, q);
            Sound(b) && Grown(a, b)
  {
    HangSubSound(a, key, index, q);
    assert FreeFrame(a, q);
    HangSubGrown(a, key, index, q);
  }

  lemma HangSubSound(a: State, key: nat, index: nat, q: nat)
    requires Sound(a) && q < PPN_LIMIT && key in a.shape.dir && index < ENTRIES && q in a.free && key * 0x200 + index !in a.shape.sub
    ensures a.shape.dir[key] in a.ram && Sound(Hung(a, 1, key, a.shape.dir[key], index, q))
  {
    var s := a.shape;
    assert FreeFrame(a, q) && Installed(a.ram, s.dir[key]);
    WriteUnused(a.ram, s, q, ZeroPage());
    AddSub(a.ram[q := ZeroPage()], s, key, index, q);
    StillFree(a, Hung(a, 1, key, s.dir[key], index, q), q);
  }

  lemma HangSubGrown(a: State, key: nat, index: nat, q: nat)
    requires key in a.shape.dir && a.shape.dir[key] in a.ram && q in a.ram && index < ENTRIES && q in a.free
    requires key * 0x200 + index !in a.shape.sub && q < PPN_LIMIT
    ensures var b := Hung(a, 1, key, a.shape.dir[key], index, q);
            Grown(a, b)
  {
    var b := Hung(a, 1, key, a.shape.dir[key], index, q);
    forall f
      ensures KeepsPage(a, b, f) && KeepsTable(a.shape.dir, b.shape.dir, a.free, f)
      ensures KeepsTable(a.shape.sub, b.shape.sub, a.free, f)
    {
    }
  }

  /** When q has become the only new table, the other free frames are still free. */
  lemma StillFree(a: State, b: State, q: nat)
    requires Sound(a) && b.free == a.free - {q} && b.ram.Keys == a.ram.Keys && b.shape.root == a.shape.root
    requires forall k <- b.shape.dir :: b.shape.dir[k] == q || (k in a.shape.dir && b.shape.dir[k] == a.shape.dir[k])
    requires forall k <- b.shape.sub :: b.shape.sub[k] == q || (k in a.shape.sub && b.shape.sub[k] == a.shape.sub[k])
    ensures forall f {:trigger FreeFrame(b, f)} :: f in b.free ==> FreeFrame(b, f)
  {
    forall f | f in b.free
      ensures FreeFrame(b, f)
    {
      assert FreeFrame(a, f);
    }
  }
}
