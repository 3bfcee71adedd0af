/** Consecutive runs of pages put together, and what a run costs in tables. */
module PageRuns {
  import opened Basics
  import opened Memory
  import opened Sv39
  import opened TableUpdates
  import opened MappingState
  import opened Segments

  lemma {:induction false} AddPagesAppend(leaf: map<nat, nat>, start: nat, u: seq<nat>, v: seq<nat>)
    ensures AddPages(leaf, start, u + v) == AddPages(AddPages(leaf, start, u), start + |u|, v)
    decreases |v|
  {
    if v == [] {
      assert u + v == u;
    } else {
      var n := |v| - 1;
      AddPagesAppend(leaf, start, u, v[..n]);
      assert (u + v)[..|u| + n] == u + v[..n];
    }
  }

  lemma DirKeyUsedAppend(start: nat, m: nat, rest: nat, n: nat, k: nat)
    requires rest == start + m
    ensures DirKeyUsed(start, m + n, k) <==> DirKeyUsed(start, m, k) || DirKeyUsed(rest, n, k)
  {
    if i: nat :| i < m + n && DirKeyAt(start, i) == k {
      if m <= i { assert DirKeyAt(rest, i - m) == k; }
    }
    if i: nat :| i < n && DirKeyAt(rest, i) == k {
      assert DirKeyAt(start, m + i) == k;
    }
    if i: nat :| i < m && DirKeyAt(start, i) == k {
      assert i < m + n;
    }
  }

  lemma SubKeyUsedAppend(start: nat, m: nat, rest: nat, n: nat, k: nat)
    requires rest == start + m
    ensures SubKeyUsed(start, m + n, k) <==> SubKeyUsed(start, m, k) || SubKeyUsed(rest, n, k)
  {
    if i: nat :| i < m + n && SubKeyAt(start, i) == k {
      if m <= i { assert SubKeyAt(rest, i - m) == k; }
    }
    if i: nat :| i < n && SubKeyAt(rest, i) == k {
      assert SubKeyAt(start, m + i) == k;
    }
    if i: nat :| i < m && SubKeyAt(start, i) == k {
      assert i < m + n;
    }
  }

  lemma TablesAtAppend(s: Shape, t: Shape, start: nat, m: nat, rest: nat, i: nat)
    requires DirKeysAdded(s, t, start, m) && SubKeysAdded(s, t, start, m) && rest == start + m
    ensures TablesAt(s, start, m + i) == TablesAt(t, rest, i)
  {
    var dk, sk := DirKeyAt(start, m + i), SubKeyAt(start, m + i);
    assert dk == DirKeyAt(rest, i) && sk == SubKeyAt(rest, i);
    DirKeyUsedAppend(start, m, rest, i, dk);
    SubKeyUsedAppend(start, m, rest, i, sk);
    assert dk in t.dir <==> dk in s.dir || DirKeyUsed(start, m, dk);
    assert sk in t.sub <==> sk in s.sub || SubKeyUsed(start, m, sk);
  }

  ghost predicate SameTablesAt(s: Shape, t: Shape, start: nat, m: nat, rest: nat, i: nat) {
    TablesAt(s, start, m + i) == TablesAt(t, rest, i)
  }

  lemma {:induction false} CountsAppend(s: Shape, t: Shape, start: nat, m: nat, rest: nat, n: nat)
    requires forall i: nat {:trigger SameTablesAt(s, t, start, m, rest, i)} :: SameTablesAt(s, t, start, m, rest, i)
    ensures NewTables(s, start, m + n) == NewTables(s, start, m) + NewTables(t, rest, n)
    decreases n
  {
    if n > 0 {
      CountsAppend(s, t, start, m, rest, n - 1);
      assert SameTablesAt(s, t, start, m, rest, n - 1);
    }
  }

  /** The tables a run of pages needs can be counted part by part. */
  lemma NewTablesAppend(s: Shape, t: Shape, start: nat, m: nat, rest: nat, n: nat)
    requires DirKeysAdded(s, t, start, m) && SubKeysAdded(s, t, start, m) && rest == start + m
    ensures NewTables(s, start, m + n) == NewTables(s, start, m) + NewTables(t, rest, n)
  {
    forall i: nat
      ensures SameTablesAt(s, t, start, m, rest, i)
    {
      TablesAtAppend(s, t, start, m, rest, i);
    }
    CountsAppend(s, t, start, m, rest, n);
  }

  lemma NoClashAppend(leaf: map<nat, nat>, start: nat, u: seq<nat>, rest: nat, n: nat)
    requires NoClash(leaf, start, |u|) && NoClash(AddPages(leaf, start, u), rest, n)
    requires rest == start + |u| && |u| + n <= VPN_LIMIT
    ensures NoClash(leaf, start, |u| + n)
  {
    AddPagesLookup(leaf, start, u);
    forall i: nat | i < |u| + n
      ensures PageKey(start, i) !in leaf
    {
      if |u| <= i { assert PageKey(rest, i - |u|) == PageKey(start, i); }
    }
  }

  /** Conversely, the pages behind a mapped part of a run do not clash with it. */
  lemma RestDoesNotClash(leaf: map<nat, nat>, start: nat, u: seq<nat>, rest: nat, n: nat)
    requires NoClash(leaf, start, |u| + n) && rest == start + |u|
    ensures NoClash(AddPages(leaf, start, u), rest, n)
  {
    AddPagesLookup(leaf, start, u);
    forall i: nat | i < n
      ensures PageKey(rest, i) !in AddPages(leaf, start, u)
    {
      assert PageKey(rest, i) == PageKey(start, |u| + i);
      forall j: nat | j < |u|
        ensures PageKey(start, j) != PageKey(start, |u| + i)
      {
        DistinctPages(start, j, |u| + i);
      }
    }
  }

  lemma KeysAppend(s: Shape, t: Shape, u: Shape, start: nat, m: nat, rest: nat, n: nat)
    requires DirKeysAdded(s, t, start, m) && SubKeysAdded(s, t, start, m) && rest == start + m
    requires DirKeysAdded(t, u, rest, n) && SubKeysAdded(t, u, rest, n)
    ensures DirKeysAdded(s, u, start, m + n) && SubKeysAdded(s, u, start, m + n)
  {
    forall k
      ensures k in u.dir <==> k in s.dir || DirKeyUsed(start, m + n, k)
      ensures k in u.sub <==> k in s.sub || SubKeyUsed(start, m + n, k)
    {
      DirKeyUsedAppend(start, m, rest, n, k);
      SubKeyUsedAppend(start, m, rest, n, k);
      assert k in t.dir <==> k in s.dir || DirKeyUsed(start, m, k);
      assert k in t.sub <==> k in s.sub || SubKeyUsed(start, m, k);
    }
  }

  lemma MapsAppend(a: State, b: State, c: State, start: nat, u: seq<nat>, rest: nat, v: seq<nat>, taken: nat, more: nat)
    requires MapsPages(a, b, start, u, taken) && MapsPages(b, c, rest, v, more)
    requires rest == start + |u| && |u| + |v| <= VPN_LIMIT
    ensures MapsPages(a, c, start, u + v, taken + more)
  {
    GrownTransitive(a, b, c);
    HoldsAppend(a, b, c, start, u, rest, v, taken, more);
  }

  lemma HoldsAppend(a: State, b: State, c: State, start: nat, u: seq<nat>, rest: nat, v: seq<nat>, taken: nat, more: nat)
    requires HoldsPages(a, b, start, u, taken) && HoldsPages(b, c, rest, v, more)
    requires rest == start + |u| && |u| + |v| <= VPN_LIMIT
    ensures HoldsPages(a, c, start, u + v, taken + more)
  {
    ShapesAppend(a.shape, b.shape, c.shape, start, u, rest, v);
    assert |u + v| == |u| + |v|;
    TablesOfBoth(a.shape, b.shape, start, |u|, rest, |v|, |u + v|);
  }

  lemma ShapesAppend(s: Shape, t: Shape, r: Shape, start: nat, u: seq<nat>, rest: nat, v: seq<nat>)
    requires NoClash(s.leaf, start, |u|) && t.leaf == AddPages(s.leaf, start, u)
    requires NoClash(t.leaf, rest, |v|) && r.leaf == AddPages(t.leaf, rest, v)
    requires DirKeysAdded(s, t, start, |u|) && SubKeysAdded(s, t, start, |u|)
    requires DirKeysAdded(t, r, rest, |v|) && SubKeysAdded(t, r, rest, |v|)
    requires rest == start + |u| && |u| + |v| <= VPN_LIMIT
    ensures NoClash(s.leaf, start, |u + v|) && r.leaf == AddPages(s.leaf, start, u + v)
    ensures DirKeysAdded(s, r, start, |u + v|) && SubKeysAdded(s, r, start, |u + v|)
  {
    assert |u + v| == |u| + |v|;
    NoClashAppend(s.leaf, start, u, rest, |v|);
    AddPagesAppend(s.leaf, start, u, v);
    KeysAppend(s, t, r, start, |u|, rest, |v|);
  }

  lemma TablesOfBoth(s: Shape, t: Shape, start: nat, m: nat, rest: nat, n: nat, all: nat)
    requires DirKeysAdded(s, t, start, m) && SubKeysAdded(s, t, start, m) && rest == start + m && m + n == all
    ensures NewTables(s, start, all) == NewTables(s, start, m) + NewTables(t, rest, n)
  {
    assert NewTables(s, start, m + n) == NewTables(s, start, m) + NewTables(t, rest, n) by { NewTablesAppend(s, t, start, m, rest, n); }
    SameTables(s, start, m + n, all);
  }

  lemma SameTables(s: Shape, start: nat, m: nat, n: nat)
    requires m == n
    ensures NewTables(s, start, m) == NewTables(s, start, n)
  {
  }

  lemma PagesJoin(p: Progress, q: Progress)
    requires q.a == p.b && q.start == p.start + |p.ptes| && |p.ptes| + |q.ptes| <= VPN_LIMIT
    ensures MapsPages(p.a, q.b, p.start, p.ptes + q.ptes, |p.frames + q.frames|)
  {
    assert Maps(p, 0) && Maps(q, 0);
    MapsAppend(p.a, p.b, q.b, p.start, p.ptes, q.start, q.ptes, |p.frames|, |q.frames|);
  }

  lemma FramesOfBoth(p: Progress, q: Progress)
    requires q.a == p.b
    ensures FramesHold(p.a, q.b, p.frames + q.frames, p.pages + q.pages)
  {
    assert Maps(p, 0) && Maps(q, 0);
    FramesJoin(p.a, p.b, q.b, p.frames, p.pages, q.frames, q.pages);
  }

  /** Two mappings of adjacent runs of pages, one after the other, are one mapping of the whole run. */
  ghost function Joined(p: Progress, q: Progress): Progress
    requires q.a == p.b && q.start == p.start + |p.ptes| && |p.ptes| + |q.ptes| <= VPN_LIMIT
  {
    PagesJoin(p, q);
    FramesOfBoth(p, q);
    Progress(p.a, q.b, p.start, p.ptes + q.ptes, p.frames + q.frames, p.pages + q.pages)
  }

  /** Keys in a run that starts at a table boundary and stays inside one middle table. */
  lemma KeysInRun(start: nat, i: nat)
    requires start % 0x200 == 0 && start % 0x4_0000 + i < 0x4_0000
    ensures DirKeyAt(start, i) == DirKey(start)
    ensures SubKeyAt(start, i) == SubKey(start) + i / 0x200
  {
    var q, r := start / 0x4_0000, start % 0x4_0000;
    SameTable(q, r + i, start + i);
    RestOfVpn(q, r, start);
    RestOfVpn(q, r + i, start + i);
    AddAligned(0x200 * (q % 0x200), r, i, q % 0x200 * 0x4_0000 + r);
  }

  lemma SameTable(q: nat, r: nat, vpn: nat)
    requires vpn == q * 0x4_0000 + r && r < 0x4_0000
    ensures vpn / 0x4_0000 == q
  {
  }

  lemma AddAligned(c: nat, r: nat, i: nat, x: nat)
    requires x == c * 0x200 + r && r % 0x200 == 0
    ensures (x + i) / 0x200 == x / 0x200 + i / 0x200
  {
  }

  lemma RestOfVpn(q: nat, r: nat, vpn: nat)
    requires vpn == q * 0x4_0000 + r && r < 0x4_0000
    ensures vpn % VPN_LIMIT == q % 0x200 * 0x4_0000 + r
  {
    Remainder(q / 0x200, q % 0x200 * 0x4_0000 + r, vpn);
  }

  lemma Remainder(c: nat, x: nat, vpn: nat)
    requires vpn == c * VPN_LIMIT + x && x < VPN_LIMIT
    ensures vpn % VPN_LIMIT == x
  {
  }

  lemma UsedInRun(start: nat, n: nat)
    requires start % 0x200 == 0 && start % 0x4_0000 + n < 0x4_0000
    ensures DirKeyUsed(start, n, DirKeyAt(start, n)) <==> n > 0
    ensures SubKeyUsed(start, n, SubKeyAt(start, n)) <==> n % 0x200 != 0
  {
    KeysInRun(start, n);
    forall i: nat | i < n
      ensures DirKeyAt(start, i) == DirKey(start) && SubKeyAt(start, i) == SubKey(start) + i / 0x200
    {
      KeysInRun(start, i);
    }
    if n > 0 { assert DirKeyAt(start, 0) == DirKeyAt(start, n); }
    if n % 0x200 != 0 {
      var j: nat := n - 1;
      assert SubKeyAt(start, j) == SubKeyAt(start, n);
    } else {
      forall i: nat | i < n
        ensures SubKeyAt(start, i) != SubKeyAt(start, n)
      {
        assert i / 0x200 < n / 0x200;
      }
    }
  }

  /** In an empty address space such a run costs one middle table and one last-level table per 512 pages. */
  lemma {:induction false} TablesForRun(s: Shape, start: nat, n: nat)
    requires s.dir == map[] && s.sub == map[]
    requires start % 0x200 == 0 && start % 0x4_0000 + n <= 0x4_0000
    ensures NewTables(s, start, n) == One(n > 0) + (n + 0x1ff) / 0x200
    decreases n
  {
    if n > 0 {
      TablesForRun(s, start, n - 1);
      UsedInRun(start, n - 1);
      assert (n + 0x1ff) / 0x200 == (n - 1 + 0x1ff) / 0x200 + One((n - 1) % 0x200 == 0);
    }
  }
}

/** The kernel's own part of an address space: newMapping, newKernelMapping and accessVaViaPa of kernel/mapping.c,
    and the frame allocator as initMemory of kernel/memory.c sets it up. */
module KernelSpace {
  import opened Basics
  import opened Memory
  import opened Sv39
  import opened TableUpdates
  import opened Frames
  import opened MappingState
  import opened Segments
  import opened PageRuns
  import opened AddressTranslation

  const MEMORY_END_PADDR: nat := 0x8800_0000
  const KERNEL_BEGIN_VADDR: nat := 0xffff_ffff_8020_0000

  const READABLE: nat := 2
  const WRITABLE: nat := 4
  const EXECUTABLE: nat := 8

  /** The symbols of the linker script that delimit the sections of the kernel. */
  datatype Symbols = Symbols(text: nat, rodata: nat, data: nat, bss: nat, end: nat)

  predicate PageAligned(va: nat) { va % PAGE_SIZE == 0 }

  /** What kernel.ld guarantees, for a kernel that fits in memory. */
  predicate Linked(s: Symbols) {
    && s.text == KERNEL_BEGIN_VADDR
    && PageAligned(s.rodata) && PageAligned(s.data) && PageAligned(s.bss) && PageAligned(s.end)
    && s.text <= s.rodata <= s.data <= s.bss <= s.end <= MEMORY_END_PADDR + KERNEL_MAP_OFFSET
  }

  /** The kernel's virtual address for a physical one. */
  function AccessVaViaPa(pa: nat): nat { (pa + KERNEL_MAP_OFFSET) % WORD_LIMIT }

  /** initMemory's allocator: the free frames are those wholly between the end of the kernel and the end of memory,
      apart from the first and the last of them. */
  method InitFrameAllocator(s: Symbols) returns (frames: FrameAllocator)
    requires Linked(s) && s.end < MEMORY_END_PADDR + KERNEL_MAP_OFFSET
    ensures fresh(frames) && fresh(frames.node) && frames.Valid()
    ensures forall q: nat :: q in frames.free <==>
              (q - 1) * 4096 >= s.end - 0xffff_ffff_0000_0000 && (q + 2) * 4096 <= 0x8800_0000
  {
    frames := new FrameAllocator();
    frames.NewAllocator((s.end - KERNEL_MAP_OFFSET) / PAGE_SIZE + 1, MEMORY_END_PADDR / PAGE_SIZE);
    assert forall q: nat :: q in frames.free <==>
             (s.end - KERNEL_MAP_OFFSET) / PAGE_SIZE + 1 <= q < MEMORY_END_PADDR / PAGE_SIZE - 1;
  }

  // ----- newMapping ---------------------------------------------------------------

  /** An address space that consists of a root table in frame q. */
  ghost function RootOnly(ram: Ram, free: set<nat>, q: nat): State {
    State(ram[q := ZeroPage()], free - {q}, Shape(q, map[], map[], map[]))
  }

  lemma RootIsSound(ram: Ram, free: set<nat>, q: nat)
    requires AllInstalled(ram, free) && q in free
    ensures Sound(RootOnly(ram, free, q))
  {
    var a := RootOnly(ram, free, q);
    assert Installed(ram, q);
    forall i: nat | i < ENTRIES
      ensures RootEntry(a.ram, a.shape, i)
    {
    }
    forall f | f in a.free
      ensures FreeFrame(a, f)
    {
      assert Installed(ram, f);
    }
  }

  method NewMapping(mem: PhysicalMemory) returns (m: Option<Mapping>, ghost a: State)
    requires mem.Valid()
    modifies mem`ram, mem.frames`free, mem.frames.node
    ensures m == None <==> old(mem.frames.free) == {}
    ensures m.Some? ==> m.value.rootPpn in old(mem.frames.free) && |a.free| + 1 == |old(mem.frames.free)|
    ensures m.Some? ==> In(mem, a) && Sound(a) && a == RootOnly(old(mem.ram), old(mem.frames.free), m.value.rootPpn)
  {
    ghost var ram, free := mem.ram, mem.frames.free;
    var rootPaddr, q := mem.AllocFrame();
    a := RootOnly(ram, free, q);
    if rootPaddr == None {
      return None, a;
    }
    RootIsSound(ram, free, q);
    m := Some(Mapping(rootPaddr.value / PAGE_SIZE));
  }

  // ----- newKernelMapping ---------------------------------------------------------

  function StartPage(): nat { KERNEL_BEGIN_VADDR / PAGE_SIZE }
  const KERNEL_PAGES: nat := 0x7e00
  const KERNEL_TABLES: nat := 64

  /** The permissions of the section that a page belongs to. */
  function SectionFlags(s: Symbols, vpn: nat): nat {
    if vpn < s.rodata / PAGE_SIZE then 1 + READABLE + EXECUTABLE
    else if vpn < s.data / PAGE_SIZE then 1 + READABLE
    else 1 + READABLE + WRITABLE
  }

  ghost predicate EntryFor(s: Symbols, ptes: seq<nat>, i: nat) {
    i < |ptes| ==> ptes[i] == LinearPte(StartPage() + i, SectionFlags(s, StartPage() + i))
  }

  /** The mapping, so far, is the kernel's: page after page from the start of text, linear, with the section's flags. */
  ghost predicate KernelPages(s: Symbols, p: Progress) {
    && p.start == StartPage() && p.frames == []
    && forall i: nat {:trigger EntryFor(s, p.ptes, i)} :: EntryFor(s, p.ptes, i)
  }

  /** An address space without any table but the root. */
  ghost predicate Empty(a: State) {
    a.shape.dir == map[] && a.shape.sub == map[] && a.shape.leaf == map[]
  }

  lemma EndOfAligned(segment: Segment)
    requires segment.endVaddr % PAGE_SIZE == 0 && segment.endVaddr > 0
    ensures EndVpn(segment) == segment.endVaddr / PAGE_SIZE
  {
  }

  /** The five segments that newKernelMapping maps. */
  predicate IsSection(s: Symbols, segment: Segment) {
    || segment == Segment(s.text, s.rodata, 1 + READABLE + EXECUTABLE)
    || segment == Segment(s.rodata, s.data, 1 + READABLE)
    || segment == Segment(s.data, s.bss, 1 + READABLE + WRITABLE)
    || segment == Segment(s.bss, s.end, 1 + READABLE + WRITABLE)
    || segment == Segment(s.end, MEMORY_END_PADDR + KERNEL_MAP_OFFSET, 1 + READABLE + WRITABLE)
  }

  lemma FlagsOfSection(s: Symbols, segment: Segment, vpn: nat)
    requires Linked(s) && IsSection(s, segment) && segment.startVaddr / PAGE_SIZE <= vpn < segment.endVaddr / PAGE_SIZE
    ensures SectionFlags(s, vpn) == segment.flags
  {
  }

  lemma SectionEntries(s: Symbols, ptes: seq<nat>, segment: Segment, n: nat)
    requires Linked(s) && IsSection(s, segment)
    requires segment.startVaddr / PAGE_SIZE == StartPage() + |ptes| && StartPage() + |ptes| + n == segment.endVaddr / PAGE_SIZE
    requires forall i: nat {:trigger EntryFor(s, ptes, i)} :: EntryFor(s, ptes, i)
    ensures var all := ptes + LinearPtes(StartPage() + |ptes|, n, segment.flags);
            forall i: nat {:trigger EntryFor(s, all, i)} :: EntryFor(s, all, i)
  {
    var more := LinearPtes(StartPage() + |ptes|, n, segment.flags);
    forall i: nat
      ensures EntryFor(s, ptes + more, i)
    {
      if i < |ptes| {
        assert EntryFor(s, ptes, i);
      } else if i < |ptes| + n {
        LinearPtesAt(StartPage() + |ptes|, n, segment.flags, i - |ptes|);
        FlagsOfSection(s, segment, StartPage() + i);
        assert (ptes + more)[i] == more[i - |ptes|];
      }
    }
  }

  /** A section mapped behind the others. */
  lemma SectionBehind(s: Symbols, p: Progress, q: Progress, segment: Segment) returns (p': Progress)
    requires Linked(s) && IsSection(s, segment) && KernelPages(s, p) && q.a == p.b && q.start == p.start + |p.ptes| && q.frames == []
    requires segment.startVaddr / PAGE_SIZE == q.start && q.start + PageCount(segment) == segment.endVaddr / PAGE_SIZE
    requires q.ptes == LinearPtes(q.start, PageCount(segment), segment.flags) && |p.ptes| + |q.ptes| <= VPN_LIMIT
    ensures p'.a == p.a && p'.b == q.b && KernelPages(s, p') && StartPage() + |p'.ptes| == segment.endVaddr / PAGE_SIZE
  {
    SectionEntries(s, p.ptes, segment, PageCount(segment));
    p' := Joined(p, q);
  }

  /** Maps one section behind those mapped already. */
  method MapSection(mem: PhysicalMemory, m: Mapping, segment: Segment, s: Symbols, ghost p: Progress)
      returns (r: Outcome, ghost p': Progress)
    requires In(mem, p.b) && Empty(p.a) && p.a.shape.root == m.rootPpn && KernelPages(s, p)
    requires Linked(s) && IsSection(s, segment) && segment.startVaddr / PAGE_SIZE == StartPage() + |p.ptes|
    modifies mem`ram, mem.frames`free, mem.frames.node
    ensures r == Done || (r == OutOfMemory && |p.a.free| < KERNEL_TABLES)
    ensures r == Done ==> In(mem, p'.b) && p'.a == p.a && KernelPages(s, p')
    ensures r == Done ==> StartPage() + |p'.ptes| == segment.endVaddr / PAGE_SIZE
  {
    ProgressIsSound(p);
    ghost var q;
    r, q := MapLinearSegment(mem, m, segment, p.b);
    EndOfAligned(segment);
    FitsInKernelRange(p, PageCount(segment));
    p' := p;
    if r == Done { p' := SectionBehind(s, p, q, segment); }
  }

  /** The next n pages do not clash, and if the free frames do not suffice for them there were too few from the start. */
  lemma FitsInKernelRange(p: Progress, n: nat)
    requires Empty(p.a) && p.start == StartPage() && |p.ptes| + n <= KERNEL_PAGES && p.frames == []
    ensures NoClash(p.b.shape.leaf, p.start + |p.ptes|, n)
    ensures |p.a.free| >= KERNEL_TABLES ==> NewTables(p.b.shape, p.start + |p.ptes|, n) <= |p.b.free|
  {
    var rest := p.start + |p.ptes|;
    TablesForRun(p.a.shape, p.start, |p.ptes| + n);
    RestOfRun(p, rest, n);
  }

  lemma RestOfRun(p: Progress, rest: nat, n: nat)
    requires rest == p.start + |p.ptes| && NoClash(p.a.shape.leaf, p.start, |p.ptes| + n)
    ensures NoClash(p.b.shape.leaf, rest, n)
    ensures NewTables(p.a.shape, p.start, |p.ptes| + n) + |p.frames| + |p.b.free| == |p.a.free| + NewTables(p.b.shape, rest, n)
  {
    RestIsFree(p, rest, n);
    RestCost(p, rest, n);
  }

  lemma RestIsFree(p: Progress, rest: nat, n: nat)
    requires rest == p.start + |p.ptes| && NoClash(p.a.shape.leaf, p.start, |p.ptes| + n)
    ensures NoClash(p.b.shape.leaf, rest, n)
  {
    assert Maps(p, 0);
    RestDoesNotClash(p.a.shape.leaf, p.start, p.ptes, rest, n);
  }

  lemma RestCost(p: Progress, rest: nat, n: nat)
    requires rest == p.start + |p.ptes|
    ensures NewTables(p.a.shape, p.start, |p.ptes| + n) + |p.frames| + |p.b.free| == |p.a.free| + NewTables(p.b.shape, rest, n)
  {
    FramesSpent(p);
    TablesOfRun(p);
    NewTablesAppend(p.a.shape, p.b.shape, p.start, |p.ptes|, rest, n);
  }

  /** A fresh address space with the kernel in it: the 126 MiB from the start of text to the end of memory.
      It never runs into a page that is mapped already, and it takes exactly 65 frames, wherever the sections begin. */
  method NewKernelMapping(mem: PhysicalMemory, s: Symbols) returns (r: Outcome, m: Mapping, ghost p: Progress)
    requires mem.Valid() && Linked(s)
    modifies mem`ram, mem.frames`free, mem.frames.node
    ensures r != AlreadyMapped
    ensures r == Done <==> |old(mem.frames.free)| > KERNEL_TABLES
    ensures r == Done ==> In(mem, p.b) && p.a == RootOnly(old(mem.ram), old(mem.frames.free), m.rootPpn)
    ensures r == Done ==> m.rootPpn in old(mem.frames.free) && Sound(p.a)
    ensures r == Done ==> KernelPages(s, p) && |p.ptes| == KERNEL_PAGES
    ensures r == Done ==> |mem.frames.free| + KERNEL_TABLES + 1 == |old(mem.frames.free)|
  {
    r, m, p := OutOfMemory, Mapping(0), NothingMappedYet(EmptyState(), 0);
    var space, a := NewMapping(mem);
    if space == None {
      return;
    }
    m, p := space.value, NothingMappedYet(a, StartPage());
    r, p := MapSection(mem, m, Segment(s.text, s.rodata, 1 + READABLE + EXECUTABLE), s, p);
    if r != Done { return; }
    r, p := MapSection(mem, m, Segment(s.rodata, s.data, 1 + READABLE), s, p);
    if r != Done { return; }
    r, p := MapSection(mem, m, Segment(s.data, s.bss, 1 + READABLE + WRITABLE), s, p);
    if r != Done { return; }
    r, p := MapSection(mem, m, Segment(s.bss, s.end, 1 + READABLE + WRITABLE), s, p);
    if r != Done { return; }
    r, p := MapSection(mem, m, Segment(s.end, MEMORY_END_PADDR + KERNEL_MAP_OFFSET, 1 + READABLE + WRITABLE), s, p);
    if r != Done { return; }
    KernelCost(p);
  }

  lemma KernelCost(p: Progress)
    requires Empty(p.a) && p.start == StartPage() && |p.ptes| == KERNEL_PAGES && p.frames == []
    ensures |p.a.free| == |p.b.free| + KERNEL_TABLES
  {
    assert Maps(p, 0);
    TablesForRun(p.a.shape, p.start, KERNEL_PAGES);
  }

  // ----- what the kernel sees through its mapping ---------------------------------

  lemma KernelPageKey(i: nat)
    requires i < KERNEL_PAGES
    ensures PageKey(StartPage(), i) == 0x7f8_0200 + i
  {
  }

  /** Page i of the kernel leads to the frame at the fixed distance, with the flags of its section. */
  lemma KernelTranslation(s: Symbols, p: Progress, i: nat)
    requires Sound(p.a) && KernelPages(s, p) && i < |p.ptes| <= KERNEL_PAGES
    ensures Walk(p.b.ram, p.b.shape.root, PageKey(StartPage(), i)) == Frame(0x8_0200 + i, SectionFlags(s, StartPage() + i))
  {
    var flags := SectionFlags(s, StartPage() + i);
    assert EntryFor(s, p.ptes, i);
    WalkAfterMapping(p, PageKey(StartPage(), i));
    LinearPteMeaning(StartPage() + i, flags);
    assert (StartPage() + i - KERNEL_PAGE_OFFSET) % PPN_LIMIT == 0x8_0200 + i;
    MeaningOfFlags(LinearPte(StartPage() + i, flags), 0x8_0200 + i, flags);
  }

  /** The page number of AccessVaViaPa. */
  lemma LinearAddress(pa: nat)
    requires 0x8020_0000 <= pa < MEMORY_END_PADDR
    ensures var va := AccessVaViaPa(pa);
            && va / PAGE_SIZE == StartPage() + (pa / PAGE_SIZE - 0x8_0200) && va % PAGE_SIZE == pa % PAGE_SIZE
            && CanonicalVpn(va / PAGE_SIZE)
  {
    assert AccessVaViaPa(pa) == pa + KERNEL_MAP_OFFSET;
  }

  /** Every frame behind the kernel, and so every one that the allocator can ever hand out, translates back to itself,
      readable and writable. */
  lemma EveryFrameMapsToItself(s: Symbols, p: Progress, c: State, q: nat)
    requires Linked(s) && Sound(p.a) && KernelPages(s, p) && |p.ptes| == KERNEL_PAGES && Extended(p.b, c)
    requires s.end - KERNEL_MAP_OFFSET <= q * PAGE_SIZE && (q + 1) * PAGE_SIZE <= MEMORY_END_PADDR
    ensures Walk(c.ram, c.shape.root, AccessVaViaPa(q * PAGE_SIZE) / PAGE_SIZE % VPN_LIMIT) == Frame(q, 1 + READABLE + WRITABLE)
  {
    LinearAddress(q * PAGE_SIZE);
    KernelTranslation(s, p, q - 0x8_0200);
    KernelPageStays(s, p, c, q - 0x8_0200);
  }

  lemma KernelPageStays(s: Symbols, p: Progress, c: State, i: nat)
    requires Sound(p.a) && KernelPages(s, p) && |p.ptes| == KERNEL_PAGES && Extended(p.b, c) && i < KERNEL_PAGES
    ensures Walk(c.ram, c.shape.root, PageKey(StartPage(), i)) == Walk(p.b.ram, p.b.shape.root, PageKey(StartPage(), i))
  {
    assert Maps(p, 0);
    AddPagesLookup(p.a.shape.leaf, p.start, p.ptes);
    KernelPageKey(i);
    TranslationKept(p.b, c, PageKey(StartPage(), i));
  }

  /** So a load through the linear mapping sees physical memory itself, whatever has been mapped besides. */
  lemma LoadThroughLinearMapping(s: Symbols, p: Progress, c: State, pa: nat)
    requires Sound(p.a) && KernelPages(s, p) && |p.ptes| == KERNEL_PAGES && Extended(p.b, c)
    requires 0x8020_0000 <= pa < MEMORY_END_PADDR && pa / PAGE_SIZE in c.ram
    ensures Load(c.ram, c.shape.root, AccessVaViaPa(pa)) == Loaded(PageByte(c.ram[pa / PAGE_SIZE], pa % PAGE_SIZE))
  {
    var i: nat := pa / PAGE_SIZE - 0x8_0200;
    LinearAddress(pa);
    KernelTranslation(s, p, i);
    KernelPageStays(s, p, c, i);
  }

  /** What the kernel may do with its own memory: it runs text, reads rodata, and writes the rest; nothing that it can write
      can it also execute, and user programs can use none of it. */
  lemma KernelPermissions(s: Symbols, p: Progress, c: State, va: nat)
    requires Linked(s) && Sound(p.a) && KernelPages(s, p) && |p.ptes| == KERNEL_PAGES && Extended(p.b, c)
    requires s.text <= va < 0xffff_ffff_8800_0000
    ensures Walk(c.ram, c.shape.root, va / PAGE_SIZE % VPN_LIMIT)
            == Frame((va - 0xffff_ffff_0000_0000) / 4096, if va < s.rodata then 0xb else if va < s.data then 0x3 else 0x7)
  {
    var i: nat := va / PAGE_SIZE - StartPage();
    KernelTranslation(s, p, i);
    KernelPageStays(s, p, c, i);
  }

  /** The frames that were not free when the address space was made keep their contents in it. */
  lemma OldFramesKept(ram: Ram, free: set<nat>, root: nat, p: Progress, c: State, q: nat)
    requires root in free && p.a == RootOnly(ram, free, root) && Extended(p.b, c)
    requires q in ram && q !in free
    ensures q in c.ram && c.ram[q] == ram[q]
  {
    assert Maps(p, 0);
    GrownTransitive(p.a, p.b, c);
    assert KeepsPage(p.a, c, q);
  }

  /** With the allocator that initMemory has set up, the kernel's own sections are untouched by all mapping: at each of its
      addresses, from the start of text to the end of bss, the kernel still sees through every new address space the byte
      that was there before the space was made. */
  lemma KernelStillThere(s: Symbols, ram: Ram, free: set<nat>, root: nat, p: Progress, c: State, va: nat)
    requires Linked(s) && forall q: nat :: q in free ==> (q - 1) * 4096 >= s.end - 0xffff_ffff_0000_0000
    requires root in free && p.a == RootOnly(ram, free, root) && Sound(p.a)
    requires KernelPages(s, p) && |p.ptes| == KERNEL_PAGES && Extended(p.b, c)
    requires s.text <= va < s.end && (va - 0xffff_ffff_0000_0000) / 4096 in ram
    ensures Load(c.ram, c.shape.root, va) == Loaded(PageByte(ram[(va - 0xffff_ffff_0000_0000) / 4096], va % 4096))
  {
    var pa: nat := va - KERNEL_MAP_OFFSET;
    assert pa / PAGE_SIZE !in free;
    OldFramesKept(ram, free, root, p, c, pa / PAGE_SIZE);
    assert AccessVaViaPa(pa) == va;
    LoadThroughLinearMapping(s, p, c, pa);
  }
}
