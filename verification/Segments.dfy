/** kernel/mapping.c: finding page-table slots and mapping segments. */
module Segments {
  import opened Basics
  import opened Memory
  import opened Sv39
  import opened TableUpdates
  import opened MappingState

  // ----- keys ----------------------------------------------------------------

  /** The key of the middle and of the last-level table that serve a virtual page. */
  function DirKey(vpn: nat): nat { VpnIndex(vpn, 2) }
  function SubKey(vpn: nat): nat { vpn % VPN_LIMIT / 0x200 }

  lemma KeysOfPage(vpn: nat)
    ensures DirKey(vpn) * 0x200 + VpnIndex(vpn, 1) == SubKey(vpn)
    ensures SubKey(vpn) * 0x200 + VpnIndex(vpn, 0) == vpn % VPN_LIMIT
  {
    var q, r := vpn / VPN_LIMIT, vpn % VPN_LIMIT;
    assert vpn / 0x4_0000 == 0x200 * q + r / 0x4_0000;
    assert vpn / 0x200 == 0x4_0000 * q + r / 0x200;
    assert vpn % 0x200 == r % 0x200;
    assert DirKey(vpn) == r / 0x4_0000;
    assert VpnIndex(vpn, 1) == r / 0x200 % 0x200;
  }

  /** Table keys of the n pages from `start` on. */
  ghost predicate DirKeyUsed(start: nat, n: nat, k: nat) {
    exists i: nat :: i < n && DirKeyAt(start, i) == k
  }

  ghost predicate SubKeyUsed(start: nat, n: nat, k: nat) {
    exists i: nat :: i < n && SubKeyAt(start, i) == k
  }

  function DirKeyAt(start: nat, i: nat): nat { DirKey(start + i) }
  function SubKeyAt(start: nat, i: nat): nat { SubKey(start + i) }

  /** How many tables have to be created for the n pages from `start` on, page by page. */
  ghost function NewTables(s: Shape, start: nat, n: nat): nat {
    if n == 0 then 0 else NewTables(s, start, n - 1) + TablesAt(s, start, n - 1)
  }

  /** The tables that page i of a run needs and that neither s nor the pages before it in the run provide. */
  ghost function TablesAt(s: Shape, start: nat, i: nat): nat {
    One(DirKeyAt(start, i) !in s.dir && !DirKeyUsed(start, i, DirKeyAt(start, i)))
    + One(SubKeyAt(start, i) !in s.sub && !SubKeyUsed(start, i, SubKeyAt(start, i)))
  }

  // ----- the partial map ------------------------------------------------------

  /** The part of page start + i that the hardware looks at. */
  function PageKey(start: nat, i: nat): nat { (start + i) % VPN_LIMIT }

  /** The partial map with one entry for each page from `start` on. */
  function AddPages(leaf: map<nat, nat>, start: nat, ptes: seq<nat>): map<nat, nat> {
    if ptes == [] then leaf
    else AddPages(leaf, start, ptes[..|ptes| - 1])[PageKey(start, |ptes| - 1) := ptes[|ptes| - 1]]
  }

  /** The n pages from `start` on are unmapped, and no two of them are the same page to the hardware. */
  ghost predicate NoClash(leaf: map<nat, nat>, start: nat, n: nat) {
    n <= VPN_LIMIT && forall i: nat :: i < n ==> PageKey(start, i) !in leaf
  }

  lemma DistinctPages(start: nat, i: nat, j: nat)
    requires i < j
    ensures j < i + VPN_LIMIT ==> PageKey(start, i) != PageKey(start, j)
    ensures j == i + VPN_LIMIT ==> PageKey(start, i) == PageKey(start, j)
  {
  }

  /** What AddPages maps: the old pages as before and each new page to its entry. */
  lemma {:induction false} AddPagesLookup(leaf: map<nat, nat>, start: nat, ptes: seq<nat>)
    requires NoClash(leaf, start, |ptes|)
    ensures var added := AddPages(leaf, start, ptes);
            && (forall k <- leaf :: k in added && added[k] == leaf[k])
            && (forall i: nat :: i < |ptes| ==> PageKey(start, i) in added && added[PageKey(start, i)] == ptes[i])
            && (forall k <- added :: k in leaf || exists i: nat :: i < |ptes| && k == PageKey(start, i))
    decreases |ptes|
  {
    if ptes != [] {
      var n: nat := |ptes| - 1;
      AddPagesLookup(leaf, start, ptes[..n]);
      forall i: nat | i < n
        ensures PageKey(start, i) != PageKey(start, n)
      {
        DistinctPages(start, i, n);
      }
    }
  }

  /** The next page is mapped already exactly when it clashes. */
  lemma NextClash(leaf: map<nat, nat>, start: nat, ptes: seq<nat>)
    requires NoClash(leaf, start, |ptes|)
    ensures PageKey(start, |ptes|) in AddPages(leaf, start, ptes) <==> !NoClash(leaf, start, |ptes| + 1)
  {
    var n := |ptes|;
    AddPagesLookup(leaf, start, ptes);
    if n == VPN_LIMIT {
      DistinctPages(start, 0, n);
    } else {
      forall i: nat | i < n
        ensures PageKey(start, i) != PageKey(start, n)
      {
        DistinctPages(start, i, n);
      }
    }
  }

  // ----- page-table entries ----------------------------------------------------

  /** `flags | VALID`: bit 0 is set and the others stay. */
  function WithValid(flags: nat): (r: nat)
    ensures r % 2 == 1 && r / 2 == flags / 2
  {
    if flags % 2 == 1 then flags else flags + 1
  }

  /** `((vpn - KERNEL_PAGE_OFFSET) << 10) | flags | VALID` on 64-bit words, for flags below bit 10. */
  function LinearPte(vpn: nat, flags: nat): nat {
    (vpn - KERNEL_PAGE_OFFSET) % 0x40_0000_0000_0000 * 0x400 + WithValid(flags)
  }

  /** `(paddr >> 2) | flags | VALID` for the address of a frame. */
  function FramedPte(paddr: nat, flags: nat): nat {
    paddr / 4 + WithValid(flags)
  }

  function LinearPtes(start: nat, n: nat, flags: nat): (r: seq<nat>)
    ensures |r| == n
  {
    if n == 0 then [] else LinearPtes(start, n - 1, flags) + [LinearPte(start + n - 1, flags)]
  }

  function FramedPtes(frames: seq<nat>, flags: nat): (r: seq<nat>)
    ensures |r| == |frames|
  {
    if frames == [] then []
    else FramedPtes(frames[..|frames| - 1], flags) + [FramedPte(frames[|frames| - 1] * PAGE_SIZE, flags)]
  }

  lemma LinearPteMeaning(vpn: nat, flags: nat)
    requires flags < 0x400
    ensures var pte := LinearPte(vpn, flags);
            0 < pte < WORD_LIMIT && PpnOf(pte) == (vpn - KERNEL_PAGE_OFFSET) % PPN_LIMIT && FlagsOf(pte) == WithValid(flags)
  {
    var distance: nat := (vpn - KERNEL_PAGE_OFFSET) % 0x40_0000_0000_0000;
    EntryParts(distance, WithValid(flags), LinearPte(vpn, flags));
    RemainderOfRemainder(vpn - KERNEL_PAGE_OFFSET);
  }

  lemma RemainderOfRemainder(x: int)
    ensures x % 0x40_0000_0000_0000 % PPN_LIMIT == x % PPN_LIMIT
  {
    var q, r := x / 0x40_0000_0000_0000, x % 0x40_0000_0000_0000;
    MultiplesDropOut(0x400 * q, r, x);
  }

  lemma MultiplesDropOut(c: int, r: int, x: int)
    requires x == c * PPN_LIMIT + r
    ensures x % PPN_LIMIT == r % PPN_LIMIT
  {
  }

  lemma FramedPteMeaning(ppn: nat, flags: nat)
    requires flags < 0x400 && ppn < PPN_LIMIT
    ensures var pte := FramedPte(ppn * PAGE_SIZE, flags);
            0 < pte < WORD_LIMIT && PpnOf(pte) == ppn && FlagsOf(pte) == WithValid(flags)
  {
    QuarterOfAddress(ppn);
    EntryParts(ppn, WithValid(flags), FramedPte(ppn * PAGE_SIZE, flags));
  }

  lemma QuarterOfAddress(ppn: nat)
    ensures ppn * PAGE_SIZE / 4 == ppn * 0x400
  {
  }

  // ----- findEntry ---------------------------------------------------------------

  /** The body of findEntry's loop: the table that entry `index` of `table` points to, created if the entry is empty.
      None is the panic of an allocation without free frames. Memory goes from state a to state b. */
  method NextTable(mem: PhysicalMemory, table: nat, index: nat, ghost level: nat, ghost key: nat, ghost a: State)
      returns (next: Option<nat>, ghost b: State)
    requires In(mem, a) && Sound(a) && index < ENTRIES && 1 <= level <= 2 && TableAt(a.shape, level, key, table)
    modifies mem`ram, mem.frames`free, mem.frames.node
    ensures In(mem, b)
    ensures next == None ==> b == a && a.free == {} && !HasTable(a.shape, level, key * 0x200 + index)
    ensures next.Some? && HasTable(a.shape, level, key * 0x200 + index) ==>
              b == a && TableAt(a.shape, level - 1, key * 0x200 + index, next.value)
    ensures next.Some? && !HasTable(a.shape, level, key * 0x200 + index) ==>
              next.value in a.free && next.value < PPN_LIMIT && table in a.ram && |b.free| + 1 == |a.free| &&
              b == Hung(a, level, key, table, index, next.value)
  {
    EntryMeaning(a.ram, a.shape, level, key, table, index);
    if mem.ram[table][index] == 0 {
      next, b := InstallTable(mem, table, index, level, key, a);
    } else {
      next, b := Some(PpnOf(mem.ram[table][index])), a;
    }
  }

  /** The branch that creates a table. */
  method InstallTable(mem: PhysicalMemory, table: nat, index: nat, ghost level: nat, ghost key: nat, ghost a: State)
      returns (next: Option<nat>, ghost b: State)
    requires In(mem, a) && table in a.ram && index < ENTRIES
    modifies mem`ram, mem.frames`free, mem.frames.node
    ensures In(mem, b)
    ensures next == None ==> b == a && a.free == {}
    ensures next.Some? ==> next.value in a.free && next.value < PPN_LIMIT && |b.free| + 1 == |a.free|
    ensures next.Some? ==> b == Hung(a, level, key, table, index, next.value)
  {
    var frame, q := mem.AllocFrame();
    if frame == None {
      return None, a;
    }
    var newPpn: nat := frame.value / PAGE_SIZE;
    assert Installed(a.ram, q);
    ReadPointer(mem.ram, table, index, q);
    mem.WriteEntry(table, index, newPpn * 0x400 + 1);
    assert mem.ram == Written(a.ram[q := ZeroPage()], table, index, q * 0x400 + 1);
    b := Hung(a, level, key, table, index, q);
    next := Some(PpnOf(mem.ram[table][index]));
  }

  lemma ReadPointer(ram: Ram, table: nat, index: nat, q: nat)
    requires table in ram && index < ENTRIES && q < PPN_LIMIT
    ensures PpnOf(Written(ram, table, index, q * 0x400 + 1)[table][index]) == q
  {
    PointerEntry(q);
  }

  lemma EntryMeaning(ram: Ram, s: Shape, level: nat, key: nat, table: nat, index: nat)
    requires Represents(ram, s) && index < ENTRIES && 1 <= level <= 2 && TableAt(s, level, key, table)
    ensures table in ram
    ensures ram[table][index] == 0 <==> !HasTable(s, level, key * 0x200 + index)
    ensures HasTable(s, level, key * 0x200 + index) ==>
              TableAt(s, level - 1, key * 0x200 + index, PpnOf(ram[table][index]))
  {
    var k := key * 0x200 + index;
    if level == 2 {
      assert RootEntry(ram, s, index);
      if k in s.dir { PointerEntry(s.dir[k]); }
    } else {
      assert DirEntry(ram, s, key, index);
      if k in s.sub { PointerEntry(s.sub[k]); }
    }
  }

  /** The keys of t are those of s and k. */
  ghost predicate KeyAdded(s: map<nat, nat>, t: map<nat, nat>, k: nat) {
    forall j {:trigger j in t} :: j in t <==> j in s || j == k
  }

  /** findEntry after its first pass, and after its second: nothing but missing tables has been added. */
  ghost predicate FoundDir(a: State, b: State, dk: nat) {
    && Sound(b) && Grown(a, b) && b.shape.leaf == a.shape.leaf
    && KeyAdded(a.shape.dir, b.shape.dir, dk) && b.shape.sub == a.shape.sub
    && |a.free| == |b.free| + One(dk !in a.shape.dir)
  }

  /** `taken` frames have been taken for other purposes than tables. */
  ghost predicate Found(a: State, b: State, dk: nat, sk: nat, taken: nat) {
    && Sound(b) && Grown(a, b) && b.shape.leaf == a.shape.leaf
    && KeyAdded(a.shape.dir, b.shape.dir, dk) && KeyAdded(a.shape.sub, b.shape.sub, sk)
    && |a.free| == |b.free| + One(dk !in a.shape.dir) + One(sk !in a.shape.sub) + taken
  }

  /** Pass 1: the root's entry dk leads to `next`. */
  lemma FirstPass(a: State, dk: nat, next: nat, b: State)
    requires Sound(a) && dk < ENTRIES && a.shape.root in a.ram
    requires if dk in a.shape.dir then b == a && next == a.shape.dir[dk]
             else next in a.free && next < PPN_LIMIT && b == Hung(a, 2, 0, a.shape.root, dk, next) && |b.free| + 1 == |a.free|
    ensures FoundDir(a, b, dk) && TableAt(b.shape, 1, dk, next)
  {
    if dk !in a.shape.dir {
      HangDir(a, dk, next);
    } else {
      NothingGrown(a);
    }
  }

  /** Pass 2: entry `index` of the middle table leads to `next`. */
  lemma SecondPass(a: State, b: State, dk: nat, index: nat, next: nat, c: State)
    requires FoundDir(a, b, dk) && index < ENTRIES && dk in b.shape.dir && b.shape.dir[dk] in b.ram
    requires if dk * 0x200 + index in b.shape.sub then c == b && next == b.shape.sub[dk * 0x200 + index]
             else next in b.free && next < PPN_LIMIT && c == Hung(b, 1, dk, b.shape.dir[dk], index, next) && |c.free| + 1 == |b.free|
    ensures Found(a, c, dk, dk * 0x200 + index, 0) && TableAt(c.shape, 0, dk * 0x200 + index, next)
  {
    if dk * 0x200 + index !in b.shape.sub {
      HangSub(b, dk, index, next);
      GrownTransitive(a, b, c);
    }
  }

  lemma NothingGrown(a: State)
    ensures Grown(a, a)
  {
    forall q
      ensures KeepsPage(a, a, q) && KeepsTable(a.shape.dir, a.shape.dir, a.free, q)
      ensures KeepsTable(a.shape.sub, a.shape.sub, a.free, q)
    {
    }
  }

  /** An address space with an empty root table and two free frames. */
  ghost function EmptyState(): (a: State)
    ensures Sound(a)
  {
    var a := State(map[0 := ZeroPage(), 1 := ZeroPage(), 2 := ZeroPage()], {1, 2}, Shape(0, map[], map[], map[]));
    assert Represents(a.ram, a.shape) by {
      assert forall i: nat :: i < ENTRIES ==> RootEntry(a.ram, a.shape, i);
    }
    a
  }

  /** Frame i was free in a; in b it is in use, is no table, and holds page i. */
  ghost predicate HoldsPage(a: State, b: State, frames: seq<nat>, pages: seq<Page>, i: nat) {
    i < |frames| == |pages| ==>
      && frames[i] in a.free && frames[i] !in b.free && Unused(b.shape, frames[i])
      && frames[i] in b.ram && b.ram[frames[i]] == pages[i]
  }

  predicate TwoFrames(frames: seq<nat>, i: nat, j: nat) {
    i < j < |frames| ==> frames[i] != frames[j]
  }

  /** Between a and b distinct free frames have been taken, and b holds the given pages in them. */
  ghost predicate FramesHold(a: State, b: State, frames: seq<nat>, pages: seq<Page>) {
    && |frames| == |pages|
    && (forall i: nat {:trigger HoldsPage(a, b, frames, pages, i)} :: HoldsPage(a, b, frames, pages, i))
    && (forall i: nat, j: nat {:trigger TwoFrames(frames, i, j)} :: TwoFrames(frames, i, j))
  }

  /** What findEntry has done: from a to b it has made sure of the tables with keys dk and sk.
      `frames` lists the frame that has been taken for the page itself, if one has, and `pages` its contents. */
  datatype LookupRecord = Lookup(a: State, b: State, dk: nat, sk: nat, frames: seq<nat>, pages: seq<Page>)

  /** What every Lookup guarantees. The type states it for all numbers `name`, although the number means nothing: the solver
      instantiates such a fact only where a proof asks for it, with `assert Finds(f, 0)`, and proofs that merely hand a
      lookup on are not slowed down by its many quantifiers. Maps, Fills, IsStored and HoldsAs work in the same way. */
  ghost predicate Finds(f: LookupRecord, name: int) {
    Found(f.a, f.b, f.dk, f.sk, |f.frames|) && FramesHold(f.a, f.b, f.frames, f.pages)
  }

  type Lookup = f: LookupRecord | forall name {:trigger Finds(f, name)} :: Finds(f, name)
    ghost witness ExampleLookup()

  ghost function ExampleLookup(): (f: LookupRecord)
    ensures Found(f.a, f.b, f.dk, f.sk, |f.frames|) && FramesHold(f.a, f.b, f.frames, f.pages)
  {
    var a := EmptyState();
    var b := Hung(a, 2, 0, 0, 0, 1);
    FirstPass(a, 0, 1, b);
    var c := Hung(b, 1, 0, 1, 0, 2);
    SecondPass(a, b, 0, 0, 2, c);
    Lookup(a, c, 0, 0, [], [])
  }

  /** The three table indices of a virtual page, from the root down. */
  ghost predicate Levels(levels: seq<nat>) {
    |levels| == 3 && levels[0] < ENTRIES && levels[1] < ENTRIES && levels[2] < ENTRIES
  }

  /** getVpnLevels. */
  method GetVpnLevels(vpn: nat) returns (levels: seq<nat>)
    ensures Levels(levels)
    ensures levels[0] == DirKey(vpn) && levels[0] * 0x200 + levels[1] == SubKey(vpn)
    ensures SubKey(vpn) * 0x200 + levels[2] == vpn % VPN_LIMIT
  {
    KeysOfPage(vpn);
    levels := [vpn / 0x4_0000 % 0x200, vpn / 0x200 % 0x200, vpn % 0x200];
  }

  /** What the loop over the levels has reached before pass i: the address space b and, in it, the table with this key. */
  ghost predicate Passed(a: State, b: State, levels: seq<nat>, i: nat, key: nat, table: nat)
    requires Levels(levels)
  {
    && (i == 1 ==> b == a && key == 0 && table == a.shape.root)
    && (i == 2 ==> FoundDir(a, b, levels[0]) && key == levels[0] && TableAt(b.shape, 1, key, table))
    && (i == 3 ==> key == levels[0] * 0x200 + levels[1] && Found(a, b, levels[0], key, 0) && TableAt(b.shape, 0, key, table))
  }

  lemma NextPass(a: State, b: State, c: State, levels: seq<nat>, i: nat, key: nat, table: nat, next: nat)
    requires Levels(levels) && Sound(a) && 1 <= i <= 2 && Passed(a, b, levels, i, key, table) && table in b.ram
    requires HasTable(b.shape, 3 - i, key * 0x200 + levels[i - 1]) ==>
               c == b && TableAt(b.shape, 2 - i, key * 0x200 + levels[i - 1], next)
    requires !HasTable(b.shape, 3 - i, key * 0x200 + levels[i - 1]) ==>
               next in b.free && next < PPN_LIMIT && |c.free| + 1 == |b.free| && c == Hung(b, 3 - i, key, table, levels[i - 1], next)
    ensures Passed(a, c, levels, i + 1, key * 0x200 + levels[i - 1], next)
  {
    if i == 1 {
      FirstPass(a, levels[0], next, c);
    } else {
      SecondPass(a, b, levels[0], levels[1], next, c);
    }
  }

  /** findEntry's loop, from the root to the last-level table. */
  method FindTable(mem: PhysicalMemory, root: nat, levels: seq<nat>, ghost a: State) returns (r: Option<nat>, ghost b: State)
    requires In(mem, a) && Sound(a) && a.shape.root == root && Levels(levels)
    modifies mem`ram, mem.frames`free, mem.frames.node
    ensures In(mem, b)
    ensures r.Some? ==> Found(a, b, levels[0], levels[0] * 0x200 + levels[1], 0)
    ensures r.Some? ==> TableAt(b.shape, 0, levels[0] * 0x200 + levels[1], r.value)
    ensures r == None ==>
              |a.free| < One(levels[0] !in a.shape.dir) + One(levels[0] * 0x200 + levels[1] !in a.shape.sub)
  {
    var table := root;
    b := a;
    ghost var key := 0;
    var i := 1;
    while i <= 2
      invariant 1 <= i <= 3 && In(mem, b)
      invariant Passed(a, b, levels, i, key, table)
    {
      var next;
      ghost var c;
      next, c := NextTable(mem, table, levels[i - 1], 3 - i, key, b);
      if next == None {
        return None, c;
      }
      NextPass(a, b, c, levels, i, key, table, next.value);
      key := key * 0x200 + levels[i - 1];
      table, b := next.value, c;
      i := i + 1;
    }
    r := Some(table);
  }

  /** The slot of a page, in a last-level table that exists afterwards whether or not it existed before.
      None is the panic when the frames for missing tables run out, and happens exactly then. */
  method FindEntry(mem: PhysicalMemory, self: Mapping, vpn: nat, ghost a: State) returns (slot: Option<Slot>, ghost f: Lookup)
    requires In(mem, a) && Sound(a) && a.shape.root == self.rootPpn
    modifies mem`ram, mem.frames`free, mem.frames.node
    ensures slot.Some? <==> One(DirKey(vpn) !in a.shape.dir) + One(SubKey(vpn) !in a.shape.sub) <= |a.free|
    ensures slot.Some? ==> In(mem, f.b) && f.a == a && f.dk == DirKey(vpn) && f.sk == SubKey(vpn) && f.frames == [] && f.pages == []
    ensures slot.Some? ==> TableAt(f.b.shape, 0, SubKey(vpn), slot.value.ppn) && slot.value.index < ENTRIES
    ensures slot.Some? ==> SubKey(vpn) * 0x200 + slot.value.index == vpn % VPN_LIMIT
  {
    var levels := GetVpnLevels(vpn);
    var table;
    ghost var b;
    table, b := FindTable(mem, self.rootPpn, levels, a);
    if table == None {
      slot, f := None, ExampleLookup();
    } else {
      slot, f := Some(Slot(table.value, levels[2])), Lookup(a, b, DirKey(vpn), SubKey(vpn), [], []);
    }
  }

  /** Slot s is where findEntry finds page vpn in an address space. */
  ghost predicate SlotOf(b: State, vpn: nat, s: Slot) {
    TableAt(b.shape, 0, SubKey(vpn), s.ppn) && s.index < ENTRIES && SubKey(vpn) * 0x200 + s.index == vpn % VPN_LIMIT
  }

  /** Two lookups, however many mappings lie between them, find the same slot exactly when the pages agree modulo 2^27:
      the slot of a page never moves, and no other page ever shares it. */
  lemma SlotsAgree(b: State, u: nat, s: Slot, c: State, v: nat, t: Slot)
    requires Sound(b) && Sound(c) && Grown(b, c) && SlotOf(b, u, s) && SlotOf(c, v, t)
    ensures s == t <==> u % VPN_LIMIT == v % VPN_LIMIT
  {
    assert KeepsTable(b.shape.sub, c.shape.sub, b.free, SubKey(u));
    SplitVpn(u);
    SplitVpn(v);
    assert s.index == u % 0x200 && t.index == v % 0x200;
    SlotAgreement(c.shape, u, v);
  }

  // ----- mapping the pages of a segment -------------------------------------------

  /** Keys of t: those of s, and those of the first n pages from `start`. */
  ghost predicate DirKeysAdded(s: Shape, t: Shape, start: nat, n: nat) {
    forall k {:trigger k in t.dir} :: k in t.dir <==> k in s.dir || DirKeyUsed(start, n, k)
  }

  ghost predicate SubKeysAdded(s: Shape, t: Shape, start: nat, n: nat) {
    forall k {:trigger k in t.sub} :: k in t.sub <==> k in s.sub || SubKeyUsed(start, n, k)
  }

  /** From a to b exactly the pages from `start` on have been mapped, to the given entries.
      The free frames went into the tables that were missing and `taken` other frames. */
  ghost predicate MapsPages(a: State, b: State, start: nat, ptes: seq<nat>, taken: nat) {
    Sound(b) && Grown(a, b) && HoldsPages(a, b, start, ptes, taken)
  }

  /** The pages of b are those of a and the run's, and the tables that b has more are the ones that had to be there. */
  ghost predicate HoldsPages(a: State, b: State, start: nat, ptes: seq<nat>, taken: nat) {
    && NoClash(a.shape.leaf, start, |ptes|) && b.shape.leaf == AddPages(a.shape.leaf, start, ptes)
    && DirKeysAdded(a.shape, b.shape, start, |ptes|) && SubKeysAdded(a.shape, b.shape, start, |ptes|)
    && |a.free| == |b.free| + NewTables(a.shape, start, |ptes|) + taken
  }

  /** The tables still missing for the next page. */
  ghost function NextTables(s: Shape, vpn: nat): nat {
    One(DirKey(vpn) !in s.dir) + One(SubKey(vpn) !in s.sub)
  }

  lemma NewTablesNext(s: Shape, t: Shape, start: nat, n: nat)
    requires DirKeysAdded(s, t, start, n) && SubKeysAdded(s, t, start, n)
    ensures NewTables(s, start, n + 1) == NewTables(s, start, n) + NextTables(t, start + n)
  {
  }

  lemma {:induction false} NewTablesMonotonic(s: Shape, start: nat, m: nat, n: nat)
    requires m <= n
    ensures NewTables(s, start, m) <= NewTables(s, start, n)
    decreases n
  {
    if m < n { NewTablesMonotonic(s, start, m, n - 1); }
  }

  lemma UsedNext(start: nat, n: nat, k: nat)
    ensures DirKeyUsed(start, n + 1, k) <==> DirKeyUsed(start, n, k) || k == DirKey(start + n)
    ensures SubKeyUsed(start, n + 1, k) <==> SubKeyUsed(start, n, k) || k == SubKey(start + n)
  {
    assert DirKeyAt(start, n) == DirKey(start + n) && SubKeyAt(start, n) == SubKey(start + n);
    if DirKeyUsed(start, n, k) {
      var i: nat :| i < n && DirKeyAt(start, i) == k;
      assert i < n + 1;
    }
    if SubKeyUsed(start, n, k) {
      var i: nat :| i < n && SubKeyAt(start, i) == k;
      assert i < n + 1;
    }
  }

  /** The state after the entry of page `key` has been written. */
  ghost function WithLeaf(a: State, table: nat, index: nat, key: nat, pte: nat): State
    requires table in a.ram && index < ENTRIES && pte < WORD_LIMIT
  {
    State(Written(a.ram, table, index, pte), a.free, a.shape.(leaf := a.shape.leaf[key := pte]))
  }

  lemma LeafWritten(a: State, sk: nat, index: nat, pte: nat)
    requires Sound(a) && sk in a.shape.sub && index < ENTRIES && 0 < pte < WORD_LIMIT
    ensures a.shape.sub[sk] in a.ram
    ensures var b := WithLeaf(a, a.shape.sub[sk], index, sk * 0x200 + index, pte);
            Sound(b) && Grown(a, b)
  {
    AddLeaf(a.ram, a.shape, sk, index, pte);
    var b := WithLeaf(a, a.shape.sub[sk], index, sk * 0x200 + index, pte);
    forall q
      ensures KeepsPage(a, b, q) && KeepsTable(a.shape.dir, b.shape.dir, a.free, q)
      ensures KeepsTable(a.shape.sub, b.shape.sub, a.free, q)
      ensures q in b.free ==> FreeFrame(b, q)
    {
      assert q in a.free ==> FreeFrame(a, q);
    }
  }

  lemma KeysOneMore(s: Shape, t: Shape, u: Shape, start: nat, n: nat)
    requires DirKeysAdded(s, t, start, n) && SubKeysAdded(s, t, start, n)
    requires KeyAdded(t.dir, u.dir, DirKey(start + n)) && KeyAdded(t.sub, u.sub, SubKey(start + n))
    ensures DirKeysAdded(s, u, start, n + 1) && SubKeysAdded(s, u, start, n + 1)
  {
    forall k
      ensures k in u.dir <==> k in s.dir || DirKeyUsed(start, n + 1, k)
      ensures k in u.sub <==> k in s.sub || SubKeyUsed(start, n + 1, k)
    {
      UsedNext(start, n, k);
    }
  }

  lemma LeafOneMore(leaf: map<nat, nat>, start: nat, ptes: seq<nat>, pte: nat)
    requires NoClash(leaf, start, |ptes|) && PageKey(start, |ptes|) !in AddPages(leaf, start, ptes)
    ensures NoClash(leaf, start, |ptes| + 1)
    ensures AddPages(leaf, start, ptes + [pte]) == AddPages(leaf, start, ptes)[PageKey(start, |ptes|) := pte]
  {
    NextClash(leaf, start, ptes);
    assert (ptes + [pte])[..|ptes|] == ptes;
  }

  lemma GrownOneMore(a: State, b: State, c: State, d: State, sk: nat, index: nat, pte: nat)
    requires Grown(a, b) && Grown(b, c) && Sound(c) && sk in c.shape.sub && c.shape.sub[sk] in c.ram && index < ENTRIES
    requires 0 < pte < WORD_LIMIT && d == WithLeaf(c, c.shape.sub[sk], index, sk * 0x200 + index, pte)
    ensures Sound(d) && Grown(a, d)
  {
    LeafWritten(c, sk, index, pte);
    GrownTransitive(b, c, d);
    GrownTransitive(a, b, d);
  }

  lemma HoldsOneMore(a: State, b: State, c: State, d: State, start: nat, ptes: seq<nat>, taken: nat, used: nat, pte: nat)
    requires HoldsPages(a, b, start, ptes, taken)
    requires Found(b, c, DirKey(start + |ptes|), SubKey(start + |ptes|), used) && PageKey(start, |ptes|) !in c.shape.leaf
    requires d.shape.dir == c.shape.dir && d.shape.sub == c.shape.sub && d.free == c.free
    requires d.shape.leaf == c.shape.leaf[PageKey(start, |ptes|) := pte]
    ensures HoldsPages(a, d, start, ptes + [pte], taken + used)
  {
    NewTablesNext(a.shape, b.shape, start, |ptes|);
    LeafOneMore(a.shape.leaf, start, ptes, pte);
    KeysOneMore(a.shape, b.shape, c.shape, start, |ptes|);
  }

  /** One more page: findEntry led from b to c, then the entry was written. */
  lemma MapsOneMore(a: State, b: State, c: State, d: State, start: nat, ptes: seq<nat>, taken: nat, used: nat, index: nat, pte: nat)
    requires MapsPages(a, b, start, ptes, taken) && 0 < pte < WORD_LIMIT && index < ENTRIES
    requires Found(b, c, DirKey(start + |ptes|), SubKey(start + |ptes|), used)
    requires SubKey(start + |ptes|) in c.shape.sub && c.shape.sub[SubKey(start + |ptes|)] in c.ram
    requires SubKey(start + |ptes|) * 0x200 + index == PageKey(start, |ptes|) && PageKey(start, |ptes|) !in c.shape.leaf
    requires d == WithLeaf(c, c.shape.sub[SubKey(start + |ptes|)], index, PageKey(start, |ptes|), pte)
    ensures MapsPages(a, d, start, ptes + [pte], taken + used)
  {
    GrownOneMore(a, b, c, d, SubKey(start + |ptes|), index, pte);
    HoldsOneMore(a, b, c, d, start, ptes, taken, used, pte);
  }

  // ----- mapLinearSegment --------------------------------------------------------------

  /** `x - 1` on 64-bit words. */
  function Pred(x: nat): nat { if x == 0 then WORD_LIMIT - 1 else x - 1 }

  function StartVpn(segment: Segment): nat { segment.startVaddr / PAGE_SIZE }
  function EndVpn(segment: Segment): nat { Pred(segment.endVaddr) / PAGE_SIZE + 1 }

  /** How many pages the loops over a segment visit. */
  function PageCount(segment: Segment): nat {
    if StartVpn(segment) <= EndVpn(segment) then EndVpn(segment) - StartVpn(segment) else 0
  }

  /** The pages visited for `size` bytes from `start` on are exactly those that hold one of the bytes. */
  lemma PagesOfBytes(start: nat, size: nat, flags: nat, vpn: nat)
    requires 0 < size && start + size <= WORD_LIMIT
    ensures var segment := Segment(start, (start + size) % WORD_LIMIT, flags);
            StartVpn(segment) <= vpn < StartVpn(segment) + PageCount(segment)
            <==> vpn * 4096 < start + size && (vpn + 1) * 4096 > start
  {
    assert Pred((start + size) % WORD_LIMIT) == start + size - 1;
  }

  /** A segment whose end address wraps around gets no page, or only the one in which both of its ends lie. */
  lemma PagesOfWrapped(start: nat, size: nat, flags: nat)
    requires start < WORD_LIMIT && size < WORD_LIMIT && start + size > WORD_LIMIT
    ensures PageCount(Segment(start, (start + size) % WORD_LIMIT, flags))
            == if (start + size - WORD_LIMIT - 1) / 4096 == start / 4096 then 1 else 0
  {
    var end := start + size - WORD_LIMIT;
    assert (start + size) % WORD_LIMIT == end && 0 < end < start;
    assert (end - 1) / 4096 <= start / 4096;
  }

  /** An empty segment takes no page at the start of a page, and one inside. */
  lemma PagesOfNothing(start: nat, flags: nat)
    requires 0 < start < WORD_LIMIT
    ensures PageCount(Segment(start, start, flags)) == if start % 4096 == 0 then 0 else 1
  {
  }

  /** A segment is mapped exactly when none of its pages is mapped yet and the free frames suffice. */
  ghost predicate Mappable(a: State, start: nat, n: nat, framesPerPage: nat) {
    NoClash(a.shape.leaf, start, n) && NewTables(a.shape, start, n) + framesPerPage * n <= |a.free|
  }

  /** A mapping in progress: from a to b the pages from `start` on have been mapped to `ptes`,
      and `frames` have been taken to hold `pages`. */
  datatype ProgressRecord = Progress(a: State, b: State, start: nat, ptes: seq<nat>, frames: seq<nat>, pages: seq<Page>)

  /** What a mapping in progress guarantees, as a fact that proofs ask for by name. */
  ghost predicate Maps(p: ProgressRecord, name: int) {
    MapsPages(p.a, p.b, p.start, p.ptes, |p.frames|) && FramesHold(p.a, p.b, p.frames, p.pages)
  }

  type Progress = p: ProgressRecord | forall name {:trigger Maps(p, name)} :: Maps(p, name)
    ghost witness (NothingMapped(EmptyState(), 0); Progress(EmptyState(), EmptyState(), 0, [], [], []))

  lemma NothingMapped(a: State, start: nat)
    requires Sound(a)
    ensures MapsPages(a, a, start, [], 0)
  {
    NothingGrown(a);
  }

  ghost function NothingMappedYet(a: State, start: nat): Progress
    requires Sound(a)
  {
    NothingMapped(a, start);
    Progress(a, a, start, [], [], [])
  }

  lemma ProgressIsSound(p: Progress)
    ensures Sound(p.b) && p.b.shape.root == p.a.shape.root
  {
    assert Maps(p, 0);
  }

  lemma MappedMeansMappable(p: Progress, framesPerPage: nat)
    requires |p.frames| == framesPerPage * |p.ptes|
    ensures Mappable(p.a, p.start, |p.ptes|, framesPerPage)
  {
    assert Maps(p, 0);
  }

  lemma TablesOfRun(p: Progress)
    ensures DirKeysAdded(p.a.shape, p.b.shape, p.start, |p.ptes|) && SubKeysAdded(p.a.shape, p.b.shape, p.start, |p.ptes|)
  {
    assert Maps(p, 0);
  }

  /** The frames a mapping has cost: the pages that got frames, and the tables that were missing. */
  lemma FramesSpent(p: Progress)
    ensures |p.a.free| == |p.b.free| + NewTables(p.a.shape, p.start, |p.ptes|) + |p.frames|
  {
    assert Maps(p, 0);
  }

  lemma ClashFound(p: Progress, f: Lookup, n: nat)
    requires f.a == p.b && PageKey(p.start, |p.ptes|) in f.b.shape.leaf && |p.ptes| < n
    ensures !NoClash(p.a.shape.leaf, p.start, n)
  {
    assert Maps(p, 0) && Finds(f, 0);
    NextClash(p.a.shape.leaf, p.start, p.ptes);
  }

  /** The frames do not suffice when the tables of the next page exhaust them ... */
  lemma OutOfFrames(p: Progress, n: nat)
    requires |p.b.free| < NextTables(p.b.shape, p.start + |p.ptes|) && |p.ptes| < n
    ensures NewTables(p.a.shape, p.start, n) + |p.frames| > |p.a.free|
  {
    assert Maps(p, 0);
    NewTablesNext(p.a.shape, p.b.shape, p.start, |p.ptes|);
    NewTablesMonotonic(p.a.shape, p.start, |p.ptes| + 1, n);
  }

  /** ... or when none is left for the page itself. */
  lemma NoFrameForPage(p: Progress, f: Lookup, n: nat)
    requires f.a == p.b && f.dk == DirKey(p.start + |p.ptes|) && f.sk == SubKey(p.start + |p.ptes|) && f.frames == []
    requires f.b.free == {} && |p.ptes| < n && |p.frames| == |p.ptes|
    ensures NewTables(p.a.shape, p.start, n) + n > |p.a.free|
  {
    assert Maps(p, 0) && Finds(f, 0);
    NewTablesNext(p.a.shape, p.b.shape, p.start, |p.ptes|);
    NewTablesMonotonic(p.a.shape, p.start, |p.ptes| + 1, n);
  }

  /** The last-level entry that findEntry found is empty exactly when the page is unmapped. */
  lemma LastEntry(f: Lookup, index: nat)
    requires f.sk in f.b.shape.sub && index < ENTRIES
    ensures f.b.shape.sub[f.sk] in f.b.ram
    ensures f.b.ram[f.b.shape.sub[f.sk]][index] == 0 <==> f.sk * 0x200 + index !in f.b.shape.leaf
  {
    var s := f.b.shape;
    assert Finds(f, 0);
    assert SubEntry(f.b.ram, s, f.sk, index) && GoodLeaf(s, f.sk * 0x200 + index);
  }

  /** After the lookup, free frame q has been taken and holds `page`. */
  ghost function WithFrame(f: Lookup, q: nat, page: Page): Lookup
    requires f.frames == [] && q in f.b.free
  {
    var b := State(f.b.ram[q := page], f.b.free - {q}, f.b.shape);
    assert Finds(f, 0);
    FrameTaken(f.b, q, page);
    GrownTransitive(f.a, f.b, b);
    Lookup(f.a, b, f.dk, f.sk, [q], [page])
  }

  lemma FrameTaken(a: State, q: nat, page: Page)
    requires Sound(a) && q in a.free
    ensures var b := State(a.ram[q := page], a.free - {q}, a.shape);
            Sound(b) && Grown(a, b) && |a.free| == |b.free| + 1 && Unused(b.shape, q) && q in a.ram
  {
    var b := State(a.ram[q := page], a.free - {q}, a.shape);
    assert FreeFrame(a, q);
    WriteUnused(a.ram, a.shape, q, page);
    assert |{q}| == 1;
    forall f
      ensures KeepsPage(a, b, f) && KeepsTable(a.shape.dir, b.shape.dir, a.free, f)
      ensures KeepsTable(a.shape.sub, b.shape.sub, a.free, f)
      ensures f in b.free ==> FreeFrame(b, f)
    {
      assert f in a.free ==> FreeFrame(a, f);
    }
  }

  /** Frames taken earlier keep their pages while more is mapped. */
  lemma FramesStillHold(a: State, b: State, c: State, frames: seq<nat>, pages: seq<Page>)
    requires FramesHold(a, b, frames, pages) && Grown(b, c)
    ensures FramesHold(a, c, frames, pages)
  {
    forall i: nat
      ensures HoldsPage(a, c, frames, pages, i)
    {
      assert HoldsPage(a, b, frames, pages, i);
      if i < |frames| {
        assert KeepsPage(b, c, frames[i]);
        StillUnused(b, c, frames[i]);
      }
    }
  }

  lemma FramesJoin(a: State, b: State, c: State, frames: seq<nat>, pages: seq<Page>, more: seq<nat>, morePages: seq<Page>)
    requires FramesHold(a, b, frames, pages) && FramesHold(b, c, more, morePages) && Grown(b, c) && b.free <= a.free
    ensures FramesHold(a, c, frames + more, pages + morePages)
  {
    FramesStillHold(a, b, c, frames, pages);
    var all, allPages := frames + more, pages + morePages;
    forall i: nat
      ensures HoldsPage(a, c, all, allPages, i)
    {
      assert HoldsPage(a, c, frames, pages, i);
      if |frames| <= i { assert HoldsPage(b, c, more, morePages, i - |frames|); }
    }
    forall i: nat, j: nat
      ensures TwoFrames(all, i, j)
    {
      assert TwoFrames(frames, i, j) && HoldsPage(a, b, frames, pages, i);
      if |frames| <= i && |frames| <= j { assert TwoFrames(more, i - |frames|, j - |frames|); }
      if i < |frames| <= j { assert HoldsPage(b, c, more, morePages, j - |frames|); }
    }
  }

  lemma PagesOneMore(p: Progress, f: Lookup, index: nat, pte: nat)
    requires 0 < pte < WORD_LIMIT && index < ENTRIES
    requires f.a == p.b && f.dk == DirKey(p.start + |p.ptes|) && f.sk == SubKey(p.start + |p.ptes|)
    requires f.sk * 0x200 + index == PageKey(p.start, |p.ptes|) && PageKey(p.start, |p.ptes|) !in f.b.shape.leaf
    requires f.sk in f.b.shape.sub && f.b.shape.sub[f.sk] in f.b.ram
    ensures var d := WithLeaf(f.b, f.b.shape.sub[f.sk], index, PageKey(p.start, |p.ptes|), pte);
            MapsPages(p.a, d, p.start, p.ptes + [pte], |p.frames + f.frames|)
  {
    assert Maps(p, 0) && Finds(f, 0);
    var d := WithLeaf(f.b, f.b.shape.sub[f.sk], index, PageKey(p.start, |p.ptes|), pte);
    MapsOneMore(p.a, p.b, f.b, d, p.start, p.ptes, |p.frames|, |f.frames|, index, pte);
  }

  lemma FramesOneMore(p: Progress, f: Lookup, index: nat, pte: nat)
    requires 0 < pte < WORD_LIMIT && index < ENTRIES && f.a == p.b
    requires f.sk in f.b.shape.sub && f.b.shape.sub[f.sk] in f.b.ram
    ensures var d := WithLeaf(f.b, f.b.shape.sub[f.sk], index, f.sk * 0x200 + index, pte);
            FramesHold(p.a, d, p.frames + f.frames, p.pages + f.pages)
  {
    assert Maps(p, 0) && Finds(f, 0);
    var d := WithLeaf(f.b, f.b.shape.sub[f.sk], index, f.sk * 0x200 + index, pte);
    LeafWritten(f.b, f.sk, index, pte);
    FramesStillHold(p.b, f.b, d, f.frames, f.pages);
    GrownTransitive(p.b, f.b, d);
    FramesJoin(p.a, p.b, d, p.frames, p.pages, f.frames, f.pages);
  }

  /** One more page has been mapped: the entry has been written after the lookup. */
  ghost function OnePageMore(p: Progress, f: Lookup, index: nat, pte: nat): Progress
    requires 0 < pte < WORD_LIMIT && index < ENTRIES
    requires f.a == p.b && f.dk == DirKey(p.start + |p.ptes|) && f.sk == SubKey(p.start + |p.ptes|)
    requires f.sk * 0x200 + index == PageKey(p.start, |p.ptes|) && PageKey(p.start, |p.ptes|) !in f.b.shape.leaf
    requires f.sk in f.b.shape.sub && f.b.shape.sub[f.sk] in f.b.ram
  {
    var d := WithLeaf(f.b, f.b.shape.sub[f.sk], index, PageKey(p.start, |p.ptes|), pte);
    PagesOneMore(p, f, index, pte);
    FramesOneMore(p, f, index, pte);
    Progress(p.a, d, p.start, p.ptes + [pte], p.frames + f.frames, p.pages + f.pages)
  }

  // ----- mapLinearSegment ------------------------------------------------------------

  /** Maps every page of the segment to the frame at the fixed offset. */
  method MapLinearSegment(mem: PhysicalMemory, self: Mapping, segment: Segment, ghost a: State)
      returns (r: Outcome, ghost p: Progress)
    requires In(mem, a) && Sound(a) && a.shape.root == self.rootPpn && segment.flags < 0x400
    modifies mem`ram, mem.frames`free, mem.frames.node
    ensures r == Done <==> Mappable(a, StartVpn(segment), PageCount(segment), 0)
    ensures r == Done ==> In(mem, p.b) && p.a == a && p.start == StartVpn(segment) && p.frames == []
    ensures r == Done ==> p.ptes == LinearPtes(StartVpn(segment), PageCount(segment), segment.flags)
    ensures r == Done ==> |a.free| == |p.b.free| + NewTables(a.shape, StartVpn(segment), PageCount(segment))
    ensures r == AlreadyMapped ==> !NoClash(a.shape.leaf, StartVpn(segment), PageCount(segment))
  {
    var startVpn := segment.startVaddr / PAGE_SIZE;
    var endVpn := Pred(segment.endVaddr) / PAGE_SIZE + 1;
    var vpn := startVpn;
    p := NothingMappedYet(a, startVpn);
    ghost var n := PageCount(segment);
    while vpn < endVpn
      invariant vpn == startVpn + |p.ptes| && |p.ptes| <= n
      invariant In(mem, p.b) && p.a == a && p.start == startVpn && p.frames == []
      invariant p.ptes == LinearPtes(startVpn, |p.ptes|, segment.flags)
    {
      var slot;
      ghost var f;
      r, slot, f := FreeSlot(mem, self, vpn, n, p);
      if r != Done {
        return;
      }
      LinearPteFits(vpn, segment.flags);
      mem.WriteEntry(slot.ppn, slot.index, LinearPte(vpn, segment.flags));
      p := OnePageMore(p, f, slot.index, LinearPte(vpn, segment.flags));
      vpn := vpn + 1;
    }
    r := Done;
    MappedMeansMappable(p, 0);
    FramesSpent(p);
  }

  lemma LinearPteFits(vpn: nat, flags: nat)
    requires flags < 0x400
    ensures 0 < LinearPte(vpn, flags) < WORD_LIMIT
  {
    LinearPteMeaning(vpn, flags);
  }

  /** How each pass of the loops over pages begins: find the slot of the page, and panic if it is in use.
      n is the number of pages that the loop is going to map. */
  method FreeSlot(mem: PhysicalMemory, self: Mapping, vpn: nat, ghost n: nat, ghost p: Progress)
      returns (r: Outcome, slot: Slot, ghost f: Lookup)
    requires In(mem, p.b) && p.a.shape.root == self.rootPpn
    requires vpn == p.start + |p.ptes| && |p.ptes| < n
    modifies mem`ram, mem.frames`free, mem.frames.node
    ensures r == Done ==> In(mem, f.b) && f.a == p.b && f.dk == DirKey(vpn) && f.sk == SubKey(vpn) && f.frames == [] && f.pages == []
    ensures r == Done ==> TableAt(f.b.shape, 0, SubKey(vpn), slot.ppn) && slot.ppn in mem.ram && slot.index < ENTRIES
    ensures r == Done ==> f.sk * 0x200 + slot.index == PageKey(p.start, |p.ptes|) && PageKey(p.start, |p.ptes|) !in f.b.shape.leaf
    ensures r == AlreadyMapped ==> !NoClash(p.a.shape.leaf, p.start, n)
    ensures r == OutOfMemory ==> NewTables(p.a.shape, p.start, n) + |p.frames| > |p.a.free|
  {
    var entry;
    ProgressIsSound(p);
    entry, f := FindEntry(mem, self, vpn, p.b);
    if entry == None {
      OutOfFrames(p, n);
      return OutOfMemory, Slot(0, 0), f;
    }
    slot := entry.value;
    LastEntry(f, slot.index);
    if mem.ram[slot.ppn][slot.index] != 0 {
      ClashFound(p, f, n);
      return AlreadyMapped, slot, f;
    }
    r := Done;
  }
}
