/** kernel/mapping.c: segments whose pages get frames of their own, and copying data into them. */
module Framed {
  import opened Basics
  import opened Memory
  import opened Sv39
  import opened TableUpdates
  import opened MappingState
  import opened Segments

  function ZeroPages(n: nat): (r: seq<Page>)
    ensures |r| == n
  {
    if n == 0 then [] else ZeroPages(n - 1) + [ZeroPage()]
  }

  /** Maps every page of the segment to a fresh zeroed frame. */
  method MapFramedSegment(mem: PhysicalMemory, m: Mapping, segment: Segment, ghost a: State)
      returns (r: Outcome, ghost p: Progress)
    requires In(mem, a) && Sound(a) && a.shape.root == m.rootPpn && segment.flags < 0x400
    modifies mem`ram, mem.frames`free, mem.frames.node
    ensures r == Done <==> Mappable(a, StartVpn(segment), PageCount(segment), 1)
    ensures r == Done ==> In(mem, p.b) && p.a == a && p.start == StartVpn(segment)
    ensures r == Done ==> p.ptes == FramedPtes(p.frames, segment.flags) && p.pages == ZeroPages(PageCount(segment))
    ensures r == Done ==> |a.free| == |p.b.free| + NewTables(a.shape, StartVpn(segment), PageCount(segment)) + PageCount(segment)
    ensures r == AlreadyMapped ==> !NoClash(a.shape.leaf, StartVpn(segment), PageCount(segment))
  {
    var startVpn := segment.startVaddr / PAGE_SIZE;
    var endVpn := Pred(segment.endVaddr) / PAGE_SIZE + 1;
    var vpn := startVpn;
    p := NothingMappedYet(a, startVpn);
    ghost var n := PageCount(segment);
    while vpn < endVpn
      invariant vpn == startVpn + |p.ptes| && |p.ptes| == |p.frames| <= n
      invariant In(mem, p.b) && p.a == a && p.start == startVpn
      invariant p.ptes == FramedPtes(p.frames, segment.flags) && p.pages == ZeroPages(|p.ptes|)
    {
      r, p := MapFramedPage(mem, m, vpn, segment.flags, n, p);
      if r != Done {
        return;
      }
      vpn := vpn + 1;
    }
    r := Done;
    MappedMeansMappable(p, 1);
    FramesSpent(p);
  }

  /** The loop's body for one page. */
  method MapFramedPage(mem: PhysicalMemory, m: Mapping, vpn: nat, flags: nat, ghost n: nat, ghost p: Progress)
      returns (r: Outcome, ghost p': Progress)
    requires In(mem, p.b) && p.a.shape.root == m.rootPpn && flags < 0x400
    requires vpn == p.start + |p.ptes| && |p.ptes| < n && |p.frames| == |p.ptes|
    requires p.ptes == FramedPtes(p.frames, flags)
    modifies mem`ram, mem.frames`free, mem.frames.node
    ensures r == Done ==> In(mem, p'.b) && p'.a == p.a && p'.start == p.start && |p'.ptes| == |p.ptes| + 1
    ensures r == Done ==> p'.ptes == FramedPtes(p'.frames, flags) && p'.pages == p.pages + [ZeroPage()]
    ensures r == AlreadyMapped ==> !NoClash(p.a.shape.leaf, p.start, n)
    ensures r == OutOfMemory ==> NewTables(p.a.shape, p.start, n) + n > |p.a.free|
  {
    var slot, paddr;
    ghost var g, q;
    p' := p;
    r, slot, paddr, g, q := FreeSlotAndFrame(mem, m, vpn, n, p);
    if r == Done {
      FramedPteFits(q, flags);
      mem.WriteEntry(slot.ppn, slot.index, FramedPte(paddr, flags));
      FramedPtesNext(p.frames, q, flags);
      p' := OnePageMore(p, g, slot.index, FramedPte(paddr, flags));
    }
  }

  lemma FramedPteFits(ppn: nat, flags: nat)
    requires flags < 0x400 && ppn < PPN_LIMIT
    ensures 0 < FramedPte(ppn * PAGE_SIZE, flags) < WORD_LIMIT
  {
    FramedPteMeaning(ppn, flags);
  }

  lemma FramedPtesNext(frames: seq<nat>, q: nat, flags: nat)
    ensures FramedPtes(frames + [q], flags) == FramedPtes(frames, flags) + [FramedPte(q * PAGE_SIZE, flags)]
  {
    assert (frames + [q])[..|frames|] == frames;
  }

  /** Finds the slot of a page and takes a zeroed frame q for it. */
  method FreeSlotAndFrame(mem: PhysicalMemory, m: Mapping, vpn: nat, ghost n: nat, ghost p: Progress)
      returns (r: Outcome, slot: Slot, paddr: nat, ghost g: Lookup, ghost q: nat)
    requires In(mem, p.b) && p.a.shape.root == m.rootPpn
    requires vpn == p.start + |p.ptes| && |p.ptes| < n && |p.frames| == |p.ptes|
    modifies mem`ram, mem.frames`free, mem.frames.node
    ensures r == Done ==> In(mem, g.b) && g.a == p.b && g.dk == DirKey(vpn) && g.sk == SubKey(vpn)
    ensures r == Done ==> g.frames == [q] && g.pages == [ZeroPage()] && paddr == q * PAGE_SIZE && q < PPN_LIMIT
    ensures r == Done ==> TableAt(g.b.shape, 0, SubKey(vpn), slot.ppn) && slot.ppn in mem.ram && slot.index < ENTRIES
    ensures r == Done ==> slot.ppn != q && q in mem.ram && mem.ram[q] == ZeroPage()
    ensures r == Done ==> g.sk * 0x200 + slot.index == PageKey(p.start, |p.ptes|) && PageKey(p.start, |p.ptes|) !in g.b.shape.leaf
    ensures r == AlreadyMapped ==> !NoClash(p.a.shape.leaf, p.start, n)
    ensures r == OutOfMemory ==> NewTables(p.a.shape, p.start, n) + n > |p.a.free|
  {
    ghost var f;
    r, slot, f := FreeSlot(mem, m, vpn, n, p);
    g, q, paddr := f, 0, 0;
    if r != Done {
      return;
    }
    var frame;
    frame, q := mem.AllocFrame();
    if frame == None {
      NoFrameForPage(p, f, n);
      r := OutOfMemory;
      return;
    }
    paddr := frame.value;
    FrameIsUnused(f, q);
    g := WithFrame(f, q, ZeroPage());
  }

  lemma FrameIsUnused(f: Lookup, q: nat)
    requires q in f.b.free && f.sk in f.b.shape.sub
    ensures q < PPN_LIMIT && f.b.shape.sub[f.sk] != q
  {
    assert Finds(f, 0);
    assert FreeFrame(f.b, q);
  }

  // ----- mapFramedAndCopy -----------------------------------------------------------

  /** Byte k of the data, with zeros after the first `length` bytes. */
  function DataByte(data: seq<byte>, length: nat, k: nat): byte
    requires length <= |data|
  {
    if k < length then data[k] else 0
  }

  /** Page i of the data, byte by byte. */
  ghost predicate DataPage(page: Page, data: seq<byte>, length: nat, i: nat)
    requires length <= |data|
  {
    forall j: nat :: j < PAGE_SIZE ==> PageByte(page, j) == DataByte(data, length, i * PAGE_SIZE + j)
  }

  ghost predicate DataPages(pages: seq<Page>, data: seq<byte>, length: nat)
    requires length <= |data|
  {
    forall i: nat {:trigger DataPageAt(pages, data, length, i)} :: DataPageAt(pages, data, length, i)
  }

  ghost predicate DataPageAt(pages: seq<Page>, data: seq<byte>, length: nat, i: nat)
    requires length <= |data|
  {
    i < |pages| ==> DataPage(pages[i], data, length, i)
  }

  lemma DataPagesNext(pages: seq<Page>, page: Page, data: seq<byte>, length: nat)
    requires length <= |data| && DataPages(pages, data, length) && DataPage(page, data, length, |pages|)
    ensures DataPages(pages + [page], data, length)
  {
    forall i: nat
      ensures DataPageAt(pages + [page], data, length, i)
    {
      assert DataPageAt(pages, data, length, i);
    }
  }

  /** Maps every page of the segment to a fresh frame and fills the frames with the data, page by page.
      The offset of the start address in its page plays no part. */
  method MapFramedAndCopy(mem: PhysicalMemory, m: Mapping, segment: Segment, data: seq<byte>, length: nat, ghost a: State)
      returns (r: Outcome, ghost p: Progress)
    requires In(mem, a) && Sound(a) && a.shape.root == m.rootPpn && segment.flags < 0x400 && length <= |data|
    modifies mem`ram, mem.frames`free, mem.frames.node
    ensures r == Done <==> Mappable(a, StartVpn(segment), PageCount(segment), 1)
    ensures r == Done ==> In(mem, p.b) && p.a == a && p.start == StartVpn(segment) && |p.pages| == PageCount(segment)
    ensures r == Done ==> p.ptes == FramedPtes(p.frames, segment.flags) && DataPages(p.pages, data, length)
    ensures r == Done ==> |p.ptes| == PageCount(segment)
    ensures r == Done ==> |a.free| == |p.b.free| + NewTables(a.shape, StartVpn(segment), PageCount(segment)) + PageCount(segment)
    ensures r == AlreadyMapped ==> !NoClash(a.shape.leaf, StartVpn(segment), PageCount(segment))
  {
    var s, l := 0, length;
    var startVpn := segment.startVaddr / PAGE_SIZE;
    var endVpn := Pred(segment.endVaddr) / PAGE_SIZE + 1;
    var vpn := startVpn;
    p := NothingMappedYet(a, startVpn);
    ghost var n := PageCount(segment);
    while vpn < endVpn
      invariant vpn == startVpn + |p.ptes| && |p.ptes| == |p.frames| == |p.pages| <= n
      invariant In(mem, p.b) && p.a == a && p.start == startVpn
      invariant s == |p.pages| * PAGE_SIZE && l == if s <= length then length - s else 0
      invariant p.ptes == FramedPtes(p.frames, segment.flags) && DataPages(p.pages, data, length)
    {
      r, p := MapDataPage(mem, m, vpn, segment.flags, data, length, s, l, n, p);
      if r != Done {
        return;
      }
      s := s + PAGE_SIZE;
      if l >= PAGE_SIZE { l := l - PAGE_SIZE; } else { l := 0; }
      vpn := vpn + 1;
    }
    r := Done;
    MappedMeansMappable(p, 1);
    FramesSpent(p);
  }

  /** The loop's body for one page. */
  method MapDataPage(mem: PhysicalMemory, m: Mapping, vpn: nat, flags: nat, data: seq<byte>, ghost length: nat, s: nat, l: nat,
                     ghost n: nat, ghost p: Progress)
      returns (r: Outcome, ghost p': Progress)
    requires In(mem, p.b) && p.a.shape.root == m.rootPpn && flags < 0x400
    requires vpn == p.start + |p.ptes| && |p.ptes| < n && |p.frames| == |p.ptes| == |p.pages|
    requires length <= |data| && s == |p.pages| * PAGE_SIZE && l == if s <= length then length - s else 0
    requires p.ptes == FramedPtes(p.frames, flags) && DataPages(p.pages, data, length)
    modifies mem`ram, mem.frames`free, mem.frames.node
    ensures r == Done ==> In(mem, p'.b) && p'.a == p.a && p'.start == p.start
    ensures r == Done ==> |p'.ptes| == |p.ptes| + 1 && |p'.pages| == |p.pages| + 1
    ensures r == Done ==> p'.ptes == FramedPtes(p'.frames, flags) && DataPages(p'.pages, data, length)
    ensures r == AlreadyMapped ==> !NoClash(p.a.shape.leaf, p.start, n)
    ensures r == OutOfMemory ==> NewTables(p.a.shape, p.start, n) + n > |p.a.free|
  {
    var slot, paddr;
    ghost var g, q;
    p' := p;
    r, slot, paddr, g, q := FreeSlotAndFrame(mem, m, vpn, n, p);
    if r == Done {
      FramedPteFits(q, flags);
      mem.WriteEntry(slot.ppn, slot.index, FramedPte(paddr, flags));
      var dst := paddr / PAGE_SIZE;
      CopyPage(mem, dst, data, s, l);
      ghost var page := mem.ram[q];
      NextDataPage(p, q, page, flags, data, length, s, l);
      p' := OnePageMore(p, WithContents(g, q, page), slot.index, FramedPte(paddr, flags));
    }
  }

  /** The bytes of a page after copying: l bytes of the data from s on (at most a page), then zeros. */
  ghost predicate Copied(page: Page, data: seq<byte>, s: nat, l: nat, upTo: nat) {
    forall j: nat {:trigger PageByte(page, j)} ::
      j < upTo && j < PAGE_SIZE ==> PageByte(page, j) == if j < l && s + j < |data| then data[s + j] else 0
  }

  /** The copying loops of mapFramedAndCopy for one page. */
  method CopyPage(mem: PhysicalMemory, q: nat, data: seq<byte>, s: nat, l: nat)
    requires mem.Valid() && q in mem.ram && (l > 0 ==> s + l <= |data|)
    modifies mem`ram
    ensures mem.Valid() && mem.ram.Keys == old(mem.ram).Keys && mem.ram == old(mem.ram)[q := mem.ram[q]]
    ensures Copied(mem.ram[q], data, s, l, PAGE_SIZE)
  {
    var i := 0;
    if l >= PAGE_SIZE {
      while i < PAGE_SIZE
        invariant i <= PAGE_SIZE && mem.Valid() && q in mem.ram && mem.ram == old(mem.ram)[q := mem.ram[q]]
        invariant Copied(mem.ram[q], data, s, l, i)
      {
        CopiedNext(mem.ram[q], data, s, l, i);
        mem.WriteByte(q, i, data[s + i]);
        i := i + 1;
      }
    } else {
      while i < l
        invariant i <= l && mem.Valid() && q in mem.ram && mem.ram == old(mem.ram)[q := mem.ram[q]]
        invariant Copied(mem.ram[q], data, s, l, i)
      {
        CopiedNext(mem.ram[q], data, s, l, i);
        mem.WriteByte(q, i, data[s + i]);
        i := i + 1;
      }
      i := l;
      while i < PAGE_SIZE
        invariant l <= i <= PAGE_SIZE && mem.Valid() && q in mem.ram && mem.ram == old(mem.ram)[q := mem.ram[q]]
        invariant Copied(mem.ram[q], data, s, l, i)
      {
        CopiedNext(mem.ram[q], data, s, l, i);
        mem.WriteByte(q, i, 0);
        i := i + 1;
      }
    }
  }

  lemma CopiedNext(page: Page, data: seq<byte>, s: nat, l: nat, i: nat)
    requires Copied(page, data, s, l, i) && i < PAGE_SIZE
    ensures Copied(SetPageByte(page, i, if i < l && s + i < |data| then data[s + i] else 0), data, s, l, i + 1)
  {
    var x := if i < l && s + i < |data| then data[s + i] else 0;
    forall j: nat | j < i + 1
      ensures PageByte(SetPageByte(page, i, x), j) == if j < l && s + j < |data| then data[s + j] else 0
    {
      PageByteOfSet(page, i, x, j);
    }
  }

  lemma CopiedIsData(page: Page, data: seq<byte>, length: nat, i: nat, s: nat, l: nat)
    requires length <= |data| && s == i * PAGE_SIZE && l == if s <= length then length - s else 0
    requires Copied(page, data, s, l, PAGE_SIZE)
    ensures DataPage(page, data, length, i)
  {
  }

  lemma NextDataPage(p: Progress, q: nat, page: Page, flags: nat, data: seq<byte>, length: nat, s: nat, l: nat)
    requires length <= |data| && s == |p.pages| * PAGE_SIZE && l == if s <= length then length - s else 0
    requires Copied(page, data, s, l, PAGE_SIZE) && DataPages(p.pages, data, length)
    ensures FramedPtes(p.frames + [q], flags) == FramedPtes(p.frames, flags) + [FramedPte(q * PAGE_SIZE, flags)]
    ensures DataPages(p.pages + [page], data, length)
  {
    CopiedIsData(page, data, length, |p.pages|, s, l);
    FramedPtesNext(p.frames, q, flags);
    DataPagesNext(p.pages, page, data, length);
  }

  /** The frame of the lookup has been filled. */
  ghost function WithContents(g: Lookup, q: nat, page: Page): Lookup
    requires g.frames == [q] && |g.pages| == 1
  {
    var b := g.b.(ram := g.b.ram[q := page]);
    assert Finds(g, 0);
    assert HoldsPage(g.a, g.b, g.frames, g.pages, 0);
    ContentsChanged(g.a, g.b, q, page);
    Lookup(g.a, b, g.dk, g.sk, [q], [page])
  }

  lemma ContentsChanged(a: State, b: State, q: nat, page: Page)
    requires Sound(b) && Grown(a, b) && q in a.free && Unused(b.shape, q) && q in b.ram
    ensures var c := b.(ram := b.ram[q := page]); Sound(c) && Grown(a, c)
  {
    var c := b.(ram := b.ram[q := page]);
    WriteUnused(b.ram, b.shape, q, page);
    forall f
      ensures KeepsPage(a, c, f) && (f in c.free ==> FreeFrame(c, f))
    {
      assert KeepsPage(a, b, f) && (f in b.free ==> FreeFrame(b, f));
    }
  }
}
