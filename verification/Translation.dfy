/** What a mapped segment means to the processor: the Sv39 walk before and after, and the bytes it leads to. */
module AddressTranslation {
  import opened Memory
  import opened Sv39
  import opened TableUpdates
  import opened MappingState
  import opened Segments
  import opened Framed

  /** From a to b mappings were only added. */
  ghost predicate Extended(a: State, b: State) {
    && Sound(a) && Sound(b) && Grown(a, b)
    && forall k {:trigger SameLeaf(a.shape.leaf, b.shape.leaf, k)} :: SameLeaf(a.shape.leaf, b.shape.leaf, k)
  }

  ghost predicate SameLeaf(m: map<nat, nat>, n: map<nat, nat>, k: nat) {
    k in m ==> k in n && n[k] == m[k]
  }

  lemma ProgressExtends(p: Progress)
    requires Sound(p.a)
    ensures Extended(p.a, p.b)
  {
    assert Maps(p, 0);
    AddPagesLookup(p.a.shape.leaf, p.start, p.ptes);
    forall k
      ensures SameLeaf(p.a.shape.leaf, p.b.shape.leaf, k)
    {
    }
  }

  lemma ExtendedTransitive(a: State, b: State, c: State)
    requires Extended(a, b) && Extended(b, c)
    ensures Extended(a, c)
  {
    GrownTransitive(a, b, c);
    forall k
      ensures SameLeaf(a.shape.leaf, c.shape.leaf, k)
    {
      assert SameLeaf(a.shape.leaf, b.shape.leaf, k) && SameLeaf(b.shape.leaf, c.shape.leaf, k);
    }
  }

  /** A page that was mapped translates as before. */
  lemma TranslationKept(a: State, b: State, vpn: nat)
    requires Extended(a, b) && vpn < VPN_LIMIT && vpn in a.shape.leaf
    ensures Walk(b.ram, b.shape.root, vpn) == Walk(a.ram, a.shape.root, vpn)
  {
    assert SameLeaf(a.shape.leaf, b.shape.leaf, vpn);
    WalkIsLookup(a.ram, a.shape, vpn);
    WalkIsLookup(b.ram, b.shape, vpn);
  }

  /** After a segment has been mapped, the walk is the old partial map plus exactly the pages of the segment. */
  lemma WalkAfterMapping(p: Progress, vpn: nat)
    requires Sound(p.a) && vpn < VPN_LIMIT
    ensures forall i: nat :: i < |p.ptes| && PageKey(p.start, i) == vpn ==>
              Walk(p.b.ram, p.b.shape.root, vpn) == Meaning(p.ptes[i]) && Walk(p.a.ram, p.a.shape.root, vpn) == Fault
    ensures (forall i: nat :: i < |p.ptes| ==> PageKey(p.start, i) != vpn) ==>
              Walk(p.b.ram, p.b.shape.root, vpn) == Walk(p.a.ram, p.a.shape.root, vpn)
  {
    assert Maps(p, 0);
    AddPagesLookup(p.a.shape.leaf, p.start, p.ptes);
    WalkIsLookup(p.a.ram, p.a.shape, vpn);
    WalkIsLookup(p.b.ram, p.b.shape, vpn);
  }

  /** The permission bits make a leaf entry: readable or executable, and not writable without being readable. */
  predicate Accessible(flags: nat) {
    (R(flags) || X(flags)) && (R(flags) || !W(flags))
  }

  lemma MeaningOfFlags(pte: nat, ppn: nat, flags: nat)
    requires FlagsOf(pte) == WithValid(flags) && PpnOf(pte) == ppn && flags < 0x400
    ensures Meaning(pte) == if Accessible(flags) then Frame(ppn, WithValid(flags)) else Fault
  {
    var v := WithValid(flags);
    assert pte == pte / 0x400 * 0x400 + v;
    assert V(pte) == V(v) && R(pte) == R(v) && W(pte) == W(v) && X(pte) == X(v) by { LowBits(pte, v); }
    assert V(v) && R(v) == R(flags) && W(v) == W(flags) && X(v) == X(flags);
  }

  lemma {:induction false} LinearPtesAt(start: nat, n: nat, flags: nat, i: nat)
    requires i < n
    ensures LinearPtes(start, n, flags)[i] == LinearPte(start + i, flags)
    decreases n
  {
    if i < n - 1 { LinearPtesAt(start, n - 1, flags, i); }
  }

  lemma {:induction false} FramedPtesAt(frames: seq<nat>, flags: nat, i: nat)
    requires i < |frames|
    ensures FramedPtes(frames, flags)[i] == FramedPte(frames[i] * PAGE_SIZE, flags)
    decreases |frames|
  {
    if i < |frames| - 1 { FramedPtesAt(frames[..|frames| - 1], flags, i); }
  }

  /** Page i of a linear segment leads to the frame at the fixed distance, with the segment's flags and the valid bit. */
  lemma LinearTranslation(p: Progress, flags: nat, n: nat, i: nat)
    requires Sound(p.a) && flags < 0x400 && p.ptes == LinearPtes(p.start, n, flags) && i < n
    ensures Walk(p.b.ram, p.b.shape.root, PageKey(p.start, i)) ==
            if Accessible(flags) then Frame((p.start + i - KERNEL_PAGE_OFFSET) % PPN_LIMIT, flags / 2 * 2 + 1) else Fault
  {
    WalkAfterMapping(p, PageKey(p.start, i));
    LinearPtesAt(p.start, n, flags, i);
    LinearPteMeaning(p.start + i, flags);
    MeaningOfFlags(LinearPte(p.start + i, flags), (p.start + i - KERNEL_PAGE_OFFSET) % PPN_LIMIT, flags);
  }

  /** Page i of a framed segment leads to a frame of its own: free before, no table now, different for every page. */
  lemma FramedTranslation(p: Progress, flags: nat, i: nat, j: nat)
    requires Sound(p.a) && flags < 0x400 && p.ptes == FramedPtes(p.frames, flags) && i < |p.frames|
    ensures Walk(p.b.ram, p.b.shape.root, PageKey(p.start, i)) ==
            if Accessible(flags) then Frame(p.frames[i], flags / 2 * 2 + 1) else Fault
    ensures p.frames[i] in p.a.free && p.frames[i] !in p.b.free && Unused(p.b.shape, p.frames[i])
    ensures i < |p.pages| && p.frames[i] in p.b.ram && p.b.ram[p.frames[i]] == p.pages[i]
    ensures j < i ==> p.frames[j] != p.frames[i]
  {
    assert Maps(p, 0) && HoldsPage(p.a, p.b, p.frames, p.pages, i) && TwoFrames(p.frames, j, i);
    assert FreeFrame(p.a, p.frames[i]);
    WalkAfterMapping(p, PageKey(p.start, i));
    FramedPtesAt(p.frames, flags, i);
    FramedPteMeaning(p.frames[i], flags);
    MeaningOfFlags(FramedPte(p.frames[i] * PAGE_SIZE, flags), p.frames[i], flags);
  }

  // ----- contents -------------------------------------------------------------------

  /** Byte k, counted from the first page of the segment, read through the translation. */
  lemma LoadedContents(p: Progress, flags: nat, data: seq<byte>, length: nat, k: nat)
    requires Sound(p.a) && flags < 0x400 && Accessible(flags) && length <= |data|
    requires p.ptes == FramedPtes(p.frames, flags) && DataPages(p.pages, data, length)
    requires k < |p.ptes| * PAGE_SIZE && CanonicalVpn(p.start + k / PAGE_SIZE)
    ensures Load(p.b.ram, p.b.shape.root, p.start * PAGE_SIZE + k) == Loaded(DataByte(data, length, k))
  {
    var i := k / PAGE_SIZE;
    FramedTranslation(p, flags, i, i);
    assert DataPageAt(p.pages, data, length, i);
    PageAndOffset(p.start, k);
    assert PageByte(p.pages[i], k % PAGE_SIZE) == DataByte(data, length, i * PAGE_SIZE + k % PAGE_SIZE);
  }

  lemma PageAndOffset(start: nat, k: nat)
    ensures (start * PAGE_SIZE + k) / PAGE_SIZE == start + k / PAGE_SIZE
    ensures (start * PAGE_SIZE + k) % PAGE_SIZE == k % PAGE_SIZE
    ensures k / PAGE_SIZE * PAGE_SIZE + k % PAGE_SIZE == k
  {
  }

  /** Seen from the segment's start address, the data is shifted by the offset of that address in its page:
      byte i of the segment is byte i of the data exactly when the two agree under that shift. */
  lemma LoadedFromStartAddress(p: Progress, segment: Segment, data: seq<byte>, length: nat, i: nat)
    requires Sound(p.a) && segment.flags < 0x400 && Accessible(segment.flags) && length <= |data|
    requires p.ptes == FramedPtes(p.frames, segment.flags) && DataPages(p.pages, data, length)
    requires p.start == StartVpn(segment)
    requires var k := segment.startVaddr % PAGE_SIZE + i; k < |p.ptes| * PAGE_SIZE && CanonicalVpn(p.start + k / PAGE_SIZE)
    ensures Load(p.b.ram, p.b.shape.root, segment.startVaddr + i)
            == Loaded(DataByte(data, length, segment.startVaddr % PAGE_SIZE + i))
    ensures segment.startVaddr % PAGE_SIZE == 0 ==>
            Load(p.b.ram, p.b.shape.root, segment.startVaddr + i) == Loaded(DataByte(data, length, i))
  {
    assert segment.startVaddr == p.start * PAGE_SIZE + segment.startVaddr % PAGE_SIZE;
    LoadedContents(p, segment.flags, data, length, segment.startVaddr % PAGE_SIZE + i);
  }

  /** So a start address inside a page does lead to the wrong bytes: data that begins with a 1 and goes on with zeros
      reads as a zero at the start address. */
  lemma UnalignedStartIsShifted(p: Progress, segment: Segment, data: seq<byte>)
    requires Sound(p.a) && segment.flags < 0x400 && Accessible(segment.flags)
    requires |data| > 0 && data[0] == 1 && forall k :: 0 < k < |data| ==> data[k] == 0
    requires p.ptes == FramedPtes(p.frames, segment.flags) && DataPages(p.pages, data, |data|) && p.ptes != []
    requires p.start == StartVpn(segment) && CanonicalVpn(p.start) && segment.startVaddr % PAGE_SIZE != 0
    ensures Load(p.b.ram, p.b.shape.root, segment.startVaddr) == Loaded(0)
  {
    LoadedFromStartAddress(p, segment, data, |data|, 0);
  }

  /** A byte that could be loaded before from a frame in use keeps its value while more is mapped. */
  lemma LoadKept(a: State, b: State, va: nat)
    requires Extended(a, b) && va / PAGE_SIZE % VPN_LIMIT in a.shape.leaf
    requires var t := Walk(a.ram, a.shape.root, va / PAGE_SIZE % VPN_LIMIT);
             t.Frame? ==> t.ppn in a.ram && t.ppn !in a.free && Unused(a.shape, t.ppn)
    ensures Load(b.ram, b.shape.root, va) == Load(a.ram, a.shape.root, va)
  {
    var vpn := va / PAGE_SIZE % VPN_LIMIT;
    TranslationKept(a, b, vpn);
    var t := Walk(a.ram, a.shape.root, vpn);
    if t.Frame? {
      assert KeepsPage(a, b, t.ppn);
    }
  }

  /** The frame behind page i of a framed segment is in use, and its page is mapped. */
  lemma FrameInUse(p: Progress, flags: nat, i: nat)
    requires Sound(p.a) && flags < 0x400
    requires p.ptes == FramedPtes(p.frames, flags) && i < |p.ptes|
    ensures PageKey(p.start, i) in p.b.shape.leaf
    ensures var t := Walk(p.b.ram, p.b.shape.root, PageKey(p.start, i));
            t.Frame? ==> t.ppn in p.b.ram && t.ppn !in p.b.free && Unused(p.b.shape, t.ppn)
  {
    FramedTranslation(p, flags, i, i);
    assert Maps(p, 0);
    AddPagesLookup(p.a.shape.leaf, p.start, p.ptes);
  }

  /** So the contents of a segment survive all later mappings. */
  lemma ContentsKept(p: Progress, c: State, flags: nat, k: nat)
    requires Sound(p.a) && Extended(p.b, c) && flags < 0x400
    requires p.ptes == FramedPtes(p.frames, flags) && k < |p.ptes| * PAGE_SIZE
    ensures Load(c.ram, c.shape.root, p.start * PAGE_SIZE + k) == Load(p.b.ram, p.b.shape.root, p.start * PAGE_SIZE + k)
  {
    FrameInUse(p, flags, k / PAGE_SIZE);
    PageAndOffset(p.start, k);
    LoadKept(p.b, c, p.start * PAGE_SIZE + k);
  }
}
