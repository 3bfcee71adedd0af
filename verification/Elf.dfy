/** kernel/elf.c: the address space of a user process, made from an ELF image. */
module Elf {
  import opened Basics
  import opened Memory
  import opened Sv39
  import opened MappingState
  import opened MappingKeys
  import opened Segments
  import opened Framed
  import opened AddressTranslation
  import opened KernelSpace
  import opened ElfFormat

  const ELF_PROG_LOAD: nat := 1
  const USER: nat := 16

  function HeaderAt(elf: seq<byte>, i: nat): ProgHeader
    requires TableFits(elf) && i < ReadElfHeader(elf).phnum
  {
    ReadProgHeader(elf, ReadElfHeader(elf).phoff + i * PROG_HEADER_SIZE)
  }

  predicate TableFits(elf: seq<byte>) {
    64 <= |elf| && ReadElfHeader(elf).phoff + ReadElfHeader(elf).phnum * PROG_HEADER_SIZE <= |elf|
  }

  predicate DataFits(elf: seq<byte>, i: nat)
    requires TableFits(elf)
  {
    i < ReadElfHeader(elf).phnum && HeaderAt(elf, i).kind == ELF_PROG_LOAD ==>
      HeaderAt(elf, i).off + HeaderAt(elf, i).filesz <= |elf|
  }

  /** The headers point into the image; the code reads what they point to without looking. */
  ghost predicate WellFormed(elf: seq<byte>) {
    TableFits(elf) && forall i: nat {:trigger DataFits(elf, i)} :: DataFits(elf, i)
  }

  /** The page-table flags for the permissions of a program header: valid, for user mode, and bit by bit the permissions. */
  function PteFlags(flags: nat): (ma: nat)
    ensures ma < 0x20 && V(ma) && ma / USER == 1
    ensures (X(ma) <==> flags % 2 == 1) && (W(ma) <==> flags / 2 % 2 == 1) && (R(ma) <==> flags / 4 % 2 == 1)
  {
    1 + USER + flags % 2 * EXECUTABLE + flags / 2 % 2 * WRITABLE + flags / 4 % 2 * READABLE
  }

  method ConvertElfFlags(flags: nat) returns (ma: nat)
    ensures ma == PteFlags(flags)
  {
    ma := 1;
    ma := ma + USER;
    if flags % 2 == 1 { ma := ma + EXECUTABLE; }
    if flags / 2 % 2 == 1 { ma := ma + WRITABLE; }
    if flags / 4 % 2 == 1 { ma := ma + READABLE; }
  }

  /** The segment of a program header; the end address is a 64-bit sum. */
  function SegmentOf(h: ProgHeader): Segment {
    Segment(h.vaddr, (h.vaddr + h.memsz) % WORD_LIMIT, PteFlags(h.flags))
  }

  /** Byte k of the pages of a LOAD header is readable through the address space b,
      and is byte k of the header's data, or zero behind them. */
  ghost predicate ByteLoaded(b: State, elf: seq<byte>, h: ProgHeader, k: nat)
    requires h.off + h.filesz <= |elf|
  {
    var segment := SegmentOf(h);
    k < PageCount(segment) * PAGE_SIZE && CanonicalVpn(StartVpn(segment) + k / PAGE_SIZE) && Accessible(segment.flags) ==>
      Load(b.ram, b.shape.root, StartVpn(segment) * PAGE_SIZE + k) == Loaded(DataByte(elf[h.off..], h.filesz, k))
  }

  /** A page that user programs may use with exactly the permissions of a program header (1 execute, 2 write, 4 read),
      or that faults because the processor has no such page: without any right to read or execute, or writable only. */
  predicate UserPage(t: Translation, flags: nat) {
    match t
    case Fault => flags / 4 % 2 == 0 && (flags % 2 == 0 || flags / 2 % 2 == 1)
    case Frame(_, f) =>
      && f % 2 == 1 && f / 16 % 2 == 1 && f / 32 == 0
      && f / 8 % 2 == flags % 2 && f / 4 % 2 == flags / 2 % 2 && f / 2 % 2 == flags / 4 % 2
  }

  /** Page k of a LOAD header, as the processor sees it. */
  ghost predicate PageProtected(b: State, h: ProgHeader, k: nat) {
    k < PageCount(SegmentOf(h)) ==> UserPage(Walk(b.ram, b.shape.root, PageKey(StartVpn(SegmentOf(h)), k)), h.flags)
  }

  ghost predicate SegmentLoaded(b: State, elf: seq<byte>, i: nat)
    requires WellFormed(elf)
  {
    i < ReadElfHeader(elf).phnum && HeaderAt(elf, i).kind == ELF_PROG_LOAD ==>
      assert DataFits(elf, i);
      && (forall k: nat {:trigger ByteLoaded(b, elf, HeaderAt(elf, i), k)} :: ByteLoaded(b, elf, HeaderAt(elf, i), k))
      && (forall k: nat {:trigger PageProtected(b, HeaderAt(elf, i), k)} :: PageProtected(b, HeaderAt(elf, i), k))
  }

  /** Mapping p was the one for header h, and b has come out of it. */
  ghost predicate LoadedBy(p: Progress, b: State, elf: seq<byte>, h: ProgHeader)
    requires h.off + h.filesz <= |elf|
  {
    && Sound(p.a) && Extended(p.b, b) && p.start == StartVpn(SegmentOf(h)) && |p.ptes| == PageCount(SegmentOf(h))
    && p.ptes == FramedPtes(p.frames, PteFlags(h.flags)) && DataPages(p.pages, elf[h.off..], h.filesz)
  }

  ghost predicate HeaderDone(loads: seq<Progress>, b: State, elf: seq<byte>, i: nat)
    requires WellFormed(elf)
  {
    i < |loads| && i < ReadElfHeader(elf).phnum && HeaderAt(elf, i).kind == ELF_PROG_LOAD ==>
      assert DataFits(elf, i);
      LoadedBy(loads[i], b, elf, HeaderAt(elf, i))
  }

  /** The first |loads| headers have been dealt with. */
  ghost predicate HeadersDone(loads: seq<Progress>, b: State, elf: seq<byte>)
    requires WellFormed(elf)
  {
    forall i: nat {:trigger HeaderDone(loads, b, elf, i)} :: HeaderDone(loads, b, elf, i)
  }

  lemma BytesOfLoad(p: Progress, b: State, elf: seq<byte>, h: ProgHeader, k: nat)
    requires h.off + h.filesz <= |elf| && LoadedBy(p, b, elf, h)
    ensures ByteLoaded(b, elf, h, k)
  {
    var segment := SegmentOf(h);
    if k < PageCount(segment) * PAGE_SIZE && CanonicalVpn(StartVpn(segment) + k / PAGE_SIZE) && Accessible(segment.flags) {
      LoadedContents(p, segment.flags, elf[h.off..], h.filesz, k);
      ContentsKept(p, b, segment.flags, k);
    }
  }

  lemma FlagsForUser(flags: nat, ppn: nat)
    ensures UserPage(if Accessible(PteFlags(flags)) then Frame(ppn, PteFlags(flags) / 2 * 2 + 1) else Fault, flags)
  {
    var ma := PteFlags(flags);
    assert ma / 2 * 2 + 1 == ma && ma / 16 == 1 && ma / 32 == 0;
  }

  lemma PageOfLoad(p: Progress, b: State, elf: seq<byte>, h: ProgHeader, k: nat)
    requires h.off + h.filesz <= |elf| && LoadedBy(p, b, elf, h)
    ensures PageProtected(b, h, k)
  {
    if k < PageCount(SegmentOf(h)) {
      FramedTranslation(p, PteFlags(h.flags), k, k);
      FrameInUse(p, PteFlags(h.flags), k);
      TranslationKept(p.b, b, PageKey(p.start, k));
      FlagsForUser(h.flags, p.frames[k]);
    }
  }

  lemma AllBytes(loads: seq<Progress>, b: State, elf: seq<byte>)
    requires WellFormed(elf) && HeadersDone(loads, b, elf) && |loads| == ReadElfHeader(elf).phnum
    ensures forall i: nat {:trigger SegmentLoaded(b, elf, i)} :: SegmentLoaded(b, elf, i)
  {
    forall i: nat
      ensures SegmentLoaded(b, elf, i)
    {
      assert HeaderDone(loads, b, elf, i) && DataFits(elf, i);
      if i < |loads| && HeaderAt(elf, i).kind == ELF_PROG_LOAD {
        forall k: nat
          ensures ByteLoaded(b, elf, HeaderAt(elf, i), k)
        {
          BytesOfLoad(loads[i], b, elf, HeaderAt(elf, i), k);
        }
        forall k: nat
          ensures PageProtected(b, HeaderAt(elf, i), k)
        {
          PageOfLoad(loads[i], b, elf, HeaderAt(elf, i), k);
        }
      }
    }
  }

  /** One more header: the mappings before it survive, and its own has been made if it is a LOAD header. */
  lemma OneMoreHeader(loads: seq<Progress>, p: Progress, b: State, c: State, elf: seq<byte>)
    requires WellFormed(elf) && HeadersDone(loads, b, elf) && Extended(b, c) && |loads| < ReadElfHeader(elf).phnum
    requires HeaderAt(elf, |loads|).kind == ELF_PROG_LOAD ==>
               DataFits(elf, |loads|) && LoadedBy(p, c, elf, HeaderAt(elf, |loads|))
    ensures HeadersDone(loads + [p], c, elf)
  {
    forall i: nat
      ensures HeaderDone(loads + [p], c, elf, i)
    {
      assert HeaderDone(loads, b, elf, i) && DataFits(elf, i);
      if i < |loads| && HeaderAt(elf, i).kind == ELF_PROG_LOAD { ExtendedTransitive(loads[i].b, b, c); }
    }
  }

  lemma NothingExtended(a: State)
    requires Sound(a)
    ensures Extended(a, a)
  {
    NothingGrown(a);
    forall k
      ensures SameLeaf(a.shape.leaf, a.shape.leaf, k)
    {
    }
  }

  predicate IsLoad(elf: seq<byte>, i: nat)
    requires TableFits(elf)
  {
    i < ReadElfHeader(elf).phnum && HeaderAt(elf, i).kind == ELF_PROG_LOAD
  }

  function RunOf(h: ProgHeader): PageRun { PageRun(StartVpn(SegmentOf(h)), PageCount(SegmentOf(h))) }

  /** The pages of the LOAD headers from i on. */
  function LoadRuns(elf: seq<byte>, i: nat): seq<PageRun>
    requires TableFits(elf)
    decreases ReadElfHeader(elf).phnum - i
  {
    if i >= ReadElfHeader(elf).phnum then []
    else (if IsLoad(elf, i) then [RunOf(HeaderAt(elf, i))] else []) + LoadRuns(elf, i + 1)
  }

  /** The LOAD headers from i on can be mapped. */
  ghost predicate LoadsFit(k: Keys, free: int, elf: seq<byte>, i: nat)
    requires TableFits(elf)
  {
    RunsFit(k, free, LoadRuns(elf, i))
  }

  lemma NoneLeft(k: Keys, free: int, elf: seq<byte>)
    requires TableFits(elf)
    ensures LoadsFit(k, free, elf, ReadElfHeader(elf).phnum)
  {
  }

  lemma LoadSkipped(k: Keys, free: int, elf: seq<byte>, i: nat)
    requires TableFits(elf) && i < ReadElfHeader(elf).phnum && !IsLoad(elf, i)
    ensures LoadsFit(k, free, elf, i) <==> LoadsFit(k, free, elf, i + 1)
  {
    assert LoadRuns(elf, i) == LoadRuns(elf, i + 1);
  }

  lemma LoadNext(k: Keys, free: int, elf: seq<byte>, i: nat, run: PageRun)
    requires TableFits(elf) && IsLoad(elf, i) && run == RunOf(HeaderAt(elf, i))
    ensures LoadsFit(k, free, elf, i) <==>
            RunFree(k, run) && RunCost(k, run) <= free && LoadsFit(AfterRun(k, run), free - RunCost(k, run), elf, i + 1)
  {
    assert LoadRuns(elf, i)[1..] == LoadRuns(elf, i + 1);
  }

  /** What newKernelMapping leaves mapped. */
  ghost function KernelKeys(): Keys {
    KeysAfter(Keys({}, {}, {}), StartPage(), KERNEL_PAGES)
  }

  lemma KernelHasItsKeys(kernel: Progress)
    requires Empty(kernel.a) && kernel.start == StartPage() && |kernel.ptes| == KERNEL_PAGES
    ensures KeysOf(kernel.b.shape) == KernelKeys()
  {
    KeysOfMapped(kernel);
  }

  datatype LoadOutcome = Success | Panic(reason: Outcome) | UnknownFileType

  /** The address space after the mapping p for header h. */
  lemma HeaderIsLoaded(p: Progress, elf: seq<byte>, h: ProgHeader)
    requires Sound(p.a) && h.off + h.filesz <= |elf| && p.start == StartVpn(SegmentOf(h)) && |p.ptes| == PageCount(SegmentOf(h))
    requires p.ptes == FramedPtes(p.frames, PteFlags(h.flags)) && DataPages(p.pages, elf[h.off..], h.filesz)
    ensures Extended(p.a, p.b) && LoadedBy(p, p.b, elf, h) && KeysOf(p.b.shape) == AfterRun(KeysOf(p.a.shape), RunOf(h))
  {
    KeysOfMapped(p);
    ProgressExtends(p);
    NothingExtended(p.b);
  }

  /** Maps the segment of one LOAD header and copies its data. */
  method MapHeader(mem: PhysicalMemory, m: Mapping, elf: seq<byte>, h: ProgHeader, ghost a: State)
      returns (r: Outcome, ghost p: Progress)
    requires In(mem, a) && Sound(a) && a.shape.root == m.rootPpn && h.off + h.filesz <= |elf|
    modifies mem`ram, mem.frames`free, mem.frames.node
    ensures r == Done <==> RunFree(KeysOf(a.shape), RunOf(h)) && RunCost(KeysOf(a.shape), RunOf(h)) <= |a.free|
    ensures r == Done ==> In(mem, p.b) && Extended(a, p.b) && p.b.shape.root == a.shape.root && LoadedBy(p, p.b, elf, h)
    ensures r == Done ==> KeysOf(p.b.shape) == AfterRun(KeysOf(a.shape), RunOf(h))
    ensures r == Done ==> |a.free| == |p.b.free| + RunCost(KeysOf(a.shape), RunOf(h))
  {
    var flags := ConvertElfFlags(h.flags);
    var vhStart, vhEnd := h.vaddr, (h.vaddr + h.memsz) % WORD_LIMIT;
    var segment := Segment(vhStart, vhEnd, flags);
    assert segment == SegmentOf(h);
    MappableByKeys(a, RunOf(h));
    r, p := MapFramedAndCopy(mem, m, segment, elf[h.off..], h.filesz, a);
    if r == Done { HeaderIsLoaded(p, elf, h); }
  }

  /** One pass of the loop: deals with header i, after those of `loads`. */
  method NextHeader(mem: PhysicalMemory, m: Mapping, elf: seq<byte>, i: nat, offset: nat, ghost loads: seq<Progress>, ghost b: State)
      returns (r: Outcome, ghost p: Progress, ghost c: State)
    requires In(mem, b) && Sound(b) && b.shape.root == m.rootPpn && WellFormed(elf)
    requires i == |loads| < ReadElfHeader(elf).phnum && HeadersDone(loads, b, elf)
    requires offset == ReadElfHeader(elf).phoff + i * PROG_HEADER_SIZE
    modifies mem`ram, mem.frames`free, mem.frames.node
    ensures r != Done ==> !LoadsFit(KeysOf(b.shape), |b.free|, elf, i)
    ensures r == Done ==> In(mem, c) && Extended(b, c) && c.shape.root == m.rootPpn && HeadersDone(loads + [p], c, elf)
    ensures r == Done ==> (LoadsFit(KeysOf(b.shape), |b.free|, elf, i) <==> LoadsFit(KeysOf(c.shape), |c.free|, elf, i + 1))
  {
    var pHeader := ReadProgHeader(elf, offset);
    assert pHeader == HeaderAt(elf, i) && DataFits(elf, i);
    r, p, c := Done, NothingMappedYet(b, 0), b;
    if pHeader.kind == ELF_PROG_LOAD {
      LoadNext(KeysOf(b.shape), |b.free|, elf, i, RunOf(pHeader));
      r, p := MapHeader(mem, m, elf, pHeader, b);
      if r != Done {
        return;
      }
      c := p.b;
    } else {
      NothingExtended(b);
      LoadSkipped(KeysOf(b.shape), |b.free|, elf, i);
    }
    OneMoreHeader(loads, p, b, c, elf);
  }

  /** The loop over the program headers: maps the segments of all LOAD headers into the address space a. */
  method MapHeaders(mem: PhysicalMemory, m: Mapping, elf: seq<byte>, ghost a: State) returns (r: Outcome, ghost b: State)
    requires In(mem, a) && Sound(a) && a.shape.root == m.rootPpn && WellFormed(elf)
    modifies mem`ram, mem.frames`free, mem.frames.node
    ensures r == Done <==> LoadsFit(KeysOf(a.shape), |a.free|, elf, 0)
    ensures r == Done ==> In(mem, b) && Extended(a, b) && b.shape.root == m.rootPpn
    ensures r == Done ==> forall i: nat {:trigger SegmentLoaded(b, elf, i)} :: SegmentLoaded(b, elf, i)
  {
    var eHeader := ReadElfHeader(elf);
    var offset := eHeader.phoff;
    NothingExtended(a);
    r, b := Done, a;
    ghost var loads: seq<Progress> := [];
    for i := 0 to eHeader.phnum
      invariant In(mem, b) && b.shape.root == m.rootPpn && Extended(a, b)
      invariant |loads| == i && HeadersDone(loads, b, elf)
      invariant r == Done && offset == eHeader.phoff + i * PROG_HEADER_SIZE
      invariant LoadsFit(KeysOf(a.shape), |a.free|, elf, 0) <==> LoadsFit(KeysOf(b.shape), |b.free|, elf, i)
    {
      ghost var p, c;
      r, p, c := NextHeader(mem, m, elf, i, offset, loads, b);
      if r != Done {
        return;
      }
      ExtendedTransitive(a, b, c);
      loads, b, offset := loads + [p], c, offset + PROG_HEADER_SIZE;
    }
    AllBytes(loads, b, elf);
    NoneLeft(KeysOf(b.shape), |b.free|, elf);
  }

  /** newUserMapping: the kernel's mapping, and in it the segments of all LOAD headers with their bytes. */
  method NewUserMapping(mem: PhysicalMemory, s: Symbols, elf: seq<byte>)
      returns (r: LoadOutcome, m: Mapping, ghost kernel: Progress, ghost b: State)
    requires mem.Valid() && Linked(s) && WellFormed(elf)
    modifies mem`ram, mem.frames`free, mem.frames.node
    ensures r == UnknownFileType <==> |old(mem.frames.free)| > KERNEL_TABLES && ReadElfHeader(elf).magic != ELF_MAGIC
    ensures r == Success <==>
              && |old(mem.frames.free)| > KERNEL_TABLES && ReadElfHeader(elf).magic == ELF_MAGIC
              && LoadsFit(KernelKeys(), |old(mem.frames.free)| - (KERNEL_TABLES + 1), elf, 0)
    ensures r == Success ==> In(mem, b) && b.shape.root == m.rootPpn
    ensures r == Success ==> Sound(kernel.a) && KernelPages(s, kernel) && |kernel.ptes| == KERNEL_PAGES && Extended(kernel.b, b)
    ensures r == Success ==>
              m.rootPpn in old(mem.frames.free) && kernel.a == RootOnly(old(mem.ram), old(mem.frames.free), m.rootPpn)
    ensures r == Success ==> forall i: nat {:trigger SegmentLoaded(b, elf, i)} :: SegmentLoaded(b, elf, i)
  {
    var outcome;
    b := EmptyState();
    outcome, m, kernel := NewKernelMapping(mem, s);
    if outcome != Done {
      r := Panic(outcome);
      return;
    }
    if ReadElfHeader(elf).magic != ELF_MAGIC {
      r := UnknownFileType;
      return;
    }
    ProgressIsSound(kernel);
    KernelHasItsKeys(kernel);
    outcome, b := MapHeaders(mem, m, elf, kernel.b);
    r := if outcome == Done then Success else Panic(outcome);
  }

  /** What a process finds at the addresses its image names, when a segment begins on a page boundary:
      its own data, and zeros up to the end of its memory. */
  lemma ImageInPlace(b: State, elf: seq<byte>, i: nat, k: nat)
    requires WellFormed(elf) && i < ReadElfHeader(elf).phnum && HeaderAt(elf, i).kind == ELF_PROG_LOAD
    requires SegmentLoaded(b, elf, i)
    requires var h := HeaderAt(elf, i);
             && PageAligned(h.vaddr) && k < h.memsz && h.vaddr + h.memsz <= WORD_LIMIT && Accessible(PteFlags(h.flags))
             && CanonicalVpn((h.vaddr + k) / PAGE_SIZE)
    ensures DataFits(elf, i)
    ensures var h := HeaderAt(elf, i);
            Load(b.ram, b.shape.root, h.vaddr + k) == Loaded(if k < h.filesz then elf[h.off + k] else 0)
  {
    assert DataFits(elf, i);
    var h := HeaderAt(elf, i);
    var vpn := (h.vaddr + k) / PAGE_SIZE;
    PagesOfBytes(h.vaddr, h.memsz, PteFlags(h.flags), vpn);
    PageAndOffset(StartVpn(SegmentOf(h)), k);
    assert h.vaddr == StartVpn(SegmentOf(h)) * PAGE_SIZE;
    assert ByteLoaded(b, elf, h, k);
  }

  /** The program headers of a file are the ones that the kernel sees. */
  lemma HeadersOfFile(elf: seq<byte>, h: ElfStruct, progs: seq<ProgStruct>, i: nat)
    requires IsFile(elf, h, progs) && i < |progs|
    ensures TableFits(elf) && ReadElfHeader(elf) == ElfHeader(h.magic, h.phoff, |progs|)
    ensures var p := progs[i]; HeaderAt(elf, i) == ProgHeader(p.kind, p.flags, p.off, p.vaddr, p.filesz, p.memsz)
  {
    ElfHeaderIsRead(elf, h);
    assert LiesAt(elf, h.phoff + 56 * (|progs| - 1), ProgFields(progs[|progs| - 1]));
    ProgHeaderIsRead(elf, h.phoff + 56 * (|progs| - 1), progs[|progs| - 1]);
    ProgHeaderIsRead(elf, h.phoff + 56 * i, progs[i]);
  }

  /** So a readable segment of an ELF file is in memory as the file says, field by field of its header: from vaddr on the
      filesz bytes from off on, then zeros up to memsz, on pages that a user program may use as the flags say. */
  lemma FileInPlace(b: State, elf: seq<byte>, h: ElfStruct, progs: seq<ProgStruct>, i: nat, k: nat)
    requires WellFormed(elf) && IsFile(elf, h, progs) && i < |progs| && progs[i].kind == 1 && progs[i].flags / 4 % 2 == 1
    requires SegmentLoaded(b, elf, i)
    requires var p := progs[i];
             p.vaddr % 4096 == 0 && k < p.memsz && p.vaddr + p.memsz <= WORD_LIMIT && CanonicalVpn((p.vaddr + k) / PAGE_SIZE)
    ensures progs[i].off + progs[i].filesz <= |elf|
    ensures var p := progs[i]; Load(b.ram, b.shape.root, p.vaddr + k) == Loaded(if k < p.filesz then elf[p.off + k] else 0)
    ensures var p := progs[i]; UserPage(Walk(b.ram, b.shape.root, (p.vaddr + k) / PAGE_SIZE % VPN_LIMIT), p.flags)
  {
    HeadersOfFile(elf, h, progs, i);
    ImageInPlace(b, elf, i, k);
    PageOfByte(b, elf, i, k);
  }

  lemma PageOfByte(b: State, elf: seq<byte>, i: nat, k: nat)
    requires WellFormed(elf) && IsLoad(elf, i) && SegmentLoaded(b, elf, i)
    requires var h := HeaderAt(elf, i); k < h.memsz && h.vaddr + h.memsz <= WORD_LIMIT
    ensures var h := HeaderAt(elf, i); UserPage(Walk(b.ram, b.shape.root, (h.vaddr + k) / PAGE_SIZE % VPN_LIMIT), h.flags)
  {
    var h := HeaderAt(elf, i);
    var vpn := (h.vaddr + k) / PAGE_SIZE;
    PagesOfBytes(h.vaddr, h.memsz, PteFlags(h.flags), vpn);
    assert PageProtected(b, h, vpn - StartVpn(SegmentOf(h)));
  }
}
