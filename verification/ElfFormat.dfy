/** kernel/elf.h: the headers of an ELF file as structures laid out in bytes, and how the kernel reads them. */
module ElfFormat {
  import opened Memory

  /** The little-endian number in the bytes. */
  function Number(bytes: seq<byte>): nat {
    if bytes == [] then 0 else bytes[0] as nat + 0x100 * Number(bytes[1..])
  }

  /** The fields that are read from the ELF header, and from a program header, at their offsets. */
  datatype ElfHeader = ElfHeader(magic: nat, phoff: nat, phnum: nat)
  datatype ProgHeader = ProgHeader(kind: nat, flags: nat, off: nat, vaddr: nat, filesz: nat, memsz: nat)

  const ELF_HEADER_SIZE: nat := 64
  const PROG_HEADER_SIZE: nat := 56

  function ReadElfHeader(elf: seq<byte>): ElfHeader
    requires ELF_HEADER_SIZE <= |elf|
  {
    ElfHeader(Number(elf[0..4]), Number(elf[32..40]), Number(elf[56..58]))
  }

  function ReadProgHeader(elf: seq<byte>, at: nat): ProgHeader
    requires at + PROG_HEADER_SIZE <= |elf|
  {
    ProgHeader(Number(elf[at..at + 4]), Number(elf[at + 4..at + 8]), Number(elf[at + 8..at + 16]),
               Number(elf[at + 16..at + 24]), Number(elf[at + 32..at + 40]), Number(elf[at + 40..at + 48]))
  }

  const ELF_MAGIC: nat := 0x464C_457F

  /** The magic number is 0x7f, 'E', 'L', 'F' at the beginning of the file. */
  lemma MagicBytes(elf: seq<byte>)
    requires ELF_HEADER_SIZE <= |elf|
    ensures ReadElfHeader(elf).magic == ELF_MAGIC <==> elf[..4] == [0x7f, 0x45, 0x4c, 0x46]
  {
    var b := elf[0..4];
    assert Number(b) == b[0] as nat + 0x100 * Number(b[1..]);
    assert Number(b[1..]) == b[1] as nat + 0x100 * Number(b[1..][1..]);
    assert Number(b[1..][1..]) == b[2] as nat + 0x100 * Number(b[1..][1..][1..]);
    assert Number(b[1..][1..][1..]) == b[3] as nat;
  }

  // ----- structures in memory ---------------------------------------------------

  /** A number in k bytes, the lowest first. */
  function Encoded(x: nat, k: nat): (bytes: seq<byte>)
    ensures |bytes| == k
  {
    if k == 0 then [] else [(x % 0x100) as byte] + Encoded(x / 0x100, k - 1)
  }

  lemma {:induction false} NumberOfEncoded(x: nat, k: nat)
    requires x < Capacity(k)
    ensures Number(Encoded(x, k)) == x
    decreases k
  {
    if k > 0 {
      UpperBytes(x, Capacity(k - 1));
      NumberOfEncoded(x / 0x100, k - 1);
      assert Encoded(x, k)[1..] == Encoded(x / 0x100, k - 1);
    }
  }

  /** The fields of a structure, in order: widths in bytes, and values. */
  datatype Fields = NoFields | Field(width: nat, value: nat, rest: Fields)

  /** The structure in memory: its fields end to end. */
  function Laid(f: Fields): seq<byte> {
    match f
    case NoFields => []
    case Field(width, value, rest) => Encoded(value, width) + Laid(rest)
  }

  /** How many bytes the fields take. */
  function Size(f: Fields): (n: nat)
    ensures n == |Laid(f)|
  {
    match f
    case NoFields => 0
    case Field(width, _, rest) => width + Size(rest)
  }

  /** Every value has room in its field. */
  predicate AllFit(f: Fields) {
    match f
    case NoFields => true
    case Field(width, value, rest) => value < Capacity(width) && AllFit(rest)
  }

  /** The structure with these fields lies at `at`. */
  predicate LiesAt(file: seq<byte>, at: nat, f: Fields) {
    AllFit(f) && at + Size(f) <= |file| && file[at..at + Size(f)] == Laid(f)
  }

  /** The first field is read back, and the others lie behind it. */
  lemma FirstField(file: seq<byte>, at: nat, f: Fields)
    requires f.Field? && LiesAt(file, at, f)
    ensures at + f.width <= |file| && Number(file[at..at + f.width]) == f.value
    ensures LiesAt(file, at + f.width, f.rest)
  {
    NumberOfEncoded(f.value, f.width);
    var all := Laid(f);
    assert all[..f.width] == Encoded(f.value, f.width) && all[f.width..] == Laid(f.rest);
    assert file[at..at + f.width] == all[..f.width];
    assert file[at + f.width..at + f.width + Size(f.rest)] == all[f.width..];
  }

  // ----- the two structures --------------------------------------------------------

  /** struct ElfHeader. */
  datatype ElfStruct = ElfStruct(magic: nat, elf: nat, kind: nat, machine: nat, version: nat, entry: nat, phoff: nat, shoff: nat,
                                 flags: nat, ehsize: nat, phentsize: nat, phnum: nat, shentsize: nat, shnum: nat, shstrndx: nat)

  function ElfFields(h: ElfStruct): Fields {
    Field(4, h.magic, Field(12, h.elf, Field(2, h.kind, Field(2, h.machine, Field(4, h.version, Field(8, h.entry,
    Field(8, h.phoff, Field(8, h.shoff, Field(4, h.flags, Field(2, h.ehsize, Field(2, h.phentsize, Field(2, h.phnum,
    Field(2, h.shentsize, Field(2, h.shnum, Field(2, h.shstrndx, NoFields)))))))))))))))
  }

  /** struct ProgHeader. */
  datatype ProgStruct = ProgStruct(kind: nat, flags: nat, off: nat, vaddr: nat, paddr: nat, filesz: nat, memsz: nat, align: nat)

  function ProgFields(p: ProgStruct): Fields {
    Field(4, p.kind, Field(4, p.flags, Field(8, p.off, Field(8, p.vaddr, Field(8, p.paddr, Field(8, p.filesz,
    Field(8, p.memsz, Field(8, p.align, NoFields))))))))
  }

  lemma ProgSize(p: ProgStruct)
    ensures Size(ProgFields(p)) == 56
  {
    var f := ProgFields(p);
    assert Size(f.rest.rest.rest.rest.rest.rest) == 16;
    assert Size(f.rest.rest.rest.rest) == 32;
    assert Size(f.rest.rest) == 48;
  }

  lemma ElfSize(h: ElfStruct)
    ensures Size(ElfFields(h)) == 64
  {
    var f := ElfFields(h);
    var g := f.rest.rest.rest.rest.rest.rest.rest;
    assert Size(g.rest.rest.rest.rest.rest.rest) == 4;
    assert Size(g.rest.rest.rest.rest) == 8;
    assert Size(g.rest.rest) == 12;
    assert Size(g) == 24;
    assert Size(f.rest.rest.rest.rest.rest) == 40;
    assert Size(f.rest.rest.rest) == 46;
    assert Size(f.rest) == 60;
  }

  /** A program header that lies anywhere in a file is read with the values of its own fields. */
  lemma ProgHeaderIsRead(file: seq<byte>, at: nat, p: ProgStruct)
    requires LiesAt(file, at, ProgFields(p))
    ensures at + PROG_HEADER_SIZE <= |file|
    ensures ReadProgHeader(file, at) == ProgHeader(p.kind, p.flags, p.off, p.vaddr, p.filesz, p.memsz)
  {
    var f := ProgFields(p);
    FirstField(file, at, f);
    FirstField(file, at + 4, f.rest);
    FirstField(file, at + 8, f.rest.rest);
    FirstField(file, at + 16, f.rest.rest.rest);
    FirstField(file, at + 24, f.rest.rest.rest.rest);
    FirstField(file, at + 32, f.rest.rest.rest.rest.rest);
    FirstField(file, at + 40, f.rest.rest.rest.rest.rest.rest);
  }

  /** The part of the ELF header from phoff on. */
  lemma ElfHeaderBehind(file: seq<byte>, h: ElfStruct)
    requires LiesAt(file, 0, ElfFields(h))
    ensures 4 <= |file| && Number(file[0..4]) == h.magic
    ensures LiesAt(file, 32, ElfFields(h).rest.rest.rest.rest.rest.rest)
  {
    var f := ElfFields(h);
    FirstField(file, 0, f);
    FirstField(file, 4, f.rest);
    FirstField(file, 16, f.rest.rest);
    FirstField(file, 18, f.rest.rest.rest);
    FirstField(file, 20, f.rest.rest.rest.rest);
    FirstField(file, 24, f.rest.rest.rest.rest.rest);
  }

  lemma ElfHeaderIsRead(file: seq<byte>, h: ElfStruct)
    requires LiesAt(file, 0, ElfFields(h))
    ensures ELF_HEADER_SIZE <= |file|
    ensures ReadElfHeader(file) == ElfHeader(h.magic, h.phoff, h.phnum)
  {
    ElfSize(h);
    ElfHeaderBehind(file, h);
    var g := ElfFields(h).rest.rest.rest.rest.rest.rest;
    FirstField(file, 32, g);
    FirstField(file, 40, g.rest);
    FirstField(file, 48, g.rest.rest);
    FirstField(file, 52, g.rest.rest.rest);
    FirstField(file, 54, g.rest.rest.rest.rest);
    FirstField(file, 56, g.rest.rest.rest.rest.rest);
  }

  // ----- a whole file ---------------------------------------------------------------

  /** The file begins with the ELF header, and the program headers stand one behind the other from phoff on. */
  ghost predicate IsFile(file: seq<byte>, h: ElfStruct, progs: seq<ProgStruct>) {
    && LiesAt(file, 0, ElfFields(h)) && h.phnum == |progs|
    && forall i: nat {:trigger progs[i]} :: i < |progs| ==> LiesAt(file, h.phoff + 56 * i, ProgFields(progs[i]))
  }

  /** Program headers one behind the other. */
  function Table(progs: seq<ProgStruct>): seq<byte> {
    if progs == [] then [] else Laid(ProgFields(progs[0])) + Table(progs[1..])
  }

  lemma {:induction false} TableSize(progs: seq<ProgStruct>)
    ensures |Table(progs)| == 56 * |progs|
  {
    if progs != [] {
      ProgSize(progs[0]);
      TableSize(progs[1..]);
    }
  }

  lemma {:induction false} TableAt(progs: seq<ProgStruct>, i: nat)
    requires i < |progs|
    ensures |Table(progs)| == 56 * |progs|
    ensures Table(progs)[56 * i..56 * i + 56] == Laid(ProgFields(progs[i]))
    decreases |progs|
  {
    TableSize(progs);
    TableSize(progs[1..]);
    ProgSize(progs[0]);
    var first, rest := Laid(ProgFields(progs[0])), Table(progs[1..]);
    if i > 0 {
      TableAt(progs[1..], i - 1);
      assert (first + rest)[56 * i..56 * i + 56] == rest[56 * (i - 1)..56 * (i - 1) + 56];
    }
  }

  lemma InTheMiddle(u: seq<byte>, v: seq<byte>, w: seq<byte>, from: nat, to: nat)
    requires from <= to <= |v|
    ensures (u + v + w)[|u| + from..|u| + to] == v[from..to]
  {
  }

  /** The file that a linker writes: the header, anything, the program headers and anything else. */
  function Written(h: ElfStruct, gap: seq<byte>, progs: seq<ProgStruct>, rest: seq<byte>): seq<byte> {
    Laid(ElfFields(h)) + gap + Table(progs) + rest
  }

  lemma HeaderInPlace(h: ElfStruct, gap: seq<byte>, progs: seq<ProgStruct>, rest: seq<byte>)
    requires AllFit(ElfFields(h))
    ensures LiesAt(Written(h, gap, progs, rest), 0, ElfFields(h))
  {
    var head := Laid(ElfFields(h));
    assert Written(h, gap, progs, rest) == [] + head + (gap + Table(progs) + rest);
    assert |head| == Size(ElfFields(h));
    InTheMiddle([], head, gap + Table(progs) + rest, 0, |head|);
  }

  lemma EntryInPlace(h: ElfStruct, gap: seq<byte>, progs: seq<ProgStruct>, rest: seq<byte>, i: nat)
    requires i < |progs| && AllFit(ProgFields(progs[i]))
    ensures LiesAt(Written(h, gap, progs, rest), 64 + |gap| + 56 * i, ProgFields(progs[i]))
  {
    TableAt(progs, i);
    ElfSize(h);
    ProgSize(progs[i]);
    InTheMiddle(Laid(ElfFields(h)) + gap, Table(progs), rest, 56 * i, 56 * i + 56);
  }

  lemma WrittenIsFile(h: ElfStruct, gap: seq<byte>, progs: seq<ProgStruct>, rest: seq<byte>)
    requires AllFit(ElfFields(h)) && forall p <- progs :: AllFit(ProgFields(p))
    requires h.phoff == 64 + |gap| && h.phnum == |progs|
    ensures IsFile(Written(h, gap, progs, rest), h, progs)
  {
    HeaderInPlace(h, gap, progs, rest);
    forall i: nat | i < |progs|
      ensures LiesAt(Written(h, gap, progs, rest), h.phoff + 56 * i, ProgFields(progs[i]))
    {
      EntryInPlace(h, gap, progs, rest, i);
    }
  }
}
