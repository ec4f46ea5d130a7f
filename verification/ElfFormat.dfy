/** The structures of include/proc/elf.h as the bytes that a file holds, and loading an executable that is written in them. */
module ElfFormat {
  import opened Bytes
  import opened FatRead
  import opened FatTable
  import opened FatFiles
  import opened FatContent
  import opened Vfs
  import opened Elf

  // ---------- Headers ----------

  /** Every field of the ELF header that the loader reads, in the order of the structure. */
  datatype ElfHeader = ElfHeader(
    ident: seq<byte>, eType: nat, machine: nat, version: nat, entry: nat, phoff: nat, shoff: nat, flags: nat, ehsize: nat,
    phentsize: nat, phnum: nat)

  predicate HeaderFits(h: ElfHeader) {
    && |h.ident| == 16 && h.eType < 0x1_0000 && h.machine < 0x1_0000 && h.version < 0x1_0000_0000 && h.entry < 0x1_0000_0000
    && h.phoff < 0x1_0000_0000 && h.shoff < 0x1_0000_0000 && h.flags < 0x1_0000_0000 && h.ehsize < 0x1_0000
    && h.phentsize < 0x1_0000 && h.phnum < 0x1_0000
  }

  function HeaderBytes(h: ElfHeader): (s: seq<byte>)
    requires HeaderFits(h)
    ensures |s| == 46
  {
    h.ident + Le16(h.eType) + Le16(h.machine) + Le32(h.version) + Le32(h.entry) + Le32(h.phoff) + Le32(h.shoff) + Le32(h.flags)
    + Le16(h.ehsize) + Le16(h.phentsize) + Le16(h.phnum)
  }

  /** What is read of a header and the two bytes behind it, which the C structure is padded with. */
  lemma HeaderDecoded(h: ElfHeader, pad: seq<byte>)
    requires HeaderFits(h) && |pad| == 2
    ensures ReadEhdr(HeaderBytes(h) + pad) == Ehdr(h.ident, h.eType, h.entry, h.phoff, h.phentsize, h.phnum)
  {
    hide Le16, Le32;
    var s := HeaderBytes(h) + pad;
    assert s[..16] == h.ident;
    assert s[16..18] == Le16(h.eType);
    assert s[24..28] == Le32(h.entry);
    assert s[28..32] == Le32(h.phoff);
    assert s[42..44] == Le16(h.phentsize);
    assert s[44..46] == Le16(h.phnum);
    Field16(s, 16, h.eType);
    Field32(s, 24, h.entry);
    Field32(s, 28, h.phoff);
    Field16(s, 42, h.phentsize);
    Field16(s, 44, h.phnum);
  }

  /** An executable for this machine: the magic number, 32 bits, little-endian, and of the executable type. */
  predicate Executable(h: ElfHeader)
    requires HeaderFits(h)
  {
    && h.ident[0] == 0x7F && h.ident[1] == 'E' as int && h.ident[2] == 'L' as int && h.ident[3] == 'F' as int
    && h.ident[4] == 1 && h.ident[5] == 1 && h.eType == 2
  }

  /** The check accepts exactly these. */
  lemma CheckIff(h: ElfHeader, pad: seq<byte>)
    requires HeaderFits(h) && |pad| == 2
    ensures CheckHdr(ReadEhdr(HeaderBytes(h) + pad)) <==> Executable(h)
  {
    HeaderDecoded(h, pad);
    hide HeaderBytes, ReadEhdr;
    assert h.ident[..4] == [h.ident[0], h.ident[1], h.ident[2], h.ident[3]];
  }

  /** Every field of a program header, in the order of the structure. */
  datatype ProgramHeader = ProgramHeader(pType: nat, offset: nat, vaddr: nat, paddr: nat, filesz: nat, memsz: nat, flags: nat, align: nat)

  predicate ProgramFits(p: ProgramHeader) {
    && p.pType < 0x1_0000_0000 && p.offset < 0x1_0000_0000 && p.vaddr < 0x1_0000_0000 && p.paddr < 0x1_0000_0000
    && p.filesz < 0x1_0000_0000 && p.memsz < 0x1_0000_0000 && p.flags < 0x1_0000_0000 && p.align < 0x1_0000_0000
  }

  function ProgramBytes(p: ProgramHeader): (s: seq<byte>)
    requires ProgramFits(p)
    ensures |s| == 32
  {
    Le32(p.pType) + Le32(p.offset) + Le32(p.vaddr) + Le32(p.paddr) + Le32(p.filesz) + Le32(p.memsz) + Le32(p.flags) + Le32(p.align)
  }

  lemma ProgramDecoded(p: ProgramHeader)
    requires ProgramFits(p)
    ensures ReadPhdr(ProgramBytes(p)) == Phdr(p.pType, p.offset, p.vaddr, p.filesz, p.memsz)
  {
    hide Le32;
    var s := ProgramBytes(p);
    assert s[0..4] == Le32(p.pType);
    assert s[4..8] == Le32(p.offset);
    assert s[8..12] == Le32(p.vaddr);
    assert s[16..20] == Le32(p.filesz);
    assert s[20..24] == Le32(p.memsz);
    Field32(s, 0, p.pType);
    Field32(s, 4, p.offset);
    Field32(s, 8, p.vaddr);
    Field32(s, 16, p.filesz);
    Field32(s, 20, p.memsz);
  }

  // ---------- Files ----------

  /** The file has these bytes at `at`. */
  ghost predicate FileHas(node: Node, chain: seq<nat>, at: nat, bytes: seq<byte>) {
    && node.fs.Some? && node.data.Some? && at + |bytes| <= node.data.value.fileSize
    && Content(node, chain, at, at + |bytes|) == bytes
  }

  /** A file with an ELF header and a table of program headers. */
  ghost predicate ElfFile(node: Node, chain: seq<nat>, h: ElfHeader, ps: seq<ProgramHeader>) {
    && HeaderFits(h) && |ps| == h.phnum && FileHas(node, chain, 0, HeaderBytes(h)) && 48 <= node.data.value.fileSize
    && forall i :: 0 <= i < |ps| ==> ProgramFits(ps[i]) && FileHas(node, chain, h.phoff + i * h.phentsize, ProgramBytes(ps[i]))
  }

  lemma ContentPrefix(node: Node, chain: seq<nat>, lo: nat, mid: nat, hi: nat)
    requires node.fs.Some? && lo <= mid <= hi
    ensures Content(node, chain, lo, hi)[..mid - lo] == Content(node, chain, lo, mid)
  {
  }

  /** The loader reads the fields that were written. */
  lemma HeaderIs(node: Node, chain: seq<nat>, h: ElfHeader, ps: seq<ProgramHeader>)
    requires ElfFile(node, chain, h, ps)
    ensures Header(node, chain) == Ehdr(h.ident, h.eType, h.entry, h.phoff, h.phentsize, h.phnum)
    ensures Accepted(node, chain) <==> Executable(h)
  {
    hide HeaderBytes, ReadEhdr, Content, CheckHdr, ProgramBytes, ContentByte;
    var s := Content(node, chain, 0, 48);
    ContentPrefix(node, chain, 0, 46, 48);
    assert s == HeaderBytes(h) + s[46..];
    HeaderDecoded(h, s[46..]);
    CheckIff(h, s[46..]);
  }

  lemma ProgramIs(node: Node, chain: seq<nat>, h: ElfHeader, ps: seq<ProgramHeader>, i: nat)
    requires ElfFile(node, chain, h, ps) && i < |ps| && node.data.value.fileSize < 0x1_0000_0000
    ensures PhdrOffset(Header(node, chain), i) == h.phoff + i * h.phentsize
    ensures PhdrAt(node, chain, i) == Segment(ps[i]) && (IsLoad(node, chain, i) <==> ps[i].pType == 1)
  {
    hide HeaderBytes, ReadEhdr, Content, CheckHdr, ProgramBytes, ContentByte, ReadPhdr, Header;
    HeaderIs(node, chain, h, ps);
    ProgramDecoded(ps[i]);
  }

  /** The part of a program header that the loader uses. */
  function Segment(p: ProgramHeader): Phdr {
    Phdr(p.pType, p.offset, p.vaddr, p.filesz, p.memsz)
  }

  // ---------- Loading ----------

  /** The segment lies in the file and in the address space without wrapping around. */
  predicate Placed(p: ProgramHeader) {
    p.vaddr + p.memsz + 0xFFF < 0x1_0000_0000 && p.vaddr + p.filesz <= 0x1_0000_0000 && p.offset + p.filesz < 0x1_0000_0000
  }

  /** Its pages of 4096 bytes, and its file bytes should they go further. */
  predicate Covers(p: ProgramHeader, a: nat) {
    p.vaddr / 0x1000 * 0x1000 <= a < (p.vaddr + p.memsz + 0xFFF) / 0x1000 * 0x1000 || p.vaddr <= a < p.vaddr + p.filesz
  }

  ghost predicate Disjoint(p: ProgramHeader, q: ProgramHeader) {
    forall a :: 0 <= a < 0x1_0000_0000 && Covers(p, a) ==> !Covers(q, a)
  }

  /** The bytes of the segment that memory has room for are all in the file, and not to be put at address 0. */
  predicate Loadable(node: Node, p: ProgramHeader)
    requires node.data.Some?
  {
    var n := if p.filesz < p.memsz then p.filesz else p.memsz;
    n > 0 ==> p.vaddr != 0 && p.offset + n <= node.data.value.fileSize
  }

  /** Its memory is the bytes from `p_offset` on, `p_filesz` of them, and zeros up to `p_memsz`. */
  ghost predicate InPlace(mem: seq<byte>, node: Node, chain: seq<nat>, p: ProgramHeader)
    requires node.fs.Some? && |mem| == 0x1_0000_0000
  {
    forall a :: p.vaddr <= a < p.vaddr + p.memsz ==>
      a < |mem| && mem[a] == if a < p.vaddr + p.filesz then ContentByte(node.fs.value, chain, p.offset + (a - p.vaddr)) else 0
  }

  /** No later segment shares memory with segment `j`. */
  ghost predicate Undisturbed(ps: seq<ProgramHeader>, j: nat)
    requires j < |ps|
  {
    forall k :: j < k < |ps| && ps[k].pType == 1 ==> Disjoint(ps[j], ps[k])
  }

  /** What loading an executable achieves, in terms of its program headers. */
  ghost predicate Loaded(node: Node, chain: seq<nat>, ps: seq<ProgramHeader>, before: seq<byte>, mem: seq<byte>, mapped: set<nat>) {
    && node.fs.Some? && node.data.Some? && |before| == |mem| == 0x1_0000_0000
    && (forall j :: 0 <= j < |ps| && ps[j].pType == 1 && Undisturbed(ps, j) && Loadable(node, ps[j]) ==> InPlace(mem, node, chain, ps[j]))
    && (forall a :: 0 <= a < |mem| && (forall j :: 0 <= j < |ps| && ps[j].pType == 1 ==> !Covers(ps[j], a)) ==> mem[a] == before[a])
    && (forall j, q: nat :: 0 <= j < |ps| && ps[j].pType == 1 && InPages(ps[j], q) ==> q in mapped)
  }

  /** Page `q` is one of the segment's. */
  predicate InPages(p: ProgramHeader, q: nat) {
    p.vaddr / 0x1000 * 0x1000 <= q * 0x1000 < (p.vaddr + p.memsz + 0xFFF) / 0x1000 * 0x1000
  }

  lemma CoversIs(p: ProgramHeader, a: nat)
    requires Placed(p)
    ensures SegOk(Segment(p)) && (InSpan(Segment(p), a) <==> Covers(p, a))
  {
    assert (p.vaddr + p.memsz + 0xFFF) % 0x1_0000_0000 == p.vaddr + p.memsz + 0xFFF;
  }

  lemma ApartIs(p: ProgramHeader, q: ProgramHeader)
    requires Placed(p) && Placed(q)
    ensures Apart(Segment(p), Segment(q)) <==> Disjoint(p, q)
  {
    hide InSpan, Covers, SegOk, Placed;
    forall a: nat ensures (InSpan(Segment(p), a) <==> Covers(p, a)) && (InSpan(Segment(q), a) <==> Covers(q, a)) {
      CoversIs(p, a);
      CoversIs(q, a);
    }
  }

  lemma PlaceIs(mem: seq<byte>, node: Node, chain: seq<nat>, p: ProgramHeader)
    requires node.fs.Some? && node.data.Some? && |mem| == 0x1_0000_0000 && Placed(p) && Loadable(node, p)
    requires InMemory(mem, node, chain, Segment(p))
    ensures InPlace(mem, node, chain, p)
  {
    hide ContentByte, InMemory;
    CoversIs(p, 0);
    WholeImage(mem, node, chain, Segment(p));
  }

  lemma PageIs(p: ProgramHeader, q: nat)
    requires Placed(p) && InPages(p, q)
    ensures q in PagesToMap(Segment(p))
  {
    assert (p.vaddr + p.memsz + 0xFFF) % 0x1_0000_0000 == p.vaddr + p.memsz + 0xFFF;
  }

  lemma LoadedIs(node: Node, chain: seq<nat>, h: ElfHeader, ps: seq<ProgramHeader>, before: seq<byte>, mem: seq<byte>, mapped: set<nat>)
    requires ElfFile(node, chain, h, ps) && node.data.value.fileSize < 0x1_0000_0000
    requires forall i :: 0 <= i < |ps| && ps[i].pType == 1 ==> Placed(ps[i])
    requires LoadedUpTo(node, chain, |ps|, before, mem, mapped)
    ensures Loaded(node, chain, ps, before, mem, mapped)
  {
    hide ElfFile, IsLoad, PhdrAt, Placed, InSpan, Covers, Apart, Disjoint, InMemory, InPlace, PagesToMap, InPages, Loadable, Header, PhdrOffset;
    ElfFileParts(node, chain, h, ps);
    forall i | 0 <= i < |ps| ensures PhdrAt(node, chain, i) == Segment(ps[i]) && (IsLoad(node, chain, i) <==> ps[i].pType == 1) {
      ProgramIs(node, chain, h, ps, i);
    }
    forall j | 0 <= j < |ps| && ps[j].pType == 1 && Undisturbed(ps, j) && Loadable(node, ps[j]) ensures InPlace(mem, node, chain, ps[j]) {
      forall k | j < k < |ps| && IsLoad(node, chain, k) ensures Apart(PhdrAt(node, chain, j), PhdrAt(node, chain, k)) { ApartIs(ps[j], ps[k]); }
      assert ApartFromLater(node, chain, j, |ps|);
      PlaceIs(mem, node, chain, ps[j]);
    }
    forall a | 0 <= a < |mem| && (forall j :: 0 <= j < |ps| && ps[j].pType == 1 ==> !Covers(ps[j], a)) ensures mem[a] == before[a] {
      forall j | 0 <= j < |ps| && IsLoad(node, chain, j) ensures !InSpan(PhdrAt(node, chain, j), a) { CoversIs(ps[j], a); }
    }
    forall j, q: nat | 0 <= j < |ps| && ps[j].pType == 1 && InPages(ps[j], q) ensures q in mapped { PageIs(ps[j], q); }
  }

  lemma ElfFileParts(node: Node, chain: seq<nat>, h: ElfHeader, ps: seq<ProgramHeader>)
    requires ElfFile(node, chain, h, ps)
    ensures node.fs.Some? && node.data.Some? && |ps| == h.phnum && HeaderFits(h)
  {
  }

  lemma HeadersAre(node: Node, chain: seq<nat>, h: ElfHeader, ps: seq<ProgramHeader>)
    requires ElfFile(node, chain, h, ps) && node.data.value.fileSize < 0x1_0000_0000
    requires forall i :: 0 <= i < |ps| && ps[i].pType == 1 ==> Placed(ps[i])
    ensures HeadersOk(node, chain) && Header(node, chain).phnum == |ps| && Header(node, chain).entry == h.entry
    ensures Accepted(node, chain) <==> Executable(h)
  {
    HeaderIs(node, chain, h, ps);
    hide Header, PhdrAt, IsLoad, HeaderBytes, ProgramBytes, Content, SegOk, Placed, PhdrOffset, CheckHdr, Executable;
    forall i | 0 <= i < |ps|
      ensures PhdrOffset(Header(node, chain), i) + PHDR_SIZE <= node.data.value.fileSize
      ensures IsLoad(node, chain, i) ==> SegOk(PhdrAt(node, chain, i))
    {
      ProgramIs(node, chain, h, ps, i);
      if ps[i].pType == 1 { CoversIs(ps[i], 0); }
    }
  }

  /**
    Loading a file that is written with this header and these program headers: it fails without touching memory unless it
    is an executable, and otherwise only if a region is refused; then the entry point is that of the header, and the
    segments are in place.
   */
  method LoadWritten(file: File, dir: AddressSpace, ghost chain: seq<nat>, ghost h: ElfHeader, ghost ps: seq<ProgramHeader>)
      returns (r: int, entry: nat)
    requires dir.mem.Length == 0x1_0000_0000 && file.fOffset == 0 && file.node.Some? && Streamable(file.node.value, chain)
    requires ElfFile(file.node.value, chain, h, ps) && forall i :: 0 <= i < |ps| && ps[i].pType == 1 ==> Placed(ps[i])
    modifies file, dir, dir.mem
    ensures file.node == old(file.node) && HeaderFits(h) && (r == 0 || r == -1)
    ensures !Executable(h) ==> r == -1 && dir.mem[..] == old(dir.mem[..]) && dir.mapped == old(dir.mapped)
    ensures Executable(h) ==> (r == 0 <==> dir.refused == old(dir.refused))
    ensures r == 0 ==>
      Executable(h) && entry == h.entry && Loaded(file.node.value, chain, ps, old(dir.mem[..]), dir.mem[..], dir.mapped)
  {
    hide *;
    ghost var node, before := file.node.value, dir.mem[..];
    StreamFacts(node, chain);
    SizeOfMemory();
    ElfFileParts(node, chain, h, ps);
    HeadersAre(node, chain, h, ps);
    r, entry := Load(true, file, dir, true, chain);
    if r == 0 { LoadedIs(node, chain, h, ps, before, dir.mem[..], dir.mapped); }
  }

  lemma SizeOfMemory()
    ensures Bytes.TWO32 == 0x1_0000_0000
  {
  }

  // ---------- An example ----------

  const H: ElfHeader := ElfHeader([0x7F, 0x45, 0x4C, 0x46, 1, 1, 1, 0, 0, 0, 0, 0, 0, 0, 0, 0], 2, 3, 1, 0x8000, 52, 0, 0, 52, 32, 1)

  const P: ProgramHeader := ProgramHeader(1, 0x100, 0x8000, 0x8000, 0x100, 0x300, 5, 0x1000)

  /** The first block of an executable with one segment. */
  function FirstBlock(code: seq<byte>): (s: seq<byte>)
    requires |code| == 428
    ensures |s| == 512
  {
    HeaderBytes(H) + [0, 0, 0, 0, 0, 0] + ProgramBytes(P) + code
  }

  function ElfVolume(code: seq<byte>): Volume
    requires |code| == 428
  {
    var v := SmallVolume(3);
    v.(blocks := v.blocks[3 := FirstBlock(code)])
  }

  /** A file in clusters 2 and 3 of a small volume that meets all that `LoadWritten` asks for. */
  lemma SmallElf(e: DirEntry, code: seq<byte>)
    requires e.firstCluster == 2 && e.fileSize == 1024 && !IsDirectory(e) && |code| == 428
    ensures var node := Node(Some(ElfVolume(code)), Some(e));
      Streamable(node, [2, 3]) && ElfFile(node, [2, 3], H, [P]) && Executable(H) && Placed(P) && Loadable(node, P)
  {
    var v, node := ElfVolume(code), Node(Some(ElfVolume(code)), Some(e));
    SmallStream(e, code);
    forall i: nat | i < 512 ensures ContentByte(v, [2, 3], i) == FirstBlock(code)[i] { SmallByte(code, i); }
    hide ContentByte, HeaderBytes, ProgramBytes, Streamable, ElfVolume;
    var b := FirstBlock(code);
    assert b[0..46] == HeaderBytes(H) && b[52..84] == ProgramBytes(P);
    assert Content(node, [2, 3], 0, 46) == b[0..46];
    assert Content(node, [2, 3], 52, 84) == b[52..84];
    assert FileHas(node, [2, 3], 0, HeaderBytes(H));
    assert FileHas(node, [2, 3], 52, ProgramBytes(P));
  }

  lemma SmallStream(e: DirEntry, code: seq<byte>)
    requires e.firstCluster == 2 && e.fileSize == 1024 && !IsDirectory(e) && |code| == 428
    ensures Streamable(Node(Some(ElfVolume(code)), Some(e)), [2, 3])
  {
    ContiguousFile(e);
    hide FileOnDisk, FirstBlock;
    ReshapedFile(SmallVolume(3), e, [2, 3], ElfVolume(code).blocks);
  }

  lemma SmallByte(code: seq<byte>, i: nat)
    requires |code| == 428 && i < 512
    ensures ContentByte(ElfVolume(code), [2, 3], i) == FirstBlock(code)[i]
  {
    hide FirstBlock;
    assert ClusterToLba(ElfVolume(code), 2) == 3;
  }
}
