/** proc/elf.c, include/utils.h:182-186: loading an executable into memory. */
module Elf {
  import opened Bytes
  import opened FatRead
  import opened FatFiles
  import opened Vfs

  const PAGE := 0x1000
  const EHDR_SIZE := 48   // `sizeof (elf_header_t)`, which leaves out the last fields of the file format
  const PHDR_SIZE := 32
  const PT_LOAD := 1

  // ---------- Pages ----------

  /** The macro of that name clears the low bits: it rounds down. */
  function PageAlignUp(addr: nat): nat {
    addr / PAGE * PAGE
  }

  /** And this one rounds up, in 32 bits. */
  function PageAlignDwn(addr: nat): nat {
    (addr + 0xFFF) % TWO32 / PAGE * PAGE
  }

  /** With the names swapped in the definitions and in their use, the loader asks for the least cover of whole pages. */
  lemma LeastCover(addr: nat, size: nat)
    requires addr + size + 0xFFF < TWO32
    ensures var lo, hi := PageAlignUp(addr), PageAlignDwn(addr + size);
      && lo % PAGE == 0 && hi % PAGE == 0 && lo <= addr && addr + size <= hi < TWO32
      && forall a, b :: a % PAGE == 0 && b % PAGE == 0 && 0 <= a <= addr && addr + size <= b ==> a <= lo && hi <= b
  {
    var lo, hi := PageAlignUp(addr), PageAlignDwn(addr + size);
    PageBounds(addr);
    PageBounds(addr + size + 0xFFF);
    assert (addr + size + 0xFFF) % TWO32 == addr + size + 0xFFF;
    hide PageAlignUp, PageAlignDwn;
    forall a, b | a % PAGE == 0 && b % PAGE == 0 && 0 <= a <= addr && addr + size <= b ensures a <= lo && hi <= b {
      NoPageBetween(a, addr);
      NoPageBetween(hi, b + 0xFFF);
    }
  }

  lemma PageBounds(x: nat)
    ensures var lo := x / PAGE * PAGE; lo % PAGE == 0 && lo <= x < lo + PAGE
  {
  }

  /** A page boundary up to `x` is at most the last one before `x`. */
  lemma NoPageBetween(a: nat, x: nat)
    requires a % PAGE == 0 && a <= x
    ensures a <= x / PAGE * PAGE
  {
  }

  /**
    The memory that the active page directory shows, and the pages mapped in it. `vmm_alloc_region` is not in the
    repository: it is taken to map the range, whatever the new pages hold, and to leave other memory alone.
   */
  class AddressSpace {
    const mem: array<byte>
    ghost var mapped: set<nat>
    ghost var refused: nat   // the requests for a region that have failed

    constructor ()
      ensures fresh(mem) && mem.Length == TWO32 && mapped == {} && refused == 0
    {
      mem := new byte[TWO32];
      mapped, refused := {}, 0;
    }

    method AllocRegion(start: nat, size: nat) returns (ok: bool)
      requires mem.Length == TWO32
      modifies this, mem
      ensures forall a :: 0 <= a < TWO32 && !(start <= a < start + size) ==> mem[a] == old(mem[a])
      ensures if ok then mapped == old(mapped) + PagesOf(start, size) else mapped >= old(mapped)
      ensures refused == old(refused) + if ok then 0 else 1
    {
      ok := *;
      if ok {
        mapped := mapped + PagesOf(start, size);
      } else {
        refused := refused + 1;
      }
    }
  }

  predicate PageIn(p: nat, start: nat, size: nat) { start <= p * PAGE < start + size }

  /** The numbers of the pages that begin in the range. */
  ghost function PagesOf(start: nat, size: nat): set<nat> {
    set p: nat | p < TWO32 && PageIn(p, start, size)
  }

  // ---------- Headers ----------

  datatype Phdr = Phdr(pType: nat, offset: nat, vaddr: nat, filesz: nat, memsz: nat)

  function ReadPhdr(s: seq<byte>): (p: Phdr)
    requires |s| == PHDR_SIZE
    ensures p.offset < TWO32 && p.vaddr < TWO32 && p.filesz < TWO32 && p.memsz < TWO32
  {
    Phdr(U32(s, 0), U32(s, 4), U32(s, 8), U32(s, 16), U32(s, 20))
  }

  datatype Ehdr = Ehdr(ident: seq<byte>, eType: nat, entry: nat, phoff: nat, phentsize: nat, phnum: nat)

  function ReadEhdr(s: seq<byte>): (h: Ehdr)
    requires |s| == EHDR_SIZE
    ensures |h.ident| == 16 && h.entry < TWO32 && h.phoff < TWO32 && h.phentsize < TWO16 && h.phnum < TWO16
  {
    Ehdr(s[..16], U16(s, 16), U32(s, 24), U32(s, 28), U16(s, 42), U16(s, 44))
  }

  predicate CheckHdr(h: Ehdr)
    requires |h.ident| == 16
  {
    && h.ident[..4] == [0x7F, 0x45, 0x4C, 0x46] && h.eType == 2 && h.ident[4] == 1 && h.ident[5] == 1
  }

  // ---------- What loading is to achieve ----------

  /** The memory that loading a segment may change: its pages, and its file bytes should they be more than it has memory for. */
  predicate InSpan(p: Phdr, a: nat) {
    PageAlignUp(p.vaddr) <= a < PageAlignDwn(p.vaddr + p.memsz) || p.vaddr <= a < p.vaddr + p.filesz
  }

  /** The addresses do not wrap around. */
  predicate SegOk(p: Phdr) {
    p.vaddr + p.memsz + 0xFFF < TWO32 && p.vaddr + p.filesz <= TWO32 && p.offset + p.filesz < TWO32 && p.filesz < TWO32
  }

  /** How many bytes `vfs_read` puts into memory: it takes address 0 for a missing buffer. */
  function FileBytes(node: Node, p: Phdr): nat
    requires node.data.Some?
  {
    if p.vaddr == 0 then 0 else Count(node.data.value, p.offset, p.filesz)
  }

  /** The file bytes are in memory, and zeros behind them. */
  ghost predicate InMemory(mem: seq<byte>, node: Node, chain: seq<nat>, p: Phdr)
    requires node.data.Some? && node.fs.Some? && |mem| == TWO32
  {
    && (forall k :: p.vaddr <= k < p.vaddr + FileBytes(node, p) ==> k < TWO32 && mem[k] == ContentByte(node.fs.value, chain, p.offset + (k - p.vaddr)))
    && (forall k :: p.vaddr + p.filesz <= k < p.vaddr + p.memsz ==> k < TWO32 && mem[k] == 0)
  }

  /** The bytes of its memory that a segment takes from the file. */
  function FromFile(p: Phdr): nat {
    if p.filesz < p.memsz then p.filesz else p.memsz
  }

  /** All of those bytes are there to be loaded. */
  predicate Whole(node: Node, p: Phdr)
    requires node.data.Some?
  {
    FromFile(p) > 0 ==> p.vaddr != 0 && p.offset + FromFile(p) <= node.data.value.fileSize
  }

  /** The segment's memory is what section "Program Header" of the System V ABI asks for: file bytes, then zeros. */
  ghost predicate Image(mem: seq<byte>, node: Node, chain: seq<nat>, p: Phdr)
    requires node.fs.Some? && |mem| == TWO32 && SegOk(p)
  {
    forall a :: p.vaddr <= a < p.vaddr + p.memsz ==>
      mem[a] == if a < p.vaddr + p.filesz then ContentByte(node.fs.value, chain, p.offset + (a - p.vaddr)) else 0
  }

  function LoadedByte(before: byte, node: Node, chain: seq<nat>, p: Phdr, a: nat): byte
    requires node.fs.Some? && node.data.Some?
  {
    if p.vaddr + p.filesz <= a < p.vaddr + p.memsz then 0
    else if p.vaddr <= a < p.vaddr + FileBytes(node, p) then ContentByte(node.fs.value, chain, p.offset + (a - p.vaddr))
    else before
  }

  /** What the loader makes of the memory `pages` in which the new pages have been mapped. */
  ghost predicate LoadedFrom(pages: seq<byte>, mem: seq<byte>, node: Node, chain: seq<nat>, p: Phdr) {
    && node.fs.Some? && node.data.Some? && |pages| == |mem| == TWO32
    && forall a :: 0 <= a < TWO32 ==> mem[a] == LoadedByte(pages[a], node, chain, p, a)
  }

  lemma WholeImage(mem: seq<byte>, node: Node, chain: seq<nat>, p: Phdr)
    requires node.fs.Some? && node.data.Some? && |mem| == TWO32 && SegOk(p) && InMemory(mem, node, chain, p) && Whole(node, p)
    ensures Image(mem, node, chain, p)
  {
    hide ContentByte;
  }

  lemma LoadedInMemory(pages: seq<byte>, mem: seq<byte>, node: Node, chain: seq<nat>, p: Phdr)
    requires LoadedFrom(pages, mem, node, chain, p) && SegOk(p)
    ensures InMemory(mem, node, chain, p)
  {
    hide ContentByte, FileBytes;
    FileBytesFit(node, p);
  }

  /** Memory that agrees with `m` but for the byte at `a`, which is not `b`. */
  lemma OtherPages(m: seq<byte>, a: nat, b: byte) returns (pages: seq<byte>)
    requires a < |m|
    ensures |pages| == |m| && pages[a] != b && forall k :: 0 <= k < |m| && k != a ==> pages[k] == m[k]
  {
    pages := m[a := if b == 0 then 1 else 0];
  }

  lemma NotWhole(m0: seq<byte>, node: Node, chain: seq<nat>, p: Phdr) returns (pages: seq<byte>, mem: seq<byte>)
    requires node.fs.Some? && node.data.Some? && |m0| == TWO32 && SegOk(p) && !Whole(node, p)
    ensures |pages| == |mem| == TWO32 && Untouched(m0, pages, p) && LoadedFrom(pages, mem, node, chain, p) && !Image(mem, node, chain, p)
  {
    hide ContentByte, Image;
    var k := FileBytes(node, p);
    var a := p.vaddr + k;
    LeastCover(p.vaddr, p.memsz);
    pages := OtherPages(m0, a, ContentByte(node.fs.value, chain, p.offset + k));
    mem := seq<byte>(TWO32, (i: nat) requires i < |pages| => LoadedByte(pages[i], node, chain, p, i));
    assert Untouched(m0, pages, p) by { hide PageAlignUp, PageAlignDwn; }
    WrongByte(mem, node, chain, p, k);
  }

  lemma WrongByte(mem: seq<byte>, node: Node, chain: seq<nat>, p: Phdr, k: nat)
    requires node.fs.Some? && |mem| == TWO32 && SegOk(p) && k < FromFile(p)
    requires mem[p.vaddr + k] != ContentByte(node.fs.value, chain, p.offset + k)
    ensures !Image(mem, node, chain, p)
  {
    hide ContentByte;
  }

  /** A segment is loaded right, whatever the new pages held, if and only if all its bytes are there and not at address 0. */
  lemma WholeIff(m0: seq<byte>, node: Node, chain: seq<nat>, p: Phdr)
    requires node.fs.Some? && node.data.Some? && |m0| == TWO32 && SegOk(p)
    ensures Whole(node, p) <==>
      forall pages, mem :: |pages| == |mem| == TWO32 && Untouched(m0, pages, p) && LoadedFrom(pages, mem, node, chain, p) ==>
        Image(mem, node, chain, p)
  {
    hide *;
    if Whole(node, p) {
      forall pages, mem | |pages| == |mem| == TWO32 && Untouched(m0, pages, p) && LoadedFrom(pages, mem, node, chain, p)
        ensures Image(mem, node, chain, p)
      {
        LoadedInMemory(pages, mem, node, chain, p);
        WholeImage(mem, node, chain, p);
      }
    } else {
      var pages, mem := NotWhole(m0, node, chain, p);
    }
  }

  /** At address 0 the file bytes are not read at all: that memory stays as the new pages held it. */
  lemma NothingAtZero(pages: seq<byte>, mem: seq<byte>, node: Node, chain: seq<nat>, p: Phdr)
    requires LoadedFrom(pages, mem, node, chain, p) && SegOk(p) && p.vaddr == 0
    ensures mem[..p.filesz] == pages[..p.filesz]
  {
    hide ContentByte;
  }

  // ---------- The loader ----------

  method Memset(mem: array<byte>, at: nat, n: nat)
    requires at + n <= mem.Length
    modifies mem
    ensures forall a :: 0 <= a < mem.Length ==> mem[a] == if at <= a < at + n then 0 else old(mem[a])
  {
    forall k | 0 <= k < n {
      mem[at + k] := 0;
    }
  }

  /** The file bytes of a segment have been read into memory. */
  ghost predicate SegmentRead(node: Node, chain: seq<nat>, p: Phdr, mem: seq<byte>, mem': seq<byte>) {
    && node.fs.Some? && node.data.Some? && |mem| == |mem'| && FileBytes(node, p) <= p.filesz
    && forall a :: 0 <= a < |mem| ==>
         mem'[a] == if p.vaddr <= a < p.vaddr + FileBytes(node, p) then ContentByte(node.fs.value, chain, p.offset + (a - p.vaddr)) else mem[a]
  }

  /** `vfs_read (file, (void*) p_vaddr, p_filesz)`, whose result is not looked at. */
  method ReadSegment(file: File, mem: array<byte>, p: Phdr, ghost chain: seq<nat>)
    requires mem.Length == TWO32 && file.node.Some? && Streamable(file.node.value, chain) && SegOk(p) && file.fOffset == p.offset
    modifies file, mem
    ensures file.node == old(file.node) && SegmentRead(file.node.value, chain, p, old(mem[..]), mem[..])
  {
    hide *;
    ghost var node, before := file.node.value, mem[..];
    var buf: array?<byte> := if p.vaddr == 0 then null else mem;
    SegmentAllowed(node, chain, p, buf);
    var r; ghost var junk;
    r, junk := VfsRead(file, buf, p.vaddr, p.filesz);
    SegmentServed(node, chain, p, before, if buf == null then [] else before, if buf == null then [] else mem[..], mem[..], r, junk);
  }

  lemma SegmentAllowed(node: Node, chain: seq<nat>, p: Phdr, buf: array?<byte>)
    requires Streamable(node, chain) && SegOk(p) && (buf == null <==> p.vaddr == 0) && (buf != null ==> buf.Length == TWO32)
    ensures Allowed(Some(node), p.offset, p.filesz, buf, p.vaddr)
  {
    StreamFacts(node, chain);
    if p.filesz > 0 && p.vaddr != 0 {
      hide *;
      CountFits(node.data.value, p);
      StreamAllowed(node, chain, p.offset, p.filesz, buf, p.vaddr);
    }
  }

  lemma CountFits(e: DirEntry, p: Phdr)
    requires SegOk(p)
    ensures Count(e, p.offset, p.filesz) <= p.filesz && p.vaddr + p.filesz <= TWO32 && p.offset + p.filesz < TWO32
  {
  }

  lemma SegmentServed(node: Node, chain: seq<nat>, p: Phdr, mem: seq<byte>, before: seq<byte>, after: seq<byte>, mem': seq<byte>, r: int, junk: seq<byte>)
    requires Streamable(node, chain) && SegOk(p) && |mem| == |mem'| == TWO32
    requires if p.vaddr == 0 then mem' == mem else before == mem && after == mem'
    requires Served(Some(node), p.offset, p.filesz, p.vaddr == 0, before, p.vaddr, after, r, junk)
    ensures SegmentRead(node, chain, p, mem, mem')
  {
    hide Streamable, Served, ContentByte;
    StreamFacts(node, chain);
    CountFits(node.data.value, p);
    if p.vaddr != 0 {
      if p.filesz == 0 {
        NothingServed(node, p, before, after, r, junk);
      } else {
        StreamServed(node, chain, p.offset, p.filesz, before, p.vaddr, after, r, junk);
        SplicedAt(before, p.vaddr, Content(node, chain, p.offset, p.offset + r));
      }
    }
  }

  lemma NothingServed(node: Node, p: Phdr, before: seq<byte>, after: seq<byte>, r: int, junk: seq<byte>)
    requires Served(Some(node), p.offset, 0, false, before, p.vaddr, after, r, junk)
    ensures after == before
  {
  }

  lemma SplicedAt(before: seq<byte>, at: nat, out: seq<byte>)
    requires at + |out| <= |before|
    ensures forall a :: 0 <= a < |before| ==> Spliced(before, at, out)[a] == if at <= a < at + |out| then out[a - at] else before[a]
  {
  }

  /** `elf_load_seg`; `pages` is what memory holds once the segment's pages are mapped. */
  method LoadSeg(file: File?, dir: AddressSpace?, phdr: Option<Phdr>, ghost chain: seq<nat>)
      returns (r: int, ghost pages: seq<byte>)
    requires file != null && dir != null && phdr.Some? ==>
      dir.mem.Length == TWO32 && file.node.Some? && Streamable(file.node.value, chain) && SegOk(phdr.value)
    modifies if file != null && dir != null && phdr.Some? then {file, dir, dir.mem} else {}
    ensures file == null || dir == null || phdr.None? ==> r == -1
    ensures file != null && dir != null && phdr.Some? ==>
      && (r == 0 || r == -1) && file.node == old(file.node) && dir.refused == old(dir.refused) - r
      && Untouched(old(dir.mem[..]), dir.mem[..], phdr.value)
      && (r == 0 ==>
            && InMemory(dir.mem[..], file.node.value, chain, phdr.value) && dir.mapped == old(dir.mapped) + PagesToMap(phdr.value)
            && |pages| == TWO32 && Untouched(old(dir.mem[..]), pages, phdr.value)
            && LoadedFrom(pages, dir.mem[..], file.node.value, chain, phdr.value))
  {
    pages := [];
    if file == null || dir == null || phdr.None? {
      return -1, pages;
    }
    hide *;
    var p := phdr.value;
    var startAddr := PageAlignUp(p.vaddr);
    var endAddr := PageAlignDwn((p.vaddr + p.memsz) % TWO32);
    var size := (endAddr - startAddr) % TWO32;
    SegFacts(p);
    ghost var m0 := dir.mem[..];
    var ok := dir.AllocRegion(startAddr, size);
    pages := dir.mem[..];
    Allocated(m0, pages, p);
    if !ok {
      return -1, pages;
    }
    file.fOffset := p.offset;
    ReadSegment(file, dir.mem, p, chain);
    ghost var m2 := dir.mem[..];
    if p.memsz > p.filesz {
      Memset(dir.mem, (p.vaddr + p.filesz) % TWO32, p.memsz - p.filesz);
    }
    Cleared(m0, pages, m2, dir.mem[..], file.node.value, chain, p);
    return 0, pages;
  }

  lemma SegFacts(p: Phdr)
    requires SegOk(p)
    ensures var lo, hi := PageAlignUp(p.vaddr), PageAlignDwn(p.vaddr + p.memsz);
      && (p.vaddr + p.memsz) % TWO32 == p.vaddr + p.memsz && lo <= hi && (hi - lo) % TWO32 == hi - lo && PagesOf(lo, hi - lo) == PagesToMap(p)
    ensures p.memsz > p.filesz ==> (p.vaddr + p.filesz) % TWO32 == p.vaddr + p.filesz && p.vaddr + p.memsz <= TWO32
  {
    LeastCover(p.vaddr, p.memsz);
  }

  lemma Allocated(m0: seq<byte>, m1: seq<byte>, p: Phdr)
    requires |m0| == |m1| == TWO32
    requires var lo, hi := PageAlignUp(p.vaddr), PageAlignDwn(p.vaddr + p.memsz);
      lo <= hi && forall a :: 0 <= a < TWO32 && !(lo <= a < lo + (hi - lo)) ==> m1[a] == m0[a]
    ensures Untouched(m0, m1, p)
  {
  }

  /** The file bytes have been read and the rest has been cleared. */
  lemma Cleared(m0: seq<byte>, m1: seq<byte>, m2: seq<byte>, m3: seq<byte>, node: Node, chain: seq<nat>, p: Phdr)
    requires SegOk(p) && |m0| == |m1| == |m2| == |m3| == TWO32 && Untouched(m0, m1, p) && SegmentRead(node, chain, p, m1, m2)
    requires if p.memsz > p.filesz then
        forall a :: 0 <= a < TWO32 ==> m3[a] == if p.vaddr + p.filesz <= a < p.vaddr + p.filesz + (p.memsz - p.filesz) then 0 else m2[a]
      else m3 == m2
    ensures Untouched(m0, m3, p) && node.fs.Some? && node.data.Some? && InMemory(m3, node, chain, p)
    ensures LoadedFrom(m1, m3, node, chain, p)
  {
    LeastCover(p.vaddr, p.memsz);
    hide FileBytes, ContentByte, PageAlignUp, PageAlignDwn;
  }

  ghost predicate Untouched(m: seq<byte>, m': seq<byte>, p: Phdr)
    requires |m| == |m'|
  {
    forall a :: 0 <= a < |m| && !InSpan(p, a) ==> m'[a] == m[a]
  }

  ghost function PagesToMap(p: Phdr): set<nat> {
    set q: nat | q < TWO32 && PageAlignUp(p.vaddr) <= q * PAGE < PageAlignDwn(p.vaddr + p.memsz)
  }

  // ---------- The whole file ----------

  function Header(node: Node, chain: seq<nat>): Ehdr
    requires node.fs.Some?
  {
    ReadEhdr(Content(node, chain, 0, EHDR_SIZE))
  }

  function PhdrOffset(h: Ehdr, i: nat): nat {
    (h.phoff + i * h.phentsize) % TWO32
  }

  function PhdrAt(node: Node, chain: seq<nat>, i: nat): Phdr
    requires node.fs.Some?
  {
    var offs := PhdrOffset(Header(node, chain), i);
    ReadPhdr(Content(node, chain, offs, offs + PHDR_SIZE))
  }

  /** The file has a header that the loader accepts. */
  predicate Accepted(node: Node, chain: seq<nat>) {
    node.fs.Some? && node.data.Some? && EHDR_SIZE <= node.data.value.fileSize && CheckHdr(Header(node, chain))
  }

  predicate IsLoad(node: Node, chain: seq<nat>, i: nat)
    requires node.fs.Some?
  {
    PhdrAt(node, chain, i).pType == PT_LOAD
  }

  /** Its program headers are in the file, and the segments to load are in the address space. */
  ghost predicate HeadersOk(node: Node, chain: seq<nat>)
    requires node.fs.Some? && node.data.Some?
  {
    forall i :: 0 <= i < Header(node, chain).phnum ==>
      && PhdrOffset(Header(node, chain), i) + PHDR_SIZE <= node.data.value.fileSize
      && (IsLoad(node, chain, i) ==> SegOk(PhdrAt(node, chain, i)))
  }

  /** No address is in the span of both segments. */
  ghost predicate Apart(p: Phdr, q: Phdr) {
    forall a :: 0 <= a < TWO32 && InSpan(p, a) ==> !InSpan(q, a)
  }

  /**
    The first `n` program headers have been dealt with: every segment is in memory that no later one shares memory with,
    other memory is as it was, and the pages are mapped.
   */
  ghost predicate LoadedUpTo(node: Node, chain: seq<nat>, n: nat, m0: seq<byte>, m: seq<byte>, mapped: set<nat>)
    requires node.fs.Some? && node.data.Some?
  {
    && |m0| == |m| == TWO32
    && (forall a :: 0 <= a < TWO32 && (forall j :: 0 <= j < n && IsLoad(node, chain, j) ==> !InSpan(PhdrAt(node, chain, j), a)) ==> m[a] == m0[a])
    && (forall j :: 0 <= j < n && IsLoad(node, chain, j) ==> PagesToMap(PhdrAt(node, chain, j)) <= mapped)
    && forall j :: 0 <= j < n && IsLoad(node, chain, j) && ApartFromLater(node, chain, j, n) ==> InMemory(m, node, chain, PhdrAt(node, chain, j))
  }

  ghost predicate ApartFromLater(node: Node, chain: seq<nat>, j: nat, n: nat)
    requires node.fs.Some?
  {
    forall k :: j < k < n && IsLoad(node, chain, k) ==> Apart(PhdrAt(node, chain, j), PhdrAt(node, chain, k))
  }

  /** A segment stays in memory while another is loaded apart from it. */
  lemma StaysInMemory(m: seq<byte>, m': seq<byte>, node: Node, chain: seq<nat>, p: Phdr, q: Phdr)
    requires node.fs.Some? && node.data.Some? && |m| == |m'| == TWO32 && SegOk(p) && FileBytes(node, p) <= p.filesz
    requires InMemory(m, node, chain, p) && Untouched(m, m', q) && Apart(p, q)
    ensures InMemory(m', node, chain, p)
  {
    LeastCover(p.vaddr, p.memsz);
    hide FileBytes, ContentByte, PageAlignUp, PageAlignDwn;
    forall k | p.vaddr <= k < p.vaddr + FileBytes(node, p) || p.vaddr + p.filesz <= k < p.vaddr + p.memsz ensures k < TWO32 && m'[k] == m[k] {
      assert InSpan(p, k);
    }
  }

  lemma FileBytesFit(node: Node, p: Phdr)
    requires node.data.Some?
    ensures FileBytes(node, p) <= p.filesz
  {
  }

  lemma SkipHeader(node: Node, chain: seq<nat>, n: nat, m0: seq<byte>, m: seq<byte>, mapped: set<nat>)
    requires node.fs.Some? && node.data.Some? && LoadedUpTo(node, chain, n, m0, m, mapped) && !IsLoad(node, chain, n)
    ensures LoadedUpTo(node, chain, n + 1, m0, m, mapped)
  {
    hide IsLoad, PhdrAt, InMemory, PagesToMap, InSpan;
    forall j | 0 <= j < n + 1 && IsLoad(node, chain, j) && ApartFromLater(node, chain, j, n + 1)
      ensures InMemory(m, node, chain, PhdrAt(node, chain, j))
    {
      assert ApartFromLater(node, chain, j, n);
    }
  }

  lemma OneMoreSegment(node: Node, chain: seq<nat>, n: nat, m0: seq<byte>, m: seq<byte>, mapped: set<nat>, m': seq<byte>)
    requires node.fs.Some? && node.data.Some? && LoadedUpTo(node, chain, n, m0, m, mapped) && IsLoad(node, chain, n) && |m'| == TWO32
    requires forall j :: 0 <= j <= n && IsLoad(node, chain, j) ==> SegOk(PhdrAt(node, chain, j))
    requires Untouched(m, m', PhdrAt(node, chain, n)) && InMemory(m', node, chain, PhdrAt(node, chain, n))
    ensures LoadedUpTo(node, chain, n + 1, m0, m', mapped + PagesToMap(PhdrAt(node, chain, n)))
  {
    hide IsLoad, PhdrAt, InMemory, PagesToMap, InSpan, SegOk;
    var q := PhdrAt(node, chain, n);
    forall j | 0 <= j < n + 1 && IsLoad(node, chain, j) && ApartFromLater(node, chain, j, n + 1)
      ensures InMemory(m', node, chain, PhdrAt(node, chain, j))
    {
      if j < n {
        assert ApartFromLater(node, chain, j, n);
        FileBytesFit(node, PhdrAt(node, chain, j));
        StaysInMemory(m, m', node, chain, PhdrAt(node, chain, j), q);
      }
    }
  }

  /** `vfs_read` of a header into a structure on the stack, from where the cursor is. */
  method ReadStruct(file: File, buf: array<byte>, ghost chain: seq<nat>) returns (r: int)
    requires 0 < buf.Length < 0x100 && file.fOffset + buf.Length < TWO32 && (file.node.Some? ==> Streamable(file.node.value, chain))
    modifies file, buf
    ensures file.node == old(file.node) && (file.node.None? ==> r == -1)
    ensures file.node.Some? && file.node.value.fs.Some? && file.node.value.data.Some? ==>
      && r == Count(file.node.value.data.value, old(file.fOffset), buf.Length)
      && (r == buf.Length ==> buf[..] == Content(file.node.value, chain, old(file.fOffset), old(file.fOffset) + buf.Length))
  {
    hide *;
    if file.node.Some? {
      AtMost(file.node.value, chain, file.fOffset, buf.Length);
      ghost var before := buf[..];
      r := ReadNext(file, buf, 0, buf.Length, chain);
      if r == buf.Length { AllSpliced(before, Content(file.node.value, chain, old(file.fOffset), old(file.fOffset) + buf.Length)); }
    } else {
      Refused(file.node, file.fOffset, buf.Length, buf);
      ghost var before, junk := buf[..], [];
      r, junk := VfsRead(file, buf, 0, buf.Length);
      RefusedServed(file.node, old(file.fOffset), buf.Length, before, buf[..], r, junk);
    }
  }

  lemma AtMost(node: Node, chain: seq<nat>, offs: nat, size: nat)
    requires Streamable(node, chain)
    ensures node.fs.Some? && node.data.Some? && Count(node.data.value, offs, size) <= size
  {
    hide FileOnDisk;
  }

  lemma AllSpliced(before: seq<byte>, out: seq<byte>)
    requires |before| == |out|
    ensures Spliced(before, 0, out) == out
  {
  }

  lemma Refused(node: Option<Node>, offs: nat, size: nat, buf: array?<byte>)
    requires node.None? && size < 0x100
    ensures Allowed(node, offs, size, buf, 0)
  {
  }

  lemma RefusedServed(node: Option<Node>, offs: nat, size: nat, before: seq<byte>, after: seq<byte>, r: int, junk: seq<byte>)
    requires node.None? && Served(node, offs, size, false, before, 0, after, r, junk)
    ensures r == -1
  {
  }

  /**
    `elf_load`, on what `vfs_open` has returned. A file that is missing, too short, or not an executable of this machine
    fails without touching memory; any other fails only when a region cannot be allocated.
   */
  method Load(path: bool, found: File?, dir: AddressSpace?, entryGiven: bool, ghost chain: seq<nat>) returns (r: int, entry: nat)
    requires path && dir != null && entryGiven && found != null ==>
      && dir.mem.Length == TWO32 && found.fOffset == 0
      && (found.node.Some? ==>
            Streamable(found.node.value, chain) && (Accepted(found.node.value, chain) ==> HeadersOk(found.node.value, chain)))
    modifies if path && dir != null && entryGiven && found != null then {found, dir, dir.mem} else {}
    ensures (r == 0 || r == -1) && (found != null ==> found.node == old(found.node))
    ensures !path || dir == null || !entryGiven || found == null ==> r == -1
    ensures dir != null && (found == null || found.node.None? || !Accepted(found.node.value, chain)) ==>
      r == -1 && dir.mem[..] == old(dir.mem[..]) && dir.mapped == old(dir.mapped)
    ensures path && dir != null && entryGiven && found != null && found.node.Some? && Accepted(found.node.value, chain) ==>
      (r == 0 <==> dir.refused == old(dir.refused))
    ensures r == 0 ==> found.node.Some? && Accepted(found.node.value, chain) && entry == Header(found.node.value, chain).entry
    ensures r == 0 ==>
      LoadedUpTo(found.node.value, chain, Header(found.node.value, chain).phnum, old(dir.mem[..]), dir.mem[..], dir.mapped)
  {
    r, entry := -1, 0;
    if !path || dir == null || !entryGiven || found == null {
      return;
    }
    var eHdr := new byte[EHDR_SIZE];
    var n := ReadStruct(found, eHdr, chain);
    if n != EHDR_SIZE || !CheckHdr(ReadEhdr(eHdr[..])) {
      return;
    }
    var h := ReadEhdr(eHdr[..]);
    r := LoadSegments(found, dir, h, chain);
    if r == 0 {
      entry := h.entry;
    }
  }

  /** The loop over the program headers. */
  method LoadSegments(file: File, dir: AddressSpace, h: Ehdr, ghost chain: seq<nat>) returns (r: int)
    requires dir.mem.Length == TWO32 && file.node.Some? && Streamable(file.node.value, chain)
    requires Accepted(file.node.value, chain) && HeadersOk(file.node.value, chain) && h == Header(file.node.value, chain)
    modifies file, dir, dir.mem
    ensures (r == 0 || r == -1) && file.node == old(file.node) && dir.refused == old(dir.refused) - r
    ensures r == 0 ==> LoadedUpTo(file.node.value, chain, h.phnum, old(dir.mem[..]), dir.mem[..], dir.mapped)
  {
    hide *;
    ghost var node, m0 := file.node.value, dir.mem[..];
    Sizes();
    LoadedNone(node, chain, m0, dir.mapped);
    var i := 0;
    while i < h.phnum
      invariant i <= h.phnum && dir.refused == old(dir.refused) && file.node == Some(node) && node.fs.Some? && node.data.Some?
      invariant LoadedUpTo(node, chain, i, m0, dir.mem[..], dir.mapped)
    {
      var offsetStart := (h.phoff + i * h.phentsize) % TWO32;
      file.fOffset := offsetStart;
      PhdrFacts(node, chain, i, offsetStart);
      var buf := new byte[PHDR_SIZE];
      var n := ReadStruct(file, buf, chain);
      var phdr := ReadPhdr(buf[..]);
      if phdr.pType == PT_LOAD {
        ghost var m, mapped := dir.mem[..], dir.mapped;
        var result; ghost var pages;
        result, pages := LoadSeg(file, dir, Some(phdr), chain);
        if result == -1 {
          return -1;
        }
        LoadsOk(node, chain, i);
        OneMoreSegment(node, chain, i, m0, m, mapped, dir.mem[..]);
      } else {
        SkipHeader(node, chain, i, m0, dir.mem[..], dir.mapped);
      }
      i := i + 1;
    }
    return 0;
  }

  lemma LoadedNone(node: Node, chain: seq<nat>, m0: seq<byte>, mapped: set<nat>)
    requires Accepted(node, chain) && |m0| == TWO32
    ensures node.fs.Some? && node.data.Some? && LoadedUpTo(node, chain, 0, m0, m0, mapped)
  {
  }

  lemma Sizes()
    ensures EHDR_SIZE == 48 && PHDR_SIZE == 32 && TWO32 == 0x1_0000_0000
  {
  }

  lemma PhdrFacts(node: Node, chain: seq<nat>, i: nat, offs: nat)
    requires Streamable(node, chain) && Accepted(node, chain) && HeadersOk(node, chain) && i < Header(node, chain).phnum
    requires offs == (Header(node, chain).phoff + i * Header(node, chain).phentsize) % TWO32
    ensures offs + PHDR_SIZE < TWO32 && Count(node.data.value, offs, PHDR_SIZE) == PHDR_SIZE
    ensures node.fs.Some? && node.data.Some? && PhdrAt(node, chain, i) == ReadPhdr(Content(node, chain, offs, offs + PHDR_SIZE))
    ensures IsLoad(node, chain, i) <==> PhdrAt(node, chain, i).pType == PT_LOAD
    ensures IsLoad(node, chain, i) ==> SegOk(PhdrAt(node, chain, i))
  {
    hide *;
    Sizes();
    StreamFacts(node, chain);
    InFile(node, chain, i);
    PhdrIs(node, chain, i, Header(node, chain), offs);
    WholeCount(node.data.value, offs, PHDR_SIZE);
  }

  lemma WholeCount(e: DirEntry, offs: nat, size: nat)
    requires offs + size <= e.fileSize
    ensures size > 0 ==> Count(e, offs, size) == size
  {
  }

  lemma InFile(node: Node, chain: seq<nat>, i: nat)
    requires node.fs.Some? && node.data.Some? && HeadersOk(node, chain) && i < Header(node, chain).phnum
    ensures PhdrOffset(Header(node, chain), i) + PHDR_SIZE <= node.data.value.fileSize
    ensures IsLoad(node, chain, i) ==> SegOk(PhdrAt(node, chain, i))
  {
    hide Header, PhdrAt, IsLoad, SegOk, PhdrOffset;
  }

  lemma PhdrIs(node: Node, chain: seq<nat>, i: nat, h: Ehdr, offs: nat)
    requires node.fs.Some? && h == Header(node, chain) && offs == (h.phoff + i * h.phentsize) % TWO32
    ensures PhdrOffset(h, i) == offs && PhdrAt(node, chain, i) == ReadPhdr(Content(node, chain, offs, offs + PHDR_SIZE))
    ensures IsLoad(node, chain, i) <==> PhdrAt(node, chain, i).pType == PT_LOAD
  {
    hide Header, Content, ReadPhdr;
  }

  lemma LoadsOk(node: Node, chain: seq<nat>, n: nat)
    requires node.fs.Some? && node.data.Some? && HeadersOk(node, chain) && n < Header(node, chain).phnum
    ensures forall j :: 0 <= j <= n && IsLoad(node, chain, j) ==> SegOk(PhdrAt(node, chain, j))
  {
    hide Header, PhdrAt, IsLoad, SegOk;
  }
}
