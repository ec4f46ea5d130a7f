/** From the bytes of a disk to the bytes of a file: mounting (fs/fat12.c:247-364), finding and reading it. */
module FatDisk {
  import opened Bytes
  import opened FatTable
  import opened FatRead
  import opened FatFiles
  import opened FatContent
  import opened FatNames
  import opened FatLookup
  import opened DiskFormat
  import opened Vfs

  // ---------- A disk as it is written ----------

  function FatStart(b: BootSector): nat { b.hidden % 0x100 + b.reserved }

  function RootStart(b: BootSector): nat { FatStart(b) + b.fats * b.sectorsPerFat }

  function RootSectors(b: BootSector): nat { b.rootEntries * 32 / 512 }

  function DataStart(b: BootSector): nat { RootStart(b) + RootSectors(b) }

  /** A disk of 512-byte sectors, one to a cluster: its boot sector, the entries of its FAT, and its root directory. */
  ghost predicate DiskHolds(blocks: seq<seq<byte>>, b: BootSector, entries: seq<entry>, slots: seq<Slot>) {
    && |blocks| > 0 && (forall k :: 0 <= k < |blocks| ==> |blocks[k]| == 512)
    && BootFits(b) && b.bytesPerSector == 512 && b.sectorsPerCluster == 1 && blocks[0][..36] == BootBytes(b)
    && OnDisk(blocks, FatStart(b), 512, Pack(entries)) && |Pack(entries)| <= b.sectorsPerFat * 512
    && DataStart(b) <= |blocks| && |slots| == RootSectors(b) * 16
    && forall k :: 0 <= k < |slots| ==> SlotHeld(blocks, b, slots[k], k)
  }

  /** Entry `k` of the root directory; a sector holds sixteen of them. */
  ghost predicate SlotHeld(blocks: seq<seq<byte>>, b: BootSector, slot: Slot, k: nat) {
    && SlotFits(slot) && RootStart(b) + k / 16 < |blocks| && |blocks[RootStart(b) + k / 16]| == 512
    && blocks[RootStart(b) + k / 16][k % 16 * 32..k % 16 * 32 + 32] == SlotBytes(slot)
  }

  /** The name of a file as it is asked for. */
  function FileName(base: seq<byte>, ext: seq<byte>): seq<byte> {
    base + if ext == [] then [] else [0x2E] + ext
  }

  predicate NameFits(base: seq<byte>, ext: seq<byte>) {
    |base| <= 8 && |ext| <= 3 && 0 !in base && 0 !in ext && 0x2E !in base
  }

  /** The slot is in use, is not a volume label, and has that name, padded with spaces. */
  ghost predicate Shows(s: Slot, base: seq<byte>, ext: seq<byte>)
    requires SlotFits(s) && NameFits(base, ext)
  {
    && s.filename[0] != 0xE5 && !s.attributes.volumeId
    && s.filename == base + seq(8 - |base|, i => 0x20) && s.extension == ext + seq(3 - |ext|, i => 0x20)
  }

  /** The end mark of a directory. */
  predicate IsEnd(s: Slot)
    requires SlotFits(s)
  {
    s.filename[0] == 0
  }

  /** Slot `k` is the first that shows the name, and no slot up to it is the end mark. */
  ghost predicate FirstSlot(slots: seq<Slot>, base: seq<byte>, ext: seq<byte>, k: nat)
    requires NameFits(base, ext) && forall j :: 0 <= j < |slots| ==> SlotFits(slots[j])
  {
    && k < |slots| && Shows(slots[k], base, ext) && (forall j :: 0 <= j <= k ==> !IsEnd(slots[j]))
    && forall j :: 0 <= j < k ==> !Shows(slots[j], base, ext)
  }

  /** The entries link these clusters, and mark the last one as the end. */
  ghost predicate Linked(entries: seq<entry>, chain: seq<nat>) {
    |chain| > 0 && 2 <= chain[0] < 0xFF7 && chain[0] < |entries| &&
    if |chain| == 1 then entries[chain[0]] >= 0xFF8
    else chain[1] == entries[chain[0]] && Linked(entries, chain[1..])
  }

  /** The slot is of a file that is not empty and lies in one piece in these clusters of the disk. */
  ghost predicate InOnePiece(blocks: seq<seq<byte>>, b: BootSector, entries: seq<entry>, s: Slot, chain: seq<nat>) {
    && !s.attributes.directory && Linked(entries, chain) && chain[0] == s.clusterLow && 0 < s.fileSize <= |chain| * 512
    && (forall q :: 0 <= q < |chain| ==> DataStart(b) + chain[q] - 2 < |blocks|)
    && forall q :: 0 <= q < |chain| && q * 512 < s.fileSize ==> chain[q] == s.clusterLow + q
  }

  // ---------- The mounted volume ----------

  /** What mounting makes of such a disk. */
  ghost predicate Mounted(v: Volume, blocks: seq<seq<byte>>, b: BootSector) {
    && v.blocks == blocks && v.bpb.bytesPerSector == 512 && v.bpb.sectorsPerCluster == 1
    && v.layout == Layout(FatStart(b), RootStart(b), RootSectors(b), DataStart(b))
    && |v.fat| == b.sectorsPerFat * 512 && FatLoaded(blocks, FatStart(b), v.fat, 512, |v.fat|)
  }

  method MountDisk(blocks: seq<seq<byte>>, ghost b: BootSector, ghost entries: seq<entry>, ghost slots: seq<Slot>) returns (v: Volume)
    requires DiskHolds(blocks, b, entries, slots)
    ensures Mounted(v, blocks, b)
  {
    hide BootBytes, SlotHeld, Pack, OnDisk, FatLoaded;
    v := MountWritten(blocks, b);
  }

  /** The driver follows the chain that was written. */
  lemma {:induction false} MountedChain(v: Volume, blocks: seq<seq<byte>>, b: BootSector, entries: seq<entry>, chain: seq<nat>)
    requires Mounted(v, blocks, b) && OnDisk(blocks, FatStart(b), 512, Pack(entries)) && |Pack(entries)| <= b.sectorsPerFat * 512
    requires Linked(entries, chain) && DataStart(b) < 0x400_0000
    requires forall q :: 0 <= q < |chain| ==> DataStart(b) + chain[q] - 2 < |blocks|
    ensures IsChain(v, chain)
    decreases |chain|
  {
    hide Pack, GetFentry, InTable, OnDisk, FatLoaded;
    MountedEntries(v, FatStart(b), 512, entries, chain[0]);
    if |chain| > 1 {
      forall q | 0 <= q < |chain| - 1 ensures DataStart(b) + chain[1..][q] - 2 < |blocks| {
        assert chain[1..][q] == chain[q + 1];
      }
      MountedChain(v, blocks, b, entries, chain[1..]);
    }
  }

  lemma LayoutFits(b: BootSector)
    requires BootFits(b)
    ensures DataStart(b) < 0x400_0000 && (RootSectors(b) > 0 ==> DataStart(b) > 0)
  {
    Product(b.fats, b.sectorsPerFat, 0xFF, 0xFFFF);
  }

  lemma Product(a: nat, b: nat, m: nat, n: nat)
    requires a <= m && b <= n
    ensures a * b <= m * n
  {
    assert (m - a) * b >= 0 && m * (n - b) >= 0;
    assert m * n == a * b + (m - a) * b + m * (n - b);
  }

  // ---------- The directory ----------

  /** Entry `k` of the mounted volume is what was written there. */
  lemma EntryIs(v: Volume, blocks: seq<seq<byte>>, b: BootSector, slot: Slot, k: nat)
    requires Mounted(v, blocks, b) && RootOk(v) && k < RootSectors(b) * 16 && SlotHeld(blocks, b, slot, k)
    ensures Entry(v, k) == DirEntry(slot.filename + slot.extension, AttributeByte(slot.attributes), slot.clusterLow, slot.fileSize)
    ensures IsVolumeLabel(Entry(v, k)) <==> slot.attributes.volumeId
    ensures IsDirectory(Entry(v, k)) <==> slot.attributes.directory
  {
    hide SlotBytes, ReadEntry, AttributeByte, IsVolumeLabel, IsDirectory, FatLoaded;
    SlotDecoded(slot);
    AttributeBits(slot.attributes, slot.filename + slot.extension, slot.clusterLow, slot.fileSize);
  }

  lemma RootOnDisk(v: Volume, blocks: seq<seq<byte>>, b: BootSector, entries: seq<entry>, slots: seq<Slot>)
    requires DiskHolds(blocks, b, entries, slots) && Mounted(v, blocks, b)
    ensures RootOk(v) && v.layout.rootDirSectors * SLOTS == |slots|
  {
    hide BootBytes, SlotHeld, Pack, OnDisk, FatLoaded;
  }

  /** A slot is a match for the driver exactly if it shows the name. */
  lemma MatchIsShown(v: Volume, blocks: seq<seq<byte>>, b: BootSector, slot: Slot, k: nat, base: seq<byte>, ext: seq<byte>)
    requires Mounted(v, blocks, b) && RootOk(v) && k < RootSectors(b) * 16 && SlotHeld(blocks, b, slot, k) && NameFits(base, ext)
    ensures EndMark(Entry(v, k)) <==> slot.filename[0] == 0
    ensures Live(Entry(v, k)) && Entry(v, k).name == To83(FileName(base, ext)) <==> Shows(slot, base, ext)
  {
    hide SlotBytes, ReadEntry, AttributeByte, IsVolumeLabel, IsDirectory, FatLoaded, To83, Entry, SlotHeld, Mounted;
    assert SlotFits(slot) by { Fits(blocks, b, slot, k); }
    EntryIs(v, blocks, b, slot, k);
    FieldOfName(base, ext != [], ext);
    FirstFits(ext);
    SameParts(slot.filename, slot.extension, base + seq(8 - |base|, i => 0x20), ext + seq(3 - |ext|, i => 0x20));
    assert base + seq<byte>(8 - |base|, i => 0x20) + ext + seq<byte>(3 - |ext|, i => 0x20) ==
      base + seq<byte>(8 - |base|, i => 0x20) + (ext + seq<byte>(3 - |ext|, i => 0x20));
  }

  lemma Fits(blocks: seq<seq<byte>>, b: BootSector, slot: Slot, k: nat)
    requires SlotHeld(blocks, b, slot, k)
    ensures SlotFits(slot)
  {
  }

  lemma SameParts(a: seq<byte>, b: seq<byte>, c: seq<byte>, d: seq<byte>)
    requires |a| == |c|
    ensures a + b == c + d <==> a == c && b == d
  {
    if a + b == c + d {
      assert a == (a + b)[..|a|] && c == (c + d)[..|a|];
      assert b == (a + b)[|a|..] && d == (c + d)[|a|..];
    }
  }

  /** So the driver's first match is the first slot that shows the name. */
  lemma FirstIsFirst(v: Volume, blocks: seq<seq<byte>>, b: BootSector, entries: seq<entry>, slots: seq<Slot>, base: seq<byte>, ext: seq<byte>, k: nat)
    requires DiskHolds(blocks, b, entries, slots) && Mounted(v, blocks, b) && RootOk(v) && NameFits(base, ext)
    ensures forall j :: 0 <= j < |slots| ==> SlotFits(slots[j])
    ensures FirstMatch(v, To83(FileName(base, ext)), k) <==> FirstSlot(slots, base, ext, k)
  {
    RootOnDisk(v, blocks, b, entries, slots);
    hide To83, FileName, Entry, EndMark, Live, Shows, Mounted, SlotHeld, BootBytes, Pack, OnDisk, RootOk;
    forall j | 0 <= j < |slots|
      ensures SlotFits(slots[j])
      ensures EndMark(Entry(v, j)) <==> IsEnd(slots[j])
      ensures Live(Entry(v, j)) && Entry(v, j).name == To83(FileName(base, ext)) <==> Shows(slots[j], base, ext)
    {
      Fits(blocks, b, slots[j], j);
      MatchIsShown(v, blocks, b, slots[j], j, base, ext);
    }
  }

  /** The node of slot `k`, and where the slot is. */
  ghost predicate FoundAt(v: Volume, b: BootSector, slots: seq<Slot>, k: nat, f: Found)
    requires k < |slots|
  {
    && f.node.fs == Some(v) && f.node.data.Some?
    && f.node.data.value.firstCluster == slots[k].clusterLow && f.node.data.value.fileSize == slots[k].fileSize
    && f.isDirectory == slots[k].attributes.directory && (IsDirectory(f.node.data.value) <==> slots[k].attributes.directory)
    && f.sector == RootStart(b) + k / 16 && f.offset == k % 16
  }

  /** What a lookup gives for a disk as it was written. */
  lemma LookupIs(v: Volume, blocks: seq<seq<byte>>, b: BootSector, entries: seq<entry>, slots: seq<Slot>, base: seq<byte>, ext: seq<byte>, r: Option<Found>)
    requires DiskHolds(blocks, b, entries, slots) && Mounted(v, blocks, b) && RootOk(v) && NameFits(base, ext)
    requires Finds(v, To83(FileName(base, ext)), FileName(base, ext), r)
    ensures forall j :: 0 <= j < |slots| ==> SlotFits(slots[j])
    ensures r.Some? <==> exists k: nat :: FirstSlot(slots, base, ext, k)
    ensures forall k: nat :: FirstSlot(slots, base, ext, k) ==> r.Some? && FoundAt(v, b, slots, k, r.value)
  {
    hide To83, FileName, EndMark, Live, Shows, SlotHeld, BootBytes, Pack, OnDisk, FatLoaded, RootOk, Entry, FirstMatch, FirstSlot;
    NameIs(base, ext);
    var field := To83(FileName(base, ext));
    RootOnDisk(v, blocks, b, entries, slots);
    FirstIsFirst(v, blocks, b, entries, slots, base, ext, 0);
    forall k: nat ensures FirstMatch(v, field, k) <==> FirstSlot(slots, base, ext, k) {
      FirstIsFirst(v, blocks, b, entries, slots, base, ext, k);
    }
    if r.Some? {
      var k := (r.value.sector - v.layout.rootDirStart) * SLOTS + r.value.offset;
      DivIs(k, SLOTS, r.value.sector - v.layout.rootDirStart, r.value.offset);
      InSlots(slots, base, ext, k);
      EntryIs(v, blocks, b, slots[k], k);
      forall j: nat | FirstSlot(slots, base, ext, j) ensures j == k { OneMatch(v, field, j, k); }
    } else {
      forall k: nat | FirstSlot(slots, base, ext, k) ensures false {
        InSlots(slots, base, ext, k);
      }
    }
  }

  lemma InSlots(slots: seq<Slot>, base: seq<byte>, ext: seq<byte>, k: nat)
    requires NameFits(base, ext) && (forall j :: 0 <= j < |slots| ==> SlotFits(slots[j])) && FirstSlot(slots, base, ext, k)
    ensures k < |slots|
  {
  }

  /** Mounting a disk and looking a name up. */
  method FindWritten(blocks: seq<seq<byte>>, base: seq<byte>, ext: seq<byte>, ghost b: BootSector, ghost entries: seq<entry>, ghost slots: seq<Slot>)
      returns (v: Volume, r: Option<Found>)
    requires DiskHolds(blocks, b, entries, slots) && NameFits(base, ext)
    ensures Mounted(v, blocks, b)
    ensures forall j :: 0 <= j < |slots| ==> SlotFits(slots[j])
    ensures r.Some? <==> exists k: nat :: FirstSlot(slots, base, ext, k)
    ensures forall k: nat :: FirstSlot(slots, base, ext, k) ==> k < |slots| && r.Some? && FoundAt(v, b, slots, k, r.value)
  {
    hide *;
    NameIs(base, ext);
    v := MountDisk(blocks, b, entries, slots);
    RootOnDisk(v, blocks, b, entries, slots);
    r := Lookup([0x2F], Some(v), FileName(base, ext));
    RootIs();
    LookupIs(v, blocks, b, entries, slots, base, ext, r);
    forall k: nat | FirstSlot(slots, base, ext, k) ensures k < |slots| { InSlots(slots, base, ext, k); }
  }

  lemma NameIs(base: seq<byte>, ext: seq<byte>)
    requires NameFits(base, ext)
    ensures 0 !in FileName(base, ext)
  {
  }

  lemma RootIs()
    ensures ROOT == [0x2F]
  {
  }

  // ---------- The file ----------

  /** The blocks from `first` on have `x` at byte `i`. */
  predicate ByteHeld(blocks: seq<seq<byte>>, first: int, i: nat, x: byte) {
    var lba := first + i / 512;
    0 <= lba < |blocks| && i % 512 < |blocks[lba]| && blocks[lba][i % 512] == x
  }

  /** The byte at `i` of a file in one piece is in the sectors from its first cluster on. */
  lemma ContentIsRaw(v: Volume, e: DirEntry, chain: seq<nat>, i: nat)
    requires Streamable(Node(Some(v), Some(e)), chain) && Bps(v) == SECTOR && i < e.fileSize
    ensures ByteHeld(v.blocks, v.layout.dataAreaStart + e.firstCluster - 2, i, ContentByte(v, chain, i))
  {
    hide *;
    OneSector(v, e, chain);
    FileFacts(v, e, chain, Bpc(v));
    InPiece(e, chain, i);
    var c := chain[i / SECTOR];
    ChainData(v, chain, i / SECTOR);
    ContentIn(v, chain, i);
    SectorByte(v, c, i % SECTOR);
    HeldAt(v.blocks, v.layout.dataAreaStart + e.firstCluster - 2, i, ContentByte(v, chain, i));
  }

  lemma HeldAt(blocks: seq<seq<byte>>, first: int, i: nat, x: byte)
    requires SECTOR == 512 && 0 <= first + i / SECTOR < |blocks| && i % SECTOR < |blocks[first + i / SECTOR]|
    requires blocks[first + i / SECTOR][i % SECTOR] == x
    ensures ByteHeld(blocks, first, i, x)
  {
  }

  lemma OneSector(v: Volume, e: DirEntry, chain: seq<nat>)
    requires Streamable(Node(Some(v), Some(e)), chain) && Bps(v) == SECTOR && e.fileSize > 0
    ensures FileOnDisk(v, e, chain, Bpc(v)) && Bpc(v) == SECTOR == 512 && v.bpb.sectorsPerCluster == 1 && Contiguous(e, chain, SECTOR)
  {
    hide FileOnDisk, Contiguous;
  }

  lemma InPiece(e: DirEntry, chain: seq<nat>, i: nat)
    requires SECTOR == 512 && Contiguous(e, chain, SECTOR) && i < e.fileSize <= |chain| * SECTOR
    ensures i / SECTOR < |chain| && chain[i / SECTOR] == e.firstCluster + i / SECTOR && i % SECTOR < SECTOR
  {
    assert i / SECTOR * SECTOR < e.fileSize;
  }

  lemma ContentIn(v: Volume, chain: seq<nat>, i: nat)
    requires Bpc(v) == Bps(v) == SECTOR && i / SECTOR < |chain|
    ensures ContentByte(v, chain, i) == ByteAt(v, chain[i / SECTOR], i % SECTOR)
  {
    hide ByteAt;
  }

  lemma SectorByte(v: Volume, c: nat, o: nat)
    requires VolumeOk(v) && Data(v, c) && v.bpb.sectorsPerCluster == 1 && Bps(v) == SECTOR && o < SECTOR
    ensures var lba := v.layout.dataAreaStart + c - 2; 0 <= lba < |v.blocks| && o < |v.blocks[lba]| && ByteAt(v, c, o) == v.blocks[lba][o]
  {
    hide InTable, GetFentry;
  }

  /** Every request has a size that the driver's arithmetic can take. */
  predicate Modest(sizes: seq<nat>) {
    forall i :: 0 <= i < |sizes| ==> 0 < sizes[i] < 0x1000_0000
  }

  lemma ModestRequests(node: Node, chain: seq<nat>, sizes: seq<nat>)
    requires Streamable(node, chain) && Modest(sizes)
    ensures node.data.Some? && Requests(node, 0, sizes)
  {
    StreamFacts(node, chain);
    hide Streamable, Sum;
  }


  /** The file of slot `k` can be read as a stream. */
  lemma FileStreams(v: Volume, blocks: seq<seq<byte>>, b: BootSector, entries: seq<entry>, slots: seq<Slot>, k: nat, f: Found, chain: seq<nat>)
    requires DiskHolds(blocks, b, entries, slots) && Mounted(v, blocks, b) && k < |slots| && FoundAt(v, b, slots, k, f)
    requires InOnePiece(blocks, b, entries, slots[k], chain)
    ensures Streamable(f.node, chain) && f.node.fs == Some(v) && Bps(v) == SECTOR
  {
    hide BootBytes, Pack, FatLoaded, IsChain, Linked, OnDisk, SlotHeld, IsDirectory;
    LayoutFits(b);
    MountedChain(v, blocks, b, entries, chain);
    SizeFits(blocks, b, slots[k], k);
  }

  lemma SizeFits(blocks: seq<seq<byte>>, b: BootSector, slot: Slot, k: nat)
    requires SlotHeld(blocks, b, slot, k)
    ensures slot.fileSize < 0x1_0000_0000
  {
  }

  /** The whole file has been streamed. */
  lemma AllStreamed(node: Node, chain: seq<nat>, cursor: nat, before: seq<byte>, after: seq<byte>, sizes: seq<nat>, counts: seq<int>)
    requires Streamable(node, chain) && Streamed(node, chain, 0, cursor, before, after, sizes, |sizes|, counts)
    requires Bps(node.fs.value) == SECTOR && node.data.value.fileSize <= Sum(sizes)
    ensures |after| == |before| && node.data.value.fileSize <= |before|
    ensures var v, e := node.fs.value, node.data.value;
      forall i :: 0 <= i < e.fileSize ==> ByteHeld(v.blocks, v.layout.dataAreaStart + e.firstCluster - 2, i, after[i])
  {
    hide Streamable, Sum, ContentByte, Counted, ByteHeld;
    assert sizes[..|sizes|] == sizes;
    var v, e := node.fs.value, node.data.value;
    forall i | 0 <= i < e.fileSize
      ensures ByteHeld(v.blocks, v.layout.dataAreaStart + e.firstCluster - 2, i, after[i])
    {
      ContentIsRaw(v, e, chain, i);
    }
  }

  /**
    From end to end: on a disk with this boot sector, these FAT entries and this root directory, the file in slot `k` is
    found under its name and read in requests of any sizes. The buffer then holds the bytes of the file's sectors.
   */
  method ReadNamed(blocks: seq<seq<byte>>, base: seq<byte>, ext: seq<byte>, sizes: seq<nat>,
                   ghost b: BootSector, ghost entries: seq<entry>, ghost slots: seq<Slot>, ghost k: nat, ghost chain: seq<nat>)
      returns (buf: array<byte>)
    requires DiskHolds(blocks, b, entries, slots) && NameFits(base, ext) && Modest(sizes)
    requires (forall j :: 0 <= j < |slots| ==> SlotFits(slots[j])) && FirstSlot(slots, base, ext, k)
    requires k < |slots| && InOnePiece(blocks, b, entries, slots[k], chain) && slots[k].fileSize <= Sum(sizes)
    ensures fresh(buf) && slots[k].fileSize <= buf.Length == Sum(sizes)
    ensures forall i :: 0 <= i < slots[k].fileSize ==> ByteHeld(blocks, DataStart(b) + slots[k].clusterLow - 2, i, buf[i])
  {
    hide *;
    var v, found := FindWritten(blocks, base, ext, b, entries, slots);
    FileStreams(v, blocks, b, entries, slots, k, found.value, chain);
    MountedParts(v, blocks, b);
    FoundParts(v, b, slots, k, found.value);
    ghost var node := found.value.node;
    var file := new File(Some(found.value.node));
    buf := new byte[Sum(sizes)];
    ModestRequests(node, chain, sizes);
    ghost var before := buf[..];
    var counts := ReadStream(file, sizes, buf, chain);
    AllStreamed(node, chain, file.fOffset, before, buf[..], sizes, counts);
  }

  lemma MountedParts(v: Volume, blocks: seq<seq<byte>>, b: BootSector)
    requires Mounted(v, blocks, b)
    ensures v.blocks == blocks && v.layout.dataAreaStart == DataStart(b)
  {
  }

  lemma FoundParts(v: Volume, b: BootSector, slots: seq<Slot>, k: nat, f: Found)
    requires k < |slots| && FoundAt(v, b, slots, k, f)
    ensures f.node.fs == Some(v) && f.node.data.Some?
    ensures f.node.data.value.firstCluster == slots[k].clusterLow && f.node.data.value.fileSize == slots[k].fileSize
  {
  }

  // ---------- An example ----------

  /** The boot sector of a small disk: two FATs of three sectors behind it, then a sector of root directory. */
  const BOOT: BootSector := BootSector([0xEB, 0x3C, 0x90], [0x4D, 0x53, 0x44, 0x4F, 0x53, 0x35, 0x2E, 0x30], 512, 1, 1, 2, 16, 9, 0xF0, 3, 18, 2, 0, 0)

  const ENTRIES: seq<entry> := [0xFF0, 0xFFF, 0xFFF]

  const PLAIN: Attributes := Attributes(false, false, false, false, false, false, 0)

  /** A file `A` in cluster 2. */
  function FileSlot(size: nat): Slot {
    Slot([0x41, 0x20, 0x20, 0x20, 0x20, 0x20, 0x20, 0x20], [0x20, 0x20, 0x20], PLAIN.(archive := true), 0, 0, 0, 0, 0, 0, 0, 0, 2, size)
  }

  const FREE: Slot := Slot([0, 0, 0, 0, 0, 0, 0, 0], [0, 0, 0], PLAIN, 0, 0, 0, 0, 0, 0, 0, 0, 0, 0)

  function Frees(n: nat): (s: seq<Slot>)
    ensures |s| == n && forall k :: 0 <= k < n ==> s[k] == FREE
  {
    seq(n, i => FREE)
  }

  function SlotsBytes(slots: seq<Slot>): (s: seq<byte>)
    requires forall k :: 0 <= k < |slots| ==> SlotFits(slots[k])
    ensures |s| == 32 * |slots|
  {
    if slots == [] then [] else SlotBytes(slots[0]) + SlotsBytes(slots[1..])
  }

  lemma {:induction false} SlotAt(slots: seq<Slot>, k: nat)
    requires (forall j :: 0 <= j < |slots| ==> SlotFits(slots[j])) && k < |slots|
    ensures SlotsBytes(slots)[k * 32..k * 32 + 32] == SlotBytes(slots[k])
  {
    hide SlotBytes;
    if k > 0 {
      SlotAt(slots[1..], k - 1);
      assert SlotsBytes(slots)[k * 32..k * 32 + 32] == SlotsBytes(slots[1..])[(k - 1) * 32..(k - 1) * 32 + 32];
    }
  }

  function Directory(size: nat): (s: seq<Slot>)
    requires 0 < size <= 512
    ensures |s| == 16 && forall k :: 0 <= k < 16 ==> SlotFits(s[k])
  {
    [FileSlot(size)] + Frees(15)
  }

  function FatSector(): (s: seq<byte>)
    ensures |s| == 512
  {
    [0xF0, 0xFF, 0xFF, 0xFF, 0x0F] + seq(507, i => 0)
  }

  function SmallDisk(size: nat, data: seq<byte>): (blocks: seq<seq<byte>>)
    requires 0 < size <= 512 && |data| == 512
    ensures |blocks| == 9 && forall k :: 0 <= k < 9 ==> |blocks[k]| == 512
  {
    var none: seq<byte> := seq(512, i => 0);
    [BootBytes(BOOT) + seq(476, i => 0), FatSector(), none, none, FatSector(), none, none, SlotsBytes(Directory(size)), data]
  }

  lemma SmallHolds(size: nat, data: seq<byte>)
    requires 0 < size <= 512 && |data| == 512
    ensures DiskHolds(SmallDisk(size, data), BOOT, ENTRIES, Directory(size))
  {
    hide *;
    var blocks := SmallDisk(size, data);
    BlocksAre(size, data);
    StartsAre();
    SmallFat(blocks);
    forall k | 0 <= k < 16 ensures SlotHeld(blocks, BOOT, Directory(size)[k], k) { SlotIsHeld(blocks, size, k); }
    HoldsAll(blocks, BOOT, ENTRIES, Directory(size));
  }

  lemma BlocksAre(size: nat, data: seq<byte>)
    requires 0 < size <= 512 && |data| == 512
    ensures var blocks := SmallDisk(size, data); BootFits(BOOT) && blocks[0][..36] == BootBytes(BOOT) && blocks[1] == FatSector()
    ensures SmallDisk(size, data)[7] == SlotsBytes(Directory(size))
  {
    hide BootBytes, SlotsBytes, Directory, FatSector;
  }

  lemma StartsAre()
    ensures FatStart(BOOT) == 1 && RootStart(BOOT) == 7 && RootSectors(BOOT) == 1 && DataStart(BOOT) == 8
    ensures BOOT.bytesPerSector == 512 && BOOT.sectorsPerCluster == 1 && BOOT.sectorsPerFat == 3
  {
    hide FatStart, RootStart, RootSectors, DataStart;
    StartsOf(BOOT);
  }

  lemma StartsOf(b: BootSector)
    requires b.hidden == 0 && b.reserved == 1 && b.fats == 2 && b.sectorsPerFat == 3 && b.rootEntries == 16
    ensures FatStart(b) == 1 && RootStart(b) == 7 && RootSectors(b) == 1 && DataStart(b) == 8
  {
  }

  lemma SlotIsHeld(blocks: seq<seq<byte>>, size: nat, k: nat)
    requires 0 < size <= 512 && k < 16 && |blocks| == 9 && blocks[7] == SlotsBytes(Directory(size)) && RootStart(BOOT) == 7
    ensures SlotHeld(blocks, BOOT, Directory(size)[k], k)
  {
    hide SlotsBytes, SlotBytes, Directory, RootStart;
    SlotAt(Directory(size), k);
  }

  lemma HoldsAll(blocks: seq<seq<byte>>, b: BootSector, entries: seq<entry>, slots: seq<Slot>)
    requires |blocks| == 9 && (forall k :: 0 <= k < |blocks| ==> |blocks[k]| == 512)
    requires BootFits(b) && b.bytesPerSector == 512 && b.sectorsPerCluster == 1 && b.sectorsPerFat == 3
    requires blocks[0][..36] == BootBytes(b)
    requires FatStart(b) == 1 && RootSectors(b) == 1 && DataStart(b) == 8
    requires OnDisk(blocks, 1, 512, Pack(entries)) && |Pack(entries)| == 5
    requires |slots| == 16 && forall k :: 0 <= k < 16 ==> SlotHeld(blocks, b, slots[k], k)
    ensures DiskHolds(blocks, b, entries, slots)
  {
    hide BootBytes, OnDisk, Pack, SlotHeld, FatStart, RootSectors, DataStart, BootFits;
  }

  lemma SmallFat(blocks: seq<seq<byte>>)
    requires |blocks| == 9 && blocks[1] == FatSector()
    ensures OnDisk(blocks, 1, 512, Pack(ENTRIES)) && |Pack(ENTRIES)| == 5
  {
    assert Pack(ENTRIES[2..]) == [0xFF, 0x0F];
    assert Pack(ENTRIES) == [0xF0, 0xFF, 0xFF, 0xFF, 0x0F];
  }

  lemma SmallFile(size: nat, data: seq<byte>)
    requires 0 < size <= 512 && |data| == 512
    ensures NameFits([0x41], []) && FirstSlot(Directory(size), [0x41], [], 0) && Directory(size)[0] == FileSlot(size)
    ensures InOnePiece(SmallDisk(size, data), BOOT, ENTRIES, Directory(size)[0], [2])
    ensures DataStart(BOOT) == 8 && SmallDisk(size, data)[8] == data
  {
    hide BootBytes, SlotsBytes;
    assert [0x41] + seq<byte>(7, i => 0x20) == [0x41, 0x20, 0x20, 0x20, 0x20, 0x20, 0x20, 0x20];
    assert [] + seq<byte>(3, i => 0x20) == [0x20, 0x20, 0x20];
  }

  /** Everything `ReadNamed` asks for is met by such a disk, and what is read is the data, in one request or in many. */
  method ReadSmall(size: nat, data: seq<byte>, sizes: seq<nat>) returns (buf: array<byte>)
    requires 0 < size <= 512 && |data| == 512 && Modest(sizes) && size <= Sum(sizes)
    ensures size <= buf.Length && buf[..size] == data[..size]
  {
    SmallHolds(size, data);
    SmallFile(size, data);
    hide *;
    ghost var dir := Directory(size);
    buf := ReadNamed(SmallDisk(size, data), [0x41], [], sizes, BOOT, ENTRIES, dir, 0, [2]);
    SizeIs(size);
    forall i | 0 <= i < size ensures buf[i] == data[i] { HeldIs(SmallDisk(size, data), 8, i, buf[i]); }
  }

  lemma SizeIs(size: nat)
    ensures FileSlot(size).fileSize == size && FileSlot(size).clusterLow == 2
  {
  }

  lemma HeldIs(blocks: seq<seq<byte>>, first: nat, i: nat, x: byte)
    requires ByteHeld(blocks, first, i, x) && i < 512
    ensures first < |blocks| && i < |blocks[first]| && x == blocks[first][i]
  {
  }
}
