/** When fat12_read (fs/fat12.c:425-523) returns the bytes of the file, and when it cannot. */
module FatContent {
  import opened Bytes
  import opened FatTable
  import opened FatRead
  import opened FatFiles

  /** What the file has of the request. */
  function Available(e: DirEntry, offs: nat, size: nat): nat
    requires offs <= e.fileSize
  {
    if size <= e.fileSize - offs then size else e.fileSize - offs
  }

  /** The read is safe and copies exactly the requested part of the file, or what the file has of it. */
  ghost predicate Right(v: Volume, junk: seq<byte>, e: DirEntry, chain: seq<nat>, offs: nat, size: nat)
    requires Bps(v) > 0 && |junk| > 0 && offs < e.fileSize
  {
    var m := Available(e, offs, size);
    var p := PlanFor(e, offs, Clip(offs, size, e.fileSize), |junk|);
    Clip(offs, size, e.fileSize) == m && Safe(v, p, |junk|) && IsContent(v, ReadOut(v, junk, p), chain, offs, m, |junk|)
  }

  ghost predicate IsContent(v: Volume, out: seq<byte>, chain: seq<nat>, offs: nat, m: nat, bpc: nat)
    requires Bps(v) > 0 && bpc > 0
  {
    |out| == m && forall k :: 0 <= k < m ==> out[k] == ContentAt(v, chain, offs + k, bpc)
  }

  /** The driver starts at the right cluster although it does not follow the FAT up to there. */
  predicate StartsRight(e: DirEntry, chain: seq<nat>, offs: nat, bpc: nat)
    requires bpc > 0
  {
    offs / bpc < |chain| && chain[offs / bpc] == e.firstCluster + offs / bpc
  }

  /** No byte of the request lies behind the first block of a cluster. */
  predicate InFirstBlocks(v: Volume, offs: nat, m: nat, bpc: nat)
    requires bpc > 0
  {
    v.bpb.sectorsPerCluster == 1 || offs % bpc + m <= Bps(v)
  }

  lemma LastInside(q: nat, skip: nat, count: nat, stop: nat, m: nat, bpc: nat, clusters: nat)
    requires count >= 1 && stop > 0 && (count - 1) * bpc + stop == skip + m && q * bpc + skip + m <= clusters * bpc
    ensures q + count <= clusters
  {
    var last := q + count - 1;
    assert last * bpc == q * bpc + (count - 1) * bpc;
    if last >= clusters { AtLeastTimes(last, clusters, bpc); }
  }

  lemma FileFacts(v: Volume, e: DirEntry, chain: seq<nat>, bpc: nat)
    requires FileOnDisk(v, e, chain, bpc)
    ensures IsChain(v, chain) && VolumeOk(v) && 0 < Bps(v) <= bpc == Bpc(v) && 0 < e.fileSize < TWO32 && e.fileSize <= |chain| * bpc
  {
    hide IsChain;
  }

  lemma TilesFacts(p: Plan, bpc: nat, offs: nat, m: nat)
    requires bpc > 0 && Tiles(p, bpc, offs, m)
    ensures p.skip == offs % bpc < bpc && 0 < p.stop <= bpc && p.count >= 1
    ensures (p.count - 1) * bpc + p.stop == p.skip + m && (p.count == 1 ==> p.skip < p.stop)
  {
  }

  /** The plan for the part of the request that the file has is carried out inside the chain. */
  lemma PlanHolds(v: Volume, e: DirEntry, chain: seq<nat>, offs: nat, m: nat, bpc: nat)
    requires FileOnDisk(v, e, chain, bpc) && 0 < m && offs + m <= e.fileSize && bpc > 0
    ensures var p := PlanFor(e, offs, m, bpc); Tiles(p, bpc, offs, m) && offs / bpc + p.count <= |chain|
  {
    hide *;
    FileFacts(v, e, chain, bpc);
    ChainLength(v, chain);
    var p := PlanFor(e, offs, m, bpc);
    AtLeastTimes(0xFFFF, |chain|, bpc);
    DivMod(offs, bpc);
    ChunksTile(e, offs, m, bpc);
    TilesFacts(p, bpc, offs, m);
    LastInside(offs / bpc, p.skip, p.count, p.stop, m, bpc, |chain|);
  }

  lemma ChainBound(v: Volume, chain: seq<nat>, q: nat)
    requires IsChain(v, chain) && q < |chain|
    ensures chain[q] < 0xFF7
  {
    ChainData(v, chain, q);
  }

  lemma StartIs(e: DirEntry, offs: nat, bpc: nat, q: nat, c: nat)
    requires bpc > 0 && q == offs / bpc && c == e.firstCluster + q && c < TWO16
    ensures StartCluster(e, offs, bpc) == c
  {
  }

  lemma PlanFields(e: DirEntry, offs: nat, m: nat, bpc: nat)
    requires bpc > 0
    ensures var p := PlanFor(e, offs, m, bpc); p.first == StartCluster(e, offs, bpc) && p.skip == offs % bpc
  {
    hide StartCluster, ClustersToRead, LastStop;
  }

  /** It starts at a cluster of the chain. */
  lemma FirstIs(v: Volume, e: DirEntry, chain: seq<nat>, offs: nat, m: nat, bpc: nat, q: nat)
    requires IsChain(v, chain) && bpc > 0 && q == offs / bpc && StartsRight(e, chain, offs, bpc)
    ensures q < |chain| && PlanFor(e, offs, m, bpc).first == chain[q] && PlanFor(e, offs, m, bpc).skip == offs % bpc
  {
    assert q < |chain| && chain[q] == e.firstCluster + q;
    hide *;
    ChainBound(v, chain, q);
    StartIs(e, offs, bpc, q, chain[q]);
    PlanFields(e, offs, m, bpc);
  }

  lemma FetchedFrom(v: Volume, junk: seq<byte>, chain: seq<nat>, q: nat, i: nat)
    requires Bps(v) > 0 && |junk| > 0 && q <= |chain|
    ensures FetchedAt(v, junk, chain[q..], i) == FetchedAt(v, junk, chain, q * |junk| + i)
  {
    var bpc := |junk|;
    hide Bps, ByteAt;
    DivMod(i, bpc);
    assert (q + i / bpc) * bpc == q * bpc + i / bpc * bpc;
    DivIs(q * bpc + i, bpc, q + i / bpc, i % bpc);
  }

  /** Where only first blocks are needed, what the loop fetches is the content. */
  lemma FetchedIsContent(v: Volume, junk: seq<byte>, chain: seq<nat>, offs: nat, m: nat, k: nat)
    requires Bps(v) > 0 && |junk| > 0 && k < m && InFirstBlocks(v, offs, m, |junk|)
    requires v.bpb.sectorsPerCluster == 1 ==> |junk| == Bps(v)
    requires Bps(v) <= |junk|
    ensures FetchedAt(v, junk, chain, offs + k) == ContentAt(v, chain, offs + k, |junk|)
  {
    var bpc := |junk|;
    SplitSum(offs, k, bpc);
    if v.bpb.sectorsPerCluster != 1 { DivIs(offs % bpc + k, bpc, 0, offs % bpc + k); }
  }

  /** The plan, when the driver starts at the right cluster. */
  lemma PlanInChain(v: Volume, e: DirEntry, chain: seq<nat>, offs: nat, m: nat, bpc: nat)
    requires FileOnDisk(v, e, chain, bpc) && 0 < m && offs + m <= e.fileSize && bpc > 0 && StartsRight(e, chain, offs, bpc)
    ensures VolumeOk(v) && 0 < Bps(v) <= bpc && offs / bpc < |chain| && IsChain(v, chain[offs / bpc..])
    ensures var p := PlanFor(e, offs, m, bpc);
      && p.first == chain[offs / bpc] && 1 <= p.count <= |chain| - offs / bpc && p.skip < bpc && 0 < p.stop <= bpc
      && (p.count == 1 ==> p.skip <= p.stop) && (p.count - 1) * bpc + p.stop - p.skip == m && offs / bpc * bpc + p.skip == offs
  {
    hide *;
    FileFacts(v, e, chain, bpc);
    PlanHolds(v, e, chain, offs, m, bpc);
    FirstIs(v, e, chain, offs, m, bpc, offs / bpc);
    ChainFrom(v, chain, offs / bpc);
    DivMod(offs, bpc);
    TilesFacts(PlanFor(e, offs, m, bpc), bpc, offs, m);
  }

  lemma SafePlan(v: Volume, p: Plan, junk: seq<byte>)
    requires VolumeOk(v) && Bps(v) <= |junk| && Walks(v, p.first, p.count)
    requires p.skip < |junk| && p.stop <= |junk| && (p.count == 1 ==> p.skip <= p.stop)
    ensures Safe(v, p, |junk|) && forall k :: 0 <= k < |v.blocks| ==> |v.blocks[k]| <= |junk|
    ensures ReadOut(v, junk, p) == Output(v, junk, p.first, p.count, p.skip, p.stop)
  {
    hide Output, Walks;
  }

  /** What the driver copies when it starts at the right cluster, for any number of blocks to a cluster. */
  lemma ReadFetches(v: Volume, junk: seq<byte>, e: DirEntry, chain: seq<nat>, offs: nat, m: nat)
    requires FileOnDisk(v, e, chain, |junk|) && 0 < m && offs + m <= e.fileSize && |junk| > 0 && StartsRight(e, chain, offs, |junk|)
    ensures Bps(v) > 0
    ensures var p := PlanFor(e, offs, m, |junk|);
      Safe(v, p, |junk|) && |ReadOut(v, junk, p)| == m
      && forall k :: 0 <= k < m ==> ReadOut(v, junk, p)[k] == FetchedAt(v, junk, chain, offs + k)
  {
    hide *;
    var bpc := |junk|;
    var q := offs / bpc;
    var p := PlanFor(e, offs, m, bpc);
    PlanInChain(v, e, chain, offs, m, bpc);
    var rest := chain[q..];
    Fetches(v, junk, rest, p.count, p.skip, p.stop);
    SafePlan(v, p, junk);
    var out := ReadOut(v, junk, p);
    forall k | 0 <= k < m ensures out[k] == FetchedAt(v, junk, chain, offs + k) {
      FetchedFrom(v, junk, chain, q, p.skip + k);
    }
  }

  /** The driver reads the file right when it starts right and needs just first blocks, whatever is on the disk. */
  lemma ReadIsRight(v: Volume, junk: seq<byte>, e: DirEntry, chain: seq<nat>, offs: nat, size: nat)
    requires FileOnDisk(v, e, chain, |junk|) && offs < e.fileSize && 0 < size && offs + size < TWO32 && |junk| > 0 && Bps(v) > 0
    requires StartsRight(e, chain, offs, |junk|) && InFirstBlocks(v, offs, Available(e, offs, size), |junk|)
    ensures Right(v, junk, e, chain, offs, size)
  {
    var m := Available(e, offs, size);
    var p := PlanFor(e, offs, m, |junk|);
    assert Bps(v) <= |junk| == Bpc(v) && e.fileSize < TWO32;
    assert v.bpb.sectorsPerCluster == 1 ==> |junk| == Bps(v);
    hide PlanFor, FetchedAt, ContentAt, ReadOut, Safe, FileOnDisk, StartsRight, InFirstBlocks, VolumeOk, Bpc, Bps;
    ReadFetches(v, junk, e, chain, offs, m);
    forall k | 0 <= k < m ensures ReadOut(v, junk, p)[k] == ContentAt(v, chain, offs + k, |junk|) {
      FetchedIsContent(v, junk, chain, offs, m, k);
    }
    RightIs(v, junk, e, chain, offs, size, m, p);
  }

  lemma RightIs(v: Volume, junk: seq<byte>, e: DirEntry, chain: seq<nat>, offs: nat, size: nat, m: nat, p: Plan)
    requires Bps(v) > 0 && |junk| > 0 && offs < e.fileSize < TWO32 && offs + size < TWO32
    requires m == Available(e, offs, size) && p == PlanFor(e, offs, m, |junk|) && Safe(v, p, |junk|) && |ReadOut(v, junk, p)| == m
    requires forall k :: 0 <= k < m ==> ReadOut(v, junk, p)[k] == ContentAt(v, chain, offs + k, |junk|)
    ensures Right(v, junk, e, chain, offs, size)
  {
    hide PlanFor, ContentAt, ReadOut, Safe, Bps;
  }

  // ---------- When it cannot be right ----------

  ghost predicate SameShape(a: seq<seq<byte>>, b: seq<seq<byte>>) {
    |a| == |b| && forall k :: 0 <= k < |a| ==> |a[k]| == |b[k]|
  }

  lemma {:induction false} Reshaped(v: Volume, chain: seq<nat>, blocks: seq<seq<byte>>)
    requires IsChain(v, chain) && SameShape(blocks, v.blocks)
    ensures IsChain(v.(blocks := blocks), chain)
    decreases |chain|
  {
    assert Data(v.(blocks := blocks), chain[0]);
    if |chain| > 1 { Reshaped(v, chain[1..], blocks); }
  }

  /** The volume with another byte at `o` of block `lba`. */
  function Vary(v: Volume, lba: nat, o: nat, x: byte): (r: Volume)
    requires lba < |v.blocks| && o < |v.blocks[lba]|
  {
    var block: seq<byte> := v.blocks[lba][..o] + [x] + v.blocks[lba][o + 1..];
    v.(blocks := v.blocks[lba := block])
  }

  /** Different clusters have different first blocks, and the boot sector, which bad numbers lead to, is none of them. */
  lemma LbaDistinct(v: Volume, a: nat, b: nat)
    requires VolumeOk(v) && a < TWO16 && Data(v, b) && a != b
    ensures ClusterToLba(v, a) != ClusterToLba(v, b)
  {
    var spc := v.bpb.sectorsPerCluster;
    LbaIs(v, a);
    LbaIs(v, b);
    if 2 <= a < b {
      AtLeast(b - a, spc);
      assert (b - 2) * spc == (a - 2) * spc + (b - a) * spc;
    } else if a > b {
      AtLeast(a - b, spc);
      assert (a - 2) * spc == (b - 2) * spc + (a - b) * spc;
    } else {
      assert (b - 2) * spc >= 0;
    }
  }

  lemma LbaIs(v: Volume, c: nat)
    requires VolumeOk(v) && c < TWO16
    ensures ClusterToLba(v, c) == if c < 2 then 0 else v.layout.dataAreaStart + (c - 2) * v.bpb.sectorsPerCluster
  {
    if c >= 2 {
      AtLeastTimes(0x100, v.bpb.sectorsPerCluster, c - 2);
      assert 0 <= (c - 2) * v.bpb.sectorsPerCluster <= 0x100 * (c - 2);
    }
  }

  /** The start of the output comes from the first block read, or from what the buffer held before. */
  lemma FirstBytes(v: Volume, junk: seq<byte>, p: Plan, k: nat)
    requires Safe(v, p, |junk|) && k < |ReadOut(v, junk, p)| && p.skip + k < |junk|
    ensures ReadOut(v, junk, p)[k] == Seen(v, p.first, p.skip + k, junk)
  {
  }

  /** The byte at `s` of the read buffer once the first block of a cluster has been read. */
  function Seen(v: Volume, c: nat, s: nat, junk: seq<byte>): byte
    requires s < |junk|
  {
    var lba := ClusterToLba(v, c);
    if lba < |v.blocks| && s < |v.blocks[lba]| then v.blocks[lba][s] else junk[s]
  }

  /**
    A byte that the driver does not fetch: when the read starts at a wrong cluster, or the byte is behind the first
    block of its cluster, the driver returns the same whatever byte the file has there.
   */
  lemma Unseen(v: Volume, junk: seq<byte>, first: nat, c: nat, s: nat, x: byte, y: byte)
    requires VolumeOk(v) && Data(v, c) && s < |junk| && Bps(v) <= |junk| && first < TWO16
    requires first != c || s >= Bps(v)
    requires ClusterToLba(v, c) + s / Bps(v) < |v.blocks|
    ensures var lba := ClusterToLba(v, c) + s / Bps(v);
      Seen(Vary(v, lba, s % Bps(v), x), first, s, junk) == Seen(Vary(v, lba, s % Bps(v), y), first, s, junk)
  {
    if s < Bps(v) {
      DivIs(s, Bps(v), 0, s);
      LbaDistinct(v, first, c);
    }
  }

  lemma NotRight(v: Volume, e: DirEntry, chain: seq<nat>, offs: nat, m: nat, bpc: nat, q: nat)
    requires bpc > 0 && q == offs / bpc && q < |chain| && !(StartsRight(e, chain, offs, bpc) && InFirstBlocks(v, offs, m, bpc))
    ensures chain[q] != e.firstCluster + q || (v.bpb.sectorsPerCluster != 1 && offs % bpc + m > Bps(v))
  {
  }

  /** A request that starts wrong, or needs more than first blocks, has a byte at `k` that the driver does not fetch. */
  lemma MissedByte(v: Volume, e: DirEntry, chain: seq<nat>, offs: nat, m: nat, bpc: nat, q: nat) returns (k: nat)
    requires FileOnDisk(v, e, chain, bpc) && 0 < m && offs + m <= e.fileSize && bpc > 0 && q == offs / bpc
    requires !(StartsRight(e, chain, offs, bpc) && InFirstBlocks(v, offs, m, bpc))
    ensures q < |chain| && k < m && offs % bpc + k < bpc
    ensures StartCluster(e, offs, bpc) != chain[q] || offs % bpc + k >= Bps(v)
  {
    PlanHolds(v, e, chain, offs, m, bpc);
    FileFacts(v, e, chain, bpc);
    assert chain[0] == e.firstCluster;
    var p := PlanFor(e, offs, m, bpc);
    hide *;
    TilesFacts(p, bpc, offs, m);
    NotRight(v, e, chain, offs, m, bpc, q);
    var skip := p.skip;
    if chain[q] == e.firstCluster + q {
      BpcMoreThanBps(v);
      k := if skip >= Bps(v) then 0 else Bps(v) - skip;
    } else {
      k := 0;
      ChainBound(v, chain, 0);
      ChainLength(v, chain);
      NotStart(e, offs, bpc, q, chain[q]);
    }
  }

  lemma BpcMoreThanBps(v: Volume)
    requires VolumeOk(v) && v.bpb.sectorsPerCluster != 1
    ensures Bpc(v) > Bps(v)
  {
    AtLeast(v.bpb.sectorsPerCluster - 1, v.bpb.bytesPerSector);
    assert Bpc(v) == (v.bpb.sectorsPerCluster - 1) * v.bpb.bytesPerSector + v.bpb.bytesPerSector;
  }

  lemma NotStart(e: DirEntry, offs: nat, bpc: nat, q: nat, c: nat)
    requires bpc > 0 && q == offs / bpc && c != e.firstCluster + q && e.firstCluster + q < TWO16
    ensures StartCluster(e, offs, bpc) != c
  {
  }

  lemma InBlocks(v: Volume, c: nat, s: nat, r: nat)
    requires VolumeOk(v) && Data(v, c) && s < Bpc(v) && Bps(v) > 0 && r == s / Bps(v)
    ensures ClusterToLba(v, c) + r < |v.blocks| && |v.blocks[ClusterToLba(v, c) + r]| == Bps(v)
  {
    var bps, spc := Bps(v), v.bpb.sectorsPerCluster;
    DivMod(s, bps);
    if r >= spc { AtLeastTimes(r, spc, bps); }
    assert r < spc;
    hide Data, ClusterToLba, Bpc;
    DataBlocks(v, c);
  }

  lemma DataBlocks(v: Volume, c: nat)
    requires VolumeOk(v) && Data(v, c)
    ensures ClusterToLba(v, c) + v.bpb.sectorsPerCluster <= |v.blocks|
  {
  }

  /** A byte of the disk, and the same byte of the file. */
  lemma VariedContent(v: Volume, chain: seq<nat>, i: nat, q: nat, s: nat, lba: nat, o: nat, bpc: nat, x: byte)
    requires 0 < Bps(v) && s < bpc && i == q * bpc + s && q < |chain| && o == s % Bps(v)
    requires lba == ClusterToLba(v, chain[q]) + s / Bps(v) && lba < |v.blocks| && |v.blocks[lba]| == Bps(v)
    ensures ContentAt(Vary(v, lba, o, x), chain, i, bpc) == x
  {
    DivIs(i, bpc, q, s);
    VariedByte(v, chain[q], s, lba, o, x);
    hide ByteAt, Vary, Bps, ClusterToLba;
  }

  lemma VariedByte(v: Volume, c: nat, s: nat, lba: nat, o: nat, x: byte)
    requires 0 < Bps(v) && o == s % Bps(v) && lba == ClusterToLba(v, c) + s / Bps(v) && lba < |v.blocks| && |v.blocks[lba]| == Bps(v)
    ensures var w := Vary(v, lba, o, x); Bps(w) == Bps(v) && ByteAt(w, c, s) == x
  {
  }

  lemma VariedShape(v: Volume, lba: nat, o: nat, x: byte)
    requires VolumeOk(v) && lba < |v.blocks| && o < |v.blocks[lba]|
    ensures var w := Vary(v, lba, o, x); w == v.(blocks := w.blocks) && SameShape(w.blocks, v.blocks) && Bps(w) == Bps(v)
  {
  }

  lemma RightByte(v: Volume, junk: seq<byte>, e: DirEntry, chain: seq<nat>, offs: nat, size: nat, k: nat)
    requires Bps(v) > 0 && |junk| > 0 && offs < e.fileSize && k < Available(e, offs, size) && offs % |junk| + k < |junk|
    requires Right(v, junk, e, chain, offs, size)
    ensures ContentAt(v, chain, offs + k, |junk|) == Seen(v, StartCluster(e, offs, |junk|), offs % |junk| + k, junk)
  {
    var p := PlanFor(e, offs, Available(e, offs, size), |junk|);
    PlanFields(e, offs, Available(e, offs, size), |junk|);
    hide Safe, PlanFor, ContentAt, ReadOut, StartCluster;
    FirstBytes(v, junk, p, k);
  }

  /** On a disk that has `x` at a byte of the file, a right read has `x` there. */
  lemma RightSees(v: Volume, junk: seq<byte>, e: DirEntry, chain: seq<nat>, offs: nat, size: nat, k: nat, q: nat, s: nat, lba: nat, o: nat, x: byte)
    requires VolumeOk(v) && 0 < Bps(v) <= |junk| && offs < e.fileSize && k < Available(e, offs, size)
    requires q < |chain| && s == offs % |junk| + k < |junk| && offs == q * |junk| + offs % |junk|
    requires lba == ClusterToLba(v, chain[q]) + s / Bps(v) && lba < |v.blocks| && |v.blocks[lba]| == Bps(v) && o == s % Bps(v)
    ensures Bps(Vary(v, lba, o, x)) == Bps(v)
    ensures Right(Vary(v, lba, o, x), junk, e, chain, offs, size) ==> Seen(Vary(v, lba, o, x), StartCluster(e, offs, |junk|), s, junk) == x
  {
    hide *;
    VariedShape(v, lba, o, x);
    VariedContent(v, chain, offs + k, q, s, lba, o, |junk|, x);
    if Right(Vary(v, lba, o, x), junk, e, chain, offs, size) { RightByte(Vary(v, lba, o, x), junk, e, chain, offs, size, k); }
  }

  /** Two disks that differ in a byte the driver does not fetch cannot both be read right. */
  lemma NotBoth(v: Volume, junk: seq<byte>, e: DirEntry, chain: seq<nat>, offs: nat, size: nat, k: nat, q: nat, s: nat, lba: nat, o: nat)
    requires VolumeOk(v) && 0 < Bps(v) <= |junk| && offs < e.fileSize && k < Available(e, offs, size)
    requires q < |chain| && s == offs % |junk| + k < |junk| && offs == q * |junk| + offs % |junk| && Data(v, chain[q])
    requires lba == ClusterToLba(v, chain[q]) + s / Bps(v) && lba < |v.blocks| && |v.blocks[lba]| == Bps(v) && o == s % Bps(v)
    requires StartCluster(e, offs, |junk|) != chain[q] || s >= Bps(v)
    ensures Bps(Vary(v, lba, o, 0)) == Bps(Vary(v, lba, o, 1)) == Bps(v)
    ensures !(Right(Vary(v, lba, o, 0), junk, e, chain, offs, size) && Right(Vary(v, lba, o, 1), junk, e, chain, offs, size))
  {
    var first := StartCluster(e, offs, |junk|);
    assert first < TWO16;
    hide *;
    RightSees(v, junk, e, chain, offs, size, k, q, s, lba, o, 0);
    RightSees(v, junk, e, chain, offs, size, k, q, s, lba, o, 1);
    Unseen(v, junk, first, chain[q], s, 0, 1);
  }

  /** Then there is a byte of the disk such that the driver is wrong when it is 0, or when it is 1. */
  lemma WrongPair(v: Volume, junk: seq<byte>, e: DirEntry, chain: seq<nat>, offs: nat, size: nat) returns (lba: nat, o: nat)
    requires FileOnDisk(v, e, chain, |junk|) && offs < e.fileSize && 0 < size && |junk| > 0 && Bps(v) > 0
    requires !(StartsRight(e, chain, offs, |junk|) && InFirstBlocks(v, offs, Available(e, offs, size), |junk|))
    ensures lba < |v.blocks| && o < |v.blocks[lba]| && Bps(Vary(v, lba, o, 0)) == Bps(Vary(v, lba, o, 1)) == Bps(v)
    ensures !(Right(Vary(v, lba, o, 0), junk, e, chain, offs, size) && Right(Vary(v, lba, o, 1), junk, e, chain, offs, size))
  {
    hide *;
    var bpc := |junk|;
    var q := offs / bpc;
    DivMod(offs, bpc);
    FileFacts(v, e, chain, bpc);
    AvailableSome(e, offs, size);
    var k := MissedByte(v, e, chain, offs, Available(e, offs, size), bpc, q);
    ChainData(v, chain, q);
    var s := offs % bpc + k;
    InBlocks(v, chain[q], s, s / Bps(v));
    lba, o := ClusterToLba(v, chain[q]) + s / Bps(v), s % Bps(v);
    VariedShape(v, lba, o, 0);
    VariedShape(v, lba, o, 1);
    NotBoth(v, junk, e, chain, offs, size, k, q, s, lba, o);
  }

  lemma WrongOnSome(v: Volume, junk: seq<byte>, e: DirEntry, chain: seq<nat>, offs: nat, size: nat) returns (blocks: seq<seq<byte>>)
    requires FileOnDisk(v, e, chain, |junk|) && offs < e.fileSize && 0 < size && |junk| > 0 && Bps(v) > 0
    requires !(StartsRight(e, chain, offs, |junk|) && InFirstBlocks(v, offs, Available(e, offs, size), |junk|))
    ensures SameShape(blocks, v.blocks) && !Right(v.(blocks := blocks), junk, e, chain, offs, size)
  {
    hide *;
    FileFacts(v, e, chain, |junk|);
    var lba, o := WrongPair(v, junk, e, chain, offs, size);
    VariedShape(v, lba, o, 0);
    VariedShape(v, lba, o, 1);
    if Right(Vary(v, lba, o, 0), junk, e, chain, offs, size) {
      blocks := Vary(v, lba, o, 1).blocks;
    } else {
      blocks := Vary(v, lba, o, 0).blocks;
    }
  }

  lemma AvailableSome(e: DirEntry, offs: nat, size: nat)
    requires offs < e.fileSize && 0 < size
    ensures 0 < Available(e, offs, size) && offs + Available(e, offs, size) <= e.fileSize
  {
  }

  /**
    Whatever the disk and the read buffer hold, the request is served right: this is so exactly when the end of the
    request does not wrap around, the driver happens to start at the right cluster, and no byte lies behind the first
    block of a cluster.
   */
  lemma ReadIsRightIff(v: Volume, e: DirEntry, chain: seq<nat>, offs: nat, size: nat)
    requires FileOnDisk(v, e, chain, Bpc(v)) && offs < e.fileSize && 0 < size < TWO32 && Bpc(v) > 0 && Bps(v) > 0
    ensures (forall blocks, junk :: SameShape(blocks, v.blocks) && |junk| == Bpc(v) ==> Right(v.(blocks := blocks), junk, e, chain, offs, size))
      <==> offs + size < TWO32 && StartsRight(e, chain, offs, Bpc(v)) && InFirstBlocks(v, offs, Available(e, offs, size), Bpc(v))
  {
    if offs + size >= TWO32 {
      var junk: seq<byte> := seq(Bpc(v), i => 0);
      ClippedWrong(v, junk, e, chain, offs, size);
    } else if StartsRight(e, chain, offs, Bpc(v)) && InFirstBlocks(v, offs, Available(e, offs, size), Bpc(v)) {
      forall blocks, junk: seq<byte> | SameShape(blocks, v.blocks) && |junk| == Bpc(v)
        ensures Right(v.(blocks := blocks), junk, e, chain, offs, size)
      {
        ReshapedFile(v, e, chain, blocks);
        ReadIsRight(v.(blocks := blocks), junk, e, chain, offs, size);
      }
    } else {
      var junk: seq<byte> := seq(Bpc(v), i => 0);
      var blocks := WrongOnSome(v, junk, e, chain, offs, size);
    }
  }

  /** A request whose end wraps around is not clipped to what the file has left. */
  lemma ClippedWrong(v: Volume, junk: seq<byte>, e: DirEntry, chain: seq<nat>, offs: nat, size: nat)
    requires Bps(v) > 0 && |junk| > 0 && offs < e.fileSize < TWO32 && size < TWO32 && offs + size >= TWO32
    ensures SameShape(v.blocks, v.blocks) && v == v.(blocks := v.blocks) && !Right(v, junk, e, chain, offs, size)
  {
    ClipIff(offs, size, e.fileSize);
    hide Safe, PlanFor, IsContent, ReadOut;
  }

  lemma ReshapedFile(v: Volume, e: DirEntry, chain: seq<nat>, blocks: seq<seq<byte>>)
    requires FileOnDisk(v, e, chain, Bpc(v)) && SameShape(blocks, v.blocks)
    ensures FileOnDisk(v.(blocks := blocks), e, chain, Bpc(v))
  {
    Reshaped(v, chain, blocks);
  }

  /** The clusters that the file needs follow one another on the disk. */
  ghost predicate Contiguous(e: DirEntry, chain: seq<nat>, bpc: nat)
    requires bpc > 0
  {
    forall q :: 0 <= q < |chain| && q * bpc < e.fileSize ==> chain[q] == e.firstCluster + q
  }

  /** A contiguous file can be read from any offset, and no other can; the first cluster always can. */
  lemma StartsRightEverywhere(v: Volume, e: DirEntry, chain: seq<nat>, bpc: nat)
    requires FileOnDisk(v, e, chain, bpc) && bpc > 0
    ensures (forall offs :: 0 <= offs < e.fileSize ==> StartsRight(e, chain, offs, bpc)) <==> Contiguous(e, chain, bpc)
    ensures forall offs :: 0 <= offs < bpc ==> StartsRight(e, chain, offs, bpc)
  {
    FileFacts(v, e, chain, bpc);
    assert chain[0] == e.firstCluster;
    hide FileOnDisk, IsChain;
    forall offs | 0 <= offs < bpc ensures StartsRight(e, chain, offs, bpc) {
      DivIs(offs, bpc, 0, offs);
    }
    if Contiguous(e, chain, bpc) {
      forall offs | 0 <= offs < e.fileSize ensures StartsRight(e, chain, offs, bpc) {
        DivMod(offs, bpc);
        if offs / bpc >= |chain| { AtLeastTimes(offs / bpc, |chain|, bpc); }
      }
    } else {
      var q :| 0 <= q < |chain| && q * bpc < e.fileSize && chain[q] != e.firstCluster + q;
      DivIs(q * bpc, bpc, q, 0);
      assert !StartsRight(e, chain, q * bpc, bpc);
    }
  }

  // ---------- Examples ----------

  /** A volume of sectors of 512 bytes, one to a cluster, whose FAT links cluster 2 to `next`, and `next` to nothing. */
  function SmallVolume(next: nat): Volume
    requires next == 3 || next == 4
  {
    var block: seq<byte> := seq(512, i => 0);
    var fat := Pack(if next == 3 then [0xFF0, 0xFFF, 3, 0xFFF, 0] else [0xFF0, 0xFFF, 4, 0, 0xFFF]);
    Volume(seq(8, i => block), Bpb(512, 1, 1, 1, 16, 1, 0), Layout(1, 2, 1, 3), fat)
  }

  lemma SmallFileOnDisk(next: nat, e: DirEntry)
    requires (next == 3 || next == 4) && e.firstCluster == 2 && e.fileSize == 1024
    ensures FileOnDisk(SmallVolume(next), e, [2, next], 512)
  {
    var v := SmallVolume(next);
    var entries: seq<entry> := if next == 3 then [0xFF0, 0xFFF, 3, 0xFFF, 0] else [0xFF0, 0xFFF, 4, 0, 0xFFF];
    DecodePacked(entries, [], 2);
    DecodePacked(entries, [], next);
    assert Pack(entries) + [] == Pack(entries) == v.fat;
    hide Pack, GetFentry;
    assert [2, next][1..] == [next];
    assert IsChain(v, [next]);
  }

  /** Whatever the disk and the read buffer hold, this request of 512 bytes is served right. */
  ghost predicate AlwaysRight(v: Volume, e: DirEntry, chain: seq<nat>, offs: nat)
    requires Bps(v) > 0 && Bpc(v) > 0 && offs < e.fileSize
  {
    forall blocks, junk :: SameShape(blocks, v.blocks) && |junk| == Bpc(v) ==> Right(v.(blocks := blocks), junk, e, chain, offs, 512)
  }

  /** A file in clusters 2 and 4: its first half is always read well, and its second half is not. */
  lemma FragmentedFile(e: DirEntry)
    requires e.firstCluster == 2 && e.fileSize == 1024
    ensures var v := SmallVolume(4);
      FileOnDisk(v, e, [2, 4], 512) && !Contiguous(e, [2, 4], 512) && AlwaysRight(v, e, [2, 4], 0) && !AlwaysRight(v, e, [2, 4], 512)
  {
    var v := SmallVolume(4);
    SmallFileOnDisk(4, e);
    assert [2, 4][0] == 2 && [2, 4][1] == 4;
    assert Bps(v) == 512 == Bpc(v);
    hide FileOnDisk, Right;
    ReadIsRightIff(v, e, [2, 4], 0, 512);
    ReadIsRightIff(v, e, [2, 4], 512, 512);
  }
}
