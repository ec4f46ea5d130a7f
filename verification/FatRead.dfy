/** fs/fat12.c:131-146, 425-523: reading a file, cluster by cluster. */
module FatRead {
  import Numerals
  import opened Bytes
  import opened FatTable

  /** What the driver uses of a directory entry. */
  datatype DirEntry = DirEntry(name: seq<byte>, attributes: nat, firstCluster: nat, fileSize: nat)

  predicate IsVolumeLabel(e: DirEntry) { e.attributes / 0x08 % 2 == 1 }

  predicate IsDirectory(e: DirEntry) { e.attributes / 0x10 % 2 == 1 }

  /** A node with the file system it is on and the directory entry that belongs to it. */
  datatype Node = Node(fs: Option<Volume>, data: Option<DirEntry>)

  function Bps(v: Volume): nat { v.bpb.bytesPerSector }

  function Bpc(v: Volume): nat { v.bpb.sectorsPerCluster * v.bpb.bytesPerSector }

  /** The widths of the fields, and a block device whose blocks are the sectors of the volume. */
  ghost predicate VolumeOk(v: Volume) {
    && 0 < v.bpb.bytesPerSector < TWO16 && 0 < v.bpb.sectorsPerCluster < 0x100 && 0 < v.layout.dataAreaStart < 0x400_0000
    && (forall k :: 0 <= k < |v.blocks| ==> |v.blocks[k]| == v.bpb.bytesPerSector)
  }

  function ClusterToLba(v: Volume, cluster: nat): nat {
    if cluster < 2 then 0 else (v.layout.dataAreaStart + (cluster - 2) * v.bpb.sectorsPerCluster) % TWO32
  }

  // ---------- The loop ----------

  /** The clusters that the loop visits have their FAT entries inside the table. */
  predicate Walks(v: Volume, cluster: nat, count: nat)
    decreases count
  {
    count == 0 ||
    (InTable(v.fat, cluster) && (count == 1 || cluster >= EOC_MIN || Walks(v, GetFentry(v.fat, cluster), count - 1)))
  }

  /**
    What the loop copies. Only one block of each cluster is read, over what the buffer held before, and the loop stops
    early behind an end-of-chain mark.
   */
  function Output(v: Volume, buffer: seq<byte>, cluster: nat, count: nat, start: nat, stop: nat): (out: seq<byte>)
    requires (forall k :: 0 <= k < |v.blocks| ==> |v.blocks[k]| <= |buffer|) && Walks(v, cluster, count)
    requires start <= |buffer| && stop <= |buffer| && (count == 1 ==> start <= stop)
    decreases count
  {
    if count == 0 then []
    else
      var read := Blkread(v.blocks, ClusterToLba(v, cluster), buffer);
      if count == 1 then read[start..stop]
      else if cluster >= EOC_MIN then read[start..]
      else read[start..] + Output(v, read, GetFentry(v.fat, cluster), count - 1, 0, stop)
  }

  /** The loop goes from cluster to cluster by the FAT, and stops behind a cluster of 0xFF8 or more and at its count. */
  lemma StopsAt(v: Volume, buffer: seq<byte>, cluster: nat, count: nat, start: nat, stop: nat)
    requires (forall k :: 0 <= k < |v.blocks| ==> |v.blocks[k]| <= |buffer|) && Walks(v, cluster, count) && count > 1
    requires start <= |buffer| && stop <= |buffer|
    ensures var read := Blkread(v.blocks, ClusterToLba(v, cluster), buffer);
      Output(v, buffer, cluster, count, start, stop) ==
        if cluster >= 0xFF8 then read[start..] else read[start..] + Output(v, read, GetFentry(v.fat, cluster), count - 1, 0, stop)
  {
  }

  /** The first cluster, the offset in it, how many clusters to read, and the end of the last chunk. */
  datatype Plan = Plan(first: nat, skip: nat, count: nat, stop: nat)

  function PlanFor(e: DirEntry, offs: nat, size: nat, bpc: nat): Plan
    requires bpc > 0
  {
    Plan(StartCluster(e, offs, bpc), offs % bpc, ClustersToRead(offs, size, bpc), LastStop(offs, size, bpc))
  }

  /** The start cluster is counted from the first one: the FAT is not followed. */
  function StartCluster(e: DirEntry, offs: nat, bpc: nat): nat
    requires bpc > 0
  {
    (e.firstCluster + offs / bpc) % TWO16
  }

  function ClustersToRead(offs: nat, size: nat, bpc: nat): nat
    requires bpc > 0
  {
    var total := (offs % bpc + size) % TWO32;
    (total / bpc + if total % bpc > 0 then 1 else 0) % TWO16
  }

  function LastStop(offs: nat, size: nat, bpc: nat): nat
    requires bpc > 0
  {
    var stop := (offs + size) % TWO32 % bpc;
    if stop == 0 then bpc else stop
  }

  /** `size` cut down to what the file has left, with the sum in a `uint32_t`. */
  function Clip(offs: nat, size: nat, fileSize: nat): (r: nat)
    requires offs < fileSize
  {
    if (offs + size) % TWO32 > fileSize then fileSize - offs else size
  }

  /** The clipping is right exactly when the sum does not wrap around. */
  lemma ClipIff(offs: nat, size: nat, fileSize: nat)
    requires offs < fileSize < TWO32 && size < TWO32
    ensures Clip(offs, size, fileSize) == (if size <= fileSize - offs then size else fileSize - offs) <==> offs + size < TWO32
  {
  }

  /** The accesses of the loop stay inside the FAT and the read buffer. */
  ghost predicate Safe(v: Volume, p: Plan, bpc: nat) {
    && VolumeOk(v) && Bps(v) <= bpc && Walks(v, p.first, p.count)
    && p.skip <= bpc && p.stop <= bpc && (p.count == 1 ==> p.skip <= p.stop)
  }

  ghost function ReadOut(v: Volume, junk: seq<byte>, p: Plan): seq<byte>
    requires Safe(v, p, |junk|)
  {
    Output(v, junk, p.first, p.count, p.skip, p.stop)
  }

  /** The request fails at once. */
  predicate Rejected(node: Option<Node>, size: nat, buf: array?<byte>) {
    node.None? || node.value.data.None? || buf == null || size == 0 || node.value.fs.None? || IsDirectory(node.value.data.value)
  }

  /** The plan of a request that is neither rejected nor at the end of the file. */
  function RequestPlan(node: Node, offs: nat, size: nat): Plan
    requires node.fs.Some? && node.data.Some? && Bpc(node.fs.value) > 0 && offs < node.data.value.fileSize
  {
    PlanFor(node.data.value, offs, Clip(offs, size, node.data.value.fileSize), Bpc(node.fs.value))
  }

  /** The caller's buffer has room for what the loop copies, whatever the read buffer holds at first. */
  ghost predicate Readable(node: Node, offs: nat, size: nat, room: int) {
    && node.fs.Some? && node.data.Some?
    && (offs < node.data.value.fileSize ==>
          && VolumeOk(node.fs.value)
          && var p := RequestPlan(node, offs, size);
             Safe(node.fs.value, p, Bpc(node.fs.value))
             && forall junk :: |junk| == Bpc(node.fs.value) ==> |ReadOut(node.fs.value, junk, p)| <= room)
  }

  method Read(node: Option<Node>, offs: nat, size: nat, buf: array?<byte>, at: nat) returns (r: int, ghost junk: seq<byte>)
    requires size < TWO32 && (node.Some? && node.value.data.Some? ==> node.value.data.value.fileSize < TWO32)
    requires !Rejected(node, size, buf) ==> at <= buf.Length && Readable(node.value, offs, size, buf.Length - at)
    modifies buf
    ensures Rejected(node, size, buf) ==> r == -1
    ensures !Rejected(node, size, buf) && offs >= node.value.data.value.fileSize ==> r == 0
    ensures buf != null && (Rejected(node, size, buf) || offs >= node.value.data.value.fileSize) ==> buf[..] == old(buf[..])
    ensures !Rejected(node, size, buf) && offs < node.value.data.value.fileSize ==>
      && Clip(offs, size, node.value.data.value.fileSize) < TWO32
      && r == Numerals.Wrap32(Clip(offs, size, node.value.data.value.fileSize))
      && |junk| == Bpc(node.value.fs.value)
      && var out := ReadOut(node.value.fs.value, junk, RequestPlan(node.value, offs, size));
         at + |out| <= buf.Length && buf[..] == Spliced(old(buf[..]), at, out)
  {
    junk := [];
    if node.None? || node.value.data.None? || buf == null || size == 0 {
      return -1, junk;
    }
    var inode := node.value.data.value;
    if node.value.fs.None? {
      return -1, junk;
    }
    var v := node.value.fs.value;
    if IsDirectory(inode) {
      return -1, junk;
    }
    var fileSize := inode.fileSize;
    if offs >= fileSize {
      return 0, junk;
    }
    var clipped := size;
    if (offs + size) % TWO32 > fileSize {
      clipped := fileSize - offs;
    }
    var bytesPerCluster := v.bpb.sectorsPerCluster * v.bpb.bytesPerSector;
    var p := PlanFor(inode, offs, clipped, bytesPerCluster);
    var readBuf := new byte[bytesPerCluster];
    junk := readBuf[..];
    CopyClusters(v, p, readBuf, buf, at);
    r := Numerals.Wrap32(clipped);
  }

  /** What is left to copy. */
  ghost predicate Left(v: Volume, cluster: nat, count: nat, start: nat, stop: nat, buffer: seq<byte>, rest: seq<byte>) {
    && (forall k :: 0 <= k < |v.blocks| ==> |v.blocks[k]| <= |buffer|) && Walks(v, cluster, count)
    && start <= |buffer| && stop <= |buffer| && (count == 1 ==> start <= stop)
    && rest == Output(v, buffer, cluster, count, start, stop)
  }

  lemma Behind(chunk: seq<byte>, rest: seq<byte>)
    ensures chunk <= chunk + rest && (chunk + rest)[|chunk|..] == rest
  {
  }

  /** One round of the loop: the chunk `start..hi` of the cluster goes to `at`. */
  method CopyCluster(v: Volume, cluster: nat, count: nat, start: nat, stop: nat, readBuf: array<byte>, buf: array<byte>, at: nat,
                     ghost rest: seq<byte>)
      returns (next: nat, copied: nat)
    requires 0 < count && Left(v, cluster, count, start, stop, readBuf[..], rest)
    requires readBuf != buf && at + |rest| <= buf.Length
    modifies readBuf, buf
    ensures start <= start + copied <= readBuf.Length && copied <= |rest| && readBuf[start..start + copied] == rest[..copied]
    ensures buf[..] == Spliced(old(buf[..]), at, rest[..copied])
    ensures if count > 1 && cluster < EOC_MIN then Left(v, next, count - 1, 0, stop, readBuf[..], rest[copied..]) else copied == |rest|
  {
    hide *;
    ghost var stale := readBuf[..];
    LeftFacts(v, cluster, count, start, stop, stale, rest);
    NextChunk(v, stale, cluster, count, start, stop);
    next := GetFentry(v.fat, cluster);
    var lba := ClusterToLba(v, cluster);
    BlkreadInto(v.blocks, lba, readBuf, 0, readBuf.Length);
    assert readBuf[0..readBuf.Length] == readBuf[..] && stale[0..readBuf.Length] == stale;
    var copyEnd := if count == 1 then stop else readBuf.Length;
    Copy(readBuf, start, copyEnd, buf, at);
    copied := copyEnd - start;
    if count > 1 && cluster < EOC_MIN {
      Behind(readBuf[start..copyEnd], Output(v, readBuf[..], next, count - 1, 0, stop));
      LeftOver(v, next, count - 1, stop, readBuf[..], rest[copied..]);
    } else {
      Behind(readBuf[start..copyEnd], []);
    }
  }

  lemma LeftFacts(v: Volume, cluster: nat, count: nat, start: nat, stop: nat, buffer: seq<byte>, rest: seq<byte>)
    requires Left(v, cluster, count, start, stop, buffer, rest)
    ensures (forall k :: 0 <= k < |v.blocks| ==> |v.blocks[k]| <= |buffer|) && Walks(v, cluster, count)
    ensures start <= |buffer| && stop <= |buffer| && (count == 1 ==> start <= stop)
    ensures rest == Output(v, buffer, cluster, count, start, stop)
  {
  }

  lemma LeftOver(v: Volume, cluster: nat, count: nat, stop: nat, buffer: seq<byte>, rest: seq<byte>)
    requires (forall k :: 0 <= k < |v.blocks| ==> |v.blocks[k]| <= |buffer|) && Walks(v, cluster, count)
    requires stop <= |buffer| && rest == Output(v, buffer, cluster, count, 0, stop)
    ensures Left(v, cluster, count, 0, stop, buffer, rest)
  {
  }

  /** The loop itself. */
  method CopyClusters(v: Volume, p: Plan, readBuf: array<byte>, buf: array<byte>, at: nat)
    requires Safe(v, p, readBuf.Length) && readBuf != buf
    requires at + |ReadOut(v, readBuf[..], p)| <= buf.Length
    modifies readBuf, buf
    ensures buf[..] == Spliced(old(buf[..]), at, ReadOut(v, old(readBuf[..]), p))
  {
    hide *;
    ghost var all, before := ReadOut(v, readBuf[..], p), buf[..];
    ghost var rest := all;
    Begins(v, p, readBuf[..]);
    SplicedNone(before, at);
    var currCluster: nat, clusterCount: nat, bytesRead: nat := p.first, 0, 0;
    while clusterCount < p.count
      invariant clusterCount <= p.count && bytesRead <= |all| && all[bytesRead..] == rest && at + |all| <= |before|
      invariant var start := if clusterCount == 0 then p.skip else 0;
        if clusterCount < p.count then Left(v, currCluster, p.count - clusterCount, start, p.stop, readBuf[..], rest) else rest == []
      invariant buf[..] == Spliced(before, at, all[..bytesRead])
    {
      var start := if clusterCount == 0 then p.skip else 0;
      var next, copied := CopyCluster(v, currCluster, p.count - clusterCount, start, p.stop, readBuf, buf, at + bytesRead, rest);
      Appended(before, at, all, bytesRead, copied);
      rest := rest[copied..];
      bytesRead := bytesRead + copied;
      clusterCount := clusterCount + 1;
      if currCluster >= EOC_MIN {
        break;
      }
      currCluster := next;
    }
    assert bytesRead == |all| && all[..|all|] == all;
  }

  lemma Begins(v: Volume, p: Plan, buffer: seq<byte>)
    requires Safe(v, p, |buffer|)
    ensures if p.count == 0 then ReadOut(v, buffer, p) == [] else Left(v, p.first, p.count, p.skip, p.stop, buffer, ReadOut(v, buffer, p))
  {
  }

  /** One chunk off the front. */
  lemma NextChunk(v: Volume, buffer: seq<byte>, cluster: nat, count: nat, start: nat, stop: nat)
    requires count > 0 && (forall k :: 0 <= k < |v.blocks| ==> |v.blocks[k]| <= |buffer|) && Walks(v, cluster, count)
    requires start <= |buffer| && stop <= |buffer| && (count == 1 ==> start <= stop)
    ensures InTable(v.fat, cluster)
    ensures count > 1 && cluster < EOC_MIN ==> Walks(v, GetFentry(v.fat, cluster), count - 1)
    ensures var read := Blkread(v.blocks, ClusterToLba(v, cluster), buffer);
      Output(v, buffer, cluster, count, start, stop) == read[start..if count == 1 then stop else |read|] +
        (if count > 1 && cluster < EOC_MIN then Output(v, read, GetFentry(v.fat, cluster), count - 1, 0, stop) else [])
  {
  }

  /** `before` with `out` in it at `at`. */
  function Spliced(before: seq<byte>, at: nat, out: seq<byte>): (r: seq<byte>)
    requires at + |out| <= |before|
    ensures |r| == |before|
  {
    before[..at] + out + before[at + |out|..]
  }

  lemma SplicedNone(before: seq<byte>, at: nat)
    requires at <= |before|
    ensures Spliced(before, at, []) == before
  {
  }

  lemma Appended(before: seq<byte>, at: nat, all: seq<byte>, done: nat, more: nat)
    requires at + |all| <= |before| && done + more <= |all|
    ensures Spliced(Spliced(before, at, all[..done]), at + done, all[done..][..more]) == Spliced(before, at, all[..done + more])
    ensures all[done..][more..] == all[done + more..]
  {
    var mid := Spliced(before, at, all[..done]);
    assert mid[..at + done] == before[..at] + all[..done];
    assert mid[at + done + more..] == before[at + done + more..];
    assert all[..done + more] == all[..done] + all[done..][..more];
  }

  /** `memcpy` of part of one buffer into another. */
  method Copy(from: array<byte>, lo: nat, hi: nat, to: array<byte>, at: nat)
    requires lo <= hi <= from.Length && at + (hi - lo) <= to.Length && from != to
    modifies to
    ensures to[..] == Spliced(old(to[..]), at, from[lo..hi])
  {
    forall k | 0 <= k < hi - lo {
      to[at + k] := from[lo + k];
    }
  }
}
