/** What fat12_read (fs/fat12.c:425-523) reads: its output against the content of the file on the disk. */
module FatFiles {
  import opened Bytes
  import opened FatTable
  import opened FatRead

  // ---------- Files ----------

  /** A data cluster, with its entry in the FAT and all its blocks on the device. */
  ghost predicate Data(v: Volume, c: nat) {
    2 <= c < 0xFF7 && InTable(v.fat, c) && ClusterToLba(v, c) + v.bpb.sectorsPerCluster <= |v.blocks|
  }

  /** The FAT links these clusters, and the last one is marked as the end. */
  ghost predicate IsChain(v: Volume, chain: seq<nat>) {
    |chain| > 0 && Data(v, chain[0]) &&
    if |chain| == 1 then GetFentry(v.fat, chain[0]) >= EOC_MIN
    else chain[1] == GetFentry(v.fat, chain[0]) && IsChain(v, chain[1..])
  }

  /** A file that is not empty, and whose clusters have room for its size. */
  ghost predicate FileOnDisk(v: Volume, e: DirEntry, chain: seq<nat>, bpc: nat) {
    && VolumeOk(v) && bpc == Bpc(v) && Bps(v) <= bpc && IsChain(v, chain)
    && chain[0] == e.firstCluster && 0 < e.fileSize <= |chain| * bpc && e.fileSize < TWO32
  }

  /** The byte at `o` of a cluster. */
  function ByteAt(v: Volume, c: nat, o: nat): byte
    requires Bps(v) > 0
  {
    var lba := ClusterToLba(v, c) + o / Bps(v);
    if lba < |v.blocks| && o % Bps(v) < |v.blocks[lba]| then v.blocks[lba][o % Bps(v)] else 0
  }

  /** The byte at `i` of the file: its clusters' data one after the other, in the order of the chain. */
  function ContentAt(v: Volume, chain: seq<nat>, i: nat, bpc: nat): byte
    requires Bps(v) > 0 && bpc > 0
  {
    if i / bpc < |chain| then ByteAt(v, chain[i / bpc], i % bpc) else 0
  }

  // ---------- Chains ----------

  lemma {:induction false} ChainFrom(v: Volume, chain: seq<nat>, q: nat)
    requires IsChain(v, chain) && q < |chain|
    ensures IsChain(v, chain[q..])
    decreases q
  {
    if q > 0 {
      ChainFrom(v, chain[1..], q - 1);
      assert chain[1..][q - 1..] == chain[q..];
    } else {
      assert chain[0..] == chain;
    }
  }

  /** A chain that reaches its end never comes back to a cluster. */
  lemma {:induction false} SameRest(v: Volume, a: seq<nat>, b: seq<nat>)
    requires IsChain(v, a) && IsChain(v, b) && a[0] == b[0]
    ensures |a| == |b|
    decreases |a|
  {
    if |a| > 1 && |b| > 1 {
      SameRest(v, a[1..], b[1..]);
    }
  }

  lemma ChainDistinct(v: Volume, chain: seq<nat>, i: nat, j: nat)
    requires IsChain(v, chain) && i < j < |chain|
    ensures chain[i] != chain[j]
  {
    ChainFrom(v, chain, i);
    ChainFrom(v, chain, j);
    if chain[i] == chain[j] { SameRest(v, chain[i..], chain[j..]); }
  }

  lemma ChainData(v: Volume, chain: seq<nat>, q: nat)
    requires IsChain(v, chain) && q < |chain|
    ensures Data(v, chain[q])
  {
    ChainFrom(v, chain, q);
  }

  /** So a chain is no longer than there are clusters. */
  lemma ChainLength(v: Volume, chain: seq<nat>)
    requires IsChain(v, chain)
    ensures |chain| <= 0xFF7
  {
    forall i, j | 0 <= i < j < |chain| ensures chain[i] != chain[j] {
      ChainDistinct(v, chain, i, j);
    }
    forall i | 0 <= i < |chain| ensures chain[i] < 0xFF7 {
      ChainData(v, chain, i);
    }
    Pigeonhole(chain, 0xFF7);
  }

  lemma {:induction false} Pigeonhole(s: seq<nat>, n: nat)
    requires forall i, j :: 0 <= i < j < |s| ==> s[i] != s[j]
    requires forall i :: 0 <= i < |s| ==> s[i] < n
    ensures |s| <= n
    decreases n
  {
    assert |s| > 0 ==> s[0] < n;
    if |s| == 0 {
    } else if k :| 0 <= k < |s| && s[k] == n - 1 {
      Pigeonhole(s[..k] + s[k + 1..], n - 1);
    } else {
      Pigeonhole(s, n - 1);
    }
  }

  // ---------- The chunks ----------

  /** What the loop is to do for `size` bytes from `offs` on, when no sum wraps around and no count is cut off. */
  ghost predicate Tiles(p: Plan, bpc: nat, offs: nat, size: nat)
    requires bpc > 0
  {
    && p.skip == offs % bpc && 0 < p.stop <= bpc && p.count >= 1
    && (p.count - 1) * bpc + p.stop == p.skip + size && (p.count == 1 ==> p.skip < p.stop)
  }

  lemma CeilDiv(n: nat, d: nat) returns (count: nat, last: nat)
    requires n > 0 && d > 0
    ensures count == n / d + if n % d > 0 then 1 else 0
    ensures last == (if n % d == 0 then d else n % d) && count >= 1 && (count - 1) * d + last == n
  {
    var q, r := n / d, n % d;
    assert n == q * d + r;
    if r == 0 {
      assert q > 0;
      count, last := q, d;
      assert (q - 1) * d + d == q * d;
    } else {
      count, last := q + 1, r;
    }
  }

  lemma SplitSum(offs: nat, size: nat, d: nat)
    requires d > 0
    ensures (offs + size) % d == (offs % d + size) % d && (offs + size) / d == offs / d + (offs % d + size) / d
  {
    var n := offs % d + size;
    assert offs == offs / d * d + offs % d;
    assert n == n / d * d + n % d;
    assert (offs / d + n / d) * d == offs / d * d + n / d * d;
    DivIs(offs + size, d, offs / d + n / d, n % d);
  }

  lemma CountIs(offs: nat, size: nat, bpc: nat, count: nat)
    requires bpc > 0 && offs % bpc + size < TWO32 && count < TWO16
    requires count == (offs % bpc + size) / bpc + if (offs % bpc + size) % bpc > 0 then 1 else 0
    ensures ClustersToRead(offs, size, bpc) == count
  {
    assert (offs % bpc + size) % TWO32 == offs % bpc + size;
  }

  lemma StopIs(offs: nat, size: nat, bpc: nat, last: nat)
    requires bpc > 0 && offs + size < TWO32
    requires last == if (offs % bpc + size) % bpc == 0 then bpc else (offs % bpc + size) % bpc
    ensures LastStop(offs, size, bpc) == last
  {
    SplitSum(offs, size, bpc);
    assert (offs + size) % TWO32 == offs + size;
  }

  /**
    The chunks are never empty nor longer than a cluster, and together they are exactly as long as the request: this is
    so if and only if the request takes no more clusters than the `uint16_t` that counts them can hold.
   */
  lemma ChunksTile(e: DirEntry, offs: nat, size: nat, bpc: nat)
    requires bpc > 0 && size > 0 && offs + size < TWO32
    ensures Tiles(PlanFor(e, offs, size, bpc), bpc, offs, size) <==> offs % bpc + size <= 0xFFFF * bpc
  {
    hide ClustersToRead, LastStop, StartCluster;
    var skip := offs % bpc;
    assert skip <= offs by { assert offs == offs / bpc * bpc + skip; assert offs / bpc * bpc >= 0; }
    if skip + size <= 0xFFFF * bpc {
      var count, last := CeilDiv(skip + size, bpc);
      if count > 0xFFFF { AtLeastTimes(count - 1, 0xFFFF, bpc); }
      assert count <= 0xFFFF;
      CountIs(offs, size, bpc, count);
      StopIs(offs, size, bpc, last);
    } else {
      var p := PlanFor(e, offs, size, bpc);
      CountFits(offs, size, bpc);
      AtLeastTimes(0xFFFF, p.count, bpc);
      assert p.count >= 1 ==> p.count * bpc == (p.count - 1) * bpc + bpc;
    }
  }

  lemma CountFits(offs: nat, size: nat, bpc: nat)
    requires bpc > 0
    ensures 0 <= ClustersToRead(offs, size, bpc) <= 0xFFFF
  {
  }

  lemma AtLeastTimes(a: nat, b: nat, d: nat)
    requires a >= b
    ensures a * d >= b * d
  {
    assert a * d == b * d + (a - b) * d;
    assert (a - b) * d >= 0;
  }

  // ---------- What the loop fetches ----------

  /** The byte at `i` of the clusters of a chain, as the loop sees it: only the first block of each is read. */
  function FetchedAt(v: Volume, junk: seq<byte>, chain: seq<nat>, i: nat): byte
    requires Bps(v) > 0 && |junk| > 0
  {
    var bpc := |junk|;
    if i / bpc >= |chain| then 0 else if i % bpc < Bps(v) then ByteAt(v, chain[i / bpc], i % bpc) else junk[i % bpc]
  }

  /** The buffer after a block of a data cluster has been read into it. */
  lemma BlockRead(v: Volume, junk: seq<byte>, c: nat, o: nat)
    requires VolumeOk(v) && Data(v, c) && o < |junk| && Bps(v) <= |junk|
    ensures Blkread(v.blocks, ClusterToLba(v, c), junk)[o] == if o < Bps(v) then ByteAt(v, c, o) else junk[o]
  {
    var lba := ClusterToLba(v, c);
    assert |v.blocks[lba]| == Bps(v);
    if o < Bps(v) { DivIs(o, Bps(v), 0, o); }
  }

  /** One cluster further on. */
  lemma FetchedNext(v: Volume, junk: seq<byte>, read: seq<byte>, chain: seq<nat>, i: nat)
    requires VolumeOk(v) && |junk| == |read| > 0 && |chain| > 0
    requires forall o :: Bps(v) <= o < |junk| ==> read[o] == junk[o]
    ensures FetchedAt(v, junk, chain, i + |junk|) == FetchedAt(v, read, chain[1..], i)
  {
    var bpc := |junk|;
    SplitSum(bpc, i, bpc);
    DivIs(bpc, bpc, 1, 0);
  }

  lemma {:induction false} Fetches(v: Volume, junk: seq<byte>, chain: seq<nat>, count: nat, start: nat, stop: nat)
    requires VolumeOk(v) && IsChain(v, chain) && 1 <= count <= |chain| && Bps(v) <= |junk|
    requires start < |junk| && 0 < stop <= |junk| && (count == 1 ==> start <= stop)
    ensures Walks(v, chain[0], count)
    ensures var out := Output(v, junk, chain[0], count, start, stop);
      |out| == (count - 1) * |junk| + stop - start && forall k :: 0 <= k < |out| ==> out[k] == FetchedAt(v, junk, chain, start + k)
    decreases count
  {
    hide *;
    var c := chain[0];
    ChainStep(v, chain);
    BlocksFit(v, |junk|);
    var read := Blkread(v.blocks, ClusterToLba(v, c), junk);
    FirstBlock(v, junk, chain);
    if count == 1 {
      FetchesOne(v, junk, chain, start, stop);
    } else {
      Fetches(v, read, chain[1..], count - 1, 0, stop);
      WalksOn(v, c, count);
      NextChunk(v, junk, c, count, start, stop);
      var rest := Output(v, read, chain[1], count - 1, 0, stop);
      assert Output(v, junk, c, count, start, stop) == read[start..] + rest;
      ChunkThenRest(v, junk, read, chain, read[start..] + rest, start, rest);
      assert (count - 1) * |junk| == (count - 2) * |junk| + |junk|;
    }
  }

  lemma FetchesOne(v: Volume, junk: seq<byte>, chain: seq<nat>, start: nat, stop: nat)
    requires VolumeOk(v) && |chain| > 0 && Data(v, chain[0]) && 0 < Bps(v) <= |junk| && start <= stop <= |junk|
    ensures Walks(v, chain[0], 1)
    ensures var out := Output(v, junk, chain[0], 1, start, stop);
      |out| == stop - start && forall k :: 0 <= k < |out| ==> out[k] == FetchedAt(v, junk, chain, start + k)
  {
    FirstBlock(v, junk, chain);
    hide FetchedAt;
  }

  lemma ChainStep(v: Volume, chain: seq<nat>)
    requires IsChain(v, chain)
    ensures |chain| > 0 && Data(v, chain[0]) && InTable(v.fat, chain[0]) && chain[0] < EOC_MIN
    ensures |chain| > 1 ==> chain[1] == GetFentry(v.fat, chain[0]) && chain[1..][0] == chain[1] && IsChain(v, chain[1..])
  {
  }

  lemma BlocksFit(v: Volume, bpc: nat)
    requires VolumeOk(v) && Bps(v) <= bpc
    ensures 0 < Bps(v) && forall k :: 0 <= k < |v.blocks| ==> |v.blocks[k]| <= bpc
  {
  }

  lemma WalksOn(v: Volume, c: nat, count: nat)
    requires Data(v, c) && InTable(v.fat, c) && count > 1 && Walks(v, GetFentry(v.fat, c), count - 1)
    ensures Walks(v, c, count)
  {
  }

  lemma FirstBlock(v: Volume, junk: seq<byte>, chain: seq<nat>)
    requires VolumeOk(v) && |chain| > 0 && Data(v, chain[0]) && 0 < Bps(v) <= |junk|
    ensures var read := Blkread(v.blocks, ClusterToLba(v, chain[0]), junk);
      forall o :: 0 <= o < |junk| ==> read[o] == FetchedAt(v, junk, chain, o) && (Bps(v) <= o ==> read[o] == junk[o])
  {
    var read := Blkread(v.blocks, ClusterToLba(v, chain[0]), junk);
    forall o | 0 <= o < |junk| ensures read[o] == FetchedAt(v, junk, chain, o) && (Bps(v) <= o ==> read[o] == junk[o]) {
      BlockRead(v, junk, chain[0], o);
      DivIs(o, |junk|, 0, o);
    }
  }

  lemma ChunkThenRest(v: Volume, junk: seq<byte>, read: seq<byte>, chain: seq<nat>, out: seq<byte>, start: nat, rest: seq<byte>)
    requires VolumeOk(v) && |junk| == |read| && |chain| > 0 && start < |junk| && out == read[start..] + rest
    requires forall o :: 0 <= o < |junk| ==> read[o] == FetchedAt(v, junk, chain, o) && (Bps(v) <= o ==> read[o] == junk[o])
    requires forall k :: 0 <= k < |rest| ==> rest[k] == FetchedAt(v, read, chain[1..], k)
    ensures forall k :: 0 <= k < |out| ==> out[k] == FetchedAt(v, junk, chain, start + k)
  {
    var m := |junk| - start;
    forall k | 0 <= k < |out| ensures out[k] == FetchedAt(v, junk, chain, start + k) {
      if k < m {
        assert out[k] == read[start + k];
      } else {
        assert out[k] == rest[k - m];
        FetchedNext(v, junk, read, chain, k - m);
      }
    }
  }
}
