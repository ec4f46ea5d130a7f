/** fs/fat12.c:60-82, 131-146, 247-364: the FAT, the layout of the volume, and mounting it. */
module FatTable {
  import opened Bytes

  const EOC_MIN := 0xFF8

  // ---------- Entries of 12 bits ----------

  /** The FAT holds the two bytes that the entry of `cluster` is read from. */
  predicate InTable(fat: seq<byte>, cluster: nat) {
    cluster * 3 / 2 + 2 <= |fat|
  }

  function GetFentry(fat: seq<byte>, cluster: nat): (r: nat)
    requires InTable(fat, cluster)
    ensures r < 0x1000
  {
    var fatOffset := cluster * 3 / 2;
    var entry := U16(fat, fatOffset);
    if cluster % 2 == 1 then entry / 0x10 else entry % 0x1000
  }

  type entry = e: int | 0 <= e < 0x1000

  /** Two entries in three bytes, as the FAT specification lays them out; an odd one at the end takes two. */
  function Pack(entries: seq<entry>): seq<byte> {
    if |entries| == 0 then []
    else if |entries| == 1 then [entries[0] % 0x100, entries[0] / 0x100]
    else [entries[0] % 0x100, entries[0] / 0x100 + entries[1] % 0x10 * 0x10, entries[1] / 0x10] + Pack(entries[2..])
  }

  /** The entries behind the first two are packed from the fourth byte on. */
  lemma FetchLater(fat: seq<byte>, tail: seq<byte>, c: nat)
    requires c >= 2 && |fat| == |tail| + 3 && fat[3..] == tail && InTable(tail, c - 2)
    ensures InTable(fat, c) && GetFentry(fat, c) == GetFentry(tail, c - 2)
  {
    var o := (c - 2) * 3 / 2;
    assert c * 3 / 2 == o + 3;
    assert fat[o + 3] == fat[3..][o] && fat[o + 4] == fat[3..][o + 1];
  }

  /** Decoding inverts packing, for even and odd clusters alike, whatever follows the FAT in memory. */
  lemma {:induction false} DecodePacked(entries: seq<entry>, rest: seq<byte>, c: nat)
    requires c < |entries|
    ensures InTable(Pack(entries) + rest, c) && GetFentry(Pack(entries) + rest, c) == entries[c]
  {
    var fat := Pack(entries) + rest;
    if c >= 2 {
      DecodePacked(entries[2..], rest, c - 2);
      var tail := Pack(entries[2..]) + rest;
      assert fat[3..] == tail;
      hide GetFentry, Pack;
      FetchLater(fat, tail, c);
    } else if |entries| == 1 {
      assert fat[..2] == [entries[0] % 0x100, entries[0] / 0x100];
      assert fat[0] == fat[..2][0] && fat[1] == fat[..2][1];
    } else {
      hide GetFentry;
      assert fat[..3] == [entries[0] % 0x100, entries[0] / 0x100 + entries[1] % 0x10 * 0x10, entries[1] / 0x10];
      assert fat[0] == fat[..3][0] && fat[1] == fat[..3][1] && fat[2] == fat[..3][2];
      hide Pack;
      DecodeTwo(fat, entries[0], entries[1], c);
    }
  }

  lemma DecodeTwo(fat: seq<byte>, even: entry, odd: entry, c: nat)
    requires |fat| >= 3 && c < 2
    requires fat[0] == even % 0x100 && fat[1] == even / 0x100 + odd % 0x10 * 0x10 && fat[2] == odd / 0x10
    ensures InTable(fat, c) && GetFentry(fat, c) == if c == 0 then even else odd
  {
    var high, low, top := even / 0x100, odd % 0x10, odd / 0x10;
    if c == 0 {
      assert U16(fat, 0) == even % 0x100 + 0x100 * (high + low * 0x10) == even + 0x1000 * low;
    } else {
      assert U16(fat, 1) == high + low * 0x10 + 0x100 * top == high + 0x10 * odd;
    }
  }

  // ---------- The layout of a volume ----------

  /** The fields of the BIOS parameter block that the driver uses. */
  datatype Bpb = Bpb(bytesPerSector: nat, sectorsPerCluster: nat, reserved: nat, fats: nat, rootEntries: nat, sectorsPerFat: nat, hidden: nat)

  function ReadBpb(sector: seq<byte>): (r: Bpb)
    requires |sector| >= 36
    ensures r.bytesPerSector < TWO16 && r.sectorsPerCluster < 0x100 && r.reserved < TWO16 && r.fats < 0x100
    ensures r.rootEntries < TWO16 && r.sectorsPerFat < TWO16 && r.hidden < TWO32
  {
    Bpb(U16(sector, 11), sector[13], U16(sector, 14), sector[16], U16(sector, 17), U16(sector, 22), U32(sector, 28))
  }

  datatype Layout = Layout(fatStart: nat, rootDirStart: nat, rootDirSectors: nat, dataAreaStart: nat)

  /** As the driver computes it: `lba_begin` is a `uint8_t`, and the division drops a last, partly filled sector. */
  function LayoutOf(b: Bpb): Layout
    requires b.bytesPerSector > 0
  {
    var lbaBegin := b.hidden % 0x100;
    var fatStart := lbaBegin + b.reserved;
    var rootDirStart := fatStart + b.fats * b.sectorsPerFat;
    var rootDirSectors := b.rootEntries * 32 / b.bytesPerSector;
    Layout(fatStart, rootDirStart, rootDirSectors, rootDirStart + rootDirSectors)
  }

  /** As section "FAT Type Determination" of the FAT specification asks for it, from the start of the disk. */
  function SpecLayout(b: Bpb): Layout
    requires b.bytesPerSector > 0
  {
    var rootDirSectors := (b.rootEntries * 32 + (b.bytesPerSector - 1)) / b.bytesPerSector;
    var firstRoot := b.reserved + b.fats * b.sectorsPerFat;
    Layout(b.hidden + b.reserved, b.hidden + firstRoot, rootDirSectors, b.hidden + firstRoot + rootDirSectors)
  }

  /** The driver finds the volume exactly when few sectors are hidden and the root directory fills its sectors. */
  lemma LayoutIff(b: Bpb)
    requires b.bytesPerSector > 0
    ensures LayoutOf(b) == SpecLayout(b) <==> b.hidden < 0x100 && b.rootEntries * 32 % b.bytesPerSector == 0
  {
    CeilIsFloor(b.rootEntries * 32, b.bytesPerSector);
  }

  lemma CeilIsFloor(n: nat, d: nat)
    requires d > 0
    ensures (n + (d - 1)) / d == n / d <==> n % d == 0
  {
    var q, r := n / d, n % d;
    assert n == q * d + r;
    if r == 0 {
      DivIs(n + (d - 1), d, q, d - 1);
    } else {
      DivIs(n + (d - 1), d, q + 1, r - 1);
    }
  }

  // ---------- Mounting ----------

  /** What `blkread` leaves in a buffer: the block, or, past the end of the device, what was there before. */
  function Blkread(blocks: seq<seq<byte>>, lba: nat, buffer: seq<byte>): (r: seq<byte>)
    requires lba < |blocks| ==> |blocks[lba]| <= |buffer|
    ensures |r| == |buffer|
  {
    if lba < |blocks| then blocks[lba] + buffer[|blocks[lba]|..] else buffer
  }

  method BlkreadInto(blocks: seq<seq<byte>>, lba: nat, buffer: array<byte>, at: nat, ghost room: nat)
    requires at + room <= buffer.Length && (lba < |blocks| ==> |blocks[lba]| <= room)
    modifies buffer
    ensures buffer[at..at + room] == Blkread(blocks, lba, old(buffer[at..at + room]))
    ensures buffer[..at] == old(buffer[..at]) && buffer[at + room..] == old(buffer[at + room..])
  {
    if lba < |blocks| {
      forall k | 0 <= k < |blocks[lba]| {
        buffer[at + k] := blocks[lba][k];
      }
      assert buffer[at..at + room] == blocks[lba] + old(buffer[at..at + room])[|blocks[lba]|..];
    }
  }

  /** A mounted volume: its device, its layout and its FAT. */
  datatype Volume = Volume(blocks: seq<seq<byte>>, bpb: Bpb, layout: Layout, fat: seq<byte>)

  /**
    The first `bytes` of the table are those of the blocks that the FAT lies in, as far as the device goes: one block to a
    sector. Where a block is shorter than a sector, the rest of the sector is not filled.
   */
  ghost predicate FatLoaded(blocks: seq<seq<byte>>, start: nat, fat: seq<byte>, bps: nat, bytes: nat)
    requires bps > 0
  {
    forall i :: 0 <= i < bytes && i < |fat| && start + i / bps < |blocks| && i % bps < |blocks[start + i / bps]| ==>
      fat[i] == blocks[start + i / bps][i % bps]
  }

  lemma OneMoreSector(blocks: seq<seq<byte>>, start: nat, fat: seq<byte>, next: seq<byte>, bps: nat, k: nat)
    requires bps > 0 && FatLoaded(blocks, start, fat, bps, k * bps) && |next| == |fat| && (k + 1) * bps <= |fat|
    requires (start + k < |blocks| ==> |blocks[start + k]| <= bps) && k * bps + bps == (k + 1) * bps && next[..k * bps] == fat[..k * bps]
    requires next[k * bps..k * bps + bps] == Blkread(blocks, start + k, fat[k * bps..k * bps + bps])
    ensures FatLoaded(blocks, start, next, bps, (k + 1) * bps)
  {
    var lo := k * bps;
    hide Blkread;
    forall i | 0 <= i < (k + 1) * bps && start + i / bps < |blocks| && i % bps < |blocks[start + i / bps]|
      ensures next[i] == blocks[start + i / bps][i % bps]
    {
      if i < lo {
        assert next[i] == next[..lo][i] && fat[i] == fat[..lo][i];
      } else {
        DivIs(i, bps, k, i - lo);
        BlockByte(blocks, start + k, fat[lo..lo + bps], i - lo);
        assert next[i] == next[lo..lo + bps][i - lo];
      }
    }
  }

  lemma BlockByte(blocks: seq<seq<byte>>, lba: nat, buffer: seq<byte>, i: nat)
    requires lba < |blocks| && i < |blocks[lba]| <= |buffer|
    ensures Blkread(blocks, lba, buffer)[i] == blocks[lba][i]
  {
  }

  lemma NothingLoaded(blocks: seq<seq<byte>>, start: nat, fat: seq<byte>, bps: nat)
    requires bps > 0
    ensures FatLoaded(blocks, start, fat, bps, 0 * bps)
  {
  }

  lemma Slot(i: nat, sectors: nat, bps: nat)
    requires i < sectors && bps > 0
    ensures i * bps + bps == (i + 1) * bps <= sectors * bps
  {
    AtLeast(sectors - i, bps);
    assert sectors * bps == i * bps + (sectors - i) * bps;
  }

  /** The loop of `fat12_mount` that reads the FAT into memory. */
  method LoadFat(blocks: seq<seq<byte>>, start: nat, sectors: nat, bps: nat, table: array<byte>)
    requires bps > 0 && table.Length == sectors * bps && forall k :: 0 <= k < |blocks| ==> |blocks[k]| <= bps
    modifies table
    ensures FatLoaded(blocks, start, table[..], bps, table.Length)
  {
    hide *;
    var i := 0;
    NothingLoaded(blocks, start, table[..], bps);
    while i < sectors
      invariant i <= sectors && FatLoaded(blocks, start, table[..], bps, i * bps)
    {
      Slot(i, sectors, bps);
      ghost var before := table[..];
      BlkreadInto(blocks, start + i, table, i * bps, bps);
      OneMoreSector(blocks, start, before, table[..], bps, i);
      i := i + 1;
    }
  }

  const SECTOR := 512

  /** `fat12_mount` on the device of that name, if there is one; its blocks are no larger than the sectors it claims to have. */
  method Mount(device: Option<seq<seq<byte>>>) returns (r: Option<Volume>)
    requires device.Some? ==>
      && |device.value| > 0 && (forall k :: 0 <= k < |device.value| ==> |device.value[k]| == SECTOR)
      && ReadBpb(device.value[0]).bytesPerSector >= SECTOR
    ensures r.Some? <==> device.Some?
    ensures r.Some? ==>
      && r.value.blocks == device.value && r.value.bpb == ReadBpb(device.value[0]) && r.value.layout == LayoutOf(r.value.bpb)
      && |r.value.fat| == r.value.bpb.sectorsPerFat * r.value.bpb.bytesPerSector
      && FatLoaded(device.value, r.value.layout.fatStart, r.value.fat, r.value.bpb.bytesPerSector, |r.value.fat|)
  {
    if device.None? {
      return None;
    }
    var blocks := device.value;
    var bootsector := new byte[SECTOR];
    BlkreadInto(blocks, 0, bootsector, 0, SECTOR);
    assert bootsector[..] == bootsector[0..SECTOR] == blocks[0];
    var bpb := ReadBpb(bootsector[..]);
    var layout := LayoutOf(bpb);
    var fatSize := bpb.sectorsPerFat * bpb.bytesPerSector;
    var fatTable := new byte[fatSize];
    LoadFat(blocks, layout.fatStart, bpb.sectorsPerFat, bpb.bytesPerSector, fatTable);
    return Some(Volume(blocks, bpb, layout, fatTable[..]));
  }

  /** The sectors from `start` on hold `bytes`. */
  ghost predicate OnDisk(blocks: seq<seq<byte>>, start: nat, bps: nat, bytes: seq<byte>)
    requires bps > 0
  {
    forall i :: 0 <= i < |bytes| ==>
      start + i / bps < |blocks| && i % bps < |blocks[start + i / bps]| && blocks[start + i / bps][i % bps] == bytes[i]
  }

  lemma LoadedBytes(blocks: seq<seq<byte>>, fat: seq<byte>, start: nat, bps: nat, bytes: seq<byte>)
    requires bps > 0 && FatLoaded(blocks, start, fat, bps, |fat|) && OnDisk(blocks, start, bps, bytes) && |bytes| <= |fat|
    ensures fat[..|bytes|] == bytes
  {
    forall i | 0 <= i < |bytes| ensures fat[i] == bytes[i] {
      assert blocks[start + i / bps][i % bps] == bytes[i];
    }
  }

  /** On a mounted volume the driver reads back the entries that were packed into the FAT sectors of the disk. */
  lemma MountedEntries(v: Volume, start: nat, bps: nat, entries: seq<entry>, c: nat)
    requires bps > 0 && FatLoaded(v.blocks, start, v.fat, bps, |v.fat|)
    requires OnDisk(v.blocks, start, bps, Pack(entries)) && |Pack(entries)| <= |v.fat| && c < |entries|
    ensures InTable(v.fat, c) && GetFentry(v.fat, c) == entries[c]
  {
    hide *;
    LoadedBytes(v.blocks, v.fat, start, bps, Pack(entries));
    var rest := v.fat[|Pack(entries)|..];
    assert v.fat == Pack(entries) + rest;
    DecodePacked(entries, rest, c);
  }
}
