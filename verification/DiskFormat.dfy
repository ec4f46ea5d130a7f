/** The packed structures of include/fs/fat12.h as the bytes that a disk holds, and what the driver decodes of them. */
module DiskFormat {
  import opened Bytes
  import opened FatTable
  import opened FatRead
  import opened FatLookup

  // ---------- The boot sector ----------

  /** Every field of the BIOS parameter block. */
  datatype BootSector = BootSector(
    jump: seq<byte>, oem: seq<byte>, bytesPerSector: nat, sectorsPerCluster: byte, reserved: nat, fats: byte, rootEntries: nat,
    totalSectors: nat, media: byte, sectorsPerFat: nat, sectorsPerTrack: nat, heads: nat, hidden: nat, totalLarge: nat)

  predicate Fits16(x: nat) { x < 0x1_0000 }

  predicate Fits32(x: nat) { x < 0x1_0000_0000 }

  predicate BootFits(b: BootSector) {
    && |b.jump| == 3 && |b.oem| == 8 && Fits16(b.bytesPerSector) && Fits16(b.reserved) && Fits16(b.rootEntries)
    && Fits16(b.totalSectors) && Fits16(b.sectorsPerFat) && Fits16(b.sectorsPerTrack) && Fits16(b.heads)
    && Fits32(b.hidden) && Fits32(b.totalLarge)
  }

  /** The block as it lies at the start of the disk: its fields in order, without gaps. */
  function BootBytes(b: BootSector): (s: seq<byte>)
    requires BootFits(b)
    ensures |s| == 36
  {
    b.jump + b.oem + Le16(b.bytesPerSector) + [b.sectorsPerCluster] + Le16(b.reserved) + [b.fats] + Le16(b.rootEntries)
    + Le16(b.totalSectors) + [b.media] + Le16(b.sectorsPerFat) + Le16(b.sectorsPerTrack) + Le16(b.heads)
    + Le32(b.hidden) + Le32(b.totalLarge)
  }

  /** The driver finds each of the fields that it uses. */
  lemma BootDecoded(b: BootSector, rest: seq<byte>)
    requires BootFits(b)
    ensures ReadBpb(BootBytes(b) + rest) ==
      Bpb(b.bytesPerSector, b.sectorsPerCluster, b.reserved, b.fats, b.rootEntries, b.sectorsPerFat, b.hidden)
  {
    hide Le16, Le32;
    var s := BootBytes(b) + rest;
    assert s[11..13] == Le16(b.bytesPerSector);
    assert s[14..16] == Le16(b.reserved);
    assert s[17..19] == Le16(b.rootEntries);
    assert s[22..24] == Le16(b.sectorsPerFat);
    assert s[28..32] == Le32(b.hidden);
    Field16(s, 11, b.bytesPerSector);
    Field16(s, 14, b.reserved);
    Field16(s, 17, b.rootEntries);
    Field16(s, 22, b.sectorsPerFat);
    Field32(s, 28, b.hidden);
  }

  /** Where the parts of the volume begin, as the driver computes it from the fields. */
  lemma LayoutIs(b: Bpb)
    requires b.bytesPerSector > 0
    ensures var fat := b.hidden % 0x100 + b.reserved; var root := fat + b.fats * b.sectorsPerFat;
      LayoutOf(b) == Layout(fat, root, b.rootEntries * 32 / b.bytesPerSector, root + b.rootEntries * 32 / b.bytesPerSector)
  {
  }

  /** Mounting a device whose first block is the boot sector with these fields. */
  method MountWritten(blocks: seq<seq<byte>>, ghost b: BootSector) returns (v: Volume)
    requires |blocks| > 0 && (forall k :: 0 <= k < |blocks| ==> |blocks[k]| == 512)
    requires BootFits(b) && b.bytesPerSector >= 512 && blocks[0][..36] == BootBytes(b)
    ensures v.blocks == blocks
    ensures v.bpb == Bpb(b.bytesPerSector, b.sectorsPerCluster, b.reserved, b.fats, b.rootEntries, b.sectorsPerFat, b.hidden)
    ensures v.layout.fatStart == b.hidden % 0x100 + b.reserved
    ensures v.layout.rootDirStart == v.layout.fatStart + b.fats * b.sectorsPerFat
    ensures v.layout.rootDirSectors == b.rootEntries * 32 / b.bytesPerSector
    ensures v.layout.dataAreaStart == v.layout.rootDirStart + v.layout.rootDirSectors
    ensures |v.fat| == b.sectorsPerFat * b.bytesPerSector
    ensures FatLoaded(blocks, v.layout.fatStart, v.fat, b.bytesPerSector, |v.fat|)
  {
    BootDecoded(b, blocks[0][36..]);
    assert blocks[0] == BootBytes(b) + blocks[0][36..];
    hide BootBytes, ReadBpb, FatLoaded, LayoutOf;
    LayoutIs(ReadBpb(blocks[0]));
    var r := Mount(Some(blocks));
    v := r.value;
  }

  // ---------- Directory entries ----------

  /** The attribute byte, bit by bit; the two highest bits are reserved. */
  datatype Attributes = Attributes(readOnly: bool, hidden: bool, system: bool, volumeId: bool, directory: bool, archive: bool, high: nat)

  function Bit(b: bool, value: nat): nat { if b then value else 0 }

  function AttributeByte(a: Attributes): byte
    requires a.high < 4
  {
    Bit(a.readOnly, 0x01) + Bit(a.hidden, 0x02) + Bit(a.system, 0x04) + Bit(a.volumeId, 0x08) + Bit(a.directory, 0x10)
    + Bit(a.archive, 0x20) + 0x40 * a.high
  }

  /** Every field of a directory entry. */
  datatype Slot = Slot(
    filename: seq<byte>, extension: seq<byte>, attributes: Attributes, reserved: byte, createTenth: byte, createTime: nat, createDate: nat,
    accessDate: nat, clusterHigh: nat, writeTime: nat, writeDate: nat, clusterLow: nat, fileSize: nat)

  predicate SlotFits(s: Slot) {
    && |s.filename| == 8 && |s.extension| == 3 && s.attributes.high < 4 && Fits16(s.createTime) && Fits16(s.createDate)
    && Fits16(s.accessDate) && Fits16(s.clusterHigh) && Fits16(s.writeTime) && Fits16(s.writeDate) && Fits16(s.clusterLow)
    && Fits32(s.fileSize)
  }

  /** The entry as it lies in a sector of the root directory: its fields in order, without gaps. */
  function SlotBytes(s: Slot): (r: seq<byte>)
    requires SlotFits(s)
    ensures |r| == 32
  {
    s.filename + s.extension + [AttributeByte(s.attributes)] + [s.reserved] + [s.createTenth] + Le16(s.createTime) + Le16(s.createDate)
    + Le16(s.accessDate) + Le16(s.clusterHigh) + Le16(s.writeTime) + Le16(s.writeDate) + Le16(s.clusterLow) + Le32(s.fileSize)
  }

  /** The driver finds the name, the attributes, the first cluster and the size. */
  lemma SlotDecoded(s: Slot)
    requires SlotFits(s)
    ensures ReadEntry(SlotBytes(s)) == DirEntry(s.filename + s.extension, AttributeByte(s.attributes), s.clusterLow, s.fileSize)
  {
    hide Le16, Le32, AttributeByte;
    var r := SlotBytes(s);
    assert r[..11] == s.filename + s.extension;
    assert r[26..28] == Le16(s.clusterLow);
    assert r[28..32] == Le32(s.fileSize);
    Field16(r, 26, s.clusterLow);
    Field32(r, 28, s.fileSize);
  }

  /** And the attributes that it asks for. */
  lemma AttributeBits(a: Attributes, name: seq<byte>, cluster: nat, size: nat)
    requires a.high < 4
    ensures var e := DirEntry(name, AttributeByte(a), cluster, size); (IsVolumeLabel(e) <==> a.volumeId) && (IsDirectory(e) <==> a.directory)
  {
  }
}
