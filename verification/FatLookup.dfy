/** fs/fat12.c:148-241, 398-422: finding a file in the root directory. */
module FatLookup {
  import opened Bytes
  import opened FatTable
  import opened FatRead
  import opened FatNames

  const SLOTS := 16   // directory entries of a sector
  const ROOT: Name := [0x2F]

  /** The 32 bytes of a directory entry on the disk. */
  function ReadEntry(slot: seq<byte>): DirEntry
    requires |slot| == 32
  {
    DirEntry(slot[..11], slot[11], U16(slot, 26), U32(slot, 28))
  }

  /** The root directory is on the device, in sectors of 16 entries. */
  ghost predicate RootOk(v: Volume) {
    && (forall k :: 0 <= k < |v.blocks| ==> |v.blocks[k]| == 32 * SLOTS)
    && v.layout.rootDirStart + v.layout.rootDirSectors <= |v.blocks|
  }

  /** Entry `k` of the directory, all its sectors taken as one list. */
  function Entry(v: Volume, k: nat): DirEntry
    requires RootOk(v) && k < v.layout.rootDirSectors * SLOTS
  {
    ReadEntry(v.blocks[v.layout.rootDirStart + k / SLOTS][k % SLOTS * 32..k % SLOTS * 32 + 32])
  }

  predicate EndMark(e: DirEntry) { |e.name| > 0 && e.name[0] == 0x00 }

  /** Neither deleted nor a volume label. */
  predicate Live(e: DirEntry) { |e.name| > 0 && e.name[0] != 0xE5 && !IsVolumeLabel(e) }

  /** Entry `k` is the first live one with these eleven bytes, and there is no end mark up to it. */
  ghost predicate FirstMatch(v: Volume, field: seq<byte>, k: nat)
    requires RootOk(v)
  {
    && k < v.layout.rootDirSectors * SLOTS && Live(Entry(v, k)) && Entry(v, k).name == field
    && (forall j :: 0 <= j <= k ==> !EndMark(Entry(v, j)))
    && forall j :: 0 <= j < k ==> !(Live(Entry(v, j)) && Entry(v, j).name == field)
  }

  /** The vnode of a file that has been found, and where its entry is. */
  datatype Found = Found(node: Node, name: seq<byte>, isDirectory: bool, sector: nat, offset: nat)

  const NAME_SIZE := 28

  function Shortened(name: Name): seq<byte> { if |name| <= NAME_SIZE then name else name[..NAME_SIZE] }

  /** No entry before `k` is an end mark or a match. */
  ghost predicate NotYet(v: Volume, field: seq<byte>, k: nat)
    requires RootOk(v) && k <= v.layout.rootDirSectors * SLOTS
  {
    forall j :: 0 <= j < k ==> !EndMark(Entry(v, j)) && !(Live(Entry(v, j)) && Entry(v, j).name == field)
  }

  /** `r` describes the first match, and there is one if and only if `r` is not NULL. */
  ghost predicate Finds(v: Volume, field: seq<byte>, name: Name, r: Option<Found>)
    requires RootOk(v)
  {
    match r
    case None => forall k :: 0 <= k < v.layout.rootDirSectors * SLOTS ==> !FirstMatch(v, field, k)
    case Some(f) =>
      && f.sector >= v.layout.rootDirStart && f.offset < SLOTS
      && var k := (f.sector - v.layout.rootDirStart) * SLOTS + f.offset;
         && FirstMatch(v, field, k)
         && f == Found(Node(Some(v), Some(Entry(v, k))), Shortened(name), IsDirectory(Entry(v, k)), f.sector, f.offset)
  }

  lemma SlotIs(v: Volume, s: nat, i: nat)
    requires RootOk(v) && s < v.layout.rootDirSectors && i < SLOTS
    ensures s * SLOTS + i < v.layout.rootDirSectors * SLOTS
    ensures v.layout.rootDirStart + s < |v.blocks| && |v.blocks[v.layout.rootDirStart + s]| == 32 * SLOTS
    ensures Entry(v, s * SLOTS + i) == ReadEntry(v.blocks[v.layout.rootDirStart + s][i * 32..i * 32 + 32])
  {
    DivIs(s * SLOTS + i, SLOTS, s, i);
  }

  /** One entry looked at. */
  lemma Look(v: Volume, field: seq<byte>, name: Name, s: nat, i: nat)
    requires RootOk(v) && s < v.layout.rootDirSectors && i < SLOTS && s * SLOTS + i < v.layout.rootDirSectors * SLOTS
    requires NotYet(v, field, s * SLOTS + i)
    ensures var e := Entry(v, s * SLOTS + i);
      && (EndMark(e) ==> Finds(v, field, name, None))
      && (!EndMark(e) && Live(e) && e.name == field ==>
            Finds(v, field, name, Some(Found(Node(Some(v), Some(e)), Shortened(name), IsDirectory(e), v.layout.rootDirStart + s, i))))
      && (!EndMark(e) && !(Live(e) && e.name == field) ==> NotYet(v, field, s * SLOTS + i + 1))
  {
    hide Entry, Live, EndMark, RootOk, Shortened, IsDirectory;
  }

  lemma NoneAtAll(v: Volume, field: seq<byte>, name: Name)
    requires RootOk(v) && NotYet(v, field, v.layout.rootDirSectors * SLOTS)
    ensures Finds(v, field, name, None)
  {
  }

  lemma NothingYet(v: Volume, field: seq<byte>)
    requires RootOk(v)
    ensures NotYet(v, field, 0)
  {
  }

  /** The scan of one sector, which ends the search at a match or at the end mark. */
  method ScanSector(v: Volume, s: nat, field: seq<byte>, name: Name) returns (done: bool, r: Option<Found>)
    requires RootOk(v) && s < v.layout.rootDirSectors && NotYet(v, field, s * SLOTS)
    ensures if done then Finds(v, field, name, r) else NotYet(v, field, (s + 1) * SLOTS)
  {
    SlotIs(v, s, 0);
    var dirEntries := v.blocks[v.layout.rootDirStart + s];
    var i := 0;
    hide NotYet, Finds, Entry, RootOk, Shortened, IsDirectory;
    while i < SLOTS
      invariant i <= SLOTS && s * SLOTS + i <= v.layout.rootDirSectors * SLOTS && NotYet(v, field, s * SLOTS + i)
    {
      var e := ReadEntry(dirEntries[i * 32..i * 32 + 32]);
      SlotIs(v, s, i);
      Look(v, field, name, s, i);
      if e.name[0] == 0x00 {
        return true, None;
      }
      if e.name[0] != 0xE5 && !IsVolumeLabel(e) {
        if e.name == field {
          return true, Some(Found(Node(Some(v), Some(e)), Shortened(name), IsDirectory(e), v.layout.rootDirStart + s, i));
        }
      }
      i := i + 1;
    }
    return false, None;
  }

  method Lookup(dirName: Name, fs: Option<Volume>, name: Name) returns (r: Option<Found>)
    requires fs.Some? ==> RootOk(fs.value)
    ensures if dirName != ROOT || fs.None? then r == None else Finds(fs.value, To83(name), name, r)
    ensures r.Some? ==> dirName == [0x2F] && r.value.name == if |name| <= 28 then name else name[..28]
  {
    if dirName != ROOT || fs.None? {
      return None;
    }
    var v := fs.value;
    var fatName := new byte[11];
    NormalTo83(name, fatName);
    var field := fatName[..];
    hide To83, NotYet, Finds;
    NothingYet(v, field);
    var s := 0;
    while s < v.layout.rootDirSectors
      invariant s <= v.layout.rootDirSectors && NotYet(v, field, s * SLOTS)
    {
      var done, found := ScanSector(v, s, field, name);
      if done {
        return found;
      }
      s := s + 1;
    }
    NoneAtAll(v, field, name);
    return None;
  }

  lemma OneMatch(v: Volume, field: seq<byte>, a: nat, b: nat)
    requires RootOk(v) && FirstMatch(v, field, a) && FirstMatch(v, field, b)
    ensures a == b
  {
  }

  /** What a lookup may return is unique: the state of the disk and the name determine it. */
  lemma FoundOnce(v: Volume, field: seq<byte>, name: Name, r: Option<Found>, r': Option<Found>)
    requires RootOk(v) && Finds(v, field, name, r) && Finds(v, field, name, r')
    ensures r == r'
  {
    if r.Some? && r'.Some? {
      var a := (r.value.sector - v.layout.rootDirStart) * SLOTS + r.value.offset;
      var b := (r'.value.sector - v.layout.rootDirStart) * SLOTS + r'.value.offset;
      OneMatch(v, field, a, b);
      DivIs(a, SLOTS, r.value.sector - v.layout.rootDirStart, r.value.offset);
      DivIs(a, SLOTS, r'.value.sector - v.layout.rootDirStart, r'.value.offset);
    }
  }

  /** Every live entry before the end mark has a properly padded name. */
  ghost predicate Tidy(v: Volume)
    requires RootOk(v)
  {
    forall k :: 0 <= k < v.layout.rootDirSectors * SLOTS && Live(Entry(v, k)) && (forall j :: 0 <= j <= k ==> !EndMark(Entry(v, j)))
      ==> Padded(Entry(v, k).name)
  }

  /** The name an entry is shown under. */
  function Shown(e: DirEntry): Name
    requires |e.name| == 11
  {
    CutAtNul(From83(e.name))
  }

  /** Entry `k` is the first file of that name. */
  ghost predicate FirstNamed(v: Volume, name: Name, k: nat)
    requires RootOk(v)
  {
    && k < v.layout.rootDirSectors * SLOTS && (forall j :: 0 <= j <= k ==> !EndMark(Entry(v, j)))
    && Live(Entry(v, k)) && Shown(Entry(v, k)) == name
    && forall j :: 0 <= j < k ==> !(Live(Entry(v, j)) && Shown(Entry(v, j)) == name)
  }

  /** So a valid name finds the first file that is shown under it. */
  lemma MatchIsNamed(v: Volume, name: Name, k: nat)
    requires RootOk(v) && Tidy(v) && ValidName(name)
    ensures FirstMatch(v, To83(name), k) <==> FirstNamed(v, name, k)
  {
    hide To83, From83, ValidName, Padded, CutAtNul;
    if k < v.layout.rootDirSectors * SLOTS && forall j :: 0 <= j <= k ==> !EndMark(Entry(v, j)) {
      forall j | 0 <= j <= k && Live(Entry(v, j)) ensures Entry(v, j).name == To83(name) <==> Shown(Entry(v, j)) == name {
        assert Padded(Entry(v, j).name);
        SameName(name, Entry(v, j).name);
      }
    }
  }
}
