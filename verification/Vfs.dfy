/** fs/vfs.c:170-190: an open file with its cursor, and reading it bit by bit. */
module Vfs {
  import Numerals
  import opened Bytes
  import opened FatTable
  import opened FatRead
  import opened FatFiles
  import opened FatContent

  /** An open file. Its node is NULL when `vfs_open` has not found it: that is not checked there. */
  class File {
    var node: Option<Node>
    var fOffset: nat

    constructor (node: Option<Node>)
      ensures this.node == node && fOffset == 0
    {
      this.node := node;
      fOffset := 0;
    }
  }

  /** `Read` may be called for this request. */
  ghost predicate Allowed(node: Option<Node>, offs: nat, size: nat, buf: array?<byte>, at: nat) {
    && size < TWO32 && (node.Some? && node.value.data.Some? ==> node.value.data.value.fileSize < TWO32)
    && (!Rejected(node, size, buf) ==> at <= buf.Length && Readable(node.value, offs, size, buf.Length - at))
  }

  /** What a request returns and copies; `junk` is what the driver's own buffer held at first. */
  ghost predicate Served(node: Option<Node>, offs: nat, size: nat, isNull: bool, before: seq<byte>, at: nat, after: seq<byte>, r: int, junk: seq<byte>) {
    if isNull || node.None? || node.value.data.None? || size == 0 || node.value.fs.None? || IsDirectory(node.value.data.value) then
      r == -1 && after == before
    else if offs >= node.value.data.value.fileSize then r == 0 && after == before
    else
      var v, e := node.value.fs.value, node.value.data.value;
      && Bpc(v) > 0 && |junk| == Bpc(v) && Clip(offs, size, e.fileSize) < TWO32
      && r == Numerals.Wrap32(Clip(offs, size, e.fileSize))
      && var p := PlanFor(e, offs, Clip(offs, size, e.fileSize), Bpc(v));
         && Safe(v, p, |junk|) && at + |ReadOut(v, junk, p)| <= |before|
         && after == Spliced(before, at, ReadOut(v, junk, p))
  }

  /** Only a positive count moves the cursor, which is a `uint32_t`. */
  function Advanced(offs: nat, r: int): nat {
    if r > 0 then (offs + r) % TWO32 else offs
  }

  method VfsRead(file: File?, buf: array?<byte>, at: nat, size: nat) returns (r: int, ghost junk: seq<byte>)
    requires file != null ==> Allowed(file.node, file.fOffset, size, buf, at)
    modifies if file == null then {} else {file}, buf
    ensures file == null ==> r == -1
    ensures file == null && buf != null ==> buf[..] == old(buf[..])
    ensures file != null ==>
      && Served(file.node, old(file.fOffset), size, buf == null, if buf == null then [] else old(buf[..]), at,
                if buf == null then [] else buf[..], r, junk)
      && file.node == old(file.node) && file.fOffset == Advanced(old(file.fOffset), r)
      && file.fOffset == if r > 0 then (old(file.fOffset) + r) % 0x1_0000_0000 else old(file.fOffset)
  {
    junk := [];
    if file == null || file.node.None? || buf == null || size == 0 {
      return -1, junk;
    }
    r, junk := Read(file.node, file.fOffset, size, buf, at);
    if r > 0 {
      file.fOffset := (file.fOffset + r) % TWO32;
    }
  }

  // ---------- Files that can be read as a stream ----------

  /** A contiguous file on a volume with one block to a cluster, or an empty file. */
  ghost predicate Streamable(node: Node, chain: seq<nat>) {
    && node.fs.Some? && node.data.Some? && !IsDirectory(node.data.value)
    && (node.data.value.fileSize > 0 ==>
          && FileOnDisk(node.fs.value, node.data.value, chain, Bpc(node.fs.value)) && Bpc(node.fs.value) > 0
          && node.fs.value.bpb.sectorsPerCluster == 1 && Contiguous(node.data.value, chain, Bpc(node.fs.value)))
  }

  /** A file in clusters 2 and 3 of a small volume is one. */
  lemma ContiguousFile(e: DirEntry)
    requires e.firstCluster == 2 && e.fileSize == 1024 && !IsDirectory(e)
    ensures Streamable(Node(Some(SmallVolume(3)), Some(e)), [2, 3])
  {
    SmallFileOnDisk(3, e);
    hide FileOnDisk;
    assert [2, 3][1] == 3;
  }

  function ContentByte(v: Volume, chain: seq<nat>, i: nat): byte {
    if Bps(v) == 0 || Bpc(v) == 0 then 0 else ContentAt(v, chain, i, Bpc(v))
  }

  /** The bytes `lo..hi` of the file. */
  function Content(node: Node, chain: seq<nat>, lo: nat, hi: nat): (s: seq<byte>)
    requires node.fs.Some? && lo <= hi
    ensures |s| == hi - lo && forall k :: 0 <= k < hi - lo ==> s[k] == ContentByte(node.fs.value, chain, lo + k)
  {
    seq<byte>(hi - lo, (i: nat) => ContentByte(node.fs.value, chain, lo + i))
  }

  lemma SmallFile(node: Node, chain: seq<nat>)
    requires Streamable(node, chain)
    ensures node.data.value.fileSize < 0x1000_0000
  {
    if node.data.value.fileSize > 0 {
      var v := node.fs.value;
      FileFacts(v, node.data.value, chain, Bpc(v));
      assert Bpc(v) < TWO16;
      hide FileOnDisk, Bpc;
      ChainLength(v, chain);
      AtLeastTimes(0xFF7, |chain|, Bpc(v));
    }
  }

  /** A request within such a file is served with exactly the bytes asked for. */
  lemma StreamRead(node: Node, chain: seq<nat>, offs: nat, size: nat, junk: seq<byte>)
    requires Streamable(node, chain) && offs < node.data.value.fileSize && 0 < size && offs + size < TWO32
    requires |junk| == Bpc(node.fs.value)
    ensures var v, e := node.fs.value, node.data.value; var m := Available(e, offs, size);
      && Bpc(v) > 0 && Clip(offs, size, e.fileSize) == m && VolumeOk(v)
      && var p := PlanFor(e, offs, m, Bpc(v)); Safe(v, p, |junk|) && ReadOut(v, junk, p) == Content(node, chain, offs, offs + m)
  {
    var v, e := node.fs.value, node.data.value;
    FileFacts(v, e, chain, Bpc(v));
    StartsRightEverywhere(v, e, chain, Bpc(v));
    assert InFirstBlocks(v, offs, Available(e, offs, size), Bpc(v));
    hide FileOnDisk, Bpc, Bps, VolumeOk, Contiguous, StartsRight, InFirstBlocks, PlanFor, ReadOut, Safe, ContentAt;
    ReadIsRight(v, junk, e, chain, offs, size);
  }

  /** How much of a request the file has. */
  function Count(e: DirEntry, offs: nat, size: nat): nat {
    if offs < e.fileSize then Available(e, offs, size) else 0
  }

  lemma StreamAllowed(node: Node, chain: seq<nat>, offs: nat, size: nat, buf: array<byte>, at: nat)
    requires Streamable(node, chain) && 0 < size && offs + size < TWO32 && at + Count(node.data.value, offs, size) <= buf.Length
    ensures Allowed(Some(node), offs, size, buf, at)
  {
    SmallFile(node, chain);
    if offs < node.data.value.fileSize {
      var v, e := node.fs.value, node.data.value;
      forall junk: seq<byte> | |junk| == Bpc(v)
        ensures Bpc(v) > 0 && Safe(v, RequestPlan(node, offs, size), Bpc(v))
        ensures |ReadOut(v, junk, RequestPlan(node, offs, size))| <= buf.Length - at
      {
        StreamRead(node, chain, offs, size, junk);
      }
      var junk: seq<byte> := seq(Bpc(v), i => 0);
      StreamRead(node, chain, offs, size, junk);
    }
  }

  lemma StreamServed(node: Node, chain: seq<nat>, offs: nat, size: nat, before: seq<byte>, at: nat, after: seq<byte>, r: int, junk: seq<byte>)
    requires Streamable(node, chain) && 0 < size && offs + size < TWO32 && at <= |before|
    requires Served(Some(node), offs, size, false, before, at, after, r, junk)
    ensures node.fs.Some? && node.data.Some? && 0 <= r == Count(node.data.value, offs, size) <= size && at + r <= |before|
    ensures Advanced(offs, r) == offs + r && after == Spliced(before, at, Content(node, chain, offs, offs + r))
  {
    hide *;
    StreamFacts(node, chain);
    if offs < node.data.value.fileSize {
      ServedPart(node, offs, size, before, at, after, r, junk);
      StreamRead(node, chain, offs, size, junk);
      AvailableSome(node.data.value, offs, size);
      CountIs(node.data.value, offs, size);
    } else {
      ServedEnd(node, chain, offs, size, before, at, after, r, junk);
    }
  }

  lemma CountIs(e: DirEntry, offs: nat, size: nat)
    requires offs < e.fileSize < 0x1000_0000
    ensures var m := Available(e, offs, size); m == Count(e, offs, size) <= size && Numerals.Wrap32(m) == m == Advanced(offs, m) - offs
  {
  }

  lemma ServedPart(node: Node, offs: nat, size: nat, before: seq<byte>, at: nat, after: seq<byte>, r: int, junk: seq<byte>)
    requires node.fs.Some? && node.data.Some? && !IsDirectory(node.data.value) && offs < node.data.value.fileSize && 0 < size
    requires Served(Some(node), offs, size, false, before, at, after, r, junk)
    ensures var v, e := node.fs.value, node.data.value; var m := Clip(offs, size, e.fileSize);
      && Bpc(v) > 0 && |junk| == Bpc(v) && m < TWO32 && r == Numerals.Wrap32(m)
      && var p := PlanFor(e, offs, m, Bpc(v));
         Safe(v, p, |junk|) && at + |ReadOut(v, junk, p)| <= |before| && after == Spliced(before, at, ReadOut(v, junk, p))
  {
    hide Clip, PlanFor, Safe, ReadOut, Spliced, Bpc, Numerals.Wrap32;
  }

  lemma StreamFacts(node: Node, chain: seq<nat>)
    requires Streamable(node, chain)
    ensures node.fs.Some? && node.data.Some? && !IsDirectory(node.data.value) && node.data.value.fileSize < 0x1000_0000
  {
    SmallFile(node, chain);
  }

  lemma ServedEnd(node: Node, chain: seq<nat>, offs: nat, size: nat, before: seq<byte>, at: nat, after: seq<byte>, r: int, junk: seq<byte>)
    requires node.fs.Some? && node.data.Some? && !IsDirectory(node.data.value) && offs >= node.data.value.fileSize && 0 < size && at <= |before|
    requires Served(Some(node), offs, size, false, before, at, after, r, junk)
    ensures r == 0 == Count(node.data.value, offs, size) && Advanced(offs, r) == offs
    ensures after == Spliced(before, at, Content(node, chain, offs, offs))
  {
    SplicedNone(before, at);
    assert Content(node, chain, offs, offs) == [];
  }

  function Sum(sizes: seq<nat>): nat {
    if sizes == [] then 0 else Sum(sizes[..|sizes| - 1]) + sizes[|sizes| - 1]
  }

  /** Where the cursor is after `total` bytes have been asked for from `start` on. */
  function Cursor(e: DirEntry, start: nat, total: nat): (c: nat)
    ensures c >= start
  {
    if start >= e.fileSize then start else if start + total <= e.fileSize then start + total else e.fileSize
  }

  lemma CursorStep(e: DirEntry, start: nat, total: nat, size: nat)
    ensures Cursor(e, start, total) + Count(e, Cursor(e, start, total), size) == Cursor(e, start, total + size)
  {
  }

  lemma {:induction false} SumBound(sizes: seq<nat>, i: nat)
    requires i <= |sizes|
    ensures Sum(sizes[..i]) <= Sum(sizes)
    decreases |sizes|
  {
    if i < |sizes| {
      assert sizes[..|sizes| - 1][..i] == sizes[..i];
      SumBound(sizes[..|sizes| - 1], i);
    } else {
      assert sizes[..i] == sizes;
    }
  }

  lemma SumStep(sizes: seq<nat>, i: nat)
    requires i < |sizes|
    ensures Sum(sizes[..i + 1]) == Sum(sizes[..i]) + sizes[i] <= Sum(sizes)
  {
    assert sizes[..i + 1][..i] == sizes[..i];
    SumBound(sizes, i + 1);
  }

  /** `vfs_read` on such a file: the next bytes of the content, as many as were asked for or as there are. */
  method ReadNext(file: File, buf: array<byte>, at: nat, size: nat, ghost chain: seq<nat>) returns (r: nat)
    requires file.node.Some? && Streamable(file.node.value, chain) && 0 < size && file.fOffset + size < TWO32
    requires at + Count(file.node.value.data.value, file.fOffset, size) <= buf.Length
    modifies file, buf
    ensures file.node == old(file.node) && r == Count(file.node.value.data.value, old(file.fOffset), size)
    ensures file.fOffset == old(file.fOffset) + r
    ensures buf[..] == Spliced(old(buf[..]), at, Content(file.node.value, chain, old(file.fOffset), file.fOffset))
  {
    hide *;
    ghost var node, offs, before := file.node.value, file.fOffset, buf[..];
    StreamAllowed(node, chain, offs, size, buf, at);
    var n; ghost var junk;
    n, junk := VfsRead(file, buf, at, size);
    StreamServed(node, chain, offs, size, before, at, buf[..], n, junk);
    r := n;
  }

  /** One stretch of the content behind another. */
  lemma ContentGrows(node: Node, chain: seq<nat>, before: seq<byte>, start: nat, mid: nat, end: nat)
    requires node.fs.Some? && start <= mid <= end && end - start <= |before|
    ensures Spliced(Spliced(before, 0, Content(node, chain, start, mid)), mid - start, Content(node, chain, mid, end))
      == Spliced(before, 0, Content(node, chain, start, end))
  {
    var all := Content(node, chain, start, end);
    assert all[..mid - start] == Content(node, chain, start, mid);
    assert all[mid - start..][..end - mid] == Content(node, chain, mid, end);
    assert all[..mid - start + (end - mid)] == all;
    hide Content, Spliced;
    Appended(before, 0, all, mid - start, end - mid);
  }

  /**
    The first `n` requests have returned `counts`, have moved the cursor from `start` to `cursor`, and have put the
    content in between at the front of the buffer. Each has returned what was left of it, and 0 at the end of the file.
   */
  ghost predicate Streamed(node: Node, chain: seq<nat>, start: nat, cursor: nat, before: seq<byte>, after: seq<byte>, sizes: seq<nat>, n: nat,
                           counts: seq<int>)
  {
    && node.fs.Some? && node.data.Some? && |counts| == n <= |sizes|
    && cursor == Cursor(node.data.value, start, Sum(sizes[..n])) && cursor - start <= Sum(sizes[..n]) <= |before|
    && after == Spliced(before, 0, Content(node, chain, start, cursor)) && Counted(counts, node.data.value, start, sizes)
  }

  ghost predicate Counted(counts: seq<int>, e: DirEntry, start: nat, sizes: seq<nat>) {
    |counts| <= |sizes| &&
    forall k :: 0 <= k < |counts| ==> counts[k] == Cursor(e, start, Sum(sizes[..k + 1])) - Cursor(e, start, Sum(sizes[..k]))
  }

  lemma CountedMore(counts: seq<int>, e: DirEntry, start: nat, sizes: seq<nat>, r: int)
    requires Counted(counts, e, start, sizes) && |counts| < |sizes|
    requires r == Cursor(e, start, Sum(sizes[..|counts| + 1])) - Cursor(e, start, Sum(sizes[..|counts|]))
    ensures Counted(counts + [r], e, start, sizes)
  {
  }

  /** No request is empty, and none goes past what a `uint32_t` holds. */
  ghost predicate Requests(node: Node, start: nat, sizes: seq<nat>)
    requires node.data.Some?
  {
    forall i :: 0 <= i < |sizes| ==> 0 < sizes[i] && Cursor(node.data.value, start, Sum(sizes[..i])) + sizes[i] < TWO32
  }

  /**
    Any sequence of requests that are not empty reads the file as a stream: the outputs, one after the other, are the
    content from the cursor on, as far as was asked for and the file goes. At its end requests return 0 and leave the
    cursor alone.
   */
  method ReadStream(file: File, sizes: seq<nat>, buf: array<byte>, ghost chain: seq<nat>) returns (counts: seq<int>)
    requires file.node.Some? && Streamable(file.node.value, chain) && Sum(sizes) <= buf.Length && Requests(file.node.value, file.fOffset, sizes)
    modifies file, buf
    ensures file.node == old(file.node)
    ensures Streamed(file.node.value, chain, old(file.fOffset), file.fOffset, old(buf[..]), buf[..], sizes, |sizes|, counts)
  {
    hide *;
    ghost var node, start, before := file.node.value, file.fOffset, buf[..];
    counts := [];
    var i, pos: nat := 0, 0;
    StreamStart(node, chain, before, start, sizes);
    while i < |sizes|
      invariant i <= |sizes| && file.node == Some(node) && file.fOffset == start + pos
      invariant Streamed(node, chain, start, file.fOffset, before, buf[..], sizes, i, counts)
    {
      ghost var c, mid := file.fOffset, buf[..];
      StreamFits(node, chain, start, c, before, mid, sizes, i, counts);
      var r := ReadNext(file, buf, pos, sizes[i], chain);
      StreamMore(node, chain, start, c, before, mid, sizes, i, counts, file.fOffset, buf[..]);
      counts := counts + [r];
      pos := pos + r;
      i := i + 1;
    }
  }

  lemma StreamStart(node: Node, chain: seq<nat>, before: seq<byte>, start: nat, sizes: seq<nat>)
    requires Streamable(node, chain)
    ensures Streamed(node, chain, start, start, before, before, sizes, 0, [])
  {
    assert Content(node, chain, start, start) == [];
  }

  lemma StreamFits(node: Node, chain: seq<nat>, start: nat, c: nat, before: seq<byte>, mid: seq<byte>, sizes: seq<nat>, i: nat, counts: seq<int>)
    requires Streamed(node, chain, start, c, before, mid, sizes, i, counts) && i < |sizes|
    requires Requests(node, start, sizes) && Sum(sizes) <= |before|
    ensures node.data.Some? && 0 < sizes[i] && c >= start && c + sizes[i] < TWO32
    ensures c - start + Count(node.data.value, c, sizes[i]) <= |before| == |mid|
  {
    SumStep(sizes, i);
    hide Sum, Content;
  }

  lemma StreamMore(node: Node, chain: seq<nat>, start: nat, c: nat, before: seq<byte>, mid: seq<byte>, sizes: seq<nat>, i: nat, counts: seq<int>,
                   c': nat, after: seq<byte>)
    requires Streamed(node, chain, start, c, before, mid, sizes, i, counts) && i < |sizes| && Sum(sizes) <= |before|
    requires start <= c && c' == c + Count(node.data.value, c, sizes[i]) && c' - start <= |mid| == |before|
    requires after == Spliced(mid, c - start, Content(node, chain, c, c'))
    ensures Streamed(node, chain, start, c', before, after, sizes, i + 1, counts + [c' - c])
  {
    var e := node.data.value;
    SumStep(sizes, i);
    CursorStep(e, start, Sum(sizes[..i]), sizes[i]);
    CountedMore(counts, e, start, sizes, c' - c);
    ContentGrows(node, chain, before, start, c, c');
    hide Sum, Content, Spliced, Cursor, Count, Counted;
  }
}
