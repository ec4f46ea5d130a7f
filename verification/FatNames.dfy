/** fs/fat12.c:84-129, 148-241: names of 8 + 3 characters, and looking one up in the root directory. */
module FatNames {
  import opened Bytes

  const SPACE: byte := 0x20
  const DOT: byte := 0x2E

  /** The bytes of a C string. */
  type Name = s: seq<byte> | 0 !in s

  // ---------- The two forms of a name ----------

  function Pad(s: seq<byte>, n: nat): (r: seq<byte>)
    requires |s| <= n
    ensures |r| == n
  {
    s + seq(n - |s|, i => SPACE)
  }

  /** Where the base of a name ends: at its first dot, at its end, or after eight characters. */
  function BaseEnd(name: Name, i: nat): (j: nat)
    requires i <= |name| && i <= 8
    ensures i <= j <= |name| && j <= 8 && (forall k :: i <= k < j ==> name[k] != DOT)
    ensures j == |name| || j == 8 || name[j] == DOT
    decreases 8 - i
  {
    if i < 8 && i < |name| && name[i] != DOT then BaseEnd(name, i + 1) else i
  }

  /** The dot behind the base is skipped if there is one; the next three characters are the extension. */
  function ExtStart(name: Name): (k: nat)
    ensures k <= |name|
  {
    var j := BaseEnd(name, 0);
    if j < |name| && name[j] == DOT then j + 1 else j
  }

  function Ext(name: Name): (x: seq<byte>)
    ensures |x| <= 3
  {
    name[ExtStart(name)..if ExtStart(name) + 3 <= |name| then ExtStart(name) + 3 else |name|]
  }

  function To83(name: Name): (f: seq<byte>)
    ensures |f| == 11
  {
    Pad(name[..BaseEnd(name, 0)], 8) + Pad(Ext(name), 3)
  }

  /** The characters of the field, one by one. */
  lemma To83At(name: Name, b: nat, x: nat, j: nat)
    requires b == BaseEnd(name, 0) && x == ExtStart(name) && x <= j <= |name| && (j == |name| || j == x + 3) && j <= x + 3
    ensures forall k :: 0 <= k < 8 ==> To83(name)[k] == if k < b then name[k] else SPACE
    ensures forall k :: 8 <= k < 11 ==> To83(name)[k] == if k < 8 + (j - x) then name[x + k - 8] else SPACE
  {
    hide To83, Pad, BaseEnd, ExtStart;
    assert Ext(name) == name[x..j];
    To83Is(name, b);
    PadAt(name[..b], 8);
    PadAt(name[x..j], 3);
  }

  lemma PadAt(s: seq<byte>, n: nat)
    requires |s| <= n
    ensures forall k :: 0 <= k < n ==> Pad(s, n)[k] == if k < |s| then s[k] else SPACE
  {
  }

  lemma To83Is(name: Name, b: nat)
    requires b == BaseEnd(name, 0)
    ensures b <= |name| && b <= 8 && To83(name) == Pad(name[..b], 8) + Pad(Ext(name), 3)
  {
  }

  function First(s: seq<byte>, n: nat): seq<byte> { if |s| <= n then s else s[..n] }

  /** The field of a name: its base and the first three bytes behind the dot, each padded with spaces, and no dot. */
  lemma FieldOfName(base: seq<byte>, dot: bool, ext: seq<byte>)
    requires |base| <= 8 && 0 !in base && 0 !in ext && 0x2E !in base && (ext != [] ==> dot)
    ensures To83(base + if dot then [0x2E] + ext else []) ==
      base + seq(8 - |base|, i => 0x20) + First(ext, 3) + seq(3 - |First(ext, 3)|, i => 0x20)
  {
    hide *;
    var name: Name := NameParts(base, dot, ext);
    FirstFits(ext);
    To83Is(name, |base|);
    PadIs(base, 8);
    PadIs(First(ext, 3), 3);
    assert base + seq<byte>(8 - |base|, i => 0x20) + (First(ext, 3) + seq<byte>(3 - |First(ext, 3)|, i => 0x20)) ==
      base + seq<byte>(8 - |base|, i => 0x20) + First(ext, 3) + seq<byte>(3 - |First(ext, 3)|, i => 0x20);
  }

  lemma FirstFits(s: seq<byte>)
    ensures |First(s, 3)| <= 3 && (|s| <= 3 ==> First(s, 3) == s)
  {
  }

  lemma NameParts(base: seq<byte>, dot: bool, ext: seq<byte>) returns (name: Name)
    requires |base| <= 8 && 0 !in base && 0 !in ext && 0x2E !in base && (ext != [] ==> dot)
    ensures name == base + (if dot then [0x2E] + ext else [])
    ensures BaseEnd(name, 0) == |base| && name[..|base|] == base && Ext(name) == First(ext, 3)
  {
    hide *;
    name := base + if dot then [0x2E] + ext else [];
    NameBase(name, base);
    if dot {
      assert name[|base| + 1..] == ext;
      ExtIs(name, |base|, |base| + 1);
    } else {
      assert name[|base|..] == [] && ext == [];
      ExtIs(name, |base|, |base|);
    }
  }

  lemma NameBase(name: Name, base: seq<byte>)
    requires |base| <= 8 && 0x2E !in base && base <= name && (|name| == |base| || name[|base|] == 0x2E)
    ensures BaseEnd(name, 0) == |base|
  {
    hide BaseEnd;
    forall k | 0 <= k < |base| ensures name[k] != 0x2E { assert name[k] == base[k] && base[k] in base; }
    BaseIs(name, 0, |base|);
  }

  /** A base of more than eight bytes runs over into the extension. */
  lemma RunsOver(name: Name)
    requires |name| > 8 && 0x2E !in name[..9]
    ensures To83(name) == name[..8] + First(name[8..], 3) + seq(3 - |First(name[8..], 3)|, i => 0x20)
  {
    hide BaseEnd, Ext, ExtStart, To83, Pad;
    assert forall k :: 0 <= k < 9 ==> name[k] == name[..9][k];
    BaseIs(name, 0, 8);
    ExtIs(name, 8, 8);
    To83Is(name, 8);
    PadIs(name[..8], 8);
    PadIs(First(name[8..], 3), 3);
    assert name[..8] + seq<byte>(0, i => 0x20) == name[..8];
    assert name[..8] + (First(name[8..], 3) + seq<byte>(3 - |First(name[8..], 3)|, i => 0x20)) ==
      name[..8] + First(name[8..], 3) + seq<byte>(3 - |First(name[8..], 3)|, i => 0x20);
  }

  lemma ExtIs(name: Name, b: nat, x: nat)
    requires b == BaseEnd(name, 0) && x == (if b < |name| && name[b] == 0x2E then b + 1 else b) && x <= |name|
    ensures Ext(name) == First(name[x..], 3)
  {
    hide BaseEnd;
  }

  lemma PadIs(s: seq<byte>, n: nat)
    requires |s| <= n
    ensures Pad(s, n) == s + seq<byte>(n - |s|, i => 0x20)
  {
  }

  method NormalTo83(name: Name, fatName: array<byte>)
    requires fatName.Length == 11
    modifies fatName
    ensures fatName[..] == To83(name)
  {
    hide Ext, To83, Pad;
    forall k | 0 <= k < 11 {
      fatName[k] := SPACE;
    }
    var i, j := 0, 0;
    while i < 8 && j < |name| && name[j] != DOT
      invariant i == j <= 8 && j <= |name| && BaseEnd(name, j) == BaseEnd(name, 0)
      invariant forall k :: 0 <= k < 11 ==> fatName[k] == if k < i then name[k] else SPACE
    {
      fatName[i] := name[j];
      i, j := i + 1, j + 1;
    }
    ghost var b := j;
    assert b == BaseEnd(name, 0);
    if j < |name| && name[j] == DOT {
      j := j + 1;
    }
    ghost var x := j;
    assert x == ExtStart(name);
    hide BaseEnd, ExtStart;
    i := 8;
    while i < 11 && j < |name|
      invariant 8 <= i <= 11 && x <= j <= |name| && j - x == i - 8
      invariant forall k :: 0 <= k < 8 ==> fatName[k] == if k < b then name[k] else SPACE
      invariant forall k :: 8 <= k < 11 ==> fatName[k] == if k < i then name[x + k - 8] else SPACE
    {
      fatName[i] := name[j];
      i, j := i + 1, j + 1;
    }
    To83At(name, b, x, j);
    SameField(fatName[..], To83(name));
  }

  lemma SameField(f: seq<byte>, g: seq<byte>)
    requires |f| == |g| == 11 && forall k :: 0 <= k < 11 ==> f[k] == g[k]
    ensures f == g
  {
  }

  /** The first space from `i` on, or `end`. */
  function SpaceAt(f: seq<byte>, i: nat, end: nat): (j: nat)
    requires i <= end <= |f|
    ensures i <= j <= end && (forall k :: i <= k < j ==> f[k] != SPACE) && (j < end ==> f[j] == SPACE)
    decreases end - i
  {
    if i < end && f[i] != SPACE then SpaceAt(f, i + 1, end) else i
  }

  /** The characters that are written for an 11-byte field. */
  function From83(f: seq<byte>): (s: seq<byte>)
    requires |f| == 11
    ensures |s| <= 12
  {
    f[..SpaceAt(f, 0, 8)] + if f[8] != SPACE then [DOT] + f[8..SpaceAt(f, 8, 11)] else []
  }

  /** Either loop of `_fat12_8_3to_normal`: copies up to the first space. */
  method CopyToSpace(f: seq<byte>, start: nat, end: nat, output: array<byte>, at: nat) returns (j: nat)
    requires start <= end <= |f| && at + (end - start) <= output.Length
    modifies output
    ensures j == at + (SpaceAt(f, start, end) - start) && output[..j] == old(output[..at]) + f[start..SpaceAt(f, start, end)]
  {
    var i := start;
    j := at;
    while i < end && f[i] != SPACE
      invariant start <= i <= end && j == at + (i - start) && SpaceAt(f, i, end) == SpaceAt(f, start, end)
      invariant output[..j] == old(output[..at]) + f[start..i]
    {
      output[j] := f[i];
      i, j := i + 1, j + 1;
      assert output[..j] == output[..j - 1] + [f[i - 1]] && f[start..i] == f[start..i - 1] + [f[i - 1]];
    }
  }

  method NormalFrom83(f: seq<byte>, output: array<byte>)
    requires |f| == 11 && output.Length >= 13
    modifies output
    ensures output[..|From83(f)| + 1] == From83(f) + [0]
  {
    hide SpaceAt;
    var j := CopyToSpace(f, 0, 8, output, 0);
    if f[8] != SPACE {
      output[j] := DOT;
      assert output[..j + 1] == f[..SpaceAt(f, 0, 8)] + [DOT];
      j := CopyToSpace(f, 8, 11, output, j + 1);
    }
    assert output[..j] == From83(f);
    output[j] := 0;
  }

  // ---------- Round trips ----------

  /** The name of a base and an extension. */
  function Joined(b: seq<byte>, x: seq<byte>): seq<byte> {
    b + if x == [] then [] else [DOT] + x
  }

  predicate Part(s: seq<byte>, n: nat) {
    |s| <= n && SPACE !in s && 0 !in s
  }

  /** The field of a base and an extension without spaces reads back as the two, with a dot before an extension. */
  lemma FromParts(b: seq<byte>, x: seq<byte>)
    requires |b| <= 8 && |x| <= 3 && SPACE !in b && SPACE !in x
    ensures From83(Pad(b, 8) + Pad(x, 3)) == Joined(b, x)
  {
    var f := Pad(b, 8) + Pad(x, 3);
    SpaceIs(f, 0, 8, |b|);
    SpaceIs(f, 8, 11, 8 + |x|);
    assert f[..|b|] == b && f[8..8 + |x|] == x;
  }

  lemma {:induction false} SpaceIs(f: seq<byte>, i: nat, end: nat, j: nat)
    requires i <= j <= end <= |f| && (forall k :: i <= k < j ==> f[k] != SPACE) && (j < end ==> f[j] == SPACE)
    ensures SpaceAt(f, i, end) == j
    decreases j - i
  {
    if i < j { SpaceIs(f, i + 1, end, j); }
  }

  lemma {:induction false} BaseIs(name: Name, i: nat, j: nat)
    requires i <= j <= |name| && j <= 8 && (forall k :: i <= k < j ==> name[k] != DOT) && (j == |name| || j == 8 || name[j] == DOT)
    ensures BaseEnd(name, i) == j
    decreases j - i
  {
    if i < j { BaseIs(name, i + 1, j); }
  }

  lemma NoSpaceFrom(f: seq<byte>)
    requires |f| == 11
    ensures SPACE !in From83(f)
  {
  }

  /** A name that a field can hold: no spaces, a base of up to eight characters, and a dot only before one to three others. */
  predicate ValidName(n: Name) {
    var j := BaseEnd(n, 0);
    SPACE !in n && (j == |n| || (n[j] == DOT && 2 <= |n| - j <= 4))
  }

  /** What comes back is the base and the extension: all of the name, when it is valid. */
  lemma JoinedIs(n: Name, j: nat, x: seq<byte>)
    requires SPACE !in n && j == BaseEnd(n, 0) && x == Ext(n)
    ensures Joined(n[..j], x) == n <==> ValidName(n)
  {
    hide BaseEnd;
    var r := Joined(n[..j], x);
    if j < |n| {
      if n[j] == DOT {
        if 2 <= |n| - j <= 4 {
          assert x == n[j + 1..] && n == n[..j] + [DOT] + x;
        } else {
          assert |r| != |n|;
        }
      } else {
        assert |x| > 0 && r[j] == DOT != n[j];
      }
    } else {
      assert x == [] && n[..j] == n;
    }
  }

  /** A name survives the way to a field and back exactly when it is valid. */
  lemma NameRoundTrip(n: Name)
    ensures From83(To83(n)) == n <==> ValidName(n)
  {
    if SPACE !in n {
      var j := BaseEnd(n, 0);
      FromParts(n[..j], Ext(n));
      JoinedIs(n, j, Ext(n));
      hide BaseEnd, Ext, From83, Pad, ValidName;
    } else {
      NoSpaceFrom(To83(n));
    }
  }

  /** A C string ends at its first NUL. */
  function CutAtNul(s: seq<byte>): Name {
    if s == [] || s[0] == 0 then [] else [s[0]] + CutAtNul(s[1..])
  }

  /** A field as it should be: base and extension padded with spaces behind, no NUL, no dot in the base. */
  predicate Padded(f: seq<byte>)
    requires |f| == 11
  {
    var a, b := SpaceAt(f, 0, 8), SpaceAt(f, 8, 11);
    && 0 !in f && DOT !in f[..a]
    && (forall k :: a <= k < 8 ==> f[k] == SPACE) && (forall k :: b <= k < 11 ==> f[k] == SPACE)
  }

  lemma {:induction false} CutNothing(s: Name)
    ensures CutAtNul(s) == s
  {
    if s != [] { CutNothing(s[1..]); }
  }

  lemma {:induction false} CutHasNoSpace(s: seq<byte>)
    requires SPACE !in s
    ensures SPACE !in CutAtNul(s)
  {
    if s != [] && s[0] != 0 { CutHasNoSpace(s[1..]); }
  }

  /** A field survives the way to a name and back exactly when it is padded properly. */
  lemma FieldRoundTrip(f: seq<byte>)
    requires |f| == 11
    ensures To83(CutAtNul(From83(f))) == f <==> Padded(f)
  {
    if Padded(f) {
      PaddedBack(f);
    } else {
      NoSpaceFrom(f);
      CutHasNoSpace(From83(f));
      FieldIsPadded(CutAtNul(From83(f)));
    }
  }

  lemma PadIsPadded(b: seq<byte>, x: seq<byte>)
    requires Part(b, 8) && Part(x, 3) && DOT !in b
    ensures Padded(Pad(b, 8) + Pad(x, 3))
  {
    var f := Pad(b, 8) + Pad(x, 3);
    assert f[..|b|] == b && f[8..8 + |x|] == x;
    assert forall k :: 0 <= k < |b| ==> f[k] in b;
    assert forall k :: 8 <= k < 8 + |x| ==> f[k] == x[k - 8] && x[k - 8] in x;
    SpaceIs(f, 0, 8, |b|);
    SpaceIs(f, 8, 11, 8 + |x|);
  }

  lemma FieldIsPadded(n: Name)
    requires SPACE !in n
    ensures Padded(To83(n))
  {
    PadIsPadded(n[..BaseEnd(n, 0)], Ext(n));
    hide Padded, Pad;
  }

  lemma PartsTo(b: seq<byte>, x: seq<byte>)
    requires Part(b, 8) && Part(x, 3) && DOT !in b
    ensures 0 !in Joined(b, x) && To83(Joined(b, x)) == Pad(b, 8) + Pad(x, 3)
  {
    var n := Joined(b, x);
    assert n[..|b|] == b;
    assert forall k :: 0 <= k < |b| ==> n[k] in b;
    BaseIs(n, 0, |b|);
    ExtOfJoined(b, x);
    hide Pad, Ext, BaseEnd;
  }

  lemma ExtOfJoined(b: seq<byte>, x: seq<byte>)
    requires Part(b, 8) && Part(x, 3) && 0 !in Joined(b, x) && BaseEnd(Joined(b, x), 0) == |b|
    ensures Ext(Joined(b, x)) == x
  {
    var n := Joined(b, x);
    hide BaseEnd;
    if x != [] {
      assert n[|b|] == DOT && ExtStart(n) == |b| + 1;
      assert n[|b| + 1..] == x;
    }
  }

  lemma PaddedBack(f: seq<byte>)
    requires |f| == 11 && Padded(f)
    ensures To83(CutAtNul(From83(f))) == f
  {
    var a, e := SpaceAt(f, 0, 8), SpaceAt(f, 8, 11);
    var b, x := f[..a], f[8..e];
    assert Part(b, 8) && Part(x, 3) && DOT !in b;
    assert From83(f) == Joined(b, x);
    assert Pad(b, 8) == f[..8] && Pad(x, 3) == f[8..];
    hide *;
    assert f[..8] + f[8..] == f;
    PartsTo(b, x);
    CutNothing(From83(f));
  }

  /** A valid name and a proper field belong together in either direction, so a lookup compares the right things. */
  lemma SameName(n: Name, f: seq<byte>)
    requires |f| == 11 && ValidName(n) && Padded(f)
    ensures To83(n) == f <==> CutAtNul(From83(f)) == n
  {
    NameRoundTrip(n);
    FieldRoundTrip(f);
    CutNothing(n);
  }
}
