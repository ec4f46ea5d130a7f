/** Bytes, and the little-endian fields that packed structures are made of. */
module Bytes {
  import Numerals

  type byte = b: int | 0 <= b < 0x100

  datatype Option<T> = None | Some(value: T)

  const TWO16 := 0x1_0000
  const TWO32 := Numerals.TWO32

  function U16(s: seq<byte>, i: nat): (r: nat)
    requires i + 2 <= |s|
    ensures r < TWO16
  {
    s[i] as int + 0x100 * (s[i + 1] as int)
  }

  function U32(s: seq<byte>, i: nat): (r: nat)
    requires i + 4 <= |s|
    ensures r < TWO32
  {
    U16(s, i) + TWO16 * U16(s, i + 2)
  }

  /** A 16-bit field, low byte first. */
  function Le16(x: nat): (s: seq<byte>)
    requires x < 0x1_0000
    ensures |s| == 2
  {
    [x % 0x100, x / 0x100]
  }

  /** A 32-bit field, low byte first. */
  function Le32(x: nat): (s: seq<byte>)
    requires x < 0x1_0000_0000
    ensures |s| == 4
  {
    [x % 0x100, x / 0x100 % 0x100, x / 0x1_0000 % 0x100, x / 0x100_0000]
  }

  lemma Field16(s: seq<byte>, i: nat, x: nat)
    requires x < 0x1_0000 && i + 2 <= |s| && s[i..i + 2] == Le16(x)
    ensures U16(s, i) == x
  {
    assert s[i] == s[i..i + 2][0] && s[i + 1] == s[i..i + 2][1];
  }

  lemma Field32(s: seq<byte>, i: nat, x: nat)
    requires x < 0x1_0000_0000 && i + 4 <= |s| && s[i..i + 4] == Le32(x)
    ensures U32(s, i) == x
  {
    assert s[i] == s[i..i + 4][0] && s[i + 1] == s[i..i + 4][1] && s[i + 2] == s[i..i + 4][2] && s[i + 3] == s[i..i + 4][3];
    FourBytes(x);
  }

  lemma FourBytes(x: nat)
    requires x < 0x1_0000_0000
    ensures x == x % 0x100 + 0x100 * (x / 0x100 % 0x100) + 0x1_0000 * (x / 0x1_0000 % 0x100 + 0x100 * (x / 0x100_0000))
  {
    var y, z := x / 0x100, x / 0x1_0000;
    assert z == y / 0x100 && x / 0x100_0000 == z / 0x100;
  }

  lemma DivMod(n: nat, d: nat)
    requires d > 0
    ensures n == n / d * d + n % d && n % d <= n && n % d < d
  {
    assert n / d * d >= 0;
  }

  lemma AtLeast(k: int, d: nat)
    requires k >= 1
    ensures k * d >= d
  {
    assert (k - 1) * d >= 0;
  }

  /** Quotient and remainder are unique. */
  lemma DivIs(n: int, d: nat, q: int, r: nat)
    requires d > 0 && n == q * d + r && r < d
    ensures n / d == q && n % d == r
  {
    var q' := n / d;
    assert n == q' * d + n % d;
    if q' > q {
      AtLeast(q' - q, d);
    } else if q' < q {
      AtLeast(q - q', d);
    }
  }
}
