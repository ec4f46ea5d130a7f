/**
  libc/vsprintf.c: a six-state machine with character push-back that prints into a bounded buffer. `Render` is the
  reference: a recursive-descent reading of the same format that produces the whole, untruncated output.
 */
module Vsprintf {
  import opened Numerals

  // ---------- Output buffer ----------

  /**
    The buffer `buf` of `size` characters after the characters `out` have been put, when it held `orig` before:
    the characters that fit are in place, and nothing else has been touched.
   */
  ghost predicate Holds(buf: array?<char>, size: nat, out: string, orig: string)
    reads if buf == null then {} else {buf}
  {
    if buf == null then size == 0
    else
      && size <= buf.Length == |orig|
      && forall i :: 0 <= i < buf.Length ==> buf[i] == if i < |out| && i < size then out[i] else orig[i]
  }

  method Bputc(buf: array?<char>, pos: nat, max: nat, c: char, ghost out: string, ghost orig: string) returns (pos': nat)
    requires Holds(buf, max, out, orig) && pos == |out|
    modifies if buf == null then {} else {buf}
    ensures Holds(buf, max, out + [c], orig) && pos' == |out + [c]|
  {
    if pos < max {
      buf[pos] := c;
    }
    pos' := pos + 1;
  }

  // ---------- Conversions ----------

  datatype Flags = Flags(alternate: bool, zeropad: bool, left: bool, space: bool, plus: bool, signed: bool, small: bool)

  const NO_FLAGS := Flags(false, false, false, false, false, false, false)

  /** The unsigned 32-bit magnitude that `fmt_int` prints. */
  function Magnitude(num: int, f: Flags): (n: nat)
    ensures n < TWO32
  {
    if f.signed && num < 0 then (-num) % TWO32 else num % TWO32
  }

  function Sign(num: int, f: Flags): string {
    if f.signed && num < 0 then "-" else if f.plus then "+" else if f.space then " " else ""
  }

  function Prefix(base: int, f: Flags): string {
    if !f.alternate then ""
    else if base == 8 then "0"
    else if base == 16 then (if f.small then "0x" else "0X")
    else ""
  }

  function Head(num: int, base: int, f: Flags): (s: string)
    ensures |s| <= 3 && NUL !in s
  {
    Sign(num, f) + Prefix(base, f)
  }

  function Body(num: int, base: int, f: Flags): string
    requires 2 <= base <= 16
  {
    Digits(Magnitude(num, f), base, f.small)
  }

  /** The text of an integer conversion. */
  function IntText(num: int, base: int, width: int, f: Flags): string {
    if base < 2 || base > 16 then ""
    else
      var head, body := Head(num, base, f), Body(num, base, f);
      var pad := width - |head| - |body|;
      if f.left then head + body + Repeat(' ', pad)
      else if f.zeropad then head + Repeat('0', pad) + body
      else Repeat(' ', pad) + head + body
  }

  /** The text of a string or character conversion: `s` is padded to `width` on the side that `f` asks for. */
  function PadText(s: string, width: int, f: Flags): string {
    if f.left then s + Repeat(' ', width - |s|) else Repeat(' ', width - |s|) + s
  }

  /** The digit buffer in the order of printing: the digit put last comes first. */
  function DigitsOut(nbuf: string): (r: string)
    ensures |r| == |nbuf|
  {
    if nbuf == "" then "" else var last := |nbuf| - 1; [nbuf[last]] + DigitsOut(nbuf[..last])
  }

  lemma DigitPut(nbuf: string, c: char)
    ensures DigitsOut(nbuf + [c]) == [c] + DigitsOut(nbuf)
  {
    assert (nbuf + [c])[..|nbuf|] == nbuf;
  }

  lemma {:induction false} DigitOutAt(nbuf: string, k: nat)
    requires k < |nbuf|
    ensures DigitsOut(nbuf)[k] == nbuf[|nbuf| - 1 - k]
  {
    if k > 0 { DigitOutAt(nbuf[..|nbuf| - 1], k - 1); }
  }

  /** The digits still to print when `n` is what is left of the number. */
  function Unprinted(n: nat, base: nat, small: bool): string
    requires 2 <= base <= 16
  {
    if n == 0 then "" else Digits(n, base, small)
  }

  lemma LastDigit(n: nat, base: nat, small: bool)
    requires 2 <= base <= 16
    ensures 0 <= n % base < 16 && 0 <= n / base
    ensures Digits(n, base, small) == Unprinted(n / base, base, small) + [DigitChar(n % base, small)]
    ensures n > 0 ==> Unprinted(n, base, small) == Digits(n, base, small)
    ensures Unprinted(0, base, small) == ""
  {
    DivMod(n, base);
    var q := n / base;
    if q >= 1 { AtLeastOnce(q, base); }
  }

  /** Fills `nbuf` with the digits of `n`, least significant first; 32 places are always enough. */
  method PutDigits(nbuf: array<char>, n0: nat, base: nat, small: bool) returns (i: nat)
    requires nbuf.Length == 64 && 2 <= base <= 16 && n0 < TWO32
    modifies nbuf
    ensures 1 <= i <= 32 && DigitsOut(nbuf[..i]) == Digits(n0, base, small)
  {
    hide FitsIn, Digits, Unprinted;
    var n: nat := n0;
    i := 0;
    DivMod(n, base);
    LastDigit(n, base, small);
    OneDigitOff(0, n, n / base, n0);
    nbuf[i] := DigitChar(n % base, small);
    assert nbuf[..1] == [nbuf[0]];
    i, n := 1, n / base;
    while n > 0
      invariant 1 <= i <= 32 && FitsIn(i, n, n0)
      invariant Digits(n0, base, small) == Unprinted(n, base, small) + DigitsOut(nbuf[..i])
      decreases n
    {
      RoomForDigit(i, n, n0);
      DivMod(n, base);
      LastDigit(n, base, small);
      ghost var before := nbuf[..i];
      nbuf[i] := DigitChar(n % base, small);
      DigitPut(before, nbuf[i]);
      assert nbuf[..i + 1] == before + [nbuf[i]];
      OneDigitOff(i, n, n / base, n0);
      i, n := i + 1, n / base;
    }
  }

  function Pow2(k: nat): (r: nat)
    ensures r >= 1
  {
    if k == 0 then 1 else 2 * Pow2(k - 1)
  }

  lemma Pow2Of32()
    ensures Pow2(32) == TWO32
  {
    assert Pow2(8) == 256;
    assert Pow2(16) == 65536;
    assert Pow2(24) == 0x100_0000;
  }

  lemma {:induction false} Pow2Grows(k: nat, j: nat)
    requires k <= j
    ensures Pow2(k) <= Pow2(j)
    decreases j
  {
    if k < j { Pow2Grows(k, j - 1); }
  }

  /** After `i` digits of `n0`, in whatever base, `n` is what is left to print. */
  ghost predicate FitsIn(i: nat, n: nat, n0: nat) {
    Pow2(i) * n <= n0
  }

  lemma RoomForDigit(i: nat, n: nat, n0: nat)
    requires n > 0 && FitsIn(i, n, n0) && n0 < TWO32
    ensures i < 32
  {
    hide Pow2;
    AtLeastOnce(n, Pow2(i));
    Pow2Of32();
    if i >= 32 { Pow2Grows(32, i); }
  }

  lemma OneDigitOff(i: nat, n: nat, m: nat, n0: nat)
    requires ((i == 0 && n == n0) || FitsIn(i, n, n0)) && 2 * m <= n
    ensures FitsIn(i + 1, m, n0)
  {
    assert Pow2(i + 1) * m == Pow2(i) * (2 * m);
    assert Pow2(i) * (n - 2 * m) >= 0;
  }

  lemma {:induction false} RepeatMore(c: char, n: nat)
    ensures Repeat(c, n + 1) == Repeat(c, n) + [c]
  {
    if n > 0 { RepeatMore(c, n - 1); }
  }

  /** Puts `npad` copies of `c`; none if `npad` is not positive. */
  method PutPad(buf: array?<char>, pos0: nat, max: nat, c: char, npad0: int, ghost out: string, ghost orig: string) returns (pos: nat)
    requires Holds(buf, max, out, orig) && pos0 == |out|
    modifies if buf == null then {} else {buf}
    ensures Holds(buf, max, out + Repeat(c, npad0), orig) && pos == |out + Repeat(c, npad0)|
  {
    var npad := npad0;
    pos := pos0;
    ghost var put := "";
    assert out + put == out;
    while npad > 0
      invariant if npad0 > 0 then 0 <= npad <= npad0 else npad == npad0
      invariant put == Repeat(c, npad0 - npad)
      invariant Holds(buf, max, out + put, orig) && pos == |out + put|
    {
      pos := Bputc(buf, pos, max, c, out + put, orig);
      RepeatMore(c, npad0 - npad);
      assert out + put + [c] == out + (put + [c]);
      put := put + [c];
      npad := npad - 1;
    }
    assert put == Repeat(c, npad0);
  }

  /** Puts the characters of a C string held in a local array. */
  method PutLocal(buf: array?<char>, pos0: nat, max: nat, s: array<char>, ghost text: string, ghost out: string, ghost orig: string) returns (pos: nat)
    requires Holds(buf, max, out, orig) && pos0 == |out| && s != buf
    requires |text| < s.Length && s[..|text|] == text && s[|text|] == NUL && NUL !in text
    modifies if buf == null then {} else {buf}
    ensures Holds(buf, max, out + text, orig) && pos == |out + text|
  {
    var j := 0;
    pos := pos0;
    assert out + text[..0] == out;
    assert |text| > 0 ==> s[0] == s[..|text|][0] == text[0];
    while s[j] != NUL
      invariant 0 <= j <= |text| && s[..|text|] == text && s[|text|] == NUL
      invariant s[j] != NUL <==> j < |text|
      invariant Holds(buf, max, out + text[..j], orig) && pos == |out + text[..j]|
      decreases |text| - j
    {
      assert s[j] == text[j];
      pos := Bputc(buf, pos, max, s[j], out + text[..j], orig);
      assert out + text[..j] + [text[j]] == out + text[..j + 1];
      j := j + 1;
      assert j < |text| ==> s[j] == s[..|text|][j] == text[j];
    }
    assert text[..j] == text;
  }

  /** Puts the first `i` characters of a local array backwards. */
  method PutBackwards(buf: array?<char>, pos0: nat, max: nat, s: array<char>, i0: nat, ghost out: string, ghost orig: string) returns (pos: nat)
    requires Holds(buf, max, out, orig) && pos0 == |out| && s != buf && i0 <= s.Length
    modifies if buf == null then {} else {buf}
    ensures Holds(buf, max, out + DigitsOut(s[..i0]), orig) && pos == |out + DigitsOut(s[..i0])|
  {
    ghost var text := DigitsOut(s[..i0]);
    var i := i0;
    pos := pos0;
    assert out + text[..0] == out;
    while i > 0
      invariant 0 <= i <= i0 && text == DigitsOut(s[..i0])
      invariant Holds(buf, max, out + text[..i0 - i], orig) && pos == |out + text[..i0 - i]|
    {
      DigitOutAt(s[..i0], i0 - i);
      pos := Bputc(buf, pos, max, s[i - 1], out + text[..i0 - i], orig);
      assert out + text[..i0 - i] + [text[i0 - i]] == out + text[..i0 - i + 1];
      i := i - 1;
    }
    assert text[..i0] == text;
  }

  /** The sign and base prefix, as a C string in a local array. */
  method PutHead(altb: array<char>, num: int, base: int, f: Flags) returns (j: nat)
    requires altb.Length == 8
    modifies altb
    ensures var h := Head(num, base, f); j == |h| && altb[..j] == h && altb[j] == NUL
  {
    var sign := NUL;
    if f.signed && num < 0 {
      sign := '-';
    } else if f.plus {
      sign := '+';
    } else if f.space {
      sign := ' ';
    }
    j := 0;
    if sign != NUL {
      altb[j] := sign;
      j := j + 1;
    }
    assert altb[..j] == Sign(num, f);
    if f.alternate {
      if base == 8 || base == 16 {
        altb[j] := '0';
        j := j + 1;
        if base == 16 {
          altb[j] := if f.small then 'x' else 'X';
          j := j + 1;
        }
      }
    }
    assert altb[..j] == Head(num, base, f);
    altb[j] := NUL;
  }

  /** What precedes the digits when the field has `npad` characters to spare. */
  function Lead(head: string, npad: nat, zeropad: bool, left: bool): string {
    if left then head else if zeropad then head + Repeat('0', npad) else Repeat(' ', npad) + head
  }

  /** Puts padding and head in the order that the flags ask for. */
  method PutLead(buf: array?<char>, pos0: nat, max: nat, altb: array<char>, npad: nat, zeropad: bool, left: bool,
                 ghost head: string, ghost out: string, ghost orig: string) returns (pos: nat)
    requires Holds(buf, max, out, orig) && pos0 == |out| && altb != buf && altb.Length == 8
    requires |head| <= 3 && altb[..|head|] == head && altb[|head|] == NUL && NUL !in head
    modifies altb, if buf == null then {} else {buf}
    ensures Holds(buf, max, out + Lead(head, npad, zeropad, left), orig) && pos == |out + Lead(head, npad, zeropad, left)|
  {
    hide *;
    pos := pos0;
    LeadAssembled(out, head, npad, zeropad, left);
    if npad > 0 && !left {
      if zeropad {
        pos := PutLocal(buf, pos, max, altb, head, out, orig);
        altb[0] := NUL;
        pos := PutPad(buf, pos, max, '0', npad, out + head, orig);
        pos := PutLocal(buf, pos, max, altb, "", out + head + Repeat('0', npad), orig);
      } else {
        pos := PutPad(buf, pos, max, ' ', npad, out, orig);
        pos := PutLocal(buf, pos, max, altb, head, out + Repeat(' ', npad), orig);
      }
    } else {
      pos := PutLocal(buf, pos, max, altb, head, out, orig);
    }
  }

  lemma LeadAssembled(out: string, head: string, npad: nat, zeropad: bool, left: bool)
    ensures out + Lead(head, npad, zeropad, left) ==
      if npad == 0 || left then out + head
      else if zeropad then out + head + Repeat('0', npad) + ""
      else out + Repeat(' ', npad) + head
  {
    assert npad == 0 ==> head + "" == head && "" + head == head && Repeat('0', npad) == "" && Repeat(' ', npad) == "";
    hide Repeat;
    assert out + head + Repeat('0', npad) + "" == out + (head + Repeat('0', npad));
    assert out + Repeat(' ', npad) + head == out + (Repeat(' ', npad) + head);
  }

  method FmtInt(buf: array?<char>, pos0: nat, max: nat, num: int, base: int, width: int, f: Flags,
                ghost out: string, ghost orig: string) returns (pos: nat)
    requires Holds(buf, max, out, orig) && pos0 == |out|
    modifies if buf == null then {} else {buf}
    ensures Holds(buf, max, out + IntText(num, base, width, f), orig) && pos == |out + IntText(num, base, width, f)|
  {
    if base < 2 || base > 16 {
      assert out + "" == out;
      return pos0;
    }
    pos := FmtNumber(buf, pos0, max, num, base, width, f, out, orig);
  }

  lemma BodyIs(num: int, base: int, f: Flags)
    requires 2 <= base <= 16
    ensures Body(num, base, f) == Digits(Magnitude(num, f), base, f.small)
  {
  }

  /** `FmtInt` for a base it can print. */
  method FmtNumber(buf: array?<char>, pos0: nat, max: nat, num: int, base: int, width: int, f: Flags,
                   ghost out: string, ghost orig: string) returns (pos: nat)
    requires Holds(buf, max, out, orig) && pos0 == |out| && 2 <= base <= 16
    modifies if buf == null then {} else {buf}
    ensures Holds(buf, max, out + IntText(num, base, width, f), orig) && pos == |out + IntText(num, base, width, f)|
  {
    hide *;
    BodyIs(num, base, f);
    var zeropad := f.zeropad && !f.left;
    var nbuf := new char[64];
    var i := PutDigits(nbuf, Magnitude(num, f), base, f.small);
    var altb := new char[8](_ => NUL);
    var j := PutHead(altb, num, base, f);
    var npad := if width > i + j then width - i - j else 0;
    ghost var head := Head(num, base, f);
    ghost var lead := Lead(head, npad, zeropad, f.left);
    pos := PutLead(buf, pos0, max, altb, npad, zeropad, f.left, head, out, orig);
    pos := PutBackwards(buf, pos, max, nbuf, i, out + lead, orig);
    if npad > 0 && f.left {
      pos := PutPad(buf, pos, max, ' ', npad, out + lead + Body(num, base, f), orig);
    }
    IntTextAssembled(out, num, base, width, f);
  }

  lemma NoPad(c: char, pad: int, npad: nat)
    requires npad == if pad > 0 then pad else 0
    ensures Repeat(c, pad) == Repeat(c, npad) && (npad == 0 ==> Repeat(c, npad) == "")
  {
  }

  /** The pieces in the order in which `FmtInt` puts them. */
  lemma IntTextAssembled(out: string, num: int, base: int, width: int, f: Flags)
    requires 2 <= base <= 16
    ensures var head, body, t := Head(num, base, f), Body(num, base, f), out + IntText(num, base, width, f);
      var npad := if width > |body| + |head| then width - |body| - |head| else 0;
      var lead := Lead(head, npad, f.zeropad && !f.left, f.left);
      t == if npad > 0 && f.left then out + lead + body + Repeat(' ', npad) else out + lead + body
  {
    hide Head, Body, Repeat;
    var head, body := Head(num, base, f), Body(num, base, f);
    var npad := if width > |body| + |head| then width - |body| - |head| else 0;
    var lead := Lead(head, npad, f.zeropad && !f.left, f.left);
    assert IntText(num, base, width, f) == lead + body + (if npad > 0 && f.left then Repeat(' ', npad) else "") by {
      NoPad(' ', width - |head| - |body|, npad);
      NoPad('0', width - |head| - |body|, npad);
      assert head + body + "" == head + body && head + "" == head && "" + head == head;
    }
    hide *;
    assert out + lead + body + "" == out + lead + body;
    assert out + lead + body + Repeat(' ', npad) == out + (lead + body + Repeat(' ', npad));
    assert out + lead + body == out + (lead + body);
  }

  method FmtChr(buf: array?<char>, pos0: nat, max: nat, c: char, width: int, f: Flags, ghost out: string, ghost orig: string) returns (pos: nat)
    requires Holds(buf, max, out, orig) && pos0 == |out|
    modifies if buf == null then {} else {buf}
    ensures Holds(buf, max, out + PadText([c], width, f), orig) && pos == |out + PadText([c], width, f)|
  {
    pos := pos0;
    var npad := if width > 0 then width - 1 else 0;
    ghost var cur := out;
    if npad != 0 && !f.left {
      pos := PutPad(buf, pos, max, ' ', npad, cur, orig);
      cur := cur + Repeat(' ', npad);
      npad := -1;
    }
    pos := Bputc(buf, pos, max, c, cur, orig);
    cur := cur + [c];
    if npad != 0 && f.left {
      pos := PutPad(buf, pos, max, ' ', npad, cur, orig);
      cur := cur + Repeat(' ', npad);
    }
    assert cur == out + PadText([c], width, f);
  }

  method FmtStr(buf: array?<char>, pos0: nat, max: nat, s: CString, width: int, f: Flags, ghost out: string, ghost orig: string) returns (pos: nat)
    requires Holds(buf, max, out, orig) && pos0 == |out|
    modifies if buf == null then {} else {buf}
    ensures Holds(buf, max, out + PadText(s, width, f), orig) && pos == |out + PadText(s, width, f)|
  {
    pos := pos0;
    var npad := if width > 0 then width - |s| else 0;
    if npad < 0 {
      npad := 0;
    }
    ghost var cur := out;
    if npad != 0 && !f.left {
      pos := PutPad(buf, pos, max, ' ', npad, cur, orig);
      cur := cur + Repeat(' ', npad);
      npad := -1;
    }
    var k := 0;
    ghost var start := cur;
    assert start + s[..0] == start;
    assert |s| > 0 ==> s[0] in s;
    while At(s, k) != NUL
      invariant 0 <= k <= |s| && cur == start + s[..k]
      invariant At(s, k) != NUL <==> k < |s|
      invariant Holds(buf, max, cur, orig) && pos == |cur|
      decreases |s| - k
    {
      pos := Bputc(buf, pos, max, s[k], cur, orig);
      assert start + s[..k] + [s[k]] == start + s[..k + 1];
      cur := cur + [s[k]];
      k := k + 1;
      assert k < |s| ==> s[k] in s;
    }
    assert s[..k] == s;
    if npad != 0 && f.left {
      pos := PutPad(buf, pos, max, ' ', npad, cur, orig);
      cur := cur + Repeat(' ', npad);
    }
    assert cur == out + PadText(s, width, f);
  }

  // ---------- Arguments ----------

  /** One 4-byte slot of the argument area. */
  type Word = w: nat | w < 0x1_0000_0000 witness 0

  /** The argument area of a call, slot by slot, and the C string at each address. */
  datatype Args = Args(slot: nat -> Word, mem: nat -> CString)

  datatype Length = NoLength | Char | Short | Long | LongLong | Double

  function LongLongAt(args: Args, a: nat): int {
    var u := args.slot(a) + TWO32 * args.slot(a + 1);
    if u < TWO31 * TWO32 then u else u - TWO32 * TWO32
  }

  /** The length modifiers for which an integer conversion takes eight bytes; `h` alone is one of them. */
  predicate TakesTwoSlots(l: Length) {
    l == LongLong || l == Double || l == Char
  }

  predicate IsIntConversion(c: char) {
    c == 'd' || c == 'i' || c == 'o' || c == 'b' || c == 'u' || c == 'x' || c == 'X'
  }

  /** The number that an integer conversion prints, and the slot after it. */
  function FetchInt(c: char, l: Length, args: Args, a: nat): (int, nat) {
    if l == Long then (Wrap32(args.slot(a)), a + 1)
    else if TakesTwoSlots(l) then (LongLongAt(args, a), a + 2)
    else if c == 'd' || c == 'i' then (Wrap32(args.slot(a)), a + 1)
    else (args.slot(a), a + 1)
  }

  function BaseOf(c: char): (b: int)
    ensures 2 <= b <= 16
  {
    if c == 'x' || c == 'X' then 16 else if c == 'o' then 8 else if c == 'b' then 2 else 10
  }

  function IntFlags(c: char, f: Flags): Flags {
    if c == 'd' || c == 'i' then f.(signed := true) else if c == 'x' then f.(small := true) else f
  }

  function CharOf(w: Word): char {
    (w % 256) as char
  }

  // ---------- The reference: reading a format by recursive descent ----------

  /** How the output ends: at the end of the format, inside a directive, or at a NUL printed with `%c`. */
  datatype End = AtNul | CutShort | NulChar

  /** What a format prints, how it ends, and the first argument slot it has not used. */
  datatype Rendering = Rendering(text: string, end: End, next: nat)

  function Prepend(t: string, r: Rendering): Rendering {
    r.(text := t + r.text)
  }

  /** Everything that is put into the buffer: the terminator counts only when the format ends outside a directive. */
  function Output(r: Rendering): string {
    if r.end == AtNul then r.text + [NUL] else r.text
  }

  function Render(fmt: CString, i: nat, args: Args, a: nat): Rendering
    requires i <= |fmt|
    decreases |fmt| - i, 6
  {
    if i == |fmt| then Rendering("", AtNul, a)
    else if fmt[i] == '%' then FromFlags(fmt, i + 1, NO_FLAGS, args, a)
    else Prepend([fmt[i]], Render(fmt, i + 1, args, a))
  }

  predicate IsFlag(c: char) {
    c == '#' || c == '0' || c == '-' || c == ' ' || c == '+' || c == '\'' || c == 'I'
  }

  function AddFlag(f: Flags, c: char): Flags {
    match c
    case '#' => f.(alternate := true)
    case '0' => f.(zeropad := true)
    case '-' => f.(left := true)
    case ' ' => f.(space := true)
    case '+' => f.(plus := true)
    case _ => f
  }

  function FromFlags(fmt: CString, i: nat, f: Flags, args: Args, a: nat): Rendering
    requires i <= |fmt|
    decreases |fmt| - i, 5
  {
    if IsFlag(At(fmt, i)) then FromFlags(fmt, i + 1, AddFlag(f, fmt[i]), args, a)
    else FromWidth(fmt, i, f, 0, args, a)
  }

  function NumberEnd(fmt: CString, i: nat): (j: nat)
    requires i <= |fmt|
    ensures i <= j <= |fmt| && (IsDigit(At(fmt, i)) ==> i < j)
    decreases |fmt| - i
  {
    if IsDigit(At(fmt, i)) then NumberEnd(fmt, i + 1) else i
  }

  function Number(fmt: CString, i: nat, n: int): int
    requires i <= |fmt|
    decreases |fmt| - i
  {
    if IsDigit(At(fmt, i)) then Number(fmt, i + 1, n * 10 + (fmt[i] - '0') as int) else n
  }

  function FromWidth(fmt: CString, i: nat, f: Flags, width: int, args: Args, a: nat): Rendering
    requires i <= |fmt|
    decreases |fmt| - i, 4
  {
    var c := At(fmt, i);
    if c == '*' then
      var w := Wrap32(args.slot(a));
      FromWidth(fmt, i + 1, if w < 0 then f.(left := true) else f, if w < 0 then -w else w, args, a + 1)
    else if IsDigit(c) && c > '0' then FromWidth(fmt, NumberEnd(fmt, i), f, Number(fmt, i, 0), args, a)
    else FromPrecision(fmt, i, f, width, args, a)
  }

  /** The precision is skipped; after `.*` the star is left to be read again as a conversion. */
  function FromPrecision(fmt: CString, i: nat, f: Flags, width: int, args: Args, a: nat): Rendering
    requires i <= |fmt|
    decreases |fmt| - i, 3
  {
    if At(fmt, i) != '.' then FromLength(fmt, i, f, width, NoLength, args, a)
    else
      FromLength(fmt, NumberEnd(fmt, i + 1), f, width, NoLength, args, if At(fmt, i + 1) == '*' then a + 1 else a)
  }

  predicate IsLength(c: char) {
    c == 'h' || c == 'l' || c == 'L'
  }

  function AddLength(l: Length, c: char): Length {
    match c
    case 'h' => if l == Char then Short else Char
    case 'l' => if l == Long then LongLong else Long
    case _ => Double
  }

  function FromLength(fmt: CString, i: nat, f: Flags, width: int, l: Length, args: Args, a: nat): Rendering
    requires i <= |fmt|
    decreases |fmt| - i, 2
  {
    if IsLength(At(fmt, i)) then FromLength(fmt, i + 1, f, width, AddLength(l, fmt[i]), args, a)
    else FromConversion(fmt, i, f, width, l, args, a)
  }

  /** The text of one conversion, and the slot after its argument. */
  function Convert(c: char, f: Flags, width: int, l: Length, args: Args, a: nat): (string, nat) {
    if IsIntConversion(c) then
      var (num, a') := FetchInt(c, l, args, a);
      (IntText(num, BaseOf(c), width, IntFlags(c, f)), a')
    else if c == 'p' then (IntText(Wrap32(args.slot(a)), 16, width, f.(small := true, alternate := true)), a + 1)
    else if c == 's' then
      (PadText(if args.slot(a) == 0 then "(null)" else args.mem(args.slot(a)), width, f), a + 1)
    else if c == 'c' then (PadText([CharOf(args.slot(a))], width, f), a + 1)
    else if c == '%' then ("%", a)
    else (['%', c], a)
  }

  function FromConversion(fmt: CString, i: nat, f: Flags, width: int, l: Length, args: Args, a: nat): Rendering
    requires i <= |fmt|
    decreases |fmt| - i, 1
  {
    if i == |fmt| then Rendering("", CutShort, a)
    else
      var (text, a') := Convert(fmt[i], f, width, l, args, a);
      if fmt[i] == 'c' && CharOf(args.slot(a)) == NUL then Rendering(text, NulChar, a')
      else Prepend(text, Render(fmt, i + 1, args, a'))
  }

  // ---------- The state machine ----------

  datatype State = DefaultState | FlagState | WidthState | PrecisionState | LengthState | ConversionState

  /** What the machine still has to print from one of its states. */
  function Resume(state: State, fmt: CString, i: nat, f: Flags, width: int, l: Length, args: Args, a: nat): Rendering
    requires i <= |fmt|
  {
    match state
    case DefaultState => Render(fmt, i, args, a)
    case FlagState => FromFlags(fmt, i, f, args, a)
    case WidthState => FromWidth(fmt, i, f, width, args, a)
    case PrecisionState => FromPrecision(fmt, i, f, width, args, a)
    case LengthState => FromLength(fmt, i, f, width, l, args, a)
    case ConversionState => FromConversion(fmt, i, f, width, l, args, a)
  }

  /** States left before the conversion; a push-back always moves on to a state with fewer. */
  function Rank(state: State): nat {
    match state
    case DefaultState => 6
    case FlagState => 5
    case WidthState => 4
    case PrecisionState => 3
    case LengthState => 2
    case ConversionState => 1
  }

  method GetAtoi(fmt: CString, i0: nat) returns (i: nat, n: int)
    requires i0 <= |fmt|
    ensures i == NumberEnd(fmt, i0) && n == Number(fmt, i0, 0)
  {
    i, n := i0, 0;
    while IsDigit(At(fmt, i))
      invariant i <= |fmt| && NumberEnd(fmt, i) == NumberEnd(fmt, i0) && Number(fmt, i, n) == Number(fmt, i0, 0)
      decreases |fmt| - i
    {
      n := n * 10 + (fmt[i] - '0') as int;
      i := i + 1;
    }
  }

  /** The conversion state's work for the character `c`, which is not the terminator. */
  method PutConversion(buf: array?<char>, n0: nat, size: nat, c: char, f0: Flags, width: int, l: Length, args: Args, a0: nat,
                       ghost out: string, ghost orig: string) returns (n: nat, a: nat, last: char)
    requires Holds(buf, size, out, orig) && n0 == |out|
    modifies if buf == null then {} else {buf}
    ensures var (text, a') := Convert(c, f0, width, l, args, a0);
      Holds(buf, size, out + text, orig) && n == |out + text| && a == a'
    ensures last == if c == 'c' then CharOf(args.slot(a0)) else c
  {
    hide Holds, IntText, PadText;
    var f := f0;
    n, a, last := n0, a0, c;
    if IsIntConversion(c) {
      var num;
      if l == Long {
        num, a := Wrap32(args.slot(a)), a + 1;
      } else if TakesTwoSlots(l) {
        num, a := LongLongAt(args, a), a + 2;
      } else if c == 'd' || c == 'i' {
        num, a := Wrap32(args.slot(a)), a + 1;
      } else {
        num, a := args.slot(a), a + 1;
      }
      var base := 10;
      if c == 'd' || c == 'i' {
        f := f.(signed := true);
      } else if c == 'x' || c == 'X' {
        f := if c == 'x' then f.(small := true) else f;
        base := 16;
      } else if c == 'o' {
        base := 8;
      } else if c == 'b' {
        base := 2;
      }
      n := FmtInt(buf, n, size, num, base, width, f, out, orig);
    } else if c == 'p' {
      n := FmtInt(buf, n, size, Wrap32(args.slot(a)), 16, width, f.(small := true, alternate := true), out, orig);
      a := a + 1;
    } else if c == 's' {
      var s: CString := if args.slot(a) == 0 then "(null)" else args.mem(args.slot(a));
      n := FmtStr(buf, n, size, s, width, f, out, orig);
      a := a + 1;
    } else if c == 'c' {
      last := CharOf(args.slot(a));
      n := FmtChr(buf, n, size, last, width, f, out, orig);
      a := a + 1;
    } else if c == '%' {
      n := Bputc(buf, n, size, c, out, orig);
    } else {
      n := Bputc(buf, n, size, '%', out, orig);
      n := Bputc(buf, n, size, c, out + ['%'], orig);
      assert out + ['%'] + [c] == out + ['%', c];
    }
  }

  /** The buffer afterwards: `out` as far as it fits, and a terminator over its last character or at the end. */
  function Printed(orig: string, size: nat, out: string): (r: string)
    requires size <= |orig|
    ensures |r| == |orig|
  {
    if size == 0 then orig
    else
      var p := if 1 <= |out| <= size then |out| - 1 else size - 1;
      seq(|orig|, i requires 0 <= i < |orig| => if i == p then NUL else if i < p && i < |out| then out[i] else orig[i])
  }

  method Terminate(buf: array?<char>, n0: nat, size: nat, ghost out: string, ghost orig: string) returns (n: nat)
    requires Holds(buf, size, out, orig) && n0 == |out| && size < TWO32
    modifies if buf == null then {} else {buf}
    ensures buf != null ==> buf[..] == Printed(orig, size, out)
    ensures n == if n0 == 0 then TWO32 - 1 else n0 - 1
  {
    n := if n0 == 0 then TWO32 - 1 else n0 - 1;
    if n < size {
      buf[n] := NUL;
    } else if size > 0 {
      buf[size - 1] := NUL;
    }
  }

  /** The work of the states between `%` and the conversion, for the character `c` that has just been read. */
  method ReadDirective(state0: State, c: char, fmt: CString, i0: nat, f0: Flags, width0: int, l0: Length, args: Args, a0: nat)
    returns (state: State, i: nat, f: Flags, width: int, l: Length, a: nat)
    requires state0 != DefaultState && state0 != ConversionState && 1 <= i0 <= |fmt| + 1 && c == At(fmt, i0 - 1)
    ensures i <= |fmt|
    ensures Resume(state, fmt, i, f, width, l, args, a) == Resume(state0, fmt, i0 - 1, f0, width0, l0, args, a0)
    ensures i >= i0 || (i == i0 - 1 && Rank(state) < Rank(state0))
    ensures state == ConversionState ==> i == i0 - 1
    ensures state != DefaultState
  {
    state, i, f, width, l, a := state0, i0, f0, width0, l0, a0;
    match state
    case FlagState =>
      if IsFlag(c) {
        f := AddFlag(f, c);
      } else {
        i := i - 1;
        width, state := 0, WidthState;
      }
    case WidthState =>
      if c == '*' {
        width, a := Wrap32(args.slot(a)), a + 1;
        if width < 0 {
          width, f := -width, f.(left := true);
        }
      } else if IsDigit(c) && c > '0' {
        i := i - 1;
        i, width := GetAtoi(fmt, i);
      } else {
        i := i - 1;
        state := PrecisionState;
      }
    case PrecisionState =>
      if c == '.' {
        if IsDigit(At(fmt, i)) {
          var precision;
          i, precision := GetAtoi(fmt, i);
        } else if At(fmt, i) == '*' {
          a := a + 1;
        }
      } else {
        i := i - 1;
      }
      l, state := NoLength, LengthState;
    case LengthState =>
      if IsLength(c) {
        l := AddLength(l, c);
      } else {
        i := i - 1;
        state := ConversionState;
      }
  }

  /**
    For every format and every argument area, the machine terminates, reads no character behind the terminator of the
    format, writes only within the first `size0` characters of the buffer, and prints what `Render` says.
   */
  method Vsnprintf(buf: array?<char>, size0: nat, fmt: CString, args: Args) returns (ret: int)
    requires (buf != null ==> size0 <= buf.Length) && size0 < TWO32
    modifies if buf == null then {} else {buf}
    ensures ret == Wrap32(|Output(Render(fmt, 0, args, 0))| - 1)
    ensures buf != null ==> buf[..] == Printed(old(buf[..]), size0, Output(Render(fmt, 0, args, 0)))
  {
    hide Holds, Printed;
    var size := if buf == null then 0 else size0;
    ghost var orig := if buf == null then "" else buf[..];
    ghost var all := Render(fmt, 0, args, 0);
    ghost var out := "";
    Untouched(buf, size, orig);
    var n: nat, i: nat, a: nat := 0, 0, 0;
    var state, f, width, l := DefaultState, NO_FLAGS, 0, NoLength;
    PrependNothing(all);
    while true
      invariant i <= |fmt| && n == |out| && Holds(buf, size, out, orig)
      invariant state == ConversionState ==> i < |fmt|
      invariant Prepend(out, Resume(state, fmt, i, f, width, l, args, a)) == all
      decreases |fmt| - i, Rank(state)
    {
      var c := At(fmt, i);
      assert i < |fmt| <==> c != NUL by { assert i < |fmt| ==> fmt[i] in fmt; }
      if state != DefaultState && i == |fmt| {
        EndsInside(state, fmt, f, width, l, args, a);
        assert out + "" == out;
      }
      i := i + 1;
      match state {
        case DefaultState =>
          if c == '%' {
            state, f := FlagState, NO_FLAGS;
          } else {
            n := Bputc(buf, n, size, c, out, orig);
            PrependMore(out, [c], Rendering("", AtNul, a));
            if c != NUL { PrependMore(out, [c], Render(fmt, i, args, a)); }
            out := out + [c];
          }
        case ConversionState =>
          ghost var piece := Convert(c, f, width, l, args, a);
          PrependMore(out, piece.0, Render(fmt, i, args, piece.1));
          n, a, c := PutConversion(buf, n, size, c, f, width, l, args, a, out, orig);
          out := out + piece.0;
          state := DefaultState;
        case _ =>
          state, i, f, width, l, a := ReadDirective(state, c, fmt, i, f, width, l, args, a);
      }
      if c == NUL {
        break;
      }
    }
    assert out == Output(all);
    n := Terminate(buf, n, size, out, orig);
    ret := Wrap32(n);
  }

  lemma EndsInside(state: State, fmt: CString, f: Flags, width: int, l: Length, args: Args, a: nat)
    requires state != DefaultState
    ensures var r := Resume(state, fmt, |fmt|, f, width, l, args, a); r.text == "" && r.end == CutShort
  {
    var n := |fmt|;
    var w := if state == FlagState then 0 else width;
    var cut := Rendering("", CutShort, a);
    assert FromConversion(fmt, n, f, w, NoLength, args, a) == FromConversion(fmt, n, f, width, l, args, a) == cut;
    assert FromLength(fmt, n, f, w, NoLength, args, a) == FromLength(fmt, n, f, width, l, args, a) == cut;
    assert FromPrecision(fmt, n, f, w, args, a) == FromLength(fmt, n, f, w, NoLength, args, a);
    assert FromWidth(fmt, n, f, w, args, a) == FromPrecision(fmt, n, f, w, args, a);
  }

  lemma Untouched(buf: array?<char>, size: nat, orig: string)
    requires orig == if buf == null then "" else buf[..]
    requires if buf == null then size == 0 else size <= buf.Length
    ensures Holds(buf, size, "", orig)
  {
  }

  lemma PrependNothing(r: Rendering)
    ensures Prepend("", r) == r
  {
    assert "" + r.text == r.text;
  }

  lemma PrependMore(s: string, t: string, r: Rendering)
    ensures Prepend(s, Prepend(t, r)) == Prepend(s + t, r)
  {
    assert s + (t + r.text) == s + t + r.text;
  }
}
