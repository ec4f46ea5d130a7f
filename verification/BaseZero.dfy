/** Printing a number with libc/vsprintf.c and reading it back with `strtol` (libc/string.c) without telling it the base. */
module BaseZero {
  import opened Numerals
  import opened Vsprintf
  import opened Strtol
  import opened PrintParse

  // ---------- Digits read in a smaller base ----------

  /** The digits at the front of `s` that `base` has. */
  function Leading(s: string, base: int): (r: string)
    ensures r <= s && AllDigits(r, base)
  {
    if s == "" || !IsDigitOf(s[0], base) then "" else [s[0]] + Leading(s[1..], base)
  }

  /** What reading the digits `s` in `base` comes to, where the reading stops at the first digit that `base` lacks. */
  function ReadIn(s: string, base: nat): nat {
    Eval(Leading(s, base), base, 0)
  }

  lemma {:induction false} LeadingSnoc(s: string, c: char, base: int)
    ensures Leading(s + [c], base) ==
      if Leading(s, base) == s && IsDigitOf(c, base) then s + [c] else Leading(s, base)
  {
    if s == "" {
      assert [c][1..] == "" && "" + [c] == [c];
    } else {
      LeadingSnoc(s[1..], c, base);
      assert (s + [c])[1..] == s[1..] + [c];
      assert s == [s[0]] + s[1..];
    }
  }

  lemma ReadInSnoc(s: string, c: char, base: nat)
    ensures ReadIn(s + [c], base) ==
      if Leading(s, base) == s && IsDigitOf(c, base) then ReadIn(s, base) * base + DigitValue(c) else ReadIn(s, base)
  {
    LeadingSnoc(s, c, base);
    if Leading(s, base) == s && IsDigitOf(c, base) { EvalSnoc(s, c, base); }
  }

  lemma DigitOf(d: nat, small: bool, base: int)
    requires d < 16
    ensures DigitValue(DigitChar(d, small)) == d && (IsDigitOf(DigitChar(d, small), base) <==> d < base)
  {
  }

  lemma TimesMono(a: nat, b: nat, k: nat)
    requires a <= b
    ensures a * k <= b * k && k * a <= k * b
  {
    assert (b - a) * k >= 0;
    assert b * k == a * k + (b - a) * k;
  }

  lemma LessThan(v: nat, q: nat, r: nat, b: nat, base: nat)
    requires v <= q && 1 <= q && 2 <= b < base
    ensures v * b + r < q * base + r && v < q * base + r
  {
    TimesMono(v, q, b);
    TimesMono(b + 1, base, q);
    TimesMono(3, base, q);
  }

  /** Read in a smaller base, a numeral has a smaller value, unless it is a single digit of that base. */
  lemma {:induction false} SmallerBase(m: nat, base: nat, small: bool, b: nat)
    requires 2 <= b < base <= 16
    ensures ReadIn(Digits(m, base, small), b) <= m
    ensures ReadIn(Digits(m, base, small), b) == m <==> m < b
    decreases m
  {
    hide Digits, ReadIn, Leading, DigitChar, DigitValue, IsDigitOf;
    var q, r := m / base, m % base;
    DigitsUnfold(m, base, small);
    DigitOf(r, small, b);
    var front := if m < base then "" else Digits(q, base, small);
    ReadInSnoc(front, DigitChar(r, small), b);
    if m < base {
      NothingRead(b);
    } else {
      SmallerBase(q, base, small, b);
      LessThan(ReadIn(front, b), q, r, b, base);
    }
  }

  lemma NothingRead(base: nat)
    ensures Leading("", base) == "" && ReadIn("", base) == 0
  {
  }

  // ---------- Octal numerals read in base 10 ----------

  /** By how much the octal numeral of `m`, read in base 10, exceeds `m`. */
  function Excess(m: nat): nat {
    if m < 8 then 0 else 10 * Excess(m / 8) + 2 * (m / 8)
  }

  lemma {:induction false} OctalReadInTen(m: nat, small: bool)
    ensures AllDigits(Digits(m, 8, small), 10)
    ensures ReadIn(Digits(m, 8, small), 10) == m + Excess(m)
    decreases m
  {
    hide Digits, ReadIn, DigitChar, DigitValue, IsDigitOf;
    var q, r := m / 8, m % 8;
    DigitsUnfold(m, 8, small);
    DigitOf(r, small, 10);
    var front := if m < 8 then "" else Digits(q, 8, small);
    ReadInSnoc(front, DigitChar(r, small), 10);
    if m < 8 {
      NothingRead(10);
    } else {
      OctalReadInTen(q, small);
      AllLeading(front, 10);
    }
    AllDigitsSnoc(front, DigitChar(r, small), 10);
  }

  lemma {:induction false} AllLeading(s: string, base: int)
    ensures AllDigits(s, base) <==> Leading(s, base) == s
  {
    if s != "" {
      AllLeading(s[1..], base);
      assert s == [s[0]] + s[1..];
      if Leading(s, base) == s { assert Leading(s, base)[1..] == s[1..]; }
    }
  }

  lemma AllDigitsSnoc(s: string, c: char, base: int)
    requires AllDigits(s, base) && IsDigitOf(c, base)
    ensures AllDigits(s + [c], base)
  {
  }

  lemma {:induction false} ExcessGrows(m: nat, n: nat)
    requires m <= n
    ensures Excess(m) <= Excess(n)
  {
    if m >= 8 { ExcessGrows(m / 8, n / 8); }
  }

  lemma ExcessOf(q: nat, d: nat)
    requires 1 <= q && d < 8
    ensures Excess(8 * q + d) == 10 * Excess(q) + 2 * q
  {
    assert (8 * q + d) / 8 == q;
  }

  /** The excess of numerals of `c` and eight more digits, all of them 0 or all of them 7. */
  lemma ExcessEight(c: nat)
    requires 1 <= c
    ensures Excess(0x100_0000 * c) == 100_000_000 * Excess(c) + 83_222_784 * c
    ensures Excess(0x100_0000 * c + 0xFF_FFFF) == 100_000_000 * Excess(c) + 83_222_784 * c + 61_000_562
  {
    hide Excess;
    var z1, z2, z3, z4, z5, z6, z7 := 8 * c, 0x40 * c, 0x200 * c, 0x1000 * c, 0x8000 * c, 0x4_0000 * c, 0x20_0000 * c;
    ExcessOf(c, 0); ExcessOf(z1, 0); ExcessOf(z2, 0); ExcessOf(z3, 0);
    ExcessOf(z4, 0); ExcessOf(z5, 0); ExcessOf(z6, 0); ExcessOf(z7, 0);
    var s1, s2, s3, s4 := z1 + 7, z2 + 0x3F, z3 + 0x1FF, z4 + 0xFFF;
    var s5, s6, s7 := z5 + 0x7FFF, z6 + 0x3_FFFF, z7 + 0x1F_FFFF;
    ExcessOf(c, 7); ExcessOf(s1, 7); ExcessOf(s2, 7); ExcessOf(s3, 7);
    ExcessOf(s4, 7); ExcessOf(s5, 7); ExcessOf(s6, 7); ExcessOf(s7, 7);
  }

  /** Between the values of the numeral at `8^8 * lo` and before `8^8 * hi` the excess stays inside one multiple of 2^32. */
  lemma ExcessBetween(m: nat, lo: nat, hi: nat, k: nat)
    requires 1 <= lo && 2 <= hi && 0x100_0000 * lo <= m < 0x100_0000 * hi
    requires k * TWO32 < 100_000_000 * Excess(lo) + 83_222_784 * lo
    requires 100_000_000 * Excess(hi - 1) + 83_222_784 * (hi - 1) + 61_000_562 < (k + 1) * TWO32
    ensures Excess(m) % TWO32 != 0
  {
    hide Excess;
    ExcessEight(lo);
    ExcessEight(hi - 1);
    ExcessGrows(0x100_0000 * lo, m);
    ExcessGrows(m, 0x100_0000 * (hi - 1) + 0xFF_FFFF);
    NotMultiple(Excess(m), k);
  }

  lemma NotMultiple(x: nat, k: nat)
    requires k * TWO32 < x < (k + 1) * TWO32
    ensures x % TWO32 != 0
  {
    assert k * 0x1_0000_0000 < x < (k + 1) * 0x1_0000_0000;
  }

  /**
    The excess is never a multiple of 2^32 in 32 bits, so an octal numeral of two digits or more is read wrongly even
    where the accumulator wraps around.
   */
  lemma ExcessNoMultiple(m: nat)
    requires m < TWO32
    ensures Excess(m) % TWO32 == 0 <==> m < 8
  {
    if m >= 8 {
      SmallExcesses();
      if m < 0x2800_0000 {
        ExcessGrows(8, m);
        ExcessEight(0x27);
        ExcessGrows(m, 0x27FF_FFFF);
        NotMultiple(Excess(m), 0);
      } else if m < 0x4000_0000 { ExcessBetween(m, 0x28, 0x40, 1);
      } else if m < 0x6600_0000 { ExcessBetween(m, 0x40, 0x66, 2);
      } else if m < 0x8000_0000 { ExcessBetween(m, 0x66, 0x80, 3);
      } else if m < 0xA200_0000 { ExcessBetween(m, 0x80, 0xA2, 4);
      } else if m < 0xC000_0000 { ExcessBetween(m, 0xA2, 0xC0, 5);
      } else if m < 0xE000_0000 { ExcessBetween(m, 0xC0, 0xE0, 6);
      } else { ExcessBetween(m, 0xE0, 0x100, 7); }
    }
  }

  lemma SmallExcesses()
    ensures Excess(8) == 2 && Excess(0x27) == 8 && Excess(0x28) == 10 && Excess(0x3F) == 14 && Excess(0x40) == 36
    ensures Excess(0x65) == 44 && Excess(0x66) == 44 && Excess(0x7F) == 50 && Excess(0x80) == 72 && Excess(0xA1) == 80
    ensures Excess(0xA2) == 80 && Excess(0xBF) == 86 && Excess(0xC0) == 108 && Excess(0xDF) == 114 && Excess(0xE0) == 116
    ensures Excess(0xFF) == 122
  {
  }

  // ---------- Fields without a hexadecimal prefix ----------

  /** The base that `strtol` finds out for such a field. */
  function FoundBase(digits: string): int {
    if digits != "" && digits[0] == '0' then 8 else 10
  }

  lemma PlainBase(d: Field, base: int)
    requires d.Wf(base) && d.hex == ""
    ensures NUL !in d.Text()
    ensures DetectBase(d.Text(), d.HexAt(), 0) == (FoundBase(d.digits), if d.digits[0] == '0' then d.DigitsAt() + 1 else d.DigitsAt())
  {
    hide Repeat, Field.Text, AllDigits;
    DigitsAre(d, base);
    FieldParts(d, base);
    var s: CString := d.Text();
    var h := d.HexAt();
    assert s[h] == d.digits[0];
    if |d.digits| > 1 {
      assert s[h + 1] == d.digits[1] && IsDigitOf(d.digits[1], base);
    } else {
      assert d.tail != "" ==> s[h + 1] == s[d.TailAt()..][0] == d.tail[0];
    }
  }

  /** Reading stops behind the leading digits of `ds`. */
  lemma {:induction false} EndOfLeading(s: CString, i: nat, ds: string, b: int)
    requires i + |ds| <= |s| && s[i..i + |ds|] == ds && !IsDigitOf(At(s, i + |ds|), b)
    ensures DigitsEnd(s, i, b) == i + |Leading(ds, b)| && s[i..i + |Leading(ds, b)|] == Leading(ds, b)
    decreases |ds|
  {
    if ds != "" {
      assert s[i] == ds[0] && s[i + 1..i + 1 + |ds[1..]|] == ds[1..];
      if IsDigitOf(ds[0], b) {
        EndOfLeading(s, i + 1, ds[1..], b);
        assert s[i..i + |Leading(ds, b)|] == [s[i]] + s[i + 1..i + |Leading(ds, b)|];
      }
    }
  }

  lemma NoTailDigit(d: Field, base: int, b: int)
    requires d.Wf(base)
    ensures NUL !in d.Text() && d.TailAt() <= |d.Text()| && !IsDigitOf(At(d.Text(), d.TailAt()), b)
  {
    FieldParts(d, base);
    assert d.tail != "" ==> d.Text()[d.TailAt()] == d.Text()[d.TailAt()..][0] == d.tail[0];
  }

  /** A zero in front says which base, and adds nothing. */
  lemma ZeroAdds(ds: string, b: int)
    requires b >= 2 && ds != "" && ds[0] == '0'
    ensures ReadIn(ds, b) == ReadIn(ds[1..], b) && |Leading(ds, b)| == 1 + |Leading(ds[1..], b)|
  {
    assert Leading(ds, b)[1..] == Leading(ds[1..], b);
  }

  /** What `strtol` with base 0 makes of such a field. */
  lemma PlainRead(d: Field, base: int)
    requires d.Wf(base) && d.hex == ""
    ensures NUL !in d.Text()
    ensures var b := FoundBase(d.digits); var v := Wrap32(ReadIn(d.digits, b));
      Parse(d.Text(), 0) == (if d.sign == "-" then Wrap32(-v) else v, d.DigitsAt() + |Leading(d.digits, b)|)
  {
    hide *;
    FieldStart(d, base);
    FieldParts(d, base);
    HexBehindSign(d, base);
    PlainBase(d, base);
    var s: CString := d.Text();
    var b := FoundBase(d.digits);
    FoundBases(d.digits);
    NoTailDigit(d, base, b);
    NotEmpty(d, base);
    var zero := if d.digits[0] == '0' then 1 else 0;
    var ds := d.digits[zero..];
    if zero == 1 { ZeroAdds(d.digits, b); }
    Places(d);
    assert s[d.DigitsAt() + zero..d.TailAt()] == s[d.DigitsAt()..d.TailAt()][zero..];
    assert d.digits[0..] == d.digits;
    EndOfLeading(s, d.DigitsAt() + zero, ds, b);
    ReadInIs(ds, b);
    ParseSteps(s, 0, d.SignAt(), d.DigitsAt() + zero, d.DigitsAt() + zero + |Leading(ds, b)|, b);
  }

  lemma FoundBases(digits: string)
    ensures FoundBase(digits) == 8 || FoundBase(digits) == 10
    ensures digits != "" && digits[0] == '0' ==> FoundBase(digits) == 8
  {
  }

  lemma NotEmpty(d: Field, base: int)
    requires d.Wf(base)
    ensures d.digits != ""
  {
  }

  lemma Places(d: Field)
    ensures d.TailAt() == d.DigitsAt() + |d.digits| && d.DigitsAt() == d.HexAt() + |d.hex|
  {
  }

  lemma ReadInIs(ds: string, b: nat)
    ensures AllDigits(Leading(ds, b), b) && ReadIn(ds, b) == Eval(Leading(ds, b), b, 0)
  {
  }

  // ---------- Printed integers ----------

  lemma {:induction false} ZerosAdd(z: string, body: string, b: int)
    requires b >= 2 && forall k :: 0 <= k < |z| ==> z[k] == '0'
    ensures ReadIn(z + body, b) == ReadIn(body, b) && |Leading(z + body, b)| == |z| + |Leading(body, b)|
  {
    if z == "" {
      assert z + body == body;
    } else {
      assert (z + body)[1..] == z[1..] + body;
      ZerosAdd(z[1..], body, b);
      ZeroAdds(z + body, b);
    }
  }

  /** Whether reading the numeral of `m` in base `b` gives `m` again. */
  predicate SameIn(m: nat, base: int, b: int) {
    b == base || m < (if b < base then b else base)
  }

  /** The numeral of a 32-bit number read in base 8 or 10, with the accumulator wrapping around. */
  lemma NumeralIn(m: nat, base: int, small: bool, b: int)
    requires m < TWO32 && (base == 8 || base == 10 || base == 16) && (b == 8 || b == 10)
    ensures (ReadIn(Digits(m, base, small), b) - m) % TWO32 == 0 <==> SameIn(m, base, b)
    ensures SameIn(m, base, b) ==> |Leading(Digits(m, base, small), b)| == |Digits(m, base, small)|
  {
    hide Digits, Leading, Excess, Eval, AllDigits, IsDigitOf, DigitValue, DigitChar;
    var s := Digits(m, base, small);
    if b == base {
      EvalDigits(m, base, small);
      AllLeading(s, b);
    } else if b < base {
      SmallerBase(m, base, small, b);
      if m < b { OneDigit(m, base, small, b); }
    } else {
      OctalReadInTen(m, small);
      AllLeading(s, b);
      ExcessNoMultiple(m);
    }
  }

  lemma OneDigit(m: nat, base: int, small: bool, b: int)
    requires m < b < base <= 16
    ensures Leading(Digits(m, base, small), b) == Digits(m, base, small)
  {
    DigitsUnfold(m, base, small);
    DigitOf(m, small, b);
    LeadingSnoc("", DigitChar(m, small), b);
  }

  lemma Starts(m: nat, base: int, small: bool)
    requires 2 <= base <= 16
    ensures var s := Digits(m, base, small); s != "" && (s[0] == '0' <==> m == 0)
  {
    hide Digits;
    if m > 0 {
      LeadingDigit(m, base, small);
    } else {
      DigitsUnfold(m, base, small);
    }
  }

  lemma WrapsBack(num: int, f: Flags, v: int)
    ensures (if f.signed && num < 0 then Wrap32(-Wrap32(v)) else Wrap32(v)) == Wrap32(num) <==> (v - Magnitude(num, f)) % TWO32 == 0
  {
    hide Magnitude;
    var m := Magnitude(num, f);
    NegatedWrap(num, f);
    SameWrap(v, m);
    SameWrap(-Wrap32(v), -Wrap32(m));
    SameWrap(Wrap32(v), Wrap32(m));
  }

  lemma SameWrap(x: int, y: int)
    ensures Wrap32(x) == Wrap32(y) <==> (x - y) % TWO32 == 0
    ensures (x - y) % TWO32 == 0 <==> (-x - -y) % TWO32 == 0
  {
  }

  /** Zeros in front of the digits of the number: the octal prefix, and padding. */
  predicate Zeros(num: int, base: int, width: int, f: Flags)
    requires 2 <= base <= 16
  {
    (base == 8 && f.alternate) || (f.zeropad && !f.left && Pad(num, base, width, f) > 0)
  }

  /** When `strtol` with base 0 reads an octal, decimal or hexadecimal conversion back. */
  predicate ReadsBack(num: int, base: int, width: int, f: Flags)
    requires 2 <= base <= 16
  {
    var m, zeros := Magnitude(num, f), Zeros(num, base, width, f);
    if base == 8 then zeros || m <= 7
    else if base == 10 then !zeros || m <= 7
    else f.alternate || m <= 7 || (m <= 9 && !zeros)
  }

  /** The digits of the field: zeros, then the numeral. */
  lemma FieldDigits(num: int, base: int, width: int, f: Flags, rest: string, b: int)
    requires 2 <= base <= 16 && b >= 2
    ensures var ds, body := FieldOf(num, base, width, f, rest).digits, Body(num, base, f);
      && (ds != "" && (ds[0] == '0' <==> Zeros(num, base, width, f) || Magnitude(num, f) == 0))
      && ReadIn(ds, b) == ReadIn(body, b)
      && |Leading(ds, b)| - |ds| == |Leading(body, b)| - |body|
  {
    var zeros := (if base == 8 then Prefix(base, f) else "") + (if f.zeropad && !f.left then Repeat('0', Pad(num, base, width, f)) else "");
    Starts(Magnitude(num, f), base, f.small);
    var body := Body(num, base, f);
    hide Digits, ReadIn, Leading, Pad, Magnitude, Body;
    ZerosAdd(zeros, body, b);
  }

  lemma PlainAuto(num: int, base: int, width: int, f: Flags, rest: CString)
    requires base == 8 || base == 10 || (base == 16 && !f.alternate)
    requires rest == "" || DigitValue(rest[0]) < 0
    ensures var text := FieldOf(num, base, width, f, rest).Text();
      && NUL !in text
      && (Parse(text, 0).0 == Wrap32(num) <==> ReadsBack(num, base, width, f))
      && (ReadsBack(num, base, width, f) ==> Parse(text, 0).1 == Parse(text, base).1)
  {
    hide *;
    var d, m := FieldOf(num, base, width, f, rest), Magnitude(num, f);
    FieldWf(num, base, width, f, rest);
    FieldPlaces(num, base, width, f, rest);
    NoHex(num, base, width, f, rest);
    PlainRead(d, base);
    FieldRead(d, base);
    var b := FoundBase(d.digits);
    FoundBases(d.digits);
    FieldDigits(num, base, width, f, rest, b);
    BodyIs(num, base, f);
    NumeralIn(m, base, f.small, b);
    WrapsBack(num, f, ReadIn(d.digits, b));
    Places(d);
    Sizes();
    Conditions(num, base, width, f, d.digits);
  }

  lemma Sizes()
    ensures TWO32 == 0x1_0000_0000
  {
  }

  lemma NoHex(num: int, base: int, width: int, f: Flags, rest: string)
    requires 2 <= base <= 16 && (base == 16 ==> !f.alternate)
    ensures FieldOf(num, base, width, f, rest).hex == ""
  {
  }

  lemma Conditions(num: int, base: int, width: int, f: Flags, ds: string)
    requires base == 8 || base == 10 || (base == 16 && !f.alternate)
    requires ds != "" && (ds[0] == '0' <==> Zeros(num, base, width, f) || Magnitude(num, f) == 0)
    ensures ReadsBack(num, base, width, f) <==> SameIn(Magnitude(num, f), base, FoundBase(ds))
  {
    hide Zeros, Magnitude;
  }

  /**
    Round trip without telling `strtol` the base: the printed number is read back if and only if the text shows its
    base or the number is small enough for the base not to matter, and then the reading ends where it does with the
    base given. A zero in front always means octal.
   */
  lemma RoundTripAuto(num: int, base: int, width: int, f: Flags, rest: CString)
    requires base == 8 || base == 10 || base == 16
    requires rest == "" || DigitValue(rest[0]) < 0
    ensures var text := IntText(num, base, width, f) + rest;
      && NUL !in text
      && (Parse(text, 0).0 == Wrap32(num) <==> ReadsBack(num, base, width, f))
      && (ReadsBack(num, base, width, f) ==> Parse(text, 0) == Parse(text, base))
  {
    hide *;
    RoundTrip(num, base, width, f, rest);
    FieldText(num, base, width, f, rest);
    if base == 16 && f.alternate {
      FieldWf(num, base, width, f, rest);
      HexShown(num, base, width, f, rest);
      FieldReadAuto(FieldOf(num, base, width, f, rest), base);
    } else {
      PlainAuto(num, base, width, f, rest);
    }
  }

  lemma HexShown(num: int, base: int, width: int, f: Flags, rest: CString)
    requires base == 16 && f.alternate && FieldOf(num, base, width, f, rest).Wf(base)
    ensures ShowsBase(FieldOf(num, base, width, f, rest), base) && ReadsBack(num, base, width, f)
  {
  }

  /** `%03d` of 8 prints `008`, of which base 0 reads nothing but the zeros; `007` is read well. */
  lemma ZeroPaddedDecimalIsOctal(d: nat)
    requires d < 10
    ensures var text := IntText(d, 10, 3, NO_FLAGS.(zeropad := true));
      text == "00" + [DigitChar(d, false)] && Parse(text, 0) == if d < 8 then (d, 3) else (0, 2)
  {
    hide *;
    TwoZeros();
    OneDigitText(d);
    ReadAfterZeros(d);
  }

  lemma TwoZeros()
    ensures Repeat('0', 2) == "00" && NUL !in "00"
  {
    assert Repeat('0', 1) == "0" + Repeat('0', 0);
    assert Repeat('0', 2) == "0" + Repeat('0', 1);
  }

  lemma OneDigitText(d: nat)
    requires d < 10
    ensures IntText(d, 10, 3, NO_FLAGS.(zeropad := true)) == Repeat('0', 2) + [DigitChar(d, false)]
  {
    hide Repeat, DigitChar, Body, Head;
    OneDigitParts(d);
    assert "" + Repeat('0', 2) == Repeat('0', 2);
  }

  lemma OneDigitParts(d: nat)
    requires d < 10
    ensures var f := NO_FLAGS.(zeropad := true); Head(d, 10, f) == "" && Body(d, 10, f) == [DigitChar(d, false)]
  {
    hide Digits, DigitChar;
    DigitsUnfold(d, 10, false);
  }

  lemma ReadAfterZeros(n: nat)
    requires n < 10
    ensures NUL !in "00" + [DigitChar(n, false)]
    ensures Parse("00" + [DigitChar(n, false)], 0) == if n < 8 then (n, 3) else (0, 2)
  {
    var c := DigitChar(n, false);
    var d := Field(0, "", "", "00" + [c], "");
    DigitOf(n, false, 10);
    DigitOf(n, false, 8);
    NothingRead(8);
    LeadingSnoc("", c, 8);
    ReadInSnoc("", c, 8);
    hide DigitChar, Leading, ReadIn, Parse, Eval, Digits, DigitValue, Repeat;
    assert d.Text() == "00" + [c] by { assert Repeat(' ', 0) == "" by { NoBlanks(); } }
    PlainRead(d, 10);
    assert "" + [c] == [c];
    ZerosAdd("00", [c], 8);
  }

  lemma NoBlanks()
    ensures Repeat(' ', 0) == ""
  {
  }
}
