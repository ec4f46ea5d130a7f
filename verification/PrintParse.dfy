/** Printing a number with libc/vsprintf.c and reading it back with libc/string.c. */
module PrintParse {
  import opened Numerals
  import opened Vsprintf
  import opened Strtol

  // ---------- The shape of a printed integer ----------

  /** An integer conversion fills its field exactly, or overflows it by as little as the number needs. */
  lemma IntTextLength(num: int, base: int, width: int, f: Flags)
    requires 2 <= base <= 16
    ensures var need := |Head(num, base, f)| + |Body(num, base, f)|;
      |IntText(num, base, width, f)| == if width > need then width else need
  {
  }

  /** The digits evaluate to the magnitude, and there are at most 32 of them. */
  lemma BodyValue(num: int, base: int, f: Flags)
    requires 2 <= base <= 16
    ensures var body := Body(num, base, f); AllDigits(body, base) && Eval(body, base, 0) == Magnitude(num, f)
  {
    EvalDigits(Magnitude(num, f), base, f.small);
  }

  // ---------- Reading ----------

  lemma {:induction false} SpacesSkipped(s: CString, i: nat, j: nat)
    requires i <= j <= |s| && (forall k :: i <= k < j ==> s[k] == ' ') && !IsSpace(At(s, j))
    ensures SpaceEnd(s, i) == j
    decreases j - i
  {
    if i < j { SpacesSkipped(s, i + 1, j); }
  }

  lemma DigitsRead(s: CString, i: nat, ds: string, base: int)
    requires i + |ds| <= |s| && s[i..i + |ds|] == ds && AllDigits(ds, base) && !IsDigitOf(At(s, i + |ds|), base)
    ensures DigitsEnd(s, i, base) == i + |ds|
  {
    SameEnd(s, i, i + |ds|, base);
  }

  lemma NegatedWrap(num: int, f: Flags)
    ensures f.signed && num < 0 ==> Wrap32(-Wrap32(Magnitude(num, f))) == Wrap32(num)
    ensures !(f.signed && num < 0) ==> Wrap32(Magnitude(num, f)) == Wrap32(num)
  {
    if f.signed && num < 0 {
      var m := Magnitude(num, f);
      var k := (-num - m) / TWO32;
      assert -num == m + k * TWO32;
      var j := (m - Wrap32(m)) / TWO32;
      assert m == Wrap32(m) + j * TWO32;
      assert -Wrap32(m) - num == (k + j) * TWO32;
      CongruentWrap(-Wrap32(m), num);
    } else {
      CongruentWrap(Magnitude(num, f), num);
    }
  }

  /** A field in the order of its parts; `digits` holds the zero padding as well. */
  datatype Field = Field(spaces: nat, sign: string, hex: string, digits: string, tail: string) {
    predicate Wf(base: int) {
      && 2 <= base <= 16
      && (sign == "" || sign == "-" || sign == "+")
      && (hex == "" || (base == 16 && (hex == "0x" || hex == "0X")))
      && digits != "" && AllDigits(digits, base)
      && NUL !in tail && (tail == "" || DigitValue(tail[0]) < 0)
    }

    function Text(): string {
      Repeat(' ', spaces) + sign + hex + digits + tail
    }

    function SignAt(): nat { spaces }
    function HexAt(): nat { spaces + |sign| }
    function DigitsAt(): nat { spaces + |sign| + |hex| }
    function TailAt(): nat { spaces + |sign| + |hex| + |digits| }
  }

  lemma FiveParts(a: string, b: string, c: string, d: string, e: string)
    ensures var s := a + b + c + d + e; var i, j, k, l := |a|, |a| + |b|, |a| + |b| + |c|, |a| + |b| + |c| + |d|;
      s[..i] == a && s[i..j] == b && s[j..k] == c && s[k..l] == d && s[l..] == e
  {
  }

  lemma NoNulFive(a: string, b: string, c: string, d: string, e: string)
    requires NUL !in a && NUL !in b && NUL !in c && NUL !in d && NUL !in e
    ensures NUL !in a + b + c + d + e
  {
  }

  lemma NoNulParts(d: Field, base: int)
    requires d.Wf(base)
    ensures NUL !in Repeat(' ', d.spaces) && NUL !in d.sign && NUL !in d.hex && NUL !in d.digits && NUL !in d.tail
    ensures forall k :: 0 <= k < d.spaces ==> Repeat(' ', d.spaces)[k] == ' '
  {
  }

  lemma FieldParts(d: Field, base: int)
    requires d.Wf(base)
    ensures var s := d.Text();
      && |s| == d.TailAt() + |d.tail| && NUL !in s
      && (forall k :: 0 <= k < d.SignAt() ==> s[k] == ' ')
      && s[d.SignAt()..d.HexAt()] == d.sign && s[d.HexAt()..d.DigitsAt()] == d.hex
      && s[d.DigitsAt()..d.TailAt()] == d.digits && s[d.TailAt()..] == d.tail
  {
    hide Field.Wf, Repeat, AllDigits;
    var blank := Repeat(' ', d.spaces);
    NoNulParts(d, base);
    NoNulFive(blank, d.sign, d.hex, d.digits, d.tail);
    FiveParts(blank, d.sign, d.hex, d.digits, d.tail);
    assert forall k :: 0 <= k < d.spaces ==> d.Text()[k] == d.Text()[..d.spaces][k];
  }

  /** `strtol` in the base of a field reads its digits, all of them and nothing else. */
  lemma FieldRead(d: Field, base: int)
    requires d.Wf(base)
    ensures NUL !in d.Text()
    ensures var v := Wrap32(Eval(d.digits, base, 0));
      Parse(d.Text(), base) == (if d.sign == "-" then Wrap32(-v) else v, d.TailAt())
  {
    FieldParts(d, base);
    FieldStart(d, base);
    HexSkipped(d, base);
    AfterDigits(d, base);
    hide Repeat, IsDigitOf, Eval, Wrap32, At, DetectBase, SpaceEnd;
    var s: CString := d.Text();
    assert DigitsEnd(s, d.DigitsAt(), base) == d.TailAt() by { DigitsRead(s, d.DigitsAt(), d.digits, base); }
    ParseSteps(s, base, d.SignAt(), d.DigitsAt(), d.TailAt(), base);
  }

  /** `Parse`, given the places where its parts begin. */
  lemma ParseSteps(s: CString, base: int, sign: nat, digits: nat, end: nat, b: int)
    requires b >= 0 && SpaceEnd(s, 0) == sign
    requires var k := if At(s, sign) == '-' || At(s, sign) == '+' then sign + 1 else sign;
      k <= |s| && DetectBase(s, k, base) == (b, digits)
    requires digits <= |s| && DigitsEnd(s, digits, b) == end
    ensures var v := Wrap32(Eval(s[digits..end], b, 0));
      Parse(s, base) == (if At(s, sign) == '-' then Wrap32(-v) else v, end)
  {
  }

  /** Behind the spaces of a field comes its sign, or a digit. */
  lemma FieldStart(d: Field, base: int)
    requires d.Wf(base)
    ensures NUL !in d.Text() && SpaceEnd(d.Text(), 0) == d.SignAt()
    ensures At(d.Text(), d.SignAt()) == '-' <==> d.sign == "-"
    ensures At(d.Text(), d.SignAt()) == '+' <==> d.sign == "+"
  {
    FieldParts(d, base);
    var s: CString := d.Text();
    assert d.sign != "" ==> s[d.SignAt()] == d.sign[0];
    assert d.hex != "" ==> s[d.HexAt()] == d.hex[0];
    assert s[d.DigitsAt()] == d.digits[0];
    assert IsDigitOf(d.digits[0], base);
    SpacesSkipped(s, 0, d.SignAt());
  }

  lemma AfterDigits(d: Field, base: int)
    requires d.Wf(base)
    ensures NUL !in d.Text() && !IsDigitOf(At(d.Text(), d.TailAt()), base)
  {
    FieldParts(d, base);
    assert d.tail != "" ==> d.Text()[d.TailAt()] == d.Text()[d.TailAt()..][0] == d.tail[0];
  }

  lemma DigitsAre(d: Field, base: int)
    requires d.Wf(base)
    ensures |d.digits| > 0 && forall k :: 0 <= k < |d.digits| ==> IsDigitOf(d.digits[k], base)
  {
  }

  /** A hexadecimal prefix is skipped, and nothing else is taken for one. */
  lemma HexSkipped(d: Field, base: int)
    requires d.Wf(base)
    ensures NUL !in d.Text() && DetectBase(d.Text(), d.HexAt(), base) == (base, d.DigitsAt())
  {
    hide Repeat, Field.Text, AllDigits;
    DigitsAre(d, base);
    FieldParts(d, base);
    var s: CString := d.Text();
    var h := d.HexAt();
    if d.hex != "" {
      assert s[h] == d.hex[0] && s[h + 1] == d.hex[1];
    } else if |d.digits| > 1 {
      assert s[h + 1] == d.digits[1] && IsDigitOf(d.digits[1], base);
    } else {
      AfterDigits(d, base);
      assert d.tail != "" ==> s[h + 1] == s[d.TailAt()..][0] == d.tail[0];
    }
  }

  // ---------- Printed integers are such fields ----------

  /** The characters that padding adds to the text of an integer. */
  function Pad(num: int, base: int, width: int, f: Flags): nat
    requires 2 <= base <= 16
  {
    var need := |Head(num, base, f)| + |Body(num, base, f)|;
    if width > need then width - need else 0
  }

  function FieldOf(num: int, base: int, width: int, f: Flags, rest: string): Field
    requires 2 <= base <= 16
  {
    var pad, sign, prefix := Pad(num, base, width, f), Sign(num, f), Prefix(base, f);
    var blank := if sign == " " then 1 else 0;
    Field(
      if f.left || f.zeropad then blank else pad + blank,
      if sign == " " then "" else sign,
      if base == 16 then prefix else "",
      (if base == 8 then prefix else "") + (if f.zeropad && !f.left then Repeat('0', pad) else "") + Body(num, base, f),
      (if f.left then Repeat(' ', pad) else "") + rest)
  }

  lemma RepeatPlus(c: char, m: nat)
    ensures Repeat(c, m + 1) == Repeat(c, m) + [c] && Repeat(c, 1) == [c] && Repeat(c, 0) == ""
  {
    RepeatMore(c, m);
    assert Repeat(c, 1) == [c] + Repeat(c, 0);
  }

  /** The text of an integer, part by part. */
  lemma IntTextParts(num: int, base: int, width: int, f: Flags)
    requires 2 <= base <= 16
    ensures var pad := Pad(num, base, width, f);
      var lead := if f.left || f.zeropad then "" else Repeat(' ', pad);
      var zeros := if f.zeropad && !f.left then Repeat('0', pad) else "";
      var trail := if f.left then Repeat(' ', pad) else "";
      IntText(num, base, width, f) == lead + (Sign(num, f) + Prefix(base, f)) + zeros + Body(num, base, f) + trail
  {
    var pad, head, body := Pad(num, base, width, f), Head(num, base, f), Body(num, base, f);
    var raw := width - |head| - |body|;
    assert Repeat(' ', raw) == Repeat(' ', pad) && Repeat('0', raw) == Repeat('0', pad) by {
      if raw < 0 { assert Repeat(' ', raw) == "" == Repeat(' ', 0) && Repeat('0', raw) == "" == Repeat('0', 0); }
    }
    hide Repeat, Body, Sign, Prefix;
    assert "" + head == head && head + "" == head;
    assert head + body + Repeat(' ', pad) == "" + head + "" + body + Repeat(' ', pad);
    assert head + Repeat('0', pad) + body == "" + head + Repeat('0', pad) + body + "";
    assert Repeat(' ', pad) + head + body == Repeat(' ', pad) + head + "" + body + "";
  }

  lemma Regroup(lead: string, sign: string, prefix: string, zeros: string, body: string, trail: string, rest: string)
    ensures (lead + sign) + prefix + (zeros + body) + (trail + rest) == lead + (sign + prefix) + zeros + body + trail + rest
    ensures (lead + sign) + "" + (prefix + zeros + body) + (trail + rest) == lead + (sign + prefix) + zeros + body + trail + rest
  {
    assert (lead + sign) + prefix == lead + (sign + prefix);
    assert lead + (sign + prefix) + (zeros + body) == lead + (sign + prefix) + zeros + body;
    var front := lead + (sign + prefix) + zeros + body;
    assert front + (trail + rest) == front + trail + rest;
    assert (lead + sign) + "" + (prefix + zeros + body) == front;
  }

  lemma FieldText(num: int, base: int, width: int, f: Flags, rest: string)
    requires 2 <= base <= 16
    ensures FieldOf(num, base, width, f, rest).Text() == IntText(num, base, width, f) + rest
  {
    var pad, sign, prefix, body := Pad(num, base, width, f), Sign(num, f), Prefix(base, f), Body(num, base, f);
    RepeatPlus(' ', pad);
    RepeatPlus(' ', 0);
    IntTextParts(num, base, width, f);
    hide Repeat, Body, IntText, Pad;
    var d := FieldOf(num, base, width, f, rest);
    var lead := if f.left || f.zeropad then "" else Repeat(' ', pad);
    var zeros := if f.zeropad && !f.left then Repeat('0', pad) else "";
    var trail := if f.left then Repeat(' ', pad) else "";
    Regroup(lead, sign, prefix, zeros, body, trail, rest);
    assert Repeat(' ', d.spaces) + d.sign == lead + sign;
    assert "" + zeros + body == zeros + body;
  }

  lemma TailWf(n: nat, left: bool, rest: CString)
    requires rest == "" || DigitValue(rest[0]) < 0
    ensures var tail := (if left then Repeat(' ', n) else "") + rest;
      NUL !in tail && (tail == "" || DigitValue(tail[0]) < 0)
  {
  }

  /** Leading zeros, of the octal prefix and of the padding, do not change the value of a numeral. */
  lemma ZerosRead(octal: bool, n: nat, padded: bool, body: string, base: nat)
    requires base >= 2 && AllDigits(body, base)
    ensures var digits := (if octal then "0" else "") + (if padded then Repeat('0', n) else "") + body;
      AllDigits(digits, base) && Eval(digits, base, 0) == Eval(body, base, 0)
  {
    var zeros := if padded then Repeat('0', n) else "";
    EvalZeros(n, base);
    EvalConcat(zeros, body, base, 0);
    if octal {
      EvalOne("0", base, 0);
      EvalConcat("0", zeros + body, base, 0);
      assert "0" + zeros + body == "0" + (zeros + body);
    } else {
      assert "" + zeros + body == zeros + body;
    }
  }

  lemma FieldWf(num: int, base: int, width: int, f: Flags, rest: CString)
    requires 2 <= base <= 16 && (rest == "" || DigitValue(rest[0]) < 0)
    ensures var d := FieldOf(num, base, width, f, rest);
      d.Wf(base) && Eval(d.digits, base, 0) == Magnitude(num, f)
  {
    var pad, body := Pad(num, base, width, f), Body(num, base, f);
    BodyValue(num, base, f);
    assert |body| > 0;
    hide Repeat, Eval, AllDigits, Digits, Pad, Body, Magnitude, DigitValue;
    ZerosRead(base == 8 && f.alternate, pad, f.zeropad && !f.left, body, base);
    TailWf(pad, f.left, rest);
  }

  lemma FieldPlaces(num: int, base: int, width: int, f: Flags, rest: CString)
    requires 2 <= base <= 16 && (rest == "" || DigitValue(rest[0]) < 0)
    ensures var d := FieldOf(num, base, width, f, rest);
      && d.TailAt() == |IntText(num, base, width, f)| - (if f.left then Pad(num, base, width, f) else 0)
      && (d.sign == "-" <==> f.signed && num < 0)
  {
    var d := FieldOf(num, base, width, f, rest);
    FieldText(num, base, width, f, rest);
    FieldWf(num, base, width, f, rest);
    FieldParts(d, base);
    assert |d.tail| == (if f.left then Pad(num, base, width, f) else 0) + |rest|;
    hide Repeat, IntText, Body, Pad, Prefix, Eval, Field.Wf, Field.Text, Magnitude;
  }

  /**
    Round trip: whatever the flags and the width, and whatever follows that cannot be a digit, `strtol` in the base of
    the conversion returns the printed number, wrapped to 32 bits, and stops right behind its last digit.
   */
  lemma RoundTrip(num: int, base: int, width: int, f: Flags, rest: CString)
    requires 2 <= base <= 16 && (rest == "" || DigitValue(rest[0]) < 0)
    ensures NUL !in IntText(num, base, width, f) + rest
    ensures var text := IntText(num, base, width, f);
      Parse(text + rest, base) == (Wrap32(num), |text| - if f.left then Pad(num, base, width, f) else 0)
  {
    hide *;
    var d := FieldOf(num, base, width, f, rest);
    FieldText(num, base, width, f, rest);
    FieldWf(num, base, width, f, rest);
    FieldRead(d, base);
    NegatedWrap(num, f);
    FieldPlaces(num, base, width, f, rest);
  }

  /** The word that an integer conversion without a 64-bit length fetches. */
  lemma FetchedWord(c: char, l: Length, args: Args, a: nat)
    requires IsIntConversion(c) && !TakesTwoSlots(l)
    ensures Wrap32(FetchInt(c, l, args, a).0) == Wrap32(args.slot(a)) && FetchInt(c, l, args, a).1 == a + 1
  {
    CongruentWrap(Wrap32(args.slot(a)), args.slot(a));
  }

  /**
    The same for a whole directive: what `%d`, `%i`, `%u`, `%x`, `%X`, `%o` or `%b` prints for an argument word reads
    back, in the base of the conversion, as that word.
   */
  lemma ConversionRoundTrip(c: char, f: Flags, width: int, l: Length, args: Args, a: nat, rest: CString)
    requires IsIntConversion(c) && !TakesTwoSlots(l) && (rest == "" || DigitValue(rest[0]) < 0)
    ensures var (text, a') := Convert(c, f, width, l, args, a);
      var base := match c case 'x' => 16 case 'X' => 16 case 'o' => 8 case 'b' => 2 case _ => 10;
      NUL !in text + rest && Parse(text + rest, base).0 == Wrap32(args.slot(a)) && a' == a + 1
  {
    FetchedWord(c, l, args, a);
    RoundTrip(FetchInt(c, l, args, a).0, BaseOf(c), width, IntFlags(c, f), rest);
    hide Parse, IntText, FetchInt, Pad, Wrap32;
  }

  lemma {:induction false} LeadingDigit(n: nat, base: nat, small: bool)
    requires 2 <= base <= 16 && n > 0
    ensures Digits(n, base, small)[0] != '0'
    decreases n
  {
    DivMod(n, base);
    if n < base {
      assert n / base == 0 by { if n / base >= 1 { AtLeastOnce(n / base, base); } }
    } else {
      LastDigit(n, base, small);
      assert n / base > 0;
      LeadingDigit(n / base, base, small);
    }
  }

  /** A field from which `strtol` finds out the base by itself. */
  predicate ShowsBase(d: Field, base: int) {
    && d.Wf(base)
    && (d.hex != "" || (base == 8 && d.digits[0] == '0') || (base == 10 && (d.digits[0] != '0' || d.digits == "0")))
  }

  lemma BaseFound(d: Field, base: int)
    requires ShowsBase(d, base)
    ensures NUL !in d.Text()
    ensures var (b, start) := DetectBase(d.Text(), d.HexAt(), 0);
      start == (if base != 16 && d.digits[0] == '0' then d.DigitsAt() + 1 else d.DigitsAt())
      && b == if d.digits == "0" && base == 10 then 8 else base
  {
    FieldParts(d, base);
    AfterDigits(d, base);
    var s: CString := d.Text();
    var h := d.HexAt();
    if d.hex != "" {
      assert s[h] == d.hex[0] && s[h + 1] == d.hex[1];
    } else {
      assert s[h] == d.digits[0];
      if |d.digits| > 1 {
        assert s[h + 1] == d.digits[1] && IsDigitOf(d.digits[1], base);
      } else {
        assert d.tail != "" ==> s[h + 1] == s[d.TailAt()..][0] == d.tail[0];
      }
    }
  }

  lemma ZeroDropped(digits: string, base: nat)
    requires base >= 2 && AllDigits(digits, base) && digits != "" && digits[0] == '0'
    ensures AllDigits(digits[1..], base) && Eval(digits[1..], base, 0) == Eval(digits, base, 0)
  {
  }

  /** `strtol` with base 0 reads such a field like `strtol` in its base. */
  lemma FieldReadAuto(d: Field, base: int)
    requires ShowsBase(d, base)
    ensures NUL !in d.Text() && Parse(d.Text(), 0) == Parse(d.Text(), base)
  {
    FieldRead(d, base);
    FieldStart(d, base);
    FieldReadAutoSteps(d, base);
    hide *;
  }

  lemma FieldReadAutoSteps(d: Field, base: int)
    requires ShowsBase(d, base)
    ensures NUL !in d.Text()
    ensures var v := Wrap32(Eval(d.digits, base, 0));
      Parse(d.Text(), 0) == (if d.sign == "-" then Wrap32(-v) else v, d.TailAt())
  {
    hide *;
    ShowsWf(d, base);
    FieldStart(d, base);
    HexBehindSign(d, base);
    DigitsFound(d, base);
    var s: CString := d.Text();
    var (b, start) := DetectBase(s, d.HexAt(), 0);
    ParseSteps(s, 0, d.SignAt(), start, d.TailAt(), b);
  }

  lemma ShowsWf(d: Field, base: int)
    requires ShowsBase(d, base)
    ensures d.Wf(base) && 2 <= base <= 16 && d.HexAt() <= |d.Text()| && AllDigits(d.digits, base)
  {
    FieldParts(d, base);
  }

  lemma HexBehindSign(d: Field, base: int)
    requires d.Wf(base)
    ensures NUL !in d.Text() && d.SignAt() <= |d.Text()|
    ensures var c := At(d.Text(), d.SignAt()); d.HexAt() == if c == '-' || c == '+' then d.SignAt() + 1 else d.SignAt()
  {
    FieldParts(d, base);
    FieldStart(d, base);
    hide Repeat, Field.Text;
  }

  lemma DigitsFound(d: Field, base: int)
    requires ShowsBase(d, base)
    ensures NUL !in d.Text()
    ensures var (b, start) := DetectBase(d.Text(), d.HexAt(), 0);
      b >= 2 && DigitsEnd(d.Text(), start, b) == d.TailAt() && AllDigits(d.Text()[start..d.TailAt()], b)
      && Eval(d.Text()[start..d.TailAt()], b, 0) == Eval(d.digits, base, 0)
  {
    FieldParts(d, base);
    BaseFound(d, base);
    AfterDigits(d, base);
    var s: CString := d.Text();
    var (b, start) := DetectBase(s, d.HexAt(), 0);
    if base != 16 && d.digits[0] == '0' {
      ZeroDropped(d.digits, base);
      assert s[start..d.TailAt()] == d.digits[1..];
      hide Repeat, Eval, Wrap32, DetectBase, SpaceEnd, Field.Text, DigitsEnd;
      DigitsRead(s, start, d.digits[1..], b);
    } else {
      hide Repeat, Eval, Wrap32, DetectBase, SpaceEnd, Field.Text, DigitsEnd;
      DigitsRead(s, start, d.digits, b);
    }
  }
}
