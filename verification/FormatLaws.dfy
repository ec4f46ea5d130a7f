/** Laws of the format language of libc/vsprintf.c, stated on the reference `Vsprintf.Render`. */
module FormatLaws {
  import opened Numerals
  import opened Vsprintf

  // ---------- When the returned length is right ----------

  function FlagsEnd(fmt: CString, i: nat): (j: nat)
    requires i <= |fmt|
    ensures i <= j <= |fmt|
    decreases |fmt| - i
  {
    if IsFlag(At(fmt, i)) then FlagsEnd(fmt, i + 1) else i
  }

  function WidthEnd(fmt: CString, i: nat): (j: nat)
    requires i <= |fmt|
    ensures i <= j <= |fmt|
    decreases |fmt| - i
  {
    var c := At(fmt, i);
    if c == '*' then WidthEnd(fmt, i + 1)
    else if IsDigit(c) && c > '0' then WidthEnd(fmt, NumberEnd(fmt, i))
    else i
  }

  function PrecisionEnd(fmt: CString, i: nat): (j: nat)
    requires i <= |fmt|
    ensures i <= j <= |fmt|
  {
    if At(fmt, i) == '.' then NumberEnd(fmt, i + 1) else i
  }

  function LengthEnd(fmt: CString, i: nat): (j: nat)
    requires i <= |fmt|
    ensures i <= j <= |fmt|
    decreases |fmt| - i
  {
    if IsLength(At(fmt, i)) then LengthEnd(fmt, i + 1) else i
  }

  /** Where the conversion character of the directive that starts behind a `%` at `i - 1` is, or the end of the format. */
  function ConversionAt(fmt: CString, i: nat): (j: nat)
    requires i <= |fmt|
    ensures i <= j <= |fmt|
  {
    LengthEnd(fmt, PrecisionEnd(fmt, WidthEnd(fmt, FlagsEnd(fmt, i))))
  }

  /** Some directive of the format has no conversion character. It depends on the format alone. */
  predicate CutOff(fmt: CString, i: nat)
    requires i <= |fmt|
    decreases |fmt| - i
  {
    if i == |fmt| then false
    else if fmt[i] != '%' then CutOff(fmt, i + 1)
    else var j := ConversionAt(fmt, i + 1); j == |fmt| || CutOff(fmt, j + 1)
  }

  // ---------- Argument slots ----------

  /** The stars of a width: each takes a slot. */
  function WidthSlots(fmt: CString, i: nat): nat
    requires i <= |fmt|
    decreases |fmt| - i
  {
    var c := At(fmt, i);
    if c == '*' then 1 + WidthSlots(fmt, i + 1)
    else if IsDigit(c) && c > '0' then WidthSlots(fmt, NumberEnd(fmt, i))
    else 0
  }

  function PrecisionSlots(fmt: CString, i: nat): nat
    requires i <= |fmt|
  {
    if At(fmt, i) == '.' && At(fmt, i + 1) == '*' then 1 else 0
  }

  /** The slots that a directive takes before its conversion. */
  function SlotsBefore(fmt: CString, i: nat): nat
    requires i <= |fmt|
  {
    var w := FlagsEnd(fmt, i);
    WidthSlots(fmt, w) + PrecisionSlots(fmt, WidthEnd(fmt, w))
  }

  function LengthFrom(fmt: CString, i: nat, l: Length): Length
    requires i <= |fmt|
    decreases |fmt| - i
  {
    if IsLength(At(fmt, i)) then LengthFrom(fmt, i + 1, AddLength(l, fmt[i])) else l
  }

  /** What the length modifiers of a directive come to. */
  function LengthAt(fmt: CString, i: nat): Length
    requires i <= |fmt|
  {
    LengthFrom(fmt, PrecisionEnd(fmt, WidthEnd(fmt, FlagsEnd(fmt, i))), NoLength)
  }

  /** The slots that a conversion takes. */
  function SlotsOf(c: char, l: Length): nat {
    if IsIntConversion(c) then (if TakesTwoSlots(l) then 2 else 1)
    else if c == 'p' || c == 's' || c == 'c' then 1
    else 0
  }

  /** The slots that a format takes. They depend on the format alone. */
  function SlotsUsed(fmt: CString, i: nat): nat
    requires i <= |fmt|
    decreases |fmt| - i
  {
    if i == |fmt| then 0
    else if fmt[i] != '%' then SlotsUsed(fmt, i + 1)
    else
      var j := ConversionAt(fmt, i + 1);
      SlotsBefore(fmt, i + 1) + if j == |fmt| then 0 else SlotsOf(fmt[j], LengthAt(fmt, i + 1)) + SlotsUsed(fmt, j + 1)
  }

  /** Some `%c` of the format finds a word whose low byte is 0. */
  predicate PrintsNul(fmt: CString, i: nat, args: Args, a: nat)
    requires i <= |fmt|
    decreases |fmt| - i
  {
    if i == |fmt| then false
    else if fmt[i] != '%' then PrintsNul(fmt, i + 1, args, a)
    else
      var j, a' := ConversionAt(fmt, i + 1), a + SlotsBefore(fmt, i + 1);
      j < |fmt| && ((fmt[j] == 'c' && args.slot(a') % 256 == 0)
                    || PrintsNul(fmt, j + 1, args, a' + SlotsOf(fmt[j], LengthAt(fmt, i + 1))))
  }

  predicate HasCharConversion(fmt: CString, i: nat)
    requires i <= |fmt|
    decreases |fmt| - i
  {
    if i == |fmt| then false
    else if fmt[i] != '%' then HasCharConversion(fmt, i + 1)
    else var j := ConversionAt(fmt, i + 1); j < |fmt| && (fmt[j] == 'c' || HasCharConversion(fmt, j + 1))
  }

  /** A format can print a NUL if and only if it has a `%c`, and only from a word whose low byte is 0. */
  lemma {:induction false} NulNeedsChar(fmt: CString, i: nat, args: Args, a: nat)
    requires i <= |fmt|
    ensures PrintsNul(fmt, i, args, a) ==> HasCharConversion(fmt, i) && exists k :: args.slot(k) % 256 == 0
    ensures (forall k :: args.slot(k) % 256 == 0) ==> (PrintsNul(fmt, i, args, a) <==> HasCharConversion(fmt, i))
    decreases |fmt| - i
  {
    hide ConversionAt, SlotsBefore, SlotsOf, LengthAt;
    if i < |fmt| {
      if fmt[i] != '%' {
        NulNeedsChar(fmt, i + 1, args, a);
      } else {
        var j := ConversionAt(fmt, i + 1);
        if j < |fmt| {
          NulNeedsChar(fmt, j + 1, args, a + SlotsBefore(fmt, i + 1) + SlotsOf(fmt[j], LengthAt(fmt, i + 1)));
        }
      }
    }
  }

  // ---------- How the output ends ----------

  lemma {:induction false} ReadLength(fmt: CString, i: nat, f: Flags, width: int, l: Length, args: Args, a: nat)
    requires i <= |fmt|
    ensures FromLength(fmt, i, f, width, l, args, a) ==
      FromConversion(fmt, LengthEnd(fmt, i), f, width, LengthFrom(fmt, i, l), args, a)
    decreases |fmt| - i
  {
    if IsLength(At(fmt, i)) { ReadLength(fmt, i + 1, f, width, AddLength(l, fmt[i]), args, a); }
  }

  lemma {:induction false} ReadWidth(fmt: CString, i: nat, f: Flags, width: int, args: Args, a: nat)
      returns (f': Flags, width': int)
    requires i <= |fmt|
    ensures FromWidth(fmt, i, f, width, args, a) ==
      FromPrecision(fmt, WidthEnd(fmt, i), f', width', args, a + WidthSlots(fmt, i))
    decreases |fmt| - i
  {
    var c := At(fmt, i);
    if c == '*' {
      var w := Wrap32(args.slot(a));
      f', width' := ReadWidth(fmt, i + 1, if w < 0 then f.(left := true) else f, if w < 0 then -w else w, args, a + 1);
    } else if IsDigit(c) && c > '0' {
      f', width' := ReadWidth(fmt, NumberEnd(fmt, i), f, Number(fmt, i, 0), args, a);
    } else {
      f', width' := f, width;
    }
  }

  lemma {:induction false} ReadFlags(fmt: CString, i: nat, f: Flags, args: Args, a: nat) returns (f': Flags)
    requires i <= |fmt|
    ensures FromFlags(fmt, i, f, args, a) == FromWidth(fmt, FlagsEnd(fmt, i), f', 0, args, a)
    decreases |fmt| - i
  {
    if IsFlag(At(fmt, i)) {
      f' := ReadFlags(fmt, i + 1, AddFlag(f, fmt[i]), args, a);
    } else {
      f' := f;
    }
  }

  /** A directive is read up to its precision, whatever comes before. */
  lemma ReadToPrecision(fmt: CString, i: nat, args: Args, a: nat) returns (f: Flags, width: int)
    requires i <= |fmt|
    ensures var w := FlagsEnd(fmt, i);
      FromFlags(fmt, i, NO_FLAGS, args, a) == FromPrecision(fmt, WidthEnd(fmt, w), f, width, args, a + WidthSlots(fmt, w))
  {
    f := ReadFlags(fmt, i, NO_FLAGS, args, a);
    f, width := ReadWidth(fmt, FlagsEnd(fmt, i), f, 0, args, a);
  }

  /** And up to its conversion character. */
  lemma ReadDirectiveAt(fmt: CString, i: nat, args: Args, a: nat) returns (f: Flags, width: int)
    requires i <= |fmt|
    ensures FromFlags(fmt, i, NO_FLAGS, args, a) ==
      FromConversion(fmt, ConversionAt(fmt, i), f, width, LengthAt(fmt, i), args, a + SlotsBefore(fmt, i))
  {
    f, width := ReadToPrecision(fmt, i, args, a);
    var j := WidthEnd(fmt, FlagsEnd(fmt, i));
    ReadLength(fmt, PrecisionEnd(fmt, j), f, width, NoLength, args, a + SlotsBefore(fmt, i));
  }

  lemma SlotAfter(c: char, f: Flags, width: int, l: Length, args: Args, a: nat)
    ensures Convert(c, f, width, l, args, a).1 == a + SlotsOf(c, l)
  {
    hide IntText, PadText, LongLongAt, Wrap32;
  }

  /**
    How the output ends, and how many arguments it takes: a NUL printed with `%c` ends it; otherwise it is cut short
    exactly if the format has an incomplete directive.
   */
  lemma {:induction false} EndIff(fmt: CString, i: nat, args: Args, a: nat)
    requires i <= |fmt|
    ensures Render(fmt, i, args, a).end ==
      if PrintsNul(fmt, i, args, a) then NulChar else if CutOff(fmt, i) then CutShort else AtNul
    ensures !PrintsNul(fmt, i, args, a) ==> Render(fmt, i, args, a).next == a + SlotsUsed(fmt, i)
    decreases |fmt| - i
  {
    hide Convert, SlotsOf, ConversionAt, SlotsBefore, LengthAt, FromFlags;
    if i < |fmt| {
      if fmt[i] != '%' {
        EndIff(fmt, i + 1, args, a);
      } else {
        var f, width := ReadDirectiveAt(fmt, i + 1, args, a);
        var j, l, a' := ConversionAt(fmt, i + 1), LengthAt(fmt, i + 1), a + SlotsBefore(fmt, i + 1);
        if j < |fmt| {
          SlotAfter(fmt[j], f, width, l, args, a');
          EndIff(fmt, j + 1, args, a' + SlotsOf(fmt[j], l));
        }
      }
    }
  }

  /**
    What `vsnprintf` returns, one less than the number of characters put, is the length of the printed text if and only
    if every directive of the format is complete and no `%c` prints a NUL; otherwise it is one too small.
   */
  lemma LengthIff(fmt: CString, args: Args)
    ensures var r := Render(fmt, 0, args, 0);
      |Output(r)| - 1 == (if CutOff(fmt, 0) || PrintsNul(fmt, 0, args, 0) then |r.text| - 1 else |r.text|)
  {
    EndIff(fmt, 0, args, 0);
  }

  /** What ISO C asks of the buffer: what fits of the text, and a NUL right behind it. */
  predicate Terminated(buf: string, orig: string, size: nat, text: string)
    requires 1 <= size <= |orig|
  {
    var m := if |text| < size then |text| else size - 1;
    buf == text[..m] + [NUL] + orig[m + 1..]
  }

  /** A nonempty buffer of `size` characters after `vsnprintf`, when it held `orig` before. */
  function BufferAfter(fmt: CString, args: Args, orig: string, size: nat): string
    requires 1 <= size <= |orig|
  {
    Printed(orig, size, Output(Render(fmt, 0, args, 0)))
  }

  lemma BufferHolds(fmt: CString, args: Args, orig: string, size: nat)
    requires !PrintsNul(fmt, 0, args, 0) && !CutOff(fmt, 0) && 1 <= size <= |orig|
    ensures Terminated(BufferAfter(fmt, args, orig, size), orig, size, Render(fmt, 0, args, 0).text)
  {
    EndIff(fmt, 0, args, 0);
  }

  /**
    With an incomplete directive or a printed NUL the terminator takes the place of the last character that has been
    printed, where the whole text would have fitted; with nothing printed it goes to the end of the buffer.
   */
  lemma LastCharacterLost(fmt: CString, args: Args, orig: string, size: nat)
    requires (PrintsNul(fmt, 0, args, 0) || CutOff(fmt, 0)) && 1 <= size <= |orig|
    ensures var text, buf := Render(fmt, 0, args, 0).text, BufferAfter(fmt, args, orig, size);
      if text == "" then buf == orig[size - 1 := NUL]
      else if |text| <= size then buf == text[..|text| - 1] + [NUL] + orig[|text|..]
      else Terminated(buf, orig, size, text)
  {
    EndIff(fmt, 0, args, 0);
  }

  /** A string that has no NUL at index `|text|`, where the terminator belongs, is seen to be wrong. */
  lemma NotTerminated(fmt: CString, args: Args)
    requires PrintsNul(fmt, 0, args, 0) || CutOff(fmt, 0)
    ensures var text := Render(fmt, 0, args, 0).text; var orig := Repeat('x', |text| + 2);
      |orig| == |text| + 2 && !Terminated(BufferAfter(fmt, args, orig, |orig|), orig, |orig|, text)
  {
    hide Render;
    var text := Render(fmt, 0, args, 0).text;
    var orig := Repeat('x', |text| + 2);
    LastCharacterLost(fmt, args, orig, |orig|);
    assert (text[..|text|] + [NUL] + orig[|text| + 1..])[|text|] == NUL;
    assert orig[|text|] == 'x';
  }

  /**
    The buffer is what ISO C asks for, whatever its size and whatever it held, if and only if every directive is complete
    and no `%c` prints a NUL.
   */
  lemma BufferIff(fmt: CString, args: Args)
    ensures (forall orig: string, size: nat :: 1 <= size <= |orig| ==>
               Terminated(BufferAfter(fmt, args, orig, size), orig, size, Render(fmt, 0, args, 0).text))
      <==> !CutOff(fmt, 0) && !PrintsNul(fmt, 0, args, 0)
  {
    hide *;
    if !CutOff(fmt, 0) && !PrintsNul(fmt, 0, args, 0) {
      forall orig: string, size: nat | 1 <= size <= |orig|
        ensures Terminated(BufferAfter(fmt, args, orig, size), orig, size, Render(fmt, 0, args, 0).text)
      {
        BufferHolds(fmt, args, orig, size);
      }
    } else {
      NotTerminated(fmt, args);
    }
  }

  // ---------- Modifiers that are not read as ISO C asks ----------

  /** `n` length modifiers `h`: an odd number of them is taken for a 64-bit length. */
  lemma {:induction false} ShortLength(fmt: CString, i: nat, n: nat, l: Length)
    requires i + n <= |fmt| && (forall k :: i <= k < i + n ==> fmt[k] == 'h') && !IsLength(At(fmt, i + n))
    requires l == NoLength || l == Short || l == Char
    ensures LengthEnd(fmt, i) == i + n
    ensures LengthFrom(fmt, i, l) == if n == 0 then l else if (n % 2 == 1) != (l == Char) then Char else Short
    decreases n
  {
    if n > 0 { ShortLength(fmt, i + 1, n - 1, AddLength(l, 'h')); }
  }

  /** The number that an integer conversion prints behind `n` times `h`. */
  function ShortArgument(c: char, n: nat, args: Args, a: nat): int {
    if n % 2 == 1 then LongLongAt(args, a)
    else if c == 'd' || c == 'i' then Wrap32(args.slot(a))
    else args.slot(a)
  }

  /**
    In any directive with `n` modifiers `h` before an integer conversion, an odd `n` prints eight bytes of arguments and
    takes two slots; ISO C (section 7.21.6.1) asks for one `int` whatever the `n`.
   */
  lemma ShortModifiers(fmt: CString, i: nat, n: nat, args: Args, a: nat) returns (f: Flags, width: int)
    requires i < |fmt| && fmt[i] == '%'
    requires var p := PrecisionEnd(fmt, WidthEnd(fmt, FlagsEnd(fmt, i + 1)));
      p + n < |fmt| && (forall k :: p <= k < p + n ==> fmt[k] == 'h') && IsIntConversion(fmt[p + n])
    ensures var j, s := ConversionAt(fmt, i + 1), a + SlotsBefore(fmt, i + 1);
      && j < |fmt| && IsIntConversion(fmt[j])
      && Render(fmt, i, args, a) ==
           Prepend(IntText(ShortArgument(fmt[j], n, args, s), BaseOf(fmt[j]), width, IntFlags(fmt[j], f)),
                   Render(fmt, j + 1, args, if n % 2 == 0 then s + 1 else s + 2))
  {
    hide IntText, LongLongAt, Wrap32, FromFlags, NumberEnd, WidthEnd, FlagsEnd, Render, SlotsBefore;
    var p := PrecisionEnd(fmt, WidthEnd(fmt, FlagsEnd(fmt, i + 1)));
    ShortLength(fmt, p, n, NoLength);
    f, width := ReadDirectiveAt(fmt, i + 1, args, a);
    AtPercent(fmt, i, args, a);
  }

  lemma AtPercent(fmt: CString, i: nat, args: Args, a: nat)
    requires i < |fmt| && fmt[i] == '%'
    ensures Render(fmt, i, args, a) == FromFlags(fmt, i + 1, NO_FLAGS, args, a)
  {
  }

  /** `%hd` and the like on their own take one slot if and only if the number of `h` is even. */
  lemma ShortSlots(n: nat, c: char, args: Args, a: nat)
    requires IsIntConversion(c)
    ensures var fmt := "%" + Repeat('h', n) + [c];
      && NUL !in fmt
      && (Render(fmt, 0, args, a).next == a + 1 <==> n % 2 == 0)
      && (n % 2 == 1 ==> Render(fmt, 0, args, a) ==
                           Rendering(IntText(LongLongAt(args, a), BaseOf(c), 0, IntFlags(c, NO_FLAGS)), AtNul, a + 2))
  {
    var fmt: CString := "%" + Repeat('h', n) + [c];
    assert fmt[1] == if n == 0 then c else 'h';
    assert forall k :: 1 <= k < 1 + n ==> fmt[k] == Repeat('h', n)[k - 1];
    ShortDirective(fmt, n, c, args, a);
  }

  lemma ShortDirective(fmt: CString, n: nat, c: char, args: Args, a: nat)
    requires |fmt| == n + 2 && fmt[0] == '%' && fmt[n + 1] == c && IsIntConversion(c) && forall k :: 1 <= k < 1 + n ==> fmt[k] == 'h'
    ensures Render(fmt, 0, args, a) ==
      Rendering(IntText(ShortArgument(c, n, args, a), BaseOf(c), 0, IntFlags(c, NO_FLAGS)), AtNul, if n % 2 == 0 then a + 1 else a + 2)
  {
    hide IntText, LongLongAt, Wrap32;
    ShortLength(fmt, 1, n, NoLength);
    ReadLength(fmt, 1, NO_FLAGS, 0, NoLength, args, a);
    assert At(fmt, 1) == 'h' || At(fmt, 1) == c;
    var text := IntText(ShortArgument(c, n, args, a), BaseOf(c), 0, IntFlags(c, NO_FLAGS));
    assert text + "" == text;
    assert FromConversion(fmt, n + 1, NO_FLAGS, 0, LengthFrom(fmt, 1, NoLength), args, a) ==
      Rendering(text, AtNul, if n % 2 == 0 then a + 1 else a + 2);
    assert FromLength(fmt, 1, NO_FLAGS, 0, NoLength, args, a) == FromWidth(fmt, 1, NO_FLAGS, 0, args, a);
  }

  /** Where the precision that starts at `i` ends by section 7.21.6.1 of ISO C: it is a star or a number. */
  function IsoPrecisionEnd(fmt: CString, i: nat): nat
    requires i < |fmt| && fmt[i] == '.'
  {
    if At(fmt, i + 1) == '*' then i + 2 else NumberEnd(fmt, i + 1)
  }

  /**
    A precision is consumed as ISO C asks if and only if it is not a star. The star takes its slot, but is then printed
    as an unknown conversion, and the rest of the directive as plain text.
   */
  lemma StarPrecision(fmt: CString, i: nat, args: Args, a: nat)
    requires i < |fmt| && fmt[i] == '%'
    ensures var w := FlagsEnd(fmt, i + 1); var p := WidthEnd(fmt, w);
      At(fmt, p) == '.' ==>
        && (PrecisionEnd(fmt, p) == IsoPrecisionEnd(fmt, p) <==> At(fmt, p + 1) != '*')
        && (At(fmt, p + 1) == '*' ==>
              Render(fmt, i, args, a) == Prepend("%*", Render(fmt, p + 2, args, a + WidthSlots(fmt, w) + 1)))
  {
    var f, width := ReadToPrecision(fmt, i + 1, args, a);
    hide FlagsEnd, WidthEnd, FromFlags, Wrap32, WidthSlots, IntText, PadText;
    AtPercent(fmt, i, args, a);
    var w := FlagsEnd(fmt, i + 1);
    var p := WidthEnd(fmt, w);
    if At(fmt, p) == '.' && At(fmt, p + 1) == '*' {
      assert FromPrecision(fmt, p, f, width, args, a + WidthSlots(fmt, w)) ==
        FromConversion(fmt, p + 1, f, width, NoLength, args, a + WidthSlots(fmt, w) + 1);
    }
  }

  // ---------- Concatenation ----------

  /** Reading the second part of a format is reading it on its own. */
  lemma {:induction false} ShiftNumber(f: CString, g: CString, j: nat, n: int)
    requires j <= |g| && NUL !in f + g
    ensures NumberEnd(f + g, |f| + j) == |f| + NumberEnd(g, j) && Number(f + g, |f| + j, n) == Number(g, j, n)
    decreases |g| - j
  {
    assert At(f + g, |f| + j) == At(g, j);
    if IsDigit(At(g, j)) { ShiftNumber(f, g, j + 1, n * 10 + (g[j] - '0') as int); }
  }

  lemma {:induction false} Shift(f: CString, g: CString, j: nat, st: State, fl: Flags, w: int, l: Length, args: Args, a: nat)
    requires j <= |g| && NUL !in f + g
    ensures Resume(st, f + g, |f| + j, fl, w, l, args, a) == Resume(st, g, j, fl, w, l, args, a)
    decreases |g| - j, Rank(st)
  {
    hide Convert, Wrap32, AddLength, AddFlag;
    assert At(f + g, |f| + j) == At(g, j);
    var c := At(g, j);
    match st
    case DefaultState =>
      if j < |g| {
        if c == '%' { Shift(f, g, j + 1, FlagState, NO_FLAGS, w, l, args, a); }
        else { Shift(f, g, j + 1, DefaultState, fl, w, l, args, a); }
      }
    case FlagState =>
      if IsFlag(c) { Shift(f, g, j + 1, FlagState, AddFlag(fl, c), w, l, args, a); }
      else { Shift(f, g, j, WidthState, fl, 0, l, args, a); }
    case WidthState =>
      if c == '*' {
        var v := Wrap32(args.slot(a));
        Shift(f, g, j + 1, WidthState, if v < 0 then fl.(left := true) else fl, if v < 0 then -v else v, l, args, a + 1);
      } else if IsDigit(c) && c > '0' {
        ShiftNumber(f, g, j, 0);
        Shift(f, g, NumberEnd(g, j), WidthState, fl, Number(g, j, 0), l, args, a);
      } else { Shift(f, g, j, PrecisionState, fl, w, l, args, a); }
    case PrecisionState =>
      if c == '.' {
        ShiftNumber(f, g, j + 1, 0);
        assert At(f + g, |f| + j + 1) == At(g, j + 1);
        Shift(f, g, NumberEnd(g, j + 1), LengthState, fl, w, NoLength, args, if At(g, j + 1) == '*' then a + 1 else a);
      } else { Shift(f, g, j, LengthState, fl, w, NoLength, args, a); }
    case LengthState =>
      if IsLength(c) { Shift(f, g, j + 1, LengthState, fl, w, AddLength(l, c), args, a); }
      else { Shift(f, g, j, ConversionState, fl, w, l, args, a); }
    case ConversionState =>
      if j < |g| { Shift(f, g, j + 1, DefaultState, fl, w, l, args, Convert(c, fl, w, l, args, a).1); }
  }

  lemma {:induction false} SpliceNumber(f: CString, g: CString, i: nat, n: int)
    requires i <= |f| && NUL !in f + g && NumberEnd(f, i) < |f|
    ensures NumberEnd(f + g, i) == NumberEnd(f, i) && Number(f + g, i, n) == Number(f, i, n)
    decreases |f| - i
  {
    assert At(f + g, i) == At(f, i);
    if IsDigit(At(f, i)) { SpliceNumber(f, g, i + 1, n * 10 + (f[i] - '0') as int); }
  }

  /** `r` has printed the first part of a format; the second part `g` goes on from there. */
  function Continued(r: Rendering, g: CString, args: Args): Rendering {
    Prepend(r.text, Render(g, 0, args, r.next))
  }

  lemma ContinuedPrepend(t: string, r: Rendering, g: CString, args: Args)
    ensures Continued(Prepend(t, r), g, args) == Prepend(t, Continued(r, g, args))
  {
    PrependMore(t, r.text, Render(g, 0, args, r.next));
  }

  lemma {:induction false} Splice(f: CString, g: CString, i: nat, st: State, fl: Flags, w: int, l: Length, args: Args, a: nat)
    requires i <= |f| && NUL !in f + g
    requires Resume(st, f, i, fl, w, l, args, a).end == AtNul
    ensures Resume(st, f + g, i, fl, w, l, args, a) == Continued(Resume(st, f, i, fl, w, l, args, a), g, args)
    decreases |f| - i, Rank(st)
  {
    if i == |f| {
      if st != DefaultState { EndsInside(st, f, fl, w, l, args, a); }
      Shift(f, g, 0, st, fl, w, l, args, a);
      PrependNothing(Render(g, 0, args, a));
    } else {
      SpliceStep(f, g, i, st, fl, w, l, args, a);
    }
  }

  lemma {:induction false} SpliceStep(f: CString, g: CString, i: nat, st: State, fl: Flags, w: int, l: Length, args: Args, a: nat)
    requires i < |f| && NUL !in f + g
    requires Resume(st, f, i, fl, w, l, args, a).end == AtNul
    ensures Resume(st, f + g, i, fl, w, l, args, a) == Continued(Resume(st, f, i, fl, w, l, args, a), g, args)
    decreases |f| - i, Rank(st), 0
  {
    assert At(f + g, i) == At(f, i);
    var c := At(f, i);
    match st
    case DefaultState =>
      if c == '%' { Splice(f, g, i + 1, FlagState, NO_FLAGS, w, l, args, a); }
      else {
        Splice(f, g, i + 1, DefaultState, fl, w, l, args, a);
        ContinuedPrepend([c], Render(f, i + 1, args, a), g, args);
      }
    case FlagState =>
      if IsFlag(c) { Splice(f, g, i + 1, FlagState, AddFlag(fl, c), w, l, args, a); }
      else { Splice(f, g, i, WidthState, fl, 0, l, args, a); }
    case WidthState =>
      if c == '*' {
        var v := Wrap32(args.slot(a));
        Splice(f, g, i + 1, WidthState, if v < 0 then fl.(left := true) else fl, if v < 0 then -v else v, l, args, a + 1);
      } else if IsDigit(c) && c > '0' {
        var n := Number(f, i, 0);
        if NumberEnd(f, i) == |f| { EndsInside(WidthState, f, fl, n, l, args, a); }
        SpliceNumber(f, g, i, 0);
        Splice(f, g, NumberEnd(f, i), WidthState, fl, n, l, args, a);
      } else { Splice(f, g, i, PrecisionState, fl, w, l, args, a); }
    case PrecisionState =>
      if c == '.' {
        var a' := if At(f, i + 1) == '*' then a + 1 else a;
        if NumberEnd(f, i + 1) == |f| { EndsInside(LengthState, f, fl, w, NoLength, args, a'); }
        SpliceNumber(f, g, i + 1, 0);
        assert At(f + g, i + 1) == At(f, i + 1);
        Splice(f, g, NumberEnd(f, i + 1), LengthState, fl, w, NoLength, args, a');
      } else { Splice(f, g, i, LengthState, fl, w, NoLength, args, a); }
    case LengthState =>
      if IsLength(c) { Splice(f, g, i + 1, LengthState, fl, w, AddLength(l, c), args, a); }
      else { Splice(f, g, i, ConversionState, fl, w, l, args, a); }
    case ConversionState =>
      var (text, a') := Convert(c, fl, w, l, args, a);
      Splice(f, g, i + 1, DefaultState, fl, w, l, args, a');
      ContinuedPrepend(text, Render(f, i + 1, args, a'), g, args);
  }

  /**
    Printing a concatenation is printing its parts one after the other, the second part with the arguments that the
    first has left, provided the first part has no incomplete directive and prints no NUL.
   */
  lemma Concatenation(f: CString, g: CString, args: Args, a: nat)
    requires NUL !in f + g && !CutOff(f, 0) && !PrintsNul(f, 0, args, a)
    ensures var r := Render(f, 0, args, a); var q := Render(g, 0, args, a + SlotsUsed(f, 0));
      Render(f + g, 0, args, a) == Rendering(r.text + q.text, q.end, q.next)
  {
    EndIff(f, 0, args, a);
    Splice(f, g, 0, DefaultState, NO_FLAGS, 0, NoLength, args, a);
  }

  // ---------- Escaping ----------

  /** A string with every `%` doubled. */
  function Escape(s: CString): (e: CString)
    decreases |s|
  {
    if s == "" then "" else (if s[0] == '%' then "%%" else [s[0]]) + Escape(s[1..])
  }

  /** Doubling the percent signs of a string makes a format that prints that string, whatever the arguments. */
  lemma {:induction false} EscapeRoundTrip(s: CString, args: Args, a: nat)
    ensures Render(Escape(s), 0, args, a) == Rendering(s, AtNul, a)
    decreases |s|
  {
    if s != "" {
      var head: CString := if s[0] == '%' then "%%" else [s[0]];
      var tail := Escape(s[1..]);
      EscapeRoundTrip(s[1..], args, a);
      HeadPrints(s[0], args, a);
      Concatenation(head, tail, args, a);
      assert [s[0]] + s[1..] == s;
    }
  }

  lemma HeadPrints(c: char, args: Args, a: nat)
    requires c != NUL
    ensures Render(if c == '%' then "%%" else [c], 0, args, a) == Rendering([c], AtNul, a)
  {
    var fmt: CString := if c == '%' then "%%" else [c];
    PrependMore([c], "", Rendering("", AtNul, a));
    assert [c] + "" == [c];
    assert Render(fmt, |fmt|, args, a) == Rendering("", AtNul, a);
    if c == '%' {
      assert FromConversion(fmt, 1, NO_FLAGS, 0, NoLength, args, a) == Rendering("%", AtNul, a);
      assert FromLength(fmt, 1, NO_FLAGS, 0, NoLength, args, a) == Rendering("%", AtNul, a);
      assert FromPrecision(fmt, 1, NO_FLAGS, 0, args, a) == Rendering("%", AtNul, a);
      assert FromWidth(fmt, 1, NO_FLAGS, 0, args, a) == Rendering("%", AtNul, a);
    }
  }
}
