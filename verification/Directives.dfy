/**
  What a directive of libc/vsprintf.c prints, from the characters it is written in: an account of the format language
  that shares neither the flags, the bases nor the layout of `Vsprintf`.
 */
module Directives {
  import opened Numerals
  import opened Vsprintf

  // ---------- Numerals by their characters ----------

  function Place(c: char, alphabet: string): (k: int)
    ensures -1 <= k < |alphabet| && (k >= 0 <==> c in alphabet) && (k >= 0 ==> alphabet[k] == c)
  {
    if alphabet == "" then -1
    else if alphabet[|alphabet| - 1] == c then |alphabet| - 1
    else Place(c, alphabet[..|alphabet| - 1])
  }

  /** The value of a digit string, where the alphabet lists the digits 0, 1, 2 and so on. */
  function ValueOf(s: string, alphabet: string): int {
    if s == "" then 0 else ValueOf(s[..|s| - 1], alphabet) * |alphabet| + Place(s[|s| - 1], alphabet)
  }

  /** `s` is the numeral of `n`: digits of the alphabet, with that value, and no zero in front of others. */
  ghost predicate IsNumeral(s: string, alphabet: string, n: int) {
    s != "" && (forall c :: c in s ==> c in alphabet) && (s[0] == '0' ==> s == "0") && ValueOf(s, alphabet) == n
  }

  predicate IsAlphabet(alphabet: string, base: nat, small: bool) {
    |alphabet| == base <= 16 && alphabet == (if small then "0123456789abcdef" else "0123456789ABCDEF")[..base]
  }

  lemma DigitIs(d: nat, base: nat, small: bool, alphabet: string)
    requires IsAlphabet(alphabet, base, small) && d < base
    ensures DigitChar(d, small) == alphabet[d] && Place(alphabet[d], alphabet) == d
    ensures alphabet[d] == '0' <==> d == 0
  {
    hide DigitChar, Place;
    forall k: nat | k < base ensures alphabet[k] == DigitChar(k, small) { HexDigit(k, small); }
    assert forall k: nat :: k < base ==> DigitValue(alphabet[k]) == k;
    PlaceIs(alphabet, d);
    if d > 0 { assert DigitChar(0, small) == '0' by { HexDigit(0, small); } }
  }

  lemma HexDigit(d: nat, small: bool)
    requires d < 16
    ensures DigitChar(d, small) == (if small then "0123456789abcdef" else "0123456789ABCDEF")[d]
  {
  }

  lemma {:induction false} PlaceIs(alphabet: string, d: nat)
    requires d < |alphabet| && forall i, j :: 0 <= i < j < |alphabet| ==> alphabet[i] != alphabet[j]
    ensures Place(alphabet[d], alphabet) == d
  {
    if d < |alphabet| - 1 { PlaceIs(alphabet[..|alphabet| - 1], d); }
  }

  lemma ValueNone(alphabet: string)
    ensures ValueOf("", alphabet) == 0
  {
  }

  lemma ValueSnoc(s: string, c: char, alphabet: string)
    ensures ValueOf(s + [c], alphabet) == ValueOf(s, alphabet) * |alphabet| + Place(c, alphabet)
  {
    assert (s + [c])[..|s|] == s;
  }

  lemma {:induction false} DigitsAreNumeral(n: nat, base: nat, small: bool, alphabet: string)
    requires 2 <= base && IsAlphabet(alphabet, base, small)
    ensures IsNumeral(Digits(n, base, small), alphabet, n)
    ensures Digits(n, base, small)[0] == '0' ==> n == 0
    decreases n
  {
    hide Digits, DigitChar, Place, IsAlphabet;
    Size(alphabet, base, small);
    DigitsUnfold(n, base, small);
    var q, r := n / base, n % base;
    DigitIs(r, base, small, alphabet);
    var front := if n < base then "" else Digits(q, base, small);
    ValueSnoc(front, DigitChar(r, small), alphabet);
    if n < base {
      assert ValueOf("", alphabet) == 0;
    } else {
      DigitsAreNumeral(q, base, small, alphabet);
    }
  }

  lemma Size(alphabet: string, base: nat, small: bool)
    requires IsAlphabet(alphabet, base, small)
    ensures |alphabet| == base <= 16
  {
  }

  /** A number has one numeral. */
  lemma {:induction false} NumeralUnique(s: string, t: string, alphabet: string, n: int)
    requires |alphabet| >= 2 && alphabet[0] == '0' && IsNumeral(s, alphabet, n) && IsNumeral(t, alphabet, n)
    requires forall i, j :: 0 <= i < j < |alphabet| ==> alphabet[i] != alphabet[j]
    ensures s == t
    decreases |s|
  {
    var b, i, j := |alphabet|, |s| - 1, |t| - 1;
    var x, y := ValueOf(s[..i], alphabet), ValueOf(t[..j], alphabet);
    SameDivision(x, Place(s[i], alphabet), y, Place(t[j], alphabet), b);
    assert s == s[..i] + [s[i]] && t == t[..j] + [t[j]];
    FrontIs(s, alphabet);
    FrontIs(t, alphabet);
    if i > 0 && j > 0 {
      NumeralUnique(s[..i], t[..j], alphabet, x);
    }
  }

  /** In front of the last digit of a numeral is another numeral, and not that of 0. */
  lemma FrontIs(s: string, alphabet: string)
    requires |alphabet| >= 2 && alphabet[0] == '0' && s != "" && (forall c :: c in s ==> c in alphabet) && (s[0] == '0' ==> s == "0")
    requires forall i, j :: 0 <= i < j < |alphabet| ==> alphabet[i] != alphabet[j]
    ensures var f := s[..|s| - 1]; if f == "" then ValueOf(f, alphabet) == 0 else IsNumeral(f, alphabet, ValueOf(f, alphabet)) && ValueOf(f, alphabet) > 0
  {
    var f := s[..|s| - 1];
    if f != "" {
      assert f[0] == s[0] != '0';
      assert forall c :: c in f ==> c in s;
      Positive(f, alphabet);
    }
  }

  lemma {:induction false} Positive(s: string, alphabet: string)
    requires |alphabet| >= 2 && alphabet[0] == '0' && s != "" && (forall c :: c in s ==> c in alphabet) && s[0] != '0'
    ensures ValueOf(s, alphabet) > 0
  {
    var f, k := s[..|s| - 1], Place(s[|s| - 1], alphabet);
    if f == "" {
      assert k != 0;
    } else {
      assert f[0] == s[0] && forall c :: c in f ==> c in s;
      Positive(f, alphabet);
      AtLeastOnce(ValueOf(f, alphabet), |alphabet|);
    }
  }

  lemma SameDivision(x: int, r: nat, y: int, q: nat, b: nat)
    requires r < b && q < b && x * b + r == y * b + q
    ensures x == y && r == q
  {
    if x > y { AtLeastOnce(x - y, b); } else if x < y { AtLeastOnce(y - x, b); }
  }

  // ---------- Directives as they are written ----------

  /** One part of a width. The code takes any number of them; the last one counts. */
  datatype Width = Decimal(digits: string) | Star

  datatype Directive = Directive(flags: string, width: seq<Width>, precision: string, length: string, conversion: char)

  /** A directive with its parts in order: none of them could be read as belonging to the part before it. */
  predicate WellFormed(d: Directive) {
    && (forall c :: c in d.flags ==> c in "#0- +'I")
    && WidthFits(d.width)
    && (d.precision == "" || (d.precision[0] == '.' && forall c :: c in d.precision[1..] ==> c in "0123456789"))
    && (forall c :: c in d.length ==> c in "hlL")
    && d.conversion != '\0' && d.conversion !in "hlL"
    && (d.length == "" && d.precision != "" ==> d.conversion !in "0123456789" && (d.precision == "." ==> d.conversion != '*'))
    && (d.length == "" && d.precision == "" ==>
          && d.conversion !in "123456789*."
          && (d.conversion == '0' ==> d.width != [] && d.width[|d.width| - 1].Star?)
          && (d.width == [] ==> d.conversion !in "#0- +'I"))
  }

  /** Decimal numbers without a zero in front, and no two of them next to each other. */
  predicate WidthFits(w: seq<Width>) {
    && (forall k :: 0 <= k < |w| ==> PartFits(w[k]))
    && forall k :: 0 <= k < |w| - 1 ==> w[k].Star? || w[k + 1].Star?
  }

  predicate PartFits(w: Width) {
    w.Decimal? ==> w.digits != "" && w.digits[0] != '0' && forall c :: c in w.digits ==> c in "0123456789"
  }

  function Written(d: Directive): string {
    "%" + d.flags + WidthText(d.width) + d.precision + d.length + [d.conversion]
  }

  function WidthText(w: seq<Width>): string {
    if w == [] then "" else (match w[0] case Decimal(digits) => digits case Star => "*") + WidthText(w[1..])
  }

  // ---------- What they mean ----------

  /** The slots that the stars of a width take. */
  function Stars(w: seq<Width>): nat {
    if w == [] then 0 else (if w[0].Star? then 1 else 0) + Stars(w[1..])
  }

  /** The characters that the field is to have at least: none, a decimal number, or the magnitude of an `int` argument. */
  function FieldWidth(w: seq<Width>, args: Args, a: nat): int {
    if w == [] then 0
    else
      var front := w[..|w| - 1];
      match w[|w| - 1]
      case Decimal(digits) => ValueOf(digits, "0123456789")
      case Star =>
        var word := args.slot(a + Stars(front));
        if word < 0x8000_0000 then word else 0x1_0000_0000 - word
  }

  /** A star of the width finds a negative `int`. */
  predicate HasNegative(w: seq<Width>, args: Args, a: nat) {
    w != [] &&
    var front := w[..|w| - 1];
    HasNegative(front, args, a) || (w[|w| - 1].Star? && args.slot(a + Stars(front)) >= 0x8000_0000)
  }

  /** Padding goes to the right of the text: a flag asks for it, or a negative width. */
  predicate OnLeft(d: Directive, args: Args, a: nat) {
    '-' in d.flags || HasNegative(d.width, args, a)
  }

  /** The slot of the argument to convert. */
  function ArgumentSlot(d: Directive, a: nat): nat {
    a + Stars(d.width)
  }

  /** How often the last character stands at the end of the string. */
  function RunLength(s: string): nat {
    if s == "" then 0 else if |s| > 1 && s[|s| - 2] == s[|s| - 1] then 1 + RunLength(s[..|s| - 1]) else 1
  }

  /**
    The lengths for which the code takes eight bytes: `ll` and `L`, and, which is not meant, `h`. Of longer runs the
    parity counts.
   */
  predicate TakesEight(length: string) {
    length != "" &&
    match length[|length| - 1]
    case 'L' => true
    case 'l' => RunLength(length) % 2 == 0
    case _ => RunLength(length) % 2 == 1
  }

  predicate IsNumberConversion(c: char) {
    c in "diuxXobp"
  }

  /** The number that a conversion finds at slot `k`: signed for `d` and `i`, and the low word first. */
  function NumberAt(d: Directive, args: Args, k: nat): int {
    var word := args.slot(k);
    var long := word + 0x1_0000_0000 * args.slot(k + 1);
    if d.conversion == 'p' || !TakesEight(d.length) then
      if d.conversion in "di" && word >= 0x8000_0000 then word - 0x1_0000_0000 else word
    else if d.conversion in "di" && long >= 0x8000_0000_0000_0000 then long - 0x1_0000_0000_0000_0000
    else long
  }

  /** Of its magnitude the low 32 bits are printed. */
  function Shown(v: int): nat {
    (if v < 0 then -v else v) % 0x1_0000_0000
  }

  function Alphabet(c: char): string {
    if c in "xp" then "0123456789abcdef"
    else if c == 'X' then "0123456789ABCDEF"
    else if c == 'o' then "01234567"
    else if c == 'b' then "01"
    else "0123456789"
  }

  /** Sign or blank, and the prefix that shows the base. */
  function Before(d: Directive, v: int): string {
    (if v < 0 then "-" else if '+' in d.flags then "+" else if ' ' in d.flags then " " else "")
    + (if d.conversion == 'p' then "0x"
       else if '#' !in d.flags then ""
       else match d.conversion case 'x' => "0x" case 'X' => "0X" case 'o' => "0" case _ => "")
  }

  /** A field of at least so many characters. */
  function InField(head: string, body: string, width: int, left: bool, zeros: bool): string {
    var spare := width - |head| - |body|;
    if left then head + body + Repeat(' ', spare)
    else if zeros then head + Repeat('0', spare) + body
    else Repeat(' ', spare) + head + body
  }

  /** What a directive prints, where `body` is the numeral of its number. */
  function TextOf(d: Directive, args: Args, a: nat, body: string): string {
    var k, width, left := ArgumentSlot(d, a), FieldWidth(d.width, args, a), OnLeft(d, args, a);
    if IsNumberConversion(d.conversion) then InField(Before(d, NumberAt(d, args, k)), body, width, left, '0' in d.flags)
    else match d.conversion
      case 's' => InField("", if args.slot(k) == 0 then "(null)" else args.mem(args.slot(k)), width, left, false)
      case 'c' => InField("", [(args.slot(k) % 256) as char], width, left, false)
      case '%' => "%"
      case c => ['%', c]
  }

  /** The slot behind the arguments of a directive. */
  function SlotBehind(d: Directive, a: nat): nat {
    ArgumentSlot(d, a) +
      if d.conversion in "psc" then 1
      else if IsNumberConversion(d.conversion) then (if TakesEight(d.length) then 2 else 1)
      else 0
  }

  // ---------- Reading one ----------

  /** The flags of `f` and those written in `s`. */
  function WithFlags(f: Flags, s: string): Flags {
    f.(alternate := f.alternate || '#' in s, zeropad := f.zeropad || '0' in s, left := f.left || '-' in s,
       space := f.space || ' ' in s, plus := f.plus || '+' in s)
  }

  lemma FlagCharacters(c: char)
    ensures c in "#0- +'I" <==> IsFlag(c)
  {
  }

  lemma OneFlag(f: Flags, c: char, s: string)
    requires IsFlag(c)
    ensures WithFlags(AddFlag(f, c), s) == WithFlags(f, [c] + s)
  {
    assert forall x :: x in [c] + s <==> x == c || x in s;
  }

  lemma {:induction false} FlagsRead(fmt: CString, i: nat, s: string, f: Flags, args: Args, a: nat)
    requires i + |s| <= |fmt| && fmt[i..i + |s|] == s && !IsFlag(At(fmt, i + |s|)) && forall k :: 0 <= k < |s| ==> IsFlag(s[k])
    ensures FromFlags(fmt, i, f, args, a) == FromWidth(fmt, i + |s|, WithFlags(f, s), 0, args, a)
    decreases |s|
  {
    hide FromWidth, IsFlag, AddFlag, WithFlags;
    if s != "" {
      assert fmt[i] == fmt[i..i + |s|][0] == s[0];
      assert fmt[i + 1..i + 1 + |s[1..]|] == s[1..];
      FlagsRead(fmt, i + 1, s[1..], AddFlag(f, s[0]), args, a);
      OneFlag(f, s[0], s[1..]);
      assert s == [s[0]] + s[1..];
    } else {
      NoMoreFlags(f);
    }
  }

  lemma NoMoreFlags(f: Flags)
    ensures WithFlags(f, "") == f
  {
  }

  lemma DecimalDigit(c: char)
    ensures c in "0123456789" <==> IsDigit(c)
    ensures c in "0123456789" ==> Place(c, "0123456789") == (c - '0') as int
  {
    var all := "0123456789";
    if c in all {
      var k :| 0 <= k < |all| && all[k] == c;
      assert all[k] == '0' + k as char;
      PlaceIs(all, k);
    }
    if IsDigit(c) { assert all[(c - '0') as int] == c; }
  }

  lemma {:induction false} NumberRead(fmt: CString, i: nat, s: string, k: nat)
    requires i + |s| <= |fmt| && fmt[i..i + |s|] == s && !IsDigit(At(fmt, i + |s|)) && (forall c :: c in s ==> c in "0123456789") && k <= |s|
    ensures NumberEnd(fmt, i + k) == i + |s| && Number(fmt, i + k, ValueOf(s[..k], "0123456789")) == ValueOf(s, "0123456789")
    decreases |s| - k
  {
    hide Place, ValueOf;
    if k < |s| {
      var c := fmt[i + k];
      assert c == fmt[i..i + |s|][k] == s[k] && s[k] in s;
      DecimalDigit(c);
      ValueSnoc(s[..k], c, "0123456789");
      assert s[..k] + [c] == s[..k + 1];
      NumberRead(fmt, i, s, k + 1);
    } else {
      assert s[..k] == s;
    }
  }

  /** What has been read of a width: a number of characters, and whether a negative one has been seen. */
  datatype Seen = Seen(width: int, negative: bool)

  function See(v: Seen, w: Width, args: Args, a: nat): Seen {
    match w
    case Decimal(digits) => Seen(ValueOf(digits, "0123456789"), v.negative)
    case Star =>
      if args.slot(a) < 0x8000_0000 then Seen(args.slot(a), v.negative) else Seen(0x1_0000_0000 - args.slot(a), true)
  }

  function Seeing(f: Flags, v: Seen): Flags { f.(left := f.left || v.negative) }

  lemma PartRead(fmt: CString, i: nat, w: Width, f: Flags, v: Seen, args: Args, a: nat)
    requires PartFits(w)
    requires var t := WidthText([w]); i + |t| <= |fmt| && fmt[i..i + |t|] == t && (w.Decimal? ==> !IsDigit(At(fmt, i + |t|)))
    ensures FromWidth(fmt, i, Seeing(f, v), v.width, args, a) ==
      FromWidth(fmt, i + |WidthText([w])|, Seeing(f, See(v, w, args, a)), See(v, w, args, a).width, args, if w.Star? then a + 1 else a)
  {
    hide FromPrecision, Place, ValueOf;
    assert [w][1..] == [] && WidthText([]) == "";
    match w
    case Star =>
      assert WidthText([w]) == "*";
      assert fmt[i] == fmt[i..i + 1][0] == '*';
    case Decimal(digits) =>
      assert WidthText([w]) == digits;
      assert fmt[i] == fmt[i..i + |digits|][0] && digits[0] in digits;
      DecimalDigit(fmt[i]);
      NumberRead(fmt, i, digits, 0);
      assert digits[..0] == "";
      ValueNone("0123456789");
  }

  /** The parts from the `k`-th on, when those before have been read. */
  function SeenAt(w: seq<Width>, k: nat, args: Args, a: nat): Seen
    requires k <= |w|
  {
    if k == 0 then Seen(0, false) else See(SeenAt(w, k - 1, args, a), w[k - 1], args, a + Stars(w[..k - 1]))
  }

  lemma {:induction false} StarsSnoc(w: seq<Width>, x: Width)
    ensures Stars(w + [x]) == Stars(w) + if x.Star? then 1 else 0
  {
    if w == [] {
      assert w + [x] == [x];
    } else {
      assert (w + [x])[1..] == w[1..] + [x];
      StarsSnoc(w[1..], x);
    }
  }

  lemma {:induction false} TextSnoc(w: seq<Width>, x: Width)
    ensures WidthText(w + [x]) == WidthText(w) + WidthText([x])
  {
    if w == [] {
      assert w + [x] == [x];
    } else {
      assert (w + [x])[1..] == w[1..] + [x];
      TextSnoc(w[1..], x);
    }
  }

  lemma {:induction false} TextFrom(w: seq<Width>, k: nat)
    requires k <= |w|
    ensures WidthText(w) == WidthText(w[..k]) + WidthText(w[k..])
    decreases |w| - k
  {
    if k == |w| {
      assert w[..k] == w && w[k..] == [];
    } else {
      TextFrom(w, k + 1);
      TextSnoc(w[..k], w[k]);
      assert w[..k] + [w[k]] == w[..k + 1] && w[k..][1..] == w[k + 1..] && w[k..][0] == w[k];
      assert [w[k]][1..] == [];
    }
  }

  lemma {:induction false} PartsRead(fmt: CString, i: nat, w: seq<Width>, k: nat, f: Flags, args: Args, a: nat)
    requires WidthFits(w) && k <= |w| && i + |WidthText(w)| <= |fmt| && fmt[i..i + |WidthText(w)|] == WidthText(w)
    requires w != [] && w[|w| - 1].Decimal? ==> !IsDigit(At(fmt, i + |WidthText(w)|))
    ensures |WidthText(w[..k])| <= |WidthText(w)|
    ensures FromWidth(fmt, i + |WidthText(w[..k])|, Seeing(f, SeenAt(w, k, args, a)), SeenAt(w, k, args, a).width, args, a + Stars(w[..k])) ==
      FromWidth(fmt, i + |WidthText(w)|, Seeing(f, SeenAt(w, |w|, args, a)), SeenAt(w, |w|, args, a).width, args, a + Stars(w))
    decreases |w| - k
  {
    hide *;
    TextFrom(w, k);
    if k == |w| {
      assert w[..k] == w;
    } else {
      PartsRead(fmt, i, w, k + 1, f, args, a);
      PartPlace(fmt, i, w, k);
      SeenNext(w, k, args, a);
      PartRead(fmt, i + |WidthText(w[..k])|, w[k], f, SeenAt(w, k, args, a), args, a + Stars(w[..k]));
    }
  }

  lemma SeenNext(w: seq<Width>, k: nat, args: Args, a: nat)
    requires k < |w|
    ensures SeenAt(w, k + 1, args, a) == See(SeenAt(w, k, args, a), w[k], args, a + Stars(w[..k]))
    ensures Stars(w[..k + 1]) == Stars(w[..k]) + if w[k].Star? then 1 else 0
  {
    hide See;
    assert w[..k] + [w[k]] == w[..k + 1];
    StarsSnoc(w[..k], w[k]);
  }

  lemma SliceOfSlice(s: string, i: nat, n: nat, x: nat, y: nat)
    requires i + n <= |s| && x <= y <= n
    ensures s[i..i + n][x..y] == s[i + x..i + y]
  {
    var t := s[i..i + n];
    forall k | 0 <= k < y - x ensures t[x..y][k] == s[i + x..i + y][k] {
      assert t[x..y][k] == t[x + k] == s[i + (x + k)];
    }
  }

  /** Where the `k`-th part is, and that it ends there. */
  lemma PartPlace(fmt: CString, i: nat, w: seq<Width>, k: nat)
    requires WidthFits(w) && k < |w| && i + |WidthText(w)| <= |fmt| && fmt[i..i + |WidthText(w)|] == WidthText(w)
    requires w[|w| - 1].Decimal? ==> !IsDigit(At(fmt, i + |WidthText(w)|))
    ensures var at, t := i + |WidthText(w[..k])|, WidthText([w[k]]);
      && PartFits(w[k]) && at + |t| == i + |WidthText(w[..k + 1])| <= |fmt| && fmt[at..at + |t|] == t
      && (w[k].Decimal? ==> !IsDigit(At(fmt, at + |t|)))
  {
    hide WidthText, PartFits, IsDigit, At;
    TextSnoc(w[..k], w[k]);
    assert w[..k] + [w[k]] == w[..k + 1];
    TextFrom(w, k + 1);
    var x, y := |WidthText(w[..k])|, |WidthText(w[..k + 1])|;
    SliceOfSlice(fmt, i, |WidthText(w)|, x, y);
    if w[k].Decimal? {
      if k + 1 < |w| { StarNext(fmt, i, w, k + 1); } else { assert w[..k + 1] == w; }
    }
  }

  lemma StarNext(fmt: CString, i: nat, w: seq<Width>, k: nat)
    requires k < |w| && w[k].Star? && i + |WidthText(w)| <= |fmt| && fmt[i..i + |WidthText(w)|] == WidthText(w)
    ensures i + |WidthText(w[..k])| < |fmt| && !IsDigit(At(fmt, i + |WidthText(w[..k])|))
  {
    TextFrom(w, k);
    assert WidthText(w[k..])[0] == '*';
    assert fmt[i + |WidthText(w[..k])|] == fmt[i..i + |WidthText(w)|][|WidthText(w[..k])|];
  }

  /** The last part counts, and any negative star. */
  lemma {:induction false} SeenIs(w: seq<Width>, k: nat, args: Args, a: nat)
    requires k <= |w|
    ensures SeenAt(w, k, args, a) == Seen(FieldWidth(w[..k], args, a), HasNegative(w[..k], args, a))
  {
    hide ValueOf, Stars;
    var v := w[..k];
    if k > 0 {
      SeenIs(w, k - 1, args, a);
      assert v[..|v| - 1] == w[..k - 1];
    }
  }

  lemma WidthRead(fmt: CString, i: nat, w: seq<Width>, f: Flags, args: Args, a: nat)
    requires WidthFits(w) && i + |WidthText(w)| <= |fmt| && fmt[i..i + |WidthText(w)|] == WidthText(w)
    requires var c := At(fmt, i + |WidthText(w)|); c != '*' && (!IsDigit(c) || (c == '0' && (w == [] || w[|w| - 1].Star?)))
    ensures FromWidth(fmt, i, f, 0, args, a) ==
      FromPrecision(fmt, i + |WidthText(w)|, f.(left := f.left || HasNegative(w, args, a)), FieldWidth(w, args, a), args, a + Stars(w))
  {
    hide FromPrecision, SeenAt, FieldWidth, HasNegative;
    assert w[..0] == [] && w[..|w|] == w;
    PartsRead(fmt, i, w, 0, f, args, a);
    SeenIs(w, 0, args, a);
    SeenIs(w, |w|, args, a);
    NothingSeen(args, a);
  }

  lemma NothingSeen(args: Args, a: nat)
    ensures FieldWidth([], args, a) == 0 && !HasNegative([], args, a) && WidthText([]) == "" && Stars([]) == 0
  {
  }

  lemma PrecisionRead(fmt: CString, i: nat, p: string, f: Flags, width: int, args: Args, a: nat)
    requires i + |p| <= |fmt| && fmt[i..i + |p|] == p
    requires p == "" || (p[0] == '.' && forall c :: c in p[1..] ==> c in "0123456789")
    requires var c := At(fmt, i + |p|); if p == "" then c != '.' else !IsDigit(c) && (p == "." ==> c != '*')
    ensures FromPrecision(fmt, i, f, width, args, a) == FromLength(fmt, i + |p|, f, width, NoLength, args, a)
  {
    hide FromLength, Place, ValueOf;
    if p != "" {
      assert fmt[i] == fmt[i..i + |p|][0];
      assert fmt[i + 1..i + 1 + |p[1..]|] == p[1..];
      NumberRead(fmt, i + 1, p[1..], 0);
      if |p| > 1 {
        assert fmt[i + 1] == fmt[i..i + |p|][1] == p[1] && p[1] == p[1..][0] && p[1..][0] in p[1..];
        DecimalDigit(p[1]);
      }
    }
  }

  /** What the code makes of the length modifiers. */
  function LengthOf(s: string): Length {
    if s == "" then NoLength else AddLength(LengthOf(s[..|s| - 1]), s[|s| - 1])
  }

  lemma {:induction false} LengthRead(fmt: CString, i: nat, s: string, k: nat, f: Flags, width: int, args: Args, a: nat)
    requires i + |s| <= |fmt| && fmt[i..i + |s|] == s && !IsLength(At(fmt, i + |s|)) && k <= |s|
    requires forall j :: 0 <= j < |s| ==> IsLength(s[j])
    ensures FromLength(fmt, i + k, f, width, LengthOf(s[..k]), args, a) == FromConversion(fmt, i + |s|, f, width, LengthOf(s), args, a)
    decreases |s| - k
  {
    hide FromConversion, IsLength, AddLength;
    if k < |s| {
      assert fmt[i + k] == fmt[i..i + |s|][k] == s[k];
      assert s[..k + 1][..k] == s[..k];
      LengthRead(fmt, i, s, k + 1, f, width, args, a);
    } else {
      assert s[..k] == s;
    }
  }

  /** The length that has been read, by its last character and how often that stands at the end. */
  lemma {:induction false} LengthIs(s: string)
    requires forall j :: 0 <= j < |s| ==> IsLength(s[j])
    ensures s == "" ==> LengthOf(s) == NoLength
    ensures s != "" ==>
      var odd := RunLength(s) % 2 == 1;
      LengthOf(s) == match s[|s| - 1] case 'L' => Double case 'l' => (if odd then Long else LongLong) case _ => (if odd then Char else Short)
    ensures TakesTwoSlots(LengthOf(s)) <==> TakesEight(s)
  {
    if s != "" { LengthIs(s[..|s| - 1]); }
  }

  lemma LengthCharacters(c: char)
    ensures c in "hlL" <==> IsLength(c)
  {
  }

  // ---------- What is printed ----------

  /** The number that is fetched; of an unsigned one only the low 32 bits are printed. */
  lemma Fetched(d: Directive, args: Args, k: nat)
    requires IsNumberConversion(d.conversion) && d.conversion != 'p' && forall j :: 0 <= j < |d.length| ==> IsLength(d.length[j])
    ensures IsIntConversion(d.conversion)
    ensures var (num, k') := FetchInt(d.conversion, LengthOf(d.length), args, k); var v := NumberAt(d, args, k);
      && k' == (if TakesEight(d.length) then k + 2 else k + 1)
      && if d.conversion in "di" then num == v else v >= 0 && num % 0x1_0000_0000 == v % 0x1_0000_0000
  {
    var c := d.conversion;
    assert c in "diuxXobp" <==> c == 'd' || c == 'i' || c == 'u' || c == 'x' || c == 'X' || c == 'o' || c == 'b' || c == 'p';
    assert c in "di" <==> c == 'd' || c == 'i';
    LengthIs(d.length);
    hide TakesEight, LengthOf;
    var word, high := args.slot(k), args.slot(k + 1);
    LowWord(word, high);
  }

  lemma LowWord(word: nat, high: nat)
    requires word < 0x1_0000_0000 && high < 0x1_0000_0000
    ensures (word + 0x1_0000_0000 * high) % 0x1_0000_0000 == word
    ensures (word + 0x1_0000_0000 * high - 0x1_0000_0000_0000_0000) % 0x1_0000_0000 == word
  {
  }

  lemma IntTextIs(num: int, base: int, width: int, f: Flags, alphabet: string)
    requires 2 <= base <= 16 && IsAlphabet(alphabet, base, f.small)
    ensures IntText(num, base, width, f) == InField(Sign(num, f) + Prefix(base, f), Body(num, base, f), width, f.left, f.zeropad)
    ensures IsNumeral(Body(num, base, f), alphabet, Magnitude(num, f))
  {
    hide *;
    DigitsAreNumeral(Magnitude(num, f), base, f.small, alphabet);
    BodyIs(num, base, f);
    LaidOut(num, base, width, f);
  }

  lemma LaidOut(num: int, base: int, width: int, f: Flags)
    requires 2 <= base <= 16
    ensures IntText(num, base, width, f) == InField(Sign(num, f) + Prefix(base, f), Body(num, base, f), width, f.left, f.zeropad)
  {
    hide Body, Sign, Prefix, Repeat;
  }

  lemma AlphabetIs(c: char)
    requires IsNumberConversion(c)
    ensures IsAlphabet(Alphabet(c), if c == 'p' then 16 else BaseOf(c), c == 'x' || c == 'p')
  {
    assert c in "diuxXobp" <==> c == 'd' || c == 'i' || c == 'u' || c == 'x' || c == 'X' || c == 'o' || c == 'b' || c == 'p';
  }

  /** What is put before the digits. */
  lemma BeforeIs(d: Directive, num: int, v: int, f: Flags)
    requires IsNumberConversion(d.conversion)
    requires f == WithFlags(NO_FLAGS, d.flags).(left := f.left, small := d.conversion in "xp", signed := d.conversion in "di",
                                                alternate := '#' in d.flags || d.conversion == 'p')
    requires if d.conversion in "di" then num == v else v >= 0 && num % 0x1_0000_0000 == v % 0x1_0000_0000
    ensures Sign(num, f) + Prefix(if d.conversion == 'p' then 16 else BaseOf(d.conversion), f) == Before(d, v)
    ensures Magnitude(num, f) == Shown(v)
  {
    var c := d.conversion;
    assert c in "diuxXobp" <==> c == 'd' || c == 'i' || c == 'u' || c == 'x' || c == 'X' || c == 'o' || c == 'b' || c == 'p';
    assert c in "di" <==> c == 'd' || c == 'i';
    assert c in "xp" <==> c == 'x' || c == 'p';
  }

  lemma FlagsOf(d: Directive, f: Flags)
    requires IsNumberConversion(d.conversion) && d.conversion != 'p' && f == WithFlags(NO_FLAGS, d.flags).(left := f.left)
    ensures IntFlags(d.conversion, f) == f.(small := d.conversion in "xp", signed := d.conversion in "di")
    ensures f.alternate == ('#' in d.flags) && WithFlags(NO_FLAGS, d.flags).alternate == ('#' in d.flags)
  {
    var c := d.conversion;
    assert c in "di" <==> c == 'd' || c == 'i';
    assert c in "xp" <==> c == 'x' || c == 'p';
  }

  lemma NumberText(d: Directive, f: Flags, width: int, args: Args, k: nat) returns (body: string)
    requires IsNumberConversion(d.conversion) && forall j :: 0 <= j < |d.length| ==> IsLength(d.length[j])
    requires f == WithFlags(NO_FLAGS, d.flags).(left := f.left)
    ensures Convert(d.conversion, f, width, LengthOf(d.length), args, k) ==
      (InField(Before(d, NumberAt(d, args, k)), body, width, f.left, '0' in d.flags),
       if d.conversion != 'p' && TakesEight(d.length) then k + 2 else k + 1)
    ensures IsNumeral(body, Alphabet(d.conversion), Shown(NumberAt(d, args, k)))
  {
    hide *;
    AlphabetIs(d.conversion);
    if d.conversion == 'p' {
      body := PointerText(d, f, width, args, k);
    } else {
      Fetched(d, args, k);
      FlagsOf(d, f);
      var (num, k') := FetchInt(d.conversion, LengthOf(d.length), args, k);
      body := OneNumber(d, num, NumberAt(d, args, k), f.(small := d.conversion in "xp", signed := d.conversion in "di"), width);
      IntConverted(d, f, width, args, k);
    }
  }

  lemma IntConverted(d: Directive, f: Flags, width: int, args: Args, k: nat)
    requires IsIntConversion(d.conversion)
    ensures var (num, k') := FetchInt(d.conversion, LengthOf(d.length), args, k);
      Convert(d.conversion, f, width, LengthOf(d.length), args, k) == (IntText(num, BaseOf(d.conversion), width, IntFlags(d.conversion, f)), k')
  {
    hide IntText, FetchInt, BaseOf, IntFlags;
  }

  lemma PointerText(d: Directive, f: Flags, width: int, args: Args, k: nat) returns (body: string)
    requires d.conversion == 'p' && f == WithFlags(NO_FLAGS, d.flags).(left := f.left) && IsAlphabet(Alphabet('p'), 16, true)
    ensures Convert('p', f, width, LengthOf(d.length), args, k) ==
      (InField(Before(d, NumberAt(d, args, k)), body, width, f.left, '0' in d.flags), k + 1)
    ensures IsNumeral(body, Alphabet('p'), Shown(NumberAt(d, args, k)))
  {
    hide IntText, InField, Before, IsNumeral, Shown, Alphabet;
    assert 'p' in "diuxXobp" && 'p' in "xp" && 'p' !in "di";
    var v, num := NumberAt(d, args, k), Wrap32(args.slot(k));
    assert num % 0x1_0000_0000 == v;
    body := OneNumber(d, num, v, f.(small := true, alternate := true), width);
  }

  lemma OneNumber(d: Directive, num: int, v: int, f: Flags, width: int) returns (body: string)
    requires IsNumberConversion(d.conversion)
    requires IsAlphabet(Alphabet(d.conversion), if d.conversion == 'p' then 16 else BaseOf(d.conversion), f.small)
    requires f == WithFlags(NO_FLAGS, d.flags).(left := f.left, small := d.conversion in "xp", signed := d.conversion in "di",
                                                alternate := '#' in d.flags || d.conversion == 'p')
    requires if d.conversion in "di" then num == v else v >= 0 && num % 0x1_0000_0000 == v % 0x1_0000_0000
    ensures IntText(num, if d.conversion == 'p' then 16 else BaseOf(d.conversion), width, f) ==
      InField(Before(d, v), body, width, f.left, '0' in d.flags)
    ensures IsNumeral(body, Alphabet(d.conversion), Shown(v))
  {
    var base := if d.conversion == 'p' then 16 else BaseOf(d.conversion);
    hide IntText, InField, Before, IsNumeral, Shown, Alphabet, Body, Sign, Prefix, Magnitude;
    body := Body(num, base, f);
    IntTextIs(num, base, width, f, Alphabet(d.conversion));
    BeforeIs(d, num, v, f);
  }

  // ---------- The law ----------

  /** One part of a string behind another. */
  lemma PartAt(s: string, i: nat, a: string, b: string)
    requires i + |a + b| <= |s| && s[i..i + |a + b|] == a + b
    ensures s[i..i + |a|] == a && i + |a| + |b| <= |s| && s[i + |a|..i + |a| + |b|] == b
  {
    assert s[i..i + |a|] == (a + b)[..|a|];
    assert s[i + |a|..i + |a| + |b|] == (a + b)[|a|..];
  }

  /** Where the parts of a directive are. */
  lemma PartsAt(fmt: CString, i: nat, d: Directive)
    requires i + |Written(d)| <= |fmt| && fmt[i..i + |Written(d)|] == Written(d)
    ensures var f := i + 1; var w := f + |d.flags|; var p := w + |WidthText(d.width)|; var l := p + |d.precision|; var c := l + |d.length|;
      && c + 1 == i + |Written(d)| <= |fmt| && fmt[i] == '%' && fmt[f..w] == d.flags && fmt[w..p] == WidthText(d.width)
      && fmt[p..l] == d.precision && fmt[l..c] == d.length && fmt[c] == d.conversion
  {
    hide WidthText;
    var a1 := "%" + d.flags;
    var a2 := a1 + WidthText(d.width);
    var a3 := a2 + d.precision;
    var a4 := a3 + d.length;
    PartAt(fmt, i, a4, [d.conversion]);
    PartAt(fmt, i, a3, d.length);
    PartAt(fmt, i, a2, d.precision);
    PartAt(fmt, i, a1, WidthText(d.width));
    PartAt(fmt, i, "%", d.flags);
    assert fmt[i] == fmt[i..i + 1][0];
    assert fmt[i + |a4|] == fmt[i + |a4|..i + |a4| + 1][0];
  }

  lemma FirstOf(fmt: CString, i: nat, s: string)
    requires i + |s| <= |fmt| && fmt[i..i + |s|] == s
    ensures s == "" || fmt[i] == s[0]
  {
  }

  /** The conversion is not read as one of the parts that may be missing before it. */
  lemma Kinds(d: Directive)
    requires WellFormed(d)
    ensures var c := d.conversion;
      && c != NUL && !IsLength(c)
      && (d.length == "" && d.precision != "" ==> !IsDigit(c) && (d.precision == "." ==> c != '*'))
      && (d.length == "" && d.precision == "" ==>
            && c != '*' && c != '.' && (!IsDigit(c) || (c == '0' && d.width != [] && d.width[|d.width| - 1].Star?))
            && (d.width == [] ==> !IsFlag(c)))
  {
    hide WidthFits;
    var c := d.conversion;
    DecimalDigit(c);
    FlagCharacters(c);
    LengthCharacters(c);
    assert c in "0123456789" ==> c == '0' || c in "123456789*.";
    assert '*' in "123456789*." && '.' in "123456789*.";
  }

  lemma LengthFirst(d: Directive)
    requires WellFormed(d)
    ensures forall j :: 0 <= j < |d.length| ==> IsLength(d.length[j])
    ensures d.length != "" ==> var c := d.length[0]; !IsFlag(c) && !IsDigit(c) && c != '.' && c != '*'
    ensures d.precision != "" ==> d.precision[0] == '.'
  {
    hide WidthFits;
    forall j | 0 <= j < |d.length| ensures IsLength(d.length[j]) { LengthCharacters(d.length[j]); }
  }

  lemma WidthFirst(w: seq<Width>)
    requires WidthFits(w)
    ensures w == [] <==> WidthText(w) == ""
    ensures w != [] ==> !IsFlag(WidthText(w)[0])
  {
    if w != [] {
      assert PartFits(w[0]);
      if w[0].Decimal? {
        assert w[0].digits[0] in w[0].digits;
        DecimalDigit(w[0].digits[0]);
        assert WidthText(w)[0] == w[0].digits[0];
      } else {
        assert WidthText(w)[0] == '*';
      }
    }
  }

  /** What follows one of the parts of a directive does not belong to that part. */
  lemma NextIsNot(fmt: CString, i: nat, d: Directive)
    requires WellFormed(d) && i + |Written(d)| <= |fmt| && fmt[i..i + |Written(d)|] == Written(d)
    ensures var f := i + 1; var w := f + |d.flags|; var p := w + |WidthText(d.width)|; var l := p + |d.precision|; var c := l + |d.length|;
      && !IsFlag(fmt[w])
      && fmt[p] != '*' && (!IsDigit(fmt[p]) || (fmt[p] == '0' && (d.width == [] || d.width[|d.width| - 1].Star?)))
      && (d.precision == "" ==> fmt[p] != '.')
      && (d.precision != "" ==> !IsDigit(fmt[l]) && (d.precision == "." ==> fmt[l] != '*'))
      && !IsLength(fmt[c])
  {
    hide *;
    PartsAt(fmt, i, d);
    var f := i + 1;
    var w := f + |d.flags|;
    var p := w + |WidthText(d.width)|;
    var l := p + |d.precision|;
    Kinds(d);
    LengthFirst(d);
    WellFormedParts(d);
    WidthFirst(d.width);
    FirstOf(fmt, w, WidthText(d.width));
    FirstOf(fmt, p, d.precision);
    FirstOf(fmt, l, d.length);
    DotIs();
  }

  lemma DotIs()
    ensures !IsFlag('.') && !IsDigit('.')
  {
  }

  /** The flags when the conversion is reached. */
  function FlagsAt(d: Directive, args: Args, a: nat): Flags {
    WithFlags(NO_FLAGS, d.flags).(left := OnLeft(d, args, a))
  }

  lemma ConversionReached(fmt: CString, i: nat, d: Directive, args: Args, a: nat)
    requires WellFormed(d) && i + |Written(d)| <= |fmt| && fmt[i..i + |Written(d)|] == Written(d)
    ensures Render(fmt, i, args, a) ==
      FromConversion(fmt, i + |Written(d)| - 1, FlagsAt(d, args, a), FieldWidth(d.width, args, a), LengthOf(d.length), args, ArgumentSlot(d, a))
  {
    hide *;
    PartsAt(fmt, i, d);
    NextIsNot(fmt, i, d);
    WellFormedParts(d);
    var f := i + 1;
    var w := f + |d.flags|;
    var p := w + |WidthText(d.width)|;
    var l := p + |d.precision|;
    var c := l + |d.length|;
    AtIs(fmt, i, w);
    AtIs(fmt, i, p);
    AtIs(fmt, i, l);
    AtIs(fmt, i, c);
    DirectiveStarts(fmt, i, args, a);
    FlagsRead(fmt, f, d.flags, NO_FLAGS, args, a);
    WidthRead(fmt, w, d.width, WithFlags(NO_FLAGS, d.flags), args, a);
    FlagsAre(d, args, a);
    PrecisionRead(fmt, p, d.precision, FlagsAt(d, args, a), FieldWidth(d.width, args, a), args, ArgumentSlot(d, a));
    assert d.length[..0] == "";
    LengthRead(fmt, l, d.length, 0, FlagsAt(d, args, a), FieldWidth(d.width, args, a), args, ArgumentSlot(d, a));
  }

  lemma AtIs(fmt: CString, i: nat, k: nat)
    ensures k < |fmt| ==> At(fmt, k) == fmt[k]
  {
  }

  lemma DirectiveStarts(fmt: CString, i: nat, args: Args, a: nat)
    requires i < |fmt| && fmt[i] == '%'
    ensures Render(fmt, i, args, a) == FromFlags(fmt, i + 1, NO_FLAGS, args, a)
  {
  }

  lemma WellFormedParts(d: Directive)
    requires WellFormed(d)
    ensures forall k :: 0 <= k < |d.flags| ==> IsFlag(d.flags[k])
    ensures WidthFits(d.width)
    ensures d.precision == "" || (d.precision[0] == '.' && forall c :: c in d.precision[1..] ==> c in "0123456789")
    ensures forall j :: 0 <= j < |d.length| ==> IsLength(d.length[j])
  {
    hide WidthFits;
    forall k | 0 <= k < |d.flags| ensures IsFlag(d.flags[k]) { FlagCharacters(d.flags[k]); }
    forall j | 0 <= j < |d.length| ensures IsLength(d.length[j]) { LengthCharacters(d.length[j]); }
  }

  lemma FlagsAre(d: Directive, args: Args, a: nat)
    ensures var f := WithFlags(NO_FLAGS, d.flags); FlagsAt(d, args, a) == f.(left := f.left || HasNegative(d.width, args, a))
    ensures FlagsAt(d, args, a) == WithFlags(NO_FLAGS, d.flags).(left := FlagsAt(d, args, a).left)
    ensures FlagsAt(d, args, a).left == OnLeft(d, args, a) && ArgumentSlot(d, a) == a + Stars(d.width)
    ensures LengthOf("") == NoLength
  {
    hide HasNegative;
  }

  /** What a conversion prints, and the slot behind its argument. */
  lemma ConversionIs(d: Directive, args: Args, a: nat) returns (body: string)
    requires WellFormed(d)
    ensures var k := ArgumentSlot(d, a);
      Convert(d.conversion, FlagsAt(d, args, a), FieldWidth(d.width, args, a), LengthOf(d.length), args, k) ==
        (TextOf(d, args, a, body), SlotBehind(d, a))
    ensures IsNumberConversion(d.conversion) ==>
      IsNumeral(body, Alphabet(d.conversion), Shown(NumberAt(d, args, ArgumentSlot(d, a))))
  {
    hide *;
    WellFormedParts(d);
    FlagsAre(d, args, a);
    if IsNumberConversion(d.conversion) {
      body := NumberText(d, FlagsAt(d, args, a), FieldWidth(d.width, args, a), args, ArgumentSlot(d, a));
      NumberIs(d, args, a, body);
    } else {
      body := "";
      OtherIs(d, FlagsAt(d, args, a), args, a, body);
    }
  }

  lemma NumberIs(d: Directive, args: Args, a: nat, body: string)
    requires IsNumberConversion(d.conversion)
    ensures var k := ArgumentSlot(d, a);
      TextOf(d, args, a, body) ==
        InField(Before(d, NumberAt(d, args, k)), body, FieldWidth(d.width, args, a), FlagsAt(d, args, a).left, '0' in d.flags)
    ensures SlotBehind(d, a) == ArgumentSlot(d, a) + if d.conversion != 'p' && TakesEight(d.length) then 2 else 1
  {
    hide Before, NumberAt, InField, FieldWidth, TakesEight;
    assert d.conversion in "psc" <==> d.conversion == 'p' || d.conversion == 's' || d.conversion == 'c';
    assert 's' !in "diuxXobp" && 'c' !in "diuxXobp";
  }

  lemma OtherIs(d: Directive, f: Flags, args: Args, a: nat, body: string)
    requires !IsNumberConversion(d.conversion) && f.left == OnLeft(d, args, a)
    ensures Convert(d.conversion, f, FieldWidth(d.width, args, a), LengthOf(d.length), args, ArgumentSlot(d, a)) ==
      (TextOf(d, args, a, body), SlotBehind(d, a))
  {
    hide FieldWidth, OnLeft, ArgumentSlot;
    var c := d.conversion;
    assert c in "diuxXobp" <==> c == 'd' || c == 'i' || c == 'u' || c == 'x' || c == 'X' || c == 'o' || c == 'b' || c == 'p';
    assert c in "psc" <==> c == 'p' || c == 's' || c == 'c';
    var width := FieldWidth(d.width, args, a);
    forall s: string ensures PadText(s, width, f) == InField("", s, width, f.left, false) {
      hide Repeat;
      assert "" + s == s && Repeat(' ', width - |s|) + "" == Repeat(' ', width - |s|);
    }
  }

  /**
    What a directive prints, wherever it stands in a format and whatever its arguments: the numeral of its number in the
    base of its conversion, or its string or character, in a field that the flags and the width lay out. A `%c` that prints
    a NUL ends the output; otherwise the rest of the format goes on from the slot behind the arguments.
   */
  lemma DirectiveLaw(fmt: CString, i: nat, d: Directive, args: Args, a: nat) returns (body: string)
    requires WellFormed(d) && i + |Written(d)| <= |fmt| && fmt[i..i + |Written(d)|] == Written(d)
    ensures var text := TextOf(d, args, a, body);
      Render(fmt, i, args, a) ==
        if d.conversion == 'c' && args.slot(ArgumentSlot(d, a)) % 256 == 0 then Rendering(text, NulChar, SlotBehind(d, a))
        else Prepend(text, Render(fmt, i + |Written(d)|, args, SlotBehind(d, a)))
    ensures IsNumberConversion(d.conversion) ==>
      IsNumeral(body, Alphabet(d.conversion), Shown(NumberAt(d, args, ArgumentSlot(d, a))))
  {
    hide *;
    ConversionReached(fmt, i, d, args, a);
    body := ConversionIs(d, args, a);
    PartsAt(fmt, i, d);
    ConversionStep(fmt, i + |Written(d)| - 1, FlagsAt(d, args, a), FieldWidth(d.width, args, a), LengthOf(d.length), args, ArgumentSlot(d, a));
  }

  lemma ConversionStep(fmt: CString, i: nat, f: Flags, width: int, l: Length, args: Args, a: nat)
    requires i < |fmt|
    ensures var (text, a') := Convert(fmt[i], f, width, l, args, a);
      FromConversion(fmt, i, f, width, l, args, a) ==
        if fmt[i] == 'c' && args.slot(a) % 256 == 0 then Rendering(text, NulChar, a') else Prepend(text, Render(fmt, i + 1, args, a'))
  {
    hide Convert, Render;
  }
}
