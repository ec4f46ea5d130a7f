/** What `strtol` (libc/string.c) reads, from the characters of the text: blanks, a sign, a prefix, and digits of any base. */
module StrtolLaw {
  import opened Numerals
  import opened Strtol
  import opened PrintParse
  import opened Directives

  const LOWER := "0123456789abcdefghijklmnopqrstuvwxyz"
  const UPPER := "0123456789ABCDEFGHIJKLMNOPQRSTUVWXYZ"

  /** The value of a digit of base 36, in either case, or -1. */
  function DigitOf(c: char): int {
    if c in LOWER then Place(c, LOWER) else Place(c, UPPER)
  }

  predicate IsDigitIn(c: char, base: int) {
    0 <= DigitOf(c) < base
  }

  function NumberOf(s: string, base: int): int {
    if s == "" then 0 else NumberOf(s[..|s| - 1], base) * base + DigitOf(s[|s| - 1])
  }

  /** Blank, tab, line feed, vertical tab, form feed or carriage return. */
  predicate IsBlank(c: char) {
    c as int in [9, 10, 11, 12, 13, 32]
  }

  lemma LetterAt(k: nat)
    requires k < 36
    ensures LOWER[k] == if k < 10 then '0' + k as char else 'a' + (k - 10) as char
    ensures UPPER[k] == if k < 10 then '0' + k as char else 'A' + (k - 10) as char
  {
  }

  lemma DigitLaw(c: char)
    ensures DigitValue(c) == DigitOf(c)
  {
    hide Place, DigitValue;
    forall k: nat | k < 36
      ensures LOWER[k] == (if k < 10 then '0' + k as char else 'a' + (k - 10) as char)
      ensures UPPER[k] == (if k < 10 then '0' + k as char else 'A' + (k - 10) as char)
      ensures DigitValue(LOWER[k]) == k == DigitValue(UPPER[k])
    {
      LetterAt(k);
      ValueAt(k);
    }
    HasLetter(c);
    if c in LOWER {
      var k :| 0 <= k < 36 && LOWER[k] == c;
      PlaceIs(LOWER, k);
    } else if c in UPPER {
      var k :| 0 <= k < 36 && UPPER[k] == c;
      PlaceIs(UPPER, k);
    }
  }

  lemma ValueAt(k: nat)
    requires k < 36
    ensures DigitValue(if k < 10 then '0' + k as char else 'a' + (k - 10) as char) == k
    ensures DigitValue(if k < 10 then '0' + k as char else 'A' + (k - 10) as char) == k
  {
  }

  lemma HasLetter(c: char)
    requires forall k: nat :: k < 36 ==>
      LOWER[k] == (if k < 10 then '0' + k as char else 'a' + (k - 10) as char) && UPPER[k] == (if k < 10 then '0' + k as char else 'A' + (k - 10) as char)
    ensures DigitValue(c) >= 0 ==> c in LOWER || c in UPPER
  {
    if '0' <= c <= '9' { assert LOWER[(c - '0') as int] == c; }
    if 'a' <= c <= 'z' { assert LOWER[(c - 'a') as int + 10] == c; }
    if 'A' <= c <= 'Z' { assert UPPER[(c - 'A') as int + 10] == c; }
  }

  /** Horner's rule from either end. */
  lemma {:induction false} NumberIs(s: string, base: nat)
    requires AllDigits(s, base)
    ensures Eval(s, base, 0) == NumberOf(s, base)
  {
    hide DigitOf, DigitValue;
    if s != "" {
      var front, c := s[..|s| - 1], s[|s| - 1];
      NumberIs(front, base);
      EvalSnoc(front, c, base);
      DigitLaw(c);
      assert front + [c] == s;
    }
  }

  /** A text that `strtol` can read: blanks, a sign, a hexadecimal prefix, at least one digit, and what follows them. */
  datatype Text = Text(blanks: string, sign: string, prefix: string, digits: string, rest: string)

  function TextOf(t: Text): string {
    t.blanks + t.sign + t.prefix + t.digits + t.rest
  }

  /** The base to read in: the one that is given, or, for 0, the one that the prefix or a leading zero shows. */
  function BaseFor(t: Text, base: int): int {
    if base != 0 then base
    else if t.prefix != "" then 16
    else if t.digits != "" && t.digits[0] == '0' then 8
    else 10
  }

  predicate WellFormed(t: Text, base: int) {
    var b := BaseFor(t, base);
    && (base == 0 || 2 <= base <= 36)
    && (forall c :: c in t.blanks ==> IsBlank(c)) && t.sign in ["", "-", "+"]
    && (t.prefix == "" || (b == 16 && t.prefix in ["0x", "0X"]))
    && t.digits != "" && (forall c :: c in t.digits ==> IsDigitIn(c, b))
    && (t.rest == "" || !IsDigitIn(t.rest[0], b))
    && (t.prefix == "" && t.digits == "0" && (base == 0 || base == 16) ==> t.rest == "" || t.rest[0] !in "xX")
    && '\0' !in t.rest
  }

  lemma Blanks(c: char)
    ensures IsBlank(c) <==> IsSpace(c)
    ensures IsBlank(c) ==> c != NUL
  {
  }

  lemma {:induction false} BlanksSkipped(s: CString, i: nat, j: nat)
    requires i <= j <= |s| && (forall k :: i <= k < j ==> IsSpace(s[k])) && !IsSpace(At(s, j))
    ensures SpaceEnd(s, i) == j
    decreases j - i
  {
    if i < j { BlanksSkipped(s, i + 1, j); }
  }

  /** Digits by their characters are the digits of `strtol`. */
  lemma DigitsAre(t: Text, base: int)
    requires WellFormed(t, base)
    ensures var b := BaseFor(t, base);
      && 2 <= b <= 36 && AllDigits(t.digits, b) && Eval(t.digits, b, 0) == NumberOf(t.digits, b) && t.digits != ""
      && (t.rest == "" || !IsDigitOf(t.rest[0], b))
  {
    var b := BaseFor(t, base);
    hide DigitOf, DigitValue, Eval, NumberOf;
    forall k | 0 <= k < |t.digits| ensures IsDigitOf(t.digits[k], b) {
      assert t.digits[k] in t.digits;
      DigitLaw(t.digits[k]);
    }
    NumberIs(t.digits, b);
    if t.rest != "" { DigitLaw(t.rest[0]); }
  }

  lemma NoNul(t: Text, base: int)
    requires WellFormed(t, base) && AllDigits(t.digits, BaseFor(t, base))
    ensures NUL !in t.blanks && NUL !in t.sign && NUL !in t.prefix && NUL !in t.digits && NUL !in t.rest
    ensures forall k :: 0 <= k < |t.blanks| ==> IsSpace(t.blanks[k])
  {
    forall k | 0 <= k < |t.blanks| ensures IsSpace(t.blanks[k]) && t.blanks[k] != NUL {
      assert t.blanks[k] in t.blanks;
      Blanks(t.blanks[k]);
    }
  }

  /** Where the parts of the text are. */
  lemma PartsOf(t: Text, base: int)
    requires WellFormed(t, base)
    ensures var s := TextOf(t); var i, k, h, e := |t.blanks|, |t.blanks| + |t.sign|, |t.blanks| + |t.sign| + |t.prefix|,
                                                  |t.blanks| + |t.sign| + |t.prefix| + |t.digits|;
      && NUL !in s && |s| == e + |t.rest| && (forall j :: 0 <= j < i ==> IsSpace(s[j]))
      && s[i..k] == t.sign && s[k..h] == t.prefix && s[h..e] == t.digits && s[e..] == t.rest
  {
    hide *;
    DigitsAre(t, base);
    NoNul(t, base);
    NoNulFive(t.blanks, t.sign, t.prefix, t.digits, t.rest);
    FiveParts(t.blanks, t.sign, t.prefix, t.digits, t.rest);
    TextIs(t);
    assert forall j :: 0 <= j < |t.blanks| ==> TextOf(t)[j] == TextOf(t)[..|t.blanks|][j];
  }

  lemma TextIs(t: Text)
    ensures TextOf(t) == t.blanks + t.sign + t.prefix + t.digits + t.rest
  {
  }

  /** A well-formed text without the tests for membership. */
  lemma Basics(t: Text, base: int)
    requires WellFormed(t, base)
    ensures t.sign == "" || t.sign == "-" || t.sign == "+"
    ensures t.prefix == "" || (BaseFor(t, base) == 16 && (t.prefix == "0x" || t.prefix == "0X"))
    ensures BaseFor(t, base) == if base != 0 then base else if t.prefix != "" then 16 else if t.digits[0] == '0' then 8 else 10
    ensures t.prefix == "" && t.digits == "0" && (base == 0 || base == 16) ==> t.rest == "" || (t.rest[0] != 'x' && t.rest[0] != 'X')
  {
    hide IsDigitIn, IsBlank;
  }

  lemma DigitFirst(c: char, b: int)
    requires IsDigitOf(c, b)
    ensures !IsSpace(c) && c != '-' && c != '+' && c != NUL
  {
  }

  lemma SignFirst()
    ensures !IsSpace('-') && !IsSpace('+') && !IsSpace('0')
  {
  }

  /** Behind the blanks comes the sign, or a digit. */
  lemma SignFound(t: Text, base: int)
    requires WellFormed(t, base)
    ensures var s, i := TextOf(t), |t.blanks|;
      && NUL !in s && SpaceEnd(s, 0) == i <= |s|
      && (At(s, i) == '-' <==> t.sign == "-") && (At(s, i) == '+' <==> t.sign == "+")
  {
    hide *;
    PartsOf(t, base);
    DigitsAre(t, base);
    Basics(t, base);
    SignFirst();
    var s: CString := TextOf(t);
    var i := |t.blanks|;
    FirstAt(s, i, t.sign);
    FirstAt(s, i + |t.sign|, t.prefix);
    FirstAt(s, i + |t.sign| + |t.prefix|, t.digits);
    FirstOfAll(t.digits, BaseFor(t, base));
    DigitFirst(t.digits[0], BaseFor(t, base));
    AtOf(s, i);
    BlanksSkipped(s, 0, i);
  }

  lemma FirstOfAll(ds: string, b: int)
    requires AllDigits(ds, b) && ds != ""
    ensures IsDigitOf(ds[0], b) && (|ds| > 1 ==> IsDigitOf(ds[1], b))
  {
  }

  lemma AtOf(s: CString, i: nat)
    ensures i < |s| ==> At(s, i) == s[i]
    ensures i == |s| ==> At(s, i) == NUL
  {
  }

  lemma FirstAt(s: string, i: nat, part: string)
    requires i + |part| <= |s| && s[i..i + |part|] == part
    ensures part != "" ==> i < |s| && s[i] == part[0]
    ensures |part| > 1 ==> i + 1 < |s| && s[i + 1] == part[1]
  {
  }

  /** The two characters that the base is found by. */
  lemma TwoAt(t: Text, base: int)
    requires WellFormed(t, base)
    ensures var s, k := TextOf(t), |t.blanks| + |t.sign|;
      && NUL !in s && k < |s| && t.digits != ""
      && (t.prefix != "" ==> At(s, k) == t.prefix[0] && |t.prefix| == 2 && At(s, k + 1) == t.prefix[1])
      && (t.prefix == "" ==> At(s, k) == t.digits[0])
      && (t.prefix == "" && |t.digits| > 1 ==> At(s, k + 1) == t.digits[1])
      && (t.prefix == "" && |t.digits| == 1 ==> At(s, k + 1) == if t.rest == "" then NUL else t.rest[0])
  {
    hide *;
    PartsOf(t, base);
    DigitsAre(t, base);
    Basics(t, base);
    var s: CString := TextOf(t);
    var k := |t.blanks| + |t.sign|;
    var h := k + |t.prefix|;
    var e := h + |t.digits|;
    FirstAt(s, k, t.prefix);
    FirstAt(s, h, t.digits);
    assert s[e..e + |t.rest|] == t.rest;
    FirstAt(s, e, t.rest);
    AtOf(s, k);
    AtOf(s, k + 1);
  }

  /** The base is found, and where the digits begin; the zero that shows an octal number is taken off. */
  lemma BaseFound(t: Text, base: int)
    requires WellFormed(t, base)
    ensures var s, k, h := TextOf(t), |t.blanks| + |t.sign|, |t.blanks| + |t.sign| + |t.prefix|;
      && NUL !in s && k <= |s| && t.digits != ""
      && DetectBase(s, k, base) == (BaseFor(t, base), if base == 0 && t.prefix == "" && t.digits[0] == '0' then h + 1 else h)
  {
    hide *;
    TwoAt(t, base);
    DigitsAre(t, base);
    Basics(t, base);
    FirstOfAll(t.digits, BaseFor(t, base));
    if |t.digits| > 1 && BaseFor(t, base) <= 16 { NoX(t.digits[1], BaseFor(t, base)); }
    Detected(TextOf(t), |t.blanks| + |t.sign|, base);
    NulIs();
  }

  lemma NulIs()
    ensures NUL == '\0'
  {
  }

  lemma Detected(s: CString, i: nat, base: int)
    requires i <= |s|
    ensures var hex := At(s, i) == '0' && (At(s, i + 1) == 'x' || At(s, i + 1) == 'X');
      DetectBase(s, i, base) ==
        if (base == 0 || base == 16) && hex then (16, i + 2)
        else if base == 0 then (if At(s, i) == '0' then (8, i + 1) else (10, i))
        else (base, i)
  {
  }

  lemma NoX(c: char, b: int)
    requires IsDigitOf(c, b) && b <= 16
    ensures c != 'x' && c != 'X'
  {
  }

  /**
    What `strtol` makes of such a text, whatever the base: the number of its digits, negated behind a minus sign and
    wrapped to 32 bits, and the place behind the last digit.
   */
  lemma Reads(t: Text, base: int)
    requires WellFormed(t, base)
    ensures NUL !in TextOf(t)
    ensures var v := NumberOf(t.digits, BaseFor(t, base));
      Parse(TextOf(t), base) == (Wrap32(if t.sign == "-" then -v else v), |t.blanks| + |t.sign| + |t.prefix| + |t.digits|)
  {
    hide *;
    PartsOf(t, base);
    DigitsAre(t, base);
    SignFound(t, base);
    BaseFound(t, base);
    BaseRange(t, base);
    SignLength(t, base);
    var s: CString := TextOf(t);
    var b := BaseFor(t, base);
    var zero := if base == 0 && t.prefix == "" && t.digits[0] == '0' then 1 else 0;
    var h := |t.blanks| + |t.sign| + |t.prefix|;
    var e := h + |t.digits|;
    DigitsFrom(s, h, t.digits, t.rest, zero, b);
    ParseSteps(s, base, |t.blanks|, h + zero, e, b);
    Negated(Eval(t.digits, b, 0));
  }

  /** Reading the digits, from the second one on if the first is a zero. */
  lemma DigitsFrom(s: CString, h: nat, digits: string, rest: string, zero: nat, b: int)
    requires 2 <= b && h + |digits| <= |s| && s[h..h + |digits|] == digits && s[h + |digits|..] == rest
    requires AllDigits(digits, b) && digits != "" && (rest == "" || !IsDigitOf(rest[0], b)) && zero <= 1 && (zero == 1 ==> digits[0] == '0')
    ensures DigitsEnd(s, h + zero, b) == h + |digits|
    ensures AllDigits(s[h + zero..h + |digits|], b) && Eval(s[h + zero..h + |digits|], b, 0) == Eval(digits, b, 0)
  {
    hide *;
    var e := h + |digits|;
    RestStarts(s, e, rest, b);
    if zero == 1 {
      ZeroDropped(digits, b);
      assert s[h + 1..e] == digits[1..];
      DigitsRead(s, h + 1, digits[1..], b);
    } else {
      DigitsRead(s, h, digits, b);
    }
  }

  lemma BaseRange(t: Text, base: int)
    requires WellFormed(t, base)
    ensures 2 <= BaseFor(t, base) <= 36
  {
  }

  lemma RestStarts(s: CString, e: nat, rest: string, b: int)
    requires e <= |s| && s[e..] == rest && (rest == "" || !IsDigitOf(rest[0], b))
    ensures !IsDigitOf(At(s, e), b)
  {
  }

  lemma SignLength(t: Text, base: int)
    requires WellFormed(t, base)
    ensures |t.sign| == if t.sign == "-" || t.sign == "+" then 1 else 0
  {
  }

  lemma Negated(v: int)
    ensures Wrap32(-Wrap32(v)) == Wrap32(-v)
  {
    CongruentWrap(-Wrap32(v), -v);
  }
}
