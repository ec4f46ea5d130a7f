/** C strings, 32-bit wrap-around and positional numerals, as libc/vsprintf.c and libc/string.c use them. */
module Numerals {

  const NUL: char := '\0'
  const TWO31: int := 0x8000_0000
  const TWO32: int := 0x1_0000_0000

  /** The characters before a C string's terminator. */
  type CString = s: string | NUL !in s

  /** What reading index `i` of a C string yields; the terminator is at index `|s|`. */
  function At(s: CString, i: nat): char
    requires i <= |s|
  {
    if i < |s| then s[i] else NUL
  }

  predicate IsDigit(c: char) {
    '0' <= c <= '9'
  }

  /** The 32-bit signed integer that is congruent to `x`. */
  function Wrap32(x: int): (r: int)
    ensures -TWO31 <= r < TWO31 && (x - r) % TWO32 == 0
    ensures -TWO31 <= x < TWO31 ==> r == x
  {
    var m := x % TWO32;
    if m < TWO31 then m else m - TWO32
  }

  lemma CongruentWrap(x: int, y: int)
    requires (x - y) % TWO32 == 0
    ensures Wrap32(x) == Wrap32(y)
  {
  }

  /** Wrapping at every step of an accumulation is wrapping once at the end. */
  lemma WrapStep(x: int, b: int, d: int)
    ensures Wrap32(Wrap32(x) * b + d) == Wrap32(x * b + d)
  {
    var k := (x - Wrap32(x)) / TWO32;
    assert x == Wrap32(x) + k * TWO32;
    assert (x * b + d) - (Wrap32(x) * b + d) == (k * b) * TWO32 by {
      assert (Wrap32(x) + k * TWO32) * b == Wrap32(x) * b + (k * b) * TWO32;
    }
    CongruentWrap(x * b + d, Wrap32(x) * b + d);
  }

  // ---------- Digits ----------

  /** The digit characters that `fmt_int` picks from. */
  function DigitChar(d: nat, small: bool): (c: char)
    requires d < 16
    ensures c != NUL && DigitValue(c) == d
  {
    if d < 10 then '0' + d as char else if small then 'a' + (d - 10) as char else 'A' + (d - 10) as char
  }

  /** The value that `strtol` gives to a character, or -1. */
  function DigitValue(c: char): (d: int)
    ensures -1 <= d < 36
  {
    if '0' <= c <= '9' then (c - '0') as int
    else if 'a' <= c <= 'z' then (c - 'a') as int + 10
    else if 'A' <= c <= 'Z' then (c - 'A') as int + 10
    else -1
  }

  predicate IsDigitOf(c: char, base: int) {
    0 <= DigitValue(c) < base
  }

  predicate AllDigits(s: string, base: int) {
    forall k :: 0 <= k < |s| ==> IsDigitOf(s[k], base)
  }

  lemma DivMod(n: nat, b: nat)
    requires b >= 2
    ensures n == (n / b) * b + n % b && 0 <= n % b < b && 0 <= n / b <= n
    ensures 2 * (n / b) <= n && (n > 0 ==> n / b < n)
  {
    AtMostHalf(n, b, n / b, n % b);
  }

  lemma AtMostHalf(n: nat, b: nat, q: nat, r: nat)
    requires b >= 2 && n == q * b + r
    ensures q <= n && 2 * q <= n && (n > 0 ==> q < n)
  {
    assert q * b == 2 * q + q * (b - 2);
    assert 0 <= q * (b - 2);
  }

  lemma AtLeastOnce(q: nat, b: nat)
    requires q >= 1
    ensures q * b >= b
  {
    assert (q - 1) * b >= 0;
  }

  /** The numeral of `n`, most significant digit first. */
  function Digits(n: nat, base: nat, small: bool): (s: string)
    requires 2 <= base <= 16
    ensures |s| >= 1 && AllDigits(s, base)
    decreases n
  {
    DivMod(n, base);
    (if n < base then "" else Digits(n / base, base, small)) + [DigitChar(n % base, small)]
  }

  /** The value of a digit string, read after the value `acc`. */
  function Eval(s: string, base: nat, acc: nat): nat
    requires AllDigits(s, base)
    decreases |s|
  {
    if s == "" then acc else Eval(s[1..], base, acc * base + DigitValue(s[0]))
  }

  lemma {:induction false} EvalConcat(s: string, t: string, base: nat, acc: nat)
    requires AllDigits(s, base) && AllDigits(t, base)
    ensures AllDigits(s + t, base) && Eval(s + t, base, acc) == Eval(t, base, Eval(s, base, acc))
    decreases |s|
  {
    if s == "" {
      assert s + t == t;
    } else {
      EvalConcat(s[1..], t, base, acc * base + DigitValue(s[0]));
      assert (s + t)[1..] == s[1..] + t;
    }
  }

  lemma EvalOne(s: string, base: nat, acc: nat)
    requires |s| == 1 && AllDigits(s, base)
    ensures Eval(s, base, acc) == acc * base + DigitValue(s[0])
  {
    assert s[1..] == "";
  }

  lemma LastAlone(r: nat, base: nat, small: bool)
    requires r < base <= 16
    ensures AllDigits([DigitChar(r, small)], base) && DigitValue(DigitChar(r, small)) == r
  {
  }

  lemma DigitsUnfold(n: nat, base: nat, small: bool)
    requires 2 <= base <= 16
    ensures n == n / base * base + n % base && 0 <= n % base < base && 0 <= n / base
    ensures if n < base then n % base == n else 1 <= n / base < n
    ensures Digits(n, base, small) == (if n < base then "" else Digits(n / base, base, small)) + [DigitChar(n % base, small)]
    ensures n < base ==> Digits(n, base, small) == [DigitChar(n % base, small)]
  {
    DivMod(n, base);
    if n / base == 0 { assert n / base * base == 0; } else { AtLeastOnce(n / base, base); }
  }

  /** The numeral of a number evaluates back to it. */
  lemma {:induction false} EvalDigits(n: nat, base: nat, small: bool)
    requires 2 <= base <= 16
    ensures Eval(Digits(n, base, small), base, 0) == n
    decreases n
  {
    hide Digits, Eval, DigitChar, AllDigits;
    DigitsUnfold(n, base, small);
    var q, r := n / base, n % base;
    var last := [DigitChar(r, small)];
    LastAlone(r, base, small);
    EvalOne(last, base, q);
    if n < base {
      EvalOne(last, base, 0);
    } else {
      EvalDigits(q, base, small);
      EvalConcat(Digits(q, base, small), last, base, 0);
    }
  }

  /** `n` copies of `c`. */
  function Repeat(c: char, n: int): (s: string)
    ensures |s| == if n > 0 then n else 0
    ensures forall k :: 0 <= k < |s| ==> s[k] == c
  {
    if n <= 0 then "" else [c] + Repeat(c, n - 1)
  }

  lemma {:induction false} EvalZeros(n: int, base: nat)
    requires base >= 2
    ensures AllDigits(Repeat('0', n), base) && Eval(Repeat('0', n), base, 0) == 0
  {
    if n > 0 {
      EvalZeros(n - 1, base);
      assert Repeat('0', n)[1..] == Repeat('0', n - 1);
    }
  }
}
