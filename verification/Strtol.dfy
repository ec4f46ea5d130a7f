/** libc/string.c: the number parser `strtol`. */
module Strtol {
  import opened Numerals

  predicate IsSpace(c: char) {
    c == ' ' || c == '\t' || c == '\n' || c as int == 11 || c as int == 12 || c == '\r'
  }

  function SpaceEnd(s: CString, i: nat): (j: nat)
    requires i <= |s|
    ensures i <= j <= |s|
    decreases |s| - i
  {
    if IsSpace(At(s, i)) then SpaceEnd(s, i + 1) else i
  }

  /** The base to read in, and where the digits start, once the sign has been read. */
  function DetectBase(s: CString, i: nat, base: int): (r: (int, nat))
    requires i <= |s|
    ensures i <= r.1 <= |s|
  {
    var hex := At(s, i) == '0' && (At(s, i + 1) == 'x' || At(s, i + 1) == 'X');
    if base == 0 then
      if At(s, i) == '0' then (if hex then (16, i + 2) else (8, i + 1)) else (10, i)
    else if base == 16 && hex then (16, i + 2)
    else (base, i)
  }

  function DigitsEnd(s: CString, i: nat, base: int): (j: nat)
    requires i <= |s|
    ensures i <= j <= |s| && AllDigits(s[i..j], base) && !IsDigitOf(At(s, j), base)
    decreases |s| - i
  {
    if IsDigitOf(At(s, i), base) then
      var j := DigitsEnd(s, i + 1, base);
      assert s[i..j] == [s[i]] + s[i + 1..j];
      j
    else i
  }

  /** The value of the digits `s[i..j]`, in 32 bits. */
  function Value(s: CString, i: nat, j: nat, base: int): int
    requires i <= j <= |s| && AllDigits(s[i..j], base)
  {
    if base < 0 then 0 else Wrap32(Eval(s[i..j], base, 0))
  }

  /** What the source computes: the value, and the index that `*endptr` gets. */
  function Parse(s: CString, base: int): (int, nat) {
    var i := SpaceEnd(s, 0);
    var negative := At(s, i) == '-';
    var k := if negative || At(s, i) == '+' then i + 1 else i;
    var (b, start) := DetectBase(s, k, base);
    var end := DigitsEnd(s, start, b);
    var v := Value(s, start, end, b);
    (if negative then Wrap32(-v) else v, end)
  }

  lemma EvalSnoc(s: string, c: char, base: nat)
    requires AllDigits(s, base) && IsDigitOf(c, base)
    ensures AllDigits(s + [c], base) && Eval(s + [c], base, 0) == Eval(s, base, 0) * base + DigitValue(c)
  {
    EvalConcat(s, [c], base, 0);
    assert [c][1..] == "";
  }

  lemma {:induction false} SameEnd(s: CString, i: nat, j: nat, base: int)
    requires i <= j <= |s| && AllDigits(s[i..j], base)
    ensures DigitsEnd(s, i, base) == DigitsEnd(s, j, base)
    decreases j - i
  {
    if i < j {
      assert s[i] == s[i..j][0] && s[i..j][1..] == s[i + 1..j];
      SameEnd(s, i + 1, j, base);
    }
  }

  /** The conversion loop of `strtol`. */
  method ConvertDigits(str: CString, start: nat, base: int) returns (result: int, s: nat)
    requires start <= |str|
    ensures s == DigitsEnd(str, start, base) && result == Value(str, start, s, base)
  {
    s, result := start, 0;
    assert str[start..start] == "";
    while At(str, s) != NUL
      invariant start <= s <= |str| && AllDigits(str[start..s], base)
      invariant result == Value(str, start, s, base)
      decreases |str| - s
    {
      var c := At(str, s);
      var digit;
      if '0' <= c <= '9' {
        digit := (c - '0') as int;
      } else if 'a' <= c <= 'z' {
        digit := (c - 'a') as int + 10;
      } else if 'A' <= c <= 'Z' {
        digit := (c - 'A') as int + 10;
      } else {
        break;
      }
      if digit >= base {
        break;
      }
      assert str[start..s + 1] == str[start..s] + [c];
      EvalSnoc(str[start..s], c, base);
      WrapStep(Eval(str[start..s], base, 0), base, digit);
      result := Wrap32(result * base + digit);
      s := s + 1;
    }
    SameEnd(str, start, s, base);
  }

  /** `strtol` on 32-bit longs, with overflow wrapping around. */
  method Strtol(str: CString, base0: int) returns (value: int, endptr: nat)
    ensures (value, endptr) == Parse(str, base0)
  {
    hide Value, DigitsEnd, Wrap32, IsSpace, AllDigits;
    var s, base, negative := 0, base0, false;
    while IsSpace(At(str, s))
      invariant 0 <= s <= |str| && SpaceEnd(str, s) == SpaceEnd(str, 0)
      decreases |str| - s
    {
      s := s + 1;
    }
    if At(str, s) == '-' {
      negative := true;
      s := s + 1;
    } else if At(str, s) == '+' {
      s := s + 1;
    }
    ghost var k := s;
    if base == 0 {
      if At(str, s) == '0' {
        if At(str, s + 1) == 'x' || At(str, s + 1) == 'X' {
          base := 16;
          s := s + 2;
        } else {
          base := 8;
          s := s + 1;
        }
      } else {
        base := 10;
      }
    } else if base == 16 && At(str, s) == '0' && (At(str, s + 1) == 'x' || At(str, s + 1) == 'X') {
      s := s + 2;
    }
    assert (base, s) == DetectBase(str, k, base0);
    var result;
    result, endptr := ConvertDigits(str, s, base);
    value := if negative then Wrap32(-result) else result;
  }
}
