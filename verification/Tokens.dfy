/** libc/string.c: the destructive tokenizers `strtok_r` and `strtok`, on one memory that pointers index. */
module Tokens {
  import opened Numerals

  datatype Ptr = Null | To(i: nat)

  datatype Span = Span(start: nat, end: nat)

  // ---------- Strings in memory ----------

  /** A C string starts at `i`: its terminator is inside the memory. */
  ghost predicate Terminated(m: seq<char>, i: nat) {
    exists k :: i <= k < |m| && m[k] == NUL
  }

  function End(m: seq<char>, i: nat): (e: nat)
    requires Terminated(m, i)
    ensures i <= e < |m| && m[e] == NUL && NUL !in m[i..e]
    decreases |m| - i
  {
    if m[i] == NUL then i else End(m, i + 1)
  }

  /** The C string that starts at `i`. */
  function Str(m: seq<char>, i: nat): CString
    requires Terminated(m, i)
  {
    m[i..End(m, i)]
  }

  /** Where the string at a pointer would have to be terminated for the pointer to be usable. */
  ghost predicate Usable(m: seq<char>, p: Ptr) {
    p.To? ==> Terminated(m, p.i)
  }

  lemma StrAt(m: seq<char>, i: nat, k: nat)
    requires Terminated(m, i) && i <= k <= End(m, i)
    ensures Terminated(m, k) && End(m, k) == End(m, i)
    decreases k - i
  {
    if i < k {
      assert m[i] == m[i..End(m, i)][0];
      StrAt(m, i + 1, k);
    }
  }

  /** A character of the string, or its terminator. */
  lemma CharAt(m: seq<char>, i: nat, k: nat)
    requires Terminated(m, i) && k <= |Str(m, i)|
    ensures i + k < |m| && m[i + k] == At(Str(m, i), k)
  {
  }

  // ---------- One token ----------

  /** The first index from `i` on that holds no delimiter. */
  function SkipDelims(s: string, delim: set<char>, i: nat): (j: nat)
    requires i <= |s|
    ensures i <= j <= |s| && (forall k :: i <= k < j ==> s[k] in delim) && (j < |s| ==> s[j] !in delim)
    decreases |s| - i
  {
    if i < |s| && s[i] in delim then SkipDelims(s, delim, i + 1) else i
  }

  /** The first index from `i` on that holds a delimiter. */
  function TokenEnd(s: string, delim: set<char>, i: nat): (j: nat)
    requires i <= |s|
    ensures i <= j <= |s| && (forall k :: i <= k < j ==> s[k] !in delim) && (j < |s| ==> s[j] in delim)
    decreases |s| - i
  {
    if i < |s| && s[i] !in delim then TokenEnd(s, delim, i + 1) else i
  }

  /** Memory `m` after the token that ends at `e` in the string at `p` has been cut off. */
  function Cut(m: seq<char>, p: nat, e: nat): seq<char>
    requires Terminated(m, p) && e <= |Str(m, p)|
  {
    if e < |Str(m, p)| then m[p + e := NUL] else m
  }

  /** Where the search goes on. */
  function Rest(m: seq<char>, p: nat, e: nat): Ptr
    requires Terminated(m, p)
  {
    if e < |Str(m, p)| then To(p + e + 1) else Null
  }

  function CharsOf(delim: string): set<char> {
    set c | c in delim
  }

  /** The first place of a character; the terminator is never found. */
  method Strchr(str: CString, c: char) returns (r: Ptr)
    ensures match r
      case Null => c !in str
      case To(i) => i < |str| && str[i] == c && c !in str[..i]
  {
    var d := 0;
    assert |str| > 0 ==> str[0] in str;
    while At(str, d) != NUL
      invariant 0 <= d <= |str| && c !in str[..d]
      invariant At(str, d) != NUL <==> d < |str|
      decreases |str| - d
    {
      if str[d] == c {
        return To(d);
      }
      d := d + 1;
      assert d < |str| ==> str[d] in str;
    }
    return Null;
  }

  /** A call of `strtok_r` that goes on at `p` cuts off the first run of other characters than delimiters, or finds none. */
  ghost predicate Takes(c: seq<char>, c': seq<char>, p: Ptr, delim: set<char>, token: Ptr, saveptr: Ptr)
    requires Usable(c, p)
  {
    if p == Null || SkipDelims(Str(c, p.i), delim, 0) == |Str(c, p.i)| then token == Null && saveptr == Null && c' == c
    else
      var s := Str(c, p.i); var b := SkipDelims(s, delim, 0); var e := TokenEnd(s, delim, b);
      token == To(p.i + b) && saveptr == Rest(c, p.i, e) && c' == Cut(c, p.i, e)
  }

  /** The first loop of `strtok_r`: moves `str` past the delimiters. */
  method PassDelims(mem: array<char>, start: nat, delim: CString) returns (str: nat)
    requires Terminated(mem[..], start)
    ensures str == start + SkipDelims(Str(mem[..], start), CharsOf(delim), 0)
  {
    ghost var m := mem[..];
    ghost var s := Str(m, start);
    str := start;
    CharAt(m, start, 0);
    while mem[str] != NUL
      invariant start <= str <= start + |s| && SkipDelims(s, CharsOf(delim), str - start) == SkipDelims(s, CharsOf(delim), 0)
      invariant mem[str] == At(s, str - start)
      decreases start + |s| - str
    {
      var d := Strchr(delim, mem[str]);
      if d == Null {
        break;
      }
      CharAt(m, start, str - start + 1);
      str := str + 1;
    }
  }

  /** The second loop of `strtok_r`, and the only one of `strtok`: moves `str` to the next delimiter. */
  method PassToken(mem: array<char>, start: nat, b: nat, delim: CString) returns (str: nat)
    requires Terminated(mem[..], start) && b <= |Str(mem[..], start)|
    ensures str == start + TokenEnd(Str(mem[..], start), CharsOf(delim), b)
  {
    ghost var m := mem[..];
    ghost var s := Str(m, start);
    str := start + b;
    CharAt(m, start, b);
    while mem[str] != NUL
      invariant start + b <= str <= start + |s| && TokenEnd(s, CharsOf(delim), str - start) == TokenEnd(s, CharsOf(delim), b)
      invariant mem[str] == At(s, str - start)
      decreases start + |s| - str
    {
      var d := Strchr(delim, mem[str]);
      if d != Null {
        break;
      }
      CharAt(m, start, str - start + 1);
      str := str + 1;
    }
  }

  method StrtokR(mem: array<char>, str0: Ptr, delim: CString, saveptr0: Ptr) returns (token: Ptr, saveptr: Ptr)
    requires Usable(mem[..], if str0 == Null then saveptr0 else str0)
    modifies mem
    ensures Takes(old(mem[..]), mem[..], if str0 == Null then saveptr0 else str0, CharsOf(delim), token, saveptr)
  {
    var p := if str0 == Null then saveptr0 else str0;
    if p == Null {
      return Null, Null;
    }
    ghost var s := Str(mem[..], p.i);
    CharAt(mem[..], p.i, 0);
    if mem[p.i] == NUL {
      return Null, Null;
    }
    var start := PassDelims(mem, p.i, delim);
    CharAt(mem[..], p.i, start - p.i);
    if mem[start] == NUL {
      return Null, Null;
    }
    token := To(start);
    var str := PassToken(mem, p.i, start - p.i, delim);
    CharAt(mem[..], p.i, str - p.i);
    if mem[str] != NUL {
      mem[str] := NUL;
      saveptr := To(str + 1);
    } else {
      saveptr := Null;
    }
  }

  /** A call of `strtok` that goes on at `p` cuts off what comes before the next delimiter, which may be nothing. */
  ghost predicate TakesField(c: seq<char>, c': seq<char>, p: Ptr, delim: set<char>, token: Ptr, nextToken: Ptr)
    requires Usable(c, p)
  {
    if p == Null || Str(c, p.i) == "" then token == Null && nextToken == p && c' == c
    else
      var e := TokenEnd(Str(c, p.i), delim, 0);
      token == p && nextToken == Rest(c, p.i, e) && c' == Cut(c, p.i, e)
  }

  /** `strtok` keeps its place in a static pointer. */
  class Tokenizer {
    var nextToken: Ptr

    constructor ()
      ensures nextToken == Null
    {
      nextToken := Null;
    }

    method Strtok(mem: array<char>, str: Ptr, delim: CString) returns (token: Ptr)
      requires Usable(mem[..], if str == Null then nextToken else str)
      modifies this, mem
      ensures TakesField(old(mem[..]), mem[..], if str == Null then old(nextToken) else str, CharsOf(delim), token, nextToken)
    {
      if str != Null {
        nextToken := str;
      }
      if nextToken == Null {
        return Null;
      }
      token := nextToken;
      var start := nextToken.i;
      CharAt(mem[..], start, 0);
      if mem[start] == NUL {
        return Null;
      }
      var next := PassToken(mem, start, 0, delim);
      CharAt(mem[..], start, next - start);
      if mem[next] != NUL {
        mem[next] := NUL;
        nextToken := To(next + 1);
      } else {
        nextToken := Null;
      }
    }
  }

  // ---------- All tokens ----------

  /** The tokens that calling `strtok_r` until it returns NULL yields, as spans of the string. */
  function SpansR(s: string, delim: set<char>, from: nat): seq<Span>
    requires from <= |s|
    decreases |s| - from, 1
  {
    var b := SkipDelims(s, delim, from);
    if b == |s| then [] else [Span(b, TokenEnd(s, delim, b))] + BehindR(s, delim, TokenEnd(s, delim, b))
  }

  function BehindR(s: string, delim: set<char>, e: nat): seq<Span>
    requires e <= |s|
    decreases |s| - e, 0
  {
    if e < |s| then SpansR(s, delim, e + 1) else []
  }

  /** The tokens that calling `strtok` until it returns NULL yields, as spans of the string. */
  function Spans(s: string, delim: set<char>, from: nat): seq<Span>
    requires from <= |s|
    decreases |s| - from, 1
  {
    if from == |s| then [] else [Span(from, TokenEnd(s, delim, from))] + Behind(s, delim, TokenEnd(s, delim, from))
  }

  function Behind(s: string, delim: set<char>, e: nat): seq<Span>
    requires e <= |s|
    decreases |s| - e, 0
  {
    if e < |s| then Spans(s, delim, e + 1) else []
  }

  lemma {:induction false} SameTail(m: seq<char>, c: seq<char>, i: nat)
    requires Terminated(m, i) && |c| == |m| && c[i..] == m[i..]
    ensures Terminated(c, i) && End(c, i) == End(m, i) && Str(c, i) == Str(m, i)
    decreases |m| - i
  {
    assert forall k :: i <= k < |m| ==> c[k] == c[i..][k - i] == m[i..][k - i] == m[k];
    assert c[End(m, i)] == NUL;
    if m[i] != NUL {
      assert c[i + 1..] == c[i..][1..] && m[i + 1..] == m[i..][1..];
      SameTail(m, c, i + 1);
    }
  }

  lemma {:induction false} ShiftSkip(s: string, from: nat, delim: set<char>, j: nat)
    requires from + j <= |s|
    ensures from + SkipDelims(s[from..], delim, j) == SkipDelims(s, delim, from + j)
    decreases |s| - j
  {
    if from + j < |s| && s[from + j] in delim { ShiftSkip(s, from, delim, j + 1); }
  }

  lemma {:induction false} ShiftEnd(s: string, from: nat, delim: set<char>, j: nat)
    requires from + j <= |s|
    ensures from + TokenEnd(s[from..], delim, j) == TokenEnd(s, delim, from + j)
    decreases |s| - j
  {
    if from + j < |s| && s[from + j] !in delim { ShiftEnd(s, from, delim, j + 1); }
  }

  /** Memory `m` with a NUL written behind every one of `spans` of the string at `p`. */
  function Nulled(m: seq<char>, p: nat, spans: seq<Span>): (c: seq<char>)
    requires forall k :: 0 <= k < |spans| ==> p + spans[k].end < |m|
    ensures |c| == |m|
  {
    if spans == [] then m else Nulled(m, p, spans[..|spans| - 1])[p + spans[|spans| - 1].end := NUL]
  }

  lemma {:induction false} NulledAt(m: seq<char>, p: nat, spans: seq<Span>, i: nat)
    requires (forall k :: 0 <= k < |spans| ==> p + spans[k].end < |m|) && i < |m|
    ensures Nulled(m, p, spans)[i] == if exists k :: 0 <= k < |spans| && p + spans[k].end == i then NUL else m[i]
  {
    if spans != [] {
      var n := |spans| - 1;
      NulledAt(m, p, spans[..n], i);
      if p + spans[n].end != i && exists k :: 0 <= k < |spans| && p + spans[k].end == i {
        var k :| 0 <= k < |spans| && p + spans[k].end == i;
        assert spans[..n][k] == spans[k];
      }
    }
  }

  // ---------- What the spans are ----------

  /** A stretch without a delimiter, possibly empty, between two delimiters or the ends of the string. */
  predicate Field(s: string, delim: set<char>, span: Span) {
    && span.start <= span.end <= |s| && (forall k :: span.start <= k < span.end ==> s[k] !in delim)
    && (span.start == 0 || s[span.start - 1] in delim) && (span.end == |s| || s[span.end] in delim)
  }

  /** Each span ends before the next one begins. */
  ghost predicate InOrder(spans: seq<Span>, from: nat, length: nat) {
    && (forall k :: 0 <= k < |spans| ==> from <= spans[k].start <= spans[k].end <= length)
    && forall j, k :: 0 <= j < k < |spans| ==> spans[j].end < spans[k].start
  }

  lemma FieldStartsAt(s: string, delim: set<char>, from: nat, e: nat, span: Span)
    requires Field(s, delim, Span(from, e)) && Field(s, delim, span) && from <= span.start <= e
    ensures span == Span(from, e)
  {
  }

  lemma InOrderCons(span: Span, rest: seq<Span>, from: nat, length: nat)
    requires from <= span.start <= span.end <= length && InOrder(rest, span.end + 1, length)
    ensures InOrder([span] + rest, from, length)
  {
  }

  /** The fields that begin behind `from` are the one that begins at `from` and those behind it. */
  lemma FieldsFrom(s: string, delim: set<char>, from: nat, e: nat, span: Span)
    requires Field(s, delim, Span(from, e)) && Field(s, delim, span)
    ensures from <= span.start <==> span == Span(from, e) || e < span.start
  {
    if from <= span.start <= e { FieldStartsAt(s, delim, from, e, span); }
  }

  /** `strtok` finds every field but an empty one at the end, once and in order. */
  lemma {:induction false} SpansAreFields(s: string, delim: set<char>, from: nat)
    requires from <= |s| && (from == 0 || s[from - 1] in delim)
    ensures InOrder(Spans(s, delim, from), from, |s|)
    ensures forall span :: span in Spans(s, delim, from) <==> Field(s, delim, span) && from <= span.start < |s|
    decreases |s| - from
  {
    if from < |s| {
      var e := TokenEnd(s, delim, from);
      var rest := Behind(s, delim, e);
      assert Spans(s, delim, from) == [Span(from, e)] + rest && Field(s, delim, Span(from, e));
      if e < |s| { SpansAreFields(s, delim, e + 1); }
      hide Spans, Behind, TokenEnd, Field;
      InOrderCons(Span(from, e), rest, from, |s|);
      hide *;
      forall span ensures span in [Span(from, e)] + rest <==> Field(s, delim, span) && from <= span.start < |s| {
        if Field(s, delim, span) { FieldsFrom(s, delim, from, e, span); }
      }
    }
  }

  /** `strtok_r` finds every field that is not empty, once and in order: the maximal delimiter-free runs. */
  lemma {:induction false} SpansRAreRuns(s: string, delim: set<char>, from: nat)
    requires from <= |s| && (from == 0 || s[from - 1] in delim)
    ensures InOrder(SpansR(s, delim, from), from, |s|)
    ensures forall span :: span in SpansR(s, delim, from) <==> Field(s, delim, span) && from <= span.start < span.end
    decreases |s| - from
  {
    var b := SkipDelims(s, delim, from);
    forall span | Field(s, delim, span) && from <= span.start < span.end ensures b <= span.start {
      assert s[span.start] !in delim;
    }
    if b < |s| {
      var e := TokenEnd(s, delim, b);
      var rest := BehindR(s, delim, e);
      assert SpansR(s, delim, from) == [Span(b, e)] + rest && Field(s, delim, Span(b, e));
      if e < |s| { SpansRAreRuns(s, delim, e + 1); }
      hide SpansR, BehindR, TokenEnd, SkipDelims, Field;
      InOrderCons(Span(b, e), rest, from, |s|);
      hide *;
      forall span ensures span in [Span(b, e)] + rest <==> Field(s, delim, span) && from <= span.start < span.end {
        if Field(s, delim, span) { FieldsFrom(s, delim, b, e, span); }
      }
    }
  }

  function NonEmpty(spans: seq<Span>): seq<Span> {
    if spans == [] then [] else if spans[0].start < spans[0].end then [spans[0]] + NonEmpty(spans[1..]) else NonEmpty(spans[1..])
  }

  /** The tokens of `strtok_r` are the tokens of `strtok` that are not empty. */
  lemma {:induction false} NonEmptyTokens(s: string, delim: set<char>, from: nat)
    requires from <= |s|
    ensures SpansR(s, delim, from) == NonEmpty(Spans(s, delim, from))
    decreases |s| - from
  {
    if from < |s| {
      var e := TokenEnd(s, delim, from);
      var all := [Span(from, e)] + Behind(s, delim, e);
      assert Spans(s, delim, from) == all && all[1..] == Behind(s, delim, e);
      EmptyFirst(s, delim, from);
      if e < |s| { NonEmptyTokens(s, delim, e + 1); }
      assert BehindR(s, delim, e) == NonEmpty(Behind(s, delim, e));
      hide Spans, SpansR, TokenEnd, Behind, BehindR;
    }
  }

  /** An empty field adds nothing to what `strtok_r` finds. */
  lemma EmptyFirst(s: string, delim: set<char>, from: nat)
    requires from < |s|
    ensures var e := TokenEnd(s, delim, from);
      SpansR(s, delim, from) == if from < e then [Span(from, e)] + BehindR(s, delim, e) else BehindR(s, delim, e)
  {
    var e := TokenEnd(s, delim, from);
    if from == e {
      assert SkipDelims(s, delim, from) == SkipDelims(s, delim, from + 1);
      assert BehindR(s, delim, e) == SpansR(s, delim, from + 1);
    } else {
      assert SkipDelims(s, delim, from) == from;
    }
  }

  /** A delimiter at the start, or right behind another. */
  predicate Doubled(s: string, delim: set<char>, i: nat)
    requires i < |s|
  {
    s[i] in delim && (i == 0 || s[i - 1] in delim)
  }

  /**
    ISO C asks `strtok` to skip the delimiters before a token, as `strtok_r` does. The two agree exactly on the strings
    that neither begin with a delimiter nor have two of them in a row.
   */
  lemma TokenizersAgree(s: string, delim: set<char>)
    ensures Spans(s, delim, 0) == SpansR(s, delim, 0)
      <==> forall i :: 0 <= i < |s| ==> !Doubled(s, delim, i)
  {
    var spans := Spans(s, delim, 0);
    SpansAreFields(s, delim, 0);
    SpansRAreRuns(s, delim, 0);
    NonEmptyTokens(s, delim, 0);
    hide Spans, SpansR, NonEmpty, InOrder;
    if i :| 0 <= i < |s| && Doubled(s, delim, i) {
      assert Field(s, delim, Span(i, i));
      assert Span(i, i) in spans && Span(i, i) !in SpansR(s, delim, 0);
    } else {
      forall span | span in spans ensures span.start < span.end {
        assert Field(s, delim, span) && span.start < |s|;
        assert !Doubled(s, delim, span.start);
      }
      AllNonEmpty(spans);
    }
  }

  lemma {:induction false} AllNonEmpty(spans: seq<Span>)
    requires forall span :: span in spans ==> span.start < span.end
    ensures NonEmpty(spans) == spans
  {
    if spans != [] {
      assert spans[0] in spans;
      AllNonEmpty(spans[1..]);
    }
  }

  // ---------- Collecting the tokens ----------

  /** The C string at `i` is `text`. */
  ghost predicate Stands(m: seq<char>, i: nat, text: string) {
    Terminated(m, i) && Str(m, i) == text
  }

  lemma {:induction false} EndIs(m: seq<char>, i: nat, e: nat)
    requires i <= e < |m| && m[e] == NUL && NUL !in m[i..e]
    ensures Terminated(m, i) && End(m, i) == e
    decreases e - i
  {
    if i < e {
      assert m[i] == m[i..e][0] && m[i + 1..e] == m[i..e][1..];
      EndIs(m, i + 1, e);
    }
  }

  /** No character of a token is overwritten. */
  lemma TokenKept(m: seq<char>, p: nat, spans: seq<Span>, length: nat, k: nat, i: nat)
    requires p + length < |m| && InOrder(spans, 0, length) && k < |spans| && spans[k].start <= i < spans[k].end
    ensures forall j :: 0 <= j < |spans| ==> p + spans[j].end < |m|
    ensures Nulled(m, p, spans)[p + i] == m[p + i]
  {
    NulledAt(m, p, spans, p + i);
    forall j | 0 <= j < |spans| ensures spans[j].end != i {
      if j < k {
        assert spans[j].end < spans[k].start;
      } else if k < j {
        assert spans[k].end < spans[j].start;
      }
    }
  }

  /** Once every token has been cut off, each of them is still a C string with its own text. */
  lemma TokensStand(m: seq<char>, p: nat, spans: seq<Span>, k: nat)
    requires Terminated(m, p) && InOrder(spans, 0, |Str(m, p)|) && k < |spans|
    ensures forall j :: 0 <= j < |spans| ==> p + spans[j].end < |m|
    ensures spans[k].start <= spans[k].end <= |Str(m, p)|
    ensures Stands(Nulled(m, p, spans), p + spans[k].start, Str(m, p)[spans[k].start..spans[k].end])
  {
    hide *;
    var s := Str(m, p);
    CharAt(m, p, |s|);
    TokenEnds(m, p, spans, |s|, k);
    TextKept(m, p, s, spans, k);
    NotNul(s, spans[k].start, spans[k].end);
    EndIs(Nulled(m, p, spans), p + spans[k].start, p + spans[k].end);
    StandsUntil(Nulled(m, p, spans), p + spans[k].start, p + spans[k].end);
  }

  lemma TokenEnds(m: seq<char>, p: nat, spans: seq<Span>, length: nat, k: nat)
    requires p + length < |m| && InOrder(spans, 0, length) && k < |spans|
    ensures spans[k].start <= spans[k].end <= length
    ensures forall j :: 0 <= j < |spans| ==> p + spans[j].end < |m|
    ensures Nulled(m, p, spans)[p + spans[k].end] == NUL
  {
    NulledAt(m, p, spans, p + spans[k].end);
  }

  lemma NotNul(s: CString, b: nat, e: nat)
    requires b <= e <= |s|
    ensures NUL !in s[b..e]
  {
  }

  lemma StandsUntil(m: seq<char>, i: nat, e: nat)
    requires Terminated(m, i) && End(m, i) == e
    ensures Stands(m, i, m[i..e])
  {
  }

  lemma TextAt(m: seq<char>, p: nat, i: nat)
    requires Terminated(m, p) && i < |Str(m, p)|
    ensures p + i < |m| && m[p + i] == Str(m, p)[i]
  {
  }

  lemma SameText(c: seq<char>, p: nat, s: string, b: nat, e: nat)
    requires b <= e <= |s| && p + e <= |c|
    requires forall i :: b <= i < e ==> c[p + i] == s[i]
    ensures c[p + b..p + e] == s[b..e]
  {
    var x, y := c[p + b..p + e], s[b..e];
    forall j | 0 <= j < |x| ensures x[j] == y[j] {
      assert s[b + j] == c[p + (b + j)];
    }
  }

  lemma TextKept(m: seq<char>, p: nat, s: CString, spans: seq<Span>, k: nat)
    requires Terminated(m, p) && s == Str(m, p) && p + |s| < |m| && InOrder(spans, 0, |s|) && k < |spans|
    requires forall j :: 0 <= j < |spans| ==> p + spans[j].end < |m|
    ensures spans[k].start <= spans[k].end <= |s|
    ensures Nulled(m, p, spans)[p + spans[k].start..p + spans[k].end] == s[spans[k].start..spans[k].end]
  {
    var c := Nulled(m, p, spans);
    var b, e := spans[k].start, spans[k].end;
    assert b <= e <= |s|;
    hide *;
    forall i | b <= i < e ensures c[p + i] == s[i] {
      TokenKept(m, p, spans, |s|, k, i);
      TextAt(m, p, i);
    }
    SameText(c, p, s, b, e);
  }

  /** In `c`, which is `m` behind the part already cut up, the string at `p + from` is what remains of `s`. */
  lemma Remains(m: seq<char>, c: seq<char>, p: nat, from: nat)
    requires Terminated(m, p) && from <= |Str(m, p)| && |c| == |m| && c[p + from..] == m[p + from..]
    ensures Stands(c, p + from, Str(m, p)[from..])
  {
    StrAt(m, p, p + from);
    SameTail(m, c, p + from);
  }

  /** The first token of `s` from `from` on is the first token of the rest of `s`, moved by `from`. */
  lemma FirstRun(s: string, delim: set<char>, from: nat)
    requires from <= |s|
    ensures var t := s[from..]; var b := SkipDelims(t, delim, 0); var e := TokenEnd(t, delim, b);
      SpansR(s, delim, from) == if b == |t| then [] else [Span(from + b, from + e)] + BehindR(s, delim, from + e)
  {
    ShiftSkip(s, from, delim, 0);
    ShiftEnd(s, from, delim, SkipDelims(s[from..], delim, 0));
    hide BehindR, SkipDelims, TokenEnd;
  }

  /**
    `n` of `all` the spans of the string at `p` have been cut off, which has turned memory `m` into `c`, and `rest` are
    the others. The search goes on at `cursor`, behind which nothing has changed.
   */
  ghost predicate Found(m: seq<char>, c: seq<char>, p: nat, cursor: Ptr, all: seq<Span>, n: nat, rest: seq<Span>) {
    && Terminated(m, p) && |c| == |m| && InOrder(all, 0, |Str(m, p)|)
    && n <= |all| && all[n..] == rest && (forall k :: 0 <= k < n ==> p + all[k].end < |m|) && c == Nulled(m, p, all[..n])
    && (cursor == Null ==> rest == [])
    && (cursor != Null ==> p <= cursor.i <= p + |Str(m, p)| && c[cursor.i..] == m[cursor.i..])
  }

  /** A call after `n` tokens has returned the next one, or NULL when there was none. */
  ghost predicate Called(m: seq<char>, c: seq<char>, p: nat, token: Ptr, next: Ptr, all: seq<Span>, n: nat, rest: seq<Span>) {
    if token == Null then n == |all| && Found(m, c, p, Null, all, n, [])
    else n < |all| && token == To(p + all[n].start) && Found(m, c, p, next, all, n + 1, rest)
  }

  /** One more span cut off. */
  lemma FoundOneMore(m: seq<char>, c: seq<char>, p: nat, cursor: Ptr, all: seq<Span>, n: nat, span: Span, rest: seq<Span>,
                     c': seq<char>, cursor': Ptr)
    requires Found(m, c, p, cursor, all, n, [span] + rest) && cursor != Null
    requires cursor.i <= p + span.end < |c| && c' == c[p + span.end := NUL]
    requires if cursor' == Null then rest == [] else cursor' == To(p + span.end + 1) && p + span.end < p + |Str(m, p)|
    ensures Called(m, c', p, To(p + span.start), cursor', all, n, rest)
  {
    assert all[n..][0] == span && all[n..][1..] == all[n + 1..];
    assert all[..n + 1][..n] == all[..n];
    assert rest == ([span] + rest)[1..];
    var i, k := cursor.i, p + span.end + 1;
    assert c'[k..] == c[k..] == c[i..][k - i..] == m[i..][k - i..] == m[k..];
  }

  /** The string at the cursor is what is left of the string at `p`. */
  lemma LeftToSearch(m: seq<char>, c: seq<char>, p: nat, cursor: Ptr, all: seq<Span>, n: nat, rest: seq<Span>)
    requires Found(m, c, p, cursor, all, n, rest)
    ensures Usable(c, cursor)
    ensures cursor != Null ==> p <= cursor.i <= p + |Str(m, p)| && Stands(c, cursor.i, Str(m, p)[cursor.i - p..])
  {
    if cursor != Null { Remains(m, c, p, cursor.i - p); }
  }

  lemma CursorUsable(m: seq<char>, c: seq<char>, p: nat, cursor: Ptr, all: seq<Span>, n: nat, rest: seq<Span>)
    requires Found(m, c, p, cursor, all, n, rest)
    ensures Usable(c, cursor)
  {
    LeftToSearch(m, c, p, cursor, all, n, rest);
  }

  lemma FoundAll(m: seq<char>, c: seq<char>, p: nat, cursor: Ptr, all: seq<Span>, tokens: seq<nat>)
    requires Found(m, c, p, cursor, all, |tokens|, []) && Listed(tokens, p, all)
    ensures AllFound(m, c, p, all, tokens)
  {
    assert all[..|all|] == all;
  }

  /** Cutting at the end of the string changes nothing. */
  lemma CutIs(c: seq<char>, q: nat, t: string, e: nat)
    requires Stands(c, q, t) && e <= |t|
    ensures Terminated(c, q) && Str(c, q) == t && q + e < |c| && Cut(c, q, e) == c[q + e := NUL]
    ensures Rest(c, q, e) == if e < |t| then To(q + e + 1) else Null
  {
    CharAt(c, q, e);
    assert e == |t| ==> c[q + e := NUL] == c;
  }

  lemma TakesRun(c: seq<char>, c': seq<char>, q: nat, delim: set<char>, token: Ptr, saveptr: Ptr, t: string)
    requires Stands(c, q, t) && Takes(c, c', To(q), delim, token, saveptr)
    ensures var b := SkipDelims(t, delim, 0); var e := TokenEnd(t, delim, b);
      if b == |t| then token == Null && saveptr == Null && c' == c
      else
        && token == To(q + b) && saveptr == (if e < |t| then To(q + e + 1) else Null)
        && q + e < |c| && c' == c[q + e := NUL]
  {
    hide SkipDelims, TokenEnd, Cut, Rest, Str, Terminated, Stands;
    CutIs(c, q, t, TokenEnd(t, delim, SkipDelims(t, delim, 0)));
  }

  /** What `strtok_r` has yet to find when it goes on at `cursor`. */
  function LeftR(s: string, delim: set<char>, p: nat, cursor: Ptr): seq<Span> {
    if cursor.To? && p <= cursor.i <= p + |s| then SpansR(s, delim, cursor.i - p) else []
  }

  /** What `strtok` has yet to find when it goes on at `cursor`. */
  function Left(s: string, delim: set<char>, p: nat, cursor: Ptr): seq<Span> {
    if cursor.To? && p <= cursor.i <= p + |s| then Spans(s, delim, cursor.i - p) else []
  }

  lemma LeftFrom(s: string, delim: set<char>, p: nat, cursor: Ptr)
    ensures LeftR(s, delim, p, Null) == Left(s, delim, p, Null) == []
    ensures cursor.To? && p <= cursor.i <= p + |s| ==>
      LeftR(s, delim, p, cursor) == SpansR(s, delim, cursor.i - p) && Left(s, delim, p, cursor) == Spans(s, delim, cursor.i - p)
  {
  }

  /** There is nothing to find at the place `strtok` has kept. */
  ghost predicate Exhausted(c: seq<char>, next: Ptr) {
    next.To? ==> Terminated(c, next.i) && Str(c, next.i) == ""
  }

  lemma NothingLeft(c: seq<char>, cursor: Ptr)
    requires cursor.To? && Stands(c, cursor.i, "")
    ensures Exhausted(c, cursor)
  {
  }

  /** A call of `strtok_r` on `t`, what is left of `s` from `from` on, takes off the first span that is left. */
  lemma TakesSpan(c: seq<char>, c': seq<char>, p: nat, delim: set<char>, token: Ptr, saveptr: Ptr, s: string, from: nat)
      returns (span: Span, rest: seq<Span>)
    requires from <= |s| && Stands(c, p + from, s[from..]) && Takes(c, c', To(p + from), delim, token, saveptr)
    ensures token == Null ==> saveptr == Null && c' == c && SpansR(s, delim, from) == []
    ensures token != Null ==>
      && SpansR(s, delim, from) == [span] + rest && token == To(p + span.start)
      && from <= span.end <= |s| && p + span.end < |c| && c' == c[p + span.end := NUL]
      && saveptr == (if span.end < |s| then To(p + span.end + 1) else Null)
      && rest == LeftR(s, delim, p, saveptr)
  {
    hide *;
    var t := s[from..];
    LeftFrom(s, delim, p, saveptr);
    FirstRun(s, delim, from);
    TakesRun(c, c', p + from, delim, token, saveptr, t);
    var b := SkipDelims(t, delim, 0);
    if b < |t| {
      var e := TokenEnd(t, delim, b);
      span, rest := Span(from + b, from + e), BehindR(s, delim, from + e);
      LeftBehindR(s, delim, p, from + e, saveptr);
    } else {
      span, rest := Span(0, 0), [];
    }
  }

  lemma NothingTaken(m: seq<char>, c: seq<char>, p: nat, delim: set<char>, all: seq<Span>, n: nat, c': seq<char>, token: Ptr, saveptr: Ptr)
    requires Terminated(m, p) && Found(m, c, p, Null, all, n, LeftR(Str(m, p), delim, p, Null))
    requires Takes(c, c', Null, delim, token, saveptr)
    ensures token == Null && saveptr == Null && Called(m, c', p, token, saveptr, all, n, LeftR(Str(m, p), delim, p, saveptr))
  {
  }

  /** Each call finds the next span, until there is none. */
  lemma NextR(m: seq<char>, c: seq<char>, p: nat, delim: set<char>, cursor: Ptr, all: seq<Span>, n: nat,
              c': seq<char>, token: Ptr, saveptr: Ptr)
    requires Terminated(m, p) && Found(m, c, p, cursor, all, n, LeftR(Str(m, p), delim, p, cursor))
    requires Usable(c, cursor) && Takes(c, c', cursor, delim, token, saveptr)
    ensures token == Null ==> saveptr == Null
    ensures Called(m, c', p, token, saveptr, all, n, LeftR(Str(m, p), delim, p, saveptr))
  {
    hide *;
    var s := Str(m, p);
    if cursor == Null {
      NothingTaken(m, c, p, delim, all, n, c', token, saveptr);
      return;
    }
    LeftToSearch(m, c, p, cursor, all, n, LeftR(s, delim, p, cursor));
    var from := cursor.i - p;
    LeftFrom(s, delim, p, cursor);
    var span, rest := TakesSpan(c, c', p, delim, token, saveptr, s, from);
    if token == Null {
      SearchEnds(m, c, p, cursor, all, n, saveptr, LeftR(s, delim, p, saveptr));
    } else {
      FoundOneMore(m, c, p, cursor, all, n, span, rest, c', saveptr);
    }
  }

  lemma LeftBehindR(s: string, delim: set<char>, p: nat, e: nat, saveptr: Ptr)
    requires e <= |s| && saveptr == if e < |s| then To(p + e + 1) else Null
    ensures LeftR(s, delim, p, saveptr) == BehindR(s, delim, e)
  {
  }

  lemma SearchEnds(m: seq<char>, c: seq<char>, p: nat, cursor: Ptr, all: seq<Span>, n: nat, next: Ptr, rest: seq<Span>)
    requires Found(m, c, p, cursor, all, n, [])
    ensures Called(m, c, p, Null, next, all, n, rest)
  {
  }

  /** `tokens` point at the first spans of the string at `p`. */
  ghost predicate Listed(tokens: seq<nat>, p: nat, spans: seq<Span>) {
    |tokens| <= |spans| && forall k :: 0 <= k < |tokens| ==> tokens[k] == p + spans[k].start
  }

  /** `tokens` point at all the spans, and exactly the characters behind them have been overwritten. */
  ghost predicate AllFound(m: seq<char>, c: seq<char>, p: nat, spans: seq<Span>, tokens: seq<nat>) {
    && |tokens| == |spans| && Listed(tokens, p, spans) && Terminated(m, p) && InOrder(spans, 0, |Str(m, p)|)
    && (forall k :: 0 <= k < |spans| ==> p + spans[k].end < |m|) && c == Nulled(m, p, spans)
  }

  lemma ListedOneMore(m: seq<char>, c: seq<char>, p: nat, token: Ptr, next: Ptr, all: seq<Span>, tokens: seq<nat>, rest: seq<Span>)
    requires Listed(tokens, p, all) && Called(m, c, p, token, next, all, |tokens|, rest)
    ensures token == Null ==> AllFound(m, c, p, all, tokens)
    ensures token != Null ==> Listed(tokens + [token.i], p, all) && |tokens| < |all| && Found(m, c, p, next, all, |tokens| + 1, rest)
  {
    hide AllFound;
    if token == Null { FoundAll(m, c, p, Null, all, tokens); }
  }

  /** A call of `strtok_r` after `n` tokens of the string at `p`. */
  method CallR(mem: array<char>, str: Ptr, delim: CString, save: Ptr, ghost m: seq<char>, ghost p: nat, ghost all: seq<Span>, ghost n: nat)
      returns (token: Ptr, saveptr: Ptr)
    requires Terminated(m, p)
    requires var cursor := if str == Null then save else str; Found(m, mem[..], p, cursor, all, n, LeftR(Str(m, p), CharsOf(delim), p, cursor))
    modifies mem
    ensures token == Null ==> saveptr == Null
    ensures Called(m, mem[..], p, token, saveptr, all, n, LeftR(Str(m, p), CharsOf(delim), p, saveptr))
  {
    hide *;
    ghost var c, cursor := mem[..], if str == Null then save else str;
    CursorUsable(m, c, p, cursor, all, n, LeftR(Str(m, p), CharsOf(delim), p, cursor));
    token, saveptr := StrtokR(mem, str, delim, save);
    NextR(m, c, p, CharsOf(delim), cursor, all, n, mem[..], token, saveptr);
  }

  lemma StartsR(m: seq<char>, p: nat, delim: set<char>)
    requires Terminated(m, p)
    ensures var s := Str(m, p); var spans := SpansR(s, delim, 0);
      Found(m, m, p, To(p), spans, 0, LeftR(s, delim, p, To(p))) && Listed([], p, spans)
  {
    SpansRAreRuns(Str(m, p), delim, 0);
  }

  /**
    The usual loop: `for (str = s; (token = strtok_r(str, delim, &saveptr)); str = NULL)`. It finds the spans of the
    string in order, overwrites just the character behind each of them, and leaves nothing to find.
   */
  method AllTokensR(mem: array<char>, p: nat, delim: CString) returns (tokens: seq<nat>, saveptr: Ptr)
    requires Terminated(mem[..], p)
    modifies mem
    ensures AllFound(old(mem[..]), mem[..], p, SpansR(Str(old(mem[..]), p), CharsOf(delim), 0), tokens)
    ensures saveptr == Null
  {
    tokens, saveptr := [], Null;
    ghost var m := mem[..];
    ghost var s := Str(m, p);
    ghost var spans := SpansR(s, CharsOf(delim), 0);
    var str := To(p);
    hide *;
    StartsR(m, p, CharsOf(delim));
    while true
      invariant Terminated(m, p) && s == Str(m, p)
      invariant |tokens| <= |spans| && Listed(tokens, p, spans)
      invariant var cursor := if str == Null then saveptr else str;
        Found(m, mem[..], p, cursor, spans, |tokens|, LeftR(s, CharsOf(delim), p, cursor))
      decreases |spans| - |tokens|
    {
      var token;
      token, saveptr := CallR(mem, str, delim, saveptr, m, p, spans, |tokens|);
      ListedOneMore(m, mem[..], p, token, saveptr, spans, tokens, LeftR(s, CharsOf(delim), p, saveptr));
      if token == Null {
        return;
      }
      tokens := tokens + [token.i];
      str := Null;
    }
  }

  /** A call of `strtok` on what is left of `s` from `from` on takes off the first field that is left. */
  lemma TakesFirstField(c: seq<char>, c': seq<char>, p: nat, delim: set<char>, token: Ptr, next: Ptr, s: string, from: nat)
      returns (span: Span, rest: seq<Span>)
    requires from <= |s| && Stands(c, p + from, s[from..]) && TakesField(c, c', To(p + from), delim, token, next)
    ensures token == Null ==> next == To(p + from) && from == |s| && c' == c && Spans(s, delim, from) == []
    ensures token != Null ==>
      && Spans(s, delim, from) == [span] + rest && token == To(p + span.start)
      && from <= span.end <= |s| && p + span.end < |c| && c' == c[p + span.end := NUL]
      && next == (if span.end < |s| then To(p + span.end + 1) else Null)
      && rest == Left(s, delim, p, next)
  {
    hide TokenEnd, Cut, Rest, Str, Terminated, Stands;
    var t := s[from..];
    var e := TokenEnd(t, delim, 0);
    CutIs(c, p + from, t, e);
    span, rest := Span(0, 0), [];
    if t != "" {
      span, rest := Span(from, from + e), Behind(s, delim, from + e);
      ShiftEnd(s, from, delim, 0);
    }
    hide Spans;
  }

  lemma NoField(m: seq<char>, c: seq<char>, p: nat, delim: set<char>, all: seq<Span>, n: nat, c': seq<char>, token: Ptr, next: Ptr)
    requires Terminated(m, p) && Found(m, c, p, Null, all, n, Left(Str(m, p), delim, p, Null))
    requires TakesField(c, c', Null, delim, token, next)
    ensures token == Null && next == Null && Called(m, c', p, token, next, all, n, Left(Str(m, p), delim, p, next))
    ensures Exhausted(c', next)
  {
  }

  /** Each call finds the next span, until there is none. */
  lemma NextField(m: seq<char>, c: seq<char>, p: nat, delim: set<char>, cursor: Ptr, all: seq<Span>, n: nat,
                  c': seq<char>, token: Ptr, next: Ptr)
    requires Terminated(m, p) && Found(m, c, p, cursor, all, n, Left(Str(m, p), delim, p, cursor))
    requires Usable(c, cursor) && TakesField(c, c', cursor, delim, token, next)
    ensures token == Null ==> Exhausted(c', next)
    ensures Called(m, c', p, token, next, all, n, Left(Str(m, p), delim, p, next))
  {
    hide *;
    var s := Str(m, p);
    if cursor == Null {
      NoField(m, c, p, delim, all, n, c', token, next);
      return;
    }
    LeftToSearch(m, c, p, cursor, all, n, Left(s, delim, p, cursor));
    var from := cursor.i - p;
    LeftFrom(s, delim, p, cursor);
    if from == |s| { NothingLeft(c, cursor); }
    var span, rest := TakesFirstField(c, c', p, delim, token, next, s, from);
    if token == Null {
      SearchEnds(m, c, p, cursor, all, n, next, Left(s, delim, p, next));
    } else {
      FoundOneMore(m, c, p, cursor, all, n, span, rest, c', next);
    }
  }

  lemma NothingFound(c: seq<char>, c': seq<char>, p: Ptr, delim: set<char>, token: Ptr, next: Ptr)
    requires Exhausted(c, p) && TakesField(c, c', p, delim, token, next)
    ensures token == Null && next == p && c' == c
  {
  }

  lemma ExhaustedUsable(c: seq<char>, p: Ptr)
    requires Exhausted(c, p)
    ensures Usable(c, p)
  {
  }

  /** Once there is nothing to find, any number of calls, with whatever delimiters, return NULL and change nothing. */
  method StaysExhausted(tokenizer: Tokenizer, mem: array<char>, delims: seq<CString>) returns (tokens: seq<Ptr>)
    requires Exhausted(mem[..], tokenizer.nextToken)
    modifies tokenizer, mem
    ensures mem[..] == old(mem[..]) && tokenizer.nextToken == old(tokenizer.nextToken)
    ensures |tokens| == |delims| && forall k :: 0 <= k < |tokens| ==> tokens[k] == Null
  {
    hide *;
    tokens := [];
    ghost var c, p := mem[..], tokenizer.nextToken;
    ExhaustedUsable(c, p);
    while |tokens| < |delims|
      invariant |tokens| <= |delims| && mem[..] == c && tokenizer.nextToken == p
      invariant forall k :: 0 <= k < |tokens| ==> tokens[k] == Null
    {
      ghost var delim := CharsOf(delims[|tokens|]);
      var token := tokenizer.Strtok(mem, Null, delims[|tokens|]);
      NothingFound(c, mem[..], p, delim, token, tokenizer.nextToken);
      tokens := tokens + [token];
    }
  }

  /** A call of `strtok` after `n` tokens of the string at `p`. */
  method Call(tokenizer: Tokenizer, mem: array<char>, str: Ptr, delim: CString, ghost m: seq<char>, ghost p: nat, ghost all: seq<Span>, ghost n: nat)
      returns (token: Ptr)
    requires Terminated(m, p)
    requires var cursor := if str == Null then tokenizer.nextToken else str;
      Found(m, mem[..], p, cursor, all, n, Left(Str(m, p), CharsOf(delim), p, cursor))
    modifies tokenizer, mem
    ensures token == Null ==> Exhausted(mem[..], tokenizer.nextToken)
    ensures Called(m, mem[..], p, token, tokenizer.nextToken, all, n, Left(Str(m, p), CharsOf(delim), p, tokenizer.nextToken))
  {
    hide *;
    ghost var c, cursor := mem[..], if str == Null then tokenizer.nextToken else str;
    CursorUsable(m, c, p, cursor, all, n, Left(Str(m, p), CharsOf(delim), p, cursor));
    token := tokenizer.Strtok(mem, str, delim);
    NextField(m, c, p, CharsOf(delim), cursor, all, n, mem[..], token, tokenizer.nextToken);
  }

  lemma Starts(m: seq<char>, p: nat, delim: set<char>)
    requires Terminated(m, p)
    ensures var s := Str(m, p); var spans := Spans(s, delim, 0);
      Found(m, m, p, To(p), spans, 0, Left(s, delim, p, To(p))) && Listed([], p, spans)
  {
    SpansAreFields(Str(m, p), delim, 0);
  }

  /**
    The same loop over `strtok`: `for (token = strtok(s, delim); token; token = strtok(NULL, delim))`. It finds every
    field of the string but an empty last one.
   */
  method AllTokens(tokenizer: Tokenizer, mem: array<char>, p: nat, delim: CString) returns (tokens: seq<nat>)
    requires Terminated(mem[..], p)
    modifies tokenizer, mem
    ensures AllFound(old(mem[..]), mem[..], p, Spans(Str(old(mem[..]), p), CharsOf(delim), 0), tokens)
    ensures Exhausted(mem[..], tokenizer.nextToken)
  {
    tokens := [];
    ghost var m := mem[..];
    ghost var s := Str(m, p);
    ghost var spans := Spans(s, CharsOf(delim), 0);
    var str := To(p);
    hide *;
    Starts(m, p, CharsOf(delim));
    while true
      invariant Terminated(m, p) && s == Str(m, p)
      invariant |tokens| <= |spans| && Listed(tokens, p, spans)
      invariant var cursor := if str == Null then tokenizer.nextToken else str;
        Found(m, mem[..], p, cursor, spans, |tokens|, Left(s, CharsOf(delim), p, cursor))
      decreases |spans| - |tokens|
    {
      var token := Call(tokenizer, mem, str, delim, m, p, spans, |tokens|);
      ListedOneMore(m, mem[..], p, token, tokenizer.nextToken, spans, tokens, Left(s, CharsOf(delim), p, tokenizer.nextToken));
      if token == Null {
        return;
      }
      tokens := tokens + [token.i];
      str := Null;
    }
  }
}
