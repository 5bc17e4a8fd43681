/** Strings as JavaScript sees them: sequences of UTF-16 code units, with the
    few String.prototype operations the chat client relies on. */
module Utf16 {

  datatype Option<+T> = None | Some(value: T)

  type CodeUnit = x: int | 0 <= x < 0x1_0000
  type Str = seq<CodeUnit>

  /** A Dafny string literal made only of ASCII characters, as code units. */
  function Ascii(s: string): (r: Str)
    requires forall i | 0 <= i < |s| :: s[i] as int < 0x80
    ensures |r| == |s|
    ensures forall i | 0 <= i < |s| :: r[i] == s[i] as int
  {
    seq(|s|, i requires 0 <= i < |s| => s[i] as int)
  }

  const Colon: CodeUnit := 0x3A
  const Dot: CodeUnit := 0x2E
  const Space: CodeUnit := 0x20
  const OpenBracket: CodeUnit := 0x5B
  const CloseBracket: CodeUnit := 0x5D

  /** The units String.prototype.trim removes: WhiteSpace and LineTerminator
      of ECMA-262 (tab, VT, FF, space, NBSP, BOM, the Zs separators, LF, CR,
      LS, PS). */
  predicate IsJsWhitespace(c: CodeUnit) {
    c == 0x09 || c == 0x0A || c == 0x0B || c == 0x0C || c == 0x0D ||
    c == 0x20 || c == 0xA0 || c == 0x1680 || (0x2000 <= c <= 0x200A) ||
    c == 0x2028 || c == 0x2029 || c == 0x202F || c == 0x205F ||
    c == 0x3000 || c == 0xFEFF
  }

  /** The units a regular-expression `.` does not match (no `s` flag). */
  predicate IsLineTerminator(c: CodeUnit) {
    c == 0x0A || c == 0x0D || c == 0x2028 || c == 0x2029
  }

  predicate NoLineTerminator(s: Str) {
    forall i | 0 <= i < |s| :: !IsLineTerminator(s[i])
  }

  function TrimStart(s: Str): (r: Str)
    ensures |r| <= |s| && r == s[|s| - |r|..]
    ensures r == [] || !IsJsWhitespace(r[0])
    ensures forall i | 0 <= i < |s| - |r| :: IsJsWhitespace(s[i])
  {
    if |s| > 0 && IsJsWhitespace(s[0]) then TrimStart(s[1..]) else s
  }

  function TrimEnd(s: Str): (r: Str)
    ensures |r| <= |s| && r == s[..|r|]
    ensures r == [] || !IsJsWhitespace(r[|r| - 1])
    ensures forall i | |r| <= i < |s| :: IsJsWhitespace(s[i])
  {
    if |s| > 0 && IsJsWhitespace(s[|s| - 1]) then TrimEnd(s[..|s| - 1]) else s
  }

  /** String.prototype.trim. */
  function Trim(s: Str): Str {
    TrimEnd(TrimStart(s))
  }

  /** s.substring(0, n) for n >= 0. */
  function Take(s: Str, n: nat): (r: Str)
    ensures |r| == if |s| < n then |s| else n
    ensures r == s[..|r|]
  {
    if |s| <= n then s else s[..n]
  }

  /** The number of units before the first occurrence of c (|s| if none). */
  function IndexOfUnit(s: Str, c: CodeUnit): (k: nat)
    ensures k <= |s|
    ensures forall i | 0 <= i < k :: s[i] != c
    ensures k < |s| ==> s[k] == c
  {
    if |s| == 0 || s[0] == c then 0 else 1 + IndexOfUnit(s[1..], c)
  }

  lemma {:induction false} IndexOfUnitJoin(p: Str, c: CodeUnit, rest: Str)
    requires c !in p
    ensures IndexOfUnit(p + [c] + rest, c) == |p|
  {
    var s := p + [c] + rest;
    assert s[|p|] == c;
    assert forall i | 0 <= i < |p| :: s[i] == p[i];
  }

  /** s.split(c)[0]: the prefix before the first c, or all of s. */
  function BeforeFirst(s: Str, c: CodeUnit): Str {
    s[..IndexOfUnit(s, c)]
  }

  /** s.startsWith(p). */
  predicate StartsWith(s: Str, p: Str) {
    |p| <= |s| && s[..|p|] == p
  }

  /** s contains p at position k. */
  predicate OccursAt(s: Str, p: Str, k: int) {
    0 <= k && k + |p| <= |s| && s[k..k + |p|] == p
  }

  /** s.includes(p). */
  predicate Contains(s: Str, p: Str) {
    exists k | 0 <= k <= |s| - |p| :: OccursAt(s, p, k)
  }

  /** Array.prototype.indexOf on a list of strings: -1 when absent. */
  function IndexOf(xs: seq<Str>, x: Str): (i: int)
    ensures -1 <= i < |xs|
    ensures i == -1 <==> x !in xs
    ensures i >= 0 ==> xs[i] == x && x !in xs[..i]
  {
    if |xs| == 0 then -1
    else if xs[0] == x then 0
    else
      var j := IndexOf(xs[1..], x);
      assert xs[1..][..if j < 0 then 0 else j] == xs[1..if j < 0 then 1 else j + 1];
      if j < 0 then -1 else j + 1
  }

  /** xs.filter(y => y !== x). */
  function RemoveAll(xs: seq<Str>, x: Str): (r: seq<Str>)
    ensures x !in r
    ensures forall y :: y in r <==> y in xs && y != x
    ensures |r| <= |xs|
  {
    if |xs| == 0 then []
    else if xs[0] == x then RemoveAll(xs[1..], x)
    else [xs[0]] + RemoveAll(xs[1..], x)
  }

  /** Number of occurrences of x in xs. */
  function Occurrences(xs: seq<Str>, x: Str): nat {
    if |xs| == 0 then 0 else (if xs[0] == x then 1 else 0) + Occurrences(xs[1..], x)
  }

  predicate Distinct<T(==)>(xs: seq<T>) {
    forall i, j | 0 <= i < j < |xs| :: xs[i] != xs[j]
  }
}
