/** Content identity hashes: createSharedMessageId and createReplyIdentifier
    (schat.js). Both normalise their inputs, run the 32-bit rolling hash
    `hash = ((hash << 5) - hash) + char; hash = hash & hash` over the UTF-16
    code units, and print Math.abs(hash) in base 36 behind a prefix. */
module ContentHash {
  import opened Utf16

  const TwoTo31: int := 0x8000_0000
  const TwoTo32: int := 0x1_0000_0000

  type Int32 = x: int | -0x8000_0000 <= x < 0x8000_0000

  /** ToInt32 of ECMAScript: the Int32 congruent to x modulo 2^32. */
  function ToInt32(x: int): (r: Int32)
    ensures (r - x) % TwoTo32 == 0
  {
    (x + TwoTo31) % TwoTo32 - TwoTo31
  }

  lemma ToInt32Congruent(x: int, y: int)
    requires (x - y) % TwoTo32 == 0
    ensures ToInt32(x) == ToInt32(y)
  {
    var k := (x - y) / TwoTo32;
    assert x + TwoTo31 == (y + TwoTo31) + k * TwoTo32;
  }

  /** h << 5 on an Int32. */
  function ShiftLeft5(h: Int32): Int32 {
    ToInt32(h * 32)
  }

  /** One step of the loop exactly as written: the subtraction and addition
      are exact on doubles of this size, and `hash & hash` applies ToInt32. */
  function StepAsWritten(h: Int32, c: CodeUnit): Int32 {
    ToInt32((ShiftLeft5(h) - h) + c)
  }

  /** The shift-and-subtract step is the multiply-by-31 step of the classic
      string hash, reduced to 32 bits. */
  lemma StepIsTimes31(h: Int32, c: CodeUnit)
    ensures StepAsWritten(h, c) == ToInt32(31 * h + c)
  {
    ToInt32Congruent((ShiftLeft5(h) - h) + c, 31 * h + c);
  }

  /** The value of `hash` after the loop has run over all of s. */
  function RollingHash(s: Str): Int32 {
    if |s| == 0 then 0 else StepAsWritten(RollingHash(s[..|s| - 1]), s[|s| - 1])
  }

  /** The polynomial sum c0*31^(n-1) + ... + c(n-1), without any wrap-around. */
  function PolyHash(s: Str): int {
    if |s| == 0 then 0 else 31 * PolyHash(s[..|s| - 1]) + s[|s| - 1]
  }

  /** The rolling hash is the 32-bit reduction of the polynomial hash. */
  lemma {:induction false} RollingHashIsPolynomial(s: Str)
    ensures RollingHash(s) == ToInt32(PolyHash(s))
  {
    if |s| > 0 {
      var p, c := s[..|s| - 1], s[|s| - 1];
      RollingHashIsPolynomial(p);
      StepIsTimes31(RollingHash(p), c);
      Times31Congruent(RollingHash(p), PolyHash(p), c);
    }
  }

  lemma Times31Congruent(a: int, b: int, c: int)
    requires (a - b) % TwoTo32 == 0
    ensures ToInt32(31 * a + c) == ToInt32(31 * b + c)
  {
    var k := (a - b) / TwoTo32;
    assert a == b + k * TwoTo32;
    assert (31 * a + c) - (31 * b + c) == (31 * k) * TwoTo32;
    ToInt32Congruent(31 * a + c, 31 * b + c);
  }

  /** The hashing loop itself. */
  method ComputeHash(s: Str) returns (h: Int32)
    ensures h == ToInt32(PolyHash(s))
  {
    h := 0;
    for i := 0 to |s|
      invariant h == RollingHash(s[..i])
    {
      assert s[..i + 1][..i] == s[..i];
      h := StepAsWritten(h, s[i]);
    }
    assert s[..|s|] == s;
    RollingHashIsPolynomial(s);
  }

  /** Math.abs on an Int32; note Abs(-2^31) == 2^31. */
  function Abs(h: Int32): (r: nat)
    ensures r <= TwoTo31
    ensures r == h as int || r == -(h as int)
  {
    if h < 0 then -(h as int) else h as int
  }

  /** The digit characters of Number.prototype.toString(36). */
  function Digit36(d: nat): CodeUnit
    requires d < 36
  {
    if d < 10 then 0x30 + d else 0x61 + (d - 10)
  }

  /** The value of a base-36 digit unit, -1 for any other unit. */
  function DigitValue(c: CodeUnit): int {
    if 0x30 <= c <= 0x39 then c - 0x30
    else if 0x61 <= c <= 0x7A then c - 0x61 + 10
    else -1
  }

  /** n.toString(36) for a non-negative integer n. */
  function Base36(n: nat): Str
    decreases n
  {
    if n < 36 then [Digit36(n)] else Base36(n / 36) + [Digit36(n % 36)]
  }

  /** parseInt(s, 36) on a string made of base-36 digits. */
  function ParseBase36(s: Str): int {
    if |s| == 0 then 0 else ParseBase36(s[..|s| - 1]) * 36 + DigitValue(s[|s| - 1])
  }

  /** Base 36 printing is undone by base 36 parsing, its output is non-empty,
      made of digits, and has no leading zero. */
  lemma {:induction false} Base36RoundTrip(n: nat)
    ensures ParseBase36(Base36(n)) == n
    ensures |Base36(n)| >= 1
    ensures forall i | 0 <= i < |Base36(n)| :: 0 <= DigitValue(Base36(n)[i]) < 36
    ensures n > 0 ==> Base36(n)[0] != 0x30
  {
    if n >= 36 {
      Base36RoundTrip(n / 36);
      var r := Base36(n);
      assert r[..|r| - 1] == Base36(n / 36);
      assert DigitValue(r[|r| - 1]) == n % 36;
    }
  }

  /** Distinct hash magnitudes give distinct identifiers. */
  lemma Base36Injective(a: nat, b: nat)
    requires Base36(a) == Base36(b)
    ensures a == b
  {
    Base36RoundTrip(a);
    Base36RoundTrip(b);
  }

  function SharedPrefix(): Str { Ascii("shared_") }
  function ReplyPrefix(): Str { Ascii("msg_") }

  /** The string createSharedMessageId hashes: the timestamp up to its first
      '.', the trimmed sender and receiver, and the first 50 units of the
      trimmed text, joined by ':'. */
  function SharedHashInput(timestamp: Str, sender: Str, receiver: Str, text: Str): Str {
    BeforeFirst(timestamp, Dot) + [Colon] + Trim(sender) + [Colon] + Trim(receiver)
      + [Colon] + Take(Trim(text), 50)
  }

  /** createSharedMessageId; an absent field is passed as the empty string. */
  function SharedMessageId(timestamp: Str, sender: Str, receiver: Str, text: Str): Str {
    SharedPrefix() + Base36(Abs(RollingHash(SharedHashInput(timestamp, sender, receiver, text))))
  }

  /** The string createReplyIdentifier hashes: sender, ':' and the first 20
      units of the (untrimmed) text. */
  function ReplyHashInput(sender: Str, text: Str): Str {
    sender + [Colon] + Take(text, 20)
  }

  /** createReplyIdentifier. */
  function ReplyIdentifier(sender: Str, text: Str): Str {
    ReplyPrefix() + Base36(Abs(RollingHash(ReplyHashInput(sender, text))))
  }

  /** A shared id is "shared_" followed by the base-36 form of the magnitude
      of the 32-bit polynomial hash of its normalised input; in particular
      it can be parsed back to that magnitude, which is at most 2^31. */
  lemma SharedIdDecodes(timestamp: Str, sender: Str, receiver: Str, text: Str)
    ensures var id := SharedMessageId(timestamp, sender, receiver, text);
            var h := ToInt32(PolyHash(SharedHashInput(timestamp, sender, receiver, text)));
            StartsWith(id, SharedPrefix()) && ParseBase36(id[7..]) == Abs(h) <= TwoTo31
  {
    var input := SharedHashInput(timestamp, sender, receiver, text);
    RollingHashIsPolynomial(input);
    Base36RoundTrip(Abs(RollingHash(input)));
    var id := SharedMessageId(timestamp, sender, receiver, text);
    assert id[7..] == Base36(Abs(RollingHash(input)));
  }

  /** Reply identifiers never look like shared ids ("msg_" vs "shared_"), so
      a reaction aimed at one is looked up by local id. */
  lemma ReplyIdIsNotShared(sender: Str, text: Str)
    ensures !StartsWith(ReplyIdentifier(sender, text), SharedPrefix())
    ensures StartsWith(ReplyIdentifier(sender, text), ReplyPrefix())
  {
    var id := ReplyIdentifier(sender, text);
    assert id[0] == 0x6D;
  }

  /** Shared ids are a function of the normalised fields only: the timestamp
      before its first '.', the trimmed sender and receiver, and the first
      50 units of the trimmed text. */
  lemma SharedIdNormalises(ts1: Str, s1: Str, r1: Str, t1: Str, ts2: Str, s2: Str, r2: Str, t2: Str)
    requires BeforeFirst(ts1, Dot) == BeforeFirst(ts2, Dot)
    requires Trim(s1) == Trim(s2) && Trim(r1) == Trim(r2)
    requires Take(Trim(t1), 50) == Take(Trim(t2), 50)
    ensures SharedMessageId(ts1, s1, r1, t1) == SharedMessageId(ts2, s2, r2, t2)
  {
  }

  /** Reply identifiers depend only on the sender and the first 20 units. */
  lemma ReplyIdPrefixOnly(sender: Str, t1: Str, t2: Str)
    requires Take(t1, 20) == Take(t2, 20)
    ensures ReplyIdentifier(sender, t1) == ReplyIdentifier(sender, t2)
  {
  }

  lemma BeforeFirstOfJoin(p: Str, rest: Str)
    requires Dot !in p
    ensures BeforeFirst(p + [Dot] + rest, Dot) == p
  {
    IndexOfUnitJoin(p, Dot, rest);
    assert (p + [Dot] + rest)[..|p|] == p;
  }

  /** Two ISO timestamps that differ only after the '.' (the milliseconds)
      give the same shared id. */
  lemma SharedIdIgnoresMilliseconds(seconds: Str, ms1: Str, ms2: Str, sender: Str, receiver: Str, text: Str)
    requires Dot !in seconds
    ensures SharedMessageId(seconds + [Dot] + ms1, sender, receiver, text)
         == SharedMessageId(seconds + [Dot] + ms2, sender, receiver, text)
  {
    BeforeFirstOfJoin(seconds, ms1);
    BeforeFirstOfJoin(seconds, ms2);
  }

  predicate AllWhitespace(w: Str) {
    forall i | 0 <= i < |w| :: IsJsWhitespace(w[i])
  }

  lemma {:induction false} TrimEndAppendWhitespace(s: Str, w: Str)
    requires AllWhitespace(w)
    ensures TrimEnd(s + w) == TrimEnd(s)
    decreases |w|
  {
    if |w| > 0 {
      var sw := s + w;
      assert sw[..|sw| - 1] == s + w[..|w| - 1];
      TrimEndAppendWhitespace(s, w[..|w| - 1]);
    } else {
      assert s + w == s;
    }
  }

  lemma {:induction false} TrimStartAppend(s: Str, w: Str)
    requires exists i | 0 <= i < |s| :: !IsJsWhitespace(s[i])
    ensures TrimStart(s + w) == TrimStart(s) + w
  {
    if IsJsWhitespace(s[0]) {
      assert (s + w)[1..] == s[1..] + w;
      var i :| 0 <= i < |s| && !IsJsWhitespace(s[i]);
      assert !IsJsWhitespace(s[1..][i - 1]);
      TrimStartAppend(s[1..], w);
    }
  }

  lemma {:induction false} TrimAppendWhitespace(s: Str, w: Str)
    requires AllWhitespace(w)
    ensures Trim(s + w) == Trim(s)
  {
    if exists i | 0 <= i < |s| :: !IsJsWhitespace(s[i]) {
      TrimStartAppend(s, w);
      TrimEndAppendWhitespace(TrimStart(s), w);
    } else {
      assert AllWhitespace(s + w);
      assert TrimStart(s + w) == [];
      assert TrimStart(s) == [];
    }
  }

  /** Trailing whitespace in the text (as one client may keep and another
      strip) does not change the shared id. */
  lemma SharedIdIgnoresTrailingWhitespace(timestamp: Str, sender: Str, receiver: Str, text: Str, w: Str)
    requires AllWhitespace(w)
    ensures SharedMessageId(timestamp, sender, receiver, text + w)
         == SharedMessageId(timestamp, sender, receiver, text)
  {
    TrimAppendWhitespace(text, w);
  }
}
