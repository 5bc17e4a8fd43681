/** The control-message codec: reactions, replies and forwards travel inside
    the plain message text. The encoders are the template strings of
    sendReactionToBackend, sendReplyMessage and sendForwardedMessage; the
    decoders are the unanchored regular expressions of processNewMessages,
    modelled as a leftmost search over start positions with a deterministic
    matcher at each position (every `[^c]+` group is followed by `c`, so it
    always ends at the first `c`; `.+` is greedy and stops at a line
    terminator). Each matcher reads a suffix of the text and returns what
    is left after the match. */
module Codec {
  import opened Utf16

  datatype ReactionEvent = ReactionEvent(targetId: Str, emoji: Str, user: Str, action: Str)
  datatype ReplyParts = ReplyParts(identifier: Str, sender: Str, originalText: Str, replyText: Str)
  datatype ForwardParts = ForwardParts(sender: Str, text: Str)

  /** "[REACTION:" */
  function ReactionTag(): Str { [0x5B, 0x52, 0x45, 0x41, 0x43, 0x54, 0x49, 0x4F, 0x4E, 0x3A] }
  /** "[REPLY_TO:" */
  function ReplyTag(): Str { [0x5B, 0x52, 0x45, 0x50, 0x4C, 0x59, 0x5F, 0x54, 0x4F, 0x3A] }
  /** "[FORWARDED_FROM:" */
  function ForwardTag(): Str {
    [0x5B, 0x46, 0x4F, 0x52, 0x57, 0x41, 0x52, 0x44, 0x45, 0x44, 0x5F, 0x46, 0x52, 0x4F, 0x4D, 0x3A]
  }
  /** " || " */
  function Separator(): Str { [0x20, 0x7C, 0x7C, 0x20] }

  /** `[REACTION:${targetId}:${emoji}:${username}:${action}]` */
  function EncodeReaction(e: ReactionEvent): Str {
    ReactionTag() + e.targetId + [Colon] + e.emoji + [Colon] + e.user + [Colon] + e.action + [CloseBracket]
  }

  /** `[REPLY_TO:${replyIdentifier}:${sender}] ${text} || ${replyText}` */
  function EncodeReply(r: ReplyParts): Str {
    ReplyTag() + r.identifier + [Colon] + r.sender + [CloseBracket] + [Space] + r.originalText
      + Separator() + r.replyText
  }

  /** `[FORWARDED_FROM:${sender}] ${text}` */
  function EncodeForward(f: ForwardParts): Str {
    ForwardTag() + f.sender + [CloseBracket] + [Space] + f.text
  }

  /** The group `([^c]+)c` at the start of t: the field and what follows c. */
  function Field(t: Str, c: CodeUnit): (r: Option<(Str, Str)>)
    ensures r.Some? ==> |r.value.0| > 0 && c !in r.value.0 && t == r.value.0 + [c] + r.value.1
  {
    var n := IndexOfUnit(t, c);
    if n == 0 || n == |t| then None
    else
      assert t == t[..n] + [c] + t[n + 1..];
      Some((t[..n], t[n + 1..]))
  }

  /** Every field is non-empty and free of the separator that ends it. */
  predicate FieldsOk(fs: seq<Str>, seps: seq<CodeUnit>)
    requires |fs| == |seps|
  {
    forall i | 0 <= i < |fs| :: |fs[i]| > 0 && seps[i] !in fs[i]
  }

  /** The fields followed each by its separator. */
  function Join(fs: seq<Str>, seps: seq<CodeUnit>): Str
    requires |fs| == |seps|
  {
    if |fs| == 0 then [] else fs[0] + [seps[0]] + Join(fs[1..], seps[1..])
  }

  /** The groups `([^c0]+)c0([^c1]+)c1...` at the start of t, and what
      follows the last separator. */
  function Fields(t: Str, seps: seq<CodeUnit>): (r: Option<(seq<Str>, Str)>)
    ensures r.Some? ==> |r.value.0| == |seps| && FieldsOk(r.value.0, seps)
                        && t == Join(r.value.0, seps) + r.value.1
    decreases |seps|
  {
    if |seps| == 0 then Some(([], t))
    else match Field(t, seps[0])
      case None => None
      case Some((f, rest)) => match Fields(rest, seps[1..])
        case None => None
        case Some((fs, rest')) =>
          FieldsCons(t, seps, f, rest, fs, rest');
          Some(([f] + fs, rest'))
  }

  /** One more field in front keeps the groups well formed and joined. */
  lemma FieldsCons(t: Str, seps: seq<CodeUnit>, f: Str, rest: Str, fs: seq<Str>, rest': Str)
    requires |seps| > 0 && |f| > 0 && seps[0] !in f && t == f + [seps[0]] + rest
    requires |fs| == |seps| - 1 && FieldsOk(fs, seps[1..]) && rest == Join(fs, seps[1..]) + rest'
    ensures |[f] + fs| == |seps| && FieldsOk([f] + fs, seps) && t == Join([f] + fs, seps) + rest'
  {
    var fs' := [f] + fs;
    assert fs'[0] == f && fs'[1..] == fs;
    assert Join(fs', seps) == f + [seps[0]] + Join(fs, seps[1..]);
    forall i | 0 <= i < |fs'| ensures |fs'[i]| > 0 && seps[i] !in fs'[i] {
      if i > 0 { assert fs'[i] == fs[i - 1] && seps[i] == seps[1..][i - 1]; }
    }
  }

  /** Units up to the first line terminator, or all of t. */
  function LineLength(t: Str): (n: nat)
    ensures n <= |t|
    ensures NoLineTerminator(t[..n])
    ensures n < |t| ==> IsLineTerminator(t[n])
  {
    if |t| == 0 || IsLineTerminator(t[0]) then 0
    else
      var n := LineLength(t[1..]);
      assert t[..1 + n] == [t[0]] + t[1..][..n];
      1 + n
  }

  /** The group `(.+)` at the start of t: the longest non-empty run without a
      line terminator, and what follows it. */
  function Line(t: Str): (r: Option<(Str, Str)>)
    ensures r.Some? ==> |r.value.0| > 0 && NoLineTerminator(r.value.0) && t == r.value.0 + r.value.1
  {
    var n := LineLength(t);
    if n == 0 then None
    else
      assert t == t[..n] + t[n..];
      Some((t[..n], t[n..]))
  }

  /** The groups are what the regular expressions let through. */
  predicate ReactionFieldsOk(e: ReactionEvent) {
    && |e.targetId| > 0 && Colon !in e.targetId
    && |e.emoji| > 0 && Colon !in e.emoji
    && |e.user| > 0 && Colon !in e.user
    && |e.action| > 0 && CloseBracket !in e.action
  }

  predicate ReplyFieldsOk(r: ReplyParts) {
    && |r.identifier| > 0 && Colon !in r.identifier
    && |r.sender| > 0 && CloseBracket !in r.sender
    && |r.originalText| > 0 && NoLineTerminator(r.originalText)
    && |r.replyText| > 0 && NoLineTerminator(r.replyText)
  }

  predicate ForwardFieldsOk(f: ForwardParts) {
    && |f.sender| > 0 && CloseBracket !in f.sender
    && |f.text| > 0 && NoLineTerminator(f.text)
  }

  /** /\[REACTION:([^:]+):([^:]+):([^:]+):([^\]]+)\]/ anchored at the start
      of t. */
  function MatchReaction(t: Str): (r: Option<ReactionEvent>)
    ensures r.Some? ==> ReactionFieldsOk(r.value)
  {
    if !StartsWith(t, ReactionTag()) then None
    else match Fields(t[10..], [Colon, Colon, Colon, CloseBracket])
      case None => None
      case Some((fs, _)) => Some(ReactionEvent(fs[0], fs[1], fs[2], fs[3]))
  }

  /** The last position j >= 1 at which " || " starts and leaves at least
      one unit after it: where greedy `(.+) \|\| (.+)` splits a line. */
  function LastSeparator(line: Str): (r: Option<nat>)
    ensures r.Some? ==> 1 <= r.value && r.value + 4 < |line| && OccursAt(line, Separator(), r.value)
    ensures forall j | (if r.Some? then r.value < j else 1 <= j) && j + 4 < |line| ::
              !OccursAt(line, Separator(), j)
  {
    SeparatorAtOrBelow(line, |line| - 5)
  }

  function SeparatorAtOrBelow(line: Str, j: int): (r: Option<nat>)
    requires j + 4 < |line|
    ensures r.Some? ==> 1 <= r.value <= j && OccursAt(line, Separator(), r.value)
    ensures forall k | (if r.Some? then r.value < k else 1 <= k) && k <= j ::
              !OccursAt(line, Separator(), k)
    decreases j
  {
    if j < 1 then None
    else if OccursAt(line, Separator(), j) then Some(j)
    else SeparatorAtOrBelow(line, j - 1)
  }

  /** The tail ` (.+) \|\| (.+)` of the reply pattern at the start of t: the
      two texts and what follows the line. */
  function ReplyBody(t: Str): (r: Option<(Str, Str, Str)>)
    ensures r.Some? ==> var (o, x, rest) := r.value;
              && |o| > 0 && NoLineTerminator(o) && |x| > 0 && NoLineTerminator(x)
              && t == [Space] + o + Separator() + x + rest
  {
    if |t| == 0 || t[0] != Space then None
    else match Line(t[1..])
      case None => None
      case Some((line, rest)) => match LastSeparator(line)
        case None => None
        case Some(j) =>
          SplitAtSeparator(t, line, rest, j);
          Some((line[..j], line[j + 4..], rest))
  }

  /** Cutting the line at a separator gives the two texts around it. */
  lemma SplitAtSeparator(t: Str, line: Str, rest: Str, j: nat)
    requires |t| > 0 && t[0] == Space && t[1..] == line + rest && NoLineTerminator(line)
    requires 1 <= j && j + 4 < |line| && OccursAt(line, Separator(), j)
    ensures |line[..j]| > 0 && NoLineTerminator(line[..j]) && |line[j + 4..]| > 0 && NoLineTerminator(line[j + 4..])
    ensures t == [Space] + line[..j] + Separator() + line[j + 4..] + rest
  {
    assert line == line[..j] + line[j..j + 4] + line[j + 4..];
    assert t == [Space] + t[1..];
    var o, x := line[..j], line[j + 4..];
    forall i | 0 <= i < |o| ensures !IsLineTerminator(o[i]) {
      assert o[i] == line[i];
    }
    forall i | 0 <= i < |x| ensures !IsLineTerminator(x[i]) {
      assert x[i] == line[j + 4 + i];
    }
  }

  /** /\[REPLY_TO:([^:]+):([^\]]+)\] (.+) \|\| (.+)/ anchored at the start
      of t. */
  function MatchReply(t: Str): (r: Option<ReplyParts>)
    ensures r.Some? ==> ReplyFieldsOk(r.value)
  {
    if !StartsWith(t, ReplyTag()) then None
    else match Fields(t[10..], [Colon, CloseBracket])
      case None => None
      case Some((fs, rest)) => match ReplyBody(rest)
        case None => None
        case Some((o, x, _)) => Some(ReplyParts(fs[0], fs[1], o, x))
  }

  /** The tail ` (.+)` of the forward pattern at the start of t: the text
      and what follows the line. */
  function ForwardBody(t: Str): (r: Option<(Str, Str)>)
    ensures r.Some? ==> |r.value.0| > 0 && NoLineTerminator(r.value.0)
                        && t == [Space] + r.value.0 + r.value.1
  {
    if |t| == 0 || t[0] != Space then None
    else match Line(t[1..])
      case None => None
      case Some((text, rest)) =>
        assert t == [Space] + t[1..];
        Some((text, rest))
  }

  /** /\[FORWARDED_FROM:([^\]]+)\] (.+)/ anchored at the start of t. */
  function MatchForward(t: Str): (r: Option<ForwardParts>)
    ensures r.Some? ==> ForwardFieldsOk(r.value)
  {
    if !StartsWith(t, ForwardTag()) then None
    else match Fields(t[16..], [CloseBracket])
      case None => None
      case Some((fs, rest)) => match ForwardBody(rest)
        case None => None
        case Some((text, _)) => Some(ForwardParts(fs[0], text))
  }

  /** String.prototype.match with a non-global pattern: the match at the
      leftmost start position from p on. */
  function Leftmost<T>(s: Str, p: nat, m: Str -> Option<T>): (r: Option<T>)
    ensures r.Some? ==> exists k | p <= k <= |s| :: m(s[k..]) == r && forall j | p <= j < k :: m(s[j..]).None?
    ensures r.None? <==> forall k | p <= k <= |s| :: m(s[k..]).None?
    decreases |s| + 1 - p
  {
    if p > |s| then None
    else if m(s[p..]).Some? then m(s[p..])
    else Leftmost(s, p + 1, m)
  }

  function DecodeReaction(s: Str): Option<ReactionEvent> { Leftmost(s, 0, MatchReaction) }
  function DecodeReply(s: Str): Option<ReplyParts> { Leftmost(s, 0, MatchReply) }
  function DecodeForward(s: Str): Option<ForwardParts> { Leftmost(s, 0, MatchForward) }

  lemma Join1(f0: Str, c0: CodeUnit)
    ensures Join([f0], [c0]) == f0 + [c0]
  {
    assert [f0][1..] == [] && [c0][1..] == [];
  }

  lemma Join2(f0: Str, f1: Str, c0: CodeUnit, c1: CodeUnit)
    ensures Join([f0, f1], [c0, c1]) == f0 + [c0] + f1 + [c1]
  {
    assert [f0, f1][1..] == [f1] && [c0, c1][1..] == [c1];
    Join1(f1, c1);
  }

  lemma Join4(f0: Str, f1: Str, f2: Str, f3: Str, c0: CodeUnit, c1: CodeUnit, c2: CodeUnit, c3: CodeUnit)
    ensures Join([f0, f1, f2, f3], [c0, c1, c2, c3]) == f0 + [c0] + f1 + [c1] + f2 + [c2] + f3 + [c3]
  {
    assert [f0, f1, f2, f3][1..] == [f1, f2, f3] && [c0, c1, c2, c3][1..] == [c1, c2, c3];
    assert [f1, f2, f3][1..] == [f2, f3] && [c1, c2, c3][1..] == [c2, c3];
    Join2(f2, f3, c2, c3);
  }

  /** A text that starts with tag + rest starts with tag, and rest follows it. */
  lemma TagThen(t: Str, tag: Str, rest: Str)
    requires t == tag + rest
    ensures StartsWith(t, tag) && t[|tag|..] == rest
  {
  }

  /** A match anchored at a suffix is an occurrence in the whole text. */
  lemma SuffixOccurs(s: Str, k: nat, p: Str)
    requires k <= |s| && StartsWith(s[k..], p)
    ensures Contains(s, p)
  {
    assert s[k..][..|p|] == s[k..k + |p|];
    assert OccursAt(s, p, k);
  }

  lemma ReactionAssoc(e: ReactionEvent, rest: Str)
    ensures ReactionTag() + (Join([e.targetId, e.emoji, e.user, e.action], [Colon, Colon, Colon, CloseBracket]) + rest)
            == EncodeReaction(e) + rest
  {
    Join4(e.targetId, e.emoji, e.user, e.action, Colon, Colon, Colon, CloseBracket);
  }

  lemma MatchReactionSound(t: Str)
    requires MatchReaction(t).Some?
    ensures StartsWith(t, EncodeReaction(MatchReaction(t).value))
  {
    var e := MatchReaction(t).value;
    var (fs, rest) := Fields(t[10..], [Colon, Colon, Colon, CloseBracket]).value;
    assert fs == [e.targetId, e.emoji, e.user, e.action];
    assert t == t[..10] + t[10..];
    ReactionAssoc(e, rest);
  }

  /** What a decoded reaction is: its fields are the ones the regex admits
      and its encoding occurs in the message text. */
  lemma DecodeReactionSound(s: Str)
    requires DecodeReaction(s).Some?
    ensures ReactionFieldsOk(DecodeReaction(s).value)
    ensures Contains(s, EncodeReaction(DecodeReaction(s).value))
  {
    var k :| 0 <= k <= |s| && MatchReaction(s[k..]) == DecodeReaction(s);
    MatchReactionSound(s[k..]);
    SuffixOccurs(s, k, EncodeReaction(DecodeReaction(s).value));
  }

  /** Only a text that holds "[REACTION:" decodes to a reaction. */
  lemma ReactionNeedsTag(s: Str)
    requires !Contains(s, ReactionTag())
    ensures DecodeReaction(s).None?
  {
    if DecodeReaction(s).Some? {
      var k :| 0 <= k <= |s| && MatchReaction(s[k..]) == DecodeReaction(s);
      SuffixOccurs(s, k, ReactionTag());
    }
  }

  lemma ReplyAssoc(r: ReplyParts, rest: Str, more: Str)
    ensures ReplyTag() + (Join([r.identifier, r.sender], [Colon, CloseBracket])
              + ([Space] + r.originalText + Separator() + r.replyText + more))
            == EncodeReply(r) + more
  {
    Join2(r.identifier, r.sender, Colon, CloseBracket);
  }

  lemma MatchReplySound(t: Str)
    requires MatchReply(t).Some?
    ensures StartsWith(t, EncodeReply(MatchReply(t).value))
  {
    var r := MatchReply(t).value;
    var (fs, rest) := Fields(t[10..], [Colon, CloseBracket]).value;
    var (_, _, more) := ReplyBody(rest).value;
    assert fs == [r.identifier, r.sender];
    assert t == t[..10] + t[10..];
    ReplyAssoc(r, rest, more);
    assert t == EncodeReply(r) + more;
  }

  lemma DecodeReplySound(s: Str)
    requires DecodeReply(s).Some?
    ensures ReplyFieldsOk(DecodeReply(s).value)
    ensures Contains(s, EncodeReply(DecodeReply(s).value))
  {
    var k :| 0 <= k <= |s| && MatchReply(s[k..]) == DecodeReply(s);
    MatchReplySound(s[k..]);
    SuffixOccurs(s, k, EncodeReply(DecodeReply(s).value));
  }

  lemma ForwardAssoc(f: ForwardParts, more: Str)
    ensures ForwardTag() + (Join([f.sender], [CloseBracket]) + ([Space] + f.text + more))
            == EncodeForward(f) + more
  {
    Join1(f.sender, CloseBracket);
  }

  lemma MatchForwardSound(t: Str)
    requires MatchForward(t).Some?
    ensures StartsWith(t, EncodeForward(MatchForward(t).value))
  {
    var f := MatchForward(t).value;
    var (fs, rest) := Fields(t[16..], [CloseBracket]).value;
    var (_, more) := ForwardBody(rest).value;
    assert fs == [f.sender];
    assert t == t[..16] + t[16..];
    ForwardAssoc(f, more);
  }

  lemma DecodeForwardSound(s: Str)
    requires DecodeForward(s).Some?
    ensures ForwardFieldsOk(DecodeForward(s).value)
    ensures Contains(s, EncodeForward(DecodeForward(s).value))
  {
    var k :| 0 <= k <= |s| && MatchForward(s[k..]) == DecodeForward(s);
    MatchForwardSound(s[k..]);
    SuffixOccurs(s, k, EncodeForward(DecodeForward(s).value));
  }

  /** Reading one `([^c]+)c` group. */
  lemma FieldOf(f: Str, c: CodeUnit, rest: Str)
    requires |f| > 0 && c !in f
    ensures Field(f + [c] + rest, c) == Some((f, rest))
  {
    var t := f + [c] + rest;
    IndexOfUnitJoin(f, c, rest);
    assert t[..|f|] == f && t[|f| + 1..] == rest;
  }

  lemma FieldsOkTail(fs: seq<Str>, seps: seq<CodeUnit>)
    requires |fs| == |seps| && |fs| > 0 && FieldsOk(fs, seps)
    ensures FieldsOk(fs[1..], seps[1..]) && |fs[0]| > 0 && seps[0] !in fs[0]
  {
    forall i | 0 <= i < |fs[1..]| ensures |fs[1..][i]| > 0 && seps[1..][i] !in fs[1..][i] {
      assert fs[1..][i] == fs[i + 1] && seps[1..][i] == seps[i + 1];
    }
  }

  /** Reading groups whose fields are non-empty and free of their separators
      gives back exactly those fields and what follows them. */
  lemma {:induction false} FieldsOf(fs: seq<Str>, seps: seq<CodeUnit>, rest: Str)
    requires |fs| == |seps| && FieldsOk(fs, seps)
    ensures Fields(Join(fs, seps) + rest, seps) == Some((fs, rest))
    decreases |fs|
  {
    if |fs| > 0 {
      var tail := Join(fs[1..], seps[1..]) + rest;
      assert Join(fs, seps) + rest == fs[0] + [seps[0]] + tail;
      FieldsOkTail(fs, seps);
      FieldOf(fs[0], seps[0], tail);
      FieldsOf(fs[1..], seps[1..], rest);
      assert [fs[0]] + fs[1..] == fs;
    } else {
      assert fs == [] && Join(fs, seps) + rest == rest;
    }
  }

  /** A line followed by nothing or by a line terminator is read whole. */
  lemma {:induction false} LineLengthOf(t: Str, rest: Str)
    requires NoLineTerminator(t) && (rest == [] || IsLineTerminator(rest[0]))
    ensures LineLength(t + rest) == |t|
  {
    if |t| == 0 {
      assert t + rest == rest;
    } else {
      assert (t + rest)[1..] == t[1..] + rest;
      LineLengthOf(t[1..], rest);
    }
  }

  lemma LineOf(t: Str)
    requires |t| > 0 && NoLineTerminator(t)
    ensures Line(t) == Some((t, []))
  {
    LineLengthOf(t, []);
    assert t + [] == t;
  }

  /** A reaction whose first three fields are non-empty and colon-free and
      whose action is non-empty without ']' decodes back to itself. */
  lemma ReactionRoundTrip(e: ReactionEvent)
    requires ReactionFieldsOk(e)
    ensures DecodeReaction(EncodeReaction(e)) == Some(e)
  {
    var s := EncodeReaction(e);
    var fs := [e.targetId, e.emoji, e.user, e.action];
    var seps := [Colon, Colon, Colon, CloseBracket];
    ReactionAssoc(e, []);
    assert Join(fs, seps) + [] == Join(fs, seps);
    assert s == ReactionTag() + (Join(fs, seps) + []);
    TagThen(s, ReactionTag(), Join(fs, seps) + []);
    FieldsOf(fs, seps, []);
    assert s[0..] == s;
    assert MatchReaction(s) == Some(e);
  }

  /** The reply-text condition of the round trip: no " || " may start in the
      reply text or in the space that precedes it. */
  predicate NoSeparatorAfter(replyText: Str) {
    !Contains([Space] + replyText, Separator())
  }

  predicate ReplyWellFormed(r: ReplyParts) {
    ReplyFieldsOk(r) && NoSeparatorAfter(r.replyText)
  }

  /** When the reply text holds no " || ", the greedy split falls on the
      separator the encoder wrote. */
  lemma ReplyLineSplit(o: Str, x: Str)
    requires |o| > 0 && |x| > 0 && NoSeparatorAfter(x)
    ensures LastSeparator(o + Separator() + x) == Some(|o|)
  {
    var line := o + Separator() + x;
    var tail := [Space] + x;
    var head := o + [0x20, 0x7C, 0x7C];
    assert line == head + tail;
    assert OccursAt(line, Separator(), |o|);
    forall j | |o| < j && j + 4 < |line|
      ensures !OccursAt(line, Separator(), j)
    {
      if j < |o| + 3 {
        assert line[j..j + 4][0] == line[j] == 0x7C != Separator()[0];
      } else {
        var k := j - |head|;
        assert !OccursAt(tail, Separator(), k);
        var a, b := line[j..j + 4], tail[k..k + 4];
        forall i | 0 <= i < 4
          ensures a[i] == b[i]
        {
          assert a[i] == line[j + i] == tail[k + i] == b[i];
        }
        assert a == b;
        assert OccursAt(line, Separator(), j) <==> a == Separator();
        assert OccursAt(tail, Separator(), k) <==> b == Separator();
      }
    }
  }

  lemma ReplyBodyOf(o: Str, x: Str)
    requires |o| > 0 && NoLineTerminator(o) && |x| > 0 && NoLineTerminator(x) && NoSeparatorAfter(x)
    ensures ReplyBody([Space] + o + Separator() + x) == Some((o, x, []))
  {
    var line := o + Separator() + x;
    var t := [Space] + o + Separator() + x;
    assert t[1..] == line;
    assert NoLineTerminator(line);
    LineOf(line);
    ReplyLineSplit(o, x);
    assert line[..|o|] == o && line[|o| + 4..] == x;
  }

  /** A reply with a non-empty, colon-free identifier, a non-empty sender
      without ']', and non-empty single-line texts whose reply part holds no
      " || " decodes back to its four parts. */
  lemma ReplyRoundTrip(r: ReplyParts)
    requires ReplyWellFormed(r)
    ensures DecodeReply(EncodeReply(r)) == Some(r)
  {
    var s := EncodeReply(r);
    var fs := [r.identifier, r.sender];
    var seps := [Colon, CloseBracket];
    var body := [Space] + r.originalText + Separator() + r.replyText;
    ReplyAssoc(r, [], []);
    assert body + [] == body && s + [] == s;
    TagThen(s, ReplyTag(), Join(fs, seps) + body);
    FieldsOf(fs, seps, body);
    ReplyBodyOf(r.originalText, r.replyText);
    assert s[0..] == s;
    assert MatchReply(s) == Some(r);
  }

  lemma ForwardBodyOf(text: Str)
    requires |text| > 0 && NoLineTerminator(text)
    ensures ForwardBody([Space] + text) == Some((text, []))
  {
    assert ([Space] + text)[1..] == text;
    LineOf(text);
  }

  /** A forward with a non-empty sender without ']' and a non-empty
      single-line text decodes back to its two parts. */
  lemma ForwardRoundTrip(f: ForwardParts)
    requires ForwardFieldsOk(f)
    ensures DecodeForward(EncodeForward(f)) == Some(f)
  {
    var s := EncodeForward(f);
    var body := [Space] + f.text;
    ForwardAssoc(f, []);
    assert body + [] == body && s + [] == s;
    TagThen(s, ForwardTag(), Join([f.sender], [CloseBracket]) + body);
    FieldsOf([f.sender], [CloseBracket], body);
    ForwardBodyOf(f.text);
    assert s[0..] == s;
    assert MatchForward(s) == Some(f);
  }
}
