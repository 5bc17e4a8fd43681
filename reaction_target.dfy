/** Finding the message an incoming reaction is aimed at, and writing the
    reacted message back into its chat (processIncomingReaction). */
module ReactionTarget {
  import opened Utf16
  import opened ChatModel
  import opened Reactions
  import ContentHash

  /** The matching rule: an id that starts with "shared_" is compared with
      each message's sharedId, any other id with its localId. Only one of
      the two is ever tried. */
  predicate IdMatches(m: Message, targetId: Str) {
    if StartsWith(targetId, ContentHash.SharedPrefix()) then m.sharedId == Some(targetId)
    else m.localId == Some(targetId)
  }

  /** messages.find(matches), as the index of the first match. */
  function FindById(msgs: seq<Message>, targetId: Str): (r: Option<nat>)
    ensures r.Some? ==> r.value < |msgs| && IdMatches(msgs[r.value], targetId)
    ensures r.Some? ==> forall j | 0 <= j < r.value :: !IdMatches(msgs[j], targetId)
    ensures r.None? <==> forall j | 0 <= j < |msgs| :: !IdMatches(msgs[j], targetId)
  {
    if |msgs| == 0 then None
    else if IdMatches(msgs[0], targetId) then Some(0)
    else
      var r := FindById(msgs[1..], targetId);
      assert forall j | 1 <= j < |msgs| :: msgs[j] == msgs[1..][j - 1];
      if r.Some? then Some(r.value + 1) else None
  }

  /** Where a reaction lands: a chat key and an index into its messages. */
  datatype Target = Target(chatId: Str, index: nat)

  /** A target names an existing message. */
  predicate ValidTarget(chats: map<Str, Chat>, t: Target) {
    t.chatId in chats && t.index < |chats[t.chatId].messages|
  }

  /** The first pass: chats in key order, the first matching message of the
      first chat that has one. */
  function LocateById(chats: map<Str, Chat>, order: seq<Str>, targetId: Str): (r: Option<Target>)
    ensures r.Some? ==> r.value.chatId in order && r.value.chatId in chats
                        && FindById(chats[r.value.chatId].messages, targetId) == Some(r.value.index)
    ensures r.None? <==> forall k | k in order && k in chats :: FindById(chats[k].messages, targetId).None?
  {
    if |order| == 0 then None
    else if order[0] !in chats then
      var r := LocateById(chats, order[1..], targetId);
      assert forall k | k in order :: k == order[0] || k in order[1..];
      r
    else
      match FindById(chats[order[0]].messages, targetId)
      case Some(i) => Some(Target(order[0], i))
      case None =>
        var r := LocateById(chats, order[1..], targetId);
        assert forall k | k in order :: k == order[0] || k in order[1..];
        r
  }

  /** No chat before position p of the key order has a matching message. */
  predicate NoMatchBefore(chats: map<Str, Chat>, order: seq<Str>, targetId: Str, p: nat)
    requires p <= |order|
  {
    forall q | 0 <= q < p && order[q] in chats :: FindById(chats[order[q]].messages, targetId).None?
  }

  /** The chat found by id is the first one in key order that holds a match. */
  lemma {:induction false} LocateByIdFirst(chats: map<Str, Chat>, order: seq<Str>, targetId: Str)
    requires LocateById(chats, order, targetId).Some?
    ensures exists p | 0 <= p < |order| ::
              order[p] == LocateById(chats, order, targetId).value.chatId
              && NoMatchBefore(chats, order, targetId, p)
  {
    var t := LocateById(chats, order, targetId).value;
    if order[0] in chats && FindById(chats[order[0]].messages, targetId).Some? {
      assert order[0] == t.chatId && NoMatchBefore(chats, order, targetId, 0);
    } else {
      var tail := order[1..];
      assert LocateById(chats, tail, targetId) == LocateById(chats, order, targetId);
      LocateByIdFirst(chats, tail, targetId);
      var p :| 0 <= p < |tail| && tail[p] == t.chatId && NoMatchBefore(chats, tail, targetId, p);
      assert order[p + 1] == t.chatId;
      assert NoMatchBefore(chats, order, targetId, p + 1) by {
        forall q | 0 <= q < p + 1 && order[q] in chats
          ensures FindById(chats[order[q]].messages, targetId).None?
        {
          if q > 0 {
            assert order[q] == tail[q - 1];
          }
        }
      }
    }
  }

  // ----- The fallback: the twenty most recent messages of each chat -----

  function Ts(msgs: seq<Message>, i: nat): int
    requires i < |msgs|
  {
    msgs[i].timestamp
  }

  predicate IndicesIn(msgs: seq<Message>, s: seq<nat>) {
    forall a | 0 <= a < |s| :: s[a] < |msgs|
  }

  /** x precedes y in the newest-first order that a stable sort on
      `b.timestamp - a.timestamp` produces: newer, or as new and earlier in
      the chat. */
  predicate Before(msgs: seq<Message>, x: nat, y: nat)
    requires x < |msgs| && y < |msgs|
  {
    Ts(msgs, x) > Ts(msgs, y) || (Ts(msgs, x) == Ts(msgs, y) && x < y)
  }

  predicate Ordered(msgs: seq<Message>, s: seq<nat>)
    requires IndicesIn(msgs, s)
  {
    forall a, b | 0 <= a < b < |s| :: Before(msgs, s[a], s[b])
  }

  /** Insert index i in front of the first strictly older index. */
  function Insert(msgs: seq<Message>, i: nat, s: seq<nat>): (r: seq<nat>)
    requires i < |msgs| && IndicesIn(msgs, s)
    ensures IndicesIn(msgs, r) && |r| == |s| + 1
    ensures forall x | x in r :: x == i || x in s
    ensures multiset(r) == multiset(s) + multiset{i}
  {
    if |s| == 0 then [i]
    else if Ts(msgs, s[0]) < Ts(msgs, i) then [i] + s
    else
      assert s == [s[0]] + s[1..];
      [s[0]] + Insert(msgs, i, s[1..])
  }

  lemma {:induction false} InsertOrdered(msgs: seq<Message>, i: nat, s: seq<nat>)
    requires i < |msgs| && IndicesIn(msgs, s) && Ordered(msgs, s)
    requires forall x | x in s :: x < i
    ensures Ordered(msgs, Insert(msgs, i, s))
  {
    if |s| > 0 {
      if Ts(msgs, s[0]) < Ts(msgs, i) {
        var r := [i] + s;
        forall a, b | 0 <= a < b < |r| ensures Before(msgs, r[a], r[b]) {
          assert r[b] == s[b - 1];
          if a == 0 {
            if b > 1 {
              assert Before(msgs, s[0], s[b - 1]);
            }
          } else {
            assert r[a] == s[a - 1];
          }
        }
      } else {
        var tail := s[1..];
        assert forall a | 0 <= a < |tail| :: tail[a] == s[a + 1];
        assert forall x | x in tail :: x in s;
        assert s[0] in s;
        InsertOrdered(msgs, i, tail);
        var t := Insert(msgs, i, tail);
        var r := [s[0]] + t;
        forall a, b | 0 <= a < b < |r| ensures Before(msgs, r[a], r[b]) {
          assert r[b] == t[b - 1];
          if a == 0 {
            assert r[b] in t;
            if r[b] != i {
              var c :| 0 <= c < |tail| && tail[c] == r[b];
              assert Before(msgs, s[0], s[c + 1]);
            }
          } else {
            assert r[a] == t[a - 1];
          }
        }
      }
    }
  }

  /** The stable sort by timestamp, newest first, of the indices 0..n-1. */
  function SortRecent(msgs: seq<Message>, n: nat): (r: seq<nat>)
    requires n <= |msgs|
    ensures IndicesIn(msgs, r) && |r| == n
    ensures forall x | x in r :: x < n
  {
    if n == 0 then [] else Insert(msgs, n - 1, SortRecent(msgs, n - 1))
  }

  /** The sort lists every index, newest first and ties in chat order. */
  lemma {:induction false} SortRecentCorrect(msgs: seq<Message>, n: nat)
    requires n <= |msgs|
    ensures Ordered(msgs, SortRecent(msgs, n))
    ensures forall j | 0 <= j < n :: j in SortRecent(msgs, n)
  {
    if n > 0 {
      var s := SortRecent(msgs, n - 1);
      SortRecentCorrect(msgs, n - 1);
      InsertOrdered(msgs, n - 1, s);
      var r := Insert(msgs, n - 1, s);
      forall j | 0 <= j < n ensures j in r {
        if j < n - 1 {
          assert j in s;
          assert j in multiset(s);
        }
        assert j in multiset(r);
      }
    }
  }

  /** Within five minutes of the reaction's timestamp. */
  predicate NearInTime(m: Message, timestamp: int) {
    -300000 < m.timestamp - timestamp < 300000
  }

  /** The first position of the list whose message is near. */
  function FirstNear(msgs: seq<Message>, s: seq<nat>, timestamp: int): (r: Option<nat>)
    requires IndicesIn(msgs, s)
    ensures r.Some? ==> r.value < |s| && NearInTime(msgs[s[r.value]], timestamp)
    ensures r.Some? ==> forall a | 0 <= a < r.value :: !NearInTime(msgs[s[a]], timestamp)
    ensures r.None? <==> forall a | 0 <= a < |s| :: !NearInTime(msgs[s[a]], timestamp)
  {
    if |s| == 0 then None
    else if NearInTime(msgs[s[0]], timestamp) then Some(0)
    else
      var r := FirstNear(msgs, s[1..], timestamp);
      assert forall a | 1 <= a < |s| :: s[a] == s[1..][a - 1];
      if r.Some? then Some(r.value + 1) else None
  }

  /** `.slice(0, 20)` of the sorted indices. */
  function Top20(msgs: seq<Message>): (r: seq<nat>)
    ensures IndicesIn(msgs, r) && |r| <= 20 && |r| <= |msgs|
    ensures r == SortRecent(msgs, |msgs|)[..|r|]
    ensures |r| == |msgs| || |r| == 20
  {
    var sorted := SortRecent(msgs, |msgs|);
    if |sorted| <= 20 then sorted else sorted[..20]
  }

  /** The fallback within one chat: sort newest first, keep twenty, take the
      first within five minutes. The result is an index into msgs. */
  function PickRecent(msgs: seq<Message>, timestamp: int): (r: Option<nat>)
    ensures r.Some? ==> r.value < |msgs| && NearInTime(msgs[r.value], timestamp)
  {
    var top := Top20(msgs);
    match FirstNear(msgs, top, timestamp)
    case Some(p) => Some(top[p])
    case None => None
  }

  /** The set of a list's elements. */
  function Elements(s: seq<nat>): (r: set<nat>)
    ensures forall x :: x in r <==> x in s
  {
    if |s| == 0 then {} else {s[0]} + Elements(s[1..])
  }

  /** A list has at most as many distinct elements as entries. */
  lemma {:induction false} ElementsCard(s: seq<nat>)
    ensures |Elements(s)| <= |s|
  {
    if |s| > 0 {
      ElementsCard(s[1..]);
      var tail := Elements(s[1..]);
      if s[0] in tail {
        assert {s[0]} + tail == tail;
      } else {
        assert |{s[0]} + tail| == |tail| + 1;
      }
    }
  }

  lemma SubsetCard(a: set<nat>, b: set<nat>)
    requires a <= b
    ensures |a| <= |b|
  {
    assert b == a + (b - a);
  }

  /** The messages strictly newer than message i. */
  function NewerThan(msgs: seq<Message>, i: nat): set<nat>
    requires i < |msgs|
  {
    set j | 0 <= j < |msgs| && msgs[j].timestamp > msgs[i].timestamp
  }

  /** Everything strictly newer than the index at position p of the sorted
      list sits before position p. */
  lemma NewerSortFirst(msgs: seq<Message>, p: nat)
    requires p < |msgs|
    ensures NewerThan(msgs, SortRecent(msgs, |msgs|)[p]) <= Elements(SortRecent(msgs, |msgs|)[..p])
  {
    var sorted := SortRecent(msgs, |msgs|);
    SortRecentCorrect(msgs, |msgs|);
    forall j | j in NewerThan(msgs, sorted[p])
      ensures j in sorted[..p]
    {
      assert j in sorted;
      var c :| 0 <= c < |sorted| && sorted[c] == j;
      assert sorted[..p][c] == j;
    }
  }

  /** The message the fallback picks is among the twenty most recent of its
      chat: fewer than twenty messages are strictly newer. */
  lemma PickRecentIsRecent(msgs: seq<Message>, timestamp: int)
    requires PickRecent(msgs, timestamp).Some?
    ensures |NewerThan(msgs, PickRecent(msgs, timestamp).value)| < 20
  {
    var sorted := SortRecent(msgs, |msgs|);
    var top := Top20(msgs);
    var p := FirstNear(msgs, top, timestamp).value;
    assert top[p] == sorted[p];
    assert PickRecent(msgs, timestamp).value == sorted[p];
    NewerSortFirst(msgs, p);
    ElementsCard(sorted[..p]);
    SubsetCard(NewerThan(msgs, sorted[p]), Elements(sorted[..p]));
  }

  /** The second pass: chats in key order, the first whose recent messages
      hold one near the reaction's timestamp. */
  function LocateRecent(chats: map<Str, Chat>, order: seq<Str>, timestamp: int): (r: Option<Target>)
    ensures r.Some? ==> r.value.chatId in order && ValidTarget(chats, r.value)
                        && NearInTime(chats[r.value.chatId].messages[r.value.index], timestamp)
    ensures r.None? <==> forall k | k in order && k in chats :: PickRecent(chats[k].messages, timestamp).None?
  {
    if |order| == 0 then None
    else if order[0] !in chats then
      var r := LocateRecent(chats, order[1..], timestamp);
      assert forall k | k in order :: k == order[0] || k in order[1..];
      r
    else
      match PickRecent(chats[order[0]].messages, timestamp)
      case Some(i) => Some(Target(order[0], i))
      case None =>
        var r := LocateRecent(chats, order[1..], timestamp);
        assert forall k | k in order :: k == order[0] || k in order[1..];
        r
  }

  /** Where processIncomingReaction applies a reaction: by id, else by the
      time-window fallback, else nowhere. */
  function Locate(chats: map<Str, Chat>, order: seq<Str>, targetId: Str, timestamp: int): (r: Option<Target>)
    ensures r.Some? ==> r.value.chatId in order && ValidTarget(chats, r.value)
    ensures r.Some? && LocateById(chats, order, targetId).None? ==>
              NearInTime(chats[r.value.chatId].messages[r.value.index], timestamp)
  {
    match LocateById(chats, order, targetId)
    case Some(t) => Some(t)
    case None => LocateRecent(chats, order, timestamp)
  }

  /** A message found by id wins over any fallback candidate. */
  lemma LocatePrefersId(chats: map<Str, Chat>, order: seq<Str>, targetId: Str, timestamp: int)
    requires exists k | k in order && k in chats :: FindById(chats[k].messages, targetId).Some?
    ensures Locate(chats, order, targetId, timestamp).Some?
    ensures var t := Locate(chats, order, targetId, timestamp).value;
            IdMatches(chats[t.chatId].messages[t.index], targetId)
  {
  }

  /** No message anywhere matches the id and none is near in time: nothing
      is located, and the reaction is dropped. */
  lemma LocateNothing(chats: map<Str, Chat>, order: seq<Str>, targetId: Str, timestamp: int)
    requires forall k | k in order && k in chats :: forall j | 0 <= j < |chats[k].messages| ::
               !IdMatches(chats[k].messages[j], targetId) && !NearInTime(chats[k].messages[j], timestamp)
    ensures Locate(chats, order, targetId, timestamp).None?
  {
    forall k | k in order && k in chats ensures PickRecent(chats[k].messages, timestamp).None? {
      var msgs := chats[k].messages;
    }
  }

  // ----- Writing the reacted message back -----

  /** The message with the reaction applied to its map. */
  function Reacted(m: Message, emoji: Str, user: Str, action: Str): (r: Message)
    ensures r == m.(reactions := r.reactions)
    ensures r.reactions == Incoming(m.reactions, emoji, user, action)
  {
    m.(reactions := Incoming(m.reactions, emoji, user, action))
  }

  /** messages.findIndex(msg => msg.localId === localId). Two absent localIds
      compare equal (undefined === undefined). */
  function FindByLocalId(msgs: seq<Message>, localId: Option<Str>): (r: Option<nat>)
    ensures r.Some? ==> r.value < |msgs| && msgs[r.value].localId == localId
    ensures r.Some? ==> forall j | 0 <= j < r.value :: msgs[j].localId != localId
    ensures r.None? <==> forall j | 0 <= j < |msgs| :: msgs[j].localId != localId
  {
    if |msgs| == 0 then None
    else if msgs[0].localId == localId then Some(0)
    else
      var r := FindByLocalId(msgs[1..], localId);
      assert forall j | 1 <= j < |msgs| :: msgs[j] == msgs[1..][j - 1];
      if r.Some? then Some(r.value + 1) else None
  }

  /** The write-back as written: the target at index t was updated in place,
      then the first message with the same localId is overwritten with a
      copy of it. */
  function WriteBackAsWritten(msgs: seq<Message>, t: nat, updated: Message): (r: seq<Message>)
    requires t < |msgs|
    ensures |r| == |msgs| && r[t] == updated
  {
    var inPlace := msgs[t := updated];
    match FindByLocalId(inPlace, updated.localId)
    case Some(j) => inPlace[j := updated]
    case None => inPlace
  }

  /** The write-back as intended: only the reacted message changes. */
  function WriteBack(msgs: seq<Message>, t: nat, updated: Message): (r: seq<Message>)
    requires t < |msgs|
    ensures |r| == |msgs| && r[t] == updated
    ensures forall j | 0 <= j < |msgs| && j != t :: r[j] == msgs[j]
  {
    msgs[t := updated]
  }

  /** The two agree whenever no earlier message shares the target's localId,
      in particular for a target found by its own localId. */
  lemma WriteBackAgrees(msgs: seq<Message>, t: nat, updated: Message)
    requires t < |msgs| && updated.localId == msgs[t].localId
    requires forall j | 0 <= j < t :: msgs[j].localId != msgs[t].localId
    ensures WriteBackAsWritten(msgs, t, updated) == WriteBack(msgs, t, updated)
  {
    var inPlace := msgs[t := updated];
    var r := FindByLocalId(inPlace, updated.localId);
    assert inPlace[t].localId == updated.localId;
    assert forall j | 0 <= j < t :: inPlace[j].localId != updated.localId;
    assert r == Some(t);
  }

  /** A plain polled record has no localId. When the fallback picks such a
      record while an earlier message in the chat also lacks a localId, the
      copy lands on the first such message too, which is replaced by the
      reacted record. */
  lemma WriteBackClobbers(msgs: seq<Message>, t: nat, updated: Message, j: nat)
    requires t < |msgs| && updated.localId == msgs[t].localId
    requires j < t && msgs[j].localId == msgs[t].localId
    requires forall i | 0 <= i < j :: msgs[i].localId != msgs[t].localId
    ensures WriteBackAsWritten(msgs, t, updated)[j] == updated
    ensures WriteBack(msgs, t, updated)[j] == msgs[j]
  {
    var inPlace := msgs[t := updated];
    assert FindByLocalId(inPlace, updated.localId) == Some(j) by {
      assert forall i | 0 <= i < j :: inPlace[i].localId != updated.localId;
      assert inPlace[j].localId == updated.localId;
    }
  }

  /** Two messages with text but without a localId in one chat (a decoded
      forward is stored that way, and keeps it until its chat is rendered),
      and a reaction that falls back to the second: as written, the first
      message is lost and the second appears twice; as intended, the first
      is kept. */
  lemma ClobberExample(x: Message, y: Message, emoji: Str, user: Str)
    requires x.localId.None? && y.localId.None? && x.text.Some? && y.text.Some?
    requires x.content != y.content
    ensures var updated := Reacted(y, emoji, user, AddAction());
            && WriteBackAsWritten([x, y], 1, updated) == [updated, updated]
            && WriteBack([x, y], 1, updated) == [x, updated]
            && WriteBackAsWritten([x, y], 1, updated) != WriteBack([x, y], 1, updated)
  {
    var msgs := [x, y];
    var updated := Reacted(y, emoji, user, AddAction());
    WriteBackClobbers(msgs, 1, updated, 0);
    assert updated.content == y.content;
    assert WriteBackAsWritten(msgs, 1, updated)[0] != WriteBack(msgs, 1, updated)[0];
  }
}
