/** Read state: a per-chat watermark (the time the chat was last read) and
    the unread count computed against it. The watermark store is an
    abstract map from chat id to milliseconds. */
module ReadState {
  import opened Utf16
  import opened ChatModel

  /** getLastReadTimestamp: the stored watermark, 0 (never read) when absent. */
  function Watermark(lastRead: map<Str, int>, chatId: Str): (w: int)
    ensures chatId in lastRead ==> w == lastRead[chatId]
    ensures chatId !in lastRead ==> w == 0
  {
    if chatId in lastRead then lastRead[chatId] else 0
  }

  /** setLastReadTimestamp: store `now` as the chat's watermark. */
  function SetWatermark(lastRead: map<Str, int>, chatId: Str, now: int): (r: map<Str, int>)
    ensures Watermark(r, chatId) == now
    ensures forall other | other != chatId :: Watermark(r, other) == Watermark(lastRead, other)
  {
    lastRead[chatId := now]
  }

  /** A message counts as unread when its `sender` is not the current user,
      it is not a reaction message, and it is newer than the watermark. */
  predicate IsUnread(m: Message, currentUser: Option<Str>, watermark: int) {
    !SameUser(m.sender, currentUser) && !m.isReactionMessage && m.timestamp > watermark
  }

  /** calculateUnreadCount, as a reference definition over the message list. */
  function UnreadCount(msgs: seq<Message>, currentUser: Option<Str>, watermark: int): (n: nat)
    ensures n <= |msgs|
  {
    if |msgs| == 0 then 0
    else (if IsUnread(msgs[0], currentUser, watermark) then 1 else 0)
         + UnreadCount(msgs[1..], currentUser, watermark)
  }

  /** Pushing a message adds one to the count exactly when it is unread. */
  lemma {:induction false} UnreadCountAppend(msgs: seq<Message>, m: Message, currentUser: Option<Str>, watermark: int)
    ensures UnreadCount(msgs + [m], currentUser, watermark)
            == UnreadCount(msgs, currentUser, watermark) + (if IsUnread(m, currentUser, watermark) then 1 else 0)
  {
    if |msgs| > 0 {
      assert (msgs + [m])[1..] == msgs[1..] + [m];
      UnreadCountAppend(msgs[1..], m, currentUser, watermark);
    }
  }

  /** The count is zero exactly when no message is unread. */
  lemma {:induction false} UnreadCountZero(msgs: seq<Message>, currentUser: Option<Str>, watermark: int)
    ensures UnreadCount(msgs, currentUser, watermark) == 0
            <==> forall i | 0 <= i < |msgs| :: !IsUnread(msgs[i], currentUser, watermark)
  {
    if |msgs| > 0 {
      UnreadCountZero(msgs[1..], currentUser, watermark);
      assert forall i | 1 <= i < |msgs| :: msgs[i] == msgs[1..][i - 1];
    }
  }

  /** After the watermark is moved to `now`, nothing timestamped up to `now`
      is unread. */
  lemma NothingUnreadAfterMark(msgs: seq<Message>, currentUser: Option<Str>, now: int)
    requires forall i | 0 <= i < |msgs| :: msgs[i].timestamp <= now
    ensures UnreadCount(msgs, currentUser, now) == 0
  {
    UnreadCountZero(msgs, currentUser, now);
  }

  /** Moving the watermark forward never increases the count. */
  lemma {:induction false} UnreadCountAntitone(msgs: seq<Message>, currentUser: Option<Str>, w1: int, w2: int)
    requires w1 <= w2
    ensures UnreadCount(msgs, currentUser, w2) <= UnreadCount(msgs, currentUser, w1)
  {
    if |msgs| > 0 {
      UnreadCountAntitone(msgs[1..], currentUser, w1, w2);
    }
  }

  /** The own-message test reads `sender`, which a polled backend record
      does not carry: the user's own polled record counts as unread once it
      is newer than the watermark. */
  lemma OwnPolledRecordCounts(r: Record, currentUser: Option<Str>, watermark: int)
    requires currentUser == Some(r.senderId) && r.timestamp > watermark
    ensures IsUnread(FromRecord(r), currentUser, watermark)
  {
  }

  /** handleNewChat's seeding: with the watermark one second before the first
      message, that message is unread unless it is the user's own or a
      reaction message. */
  lemma SeededWatermarkCountsFirst(first: Message, currentUser: Option<Str>)
    ensures IsUnread(first, currentUser, first.timestamp - 1000)
            <==> !SameUser(first.sender, currentUser) && !first.isReactionMessage
  {
  }

  /** The counting loop of calculateUnreadCount. */
  method CountUnread(msgs: seq<Message>, currentUser: Option<Str>, watermark: int) returns (n: nat)
    ensures n == UnreadCount(msgs, currentUser, watermark)
  {
    n := 0;
    var i := 0;
    while i < |msgs|
      invariant 0 <= i <= |msgs|
      invariant n == UnreadCount(msgs[..i], currentUser, watermark)
    {
      UnreadCountAppend(msgs[..i], msgs[i], currentUser, watermark);
      assert msgs[..i + 1] == msgs[..i] + [msgs[i]];
      if IsUnread(msgs[i], currentUser, watermark) {
        n := n + 1;
      }
      i := i + 1;
    }
    assert msgs[..i] == msgs;
  }
}
