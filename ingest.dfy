/** One poll tick: processNewMessages over a batch of backend records, with
    processIncomingReaction for reaction control messages; and the local
    side of sending a message (sendMessage) and of reacting (addReaction). */
module Ingest {
  import opened Utf16
  import opened ChatModel
  import opened Reactions
  import opened ReadState
  import opened ChatState
  import opened Lifecycle
  import opened ReactionTarget
  import Codec
  import ContentHash

  // ----- Incoming reactions -----

  /** Some stored message has no `text`. debugReaction, called first by
      processIncomingReaction, logs `msg.text.substring(0, 30)` for every
      message of every chat, so it throws on such a message. */
  predicate SomeTextMissing(chats: map<Str, Chat>) {
    exists k, i | k in chats && 0 <= i < |chats[k].messages| :: chats[k].messages[i].text.None?
  }

  /** debugReaction's walk over every message of every chat: whether it
      reaches a message without text, where its log line throws. */
  method DebugReaction(chats: map<Str, Chat>) returns (missing: bool)
    ensures missing == SomeTextMissing(chats)
  {
    missing := false;
    var todo := chats.Keys;
    while todo != {} && !missing
      invariant todo <= chats.Keys
      invariant missing ==> SomeTextMissing(chats)
      invariant !missing ==> forall k, i | k in chats && k !in todo && 0 <= i < |chats[k].messages| ::
                               chats[k].messages[i].text.Some?
      decreases |todo|
    {
      var k :| k in todo;
      var msgs := chats[k].messages;
      var j := 0;
      while j < |msgs| && !missing
        invariant 0 <= j <= |msgs|
        invariant missing ==> SomeTextMissing(chats)
        invariant !missing ==> forall i | 0 <= i < j :: msgs[i].text.Some?
      {
        if msgs[j].text.None? {
          assert chats[k].messages[j].text.None?;
          missing := true;
        }
        j := j + 1;
      }
      todo := todo - {k};
    }
  }

  /** processIncomingReaction: locate the target (by id, else by time),
      apply the reaction to its map, write it back and save the map under
      the message's localId. Nothing happens when debugReaction throws
      first, or when no target is found. The write-back is the one that
      touches the target only (`ReactionTarget.WriteBack`). */
  function IncomingReaction(st: State, ev: Codec.ReactionEvent, timestamp: int): (res: State)
    ensures res == st.(chats := res.chats, savedReactions := res.savedReactions)
    ensures SomeTextMissing(st.chats) ==> res == st
  {
    if SomeTextMissing(st.chats) then st
    else match Locate(st.chats, st.order, ev.targetId, timestamp)
    case None => st
    case Some(t) =>
      var c := st.chats[t.chatId];
      var m := c.messages[t.index];
      var m' := Reacted(m, ev.emoji, ev.user, ev.action);
      SetChat(st, t.chatId, c.(messages := WriteBack(c.messages, t.index, m')))
        .(savedReactions := st.savedReactions[m.localId := m'.reactions])
  }

  /** Every chat keeps its key and its number of messages. */
  predicate SameShape(st: State, r: State) {
    && r.chats.Keys == st.chats.Keys
    && (forall k | k in st.chats :: |r.chats[k].messages| == |st.chats[k].messages|)
  }

  /** A reaction changes one message's reaction map and nothing else of any
      chat: no message is added, removed or otherwise altered. */
  lemma IncomingReactionEffect(st: State, ev: Codec.ReactionEvent, timestamp: int)
    ensures var r := IncomingReaction(st, ev, timestamp);
            && SameShape(st, r) && r.order == st.order
            && (forall k, i | k in st.chats && 0 <= i < |st.chats[k].messages| ::
                  r.chats[k].messages[i] == st.chats[k].messages[i].(reactions := r.chats[k].messages[i].reactions))
  {
    if !SomeTextMissing(st.chats) {
      match Locate(st.chats, st.order, ev.targetId, timestamp)
      case None =>
      case Some(t) =>
        var c := st.chats[t.chatId];
        var m' := Reacted(c.messages[t.index], ev.emoji, ev.user, ev.action);
        assert IncomingReaction(st, ev, timestamp).chats
               == st.chats[t.chatId := c.(messages := WriteBack(c.messages, t.index, m'))];
        ReactionOnlyWriteBack(st.chats, t.chatId, t.index, m');
    }
  }

  /** Writing back a message that differs from the one at t only in its
      reactions keeps every chat's length and every other field. */
  lemma ReactionOnlyWriteBack(chats: map<Str, Chat>, k0: Str, t: nat, m': Message)
    requires k0 in chats && t < |chats[k0].messages|
    requires m' == chats[k0].messages[t].(reactions := m'.reactions)
    ensures var r := chats[k0 := chats[k0].(messages := WriteBack(chats[k0].messages, t, m'))];
            && r.Keys == chats.Keys
            && (forall k | k in chats :: |r[k].messages| == |chats[k].messages|)
            && (forall k, i | k in chats && 0 <= i < |chats[k].messages| ::
                  r[k].messages[i] == chats[k].messages[i].(reactions := r[k].messages[i].reactions))
  {
    var c := chats[k0];
    var r := chats[k0 := c.(messages := WriteBack(c.messages, t, m'))];
    forall k, i | k in chats && 0 <= i < |chats[k].messages|
      ensures r[k].messages[i] == chats[k].messages[i].(reactions := r[k].messages[i].reactions)
    {
      if k == k0 && i != t {
        assert r[k].messages[i] == c.messages[i];
      }
    }
  }

  /** When the located message was well formed, so is it afterwards. */
  lemma IncomingReactionWellFormed(st: State, ev: Codec.ReactionEvent, timestamp: int)
    requires forall k, i | k in st.chats && 0 <= i < |st.chats[k].messages| :: WellFormed(st.chats[k].messages[i].reactions)
    ensures var r := IncomingReaction(st, ev, timestamp);
            forall k, i | k in r.chats && 0 <= i < |r.chats[k].messages| :: WellFormed(r.chats[k].messages[i].reactions)
  {
    if !SomeTextMissing(st.chats) {
      match Locate(st.chats, st.order, ev.targetId, timestamp)
      case None =>
      case Some(t) =>
        var c := st.chats[t.chatId];
        var m' := Reacted(c.messages[t.index], ev.emoji, ev.user, ev.action);
        IncomingPreservesWellFormed(c.messages[t.index].reactions, ev.emoji, ev.user, ev.action);
        assert IncomingReaction(st, ev, timestamp).chats
               == st.chats[t.chatId := c.(messages := WriteBack(c.messages, t.index, m'))];
        WellFormedWriteBack(st.chats, t.chatId, t.index, m');
    }
  }

  /** Writing back a message with well-formed reactions keeps every
      reaction map of every chat well formed. */
  lemma WellFormedWriteBack(chats: map<Str, Chat>, k0: Str, t: nat, m': Message)
    requires k0 in chats && t < |chats[k0].messages| && WellFormed(m'.reactions)
    requires forall k, i | k in chats && 0 <= i < |chats[k].messages| :: WellFormed(chats[k].messages[i].reactions)
    ensures var r := chats[k0 := chats[k0].(messages := WriteBack(chats[k0].messages, t, m'))];
            forall k, i | k in r && 0 <= i < |r[k].messages| :: WellFormed(r[k].messages[i].reactions)
  {
  }

  // ----- Building the stored message -----

  /** The record after reply parsing: a reply gets its reply text, the
      quoted parts and a fresh localId. */
  function Parsed(r: Record, freshId: Str): (m: Message)
    ensures m.senderId == Some(r.senderId) && m.content == Some(r.content) && m.timestamp == r.timestamp
    ensures m.sender.None? && !m.isReactionMessage
    ensures Codec.DecodeReply(r.content).None? ==> m == FromRecord(r)
  {
    match Codec.DecodeReply(r.content)
    case None => FromRecord(r)
    case Some(p) =>
      FromRecord(r).(isReply := true, text := Some(p.replyText),
                     replyTo := Some(ReplyRef(p.identifier, p.sender, p.originalText, r.timestamp, None)),
                     localId := Some(freshId))
  }

  /** "[Forwarded from" */
  function LegacyForwardMark(): Str { Ascii("[Forwarded from") }

  /** The message pushed onto a chat: a "[FORWARDED_FROM:" message is taken
      apart when the forward pattern matches; an own message carrying the
      older "[Forwarded from" mark is flagged as forwarded. */
  function Stored(st: State, r: Record, m: Message): Message {
    if Contains(r.content, Codec.ForwardTag()) then
      match Codec.DecodeForward(r.content)
      case Some(f) => m.(text := Some(f.text), isForwarded := true, originalSender := Some(f.sender))
      case None => m
    else if st.currentUser == Some(r.senderId) && Contains(r.content, LegacyForwardMark()) then
      m.(isForwarded := true)
    else m
  }

  /** Two decoded forwards stored in one chat have text and no localId, so
      a reaction that falls back to the second is written, by the
      write-back as written, over the first as well. */
  lemma ForwardsClobbered(st: State, a: Record, b: Record, fa: Str, fb: Str, emoji: Str, user: Str)
    requires Codec.DecodeForward(a.content).Some? && Contains(a.content, Codec.ForwardTag())
    requires Codec.DecodeForward(b.content).Some? && Contains(b.content, Codec.ForwardTag())
    requires Codec.DecodeReply(a.content).None? && Codec.DecodeReply(b.content).None?
    requires a.content != b.content
    ensures var x := Stored(st, a, Parsed(a, fa));
            var y := Stored(st, b, Parsed(b, fb));
            var updated := Reacted(y, emoji, user, AddAction());
            && x.text.Some? && y.text.Some?
            && WriteBackAsWritten([x, y], 1, updated) == [updated, updated]
            && WriteBack([x, y], 1, updated) == [x, updated]
  {
    var x := Stored(st, a, Parsed(a, fa));
    var y := Stored(st, b, Parsed(b, fb));
    assert x.localId.None? && x.content == Some(a.content);
    assert y.localId.None? && y.content == Some(b.content);
    ClobberExample(x, y, emoji, user);
  }

  /** The append-side duplicate check: a message whose `sender` and `text`
      equal the record's sender and content, less than a second apart. */
  predicate IsDuplicate(msgs: seq<Message>, r: Record) {
    exists i | 0 <= i < |msgs| ::
      msgs[i].sender == Some(r.senderId) && msgs[i].text == Some(r.content)
      && -1000 < msgs[i].timestamp - r.timestamp < 1000
  }

  /** Append to an existing non-request chat unless it is a duplicate; the
      chat's unread count is recomputed when it is not the open chat. */
  function AppendToChat(st: State, chatId: Str, r: Record, m: Message): (res: State)
    ensures res == st.(chats := res.chats)
    ensures res.chats.Keys == st.chats.Keys
    ensures forall k | k in st.chats && k != chatId :: res.chats[k] == st.chats[k]
    ensures chatId !in st.chats || IsDuplicate(st.chats[chatId].messages, r) ==> res == st
    ensures chatId in st.chats && !IsDuplicate(st.chats[chatId].messages, r) ==>
              var c := st.chats[chatId];
              var c' := res.chats[chatId];
              && c'.messages == c.messages + [Stored(st, r, m)]
              && c' == c.(messages := c'.messages, lastActivity := Some(r.timestamp), unread := c'.unread)
              && c'.unread == (if st.currentChat == Some(chatId) then c.unread
                               else UnreadCount(c'.messages, st.currentUser, Watermark(st.lastRead, c.id)))
  {
    if chatId !in st.chats then st
    else
      var c := st.chats[chatId];
      if IsDuplicate(c.messages, r) then st
      else
        var msgs := c.messages + [Stored(st, r, m)];
        var c1 := c.(messages := msgs, lastActivity := Some(r.timestamp));
        var c2 := if st.currentChat != Some(chatId)
                  then c1.(unread := UnreadCount(msgs, st.currentUser, Watermark(st.lastRead, c.id)))
                  else c1;
        SetChat(st, chatId, c2)
  }

  /** A stranger's message goes to `request_<sender>`: a new request chat
      holding just it, or one more message in the existing one. */
  function AddToRequest(st: State, r: Record, m: Message): (res: State)
    ensures res == st.(chats := res.chats, order := res.order)
    ensures var rid := RequestId(r.senderId);
            && rid in res.chats
            && res.chats[rid].messages == (if rid in st.chats then st.chats[rid].messages else []) + [m]
            && forall k | k in st.chats && k != rid :: k in res.chats && res.chats[k] == st.chats[k]
    ensures var rid := RequestId(r.senderId);
            rid !in st.chats ==>
              && res.chats[rid] == Chat(rid, r.senderId, Request, [m], Some(r.timestamp), 1, false, Some(r.senderId))
              && res.order == st.order + [rid]
    ensures var rid := RequestId(r.senderId);
            rid in st.chats ==>
              && res.chats[rid] == st.chats[rid].(messages := res.chats[rid].messages, lastActivity := Some(r.timestamp),
                                                   unread := st.chats[rid].unread + 1)
              && res.order == st.order
  {
    var rid := RequestId(r.senderId);
    if rid !in st.chats then
      PutChat(st, rid, Chat(rid, r.senderId, Request, [m], Some(r.timestamp), 1, false, Some(r.senderId)))
    else
      var c := st.chats[rid];
      SetChat(st, rid, c.(messages := c.messages + [m], lastActivity := Some(r.timestamp), unread := c.unread + 1))
  }

  /** The chat a record that passed the drop checks is meant for: Global
      Chat for the group, the request chat of a permitted stranger, the
      sender's chat for a known one, the receiver's chat for the user's own
      record; none for a refused stranger or a record to someone else. */
  function Destination(st: State, r: Record): Option<Str> {
    if r.receiverId == GroupReceiver() || r.receiverId == GlobalChat() then Some(GlobalChat())
    else if st.currentUser == Some(r.receiverId) then
      if !Stranger(st, r.senderId) then Some(r.senderId)
      else if CanUserMessage(st, r.senderId) then Some(RequestId(r.senderId))
      else None
    else if st.currentUser == Some(r.senderId) then Some(r.receiverId)
    else None
  }

  /** Where a record that passed the drop checks goes: only its destination
      chat changes, a chat is created only as the destination, and group
      membership changes only for a group record. */
  function Route(st: State, r: Record, m: Message): (res: State)
    ensures res == st.(chats := res.chats, order := res.order, groupMembers := res.groupMembers)
    ensures forall k | k in st.chats && Some(k) != Destination(st, r) :: k in res.chats && res.chats[k] == st.chats[k]
    ensures forall k | k in res.chats && k !in st.chats :: Some(k) == Destination(st, r)
    ensures st.chats.Keys <= res.chats.Keys
    ensures Destination(st, r).None? ==> res == st
    ensures r.receiverId != GroupReceiver() && r.receiverId != GlobalChat() ==> res.groupMembers == st.groupMembers
    ensures (r.receiverId == GroupReceiver() || r.receiverId == GlobalChat())
            && GlobalChat() in st.chats && st.chats[GlobalChat()].kind == Group ==>
              GlobalChat() in res.groupMembers && r.senderId in res.groupMembers[GlobalChat()]
  {
    if r.receiverId == GroupReceiver() || r.receiverId == GlobalChat() then
      AppendToChat(UpdateGroupMembers(st, GlobalChat(), r.senderId), GlobalChat(), r, m)
    else if st.currentUser == Some(r.receiverId) then
      if Stranger(st, r.senderId) then
        if CanUserMessage(st, r.senderId) then AddToRequest(st, r, m) else st
      else AppendToChat(st, r.senderId, r, m)
    else if st.currentUser == Some(r.senderId) then
      AppendToChat(st, r.receiverId, r, m)
    else st
  }

  /** The user's own record, timestamped within five seconds of now. */
  predicate OwnRecent(st: State, r: Record, now: int) {
    st.currentUser == Some(r.senderId) && r.timestamp > now - 5000
  }

  /** processNewMessages for one record: the seen-key check, reactions,
      reply parsing, the self-echo and blocklist drops, then routing. */
  function IngestRecord(st: State, r: Record, now: int, freshId: Str): (res: State)
    ensures res == st.(chats := res.chats, order := res.order, groupMembers := res.groupMembers,
                       notifications := res.notifications, savedReactions := res.savedReactions)
    ensures res.notifications == st.notifications + {Key(r)}
  {
    var key := Key(r);
    if key in st.notifications then st
    else
      var st1 := st.(notifications := st.notifications + {key});
      match Codec.DecodeReaction(r.content)
      case Some(ev) => IncomingReaction(st1, ev, r.timestamp)
      case None =>
        var m := Parsed(r, freshId);
        if OwnRecent(st1, r, now) then st1
        else if r.senderId in st1.blocked then st1
        else Route(st1, r, m)
  }

  // ----- Where a record's pass throws -----

  /** The second definition of showEnhancedNotification, which overrides
      the first, reaches its call of the undefined showNotification and
      throws: the sender is non-empty, is not the open chat's id, is not
      the user, and the content holds no "[REACTION:". The object it is
      given has no receiver and no timestamp, so the read-state check is
      skipped and the age check compares NaN, which never suppresses. */
  predicate NotifyThrows(st: State, r: Record) {
    && |r.senderId| > 0
    && !(st.currentChat.Some? && |st.currentChat.value| > 0 && st.currentChat.value == r.senderId)
    && st.currentUser != Some(r.senderId)
    && !Contains(r.content, Codec.ReactionTag())
  }

  /** AppendToChat appends the record to a chat that is not open, so it
      shows a notification, which throws. */
  predicate AppendThrows(st: State, chatId: Str, r: Record) {
    && chatId in st.chats && !IsDuplicate(st.chats[chatId].messages, r)
    && st.currentChat != Some(chatId) && NotifyThrows(st, r)
  }

  /** Route ends in an append that throws. */
  predicate RouteThrows(st: State, r: Record) {
    if r.receiverId == GroupReceiver() || r.receiverId == GlobalChat() then
      AppendThrows(UpdateGroupMembers(st, GlobalChat(), r.senderId), GlobalChat(), r)
    else if st.currentUser == Some(r.receiverId) then
      !Stranger(st, r.senderId) && AppendThrows(st, r.senderId, r)
    else if st.currentUser == Some(r.senderId) then
      AppendThrows(st, r.receiverId, r)
    else false
  }

  /** The pass of one record throws after reaching IngestRecord's state: a
      reaction while some message has no text, or a routed append that
      notifies. The exception leaves processNewMessages, and the promise
      chain of fetchNewMessages catches it. */
  predicate Throws(st: State, r: Record, now: int) {
    && Key(r) !in st.notifications
    && var st1 := st.(notifications := st.notifications + {Key(r)});
       match Codec.DecodeReaction(r.content)
       case Some(_) => SomeTextMissing(st1.chats)
       case None => !OwnRecent(st1, r, now) && r.senderId !in st1.blocked && RouteThrows(st1, r)
  }

  /** The state after a batch, and whether a record's pass threw and cut
      the batch short. */
  datatype Batch = Batch(st: State, halted: bool)

  /** processNewMessages over a batch, in order, up to and including the
      first record whose pass throws; freshIds supplies the localId a reply
      would be given. */
  function IngestAll(st: State, records: seq<Record>, now: int, freshIds: seq<Str>): (b: Batch)
    requires |freshIds| == |records|
    ensures b.st == st.(chats := b.st.chats, order := b.st.order, groupMembers := b.st.groupMembers,
                        notifications := b.st.notifications, savedReactions := b.st.savedReactions)
    ensures st.notifications <= b.st.notifications
    ensures b.halted ==> |records| > 0
    decreases |records|
  {
    if |records| == 0 then Batch(st, false)
    else
      var n := |records| - 1;
      var b := IngestAll(st, records[..n], now, freshIds[..n]);
      if b.halted then b
      else Batch(IngestRecord(b.st, records[n], now, freshIds[n]), Throws(b.st, records[n], now))
  }

  // ----- Properties of ingestion -----

  /** A record whose key was seen before changes nothing. */
  lemma SeenRecordIgnored(st: State, r: Record, now: int, freshId: Str)
    requires Key(r) in st.notifications
    ensures IngestRecord(st, r, now, freshId) == st
  {
  }

  /** Two records with neither message_id nor shared_id share the key
      undefined: after the first, the second is ignored. */
  lemma SecondIdlessRecordIgnored(st: State, r1: Record, r2: Record, now: int, f1: Str, f2: Str)
    requires Key(r1).None? && Key(r2).None?
    ensures var st1 := IngestRecord(st, r1, now, f1);
            IngestRecord(st1, r2, now, f2) == st1
  {
  }

  /** A reaction control message is appended to no chat. */
  lemma ReactionNotAppended(st: State, r: Record, now: int, freshId: Str)
    requires Codec.DecodeReaction(r.content).Some?
    ensures SameShape(st, IngestRecord(st, r, now, freshId))
  {
    if Key(r) !in st.notifications {
      var st1 := st.(notifications := st.notifications + {Key(r)});
      IncomingReactionEffect(st1, Codec.DecodeReaction(r.content).value, r.timestamp);
    }
  }

  /** The state after a dropped record: only its key was recorded. */
  function Dropped(st: State, r: Record): State {
    st.(notifications := st.notifications + {Key(r)})
  }

  /** The user's own record from the last five seconds is dropped. */
  lemma OwnRecentDropped(st: State, r: Record, now: int, freshId: Str)
    requires Codec.DecodeReaction(r.content).None? && OwnRecent(st, r, now)
    ensures IngestRecord(st, r, now, freshId) == Dropped(st, r)
  {
  }

  /** A blocked sender's message is dropped (a blocked sender's reaction
      still applies: reactions are handled before this check). */
  lemma BlockedSenderDropped(st: State, r: Record, now: int, freshId: Str)
    requires Codec.DecodeReaction(r.content).None? && r.senderId in st.blocked
    ensures IngestRecord(st, r, now, freshId) == Dropped(st, r)
  {
  }

  /** A direct message from a stranger is dropped while the setting admits
      contacts only or nobody. */
  lemma StrangerDropped(st: State, r: Record, now: int, freshId: Str)
    requires Codec.DecodeReaction(r.content).None?
    requires st.currentUser == Some(r.receiverId) && r.receiverId != GroupReceiver() && r.receiverId != GlobalChat()
    requires Stranger(st, r.senderId) && st.whoCanMessage in {ContactsOnly, Nobody}
    ensures IngestRecord(st, r, now, freshId) == Dropped(st, r)
  {
  }

  /** A record neither for the group, nor to the user, nor from the user is
      dropped. */
  lemma UnaddressedDropped(st: State, r: Record, now: int, freshId: Str)
    requires Codec.DecodeReaction(r.content).None?
    requires r.receiverId != GroupReceiver() && r.receiverId != GlobalChat()
    requires st.currentUser != Some(r.receiverId) && st.currentUser != Some(r.senderId)
    ensures IngestRecord(st, r, now, freshId) == Dropped(st, r)
  {
  }

  /** A stranger's message that passes the setting lands in the sender's
      request chat, and only there. */
  lemma StrangerGoesToRequest(st: State, r: Record, now: int, freshId: Str)
    requires Key(r) !in st.notifications && Codec.DecodeReaction(r.content).None?
    requires !OwnRecent(st, r, now) && r.senderId !in st.blocked
    requires st.currentUser == Some(r.receiverId) && r.receiverId != GroupReceiver() && r.receiverId != GlobalChat()
    requires Stranger(st, r.senderId) && CanUserMessage(st, r.senderId)
    ensures var res := IngestRecord(st, r, now, freshId);
            var rid := RequestId(r.senderId);
            && rid in res.chats
            && res.chats[rid].messages == (if rid in st.chats then st.chats[rid].messages else []) + [Parsed(r, freshId)]
            && (forall k | k != rid :: k in res.chats <==> k in st.chats)
            && (forall k | k != rid && k in st.chats :: res.chats[k] == st.chats[k])
  {
    var rid := RequestId(r.senderId);
    if rid !in st.chats {
      assert [] + [Parsed(r, freshId)] == [Parsed(r, freshId)];
    }
  }

  /** A record the user sent to a contact from another device (older than
      five seconds, not a duplicate) is appended to that contact's chat with
      its content as is, unless it is a forward. */
  lemma OwnRecordAppended(st: State, r: Record, now: int, freshId: Str)
    requires Key(r) !in st.notifications && Codec.DecodeReaction(r.content).None?
    requires Codec.DecodeReply(r.content).None? && !Contains(r.content, Codec.ForwardTag())
    requires !Contains(r.content, LegacyForwardMark())
    requires st.currentUser == Some(r.senderId) && r.timestamp <= now - 5000 && r.senderId !in st.blocked
    requires r.receiverId != GroupReceiver() && r.receiverId != GlobalChat() && r.receiverId != r.senderId
    requires r.receiverId in st.chats && !IsDuplicate(st.chats[r.receiverId].messages, r)
    ensures var res := IngestRecord(st, r, now, freshId);
            && res.chats.Keys == st.chats.Keys
            && res.chats[r.receiverId].messages == st.chats[r.receiverId].messages + [FromRecord(r)]
  {
  }

  /** A group record that passes the drop checks lands in Global Chat, with
      its sender recorded as a member when Global Chat is a group chat. */
  lemma GroupRecordAppended(st: State, r: Record, now: int, freshId: Str)
    requires Key(r) !in st.notifications && Codec.DecodeReaction(r.content).None?
    requires !OwnRecent(st, r, now) && r.senderId !in st.blocked
    requires r.receiverId == GroupReceiver() || r.receiverId == GlobalChat()
    requires GlobalChat() in st.chats && !IsDuplicate(st.chats[GlobalChat()].messages, r)
    ensures var res := IngestRecord(st, r, now, freshId);
            && res.chats.Keys == st.chats.Keys
            && res.chats[GlobalChat()].messages == st.chats[GlobalChat()].messages + [Stored(st, r, Parsed(r, freshId))]
            && (forall k | k in st.chats && k != GlobalChat() :: res.chats[k] == st.chats[k])
            && (st.chats[GlobalChat()].kind == Group ==>
                  GlobalChat() in res.groupMembers && r.senderId in res.groupMembers[GlobalChat()])
  {
    var st1 := st.(notifications := st.notifications + {Key(r)});
    var st2 := UpdateGroupMembers(st1, GlobalChat(), r.senderId);
    var m := Parsed(r, freshId);
    assert IngestRecord(st, r, now, freshId) == AppendToChat(st2, GlobalChat(), r, m);
    assert Stored(st2, r, m) == Stored(st, r, m);
  }

  /** A record to the user from a known sender lands in the sender's chat;
      when that chat does not exist the message is lost. */
  lemma ContactRecordAppended(st: State, r: Record, now: int, freshId: Str)
    requires Key(r) !in st.notifications && Codec.DecodeReaction(r.content).None?
    requires !OwnRecent(st, r, now) && r.senderId !in st.blocked
    requires r.receiverId != GroupReceiver() && r.receiverId != GlobalChat()
    requires st.currentUser == Some(r.receiverId) && !Stranger(st, r.senderId)
    ensures var res := IngestRecord(st, r, now, freshId);
            && res.chats.Keys == st.chats.Keys
            && (forall k | k in st.chats && k != r.senderId :: res.chats[k] == st.chats[k])
            && (r.senderId in st.chats && !IsDuplicate(st.chats[r.senderId].messages, r) ==>
                  res.chats[r.senderId].messages == st.chats[r.senderId].messages + [Stored(st, r, Parsed(r, freshId))])
            && (r.senderId !in st.chats ==> res.chats == st.chats)
  {
    var st1 := st.(notifications := st.notifications + {Key(r)});
    var m := Parsed(r, freshId);
    assert IngestRecord(st, r, now, freshId) == AppendToChat(st1, r.senderId, r, m);
    assert Stored(st1, r, m) == Stored(st, r, m);
  }

  /** Outside the open chat, appending recounts the chat's unread messages:
      the recount over the old messages, plus one when the stored message
      itself is unread. */
  lemma AppendRecountsUnread(st: State, chatId: Str, r: Record, m: Message)
    requires chatId in st.chats && !IsDuplicate(st.chats[chatId].messages, r)
    requires st.currentChat != Some(chatId)
    ensures var c := st.chats[chatId];
            var w := Watermark(st.lastRead, c.id);
            AppendToChat(st, chatId, r, m).chats[chatId].unread
            == UnreadCount(c.messages, st.currentUser, w) + (if IsUnread(Stored(st, r, m), st.currentUser, w) then 1 else 0)
  {
    var c := st.chats[chatId];
    UnreadCountAppend(c.messages, Stored(st, r, m), st.currentUser, Watermark(st.lastRead, c.id));
  }

  lemma AppendToChatConsistent(st: State, chatId: Str, r: Record, m: Message)
    requires Consistent(st)
    ensures Consistent(AppendToChat(st, chatId, r, m))
  {
  }

  lemma AddToRequestConsistent(st: State, r: Record, m: Message)
    requires Consistent(st)
    ensures Consistent(AddToRequest(st, r, m))
  {
    var rid := RequestId(r.senderId);
    if rid !in st.chats {
      PutChatConsistent(st, rid, Chat(rid, r.senderId, Request, [m], Some(r.timestamp), 1, false, Some(r.senderId)));
    }
  }

  lemma RouteConsistent(st: State, r: Record, m: Message)
    requires Consistent(st)
    ensures Consistent(Route(st, r, m))
  {
    if r.receiverId == GroupReceiver() || r.receiverId == GlobalChat() {
      AppendToChatConsistent(UpdateGroupMembers(st, GlobalChat(), r.senderId), GlobalChat(), r, m);
    } else if st.currentUser == Some(r.receiverId) {
      if Stranger(st, r.senderId) {
        if CanUserMessage(st, r.senderId) {
          AddToRequestConsistent(st, r, m);
        }
      } else {
        AppendToChatConsistent(st, r.senderId, r, m);
      }
    } else if st.currentUser == Some(r.senderId) {
      AppendToChatConsistent(st, r.receiverId, r, m);
    }
  }

  lemma IncomingReactionConsistent(st: State, ev: Codec.ReactionEvent, timestamp: int)
    requires Consistent(st)
    ensures Consistent(IncomingReaction(st, ev, timestamp))
  {
  }

  /** Ingestion keeps the chat map and its key order in step. */
  lemma IngestRecordConsistent(st: State, r: Record, now: int, freshId: Str)
    requires Consistent(st)
    ensures Consistent(IngestRecord(st, r, now, freshId))
  {
    var key := Key(r);
    if key !in st.notifications {
      var st1 := st.(notifications := st.notifications + {key});
      match Codec.DecodeReaction(r.content)
      case Some(ev) => IncomingReactionConsistent(st1, ev, r.timestamp);
      case None => RouteConsistent(st1, r, Parsed(r, freshId));
    }
  }

  /** A whole batch keeps the state consistent. */
  lemma {:induction false} IngestAllConsistent(st: State, records: seq<Record>, now: int, freshIds: seq<Str>)
    requires Consistent(st) && |freshIds| == |records|
    ensures Consistent(IngestAll(st, records, now, freshIds).st)
    decreases |records|
  {
    if |records| > 0 {
      var n := |records| - 1;
      IngestAllConsistent(st, records[..n], now, freshIds[..n]);
      IngestRecordConsistent(IngestAll(st, records[..n], now, freshIds[..n]).st, records[n], now, freshIds[n]);
    }
  }

  /** Once a record's pass has thrown, later records of the batch are not
      looked at: the batch ends where it halted. */
  lemma {:induction false} HaltedBatchIgnoresRest(st: State, records: seq<Record>, more: seq<Record>, now: int,
                                                  freshIds: seq<Str>, moreIds: seq<Str>)
    requires |freshIds| == |records| && |moreIds| == |more|
    requires IngestAll(st, records, now, freshIds).halted
    ensures IngestAll(st, records + more, now, freshIds + moreIds) == IngestAll(st, records, now, freshIds)
    decreases |more|
  {
    if |more| == 0 {
      assert records + more == records && freshIds + moreIds == freshIds;
    } else {
      var n := |more| - 1;
      var all, ids := records + more, freshIds + moreIds;
      HaltedBatchIgnoresRest(st, records, more[..n], now, freshIds, moreIds[..n]);
      assert all[..|all| - 1] == records + more[..n];
      assert ids[..|all| - 1] == freshIds + moreIds[..n];
      HaltedStays(st, all, now, ids);
    }
  }

  /** A batch whose prefix without its last record halted is that prefix's
      batch. */
  lemma HaltedStays(st: State, records: seq<Record>, now: int, freshIds: seq<Str>)
    requires |freshIds| == |records| > 0
    requires IngestAll(st, records[..|records| - 1], now, freshIds[..|records| - 1]).halted
    ensures IngestAll(st, records, now, freshIds) == IngestAll(st, records[..|records| - 1], now, freshIds[..|records| - 1])
  {
  }

  /** One more record of a batch that has not halted. */
  lemma IngestAllStep(st: State, records: seq<Record>, i: nat, now: int, freshIds: seq<Str>)
    requires |freshIds| == |records| && i < |records|
    requires !IngestAll(st, records[..i], now, freshIds[..i]).halted
    ensures var b := IngestAll(st, records[..i], now, freshIds[..i]);
            IngestAll(st, records[..i + 1], now, freshIds[..i + 1])
            == Batch(IngestRecord(b.st, records[i], now, freshIds[i]), Throws(b.st, records[i], now))
  {
    assert records[..i + 1][..i] == records[..i] && freshIds[..i + 1][..i] == freshIds[..i];
  }

  /** A batch that halted after its first i records, or ran through all of
      them, is the batch of the whole sequence. */
  lemma IngestAllStopped(st: State, records: seq<Record>, i: nat, now: int, freshIds: seq<Str>)
    requires |freshIds| == |records| && i <= |records|
    requires i == |records| || IngestAll(st, records[..i], now, freshIds[..i]).halted
    ensures IngestAll(st, records, now, freshIds) == IngestAll(st, records[..i], now, freshIds[..i])
  {
    assert records[..i] + records[i..] == records && freshIds[..i] + freshIds[i..] == freshIds;
    if i == |records| {
      assert records[..i] == records && freshIds[..i] == freshIds;
    } else {
      HaltedBatchIgnoresRest(st, records[..i], records[i..], now, freshIds[..i], freshIds[i..]);
    }
  }

  /** A new message from a known user to the signed-in user, for a chat
      that is not open, is appended and then notified; the notification
      throws, so the rest of the batch is dropped unseen. */
  lemma ContactMessageHaltsBatch(st: State, r: Record, rest: seq<Record>, now: int, freshId: Str, restIds: seq<Str>)
    requires |restIds| == |rest|
    requires st.currentUser == Some(r.receiverId) && r.receiverId != GroupReceiver() && r.receiverId != GlobalChat()
    requires r.senderId in st.users && r.senderId in st.chats && r.senderId !in st.blocked
    requires |r.senderId| > 0 && r.senderId != r.receiverId && st.currentChat != Some(r.senderId)
    requires Key(r) !in st.notifications && !Contains(r.content, Codec.ReactionTag())
    requires !IsDuplicate(st.chats[r.senderId].messages, r)
    ensures IngestAll(st, [r] + rest, now, [freshId] + restIds) == Batch(IngestRecord(st, r, now, freshId), true)
  {
    Codec.ReactionNeedsTag(r.content);
    assert Throws(st, r, now);
    assert [r][..0] == [] && [freshId][..0] == [];
    assert IngestAll(st, [r], now, [freshId]) == Batch(IngestRecord(st, r, now, freshId), true);
    HaltedBatchIgnoresRest(st, [r], rest, now, [freshId], restIds);
  }

  /** A plain polled message is stored without `text`; once one sits in a
      chat, every later reaction record is only marked as seen, since
      debugReaction throws before the reaction is applied. */
  lemma PlainMessageBlocksReactions(st: State, chatId: Str, r0: Record, f0: Str, r: Record, now: int, freshId: Str)
    requires chatId in st.chats && !IsDuplicate(st.chats[chatId].messages, r0)
    requires Codec.DecodeReply(r0.content).None? && !Contains(r0.content, Codec.ForwardTag())
    requires Key(r) !in st.notifications && Codec.DecodeReaction(r.content).Some?
    ensures var st1 := AppendToChat(st, chatId, r0, Parsed(r0, f0));
            && IngestRecord(st1, r, now, freshId) == st1.(notifications := st1.notifications + {Key(r)})
            && Throws(st1, r, now)
  {
    var st1 := AppendToChat(st, chatId, r0, Parsed(r0, f0));
    var msgs := st1.chats[chatId].messages;
    assert msgs[|msgs| - 1] == Stored(st, r0, Parsed(r0, f0));
    assert SomeTextMissing(st1.chats);
  }

  // ----- Sending -----

  /** The message handed to the backend. */
  datatype Outbound = Outbound(sender: Str, receiver: Str, text: Str, timestamp: Str, localId: Str, sharedId: Str)

  datatype SendOutcome =
    | NothingToSend      // empty text, no user or no open chat
    | PendingRequest     // the open chat is a message request
    | MissingChat        // the open chat id has no chat object
    | Sent(out: Outbound)

  /** The receiver written on outgoing messages. */
  function ReceiverFor(chatId: Str): Str {
    if chatId == GlobalChat() then GroupReceiver() else chatId
  }

  /** sendMessage without reply mode: the trimmed text is sent; it is also
      pushed locally unless a message with the same sender and text less
      than a second old is already there. `now` and `nowIso` are the clock
      in milliseconds and as an ISO string. */
  function SendMessage(st: State, input: Str, now: int, nowIso: Str, freshId: Str): (res: (State, SendOutcome))
    ensures res.0 == st.(chats := res.0.chats)
    ensures !res.1.Sent? ==> res.0 == st
    ensures res.1.Sent? ==> && |Trim(input)| > 0 && res.1.out.text == Trim(input)
                            && st.currentChat.Some? && st.currentChat.value in st.chats
    ensures |Trim(input)| == 0 ==> res.1 == NothingToSend
  {
    var text := Trim(input);
    if |text| == 0 || st.currentUser.None? || st.currentChat.None? then (st, NothingToSend)
    else
      var cid := st.currentChat.value;
      if cid in st.chats && st.chats[cid].kind == Request then (st, PendingRequest)
      else if cid !in st.chats then (st, MissingChat)
      else
        var me := st.currentUser.value;
        var receiver := ReceiverFor(cid);
        var sid := ContentHash.SharedMessageId(nowIso, me, receiver, text);
        Deliver(st, cid, LocalCopy(me, cid, text, now, freshId, sid), Outbound(me, receiver, text, nowIso, freshId, sid))
  }

  /** The message pushed locally for a send. */
  function LocalCopy(me: Str, chatId: Str, text: Str, now: int, localId: Str, sharedId: Str): (m: Message)
    ensures m.sender == Some(me) && m.receiver == Some(chatId) && m.text == Some(text) && m.timestamp == now
    ensures m.localId == Some(localId) && m.sharedId == Some(sharedId) && m.reactions == map[]
  {
    Message(None, None, None, Some(me), Some(chatId), Some(text), now,
            Some(localId), Some(sharedId), map[], false, false, None, false, None)
  }

  /** The send itself, once the open chat is known to exist: `local` is
      pushed unless the chat already holds a message with its sender and
      text less than a second apart; `out` is sent either way. */
  function Deliver(st: State, chatId: Str, local: Message, out: Outbound): (res: (State, SendOutcome))
    requires chatId in st.chats && local.sender.Some? && local.text.Some?
    ensures res.1 == Sent(out) && res.0 == st.(chats := res.0.chats)
    ensures res.0.chats.Keys == st.chats.Keys
    ensures forall k | k in st.chats && k != chatId :: res.0.chats[k] == st.chats[k]
    ensures res.0.chats[chatId].messages in {st.chats[chatId].messages, st.chats[chatId].messages + [local]}
  {
    var c := st.chats[chatId];
    if IsDuplicate(c.messages, Record(local.sender.value, out.receiver, local.text.value, local.timestamp, None, None))
    then (st, Sent(out))
    else (SetChat(st, chatId, c.(messages := c.messages + [local], lastActivity := Some(local.timestamp))), Sent(out))
  }

  /** After a send, the chat holds a message that a record with the local
      copy's sender, text and time duplicates. */
  lemma DeliverLeavesDuplicate(st: State, chatId: Str, local: Message, out: Outbound, echo: Record)
    requires chatId in st.chats && local.sender.Some? && local.text.Some?
    requires local.sender == Some(echo.senderId) && local.text == Some(echo.content) && echo.timestamp == local.timestamp
    ensures var st1 := Deliver(st, chatId, local, out).0;
            && st1 == st.(chats := st1.chats)
            && st1.chats.Keys == st.chats.Keys
            && IsDuplicate(st1.chats[chatId].messages, echo)
  {
    var c := st.chats[chatId];
    var probe := Record(local.sender.value, out.receiver, local.text.value, local.timestamp, None, None);
    if IsDuplicate(c.messages, probe) {
      var i :| 0 <= i < |c.messages| && c.messages[i].sender == Some(probe.senderId)
               && c.messages[i].text == Some(probe.content) && -1000 < c.messages[i].timestamp - probe.timestamp < 1000;
      assert c.messages[i].sender == Some(echo.senderId) && c.messages[i].text == Some(echo.content);
    } else {
      var msgs := c.messages + [local];
      assert msgs[|c.messages|] == local;
    }
  }

  /** A duplicate is not appended. */
  lemma DuplicateNotAppended(st: State, chatId: Str, r: Record, m: Message)
    requires chatId in st.chats && IsDuplicate(st.chats[chatId].messages, r)
    ensures AppendToChat(st, chatId, r, m) == st
  {
  }

  /** A record from the user to the open chat that duplicates one of its
      messages changes no chat. */
  lemma OwnDuplicateIgnored(st: State, echo: Record, later: int, echoFresh: Str)
    requires st.currentChat.Some? && st.currentChat.value in st.chats
    requires IsDuplicate(st.chats[st.currentChat.value].messages, echo)
    requires st.currentUser == Some(echo.senderId) && echo.receiverId == ReceiverFor(st.currentChat.value)
    requires st.currentChat != st.currentUser && st.currentChat != Some(GroupReceiver())
    requires Codec.DecodeReaction(echo.content).None?
    ensures IngestRecord(st, echo, later, echoFresh).chats == st.chats
  {
    var cid := st.currentChat.value;
    if Key(echo) !in st.notifications {
      var st2 := st.(notifications := st.notifications + {Key(echo)});
      if !OwnRecent(st2, echo, later) && echo.senderId !in st2.blocked {
        var m := Parsed(echo, echoFresh);
        if cid == GlobalChat() {
          DuplicateNotAppended(UpdateGroupMembers(st2, GlobalChat(), echo.senderId), GlobalChat(), echo, m);
        } else {
          DuplicateNotAppended(st2, cid, echo, m);
        }
      }
    }
  }

  /** A message the user sends comes back from the next poll as a record
      with the same sender, receiver, text and time: no chat changes (the
      group's echo still records the sender as a member). */
  lemma SentMessageNotDuplicated(st: State, input: Str, now: int, nowIso: Str, freshId: Str,
                                 echo: Record, later: int, echoFresh: Str)
    requires SendMessage(st, input, now, nowIso, freshId).1.Sent?
    requires var out := SendMessage(st, input, now, nowIso, freshId).1.out;
             echo.senderId == out.sender && echo.receiverId == out.receiver && echo.content == out.text
    requires echo.timestamp == now
    requires Codec.DecodeReaction(echo.content).None?
    requires st.currentChat != st.currentUser && st.currentChat != Some(GroupReceiver())
    ensures var st1 := SendMessage(st, input, now, nowIso, freshId).0;
            IngestRecord(st1, echo, later, echoFresh).chats == st1.chats
  {
    var cid := st.currentChat.value;
    var me := st.currentUser.value;
    var text := Trim(input);
    var sid := ContentHash.SharedMessageId(nowIso, me, ReceiverFor(cid), text);
    var local := LocalCopy(me, cid, text, now, freshId, sid);
    var out := Outbound(me, ReceiverFor(cid), text, nowIso, freshId, sid);
    SendIsDeliver(st, input, now, nowIso, freshId);
    var st1 := Deliver(st, cid, local, out).0;
    DeliverLeavesDuplicate(st, cid, local, out, echo);
    assert st1.currentChat == st.currentChat && st1.currentUser == st.currentUser;
    assert echo.receiverId == ReceiverFor(cid);
    OwnDuplicateIgnored(st1, echo, later, echoFresh);
  }

  /** A send that goes through is the delivery of its local copy and its
      outbound message. */
  lemma SendIsDeliver(st: State, input: Str, now: int, nowIso: Str, freshId: Str)
    requires SendMessage(st, input, now, nowIso, freshId).1.Sent?
    ensures var cid, me, text := st.currentChat.value, st.currentUser.value, Trim(input);
            var sid := ContentHash.SharedMessageId(nowIso, me, ReceiverFor(cid), text);
            && cid in st.chats
            && SendMessage(st, input, now, nowIso, freshId)
               == Deliver(st, cid, LocalCopy(me, cid, text, now, freshId, sid), Outbound(me, ReceiverFor(cid), text, nowIso, freshId, sid))
  {
    var text := Trim(input);
    assert |text| > 0 && st.currentUser.Some? && st.currentChat.Some?;
    var cid := st.currentChat.value;
    assert cid in st.chats && st.chats[cid].kind != Request;
  }

  // ----- Local reactions -----

  /** addReaction on the open chat: toggle the user's emoji on the message
      with that localId, save the map, and produce the control message sent
      to the backend (targeted by sharedId when there is one). */
  function AddReaction(st: State, messageId: Str, emoji: Str, user: Str): (res: (State, Option<Str>))
    ensures res.0 == st.(chats := res.0.chats, savedReactions := res.0.savedReactions)
    ensures res.1.None? ==> res.0 == st
    ensures res.1.Some? <==> && st.currentChat.Some? && st.currentChat.value in st.chats
                             && FindByLocalId(st.chats[st.currentChat.value].messages, Some(messageId)).Some?
    ensures res.1.Some? ==> var cid := st.currentChat.value;
                            && res.0.chats.Keys == st.chats.Keys
                            && forall k | k in st.chats && k != cid :: res.0.chats[k] == st.chats[k]
  {
    if st.currentChat.None? || st.currentChat.value !in st.chats then (st, None)
    else
      var cid := st.currentChat.value;
      var c := st.chats[cid];
      match FindByLocalId(c.messages, Some(messageId))
      case None => (st, None)
      case Some(i) =>
        var m := c.messages[i];
        var (rs, action) := Toggle(m.reactions, emoji, user);
        var targetId := if m.sharedId.Some? && |m.sharedId.value| > 0 then m.sharedId.value else messageId;
        var control := Codec.EncodeReaction(Codec.ReactionEvent(targetId, emoji, user, action));
        (SetChat(st, cid, c.(messages := WriteBack(c.messages, i, m.(reactions := rs))))
           .(savedReactions := st.savedReactions[Some(messageId) := rs]),
         Some(control))
  }

  /** addReaction changes the open chat's one message with that localId, and
      only its reactions, which become the toggled map; every other message
      and chat is kept, and the toggled map is saved under the localId. */
  lemma AddReactionEffect(st: State, messageId: Str, emoji: Str, user: Str)
    requires AddReaction(st, messageId, emoji, user).1.Some?
    ensures var res := AddReaction(st, messageId, emoji, user).0;
            var cid := st.currentChat.value;
            var c := st.chats[cid];
            var i := FindByLocalId(c.messages, Some(messageId)).value;
            var m := c.messages[i];
            var rs := Toggle(m.reactions, emoji, user).0;
            && res.chats[cid] == c.(messages := res.chats[cid].messages)
            && |res.chats[cid].messages| == |c.messages|
            && res.chats[cid].messages[i] == m.(reactions := rs)
            && (forall j | 0 <= j < |c.messages| && j != i :: res.chats[cid].messages[j] == c.messages[j])
            && res.savedReactions == st.savedReactions[Some(messageId) := rs]
  {
    var cid := st.currentChat.value;
    var c := st.chats[cid];
    var i := FindByLocalId(c.messages, Some(messageId)).value;
    var m := c.messages[i];
    var rs := Toggle(m.reactions, emoji, user).0;
    var res := AddReaction(st, messageId, emoji, user).0;
    assert res == SetChat(st, cid, c.(messages := WriteBack(c.messages, i, m.(reactions := rs))))
                    .(savedReactions := st.savedReactions[Some(messageId) := rs]);
  }

  /** Two addReaction calls with the same message, emoji and user, from a
      user who had not reacted with that emoji, give back the original
      chats; the saved map is then the original reactions. */
  lemma AddReactionTwiceRestores(st: State, messageId: Str, emoji: Str, user: Str)
    requires AddReaction(st, messageId, emoji, user).1.Some?
    requires var c := st.chats[st.currentChat.value];
             var rs := c.messages[FindByLocalId(c.messages, Some(messageId)).value].reactions;
             WellFormed(rs) && user !in Entry(rs, emoji).users && (emoji !in rs || rs[emoji].count > 0)
    ensures var once := AddReaction(st, messageId, emoji, user).0;
            var twice := AddReaction(once, messageId, emoji, user);
            var c := st.chats[st.currentChat.value];
            && twice.1.Some?
            && twice.0.chats == st.chats
            && twice.0.savedReactions
               == st.savedReactions[Some(messageId) := c.messages[FindByLocalId(c.messages, Some(messageId)).value].reactions]
  {
    AddReactionUnfold(st, messageId, emoji, user);
    ReactAgainRestores(st, st.currentChat.value, FindByLocalId(st.chats[st.currentChat.value].messages, Some(messageId)).value,
                       messageId, emoji, user);
  }

  /** The second call, applied to the state the first one produced. */
  lemma ReactAgainRestores(st: State, cid: Str, i: nat, messageId: Str, emoji: Str, user: Str)
    requires st.currentChat == Some(cid) && cid in st.chats
    requires FindByLocalId(st.chats[cid].messages, Some(messageId)) == Some(i)
    requires var rs := st.chats[cid].messages[i].reactions;
             WellFormed(rs) && user !in Entry(rs, emoji).users && (emoji !in rs || rs[emoji].count > 0)
    ensures var c := st.chats[cid];
            var m := c.messages[i];
            var rs := Toggle(m.reactions, emoji, user).0;
            var once := st.(chats := st.chats[cid := c.(messages := c.messages[i := m.(reactions := rs)])],
                            savedReactions := st.savedReactions[Some(messageId) := rs]);
            var twice := AddReaction(once, messageId, emoji, user);
            && twice.1.Some?
            && twice.0.chats == st.chats
            && twice.0.savedReactions == st.savedReactions[Some(messageId) := m.reactions]
  {
    var c := st.chats[cid];
    var m := c.messages[i];
    var rs := Toggle(m.reactions, emoji, user).0;
    var msgs1 := c.messages[i := m.(reactions := rs)];
    var once := st.(chats := st.chats[cid := c.(messages := msgs1)],
                    savedReactions := st.savedReactions[Some(messageId) := rs]);
    assert FindByLocalId(msgs1, Some(messageId)) == Some(i) by {
      SameFirstLocalId(c.messages, i, m.(reactions := rs), Some(messageId));
    }
    assert Toggle(rs, emoji, user).0 == m.reactions by {
      ToggleTwiceFromAbsent(m.reactions, emoji, user);
    }
    assert once.chats[cid := once.chats[cid].(messages := msgs1[i := msgs1[i].(reactions := m.reactions)])] == st.chats by {
      ChatsRestored(st.chats, cid, i, rs, once.chats);
    }
    AddReactionUnfold(once, messageId, emoji, user);
    Overwritten(st.savedReactions, Some(messageId), rs, m.reactions);
  }

  /** A second write to the same key hides the first. */
  lemma Overwritten<K, V>(s: map<K, V>, k: K, a: V, b: V)
    ensures s[k := a][k := b] == s[k := b]
  {
  }

  /** Toggling one message's reactions to rs and then back to its own map
      gives back the original chats. */
  lemma ChatsRestored(chats: map<Str, Chat>, cid: Str, i: nat, rs: map<Str, Reaction>, once: map<Str, Chat>)
    requires cid in chats && i < |chats[cid].messages|
    requires var c := chats[cid];
             once == chats[cid := c.(messages := c.messages[i := c.messages[i].(reactions := rs)])]
    ensures var c := chats[cid];
            var m1 := once[cid].messages[i];
            once[cid := once[cid].(messages := once[cid].messages[i := m1.(reactions := c.messages[i].reactions)])] == chats
  {
    var c := chats[cid];
    RestoreAt(c.messages, i, rs);
    assert chats[cid := c] == chats;
  }

  /** Writing a message's own reactions back over a reaction-only change
      gives back the original list. */
  lemma RestoreAt(msgs: seq<Message>, i: nat, rs: map<Str, Reaction>)
    requires i < |msgs|
    ensures var m := msgs[i];
            msgs[i := m.(reactions := rs)][i := m.(reactions := rs).(reactions := m.reactions)] == msgs
  {
  }

  /** The state and control message addReaction produces, spelled out. */
  lemma AddReactionUnfold(st: State, messageId: Str, emoji: Str, user: Str)
    requires AddReaction(st, messageId, emoji, user).1.Some?
    ensures var cid := st.currentChat.value;
            var c := st.chats[cid];
            var i := FindByLocalId(c.messages, Some(messageId)).value;
            var m := c.messages[i];
            var rs := Toggle(m.reactions, emoji, user).0;
            AddReaction(st, messageId, emoji, user).0
            == st.(chats := st.chats[cid := c.(messages := c.messages[i := m.(reactions := rs)])],
                   savedReactions := st.savedReactions[Some(messageId) := rs])
  {
  }

  /** Replacing the first message with a given localId by one with the same
      localId keeps it the first. */
  lemma SameFirstLocalId(msgs: seq<Message>, i: nat, m': Message, id: Option<Str>)
    requires FindByLocalId(msgs, id) == Some(i) && m'.localId == id
    ensures FindByLocalId(msgs[i := m'], id) == Some(i)
  {
    assert msgs[i := m'][i].localId == id;
  }

  /** The control message addReaction sends decodes, on the receiving side,
      to an event whose application to the same reaction map gives exactly
      the map the sender now holds. */
  lemma AddReactionSendsItsChange(st: State, messageId: Str, emoji: Str, user: Str)
    requires AddReaction(st, messageId, emoji, user).1.Some?
    requires |messageId| > 0 && Colon !in messageId
    requires |emoji| > 0 && Colon !in emoji && |user| > 0 && Colon !in user
    requires var c := st.chats[st.currentChat.value];
             var i := FindByLocalId(c.messages, Some(messageId)).value;
             c.messages[i].sharedId.None? || Colon !in c.messages[i].sharedId.value
    ensures var (r, control) := AddReaction(st, messageId, emoji, user);
            var cid := st.currentChat.value;
            var i := FindByLocalId(st.chats[cid].messages, Some(messageId)).value;
            var before := st.chats[cid].messages[i].reactions;
            && Codec.DecodeReaction(control.value).Some?
            && var ev := Codec.DecodeReaction(control.value).value;
               && ev.emoji == emoji && ev.user == user
               && Incoming(before, ev.emoji, ev.user, ev.action) == r.chats[cid].messages[i].reactions
  {
    var cid := st.currentChat.value;
    var c := st.chats[cid];
    var i := FindByLocalId(c.messages, Some(messageId)).value;
    var m := c.messages[i];
    var (rs, action) := Toggle(m.reactions, emoji, user);
    var targetId := if m.sharedId.Some? && |m.sharedId.value| > 0 then m.sharedId.value else messageId;
    var st' := SetChat(st, cid, c.(messages := WriteBack(c.messages, i, m.(reactions := rs))))
                 .(savedReactions := st.savedReactions[Some(messageId) := rs]);
    assert AddReaction(st, messageId, emoji, user)
           == (st', Some(Codec.EncodeReaction(Codec.ReactionEvent(targetId, emoji, user, action))));
    assert st'.chats[cid].messages[i].reactions == rs;
    ControlReplaysToggle(m.reactions, targetId, emoji, user);
  }

  /** The control message for a toggle decodes to its own event, and
      applying that event reproduces the toggle. */
  lemma ControlReplaysToggle(rs: map<Str, Reaction>, targetId: Str, emoji: Str, user: Str)
    requires |targetId| > 0 && Colon !in targetId
    requires |emoji| > 0 && Colon !in emoji && |user| > 0 && Colon !in user
    ensures var (rs', action) := Toggle(rs, emoji, user);
            var ev := Codec.ReactionEvent(targetId, emoji, user, action);
            Codec.DecodeReaction(Codec.EncodeReaction(ev)) == Some(ev) && Incoming(rs, emoji, user, action) == rs'
  {
    var (rs', action) := Toggle(rs, emoji, user);
    ToggleAgreesWithIncoming(rs, emoji, user);
    assert action == AddAction() || action == RemoveAction();
    assert CloseBracket !in action;
    Codec.ReactionRoundTrip(Codec.ReactionEvent(targetId, emoji, user, action));
  }
}
