/** The records the chat client keeps: polled backend records, the message
    objects stored in a chat, chats, reactions and the privacy setting.
    A message stored in a chat may be a raw backend record (sender_id,
    receiver_id, content) or a locally built one (sender, receiver, text),
    so both sets of fields are optional. Timestamps are milliseconds. */
module ChatModel {
  import opened Utf16

  /** One emoji's entry in a message's reaction map. */
  datatype Reaction = Reaction(count: int, users: seq<Str>)

  type Reactions = map<Str, Reaction>

  /** The replyTo object: what the reply quotes. */
  datatype ReplyRef = ReplyRef(identifier: Str, sender: Str, text: Str, timestamp: int, messageId: Option<Str>)

  datatype Message = Message(
    senderId: Option<Str>, receiverId: Option<Str>, content: Option<Str>,
    sender: Option<Str>, receiver: Option<Str>, text: Option<Str>,
    timestamp: int,
    localId: Option<Str>, sharedId: Option<Str>,
    reactions: Reactions,
    isReactionMessage: bool,
    isReply: bool, replyTo: Option<ReplyRef>,
    isForwarded: bool, originalSender: Option<Str>)

  /** A record as the backend returns it from a poll. */
  datatype Record = Record(
    senderId: Str, receiverId: Str, content: Str, timestamp: int,
    messageId: Option<Str>, sharedId: Option<Str>)

  datatype ChatKind = Individual | Group | Request

  datatype Chat = Chat(
    id: Str, name: Str, kind: ChatKind, messages: seq<Message>,
    lastActivity: Option<int>, unread: int, isTemporary: bool,
    requestSender: Option<Str>)

  /** privacySettings.whoCanMessage; any other stored value is Unrecognised. */
  datatype Policy = Everyone | ContactsOnly | Nobody | Unrecognised

  /** `a === b` where an absent value (undefined or null) equals nothing. */
  predicate SameUser(a: Option<Str>, b: Option<Str>) {
    a.Some? && a == b
  }

  /** A backend record as it is pushed into a chat's message list. */
  function FromRecord(r: Record): (m: Message)
    ensures m.senderId == Some(r.senderId) && m.content == Some(r.content) && m.timestamp == r.timestamp
    ensures m.sender.None? && m.text.None? && m.localId.None? && m.sharedId.None? && m.reactions == map[]
  {
    Message(Some(r.senderId), Some(r.receiverId), Some(r.content), None, None, None,
            r.timestamp, None, None, map[], false, false, None, false, None)
  }

  /** `message_id || shared_id`: an empty or missing message_id falls back
      to shared_id, and a missing shared_id is the key `undefined` (None). */
  function Key(r: Record): (k: Option<Str>)
    ensures r.messageId.Some? && |r.messageId.value| > 0 ==> k == r.messageId
    ensures (r.messageId.None? || r.messageId == Some([])) ==> k == r.sharedId
  {
    if r.messageId.Some? && |r.messageId.value| > 0 then r.messageId else r.sharedId
  }

  /** The chat object built for a new contact, user or group: no messages,
      no activity, nothing unread. */
  function EmptyChat(id: Str, kind: ChatKind, isTemporary: bool): Chat {
    Chat(id, id, kind, [], None, 0, isTemporary, None)
  }

  /** "Global Chat" */
  function GlobalChat(): Str { Ascii("Global Chat") }
  /** "GROUP" */
  function GroupReceiver(): Str { Ascii("GROUP") }
  /** "request_" */
  function RequestPrefix(): Str { Ascii("request_") }
  /** "add" */
  function AddAction(): Str { Ascii("add") }
  /** "remove" */
  function RemoveAction(): Str { Ascii("remove") }

  /** The key of the pending-request chat of a sender. */
  function RequestId(sender: Str): Str { RequestPrefix() + sender }
}
