/** The search helpers: finding the message a reply quotes, deciding whether
    a reply can be jumped to, and the de-duplicated list of people, groups
    and chats offered by the user search. */
module Search {
  import opened Utf16
  import opened ChatModel
  import opened ChatState
  import opened Lifecycle
  import Ingest

  // ----- findMessageByContent -----

  /** The three passes of findMessageByContent, most specific first. */
  datatype Tier = Exact | Partial | AnyFromSender

  /** A message matches a pass: same `sender` and same text; same `sender`
      and a non-empty text containing the search text; or same `sender`. */
  predicate Matches(m: Message, tier: Tier, sender: Str, text: Str) {
    match tier
    case Exact => m.sender == Some(sender) && m.text == Some(text)
    case Partial => m.sender == Some(sender) && m.text.Some? && |m.text.value| > 0 && Contains(m.text.value, Take(text, 20))
    case AnyFromSender => m.sender == Some(sender)
  }

  /** The first message matching a pass. */
  function FirstMatch(msgs: seq<Message>, tier: Tier, sender: Str, text: Str): (r: Option<nat>)
    ensures r.Some? ==> r.value < |msgs| && Matches(msgs[r.value], tier, sender, text)
    ensures r.Some? ==> forall j | 0 <= j < r.value :: !Matches(msgs[j], tier, sender, text)
    ensures r.None? <==> forall j | 0 <= j < |msgs| :: !Matches(msgs[j], tier, sender, text)
  {
    if |msgs| == 0 then None
    else if Matches(msgs[0], tier, sender, text) then Some(0)
    else
      match FirstMatch(msgs[1..], tier, sender, text)
      case None =>
        assert forall j | 1 <= j < |msgs| :: msgs[j] == msgs[1..][j - 1];
        None
      case Some(i) =>
        assert forall j | 1 <= j <= i :: msgs[j] == msgs[1..][j - 1];
        Some(i + 1)
  }

  /** findMessageByContent: the index of the message returned, None for
      null (also when there is no chat). */
  function FindMessageByContent(chat: Option<Chat>, sender: Str, text: Str): (r: Option<nat>)
    ensures r.Some? ==> chat.Some? && r.value < |chat.value.messages|
                        && chat.value.messages[r.value].sender == Some(sender)
  {
    if chat.None? then None
    else
      var msgs := chat.value.messages;
      var exact := FirstMatch(msgs, Exact, sender, text);
      if exact.Some? then exact
      else
        var partial := FirstMatch(msgs, Partial, sender, text);
        if partial.Some? then partial
        else FirstMatch(msgs, AnyFromSender, sender, text)
  }

  /** Nothing is found exactly when the chat holds no message whose
      `sender` is the quoted sender. */
  lemma FindNothingIff(chat: Chat, sender: Str, text: Str)
    ensures FindMessageByContent(Some(chat), sender, text).None?
            <==> forall j | 0 <= j < |chat.messages| :: chat.messages[j].sender != Some(sender)
  {
    var msgs := chat.messages;
    if FindMessageByContent(Some(chat), sender, text).None? {
      forall j | 0 <= j < |msgs| ensures msgs[j].sender != Some(sender) {
        assert !Matches(msgs[j], AnyFromSender, sender, text);
      }
    } else {
      var i := FindMessageByContent(Some(chat), sender, text).value;
      assert msgs[i].sender == Some(sender);
    }
  }

  /** The passes are tried in order: an exact match wins, then a partial
      match, then any message from the sender. */
  lemma FindTiers(chat: Chat, sender: Str, text: Str)
    ensures var msgs := chat.messages;
            var r := FindMessageByContent(Some(chat), sender, text);
            && (FirstMatch(msgs, Exact, sender, text).Some? ==> r == FirstMatch(msgs, Exact, sender, text))
            && (FirstMatch(msgs, Exact, sender, text).None? && FirstMatch(msgs, Partial, sender, text).Some?
                ==> r == FirstMatch(msgs, Partial, sender, text))
            && (FirstMatch(msgs, Exact, sender, text).None? && FirstMatch(msgs, Partial, sender, text).None?
                ==> r == FirstMatch(msgs, AnyFromSender, sender, text))
  {
  }

  /** The prefix of a string occurs in it at position 0. */
  lemma TakeContained(s: Str, n: nat)
    ensures Contains(s, Take(s, n))
  {
    assert OccursAt(s, Take(s, n), 0);
  }

  /** An exact match with non-empty text also passes the partial test, so
      the second pass only adds messages. */
  lemma ExactIsPartial(m: Message, sender: Str, text: Str)
    requires Matches(m, Exact, sender, text) && |text| > 0
    ensures Matches(m, Partial, sender, text)
  {
    TakeContained(text, 20);
  }

  /** A quoted text longer than 20 units is found through its first 20
      units even when the message's text differs after them. */
  lemma PartialFindsEdited(m: Message, sender: Str, text: Str, tail: Str)
    requires |text| >= 20 && m.sender == Some(sender) && m.text == Some(text[..20] + tail)
    ensures Matches(m, Partial, sender, text)
  {
    assert OccursAt(m.text.value, Take(text, 20), 0);
  }

  // ----- canJumpToReply -----

  /** canJumpToReply: the quoted message must be in the chat, found by the
      replyTo's messageId; in a group the quote must also be of the user or
      of the replier. */
  function CanJumpToReply(reply: Message, chat: Option<Chat>, currentUser: Option<Str>): (ok: bool)
    ensures ok ==> reply.replyTo.Some? && chat.Some?
    ensures ok ==> var id := reply.replyTo.value.messageId;
                   id.Some? && |id.value| > 0
                   && exists j | 0 <= j < |chat.value.messages| :: chat.value.messages[j].localId == id
  {
    if reply.replyTo.None? || chat.None? then false
    else
      var rt := reply.replyTo.value;
      var sameChat := rt.messageId.Some? && |rt.messageId.value| > 0
                      && exists j | 0 <= j < |chat.value.messages| :: chat.value.messages[j].localId == rt.messageId;
      if chat.value.kind == Group then
        sameChat && (Some(rt.sender) == currentUser || reply.sender == Some(rt.sender))
      else sameChat
  }

  /** Only the quoted id decides which messages matter: appending messages
      with another localId never changes whether the reply can jump. */
  lemma JumpIgnoresOtherMessages(reply: Message, chat: Chat, more: seq<Message>, currentUser: Option<Str>)
    requires reply.replyTo.Some?
    requires forall k | 0 <= k < |more| :: more[k].localId != reply.replyTo.value.messageId
    ensures CanJumpToReply(reply, Some(chat.(messages := chat.messages + more)), currentUser)
            == CanJumpToReply(reply, Some(chat), currentUser)
  {
    var id := reply.replyTo.value.messageId;
    var msgs := chat.messages + more;
    if exists j | 0 <= j < |msgs| :: msgs[j].localId == id {
      var j :| 0 <= j < |msgs| && msgs[j].localId == id;
      assert chat.messages[j].localId == id;
    }
    if exists j | 0 <= j < |chat.messages| :: chat.messages[j].localId == id {
      var j :| 0 <= j < |chat.messages| && chat.messages[j].localId == id;
      assert msgs[j] == chat.messages[j];
    }
  }

  /** A reply as ingestion builds it carries no messageId in its replyTo, so
      it can never be jumped to. */
  lemma ReceivedReplyCannotJump(r: Record, freshId: Str, chat: Option<Chat>, currentUser: Option<Str>)
    ensures !CanJumpToReply(Ingest.Parsed(r, freshId), chat, currentUser)
  {
  }

  // ----- getAllSearchableUsers -----

  datatype EntryKind = ContactEntry | NonContactEntry | GroupEntry

  /** One search entry; its display name is its id. */
  datatype Entry = Entry(id: Str, kind: EntryKind, isInContacts: bool, isGroup: bool)

  function Ids(xs: seq<Entry>): (r: seq<Str>)
    ensures |r| == |xs| && forall i | 0 <= i < |xs| :: r[i] == xs[i].id
  {
    seq(|xs|, i requires 0 <= i < |xs| => xs[i].id)
  }

  lemma IdsAppend(xs: seq<Entry>, e: Entry)
    ensures Ids(xs + [e]) == Ids(xs) + [e.id]
  {
  }

  /** Step 1: every user in the list except the current user, as a contact. */
  function ContactEntries(users: seq<Str>, currentUser: Option<Str>): seq<Entry>
    decreases |users|
  {
    if |users| == 0 then []
    else
      var n := |users| - 1;
      ContactEntries(users[..n], currentUser)
        + (if Some(users[n]) != currentUser then [Entry(users[n], ContactEntry, true, false)] else [])
  }

  /** Step 2: every predefined user that is neither the current user nor in
      the user list, as a non-contact. */
  function NonContactEntries(predefined: seq<Str>, users: seq<Str>, currentUser: Option<Str>): seq<Entry>
    decreases |predefined|
  {
    if |predefined| == 0 then []
    else
      var n := |predefined| - 1;
      var u := predefined[n];
      NonContactEntries(predefined[..n], users, currentUser)
        + (if Some(u) != currentUser && u !in users then [Entry(u, NonContactEntry, false, false)] else [])
  }

  /** Step 3: every group. */
  function GroupEntries(groups: seq<Str>): seq<Entry>
    decreases |groups|
  {
    if |groups| == 0 then []
    else
      var n := |groups| - 1;
      GroupEntries(groups[..n]) + [Entry(groups[n], GroupEntry, true, true)]
  }

  /** A chat id offered by step 4. */
  predicate ChatListable(chatId: Str, currentUser: Option<Str>) {
    Some(chatId) != currentUser && !StartsWith(chatId, RequestPrefix())
  }

  /** The step-4 entry of a chat id: a group when the chat is one. */
  function ChatEntry(chatId: Str, chats: map<Str, Chat>): Entry {
    var isGroup := chatId in chats && chats[chatId].kind == Group;
    Entry(chatId, if isGroup then GroupEntry else NonContactEntry, false, isGroup)
  }

  /** Step 4: the list so far, followed by every chat key, in key order,
      that is not listed yet, not the current user and not a request. */
  function WithChatEntries(listed: seq<Entry>, keys: seq<Str>, chats: map<Str, Chat>, currentUser: Option<Str>): seq<Entry>
    decreases |keys|
  {
    if |keys| == 0 then listed
    else
      var n := |keys| - 1;
      var acc := WithChatEntries(listed, keys[..n], chats, currentUser);
      var k := keys[n];
      acc + (if k !in Ids(acc) && ChatListable(k, currentUser) then [ChatEntry(k, chats)] else [])
  }

  /** The list getAllSearchableUsers builds before removing duplicates. */
  function Candidates(st: State): seq<Entry> {
    WithChatEntries(ContactEntries(st.users, st.currentUser)
                      + NonContactEntries(PredefinedUsers(), st.users, st.currentUser)
                      + GroupEntries(st.groups),
                    st.order, st.chats, st.currentUser)
  }

  /** The first entry of each id, in order. */
  function UniqueById(xs: seq<Entry>): seq<Entry>
    decreases |xs|
  {
    if |xs| == 0 then []
    else
      var n := |xs| - 1;
      var acc := UniqueById(xs[..n]);
      if xs[n].id in Ids(acc) then acc else acc + [xs[n]]
  }

  lemma {:induction false} UniqueByIdDistinct(xs: seq<Entry>)
    ensures Distinct(Ids(UniqueById(xs)))
    decreases |xs|
  {
    if |xs| > 0 {
      var n := |xs| - 1;
      UniqueByIdDistinct(xs[..n]);
      var acc := UniqueById(xs[..n]);
      if xs[n].id !in Ids(acc) {
        IdsAppend(acc, xs[n]);
      }
    }
  }

  lemma {:induction false} UniqueByIdSameIds(xs: seq<Entry>)
    ensures forall id :: id in Ids(UniqueById(xs)) <==> id in Ids(xs)
    decreases |xs|
  {
    if |xs| > 0 {
      var n := |xs| - 1;
      UniqueByIdSameIds(xs[..n]);
      var acc := UniqueById(xs[..n]);
      assert Ids(xs) == Ids(xs[..n]) + [xs[n].id];
      if xs[n].id !in Ids(acc) {
        IdsAppend(acc, xs[n]);
      }
    }
  }

  lemma {:induction false} UniqueByIdSubset(xs: seq<Entry>)
    ensures forall e | e in UniqueById(xs) :: e in xs
    decreases |xs|
  {
    if |xs| > 0 {
      var n := |xs| - 1;
      UniqueByIdSubset(xs[..n]);
      assert forall e | e in xs[..n] :: e in xs;
    }
  }

  /** De-duplicating a longer list extends the de-duplicated prefix with
      entries whose ids the prefix does not have. */
  lemma {:induction false} UniqueByIdPrefix(a: seq<Entry>, b: seq<Entry>)
    ensures exists rest :: UniqueById(a + b) == UniqueById(a) + rest && forall e | e in rest :: e.id !in Ids(a)
    decreases |b|
  {
    if |b| == 0 {
      assert a + b == a;
      assert UniqueById(a + b) == UniqueById(a) + [];
    } else {
      var n := |b| - 1;
      assert (a + b)[..|a + b| - 1] == a + b[..n];
      UniqueByIdPrefix(a, b[..n]);
      var rest :| UniqueById(a + b[..n]) == UniqueById(a) + rest && forall e | e in rest :: e.id !in Ids(a);
      var x := b[n];
      assert (a + b)[|a + b| - 1] == x;
      if x.id in Ids(UniqueById(a + b[..n])) {
        assert UniqueById(a + b) == UniqueById(a) + rest;
      } else {
        UniqueByIdSameIds(a + b[..n]);
        IdNotInPrefix(a, b[..n], x.id);
        assert UniqueById(a + b) == UniqueById(a) + rest + [x];
        assert UniqueById(a) + rest + [x] == UniqueById(a) + (rest + [x]);
      }
    }
  }

  lemma IdNotInPrefix(a: seq<Entry>, b: seq<Entry>, id: Str)
    requires id !in Ids(a + b)
    ensures id !in Ids(a)
  {
    forall i | 0 <= i < |a| ensures Ids(a)[i] != id {
      assert Ids(a + b)[i] == a[i].id;
    }
  }

  lemma {:induction false} ContactIds(users: seq<Str>, currentUser: Option<Str>)
    ensures forall id :: id in Ids(ContactEntries(users, currentUser)) <==> id in users && Some(id) != currentUser
    ensures forall e | e in ContactEntries(users, currentUser) :: e.kind == ContactEntry && e.isInContacts && !e.isGroup
    decreases |users|
  {
    if |users| > 0 {
      var n := |users| - 1;
      ContactIds(users[..n], currentUser);
      assert users == users[..n] + [users[n]];
      var acc := ContactEntries(users[..n], currentUser);
      var e := Entry(users[n], ContactEntry, true, false);
      var add: seq<Entry> := if Some(users[n]) != currentUser then [e] else [];
      assert ContactEntries(users, currentUser) == acc + add;
      assert Ids(acc + add) == Ids(acc) + Ids(add);
      assert Ids(add) == if Some(users[n]) != currentUser then [users[n]] else [];
      forall id ensures id in Ids(acc + add) <==> id in users && Some(id) != currentUser {
        assert id in users <==> id in users[..n] || id == users[n];
        assert id in Ids(acc + add) <==> id in Ids(acc) || id in Ids(add);
      }
    }
  }

  lemma {:induction false} NonContactIds(predefined: seq<Str>, users: seq<Str>, currentUser: Option<Str>)
    ensures forall id :: id in Ids(NonContactEntries(predefined, users, currentUser))
                         <==> id in predefined && Some(id) != currentUser && id !in users
    decreases |predefined|
  {
    if |predefined| > 0 {
      var n := |predefined| - 1;
      NonContactIds(predefined[..n], users, currentUser);
      assert predefined == predefined[..n] + [predefined[n]];
      var acc := NonContactEntries(predefined[..n], users, currentUser);
      var u := predefined[n];
      var add: seq<Entry> := if Some(u) != currentUser && u !in users then [Entry(u, NonContactEntry, false, false)] else [];
      assert NonContactEntries(predefined, users, currentUser) == acc + add;
      assert Ids(acc + add) == Ids(acc) + Ids(add);
      assert Ids(add) == if Some(u) != currentUser && u !in users then [u] else [];
      forall id ensures id in Ids(acc + add) <==> id in predefined && Some(id) != currentUser && id !in users {
        assert id in predefined <==> id in predefined[..n] || id == u;
        assert id in Ids(acc + add) <==> id in Ids(acc) || id in Ids(add);
      }
    }
  }

  lemma {:induction false} GroupIds(groups: seq<Str>)
    ensures Ids(GroupEntries(groups)) == groups
    decreases |groups|
  {
    if |groups| > 0 {
      var n := |groups| - 1;
      GroupIds(groups[..n]);
      IdsAppend(GroupEntries(groups[..n]), Entry(groups[n], GroupEntry, true, true));
      assert groups == groups[..n] + [groups[n]];
    }
  }

  lemma {:induction false} ChatIds(listed: seq<Entry>, keys: seq<Str>, chats: map<Str, Chat>, currentUser: Option<Str>)
    ensures forall id :: id in Ids(WithChatEntries(listed, keys, chats, currentUser))
                         <==> id in Ids(listed) || (id in keys && ChatListable(id, currentUser))
    decreases |keys|
  {
    if |keys| > 0 {
      var n := |keys| - 1;
      ChatIds(listed, keys[..n], chats, currentUser);
      assert keys == keys[..n] + [keys[n]];
      var acc := WithChatEntries(listed, keys[..n], chats, currentUser);
      var k := keys[n];
      if k !in Ids(acc) && ChatListable(k, currentUser) {
        IdsAppend(acc, ChatEntry(k, chats));
      } else {
        assert acc + [] == acc;
      }
    }
  }

  /** The chat entries only go after the listed ones. */
  lemma {:induction false} ChatEntriesAfter(listed: seq<Entry>, keys: seq<Str>, chats: map<Str, Chat>, currentUser: Option<Str>)
    ensures exists tail :: WithChatEntries(listed, keys, chats, currentUser) == listed + tail
    decreases |keys|
  {
    if |keys| == 0 {
      assert WithChatEntries(listed, keys, chats, currentUser) == listed + [];
    } else {
      var n := |keys| - 1;
      ChatEntriesAfter(listed, keys[..n], chats, currentUser);
      var acc := WithChatEntries(listed, keys[..n], chats, currentUser);
      var tail :| acc == listed + tail;
      var k := keys[n];
      if k !in Ids(acc) && ChatListable(k, currentUser) {
        assert acc + [ChatEntry(k, chats)] == listed + (tail + [ChatEntry(k, chats)]);
      } else {
        assert acc + [] == listed + tail;
      }
    }
  }

  /** Who the search offers: the users other than the current user, the
      predefined users not in the user list (except the current user), every
      group, and every chat that is not the current user's or a request. */
  lemma SearchableIds(st: State)
    ensures forall id :: (id in Ids(UniqueById(Candidates(st)))
              <==> (|| (id in st.users && Some(id) != st.currentUser)
                    || (id in PredefinedUsers() && Some(id) != st.currentUser && id !in st.users)
                    || id in st.groups
                    || (id in st.order && ChatListable(id, st.currentUser))))
  {
    var c := ContactEntries(st.users, st.currentUser);
    var nc := NonContactEntries(PredefinedUsers(), st.users, st.currentUser);
    var g := GroupEntries(st.groups);
    ContactIds(st.users, st.currentUser);
    NonContactIds(PredefinedUsers(), st.users, st.currentUser);
    GroupIds(st.groups);
    assert Ids(c + nc + g) == Ids(c) + Ids(nc) + Ids(g);
    ChatIds(c + nc + g, st.order, st.chats, st.currentUser);
    UniqueByIdSameIds(Candidates(st));
  }

  /** Each id is offered once. */
  lemma SearchableDistinct(st: State)
    ensures Distinct(Ids(UniqueById(Candidates(st))))
  {
    UniqueByIdDistinct(Candidates(st));
  }

  /** A user in the user list (other than the current user) is offered as a
      contact, even when it is also a group or a chat. */
  lemma UsersOfferedAsContacts(st: State)
    ensures forall e | e in UniqueById(Candidates(st)) && e.id in st.users && Some(e.id) != st.currentUser ::
              e.kind == ContactEntry && e.isInContacts && !e.isGroup
  {
    var c := ContactEntries(st.users, st.currentUser);
    var nc := NonContactEntries(PredefinedUsers(), st.users, st.currentUser);
    var g := GroupEntries(st.groups);
    ContactIds(st.users, st.currentUser);
    ChatEntriesAfter(c + nc + g, st.order, st.chats, st.currentUser);
    var tail :| Candidates(st) == (c + nc + g) + tail;
    assert Candidates(st) == c + (nc + g + tail);
    FirstListWins(c, nc + g + tail);
  }

  /** De-duplication keeps, for an id of the first list, an entry of that
      list. */
  lemma FirstListWins(c: seq<Entry>, others: seq<Entry>)
    ensures forall e | e in UniqueById(c + others) && e.id in Ids(c) :: e in c
  {
    UniqueByIdPrefix(c, others);
    var rest :| UniqueById(c + others) == UniqueById(c) + rest && forall e | e in rest :: e.id !in Ids(c);
    UniqueByIdSubset(c);
    forall e | e in UniqueById(c + others) && e.id in Ids(c) ensures e in c {
      assert e !in rest;
    }
  }

  /** Step 1 of getAllSearchableUsers. */
  method CollectContacts(users: seq<Str>, currentUser: Option<Str>) returns (entries: seq<Entry>)
    ensures entries == ContactEntries(users, currentUser)
  {
    entries := [];
    var i := 0;
    while i < |users|
      invariant 0 <= i <= |users|
      invariant entries == ContactEntries(users[..i], currentUser)
    {
      assert users[..i + 1][..i] == users[..i];
      if Some(users[i]) != currentUser {
        entries := entries + [Entry(users[i], ContactEntry, true, false)];
      }
      i := i + 1;
    }
    assert users[..i] == users;
  }

  /** Step 2 of getAllSearchableUsers. */
  method CollectNonContacts(predefined: seq<Str>, users: seq<Str>, currentUser: Option<Str>) returns (entries: seq<Entry>)
    ensures entries == NonContactEntries(predefined, users, currentUser)
  {
    entries := [];
    var i := 0;
    while i < |predefined|
      invariant 0 <= i <= |predefined|
      invariant entries == NonContactEntries(predefined[..i], users, currentUser)
    {
      assert predefined[..i + 1][..i] == predefined[..i];
      var u := predefined[i];
      if Some(u) != currentUser && u !in users {
        entries := entries + [Entry(u, NonContactEntry, false, false)];
      }
      i := i + 1;
    }
    assert predefined[..i] == predefined;
  }

  /** Step 3 of getAllSearchableUsers. */
  method CollectGroups(groups: seq<Str>) returns (entries: seq<Entry>)
    ensures entries == GroupEntries(groups)
  {
    entries := [];
    var i := 0;
    while i < |groups|
      invariant 0 <= i <= |groups|
      invariant entries == GroupEntries(groups[..i])
    {
      assert groups[..i + 1][..i] == groups[..i];
      entries := entries + [Entry(groups[i], GroupEntry, true, true)];
      i := i + 1;
    }
    assert groups[..i] == groups;
  }

  /** Step 4 of getAllSearchableUsers: the chat keys, in key order. */
  method CollectChats(listed: seq<Entry>, keys: seq<Str>, chats: map<Str, Chat>, currentUser: Option<Str>)
    returns (entries: seq<Entry>)
    ensures entries == WithChatEntries(listed, keys, chats, currentUser)
  {
    entries := listed;
    var i := 0;
    while i < |keys|
      invariant 0 <= i <= |keys|
      invariant entries == WithChatEntries(listed, keys[..i], chats, currentUser)
    {
      assert keys[..i + 1][..i] == keys[..i];
      var k := keys[i];
      if k !in Ids(entries) && ChatListable(k, currentUser) {
        entries := entries + [ChatEntry(k, chats)];
      }
      i := i + 1;
    }
    assert keys[..i] == keys;
  }

  /** The de-duplication pass, with a set of the ids already kept. */
  method Dedup(entries: seq<Entry>) returns (r: seq<Entry>)
    ensures r == UniqueById(entries)
  {
    r := [];
    var seen: set<Str> := {};
    var i := 0;
    while i < |entries|
      invariant 0 <= i <= |entries|
      invariant r == UniqueById(entries[..i])
      invariant forall id :: id in seen <==> id in Ids(r)
    {
      assert entries[..i + 1][..i] == entries[..i];
      var e := entries[i];
      if e.id !in seen {
        seen := seen + {e.id};
        IdsAppend(r, e);
        r := r + [e];
      }
      i := i + 1;
    }
    assert entries[..i] == entries;
  }

  /** getAllSearchableUsers without its final sort. */
  method SearchableUsers(st: State) returns (r: seq<Entry>)
    ensures r == UniqueById(Candidates(st))
  {
    var contacts := CollectContacts(st.users, st.currentUser);
    var others := CollectNonContacts(PredefinedUsers(), st.users, st.currentUser);
    var groups := CollectGroups(st.groups);
    var all := CollectChats(contacts + others + groups, st.order, st.chats, st.currentUser);
    r := Dedup(all);
  }
}
