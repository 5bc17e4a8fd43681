/** Who may message the user, the blocklist, pending message requests,
    contacts, temporary chats, the initial chat map, group membership and
    read marks: every state change outside message ingestion. */
module Lifecycle {
  import opened Utf16
  import opened ChatModel
  import opened ReadState
  import opened ChatState

  /** The users the client starts with. */
  function PredefinedUsers(): seq<Str> {
    [Ascii("Rev"), Ascii("Ska"), Ascii("kinaa"), Ascii("Eyram"), Ascii("Yayra"), Ascii("Stephen"), Ascii("Diana")]
  }

  /** The groups the client starts with. */
  function PredefinedGroups(): seq<Str> {
    [GlobalChat(), Ascii("Team Project"), Ascii("Friends")]
  }

  /** The initial state object: nobody logged in, no chats, everyone may
      message, an empty member set per predefined group. */
  function Initial(): (st: State)
    ensures Consistent(st) && st.currentUser.None? && st.chats == map[]
  {
    State(None, None, map[], [], PredefinedUsers(), PredefinedGroups(), [], [], [], Everyone,
          {}, map[GlobalChat() := {}, Ascii("Team Project") := {}, Ascii("Friends") := {}],
          map[], map[])
  }

  /** A sender the user has neither among users nor among contacts. */
  predicate Stranger(st: State, sender: Str) {
    sender !in st.users && sender !in st.contacts
  }

  /** canUserMessage: the blocklist first, then the privacy setting. */
  function CanUserMessage(st: State, sender: Str): (ok: bool)
    ensures sender in st.blocked ==> !ok
    ensures st.whoCanMessage == Nobody ==> !ok
    ensures st.whoCanMessage == ContactsOnly && Stranger(st, sender) ==> !ok
    ensures sender !in st.blocked && st.whoCanMessage in {Everyone, Unrecognised} ==> ok
    ensures sender !in st.blocked && st.whoCanMessage == ContactsOnly && !Stranger(st, sender) ==> ok
  {
    if sender in st.blocked then false
    else
      match st.whoCanMessage
      case Everyone => true
      case ContactsOnly => sender in st.users || sender in st.contacts
      case Nobody => false
      case Unrecognised => true
  }

  // ----- Blocklist -----

  /** blockUser: only when not yet blocked, push to the blocklist, drop the
      user's pending requests and delete the chat keyed by the user. */
  function BlockUser(st: State, user: Str): State {
    if user in st.blocked then st
    else
      var st1 := st.(blocked := st.blocked + [user], requests := RemoveAll(st.requests, user));
      if user in st1.chats then DeleteChat(st1, user) else st1
  }

  /** unblockUser: remove every occurrence from the blocklist. */
  function UnblockUser(st: State, user: Str): (r: State)
    ensures r == st.(blocked := r.blocked)
    ensures user !in r.blocked
    ensures forall other | other != user :: other in r.blocked <==> other in st.blocked
  {
    st.(blocked := RemoveAll(st.blocked, user))
  }

  /** After blockUser the user is on the blocklist exactly once and no
      other chat is touched; blocking a user not yet blocked also removes
      their chat and pending requests (an already blocked user is left as
      is, even if a chat for them was created since). */
  lemma BlockUserEffect(st: State, user: Str)
    requires Distinct(st.blocked)
    ensures var r := BlockUser(st, user);
            && Distinct(r.blocked) && Occurrences(r.blocked, user) == 1
            && (user !in st.blocked ==> user !in r.chats && user !in r.requests)
            && (user in st.blocked ==> r == st)
            && (forall k | k != user :: k in r.chats <==> k in st.chats)
            && (forall k | k != user && k in st.chats :: r.chats[k] == st.chats[k])
            && (forall b | b in st.blocked :: b in r.blocked)
  {
    var r := BlockUser(st, user);
    if user !in st.blocked {
      DistinctAppend(st.blocked, user);
    }
    OccurrencesOfDistinct(r.blocked, user);
  }

  /** Blocking twice is blocking once. */
  lemma BlockUserIdempotent(st: State, user: Str)
    ensures BlockUser(BlockUser(st, user), user) == BlockUser(st, user)
  {
  }

  /** Unblocking a user just blocked gives back the old blocklist. */
  lemma {:induction false} UnblockUndoesBlock(st: State, user: Str)
    requires user !in st.blocked
    ensures UnblockUser(BlockUser(st, user), user).blocked == st.blocked
  {
    RemoveAllPushed(st.blocked, user);
  }

  /** Blocking keeps the chat map and its key order in step. */
  lemma BlockUserConsistent(st: State, user: Str)
    requires Consistent(st)
    ensures Consistent(BlockUser(st, user))
  {
    if user !in st.blocked {
      var st1 := st.(blocked := st.blocked + [user], requests := RemoveAll(st.requests, user));
      DeleteChatConsistent(st1, user);
    }
  }

  // ----- Chat view -----

  /** The temporary-chat part of closeChatView: a temporary chat with no
      messages is deleted when the view closes; the view is closed. */
  function CloseChatView(st: State): (r: State)
    ensures r.currentChat.None?
  {
    var st1 :=
      if st.currentChat.Some? && st.currentChat.value in st.chats
         && st.chats[st.currentChat.value].isTemporary
         && |st.chats[st.currentChat.value].messages| == 0
      then DeleteChat(st, st.currentChat.value)
      else st;
    st1.(currentChat := None)
  }

  /** Closing the view deletes at most the open chat, and only an empty
      temporary one. */
  lemma CloseChatViewEffect(st: State)
    ensures var r := CloseChatView(st);
            && (forall k | k in st.chats && !(Some(k) == st.currentChat && st.chats[k].isTemporary && |st.chats[k].messages| == 0) ::
                  k in r.chats && r.chats[k] == st.chats[k])
            && (forall k | k in r.chats :: k in st.chats)
            && ((st.currentChat.Some? && st.currentChat.value in st.chats
                 && st.chats[st.currentChat.value].isTemporary
                 && |st.chats[st.currentChat.value].messages| == 0)
                ==> st.currentChat.value !in r.chats)
  {
  }

  lemma CloseChatViewConsistent(st: State)
    requires Consistent(st)
    ensures Consistent(CloseChatView(st))
  {
    if st.currentChat.Some? {
      DeleteChatConsistent(st, st.currentChat.value);
    }
  }

  // ----- Read marks -----

  /** A chat's unread count recomputed against its stored watermark. */
  function Recount(c: Chat, currentUser: Option<Str>, lastRead: map<Str, int>): (r: Chat)
    ensures r == c.(unread := r.unread)
    ensures r.unread == UnreadCount(c.messages, currentUser, Watermark(lastRead, c.id))
  {
    c.(unread := UnreadCount(c.messages, currentUser, Watermark(lastRead, c.id)))
  }

  /** updateAllUnreadCounts. */
  function UpdateAllUnreadCounts(st: State): (r: State)
    ensures r == st.(chats := r.chats)
    ensures r.chats.Keys == st.chats.Keys
    ensures forall k | k in st.chats :: r.chats[k] == Recount(st.chats[k], st.currentUser, st.lastRead)
  {
    st.(chats := map k | k in st.chats :: Recount(st.chats[k], st.currentUser, st.lastRead))
  }

  /** The loop of updateAllUnreadCounts: the chats are visited in any
      order, and each gets its count recomputed. */
  method RecountAll(chats: map<Str, Chat>, currentUser: Option<Str>, lastRead: map<Str, int>)
    returns (counted: map<Str, Chat>)
    ensures counted.Keys == chats.Keys
    ensures forall k | k in chats :: counted[k] == Recount(chats[k], currentUser, lastRead)
  {
    counted := chats;
    var todo := chats.Keys;
    while todo != {}
      invariant todo <= counted.Keys && counted.Keys == chats.Keys
      invariant forall k | k in counted && k !in todo :: counted[k] == Recount(chats[k], currentUser, lastRead)
      invariant forall k | k in todo :: counted[k] == chats[k]
      decreases |todo|
    {
      var k :| k in todo;
      var c := counted[k];
      var n := CountUnread(c.messages, currentUser, Watermark(lastRead, c.id));
      counted := counted[k := c.(unread := n)];
      todo := todo - {k};
    }
  }

  /** markChatAsRead: the watermark becomes now, the chat's count 0, and
      then every count is recomputed. */
  function MarkChatAsRead(st: State, chatId: Str, now: int): State {
    var st1 := st.(lastRead := SetWatermark(st.lastRead, chatId, now));
    var st2 := if chatId in st1.chats then SetChat(st1, chatId, st1.chats[chatId].(unread := 0)) else st1;
    UpdateAllUnreadCounts(st2)
  }

  /** After markChatAsRead, a chat with nothing timestamped after now has no
      unread messages, and every other chat's count is the recomputed one. */
  lemma MarkChatAsReadClears(st: State, chatId: Str, now: int)
    requires Consistent(st) && chatId in st.chats
    requires forall i | 0 <= i < |st.chats[chatId].messages| :: st.chats[chatId].messages[i].timestamp <= now
    ensures var r := MarkChatAsRead(st, chatId, now);
            && chatId in r.chats && r.chats[chatId].unread == 0
            && Watermark(r.lastRead, chatId) == now
            && r.chats.Keys == st.chats.Keys
            && (forall k | k in st.chats :: r.chats[k].messages == st.chats[k].messages)
  {
    var c := st.chats[chatId];
    NothingUnreadAfterMark(c.messages, st.currentUser, now);
  }

  /** handleNewChat: the watermark is seeded one second before the first
      message (or set to now when there is none), then the count follows. */
  function HandleNewChat(st: State, chatId: Str, initial: Option<Message>, now: int): (r: State)
    ensures chatId in st.chats ==> r.chats.Keys == st.chats.Keys
  {
    if chatId !in st.chats then st
    else
      var w := if initial.Some? then initial.value.timestamp - 1000 else now;
      var lr := SetWatermark(st.lastRead, chatId, w);
      SetChat(st.(lastRead := lr), chatId, Recount(st.chats[chatId], st.currentUser, lr))
  }

  // ----- Message requests -----

  /** acceptRequest: the request chat becomes an individual chat keyed by
      the sender, with the same messages; a sender known neither as user nor
      contact becomes both. */
  function AcceptRequest(st: State, sender: Str, now: int): State {
    var rid := RequestId(sender);
    if rid !in st.chats then st
    else
      var rc := st.chats[rid];
      var st3 := AcceptedChat(st, sender);
      var st4 := HandleNewChat(st3, sender, if |rc.messages| > 0 then Some(rc.messages[0]) else None, now);
      if st4.currentChat == Some(rid) then CloseChatView(st4) else st4
  }

  lemma RequestIdDiffers(sender: Str)
    ensures RequestId(sender) != sender
  {
    assert |RequestId(sender)| == |sender| + 8;
  }

  /** acceptRequest deletes the request chat and moves its messages to the
      sender's chat; the sender is then a user or a contact (both, when they
      were neither); no other chat changes. */
  lemma AcceptRequestEffect(st: State, sender: Str, now: int)
    requires RequestId(sender) in st.chats
    ensures var r := AcceptRequest(st, sender, now);
            var rid := RequestId(sender);
            && rid !in r.chats && sender in r.chats
            && r.chats[sender].messages == st.chats[rid].messages
            && r.chats[sender].kind == Individual
            && (sender in r.users || sender in r.contacts)
            && (Stranger(st, sender) ==> sender in r.users && sender in r.contacts)
            && (forall k | k != sender && k != rid :: k in r.chats <==> k in st.chats)
            && (forall k | k != sender && k != rid && k in st.chats :: r.chats[k] == st.chats[k])
            && r.currentChat != Some(rid)
  {
    var rid := RequestId(sender);
    var rc := st.chats[rid];
    AcceptedChatEffect(st, sender);
    var st3 := AcceptedChat(st, sender);
    var initial := if |rc.messages| > 0 then Some(rc.messages[0]) else None;
    HandleNewChatFrame(st3, sender, initial, now);
    var st4 := HandleNewChat(st3, sender, initial, now);
    if st4.currentChat == Some(rid) {
      assert CloseChatView(st4) == st4.(currentChat := None);
    }
  }

  /** The delete, list and store steps of acceptRequest, before the new
      chat's unread count is taken. */
  lemma AcceptedChatEffect(st: State, sender: Str)
    requires RequestId(sender) in st.chats
    ensures var s := AcceptedChat(st, sender);
            var rid := RequestId(sender);
            && rid !in s.chats && sender in s.chats
            && s.chats[sender].messages == st.chats[rid].messages
            && s.chats[sender].kind == Individual
            && (sender in s.users || sender in s.contacts)
            && (Stranger(st, sender) ==> sender in s.users && sender in s.contacts)
            && (forall k | k != sender && k != rid :: k in s.chats <==> k in st.chats)
            && (forall k | k != sender && k != rid && k in st.chats :: s.chats[k] == st.chats[k])
            && s.currentChat == st.currentChat
  {
    RequestIdDiffers(sender);
  }

  /** handleNewChat on an existing key only restamps that chat and the
      watermarks. */
  lemma HandleNewChatFrame(st: State, chatId: Str, initial: Option<Message>, now: int)
    requires chatId in st.chats
    ensures var r := HandleNewChat(st, chatId, initial, now);
            && r == st.(chats := st.chats[chatId := r.chats[chatId]], lastRead := r.lastRead)
            && r.chats[chatId].messages == st.chats[chatId].messages
            && r.chats[chatId].kind == st.chats[chatId].kind
  {
  }

  /** The accepted chat's unread count is taken against a watermark one
      second before its first message. */
  lemma AcceptRequestUnread(st: State, sender: Str, now: int)
    requires RequestId(sender) in st.chats && |st.chats[RequestId(sender)].messages| > 0
    ensures var r := AcceptRequest(st, sender, now);
            var msgs := st.chats[RequestId(sender)].messages;
            && Watermark(r.lastRead, sender) == msgs[0].timestamp - 1000
            && r.chats[sender].unread == UnreadCount(msgs, st.currentUser, msgs[0].timestamp - 1000)
  {
    RequestIdDiffers(sender);
  }

  lemma HandleNewChatConsistent(st: State, chatId: Str, initial: Option<Message>, now: int)
    requires Consistent(st)
    ensures Consistent(HandleNewChat(st, chatId, initial, now))
  {
  }

  /** The accept steps up to the new chat: delete, lists, store. */
  function AcceptedChat(st: State, sender: Str): State
    requires RequestId(sender) in st.chats
  {
    var rid := RequestId(sender);
    var rc := st.chats[rid];
    var st1 := DeleteChat(st, rid);
    var st2 := if Stranger(st1, sender)
               then st1.(contacts := st1.contacts + [sender], users := st1.users + [sender])
               else st1;
    PutChat(st2, sender, Chat(sender, sender, Individual, rc.messages, rc.lastActivity,
                              UnreadCount(rc.messages, st.currentUser, Watermark(st.lastRead, rc.id)), false, None))
  }

  lemma AcceptedChatConsistent(st: State, sender: Str)
    requires Consistent(st) && RequestId(sender) in st.chats
    ensures Consistent(AcceptedChat(st, sender))
  {
    var rid := RequestId(sender);
    var rc := st.chats[rid];
    var st1 := DeleteChat(st, rid);
    DeleteChatConsistent(st, rid);
    var st2 := if Stranger(st1, sender)
               then st1.(contacts := st1.contacts + [sender], users := st1.users + [sender])
               else st1;
    assert Consistent(st2);
    PutChatConsistent(st2, sender, Chat(sender, sender, Individual, rc.messages, rc.lastActivity,
                                        UnreadCount(rc.messages, st.currentUser, Watermark(st.lastRead, rc.id)), false, None));
  }

  lemma AcceptRequestConsistent(st: State, sender: Str, now: int)
    requires Consistent(st)
    ensures Consistent(AcceptRequest(st, sender, now))
  {
    var rid := RequestId(sender);
    if rid in st.chats {
      var rc := st.chats[rid];
      var st3 := AcceptedChat(st, sender);
      AcceptedChatConsistent(st, sender);
      var initial := if |rc.messages| > 0 then Some(rc.messages[0]) else None;
      HandleNewChatConsistent(st3, sender, initial, now);
      CloseChatViewConsistent(HandleNewChat(st3, sender, initial, now));
    }
  }

  /** Delete the request chat and close the view if it was open. */
  function DropRequestChat(st: State, rid: Str): State {
    if rid !in st.chats then st
    else
      var st1 := DeleteChat(st, rid);
      if st1.currentChat == Some(rid) then CloseChatView(st1) else st1
  }

  /** Dropping a request chat deletes that key only, and closes the view
      when it was the one open. */
  lemma DropRequestChatEffect(st: State, rid: Str)
    ensures var r := DropRequestChat(st, rid);
            && r == st.(chats := r.chats, order := r.order, currentChat := r.currentChat)
            && r.chats == st.chats - {rid}
            && r.currentChat == (if rid in st.chats && st.currentChat == Some(rid) then None else st.currentChat)
  {
    if rid in st.chats {
      var st1 := DeleteChat(st, rid);
      if st1.currentChat == Some(rid) {
        assert rid !in st1.chats;
        assert CloseChatView(st1) == st1.(currentChat := None);
      }
    }
  }

  /** declineRequest. */
  function DeclineRequest(st: State, sender: Str): State {
    DropRequestChat(st, RequestId(sender))
  }

  /** declineRequest deletes the request chat and nothing else. */
  lemma DeclineRequestEffect(st: State, sender: Str)
    ensures var r := DeclineRequest(st, sender);
            && r.chats == st.chats - {RequestId(sender)}
            && r.users == st.users && r.contacts == st.contacts && r.blocked == st.blocked
  {
    DropRequestChatEffect(st, RequestId(sender));
  }

  /** blockUserRequest: block the sender, then drop the request chat. */
  function BlockUserRequest(st: State, sender: Str): State {
    DropRequestChat(BlockUser(st, sender), RequestId(sender))
  }

  /** After blockUserRequest the sender is blocked and has no request chat;
      a sender not blocked before has no chat either. */
  lemma BlockUserRequestEffect(st: State, sender: Str)
    ensures var r := BlockUserRequest(st, sender);
            && sender in r.blocked && RequestId(sender) !in r.chats
            && (sender !in st.blocked ==> sender !in r.chats)
            && (forall k | k != sender && k != RequestId(sender) && k in st.chats :: k in r.chats && r.chats[k] == st.chats[k])
  {
    var b := BlockUser(st, sender);
    assert sender in b.blocked;
    assert sender !in st.blocked ==> sender !in b.chats;
    assert forall k | k != sender && k in st.chats :: k in b.chats && b.chats[k] == st.chats[k];
    DropRequestChatEffect(b, RequestId(sender));
  }

  // ----- Contacts and temporary chats -----

  datatype ContactOutcome = EmptyName | IsSelf | AlreadyExists | Added

  /** Push unless already present. */
  function PushNew(xs: seq<Str>, x: Str): (r: seq<Str>)
    ensures x in r
    ensures x in xs ==> r == xs
    ensures x !in xs ==> r == xs + [x]
  {
    if x in xs then xs else xs + [x]
  }

  /** addNewContact on the (untrimmed) text of the input field. */
  function AddNewContact(st: State, input: Str): (State, ContactOutcome) {
    var name := Trim(input);
    if |name| == 0 then (st, EmptyName)
    else if st.currentUser == Some(name) then (st, IsSelf)
    else if name in st.users then (st, AlreadyExists)
    else
      var st1 := st.(users := st.users + [name], contacts := PushNew(st.contacts, name));
      (PutChat(st1, name, EmptyChat(name, Individual, false)), Added)
  }

  /** A name is added exactly when it is non-empty after trimming, not the
      user's own and not yet a user; then it is a user and a contact with an
      empty individual chat. Otherwise nothing changes. */
  lemma AddNewContactEffect(st: State, input: Str)
    ensures var (r, outcome) := AddNewContact(st, input);
            var name := Trim(input);
            && (outcome == Added <==> |name| > 0 && st.currentUser != Some(name) && name !in st.users)
            && (outcome == EmptyName <==> |name| == 0)
            && (outcome != Added ==> r == st)
            && (outcome == Added ==> name in r.users && name in r.contacts && name in r.chats
                                     && r.chats[name] == EmptyChat(name, Individual, false)
                                     && r.users == st.users + [name])
  {
  }

  /** addUserToContacts: both lists, a fresh empty chat (replacing any chat
      already kept under the name), then the view closes. */
  function AddUserToContacts(st: State, user: Str): State {
    var st1 := st.(users := PushNew(st.users, user), contacts := PushNew(st.contacts, user));
    CloseChatView(PutChat(st1, user, EmptyChat(user, Individual, false)))
  }

  /** addUserToContacts leaves the user in both lists with an empty chat:
      messages already kept under that name are discarded. */
  lemma AddUserToContactsEffect(st: State, user: Str)
    ensures var r := AddUserToContacts(st, user);
            && user in r.users && user in r.contacts
            && user in r.chats && r.chats[user] == EmptyChat(user, Individual, false)
  {
  }

  /** addSearchUserToContacts: both lists; a chat only when none exists. */
  function AddSearchUserToContacts(st: State, user: Str): State {
    var st1 := st.(users := PushNew(st.users, user), contacts := PushNew(st.contacts, user));
    if user in st1.chats then st1 else PutChat(st1, user, EmptyChat(user, Individual, false))
  }

  /** Unlike addUserToContacts, an existing chat and its messages are kept. */
  lemma AddSearchUserKeepsChat(st: State, user: Str)
    requires user in st.chats
    ensures var r := AddSearchUserToContacts(st, user);
            && r.chats == st.chats && user in r.users && user in r.contacts
  {
  }

  /** chatWithoutAdding: a temporary empty chat, then the view closes. */
  function ChatWithoutAdding(st: State, user: Str): State {
    CloseChatView(PutChat(st, user, EmptyChat(user, Individual, true)))
  }

  /** The temporary chat survives unless its own view was the one open, in
      which case closing the view deletes it at once; the contact lists are
      untouched. */
  lemma ChatWithoutAddingEffect(st: State, user: Str)
    ensures var r := ChatWithoutAdding(st, user);
            && r.users == st.users && r.contacts == st.contacts
            && (st.currentChat != Some(user) ==> user in r.chats && r.chats[user] == EmptyChat(user, Individual, true))
            && (st.currentChat == Some(user) ==> user !in r.chats)
  {
  }

  // ----- Initial chat map -----

  /** One step of the users loop: an individual chat for every user but the
      current one. */
  function AddUserChat(st: State, user: Str, me: Str): State {
    if user != me then PutChat(st, user, EmptyChat(user, Individual, false)) else st
  }

  /** One step of the groups loop. */
  function AddGroupChat(st: State, group: Str): State {
    PutChat(st, group, EmptyChat(group, Group, false))
  }

  function AddUserChats(st: State, users: seq<Str>, me: Str): State
    decreases |users|
  {
    if |users| == 0 then st
    else AddUserChat(AddUserChats(st, users[..|users| - 1], me), users[|users| - 1], me)
  }

  function AddGroupChats(st: State, groups: seq<Str>): State
    decreases |groups|
  {
    if |groups| == 0 then st
    else AddGroupChat(AddGroupChats(st, groups[..|groups| - 1]), groups[|groups| - 1])
  }

  /** initializeChats: nothing without a user; otherwise the chat map is
      cleared and rebuilt from the users and then the groups. */
  function InitializeChats(st: State): State {
    if st.currentUser.None? then st
    else
      var st0 := st.(chats := map[], order := []);
      AddGroupChats(AddUserChats(st0, st.users, st.currentUser.value), st.groups)
  }

  /** Every chat built by initializeChats is empty and stored under its id. */
  predicate FreshChats(st: State) {
    forall k | k in st.chats :: st.chats[k].messages == [] && st.chats[k].unread == 0
                                && !st.chats[k].isTemporary && st.chats[k].lastActivity.None?
  }

  /** Storing an empty chat under its id keeps the built map consistent
      and fresh, and touches no other key. */
  lemma PutFreshChat(st: State, k: Str, c: Chat)
    requires Consistent(st) && FreshChats(st)
    requires c.id == k && c.messages == [] && c.unread == 0 && !c.isTemporary && c.lastActivity.None?
    ensures var r := PutChat(st, k, c);
            && Consistent(r) && FreshChats(r)
            && r == st.(chats := r.chats, order := r.order)
            && (forall j :: j in r.chats <==> j in st.chats || j == k)
            && r.chats[k] == c
            && (forall j | j in st.chats && j != k :: r.chats[j] == st.chats[j])
  {
    PutChatConsistent(st, k, c);
  }

  lemma {:induction false} AddUserChatsEffect(st: State, users: seq<Str>, me: Str)
    requires Consistent(st) && FreshChats(st)
    ensures var r := AddUserChats(st, users, me);
            && Consistent(r) && FreshChats(r)
            && r == st.(chats := r.chats, order := r.order)
            && (forall k :: k in r.chats <==> k in st.chats || (k in users && k != me))
            && (forall k | k in r.chats && k !in st.chats :: r.chats[k].kind == Individual)
            && (forall k | k in st.chats && k !in users :: r.chats[k] == st.chats[k])
  {
    if |users| > 0 {
      var init := users[..|users| - 1];
      var last := users[|users| - 1];
      AddUserChatsEffect(st, init, me);
      var mid := AddUserChats(st, init, me);
      if last != me {
        PutFreshChat(mid, last, EmptyChat(last, Individual, false));
      }
      assert forall k :: k in users <==> k in init || k == last by {
        assert users == init + [last];
      }
    }
  }

  lemma {:induction false} AddGroupChatsEffect(st: State, groups: seq<Str>)
    requires Consistent(st) && FreshChats(st)
    ensures var r := AddGroupChats(st, groups);
            && Consistent(r) && FreshChats(r)
            && r == st.(chats := r.chats, order := r.order)
            && (forall k :: k in r.chats <==> k in st.chats || k in groups)
            && (forall k | k in groups :: r.chats[k].kind == Group)
            && (forall k | k in st.chats && k !in groups :: r.chats[k] == st.chats[k])
  {
    if |groups| > 0 {
      var init := groups[..|groups| - 1];
      var last := groups[|groups| - 1];
      AddGroupChatsEffect(st, init);
      var mid := AddGroupChats(st, init);
      var r := AddGroupChat(mid, last);
      PutFreshChat(mid, last, EmptyChat(last, Group, false));
      assert forall k :: k in groups <==> k in init || k == last by {
        assert groups == init + [last];
      }
      assert forall k | k in groups :: r.chats[k].kind == Group by {
        forall k | k in groups ensures r.chats[k].kind == Group {
          if k != last {
            assert k in init && k in mid.chats;
          }
        }
      }
    }
  }

  /** With a user logged in, initializeChats leaves exactly one empty chat
      per other user and per group; a group chat replaces a user chat of the
      same name. */
  lemma InitializeChatsEffect(st: State)
    requires st.currentUser.Some?
    ensures var r := InitializeChats(st);
            var me := st.currentUser.value;
            && Consistent(r) && FreshChats(r)
            && (forall k :: k in r.chats <==> (k in st.users && k != me) || k in st.groups)
            && (forall k | k in st.groups :: r.chats[k].kind == Group)
            && (forall k | k in r.chats && k !in st.groups :: r.chats[k].kind == Individual)
  {
    var st0 := st.(chats := map[], order := []);
    AddUserChatsEffect(st0, st.users, st.currentUser.value);
    AddGroupChatsEffect(AddUserChats(st0, st.users, st.currentUser.value), st.groups);
  }

  // ----- Group members -----

  /** updateGroupMembers: only for an existing group chat. */
  function UpdateGroupMembers(st: State, chatId: Str, sender: Str): (r: State)
    ensures r == st.(groupMembers := r.groupMembers)
  {
    if chatId !in st.chats || st.chats[chatId].kind != Group then st
    else
      var members := if chatId in st.groupMembers then st.groupMembers[chatId] else {};
      st.(groupMembers := st.groupMembers[chatId := members + {sender}])
  }

  /** The sender is recorded exactly for an existing group chat, members are
      only ever added, and other groups are untouched. */
  lemma UpdateGroupMembersEffect(st: State, chatId: Str, sender: Str)
    ensures var r := UpdateGroupMembers(st, chatId, sender);
            && (chatId in st.chats && st.chats[chatId].kind == Group ==> chatId in r.groupMembers && sender in r.groupMembers[chatId])
            && (chatId !in st.chats || st.chats[chatId].kind != Group ==> r == st)
            && (chatId in st.groupMembers ==> chatId in r.groupMembers && st.groupMembers[chatId] <= r.groupMembers[chatId])
            && (forall g | g != chatId :: g in r.groupMembers <==> g in st.groupMembers)
            && (forall g | g != chatId && g in st.groupMembers :: r.groupMembers[g] == st.groupMembers[g])
  {
  }
}
