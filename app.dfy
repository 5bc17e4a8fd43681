/** The client's mutable state object and the operations that update it in
    place. Each method is proved to leave the object in the state that the
    matching state function computes from the state before the call. */
module Client {
  import opened Utf16
  import opened ChatModel
  import opened Reactions
  import opened ReadState
  import opened ChatState
  import L = Lifecycle
  import RT = ReactionTarget
  import I = Ingest
  import Codec
  import ContentHash

  class App {
    var currentUser: Option<Str>
    var currentChat: Option<Str>
    var chats: map<Str, Chat>
    /** Insertion order of the keys of `chats`. */
    var order: seq<Str>
    var users: seq<Str>
    var groups: seq<Str>
    var contacts: seq<Str>
    var requests: seq<Str>
    var blocked: seq<Str>
    var whoCanMessage: Policy
    var notifications: set<Option<Str>>
    var groupMembers: map<Str, set<Str>>
    /** The read watermarks kept in storage. */
    var lastRead: map<Str, int>
    /** The reaction maps kept in storage. */
    var savedReactions: map<Option<Str>, ChatModel.Reactions>

    /** The object's fields as a state value. */
    function Snapshot(): State
      reads this
    {
      State(currentUser, currentChat, chats, order, users, groups, contacts, requests, blocked,
            whoCanMessage, notifications, groupMembers, lastRead, savedReactions)
    }

    constructor ()
      ensures Snapshot() == L.Initial()
    {
      currentUser := None;
      currentChat := None;
      chats := map[];
      order := [];
      users := L.PredefinedUsers();
      groups := L.PredefinedGroups();
      contacts := [];
      requests := [];
      blocked := [];
      whoCanMessage := Everyone;
      notifications := {};
      groupMembers := map[GlobalChat() := {}, Ascii("Team Project") := {}, Ascii("Friends") := {}];
      lastRead := map[];
      savedReactions := map[];
    }

    /** `chats[k] = c`. */
    method PutChat(k: Str, c: Chat)
      modifies this
      ensures Snapshot() == ChatState.PutChat(old(Snapshot()), k, c)
    {
      if k !in chats {
        order := order + [k];
      }
      chats := chats[k := c];
    }

    /** `delete chats[k]`. */
    method DeleteChat(k: Str)
      modifies this
      ensures Snapshot() == ChatState.DeleteChat(old(Snapshot()), k)
    {
      chats := chats - {k};
      order := RemoveAll(order, k);
    }

    // ----- Blocklist -----

    method BlockUser(user: Str)
      modifies this
      ensures Snapshot() == L.BlockUser(old(Snapshot()), user)
    {
      if user in blocked {
        return;
      }
      blocked := blocked + [user];
      requests := RemoveAll(requests, user);
      if user in chats {
        DeleteChat(user);
      }
    }

    method UnblockUser(user: Str)
      modifies this
      ensures Snapshot() == L.UnblockUser(old(Snapshot()), user)
    {
      blocked := RemoveAll(blocked, user);
    }

    // ----- Chat view -----

    method CloseChatView()
      modifies this
      ensures Snapshot() == L.CloseChatView(old(Snapshot()))
    {
      if currentChat.Some? && currentChat.value in chats {
        var c := chats[currentChat.value];
        if c.isTemporary && |c.messages| == 0 {
          DeleteChat(currentChat.value);
        }
      }
      currentChat := None;
    }

    // ----- Read marks -----

    /** updateAllUnreadCounts: every chat, in any order, gets its count
        recomputed against its watermark. */
    method UpdateAllUnreadCounts()
      modifies this
      ensures Snapshot() == L.UpdateAllUnreadCounts(old(Snapshot()))
    {
      ghost var st0 := Snapshot();
      var counted := L.RecountAll(chats, currentUser, lastRead);
      assert counted == L.UpdateAllUnreadCounts(st0).chats;
      chats := counted;
    }

    method MarkChatAsRead(chatId: Str, now: int)
      modifies this
      ensures Snapshot() == L.MarkChatAsRead(old(Snapshot()), chatId, now)
    {
      lastRead := SetWatermark(lastRead, chatId, now);
      if chatId in chats {
        chats := chats[chatId := chats[chatId].(unread := 0)];
      }
      UpdateAllUnreadCounts();
    }

    method HandleNewChat(chatId: Str, initial: Option<Message>, now: int)
      modifies this
      ensures Snapshot() == L.HandleNewChat(old(Snapshot()), chatId, initial, now)
    {
      if chatId !in chats {
        return;
      }
      var w := if initial.Some? then initial.value.timestamp - 1000 else now;
      lastRead := SetWatermark(lastRead, chatId, w);
      var c := chats[chatId];
      var n := CountUnread(c.messages, currentUser, Watermark(lastRead, c.id));
      chats := chats[chatId := c.(unread := n)];
    }

    // ----- Message requests -----

    method AcceptRequest(sender: Str, now: int)
      modifies this
      ensures Snapshot() == L.AcceptRequest(old(Snapshot()), sender, now)
    {
      var rid := RequestId(sender);
      if rid !in chats {
        return;
      }
      var rc := chats[rid];
      ghost var st0 := Snapshot();
      var unread := CountUnread(rc.messages, currentUser, Watermark(lastRead, rc.id));
      DeleteChat(rid);
      if sender !in users && sender !in contacts {
        contacts := contacts + [sender];
        users := users + [sender];
      }
      PutChat(sender, Chat(sender, sender, Individual, rc.messages, rc.lastActivity, unread, false, None));
      assert Snapshot() == L.AcceptedChat(st0, sender);
      HandleNewChat(sender, if |rc.messages| > 0 then Some(rc.messages[0]) else None, now);
      if currentChat == Some(rid) {
        CloseChatView();
      }
    }

    method DeclineRequest(sender: Str)
      modifies this
      ensures Snapshot() == L.DeclineRequest(old(Snapshot()), sender)
    {
      DropRequestChat(RequestId(sender));
    }

    method BlockUserRequest(sender: Str)
      modifies this
      ensures Snapshot() == L.BlockUserRequest(old(Snapshot()), sender)
    {
      BlockUser(sender);
      DropRequestChat(RequestId(sender));
    }

    method DropRequestChat(rid: Str)
      modifies this
      ensures Snapshot() == L.DropRequestChat(old(Snapshot()), rid)
    {
      if rid !in chats {
        return;
      }
      DeleteChat(rid);
      if currentChat == Some(rid) {
        CloseChatView();
      }
    }

    // ----- Contacts and temporary chats -----

    method AddNewContact(input: Str) returns (outcome: L.ContactOutcome)
      modifies this
      ensures (Snapshot(), outcome) == L.AddNewContact(old(Snapshot()), input)
    {
      var name := Trim(input);
      if |name| == 0 {
        return L.EmptyName;
      }
      if currentUser == Some(name) {
        return L.IsSelf;
      }
      if name in users {
        return L.AlreadyExists;
      }
      users := users + [name];
      if name !in contacts {
        contacts := contacts + [name];
      }
      PutChat(name, EmptyChat(name, Individual, false));
      outcome := L.Added;
    }

    method AddUserToContacts(user: Str)
      modifies this
      ensures Snapshot() == L.AddUserToContacts(old(Snapshot()), user)
    {
      if user !in users {
        users := users + [user];
      }
      if user !in contacts {
        contacts := contacts + [user];
      }
      PutChat(user, EmptyChat(user, Individual, false));
      CloseChatView();
    }

    method AddSearchUserToContacts(user: Str)
      modifies this
      ensures Snapshot() == L.AddSearchUserToContacts(old(Snapshot()), user)
    {
      if user !in users {
        users := users + [user];
      }
      if user !in contacts {
        contacts := contacts + [user];
      }
      if user !in chats {
        PutChat(user, EmptyChat(user, Individual, false));
      }
    }

    method ChatWithoutAdding(user: Str)
      modifies this
      ensures Snapshot() == L.ChatWithoutAdding(old(Snapshot()), user)
    {
      PutChat(user, EmptyChat(user, Individual, true));
      CloseChatView();
    }

    // ----- Initial chat map and group members -----

    /** initializeChats: clear the map, then one loop over the users and
        one over the groups. */
    method InitializeChats()
      modifies this
      ensures Snapshot() == L.InitializeChats(old(Snapshot()))
    {
      if currentUser.None? {
        return;
      }
      var me := currentUser.value;
      chats := map[];
      order := [];
      ghost var st0 := Snapshot();
      assert st0 == old(Snapshot()).(chats := map[], order := []);
      var i := 0;
      while i < |users|
        invariant 0 <= i <= |users|
        invariant users == old(users) && groups == old(groups)
        invariant Snapshot() == L.AddUserChats(st0, users[..i], me)
      {
        assert users[..i + 1][..i] == users[..i];
        if users[i] != me {
          PutChat(users[i], EmptyChat(users[i], Individual, false));
        }
        i := i + 1;
      }
      assert users[..i] == users;
      ghost var st1 := Snapshot();
      assert st1 == L.AddUserChats(st0, old(users), me);
      i := 0;
      while i < |groups|
        invariant 0 <= i <= |groups|
        invariant groups == old(groups)
        invariant Snapshot() == L.AddGroupChats(st1, groups[..i])
      {
        assert groups[..i + 1][..i] == groups[..i];
        PutChat(groups[i], EmptyChat(groups[i], Group, false));
        i := i + 1;
      }
      assert groups[..i] == groups;
    }

    method UpdateGroupMembers(chatId: Str, sender: Str)
      modifies this
      ensures Snapshot() == L.UpdateGroupMembers(old(Snapshot()), chatId, sender)
    {
      if chatId !in chats || chats[chatId].kind != Group {
        return;
      }
      var members := if chatId in groupMembers then groupMembers[chatId] else {};
      groupMembers := groupMembers[chatId := members + {sender}];
    }
      // ----- Incoming reactions -----

    /** The id pass of processIncomingReaction: chats in key order, the
        first message matching the id in the first chat that has one. */
    method FindTargetById(targetId: Str) returns (found: Option<RT.Target>)
      ensures found == RT.LocateById(chats, order, targetId)
    {
      found := None;
      var i := 0;
      while i < |order| && found.None?
        invariant 0 <= i <= |order|
        invariant RT.LocateById(chats, order, targetId)
                  == if found.Some? then found else RT.LocateById(chats, order[i..], targetId)
      {
        assert order[i..][0] == order[i] && order[i..][1..] == order[i + 1..];
        var k := order[i];
        if k in chats {
          var j := RT.FindById(chats[k].messages, targetId);
          if j.Some? {
            found := Some(RT.Target(k, j.value));
          }
        }
        i := i + 1;
      }
      if found.None? {
        assert order[i..] == [];
      }
    }

    /** The time-window pass of processIncomingReaction. */
    method FindRecentTarget(timestamp: int) returns (found: Option<RT.Target>)
      ensures found == RT.LocateRecent(chats, order, timestamp)
    {
      found := None;
      var i := 0;
      while i < |order| && found.None?
        invariant 0 <= i <= |order|
        invariant RT.LocateRecent(chats, order, timestamp)
                  == if found.Some? then found else RT.LocateRecent(chats, order[i..], timestamp)
      {
        assert order[i..][0] == order[i] && order[i..][1..] == order[i + 1..];
        var k := order[i];
        if k in chats {
          var j := RT.PickRecent(chats[k].messages, timestamp);
          if j.Some? {
            found := Some(RT.Target(k, j.value));
          }
        }
        i := i + 1;
      }
      if found.None? {
        assert order[i..] == [];
      }
    }

    /** processIncomingReaction, with the write-back touching only the
        reacted message; `threw` reports that debugReaction threw first. */
    method ProcessIncomingReaction(ev: Codec.ReactionEvent, timestamp: int) returns (threw: bool)
      modifies this
      ensures Snapshot() == I.IncomingReaction(old(Snapshot()), ev, timestamp)
      ensures threw == I.SomeTextMissing(old(chats))
    {
      threw := I.DebugReaction(chats);
      if threw {
        return;
      }
      var t := FindTargetById(ev.targetId);
      if t.None? {
        t := FindRecentTarget(timestamp);
      }
      assert t == RT.Locate(chats, order, ev.targetId, timestamp);
      if t.None? {
        return;
      }
      ghost var st0 := Snapshot();
      var target := t.value;
      var c := chats[target.chatId];
      var m := c.messages[target.index];
      var updated := RT.Reacted(m, ev.emoji, ev.user, ev.action);
      chats := chats[target.chatId := c.(messages := RT.WriteBack(c.messages, target.index, updated))];
      savedReactions := savedReactions[m.localId := updated.reactions];
      assert Snapshot() == SetChat(st0, target.chatId, c.(messages := RT.WriteBack(c.messages, target.index, updated)))
                             .(savedReactions := st0.savedReactions[m.localId := updated.reactions]);
    }

    // ----- Polled records -----

    /** Append a record's message to an existing chat unless it is a
        duplicate; recount when the chat is not open, and notify, which
        throws (`threw`). */
    method AppendToChat(chatId: Str, r: Record, m: Message) returns (threw: bool)
      modifies this
      ensures Snapshot() == I.AppendToChat(old(Snapshot()), chatId, r, m)
      ensures threw == I.AppendThrows(old(Snapshot()), chatId, r)
    {
      threw := false;
      if chatId !in chats {
        return;
      }
      var c := chats[chatId];
      if I.IsDuplicate(c.messages, r) {
        return;
      }
      threw := currentChat != Some(chatId) && I.NotifyThrows(Snapshot(), r);
      var msgs := c.messages + [I.Stored(Snapshot(), r, m)];
      c := c.(messages := msgs, lastActivity := Some(r.timestamp));
      if currentChat != Some(chatId) {
        var n := CountUnread(msgs, currentUser, Watermark(lastRead, c.id));
        c := c.(unread := n);
      }
      chats := chats[chatId := c];
    }

    /** A stranger's message into its request chat. */
    method AddToRequest(r: Record, m: Message)
      modifies this
      ensures Snapshot() == I.AddToRequest(old(Snapshot()), r, m)
    {
      var rid := RequestId(r.senderId);
      if rid !in chats {
        PutChat(rid, Chat(rid, r.senderId, Request, [m], Some(r.timestamp), 1, false, Some(r.senderId)));
      } else {
        var c := chats[rid];
        chats := chats[rid := c.(messages := c.messages + [m], lastActivity := Some(r.timestamp), unread := c.unread + 1)];
      }
    }

    /** The body of processNewMessages for one record; `threw` reports
        that the pass threw. */
    method IngestRecord(r: Record, now: int, freshId: Str) returns (threw: bool)
      modifies this
      ensures Snapshot() == I.IngestRecord(old(Snapshot()), r, now, freshId)
      ensures threw == I.Throws(old(Snapshot()), r, now)
    {
      threw := false;
      var key := Key(r);
      if key in notifications {
        return;
      }
      notifications := notifications + {key};
      var reaction := Codec.DecodeReaction(r.content);
      if reaction.Some? {
        threw := ProcessIncomingReaction(reaction.value, r.timestamp);
        return;
      }
      var m := I.Parsed(r, freshId);
      if currentUser == Some(r.senderId) && r.timestamp > now - 5000 {
        return;
      }
      if r.senderId in blocked {
        return;
      }
      threw := Route(r, m);
    }

    /** The routing part of processNewMessages, for a record that passed
        the drop checks. */
    method Route(r: Record, m: Message) returns (threw: bool)
      modifies this
      ensures Snapshot() == I.Route(old(Snapshot()), r, m)
      ensures threw == I.RouteThrows(old(Snapshot()), r)
    {
      threw := false;
      if r.receiverId == GroupReceiver() || r.receiverId == GlobalChat() {
        UpdateGroupMembers(GlobalChat(), r.senderId);
        threw := AppendToChat(GlobalChat(), r, m);
      } else if currentUser == Some(r.receiverId) {
        if r.senderId !in users && r.senderId !in contacts {
          if L.CanUserMessage(Snapshot(), r.senderId) {
            AddToRequest(r, m);
          }
        } else {
          threw := AppendToChat(r.senderId, r, m);
        }
      } else if currentUser == Some(r.senderId) {
        threw := AppendToChat(r.receiverId, r, m);
      }
    }

    /** processNewMessages: the records of one poll, in order, until a
        record's pass throws (`halted`). */
    method ProcessNewMessages(records: seq<Record>, now: int, freshIds: seq<Str>) returns (halted: bool)
      requires |freshIds| == |records|
      modifies this
      ensures I.Batch(Snapshot(), halted) == I.IngestAll(old(Snapshot()), records, now, freshIds)
    {
      halted := false;
      var i := 0;
      while i < |records| && !halted
        invariant 0 <= i <= |records|
        invariant I.Batch(Snapshot(), halted) == I.IngestAll(old(Snapshot()), records[..i], now, freshIds[..i])
      {
        I.IngestAllStep(old(Snapshot()), records, i, now, freshIds);
        halted := IngestRecord(records[i], now, freshIds[i]);
        i := i + 1;
      }
      I.IngestAllStopped(old(Snapshot()), records, i, now, freshIds);
    }

    // ----- Sending and reacting -----

    /** sendMessage: the local push and duplicate check; the outgoing
        message is returned. */
    method SendMessage(input: Str, now: int, nowIso: Str, freshId: Str) returns (outcome: I.SendOutcome)
      modifies this
      ensures (Snapshot(), outcome) == I.SendMessage(old(Snapshot()), input, now, nowIso, freshId)
    {
      var text := Trim(input);
      if |text| == 0 || currentUser.None? || currentChat.None? {
        return I.NothingToSend;
      }
      var cid := currentChat.value;
      if cid in chats && chats[cid].kind == Request {
        return I.PendingRequest;
      }
      if cid !in chats {
        return I.MissingChat;
      }
      var me := currentUser.value;
      var receiver := I.ReceiverFor(cid);
      var sid := ContentHash.SharedMessageId(nowIso, me, receiver, text);
      var local := I.LocalCopy(me, cid, text, now, freshId, sid);
      var out := I.Outbound(me, receiver, text, nowIso, freshId, sid);
      assert I.SendMessage(old(Snapshot()), input, now, nowIso, freshId) == I.Deliver(old(Snapshot()), cid, local, out);
      outcome := Deliver(cid, local, out);
    }

    /** The push of sendMessage once the open chat exists. */
    method Deliver(chatId: Str, local: Message, out: I.Outbound) returns (outcome: I.SendOutcome)
      requires chatId in chats && local.sender.Some? && local.text.Some?
      modifies this
      ensures (Snapshot(), outcome) == I.Deliver(old(Snapshot()), chatId, local, out)
    {
      var c := chats[chatId];
      if !I.IsDuplicate(c.messages, Record(local.sender.value, out.receiver, local.text.value, local.timestamp, None, None)) {
        chats := chats[chatId := c.(messages := c.messages + [local], lastActivity := Some(local.timestamp))];
      }
      outcome := I.Sent(out);
    }

    /** addReaction: toggle on the open chat's message, write it back, save
        the map; the control message to send is returned. */
    method AddReaction(messageId: Str, emoji: Str, user: Str) returns (control: Option<Str>)
      modifies this
      ensures (Snapshot(), control) == I.AddReaction(old(Snapshot()), messageId, emoji, user)
    {
      if currentChat.None? || currentChat.value !in chats {
        return None;
      }
      var cid := currentChat.value;
      var c := chats[cid];
      var found := RT.FindByLocalId(c.messages, Some(messageId));
      if found.None? {
        return None;
      }
      ghost var st0 := Snapshot();
      var i := found.value;
      var m := c.messages[i];
      var (rs, action) := Toggle(m.reactions, emoji, user);
      var targetId := if m.sharedId.Some? && |m.sharedId.value| > 0 then m.sharedId.value else messageId;
      control := Some(Codec.EncodeReaction(Codec.ReactionEvent(targetId, emoji, user, action)));
      var msgs := RT.WriteBack(c.messages, i, m.(reactions := rs));
      chats := chats[cid := c.(messages := msgs)];
      savedReactions := savedReactions[Some(messageId) := rs];
      assert Snapshot() == SetChat(st0, cid, c.(messages := msgs)).(savedReactions := st0.savedReactions[Some(messageId) := rs]);
      assert I.AddReaction(st0, messageId, emoji, user) == (Snapshot(), control);
    }
  }
}
