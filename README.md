# schat.js reconciliation core, in Dafny

This project models the client-side reconciliation logic of the schat.js
polling chat client, and proves what that logic guarantees:

- the content identity hashes behind shared ids and reply ids;
- the control-message codec, which carries reactions, replies and forwards
  inside ordinary message text;
- one poll tick of `processNewMessages`: the seen-key check, reaction
  dispatch, self-echo and blocked-sender drops, routing into group, direct,
  request and own-sent chats, the duplicate check and the unread recount;
- the incoming-reaction reconciler and the local reaction toggle;
- the read-state tracker (per-chat watermarks and unread counts);
- the request, contact and block lifecycle;
- the search helpers.

Text is a sequence of UTF-16 code units (`Utf16.Str`), as JavaScript sees it.
Timestamps are milliseconds. The clock, `Math.random()` local ids and the ISO
time string are parameters (`now`, `freshId`, `nowIso`). `localStorage` is
modelled as the two maps it holds for this core: read watermarks
(`lastRead`) and saved reaction maps (`savedReactions`). The insertion
order of the keys of `state.chats`, which `for … in` follows, is kept in
`order`. `ChatState.Consistent` says that `order` and the key set agree and
that every chat is stored under its own id.

The state-changing functions are imperative in the source. They are the
methods of the class `Client.App`, whose fields are the fields of
`state`. Each method is proved to leave the object in the state that a
function of `ChatState`, `Lifecycle` or `Ingest` gives for the old state.
The loops of the source (`updateAllUnreadCounts`, `initializeChats`, the
search passes of `processIncomingReaction`, the batch loop of
`processNewMessages`, the hashing loop, `calculateUnreadCount` and the
collection passes of `getAllSearchableUsers`) are `while`/`for` loops proved
against those functions. The lemmas are stated about the functions.

Two exceptions of the source are part of the model, because they decide
how far a poll gets. `debugReaction`, which `processIncomingReaction` calls
first, reads `text.substring` of every stored message, and a polled record
is stored without `text`; a reaction then changes nothing
(`Ingest.SomeTextMissing`, `Ingest.DebugReaction`). The definition of
`showEnhancedNotification` that wins is the second one (line 4126), which
calls the undefined `showNotification` once its suppression checks pass
(`Ingest.NotifyThrows`). Either exception leaves the batch loop of
`processNewMessages` and is caught by `fetchNewMessages`: the records after
it, and the work after the loop, are not reached (`Ingest.Throws`,
`Ingest.Batch`).

Modules: `Utf16` (strings), `ContentHash`, `Codec`, `ChatModel` (records,
messages, chats), `Reactions`, `ReadState`, `ChatState`, `Lifecycle`,
`ReactionTarget`, `Ingest`, `Search` and `Client` (the class).

## Model

| member | source | states |
|---|---|---|
| ContentHash.ToInt32 | schat.js:3213 | `hash & hash` yields the 32-bit integer congruent to its input modulo 2^32 |
| ContentHash.StepIsTimes31 | schat.js:3212-3213 | one loop step `((h << 5) - h) + c`, reduced to 32 bits, is `31*h + c` reduced to 32 bits |
| ContentHash.RollingHashIsPolynomial | schat.js:3210-3214 | the hash after the loop is the 32-bit reduction of the polynomial sum of the code units with base 31 |
| ContentHash.ComputeHash | schat.js:3210-3214 | the hashing loop returns the 32-bit reduction of the polynomial hash of its input |
| ContentHash.Abs | schat.js:3216 | `Math.abs` of a 32-bit hash is its magnitude, at most 2^31 (reached by -2^31) |
| ContentHash.Base36RoundTrip | schat.js:3216 | base-36 printing can be parsed back to the number; the output is non-empty, all digits, with no leading zero |
| ContentHash.Base36Injective | schat.js:3216 | different hash magnitudes print as different ids |
| ContentHash.SharedIdDecodes | schat.js:3198-3217 | a shared id is `shared_` followed by the base-36 magnitude of the 32-bit polynomial hash of the normalised input |
| ContentHash.SharedIdNormalises | schat.js:3200-3206 | two inputs whose timestamps agree before the first '.', whose trimmed sender and receiver agree and whose trimmed texts share their first 50 units get the same shared id |
| ContentHash.SharedIdIgnoresMilliseconds | schat.js:3203 | ISO timestamps that differ only after the '.' give the same shared id |
| ContentHash.SharedIdIgnoresTrailingWhitespace | schat.js:3200 | whitespace appended to the text does not change the shared id |
| ContentHash.TrimAppendWhitespace | schat.js:3200 | trimming a string with whitespace appended gives the trimmed string |
| ContentHash.ReplyIdPrefixOnly | schat.js:2579-2589 | a reply identifier depends only on the sender and the first 20 units of the text |
| ContentHash.ReplyIdIsNotShared | schat.js:2579-2589 | reply identifiers start with `msg_` and never with `shared_` |
| Codec.ReactionRoundTrip | schat.js:1577 | the string built at line 3050, `[REACTION:id:emoji:user:action]` decodes to exactly its four fields when the first three are non-empty and colon-free and the action is non-empty and free of ']' |
| Codec.ReplyRoundTrip | schat.js:1592 | a reply encoded as at line 2295 decodes to its identifier, sender, quoted text and reply text when the fields are admissible and the reply text holds no ` \|\| ` |
| Codec.ForwardRoundTrip | schat.js:1692 | a forward encoded as at line 2464 decodes to its sender and text when the sender is non-empty without ']' and the text is non-empty on one line |
| Codec.DecodeReactionSound | schat.js:1577 | a decoded reaction has fields the pattern admits, and its encoding occurs in the decoded text |
| Codec.DecodeReplySound | schat.js:1592 | a decoded reply has fields the pattern admits, and its encoding occurs in the decoded text |
| Codec.DecodeForwardSound | schat.js:1692 | a decoded forward has fields the pattern admits, and its encoding occurs in the decoded text |
| Codec.Leftmost | schat.js:1577 | an unanchored match succeeds exactly when the pattern matches at some position, and returns the match at the first such position |
| Codec.ReactionNeedsTag | schat.js:1576-1577 | only a text holding `[REACTION:` decodes to a reaction |
| Codec.ReplyLineSplit | schat.js:1592 | the greedy `(.+) \|\| (.+)` splits at the separator before a reply text that holds none |
| ChatModel.FromRecord | schat.js:1715 | a polled record is stored with its backend fields only: no `sender`, `text`, ids or reactions |
| ChatModel.Key | schat.js:1563-1567 | the seen key is `message_id`, or `shared_id` when the message id is empty or missing |
| ChatState.PutChat | schat.js:1222-1241 | storing a chat replaces the key's chat; a new key goes last in the key order, and nothing else changes |
| ChatState.DeleteChat | schat.js:1800 | `delete chats[k]` removes the key from the map and from the key order, and nothing else changes |
| ChatState.PutChatConsistent | schat.js:1222-1241 | storing a chat under its own id keeps the map and its key order in step |
| ChatState.DeleteChatConsistent | schat.js:1800 | deleting a key keeps the map and its key order in step |
| ChatState.PutChatFrame | schat.js:1222-1241 | storing a chat leaves every other key's chat as it was |
| Lifecycle.Initial | schat.js:5-34 | the initial state is consistent, with nobody logged in and no chats |
| Lifecycle.CanUserMessage | schat.js:287-302 | a blocked sender is refused; otherwise `everyone` (or an unknown setting) admits anyone, `contacts` admits users and contacts only, and `nobody` admits no one |
| Lifecycle.BlockUserEffect | schat.js:259-276 | after blockUser the user is on the blocklist exactly once and earlier entries are kept; blocking a user not yet blocked removes their chat and pending requests, blocking one already blocked changes nothing, and no other chat changes |
| Lifecycle.BlockUserIdempotent | schat.js:259-276 | blocking twice is blocking once |
| Lifecycle.UnblockUser | schat.js:279-284 | unblockUser removes every occurrence of the user and keeps every other entry |
| Lifecycle.UnblockUndoesBlock | schat.js:259-284 | unblocking a user who was just blocked restores the blocklist |
| Lifecycle.BlockUserConsistent | schat.js:259-276 | blocking keeps the chat map and its key order in step |
| Lifecycle.CloseChatView | schat.js:655-664 | closing the view leaves no chat open (the render at line 660 assumed to return) |
| Lifecycle.CloseChatViewEffect | schat.js:656-661 | closing the view deletes only the open chat, and only when it is temporary and has no messages |
| Lifecycle.CloseChatViewConsistent | schat.js:656-661 | closing the view keeps the chat map and its key order in step |
| Lifecycle.Recount | schat.js:3576-3603 | a recounted chat differs only in its unread count, which is the reference count against the chat's stored watermark |
| Lifecycle.UpdateAllUnreadCounts | schat.js:3606-3612 | every chat is recounted against its own watermark, and the keys are kept |
| Lifecycle.RecountAll | schat.js:3606-3612 | the loop gives every chat, and no other key, its count against its own watermark |
| Lifecycle.MarkChatAsReadClears | schat.js:3615-3631 | after markChatAsRead, a chat with no message timestamped after now has watermark now and unread count 0 |
| Lifecycle.HandleNewChat | schat.js:3634-3654 | handleNewChat on an existing chat keeps the key set |
| Lifecycle.HandleNewChatConsistent | schat.js:3634-3654 | handleNewChat keeps the chat map and its key order in step |
| Lifecycle.AcceptRequestEffect | schat.js:1795-1827 | acceptRequest deletes `request_<s>` and creates the individual chat `s` with the same messages; `s` is then a user or a contact (both when it was neither), no other chat changes, and the request view is no longer open (the render at line 3653 assumed to return) |
| Lifecycle.AcceptedChatEffect | schat.js:1799-1815 | the delete, list and store steps move the request's messages to an individual chat `s`, make `s` a user or a contact, and touch no other chat |
| Lifecycle.HandleNewChatFrame | schat.js:3634-3654 | handleNewChat on an existing chat changes only that chat's unread count and the watermarks |
| Lifecycle.AcceptRequestUnread | schat.js:1795-1827 | the accepted chat's unread count is taken against a watermark one second before its first message |
| Lifecycle.AcceptRequestConsistent | schat.js:1795-1827 | acceptRequest keeps the chat map and its key order in step |
| Lifecycle.DeclineRequestEffect | schat.js:1831-1843 | declineRequest deletes `request_<s>` and no other chat, and leaves the user, contact and block lists as they were |
| Lifecycle.DropRequestChatEffect | schat.js:1834-1839 | dropping a request chat deletes only that key and closes the view exactly when it was the open chat |
| Lifecycle.BlockUserRequestEffect | schat.js:1847-1860 | after blockUserRequest the sender is blocked and has neither a request chat nor a request (the render at line 273 assumed to return) |
| Lifecycle.PushNew | schat.js:1224-1231 | pushing a name not yet listed appends it, and a listed name leaves the list as it was |
| Lifecycle.AddNewContactEffect | schat.js:1955-1995 | a name is added exactly when it is non-empty after trimming, not the current user and not yet a user; it is then a user and a contact with an empty individual chat, and otherwise nothing changes |
| Lifecycle.AddUserToContactsEffect | schat.js:1222-1241 | afterwards the user is in both lists and has an empty chat, replacing any chat it had |
| Lifecycle.AddSearchUserKeepsChat | schat.js:3923-3943 | adding a contact from search keeps an existing chat and its messages |
| Lifecycle.ChatWithoutAddingEffect | schat.js:1255-1265 | the temporary chat survives unless its own view was the one open, and the contact lists do not change |
| Lifecycle.AddUserChatsEffect | schat.js:424-436 | the users loop gives every user but the current one an empty individual chat, and keeps the state consistent |
| Lifecycle.AddGroupChatsEffect | schat.js:438-448 | the groups loop gives every group an empty group chat, and keeps the state consistent |
| Lifecycle.InitializeChatsEffect | schat.js:413-451 | with a user logged in, the chat map holds exactly one empty chat per other user and per group, each under its id |
| Lifecycle.UpdateGroupMembers | schat.js:4378-4393 | updateGroupMembers changes only the member sets |
| Lifecycle.UpdateGroupMembersEffect | schat.js:4378-4393 | the sender is recorded for an existing group chat only; other chats' member sets are kept |
| ReadState.Watermark | schat.js:3561-3566 | the stored watermark of a chat, 0 when none is stored |
| ReadState.SetWatermark | schat.js:3568-3573 | setting a chat's watermark changes only that chat's watermark |
| ReadState.UnreadCount | schat.js:3576-3603 | the count never exceeds the number of messages |
| ReadState.UnreadCountAppend | schat.js:3576-3603 | pushing a message adds one to the count exactly when it is unread |
| ReadState.UnreadCountZero | schat.js:3576-3603 | the count is zero exactly when no message is newer than the watermark, from another sender and not a reaction |
| ReadState.NothingUnreadAfterMark | schat.js:3615-3620 | with the watermark at now and nothing timestamped later, the count is 0 |
| ReadState.UnreadCountAntitone | schat.js:3576-3603 | moving the watermark forward never raises the count |
| ReadState.OwnPolledRecordCounts | schat.js:3587-3600 | the user's own polled record counts as unread, because the test reads `sender`, which polled records lack |
| ReadState.SeededWatermarkCountsFirst | schat.js:3638-3650 | with the watermark seeded one second before the first message, that message counts unless it is the user's or a reaction |
| ReadState.CountUnread | schat.js:3576-3603 | the counting loop returns the reference count |
| Reactions.RemoveAt | schat.js:3407 | `splice(i, 1)` removes one occurrence of the element at i |
| Reactions.ToggleAgreesWithIncoming | schat.js:2985-3009 | the action the local toggle sends, applied remotely to the same map, gives the toggled map |
| Reactions.Incoming | schat.js:3378-3416 | an incoming reaction changes no other emoji's entry, and an action other than 'add' or 'remove' only leaves the reacted emoji's entry (created empty when missing) |
| Reactions.Toggle | schat.js:2985-3009 | the local toggle sends 'remove' exactly when the user has reacted with the emoji, and 'add' otherwise |
| Reactions.AddPresentIsNoOp | schat.js:3392-3395 | 'add' by a user already listed changes nothing |
| Reactions.AddIdempotent | schat.js:3392-3402 | applying the same 'add' twice is applying it once |
| Reactions.RemoveAbsentIsNoOp | schat.js:3403-3406 | 'remove' by a user not listed changes nothing when the emoji has an entry |
| Reactions.MissingEmojiLeavesEmptyEntry | schat.js:3383-3389 | a 'remove' or unknown action for an emoji without an entry leaves an empty entry behind |
| Reactions.IncomingStepsByOne | schat.js:3392-3416 | a successful 'add' or 'remove' moves the count and the user list together by one; a remove that reaches 0 deletes the emoji |
| Reactions.IncomingPreservesWellFormed | schat.js:3392-3416 | incoming reactions keep every count equal to its number of distinct users |
| Reactions.TogglePreservesWellFormed | schat.js:2985-3009 | the local toggle keeps every count equal to its number of distinct users |
| Reactions.ToggleWhenAbsent | schat.js:3002-3009 | toggling a user who has not reacted adds them last and sends 'add' |
| Reactions.ToggleWhenPresent | schat.js:2987-3000 | toggling a user who has reacted removes them and sends 'remove' |
| Reactions.ToggleTwiceFromAbsent | schat.js:2985-3009 | toggling twice restores a well-formed map when the user had not reacted and the emoji had no empty entry |
| Reactions.TwiceFromPresentShape | schat.js:2985-3009 | toggling twice a user who had reacted moves them to the end of the emoji's users with the count unchanged |
| Reactions.ToggleTwiceFromPresent | schat.js:2985-3009 | toggling twice a user who had reacted restores the count and the multiset of users, and the whole map when the user was last |
| ReactionTarget.FindById | schat.js:3312-3331 | the first message whose shared id (for a `shared_` target) or local id (otherwise) equals the target, or none exactly when no message matches |
| ReactionTarget.LocateById | schat.js:3312-3331 | the id pass finds a target exactly when some chat holds a matching message |
| ReactionTarget.LocateByIdFirst | schat.js:3312-3331 | the chat found by id is the first chat in key order that holds a match |
| ReactionTarget.SortRecentCorrect | schat.js:3351-3352 | the sort lists every index once, newest first, ties in chat order |
| ReactionTarget.Top20 | schat.js:3351-3353 | the kept list is the first twenty (or all) of the sorted indices |
| ReactionTarget.FirstNear | schat.js:3355-3367 | the first kept message within five minutes, or none exactly when there is none |
| ReactionTarget.PickRecent | schat.js:3346-3370 | the fallback's pick is within five minutes of the reaction |
| ReactionTarget.PickRecentIsRecent | schat.js:3346-3370 | fewer than twenty messages of the chat are strictly newer than the fallback's pick |
| ReactionTarget.LocateRecent | schat.js:3346-3370 | the fallback finds a target exactly when some chat has a near message among its twenty newest |
| ReactionTarget.Locate | schat.js:3312-3376 | a located target is an existing message; when nothing matches by id it is the fallback's pick |
| ReactionTarget.LocatePrefersId | schat.js:3312-3346 | a message found by id wins over any fallback candidate |
| ReactionTarget.LocateNothing | schat.js:3372-3376 | with no id match and no near message the reaction is dropped |
| ReactionTarget.Reacted | schat.js:3378-3416 | applying a reaction changes only the message's reaction map, to the incoming update |
| ReactionTarget.FindByLocalId | schat.js:3419-3421 | the first message with the same `localId`, absent ones being equal |
| ReactionTarget.WriteBackAsWritten | schat.js:3418-3425 | the write-back as written puts the update at the target and at the first message sharing its local id |
| ReactionTarget.WriteBack | schat.js:3418-3425 | the intended write-back changes the target only |
| ReactionTarget.WriteBackAgrees | schat.js:3418-3425 | the two write-backs agree when no earlier message shares the target's local id |
| ReactionTarget.WriteBackClobbers | schat.js:3418-3425 | otherwise the as-written write-back overwrites the earlier message, which the intended one keeps |
| ReactionTarget.ClobberExample | schat.js:3418-3425 | for two messages with text and no `localId` in one chat, a reaction on the second, written back as written, overwrites the first, which the intended write-back keeps |
| Ingest.DebugReaction | schat.js:3486-3505 | the walk over every message of every chat reports exactly whether some message has no text, where its log line throws |
| Ingest.IncomingReaction | schat.js:3307-3440 | processIncomingReaction changes only the chats and the saved reaction maps, and nothing at all when some message has no text; it uses the corrected write-back (see Left out) |
| Ingest.PlainMessageBlocksReactions | schat.js:3486-3505 | once a plain polled message sits in a chat, a later reaction record is only marked as seen, and its pass throws |
| Ingest.IncomingReactionEffect | schat.js:3307-3440 | with the corrected write-back, processIncomingReaction keeps every chat's key and length and changes at most the reactions of messages (none when a message has no text) |
| Ingest.IncomingReactionWellFormed | schat.js:3378-3416 | when every reaction map of every chat keeps its counts equal to its distinct users, an incoming reaction keeps it so |
| Ingest.IncomingReactionConsistent | schat.js:3307-3440 | processIncomingReaction keeps the chat map and its key order in step |
| Ingest.ForwardsClobbered | schat.js:1692-1703 | two decoded forwards are stored with text and without `localId`, so the as-written write-back of a reaction on the second overwrites the first |
| Ingest.Parsed | schat.js:1592-1609 | reply parsing keeps the backend fields, never sets `sender`, and changes nothing when the content is not a reply |
| Ingest.SeenRecordIgnored | schat.js:1563-1565 | a record whose key was seen changes nothing |
| Ingest.SecondIdlessRecordIgnored | schat.js:1563-1567 | after one record without ids, every later one is ignored |
| Ingest.ReactionNotAppended | schat.js:1577-1589 | a reaction control message is appended to no chat |
| Ingest.OwnRecentDropped | schat.js:1612-1618 | the user's own record from the last five seconds is dropped |
| Ingest.BlockedSenderDropped | schat.js:1621-1624 | a blocked sender's message is dropped |
| Ingest.StrangerDropped | schat.js:1638-1671 | a stranger's direct message is dropped under `contacts` or `nobody` |
| Ingest.UnaddressedDropped | schat.js:1630-1677 | a record neither for the group, nor to the user, nor from the user is dropped |
| Ingest.StrangerGoesToRequest | schat.js:1638-1667 | a stranger's admitted message is pushed onto `request_<sender>`, created when missing, and no other chat changes |
| Ingest.OwnRecordAppended | schat.js:1673-1715 | the user's older own record to a contact is appended to that contact's chat |
| Ingest.DuplicateNotAppended | schat.js:1680-1689 | a record matching a message's `sender` and `text` within one second is not appended |
| Ingest.AppendToChat | schat.js:1680-1725 | a record that duplicates no message is appended, as stored, to an existing chat, whose last activity becomes its time; outside the open chat its unread count becomes the recount against its watermark, and inside it is kept; the chat's other fields and the other chats are kept; a duplicate or a missing chat changes nothing |
| Ingest.AppendRecountsUnread | schat.js:1724-1725 | outside the open chat, the recounted unread is the count over the old messages plus one exactly when the appended message is itself unread |
| Ingest.AddToRequest | schat.js:1638-1667 | afterwards `request_<sender>` exists and ends with the message; a new one is a request chat named after the sender, holding only the message, with the message's time as last activity and unread 1, placed last in the order; an existing one gets the message's time as last activity and one more unread, keeping its other fields and its place; other chats are kept |
| Ingest.Route | schat.js:1630-1677 | routing changes only the record's destination chat (Global Chat for the group, the request chat of a permitted stranger, the known sender's chat, the receiver's chat for the user's own record), creates no chat but that one, leaves everything for a refused stranger or a record to others, and adds the sender to Global Chat's members only for a group record, when Global Chat is a group |
| Ingest.GroupRecordAppended | schat.js:1630-1633 | a group record that passes the drop checks and duplicates nothing is appended, as stored, to Global Chat, whose members then include the sender when it is a group; no other chat changes |
| Ingest.ContactRecordAppended | schat.js:1634-1677 | a record to the user from a known sender is appended, as stored, to the sender's chat unless it is a duplicate; when that chat is missing the message is lost; no other chat changes |
| Ingest.IngestRecord | schat.js:1562-1733 | one record's pass records its key, whatever happens to it, and changes only the chats, their key order, the group members, the seen keys and the saved reaction maps |
| Ingest.IngestAll | schat.js:1558-1750 | a batch changes only the chats, their key order, the group members, the seen keys (which only grow) and the saved reaction maps |
| Ingest.HaltedBatchIgnoresRest | schat.js:1558-1750 | once a record's pass throws, the records after it in the batch are not looked at |
| Ingest.ContactMessageHaltsBatch | schat.js:1724-1731 | a new message from a known user for a chat that is not open is appended and notified, the notification throws, and the rest of the batch is dropped |
| Ingest.AppendToChatConsistent | schat.js:1680-1722 | appending keeps the chat map and its key order in step |
| Ingest.AddToRequestConsistent | schat.js:1638-1667 | adding to a request chat keeps the chat map and its key order in step |
| Ingest.RouteConsistent | schat.js:1630-1677 | routing keeps the chat map and its key order in step |
| Ingest.IngestRecordConsistent | schat.js:1558-1750 | one record keeps the chat map and its key order in step |
| Ingest.IngestAllConsistent | schat.js:1558-1750 | a whole batch keeps the chat map and its key order in step |
| Ingest.SendMessage | schat.js:1456-1518 | only the chats change, and only on a send; a send carries the trimmed text, which is non-empty, to an open chat that exists; an empty trimmed text sends nothing (the render at line 1510 assumed to return) |
| Ingest.Deliver | schat.js:1490-1507 | the message is always sent; the open chat gains the local copy or, for a duplicate, stays as it was; no other chat changes (the render at line 1510 assumed to return) |
| Ingest.LocalCopy | schat.js:1499-1506 | the local copy carries the sender, receiver, trimmed text, send time and both ids, with no reactions |
| Ingest.SendIsDeliver | schat.js:1456-1507 | a send that goes through delivers the trimmed text to the open chat with the shared id of its ISO time, sender, receiver and text |
| Ingest.DeliverLeavesDuplicate | schat.js:1492-1507 | after a send, the open chat holds a message that the echo of the send duplicates |
| Ingest.OwnDuplicateIgnored | schat.js:1612-1689 | the user's record to the open chat that duplicates one of its messages changes no chat |
| Ingest.SentMessageNotDuplicated | schat.js:1456-1507 | the next poll's echo of a sent message, carrying the send time, adds no second copy |
| Ingest.AddReaction | schat.js:2967-3025 | a control message is produced exactly when the open chat exists and holds a message with that `localId`; otherwise nothing changes; only that chat and the saved reaction maps change (the render at line 3021 assumed to return) |
| Ingest.AddReactionEffect | schat.js:2967-3025 | the first message of the open chat with that `localId` keeps every field but its reactions, which become the toggled map; the chat's other messages and fields are kept; the toggled map is saved under the `localId` (the render at line 3021 assumed to return) |
| Ingest.AddReactionTwiceRestores | schat.js:2967-3025 | two addReaction calls with the same message, emoji and user, by a user who had not reacted with that emoji, give back the original chats, and the saved map is then the original one (the render at line 3021 assumed to return) |
| Ingest.ControlReplaysToggle | schat.js:2985-3050 | the control message of a toggle decodes to its own event, whose remote apply reproduces the toggle |
| Ingest.AddReactionSendsItsChange | schat.js:2967-3050 | the control message addReaction sends decodes to a reaction that, applied to the old map, gives the new map |
| Search.FirstMatch | schat.js:2553-2573 | the first message passing a test, or none exactly when no message passes it |
| Search.FindMessageByContent | schat.js:2550-2576 | a found index names a message of the chat |
| Search.FindNothingIff | schat.js:2550-2576 | nothing is found exactly when no message has the sender and the text, a text containing the first 20 units, or (for any text) the sender |
| Search.FindTiers | schat.js:2550-2576 | the passes run in order: an exact match wins, then a partial match, then any message from the sender |
| Search.ExactIsPartial | schat.js:2554-2565 | an exact match with non-empty text also passes the partial test |
| Search.PartialFindsEdited | schat.js:2560-2565 | a quote longer than 20 units is found through its first 20 |
| Search.CanJumpToReply | schat.js:2529-2547 | a jump needs a quoted message id found in the chat |
| Search.JumpIgnoresOtherMessages | schat.js:2529-2547 | only messages carrying the quoted id decide: appending messages with another localId leaves the verdict unchanged |
| Search.ReceivedReplyCannotJump | schat.js:2529-2547 | a received reply never carries a quoted id, so it can never be jumped from |
| Search.UniqueByIdDistinct | schat.js:3804-3813 | de-duplication leaves each id once |
| Search.UniqueByIdSameIds | schat.js:3804-3813 | de-duplication keeps every id |
| Search.UniqueByIdSubset | schat.js:3804-3813 | de-duplication keeps only listed entries |
| Search.UniqueByIdPrefix | schat.js:3804-3813 | the first entry of each id wins |
| Search.ContactIds | schat.js:3748-3759 | step 1 lists exactly the users other than the current user, as contacts |
| Search.NonContactIds | schat.js:3761-3773 | step 2 lists exactly the predefined users that are neither the current user nor in the user list |
| Search.GroupIds | schat.js:3775-3784 | step 3 lists exactly the groups |
| Search.ChatIds | schat.js:3786-3802 | step 4 adds exactly the listable chat keys to the ids already listed |
| Search.ChatEntriesAfter | schat.js:3786-3802 | step 4 only appends: the earlier steps' entries stay first |
| Search.SearchableIds | schat.js:3744-3813 | an id is offered exactly when it is a user, predefined user, group or listable chat key other than the current user |
| Search.SearchableDistinct | schat.js:3804-3813 | each id is offered once |
| Search.FirstListWins | schat.js:3804-3813 | for an id of the first list, de-duplication keeps an entry of that list |
| Search.UsersOfferedAsContacts | schat.js:3748-3813 | a user of the user list is offered as a contact |
| Search.CollectContacts | schat.js:3748-3759 | the step-1 loop builds the step-1 list |
| Search.CollectNonContacts | schat.js:3761-3773 | the step-2 loop builds the step-2 list |
| Search.CollectGroups | schat.js:3775-3784 | the step-3 loop builds the step-3 list |
| Search.CollectChats | schat.js:3786-3802 | the step-4 loop appends the step-4 entries |
| Search.Dedup | schat.js:3804-3813 | the de-duplication loop keeps the first entry of each id |
| Search.SearchableUsers | schat.js:3744-3813 | getAllSearchableUsers returns the de-duplicated candidate list |
| Client.App.constructor | schat.js:5-34 | a new client holds the initial state |
| Client.App.PutChat | schat.js:1222-1241 | storing a chat updates the map and key order as specified |
| Client.App.DeleteChat | schat.js:1800 | deleting a chat updates the map and key order as specified |
| Client.App.BlockUser | schat.js:259-276 | the object takes the blockUser state |
| Client.App.UnblockUser | schat.js:279-284 | the object takes the unblockUser state |
| Client.App.CloseChatView | schat.js:655-664 | the object takes the closeChatView state (the render at line 660 assumed to return) |
| Client.App.UpdateAllUnreadCounts | schat.js:3606-3612 | the object takes the updateAllUnreadCounts state |
| Client.App.MarkChatAsRead | schat.js:3615-3631 | the object takes the markChatAsRead state |
| Client.App.HandleNewChat | schat.js:3634-3654 | the object takes the handleNewChat state |
| Client.App.AcceptRequest | schat.js:1795-1827 | the object takes the acceptRequest state (the render at line 3653 assumed to return) |
| Client.App.DeclineRequest | schat.js:1831-1843 | the object takes the declineRequest state |
| Client.App.BlockUserRequest | schat.js:1847-1860 | the object takes the blockUserRequest state (the render at line 273 assumed to return) |
| Client.App.DropRequestChat | schat.js:1834-1839 | the request chat is deleted, and the view is closed when it was the open one |
| Client.App.AddNewContact | schat.js:1955-1995 | the object and the outcome are addNewContact's |
| Client.App.AddUserToContacts | schat.js:1222-1241 | the object takes the addUserToContacts state (the render at line 660 assumed to return) |
| Client.App.AddSearchUserToContacts | schat.js:3923-3943 | the object takes the addSearchUserToContacts state |
| Client.App.ChatWithoutAdding | schat.js:1255-1265 | the object takes the chatWithoutAdding state (the render at line 660 assumed to return) |
| Client.App.InitializeChats | schat.js:413-451 | the two loops build the initializeChats state |
| Client.App.UpdateGroupMembers | schat.js:4378-4393 | the object takes the updateGroupMembers state |
| Client.App.FindTargetById | schat.js:3312-3331 | the id search loop finds the same target as the id pass |
| Client.App.FindRecentTarget | schat.js:3346-3370 | the fallback loop finds the same target as the fallback pass |
| Client.App.ProcessIncomingReaction | schat.js:3307-3440 | the object takes the processIncomingReaction state, with the corrected write-back; `threw` reports exactly that debugReaction threw, in which case nothing changed |
| Client.App.AppendToChat | schat.js:1680-1731 | the object takes the append state, and `threw` reports exactly that the notification of the appended record threw |
| Client.App.AddToRequest | schat.js:1638-1667 | the object takes the request-chat state |
| Client.App.Route | schat.js:1630-1731 | the routing branches take the object to the routed state, and `threw` reports exactly that the routed append threw |
| Client.App.IngestRecord | schat.js:1562-1733 | one record's pass takes the object to the ingested state, and `threw` reports exactly that the pass threw |
| Client.App.ProcessNewMessages | schat.js:1558-1750 | the batch loop stops after the first record whose pass throws (`halted`) and leaves the object in the state of the batch up to that record |
| Client.App.SendMessage | schat.js:1456-1518 | the object and the outcome are sendMessage's (the render at line 1510 assumed to return) |
| Client.App.Deliver | schat.js:1490-1507 | the local push and the outgoing message are the send's (the render at line 1510 assumed to return) |
| Client.App.AddReaction | schat.js:2967-3025 | the object and the control message are addReaction's (the render at line 3021 assumed to return) |

## Left out

- Rendering, the DOM, modals, toasts, event listeners and the element cache: the UI. It writes to the state in three places, none of which the model replays: `renderMessages` passes each message through `loadSavedReactions` (schat.js:734), which overwrites the reactions of a message that has a `localId` with the map saved under it (3294-3303); `createMessageElement` gives such a message an empty reactions map when it has none (911); and it gives a message without a `localId` a new one (next line). So a rendered message's reactions are not reset to the saved map here, and `savedReactions` is only written, never read back.
- Every render is assumed to return. The card list reads `text.substring` of each listed chat's last message (schat.js:1291), and a message element reads the `text` of its message (888); both throw on a message without text, as a stored polled record is. Which chats are listed depends on the UI's section and filter, which are not modelled. The lines below name each member whose promise rests on a render returning, and the step the throw would skip.
- Lifecycle.CloseChatView: assumes the card render after deleting an empty temporary chat (schat.js:660) returns; if it throws, `currentChat = null` (662) is skipped and the view stays open, while the ensures states `currentChat` is None.
- Client.App.CloseChatView: assumes the render at schat.js:660 returns, as Lifecycle.CloseChatView does.
- Client.App.AddUserToContacts: assumes the render inside its `closeChatView` step (schat.js:1247, 660) returns; if the open chat is another empty temporary chat and that render throws, `currentChat` is not cleared, while the ensures clears it.
- Client.App.ChatWithoutAdding: assumes the render inside its `closeChatView` step (schat.js:1271, 660) returns; if it throws, `currentChat` is not cleared, while the ensures clears it.
- Lifecycle.AcceptRequestEffect: assumes the card render of `handleNewChat` (schat.js:3653) returns; the accepted chat's last message is the request's last record, so when it has no text that render throws, and `closeChatView` (1820-1822) and the render at 1825 are skipped: the request view stays open, while the ensures states it is closed.
- Client.App.AcceptRequest: assumes the render at schat.js:3653 returns, as Lifecycle.AcceptRequestEffect does.
- Lifecycle.BlockUserRequestEffect: assumes the card render of `blockUser` (schat.js:273) returns; when `request_<s>` is listed and its last message has no text it throws, and the delete of `request_<s>` with the view close (1850-1856) is skipped, while the ensures states the request chat is gone.
- Client.App.BlockUserRequest: assumes the render at schat.js:273 returns, as Lifecycle.BlockUserRequestEffect does.
- Ingest.SendMessage: assumes the card render after the local push (schat.js:1510) returns; if it throws, the message element, the input clear and `sendMessageToBackend` (1524) are skipped, so nothing is sent while the outcome is `Sent`; the pushed local copy and `lastActivity` precede the throw and stay as stated.
- Ingest.Deliver: assumes the render at schat.js:1510 returns, as Ingest.SendMessage does; its `Sent` outcome carries that assumption.
- Client.App.SendMessage: assumes the render at schat.js:1510 returns, as Ingest.SendMessage does.
- Client.App.Deliver: assumes the render at schat.js:1510 returns, as Ingest.SendMessage does.
- Ingest.AddReactionEffect: assumes `loadChatMessages` (schat.js:3021) returns; it renders every message of the open chat, so it throws when one has no text, and `saveMessageReactions` (3024) is skipped: `savedReactions` is then unchanged, while the ensures states the toggled map is saved. The toggle, the write-back and the control message precede the render and stay as stated.
- Ingest.AddReactionTwiceRestores: assumes `loadChatMessages` (schat.js:3021) returns on both calls; if it throws, the saved entry is left as it was rather than set to the original map. The restored chats do not depend on it.
- Ingest.AddReaction: assumes `loadChatMessages` (schat.js:3021) returns; if it throws, `savedReactions` is not written.
- Client.App.AddReaction: assumes `loadChatMessages` (schat.js:3021) returns, as Ingest.AddReaction does.
- ReactionTarget.FindByLocalId, Ingest.AddReaction, ReactionTarget.WriteBack: the `localId` that `createMessageElement` gives a rendered message without one (schat.js:905-907) is not modelled, so these see the `localId`s that ingestion and sending set; a message of a chat that was rendered may carry an id here absent.
- The network, push notifications, timers and logging: host facilities. One poll tick is one call of `ProcessNewMessages` with `now` passed in, and one `now` serves the whole batch.
- `localStorage` serialisation and its `JSON.parse` failures: storage is the two maps `lastRead` and `savedReactions`.
- Date parsing: records and messages carry their timestamps as milliseconds, and the ISO string enters only the shared id.
- The ordering JavaScript gives to integer-like object keys: `order` is plain insertion order.
- Aliasing: the source's shallow copies and in-place edits of shared message objects are modelled as values.
- The final `localeCompare` sort of `getAllSearchableUsers`: locale collation is a host service, so `Search.SearchableUsers` returns the de-duplicated list unsorted.
- The reply mode of `sendMessage` (`sendReplyMessage`): only its encoder is modelled (`Codec.EncodeReply`).
- `pendingMessages`, the request-badge and card-refresh flags, and the work after the batch loop (badge, chat cards, `loadChatMessages`): UI. A notification is modelled only as the exception it raises.
- The delayed `openChatView` calls after `addUserToContacts` and `chatWithoutAdding`: they run on a timer.
- The found-by-id log line (schat.js:3336) reads `text.substring` too; it runs only after `debugReaction` has read the text of every message, so it cannot throw then, and it is not modelled.
- Ingest.IncomingReaction, Client.App.ProcessIncomingReaction: apply the corrected write-back (`ReactionTarget.WriteBack`), not the one written at schat.js:3418-3425 (`ReactionTarget.WriteBackAsWritten`); the two differ only as the finding below shows.
- Lifecycle.HandleNewChat: the case of a first message whose timestamp is falsy (0) is treated like any other timestamp.
- Ingest.SendMessage: the two `new Date()` calls of the source are modelled as one instant (`now`, `nowIso`).
- Ingest.SentMessageNotDuplicated: is stated for an echo carrying the send time itself; the backend's own timestamp may differ by up to the duplicate window.
- Reactions.ToggleTwiceFromPresent: restores the whole map only when the user was the last to react with the emoji; otherwise it restores the count and the multiset of users, because the remove-then-push of the source reorders the user list.
- Search.FindMessageByContent: its ensures states only that a found index is in range; what it finds is stated by `Search.FindTiers` and `Search.FindNothingIff`.

## Findings

| source | as written | input that shows it | evidently intended | confidence | as-written member | corrected member |
|---|---|---|---|---|---|---|
| schat.js:3418-3425 | after applying a reaction, `findIndex(msg => msg.localId === targetMessage.localId)` writes the target over the first message with the same `localId`; when the target has none, as a decoded forward in a chat not yet rendered has none, that is the first message without one, which is lost | one chat, never rendered, holding two decoded forwards `a` and `b` with different contents (both have text and no `localId`), no stored message without text, and a reaction the time fallback aims at `b` | only the reacted message changes | not executed | ReactionTarget.WriteBackAsWritten, ReactionTarget.ClobberExample | ReactionTarget.WriteBack |
