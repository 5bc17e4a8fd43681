/** The reaction map of one message: the remote apply of processIncomingReaction
    and the local toggle of addReaction. Both first create an absent emoji as
    {count: 0, users: []}; removing at index i splices users and decrements
    count, deleting the emoji when count reaches 0. */
module Reactions {
  import opened Utf16
  import opened ChatModel

  /** The emoji's entry, or the fresh {count: 0, users: []} the code creates. */
  function Entry(rs: Reactions, emoji: Str): Reaction {
    if emoji in rs then rs[emoji] else Reaction(0, [])
  }

  /** Every emoji but `emoji` has the same entry, or none, in both maps. */
  ghost predicate KeepsOthers(rs: Reactions, r: Reactions, emoji: Str) {
    && (forall k | k != emoji :: k in r <==> k in rs)
    && (forall k | k != emoji && k in rs :: r[k] == rs[k])
  }

  /** users.splice(i, 1) */
  function RemoveAt(xs: seq<Str>, i: nat): (r: seq<Str>)
    requires i < |xs|
    ensures |r| == |xs| - 1
    ensures multiset(r) == multiset(xs) - multiset{xs[i]}
  {
    assert xs == xs[..i] + [xs[i]] + xs[i + 1..];
    xs[..i] + xs[i + 1..]
  }

  /** The remove branch shared by both operations, for a user at index i of
      the emoji's users. */
  function RemoveUser(rs: Reactions, emoji: Str, i: nat): (r: Reactions)
    requires i < |Entry(rs, emoji).users|
    ensures KeepsOthers(rs, r, emoji)
  {
    var e := Entry(rs, emoji);
    var e' := Reaction(e.count - 1, RemoveAt(e.users, i));
    if e'.count == 0 then rs - {emoji} else rs[emoji := e']
  }

  /** The push branch shared by both operations. */
  function AddUser(rs: Reactions, emoji: Str, user: Str): (r: Reactions)
    ensures KeepsOthers(rs, r, emoji)
  {
    var e := Entry(rs, emoji);
    rs[emoji := Reaction(e.count + 1, e.users + [user])]
  }

  /** The reaction update of processIncomingReaction: 'add' pushes a user not
      yet present, 'remove' splices a present one, anything else only leaves
      the (possibly new, empty) entry behind. */
  function Incoming(rs: Reactions, emoji: Str, user: Str, action: Str): (r: Reactions)
    ensures KeepsOthers(rs, r, emoji)
    ensures action != AddAction() && action != RemoveAction() ==> r == rs[emoji := Entry(rs, emoji)]
  {
    var e := Entry(rs, emoji);
    var rs1 := rs[emoji := e];
    if action == AddAction() then
      if user in e.users then rs1 else AddUser(rs1, emoji, user)
    else if action == RemoveAction() then
      var i := IndexOf(e.users, user);
      if i < 0 then rs1 else RemoveUser(rs1, emoji, i)
    else rs1
  }

  /** The local toggle of addReaction: the new map and the action sent to
      the backend. */
  function Toggle(rs: Reactions, emoji: Str, user: Str): (r: (Reactions, Str))
    ensures r.1 == (if user in Entry(rs, emoji).users then RemoveAction() else AddAction())
  {
    var e := Entry(rs, emoji);
    var rs1 := rs[emoji := e];
    var i := IndexOf(e.users, user);
    if i >= 0 then (RemoveUser(rs1, emoji, i), RemoveAction())
    else (AddUser(rs1, emoji, user), AddAction())
  }

  /** Each entry's count is the number of its users, who are distinct. */
  predicate WellFormed(rs: Reactions) {
    forall emoji | emoji in rs :: rs[emoji].count == |rs[emoji].users| && Distinct(rs[emoji].users)
  }

  /** The local toggle sends exactly the action whose remote apply reproduces
      the toggled map, so a peer holding the same map converges with it. */
  lemma ToggleAgreesWithIncoming(rs: Reactions, emoji: Str, user: Str)
    ensures var (rs', action) := Toggle(rs, emoji, user);
            && action == (if user in Entry(rs, emoji).users then RemoveAction() else AddAction())
            && rs' == Incoming(rs, emoji, user, action)
  {
    assert AddAction() != RemoveAction() by {
      assert |AddAction()| != |RemoveAction()|;
    }
  }

  /** 'add' by a user already listed changes nothing. */
  lemma AddPresentIsNoOp(rs: Reactions, emoji: Str, user: Str)
    requires emoji in rs && user in rs[emoji].users
    ensures Incoming(rs, emoji, user, AddAction()) == rs
  {
  }

  /** 'add' is idempotent. */
  lemma AddIdempotent(rs: Reactions, emoji: Str, user: Str)
    ensures var once := Incoming(rs, emoji, user, AddAction());
            Incoming(once, emoji, user, AddAction()) == once
  {
    var once := Incoming(rs, emoji, user, AddAction());
    assert emoji in once && user in once[emoji].users;
    AddPresentIsNoOp(once, emoji, user);
  }

  /** 'remove' by a user not listed changes nothing when the emoji is there. */
  lemma RemoveAbsentIsNoOp(rs: Reactions, emoji: Str, user: Str)
    requires emoji in rs && user !in rs[emoji].users
    ensures Incoming(rs, emoji, user, RemoveAction()) == rs
  {
    assert AddAction() != RemoveAction() by {
      assert |AddAction()| != |RemoveAction()|;
    }
  }

  /** A 'remove', or an unrecognised action, for an emoji the message has no
      entry for leaves an empty {count: 0, users: []} entry behind. */
  lemma MissingEmojiLeavesEmptyEntry(rs: Reactions, emoji: Str, user: Str, action: Str)
    requires emoji !in rs && action != AddAction()
    ensures Incoming(rs, emoji, user, action) == rs[emoji := Reaction(0, [])]
  {
  }

  /** A successful 'add' or 'remove' moves count and the number of users
      together by one; a remove that brings count to 0 deletes the emoji. */
  lemma IncomingStepsByOne(rs: Reactions, emoji: Str, user: Str, action: Str)
    ensures var e := Entry(rs, emoji);
            var r := Incoming(rs, emoji, user, action);
            && (action == AddAction() && user !in e.users ==>
                  r[emoji] == Reaction(e.count + 1, e.users + [user]))
            && (action == RemoveAction() && user in e.users ==>
                  if e.count == 1 then emoji !in r
                  else emoji in r && r[emoji].count == e.count - 1
                       && |r[emoji].users| == |e.users| - 1
                       && multiset(r[emoji].users) == multiset(e.users) - multiset{user})
  {
    assert AddAction() != RemoveAction() by {
      assert |AddAction()| != |RemoveAction()|;
    }
  }

  lemma DistinctRemoveAt(xs: seq<Str>, i: nat)
    requires i < |xs| && Distinct(xs)
    ensures Distinct(RemoveAt(xs, i)) && xs[i] !in RemoveAt(xs, i)
  {
    var r := RemoveAt(xs, i);
    forall a, b | 0 <= a < b < |r| ensures r[a] != r[b] {
      var a' := if a < i then a else a + 1;
      var b' := if b < i then b else b + 1;
      assert r[a] == xs[a'] && r[b] == xs[b'];
    }
    forall a | 0 <= a < |r| ensures r[a] != xs[i] {
      assert r[a] == xs[if a < i then a else a + 1];
    }
  }

  lemma DistinctAppend(xs: seq<Str>, x: Str)
    requires Distinct(xs) && x !in xs
    ensures Distinct(xs + [x])
  {
  }

  /** Both updates keep every count equal to its number of distinct users. */
  lemma IncomingPreservesWellFormed(rs: Reactions, emoji: Str, user: Str, action: Str)
    requires WellFormed(rs)
    ensures WellFormed(Incoming(rs, emoji, user, action))
  {
    var e := Entry(rs, emoji);
    if action == RemoveAction() {
      var i := IndexOf(e.users, user);
      if i >= 0 {
        DistinctRemoveAt(e.users, i);
      }
    } else if action == AddAction() && user !in e.users {
      DistinctAppend(e.users, user);
    }
  }

  lemma TogglePreservesWellFormed(rs: Reactions, emoji: Str, user: Str)
    requires WellFormed(rs)
    ensures WellFormed(Toggle(rs, emoji, user).0)
  {
    ToggleAgreesWithIncoming(rs, emoji, user);
    IncomingPreservesWellFormed(rs, emoji, user, Toggle(rs, emoji, user).1);
  }

  lemma ToggleWhenAbsent(rs: Reactions, emoji: Str, user: Str)
    requires user !in Entry(rs, emoji).users
    ensures var e := Entry(rs, emoji);
            Toggle(rs, emoji, user).0 == rs[emoji := Reaction(e.count + 1, e.users + [user])]
  {
  }

  lemma ToggleWhenPresent(rs: Reactions, emoji: Str, user: Str)
    requires emoji in rs && user in rs[emoji].users && rs[emoji].count != 1
    ensures var e := rs[emoji];
            var i := IndexOf(e.users, user);
            Toggle(rs, emoji, user).0 == rs[emoji := Reaction(e.count - 1, RemoveAt(e.users, i))]
  {
  }

  lemma IndexOfLast(xs: seq<Str>, x: Str)
    requires x !in xs
    ensures IndexOf(xs + [x], x) == |xs|
  {
  }

  lemma UndoAppend(rs: Reactions, emoji: Str, user: Str, e: Reaction)
    requires user !in e.users && e.count + 1 != 1
    ensures var once := rs[emoji := Reaction(e.count + 1, e.users + [user])];
            Toggle(once, emoji, user).0 == rs[emoji := e]
  {
    var u := e.users + [user];
    var once := rs[emoji := Reaction(e.count + 1, u)];
    IndexOfLast(e.users, user);
    RemoveLast(e.users, user);
    ToggleAt(once, emoji, user, Reaction(e.count + 1, u), |e.users|);
    assert Reaction(e.count, e.users) == e;
    Overwrite(rs, emoji, Reaction(e.count + 1, u), e);
  }

  lemma Overwrite(rs: Reactions, emoji: Str, x: Reaction, y: Reaction)
    ensures rs[emoji := x][emoji := y] == rs[emoji := y]
  {
  }

  /** The remove branch of the toggle, for a known entry and index. */
  lemma ToggleAt(rs: Reactions, emoji: Str, user: Str, x: Reaction, i: nat)
    requires emoji in rs && rs[emoji] == x && x.count != 1
    requires i < |x.users| && IndexOf(x.users, user) == i
    ensures Toggle(rs, emoji, user).0 == rs[emoji := Reaction(x.count - 1, RemoveAt(x.users, i))]
  {
    assert Entry(rs, emoji) == x && rs[emoji := x] == rs;
  }

  lemma RemoveLast(xs: seq<Str>, x: Str)
    ensures RemoveAt(xs + [x], |xs|) == xs
  {
    assert (xs + [x])[..|xs|] == xs;
  }

  lemma UndoCreate(rs: Reactions, emoji: Str, user: Str)
    requires emoji !in rs
    ensures Toggle(rs[emoji := Reaction(1, [user])], emoji, user).0 == rs
  {
    var once := rs[emoji := Reaction(1, [user])];
    assert IndexOf([user], user) == 0;
    assert Toggle(once, emoji, user).0 == once - {emoji};
    assert once - {emoji} == rs;
  }

  /** Toggling twice restores the map exactly when the user had not reacted
      with the emoji and the emoji had no empty entry. */
  lemma ToggleTwiceFromAbsent(rs: Reactions, emoji: Str, user: Str)
    requires WellFormed(rs) && user !in Entry(rs, emoji).users
    requires emoji !in rs || rs[emoji].count > 0
    ensures Toggle(Toggle(rs, emoji, user).0, emoji, user).0 == rs
  {
    if emoji in rs {
      TwiceFromListed(rs, emoji, user);
    } else {
      TwiceFromUnlisted(rs, emoji, user);
    }
  }

  /** The first toggle pushed the user onto an existing entry. */
  lemma TwiceFromListed(rs: Reactions, emoji: Str, user: Str)
    requires emoji in rs && user !in rs[emoji].users && rs[emoji].count > 0
    ensures Toggle(Toggle(rs, emoji, user).0, emoji, user).0 == rs
  {
    var e := rs[emoji];
    ToggleWhenAbsent(rs, emoji, user);
    var once := rs[emoji := Reaction(e.count + 1, e.users + [user])];
    assert Toggle(rs, emoji, user).0 == once;
    UndoAppend(rs, emoji, user, e);
    assert Toggle(once, emoji, user).0 == rs[emoji := e] == rs;
  }

  /** The first toggle created the emoji's entry. */
  lemma TwiceFromUnlisted(rs: Reactions, emoji: Str, user: Str)
    requires emoji !in rs
    ensures Toggle(Toggle(rs, emoji, user).0, emoji, user).0 == rs
  {
    ToggleWhenAbsent(rs, emoji, user);
    assert Entry(rs, emoji).users + [user] == [user];
    UndoCreate(rs, emoji, user);
  }

  lemma ToggleWhenLast(rs: Reactions, emoji: Str, user: Str)
    requires emoji in rs && user in rs[emoji].users && rs[emoji].count == 1
    ensures Toggle(rs, emoji, user).0 == rs - {emoji}
  {
  }

  /** Pushing the user back onto the entry left by the first toggle, in the
      branch where that toggle kept the entry. */
  lemma PushBackKept(rs: Reactions, emoji: Str, user: Str, e: Reaction, rest: seq<Str>)
    requires user !in rest && e.count != 1
    ensures var once := rs[emoji := Reaction(e.count - 1, rest)];
            Toggle(once, emoji, user).0 == rs[emoji := Reaction(e.count, rest + [user])]
  {
    var once := rs[emoji := Reaction(e.count - 1, rest)];
    ToggleWhenAbsent(once, emoji, user);
    assert once[emoji := Reaction(e.count, rest + [user])] == rs[emoji := Reaction(e.count, rest + [user])];
  }

  /** Pushing the user back after the first toggle deleted the entry. */
  lemma PushBackDeleted(rs: Reactions, emoji: Str, user: Str)
    ensures Toggle(rs - {emoji}, emoji, user).0 == rs[emoji := Reaction(1, [user])]
  {
    var once := rs - {emoji};
    assert Entry(once, emoji) == Reaction(0, []);
    ToggleWhenAbsent(once, emoji, user);
    assert [] + [user] == [user];
    assert once[emoji := Reaction(1, [user])] == rs[emoji := Reaction(1, [user])];
  }

  /** Toggling a present user twice moves them to the end of the emoji's users. */
  lemma TwiceFromPresentShape(rs: Reactions, emoji: Str, user: Str)
    requires emoji in rs && user in rs[emoji].users
    requires rs[emoji].count == |rs[emoji].users| && Distinct(rs[emoji].users)
    ensures var e := rs[emoji];
            var rest := RemoveAt(e.users, IndexOf(e.users, user));
            Toggle(Toggle(rs, emoji, user).0, emoji, user).0 == rs[emoji := Reaction(e.count, rest + [user])]
  {
    var e := rs[emoji];
    var i := IndexOf(e.users, user);
    DistinctRemoveAt(e.users, i);
    if e.count == 1 {
      TwiceFromSole(rs, emoji, user, RemoveAt(e.users, i));
    } else {
      TwiceFromShared(rs, emoji, user, RemoveAt(e.users, i));
    }
  }

  /** The user was the emoji's only reactor: the entry goes and comes back. */
  lemma TwiceFromSole(rs: Reactions, emoji: Str, user: Str, rest: seq<Str>)
    requires emoji in rs && user in rs[emoji].users && rs[emoji].count == 1
    requires |rest| == 0
    ensures Toggle(Toggle(rs, emoji, user).0, emoji, user).0 == rs[emoji := Reaction(1, rest + [user])]
  {
    ToggleWhenLast(rs, emoji, user);
    assert rest + [user] == [user];
    PushBackDeleted(rs, emoji, user);
  }

  /** Others reacted too: the entry shrinks and the user is pushed back last. */
  lemma TwiceFromShared(rs: Reactions, emoji: Str, user: Str, rest: seq<Str>)
    requires emoji in rs && user in rs[emoji].users && rs[emoji].count != 1
    requires rest == RemoveAt(rs[emoji].users, IndexOf(rs[emoji].users, user)) && user !in rest
    ensures Toggle(Toggle(rs, emoji, user).0, emoji, user).0 == rs[emoji := Reaction(rs[emoji].count, rest + [user])]
  {
    ToggleWhenPresent(rs, emoji, user);
    PushBackKept(rs, emoji, user, rs[emoji], rest);
  }

  /** Removing the element at i and pushing it back keeps the multiset, and
      gives back the same list when i was the last index. */
  lemma RemoveAtThenPush(xs: seq<Str>, i: nat)
    requires i < |xs|
    ensures multiset(RemoveAt(xs, i) + [xs[i]]) == multiset(xs)
    ensures i == |xs| - 1 ==> RemoveAt(xs, i) + [xs[i]] == xs
  {
    if i == |xs| - 1 {
      assert xs == xs[..i] + [xs[i]];
    }
  }

  /** In a list without repeats, a user found at the last position is found
      there by IndexOf. */
  lemma IndexOfAtEnd(xs: seq<Str>, x: Str)
    requires Distinct(xs) && |xs| > 0 && xs[|xs| - 1] == x
    ensures IndexOf(xs, x) == |xs| - 1
  {
  }

  /** Rewriting an entry with its own count and a rearrangement of its
      users restores the multiset, and the whole map when nothing moved. */
  lemma RewriteEntry(rs: Reactions, emoji: Str, users: seq<Str>, twice: Reactions)
    requires emoji in rs && twice == rs[emoji := Reaction(rs[emoji].count, users)]
    ensures emoji in twice && twice[emoji].count == rs[emoji].count
    ensures twice[emoji].users == users
    ensures users == rs[emoji].users ==> twice == rs
  {
  }

  /** Toggling twice a user who had reacted restores the emoji's count and
      its users as a multiset; the order of users is restored exactly when
      the user was the last to react. */
  lemma ToggleTwiceFromPresent(rs: Reactions, emoji: Str, user: Str)
    requires WellFormed(rs) && emoji in rs && user in rs[emoji].users
    ensures var twice := Toggle(Toggle(rs, emoji, user).0, emoji, user).0;
            && emoji in twice && twice[emoji].count == rs[emoji].count
            && multiset(twice[emoji].users) == multiset(rs[emoji].users)
            && (rs[emoji].users[|rs[emoji].users| - 1] == user ==> twice == rs)
  {
    var e := rs[emoji];
    var i := IndexOf(e.users, user);
    var twice := Toggle(Toggle(rs, emoji, user).0, emoji, user).0;
    TwiceFromPresentShape(rs, emoji, user);
    RemoveAtThenPush(e.users, i);
    if e.users[|e.users| - 1] == user {
      IndexOfAtEnd(e.users, user);
    }
    RewriteEntry(rs, emoji, RemoveAt(e.users, i) + [user], twice);
  }
}
