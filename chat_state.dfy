/** The client's state object, and the two ways the chat map changes:
    storing a chat under a key and deleting a key. A JavaScript object keeps
    its string keys in insertion order, which `for (const chatId in chats)`
    follows; `order` records that order. */
module ChatState {
  import opened Utf16
  import opened ChatModel

  datatype State = State(
    currentUser: Option<Str>,
    currentChat: Option<Str>,
    chats: map<Str, Chat>,
    order: seq<Str>,
    users: seq<Str>,
    groups: seq<Str>,
    contacts: seq<Str>,
    /** The `sender` of each entry of messageRequests. */
    requests: seq<Str>,
    blocked: seq<Str>,
    whoCanMessage: Policy,
    /** Keys of the polled records already seen; None is the key undefined. */
    notifications: set<Option<Str>>,
    groupMembers: map<Str, set<Str>>,
    /** The read watermarks kept in storage, by chat id. */
    lastRead: map<Str, int>,
    /** The reaction maps saved to storage, by the message's localId. */
    savedReactions: map<Option<Str>, Reactions>)

  /** The key order lists each chat key once, and every chat is stored
      under its own id. */
  predicate Consistent(st: State) {
    && Distinct(st.order)
    && (forall k | k in st.order :: k in st.chats)
    && (forall k | k in st.chats :: k in st.order && st.chats[k].id == k)
  }

  /** `chats[k] = c`: a new key goes to the end of the order, an existing
      key keeps its place. */
  function PutChat(st: State, k: Str, c: Chat): (r: State)
    ensures r == st.(chats := r.chats, order := r.order)
    ensures r.chats == st.chats[k := c]
    ensures k in st.chats ==> r.order == st.order
    ensures k !in st.chats ==> r.order == st.order + [k]
  {
    st.(chats := st.chats[k := c], order := if k in st.chats then st.order else st.order + [k])
  }

  /** `delete chats[k]`. */
  function DeleteChat(st: State, k: Str): (r: State)
    ensures r == st.(chats := r.chats, order := r.order)
    ensures r.chats == st.chats - {k}
    ensures r.order == RemoveAll(st.order, k)
  {
    st.(chats := st.chats - {k}, order := RemoveAll(st.order, k))
  }

  /** Replace the chat stored under an existing key. */
  function SetChat(st: State, k: Str, c: Chat): (r: State)
    requires k in st.chats
    ensures r == st.(chats := st.chats[k := c])
  {
    PutChat(st, k, c)
  }

  lemma {:induction false} DistinctRemoveAll(xs: seq<Str>, x: Str)
    requires Distinct(xs)
    ensures Distinct(RemoveAll(xs, x))
  {
    if |xs| > 0 {
      DistinctRemoveAll(xs[1..], x);
      assert Distinct(xs[1..]) by {
        forall i, j | 0 <= i < j < |xs[1..]| ensures xs[1..][i] != xs[1..][j] {
          assert xs[1..][i] == xs[i + 1] && xs[1..][j] == xs[j + 1];
        }
      }
      if xs[0] != x {
        var r := RemoveAll(xs[1..], x);
        assert xs[0] !in r;
        var out: seq<Str> := [xs[0]] + r;
        forall i, j | 0 <= i < j < |out| ensures out[i] != out[j] {
          assert out[j] == r[j - 1];
          if i > 0 {
            assert out[i] == r[i - 1];
          }
        }
      }
    }
  }

  lemma DistinctAppend(xs: seq<Str>, x: Str)
    requires Distinct(xs) && x !in xs
    ensures Distinct(xs + [x])
  {
  }

  /** Storing a chat under its own id keeps the state consistent. */
  lemma PutChatConsistent(st: State, k: Str, c: Chat)
    requires Consistent(st) && c.id == k
    ensures Consistent(PutChat(st, k, c))
  {
    if k !in st.chats {
      DistinctAppend(st.order, k);
    }
  }

  /** Deleting a key keeps the state consistent. */
  lemma DeleteChatConsistent(st: State, k: Str)
    requires Consistent(st)
    ensures Consistent(DeleteChat(st, k))
  {
    DistinctRemoveAll(st.order, k);
  }

  /** Only the touched key changes. */
  lemma PutChatFrame(st: State, k: Str, c: Chat, other: Str)
    requires other != k
    ensures other in PutChat(st, k, c).chats <==> other in st.chats
    ensures other in st.chats ==> PutChat(st, k, c).chats[other] == st.chats[other]
  {
  }

  /** x occurs once in a list without repeats that contains it. */
  lemma {:induction false} OccurrencesOfDistinct(xs: seq<Str>, x: Str)
    requires Distinct(xs)
    ensures Occurrences(xs, x) == if x in xs then 1 else 0
  {
    if |xs| > 0 {
      assert Distinct(xs[1..]) by {
        forall i, j | 0 <= i < j < |xs[1..]| ensures xs[1..][i] != xs[1..][j] {
          assert xs[1..][i] == xs[i + 1] && xs[1..][j] == xs[j + 1];
        }
      }
      OccurrencesOfDistinct(xs[1..], x);
      if xs[0] == x {
        assert x !in xs[1..];
      } else {
        assert x in xs <==> x in xs[1..] by {
          assert xs == [xs[0]] + xs[1..];
        }
      }
    }
  }

  /** Removing an element that is absent from a list leaves the list as is. */
  lemma {:induction false} RemoveAllAbsent(xs: seq<Str>, x: Str)
    requires x !in xs
    ensures RemoveAll(xs, x) == xs
  {
    if |xs| > 0 {
      assert x !in xs[1..];
      RemoveAllAbsent(xs[1..], x);
      assert xs == [xs[0]] + xs[1..];
    }
  }

  /** Removing the last element pushed, when it was not there before,
      restores the list. */
  lemma {:induction false} RemoveAllPushed(xs: seq<Str>, x: Str)
    requires x !in xs
    ensures RemoveAll(xs + [x], x) == xs
  {
    if |xs| == 0 {
      assert RemoveAll([x], x) == RemoveAll([], x);
    } else {
      assert (xs + [x])[1..] == xs[1..] + [x];
      assert x !in xs[1..];
      RemoveAllPushed(xs[1..], x);
      assert xs == [xs[0]] + xs[1..];
    }
  }
}
