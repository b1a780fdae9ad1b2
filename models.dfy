/** The model layer: the queries and inserts of MessageModel and
    ConversationModel, run against the in-memory store. Readers are
    functions of a table's current contents; the two creating operations
    are methods that issue statements to the store. */
module CassandraModels {
  import opened Wrappers
  import opened SortedTable
  import opened Pagination
  import opened Schema
  import opened CassandraStore

  // ---------------------------------------------------------------------
  // MessageModel

  /** INSERT INTO messages; the uuid is the caller's, or else the freshly
      generated one. Returns the uuid used, or None when the store rejects
      the statement. */
  method CreateMessage(store: Store, conversationId: int, senderId: int, receiverId: int,
                       content: string, createdAt: int, messageId: Option<int>,
                       generatedUuid: int, fails: bool)
      returns (r: Option<int>)
    requires store.Valid()
    modifies store
    ensures store.Valid()
    ensures fails ==> r == None && store.Snapshot() == old(store.Snapshot())
    ensures !fails ==>
      && r == Some(if messageId.Some? then messageId.value else generatedUuid)
      && store.Snapshot() == ApplyWrite(old(store.Snapshot()),
           InsertMessage(Message(conversationId, createdAt, r.value, senderId, receiverId, content)))
  {
    var id := if messageId.None? then generatedUuid else messageId.value;
    var row := Message(conversationId, createdAt, id, senderId, receiverId, content);
    var ok := store.Execute(InsertMessage(row), fails);
    r := if ok then Some(id) else None;
  }

  /** The message insert adds the row under its key (replacing a row with
      the same conversation, timestamp and uuid, if any), keeps every other
      message, and touches neither conversation table. */
  lemma MessageInsertEffect(db: Tables, m: Message)
    requires ValidTables(db)
    ensures
      var r := ApplyWrite(db, InsertMessage(m));
      && m in r.messages
      && (forall x :: x in r.messages ==> x == m || x in db.messages)
      && (forall x :: x in db.messages && MessageKey(x) != MessageKey(m) ==> x in r.messages)
      && (!HasKey(db.messages, MessageKey(m), MessageKey) ==> |r.messages| == |db.messages| + 1)
      && r.conversations == db.conversations
      && r.userConversations == db.userConversations
  {
  }

  /** WHERE conversation_id = cid, in clustering order. */
  function ConversationPartition(messages: seq<Message>, cid: int): (r: seq<Message>)
    ensures forall m :: m in r ==> m in messages && m.conversationId == cid
    ensures forall m :: m in messages && m.conversationId == cid ==> m in r
    ensures Sorted(messages, MessageKey) ==> Sorted(r, MessageKey)
  {
    var inConversation := (m: Message) => m.conversationId == cid;
    FilterSorted(messages, inConversation, MessageKey);
    Filter(messages, inConversation)
  }

  /** WHERE conversation_id = cid AND created_at < before, in clustering order. */
  function EarlierPartition(messages: seq<Message>, cid: int, before: int): (r: seq<Message>)
    ensures forall m :: m in r ==> m in messages && m.conversationId == cid && m.createdAt < before
    ensures forall m :: m in messages && m.conversationId == cid && m.createdAt < before ==> m in r
    ensures Sorted(messages, MessageKey) ==> Sorted(r, MessageKey)
  {
    var earlier := (m: Message) => m.conversationId == cid && m.createdAt < before;
    FilterSorted(messages, earlier, MessageKey);
    Filter(messages, earlier)
  }

  /** get_conversation_messages: one page of the conversation's messages. */
  function GetConversationMessages(messages: seq<Message>, cid: int, page: int, limit: int)
      : (r: Option<seq<Message>>)
    ensures r.None? <==> page * limit <= 0 || page * limit > MaxLimit
    ensures r.Some? ==> forall m :: m in r.value ==> m in messages && m.conversationId == cid
    ensures page >= 1 && limit >= 1 && page * limit <= MaxLimit ==>
      r == Some(Segment(ConversationPartition(messages, cid), Offset(page, limit), limit))
  {
    var part := ConversationPartition(messages, cid);
    var r := Window(part, page, limit);
    assert r.Some? ==> forall m :: m in r.value ==> m in part;
    r
  }

  /** get_messages_before_timestamp: the window is taken after the strict
      timestamp filter. */
  function GetMessagesBeforeTimestamp(messages: seq<Message>, cid: int, before: int, page: int, limit: int)
      : (r: Option<seq<Message>>)
    ensures r.None? <==> page * limit <= 0 || page * limit > MaxLimit
    ensures r.Some? ==> forall m :: m in r.value ==>
      m in messages && m.conversationId == cid && m.createdAt < before
    ensures page >= 1 && limit >= 1 && page * limit <= MaxLimit ==>
      r == Some(Segment(EarlierPartition(messages, cid, before), Offset(page, limit), limit))
  {
    var part := EarlierPartition(messages, cid, before);
    var r := Window(part, page, limit);
    assert r.Some? ==> forall m :: m in r.value ==> m in part;
    r
  }

  lemma ConversationMessagesNewestFirst(messages: seq<Message>, cid: int, page: int, limit: int)
    requires Sorted(messages, MessageKey)
    ensures GetConversationMessages(messages, cid, page, limit).Some? ==>
      NewestFirst(GetConversationMessages(messages, cid, page, limit).value)
  {
    var part := ConversationPartition(messages, cid);
    WindowSorted(part, page, limit, MessageKey);
    var r := Window(part, page, limit);
    if r.Some? {
      MessageClusteringOrder(r.value, cid);
    }
  }

  lemma MessagesBeforeTimestampNewestFirst(messages: seq<Message>, cid: int, before: int, page: int, limit: int)
    requires Sorted(messages, MessageKey)
    ensures GetMessagesBeforeTimestamp(messages, cid, before, page, limit).Some? ==>
      NewestFirst(GetMessagesBeforeTimestamp(messages, cid, before, page, limit).value)
  {
    var part := EarlierPartition(messages, cid, before);
    WindowSorted(part, page, limit, MessageKey);
    var r := Window(part, page, limit);
    if r.Some? {
      MessageClusteringOrder(r.value, cid);
    }
  }

  // ---------------------------------------------------------------------
  // ConversationModel

  /** WHERE user_id = uid, in clustering order. */
  function UserPartition(views: seq<UserConversation>, uid: int): (r: seq<UserConversation>)
    ensures forall v :: v in r ==> v in views && v.userId == uid
    ensures forall v :: v in views && v.userId == uid ==> v in r
    ensures Sorted(views, UserConversationKey) ==> Sorted(r, UserConversationKey)
  {
    var ofUser := (v: UserConversation) => v.userId == uid;
    FilterSorted(views, ofUser, UserConversationKey);
    Filter(views, ofUser)
  }

  /** get_user_conversations: one page of the user's summary rows. */
  function GetUserConversations(views: seq<UserConversation>, uid: int, page: int, limit: int)
      : (r: Option<seq<UserConversation>>)
    ensures r.None? <==> page * limit <= 0 || page * limit > MaxLimit
    ensures r.Some? ==> forall v :: v in r.value ==> v in views && v.userId == uid
    ensures page >= 1 && limit >= 1 && page * limit <= MaxLimit ==>
      r == Some(Segment(UserPartition(views, uid), Offset(page, limit), limit))
  {
    var part := UserPartition(views, uid);
    var r := Window(part, page, limit);
    assert r.Some? ==> forall v :: v in r.value ==> v in part;
    r
  }

  lemma UserConversationsMostRecentFirst(views: seq<UserConversation>, uid: int, page: int, limit: int)
    requires Sorted(views, UserConversationKey)
    ensures GetUserConversations(views, uid, page, limit).Some? ==>
      MostRecentFirst(GetUserConversations(views, uid, page, limit).value)
  {
    var part := UserPartition(views, uid);
    WindowSorted(part, page, limit, UserConversationKey);
    var r := Window(part, page, limit);
    if r.Some? {
      UserConversationClusteringOrder(r.value, uid);
    }
  }

  /** get_conversation: the first row stored under the key, or None. */
  function GetConversationRow(conversations: seq<Conversation>, id: int): (r: Option<Conversation>)
    ensures r.Some? <==> exists c :: c in conversations && c.conversationId == id
    ensures r.Some? ==> r.value in conversations && r.value.conversationId == id
  {
    if conversations == [] then None
    else if conversations[0].conversationId == id then Some(conversations[0])
    else
      assert forall c :: c in conversations && c.conversationId == id ==> c in conversations[1..];
      GetConversationRow(conversations[1..], id)
  }

  /** Keys are unique, so the row found is the only row under the key. */
  lemma ConversationRowUnique(conversations: seq<Conversation>, c: Conversation)
    requires Sorted(conversations, ConversationKey)
    requires c in conversations
    ensures GetConversationRow(conversations, c.conversationId) == Some(c)
  {
    var r := GetConversationRow(conversations, c.conversationId).value;
    var i :| 0 <= i < |conversations| && conversations[i] == c;
    var j :| 0 <= j < |conversations| && conversations[j] == r;
    assert ConversationKey(c) == ConversationKey(r);
  }

  /** UPDATE ... SET last_message_at, last_message_content on a stored
      key: that row gets the two new values and keeps its participants;
      every other row stays as it was. */
  lemma SummaryUpdateEffect(t: seq<Conversation>, id: int, at: int, content: string)
    requires Sorted(t, ConversationKey)
    requires GetConversationRow(t, id).Some?
    ensures
      var u := SetSummary(t, id, at, content);
      && GetConversationRow(u, id) == Some(GetConversationRow(t, id).value.(lastMessageAt := at, lastMessageContent := content))
      && (forall c :: c in t && c.conversationId != id ==> c in u)
      && (forall c :: c in u && c.conversationId != id ==> c in t)
  {
    var u := SetSummary(t, id, at, content);
    assert Sorted(u, ConversationKey) by {
      assert forall i :: 0 <= i < |t| ==> ConversationKey(u[i]) == ConversationKey(t[i]);
    }
    var found := GetConversationRow(t, id).value;
    var i :| 0 <= i < |t| && t[i] == found;
    ConversationRowUnique(u, u[i]);
    forall c | c in t && c.conversationId != id ensures c in u {
      var j :| 0 <= j < |t| && t[j] == c;
      assert u[j] == c;
    }
    forall c | c in u && c.conversationId != id ensures c in t {
      var j :| 0 <= j < |u| && u[j] == c;
      assert t[j] == c;
    }
  }

  /** The conversation row is between a and b, in either order. */
  predicate Pairs(c: Conversation, a: int, b: int) {
    (c.user1Id == a && c.user2Id == b) || (c.user1Id == b && c.user2Id == a)
  }

  /** The OR of the lookup says: the row's participants, as an unordered
      pair, are a and b. */
  lemma PairsIsUnorderedPair(c: Conversation, a: int, b: int)
    ensures Pairs(c, a, b) <==> multiset{c.user1Id, c.user2Id} == multiset{a, b}
  {
    var p, q := multiset{c.user1Id, c.user2Id}, multiset{a, b};
    if p == q {
      assert a in p && b in p;
      if a == b {
        assert p[a] == 2;
      } else {
        assert q[a] == 1;
      }
    }
  }

  ghost predicate FirstPairAt(conversations: seq<Conversation>, a: int, b: int, i: int) {
    && 0 <= i < |conversations| && Pairs(conversations[i], a, b)
    && forall j :: 0 <= j < i ==> !Pairs(conversations[j], a, b)
  }

  /** SELECT conversation_id ... WHERE (user1_id = a AND user2_id = b) OR
      (user1_id = b AND user2_id = a) LIMIT 1, scanning in table order. */
  function FindConversation(conversations: seq<Conversation>, a: int, b: int): (r: Option<int>)
    ensures r.None? <==> forall c :: c in conversations ==> !Pairs(c, a, b)
    ensures r.Some? ==> exists i :: FirstPairAt(conversations, a, b, i) && conversations[i].conversationId == r.value
  {
    if conversations == [] then None
    else if Pairs(conversations[0], a, b) then
      assert FirstPairAt(conversations, a, b, 0);
      Some(conversations[0].conversationId)
    else
      var r := FindConversation(conversations[1..], a, b);
      assert conversations == [conversations[0]] + conversations[1..];
      assert r.Some? ==> exists i :: FirstPairAt(conversations, a, b, i) && conversations[i].conversationId == r.value by {
        if r.Some? {
          var i :| FirstPairAt(conversations[1..], a, b, i) && conversations[1..][i].conversationId == r.value;
          assert FirstPairAt(conversations, a, b, i + 1);
        }
      }
      r
  }

  /** The lookup treats the pair as unordered. */
  lemma {:induction false} FindConversationSymmetric(conversations: seq<Conversation>, a: int, b: int)
    ensures FindConversation(conversations, a, b) == FindConversation(conversations, b, a)
  {
    if conversations != [] {
      FindConversationSymmetric(conversations[1..], a, b);
    }
  }

  /** The lookup reads only the two user columns and the id. */
  lemma {:induction false} FindConversationIgnoresSummary(t: seq<Conversation>, u: seq<Conversation>, a: int, b: int)
    requires |t| == |u|
    requires forall i :: 0 <= i < |t| ==>
      t[i].conversationId == u[i].conversationId && t[i].user1Id == u[i].user1Id && t[i].user2Id == u[i].user2Id
    ensures FindConversation(t, a, b) == FindConversation(u, a, b)
  {
    if t != [] {
      FindConversationIgnoresSummary(t[1..], u[1..], a, b);
    }
  }

  /** The matched row, looked up by its id, is the row between a and b. */
  lemma FoundRow(conversations: seq<Conversation>, a: int, b: int)
    requires Sorted(conversations, ConversationKey)
    requires FindConversation(conversations, a, b).Some?
    ensures GetConversationRow(conversations, FindConversation(conversations, a, b).value).Some?
    ensures Pairs(GetConversationRow(conversations, FindConversation(conversations, a, b).value).value, a, b)
  {
    var id := FindConversation(conversations, a, b).value;
    var i :| FirstPairAt(conversations, a, b, i) && conversations[i].conversationId == id;
    ConversationRowUnique(conversations, conversations[i]);
  }

  datatype Resolution = Resolution(conversationId: int, conversations: seq<Conversation>)

  /** What create_or_get_conversation computes: the first row between the
      two users, or else a new row under candidateId with the users in
      argument order and an empty summary. */
  function Resolve(conversations: seq<Conversation>, user1Id: int, user2Id: int, candidateId: int, now: int)
      : (r: Resolution)
    requires Sorted(conversations, ConversationKey)
    ensures Sorted(r.conversations, ConversationKey)
    ensures FindConversation(r.conversations, user1Id, user2Id) == Some(r.conversationId)
    ensures FindConversation(r.conversations, user2Id, user1Id) == Some(r.conversationId)
    ensures GetConversationRow(r.conversations, r.conversationId).Some?
    ensures Pairs(GetConversationRow(r.conversations, r.conversationId).value, user1Id, user2Id)
    ensures FindConversation(conversations, user1Id, user2Id).Some? ==>
      r.conversations == conversations
    ensures FindConversation(conversations, user1Id, user2Id).None? ==>
      && r.conversationId == candidateId
      && GetConversationRow(r.conversations, candidateId)
         == Some(Conversation(candidateId, user1Id, user2Id, now, ""))
      && (forall c :: c in conversations && c.conversationId != candidateId ==> c in r.conversations)
      && (forall c :: c in r.conversations && c.conversationId != candidateId ==> c in conversations)
  {
    FindConversationSymmetric(conversations, user1Id, user2Id);
    match FindConversation(conversations, user1Id, user2Id)
    case Some(id) =>
      FoundRow(conversations, user1Id, user2Id);
      FindConversationSymmetric(conversations, user1Id, user2Id);
      Resolution(id, conversations)
    case None =>
      var row := Conversation(candidateId, user1Id, user2Id, now, "");
      var t := Upsert(conversations, row, ConversationKey);
      assert row in t;
      var found := FindConversation(t, user1Id, user2Id);
      assert found == Some(candidateId) by {
        var i :| FirstPairAt(t, user1Id, user2Id, i) && t[i].conversationId == found.value;
        assert t[i] in t;
      }
      FindConversationSymmetric(t, user1Id, user2Id);
      ConversationRowUnique(t, row);
      Resolution(candidateId, t)
  }

  /** At most one conversation row per unordered pair of users. */
  ghost predicate UniquePairs(conversations: seq<Conversation>) {
    forall x, y :: x in conversations && y in conversations && x != y ==> !Pairs(x, y.user1Id, y.user2Id)
  }

  /** Once a pair is resolved, resolving it again, in either order and with
      any candidate id, gives the same id and writes nothing. */
  lemma ResolveIsStable(conversations: seq<Conversation>, a: int, b: int, candidate: int, now: int,
                        nextCandidate: int, later: int)
    requires Sorted(conversations, ConversationKey)
    ensures
      var first := Resolve(conversations, a, b, candidate, now);
      var again := Resolve(first.conversations, b, a, nextCandidate, later);
      && again.conversationId == first.conversationId
      && again.conversations == first.conversations
  {
  }

  /** Sequential resolutions keep pairs unique: a new row is only created
      for a pair that has none. */
  lemma ResolveKeepsPairsUnique(conversations: seq<Conversation>, a: int, b: int, candidate: int, now: int)
    requires Sorted(conversations, ConversationKey)
    requires UniquePairs(conversations)
    ensures UniquePairs(Resolve(conversations, a, b, candidate, now).conversations)
  {
    var r := Resolve(conversations, a, b, candidate, now);
    if FindConversation(conversations, a, b).None? {
      var row := Conversation(candidate, a, b, now, "");
      assert r.conversations == Upsert(conversations, row, ConversationKey);
      forall x, y | x in r.conversations && y in r.conversations && x != y
        ensures !Pairs(x, y.user1Id, y.user2Id)
      {
        if x == row {
          assert !Pairs(y, a, b);
        } else if y == row {
          assert !Pairs(x, a, b);
        }
      }
    }
  }

  /** The candidate id is not checked for freshness: when it is already the
      id of another pair's conversation, the insert overwrites that row. */
  lemma ResolveCollisionOverwrites(conversations: seq<Conversation>, a: int, b: int, now: int, c: Conversation)
    requires Sorted(conversations, ConversationKey)
    requires FindConversation(conversations, a, b).None?
    requires c in conversations
    ensures
      var r := Resolve(conversations, a, b, c.conversationId, now);
      && c !in r.conversations
      && |r.conversations| == |conversations|
  {
    var row := Conversation(c.conversationId, a, b, now, "");
    assert !Pairs(c, a, b);
    assert HasKey(conversations, ConversationKey(row), ConversationKey);
  }

  /** create_or_get_conversation against the store. lookupFails and
      insertFails say whether the store rejects the SELECT or the INSERT;
      a rejected statement surfaces as None. */
  method CreateOrGetConversation(store: Store, user1Id: int, user2Id: int, candidateId: int, now: int,
                                 lookupFails: bool, insertFails: bool)
      returns (r: Option<int>)
    requires store.Valid()
    modifies store
    ensures store.Valid()
    ensures
      var found := FindConversation(old(store.conversations), user1Id, user2Id);
      var res := Resolve(old(store.conversations), user1Id, user2Id, candidateId, now);
      if lookupFails || (found.None? && insertFails)
      then r == None && store.Snapshot() == old(store.Snapshot())
      else r == Some(res.conversationId) && store.Snapshot() == old(store.Snapshot()).(conversations := res.conversations)
  {
    if lookupFails {
      return None;
    }
    var found := FindConversation(store.conversations, user1Id, user2Id);
    if found.Some? {
      return found;
    }
    var ok := store.Execute(InsertConversation(Conversation(candidateId, user1Id, user2Id, now, "")), insertFails);
    r := if ok then Some(candidateId) else None;
  }
}
