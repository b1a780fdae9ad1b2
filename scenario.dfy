/** A first contact and its reply: two users with no earlier
    conversation exchange "hi" and "hey". */
module Scenario {
  import opened Wrappers
  import opened SortedTable
  import opened Schema
  import opened CassandraStore
  import opened MessageController
  import opened SendProperties
  import Pagination
  import Models = CassandraModels

  /** The first send creates the conversation row with the users in
      argument order. */
  lemma FirstResolves(conversations: seq<Conversation>, c: int, now: int)
    requires conversations == []
    ensures Sorted(conversations, ConversationKey)
    ensures Models.Resolve(conversations, 1, 2, c, now) == Models.Resolution(c, [Conversation(c, 1, 2, now, "")])
  {
  }

  /** The first send's two summary rows, sender first. */
  lemma FirstIndex(views: seq<UserConversation>, req: SendRequest, c: int, t: int)
    requires views == []
    requires req == SendRequest(1, 2, "hi")
    ensures Sorted(views, UserConversationKey)
    ensures IndexRows(req, c, t) == [UserConversation(1, c, 2, t, "hi"), UserConversation(2, c, 1, t, "hi")]
    ensures Upsert(Upsert(views, UserConversation(1, c, 2, t, "hi"), UserConversationKey),
                   UserConversation(2, c, 1, t, "hi"), UserConversationKey)
      == [UserConversation(1, c, 2, t, "hi"), UserConversation(2, c, 1, t, "hi")]
  {
    var a1 := UserConversation(1, c, 2, t, "hi");
    var b1 := UserConversation(2, c, 1, t, "hi");
    assert Upsert([], a1, UserConversationKey) == [a1];
    assert [a1][1..] == [];
  }

  /** After "hi" from user 1 to user 2 on an empty store. */
  lemma FirstSendTables(db: Tables, req: SendRequest, env: SendEnv, accepts: MessageResponse -> bool)
    requires db == Tables([], [], [])
    requires req == SendRequest(1, 2, "hi")
    ensures
      var c, t := env.candidateId, env.now;
      Send(db, req, env, None, accepts).db
      == Tables([Conversation(c, 1, 2, t, "hi")],
                [UserConversation(1, c, 2, t, "hi"), UserConversation(2, c, 1, t, "hi")],
                [Message(c, t, env.messageUuid, 1, 2, "hi")])
  {
    var c, t := env.candidateId, env.now;
    FirstResolves(db.conversations, c, env.resolvedAt);
    FirstIndex(db.userConversations, req, c, t);
    UpsertAllPair(db.userConversations, UserConversation(1, c, 2, t, "hi"),
                  UserConversation(2, c, 1, t, "hi"), UserConversationKey);
    assert Upsert(db.messages, Message(c, t, env.messageUuid, 1, 2, "hi"), MessageKey)
      == [Message(c, t, env.messageUuid, 1, 2, "hi")];
    SendWithoutFault(db, req, env, accepts);
  }

  /** The reply finds the conversation of the first send. */
  lemma ReplyResolves(conversations: seq<Conversation>, c: int, t1: int, candidate: int, now: int)
    requires conversations == [Conversation(c, 1, 2, t1, "hi")]
    ensures Sorted(conversations, ConversationKey)
    ensures Models.Resolve(conversations, 2, 1, candidate, now) == Models.Resolution(c, conversations)
  {
    assert Models.FindConversation(conversations, 2, 1) == Some(c);
  }

  /** The reply's summary update of the conversation row. */
  lemma ReplySummary(conversations: seq<Conversation>, c: int, t1: int, t2: int)
    requires conversations == [Conversation(c, 1, 2, t1, "hi")]
    ensures SetSummary(conversations, c, t2, "hey") == [Conversation(c, 1, 2, t2, "hey")]
  {
  }

  /** The reply's message sorts before the earlier one. */
  lemma ReplyMessages(messages: seq<Message>, m1: Message, m2: Message)
    requires messages == [m1]
    requires m1.conversationId == m2.conversationId && m1.createdAt < m2.createdAt
    ensures Sorted(messages, MessageKey)
    ensures Upsert(messages, m2, MessageKey) == [m2, m1]
  {
  }

  /** The receiver's new row goes after the sender's old one and before
      its own older one. */
  lemma ReplyIndexReceiver(a1: UserConversation, b1: UserConversation, b2: UserConversation)
    requires KeyLess(UserConversationKey(a1), UserConversationKey(b2))
    requires KeyLess(UserConversationKey(b2), UserConversationKey(b1))
    requires KeyLess(UserConversationKey(a1), UserConversationKey(b1))
    ensures Sorted([a1, b1], UserConversationKey)
    ensures Upsert([a1, b1], b2, UserConversationKey) == [a1, b2, b1]
  {
    assert [a1, b1][1..] == [b1];
    SortedTail([a1, b1], UserConversationKey);
  }

  /** The sender's new row goes first. */
  lemma ReplyIndexSender(rows: seq<UserConversation>, a2: UserConversation)
    requires Sorted(rows, UserConversationKey) && rows != []
    requires KeyLess(UserConversationKey(a2), UserConversationKey(rows[0]))
    ensures Upsert(rows, a2, UserConversationKey) == [a2] + rows
  {
  }

  /** The reply's two summary rows join the first send's, newest first in
      each user's partition. */
  lemma ReplyIndex(views: seq<UserConversation>, req: SendRequest, c: int, t1: int, t2: int)
    requires views == [UserConversation(1, c, 2, t1, "hi"), UserConversation(2, c, 1, t1, "hi")]
    requires req == SendRequest(2, 1, "hey")
    requires t1 < t2
    ensures Sorted(views, UserConversationKey)
    ensures IndexRows(req, c, t2) == [UserConversation(2, c, 1, t2, "hey"), UserConversation(1, c, 2, t2, "hey")]
    ensures Upsert(Upsert(views, UserConversation(2, c, 1, t2, "hey"), UserConversationKey),
                   UserConversation(1, c, 2, t2, "hey"), UserConversationKey)
      == [UserConversation(1, c, 2, t2, "hey"), UserConversation(1, c, 2, t1, "hi"),
          UserConversation(2, c, 1, t2, "hey"), UserConversation(2, c, 1, t1, "hi")]
  {
    var a1 := UserConversation(1, c, 2, t1, "hi");
    var b1 := UserConversation(2, c, 1, t1, "hi");
    var a2 := UserConversation(1, c, 2, t2, "hey");
    var b2 := UserConversation(2, c, 1, t2, "hey");
    ReplyIndexReceiver(a1, b1, b2);
    var middle := Upsert([a1, b1], b2, UserConversationKey);
    ReplyIndexSender(middle, a2);
  }

  /** After "hey" from user 2 to user 1, later than the first message. */
  lemma ReplyTables(db: Tables, req: SendRequest, env: SendEnv, c: int, t1: int, u1: int,
                    accepts: MessageResponse -> bool)
    requires db == Tables([Conversation(c, 1, 2, t1, "hi")],
                          [UserConversation(1, c, 2, t1, "hi"), UserConversation(2, c, 1, t1, "hi")],
                          [Message(c, t1, u1, 1, 2, "hi")])
    requires req == SendRequest(2, 1, "hey")
    requires t1 < env.now
    ensures ValidTables(db)
    ensures ResolvedId(db, req, env) == c
    ensures
      var t2 := env.now;
      Send(db, req, env, None, accepts).db
      == Tables([Conversation(c, 1, 2, t2, "hey")],
                [UserConversation(1, c, 2, t2, "hey"), UserConversation(1, c, 2, t1, "hi"),
                 UserConversation(2, c, 1, t2, "hey"), UserConversation(2, c, 1, t1, "hi")],
                [Message(c, t2, env.messageUuid, 2, 1, "hey"), Message(c, t1, u1, 1, 2, "hi")])
  {
    ReplyResolves(db.conversations, c, t1, env.candidateId, env.resolvedAt);
    ReplySummary(db.conversations, c, t1, env.now);
    ReplyMessages(db.messages, Message(c, t1, u1, 1, 2, "hi"), Message(c, env.now, env.messageUuid, 2, 1, "hey"));
    ReplyIndex(db.userConversations, req, c, t1, env.now);
    UpsertAllPair(db.userConversations, UserConversation(2, c, 1, env.now, "hey"),
                  UserConversation(1, c, 2, env.now, "hey"), UserConversationKey);
    SendWithoutFault(db, req, env, accepts);
  }

  /** The first page of the conversation's messages after both sends. */
  lemma ScenarioMessagePage(c: int, t1: int, u1: int, t2: int, u2: int)
    ensures
      var m1 := Message(c, t1, u1, 1, 2, "hi");
      var m2 := Message(c, t2, u2, 2, 1, "hey");
      Models.GetConversationMessages([m2, m1], c, 1, 20) == Some([m2, m1])
  {
    var m1 := Message(c, t1, u1, 1, 2, "hi");
    var m2 := Message(c, t2, u2, 2, 1, "hey");
    var part := Models.ConversationPartition([m2, m1], c);
    assert |part| == 2 by {
      assert forall m :: m in part ==> m == m1 || m == m2;
      assert m1 in part && m2 in part;
      assert |Filter([m1], (m: Message) => m.conversationId == c)| <= 1;
    }
    assert part == [m2, m1];
    assert Pagination.Offset(1, 20) == 0;
  }

  /** User 1's summary rows after both sends. */
  lemma ScenarioListing(c: int, t1: int, t2: int)
    ensures
      var a1 := UserConversation(1, c, 2, t1, "hi");
      var b1 := UserConversation(2, c, 1, t1, "hi");
      var a2 := UserConversation(1, c, 2, t2, "hey");
      var b2 := UserConversation(2, c, 1, t2, "hey");
      Models.UserPartition([a2, a1, b2, b1], 1) == [a2, a1]
  {
    var a1 := UserConversation(1, c, 2, t1, "hi");
    var b1 := UserConversation(2, c, 1, t1, "hi");
    var a2 := UserConversation(1, c, 2, t2, "hey");
    var b2 := UserConversation(2, c, 1, t2, "hey");
    var ofUser := (v: UserConversation) => v.userId == 1;
    assert [a2, a1, b2, b1][1..] == [a1, b2, b1];
    assert [a1, b2, b1][1..] == [b2, b1];
    assert [b2, b1][1..] == [b1];
    assert Filter([b2, b1], ofUser) == [];
    assert Filter([a1, b2, b1], ofUser) == [a1];
  }

  /** User 1 sends "hi" to user 2 at t1, creating conversation c; user 2
      answers "hey" at a later t2. The reply reuses c, the conversation
      row holds the first message's summary after the first send, the
      message page lists "hey" before "hi", and user 1's listing holds one
      summary row per send (the rows accumulate). */
  lemma FirstContactThenReply(c: int, resolvedAt: int, t1: int, u1: int,
                              nextCandidate: int, resolvedLater: int, t2: int, u2: int,
                              accepts: MessageResponse -> bool)
    requires t1 < t2
    ensures
      var first := Send(Tables([], [], []), SendRequest(1, 2, "hi"), SendEnv(c, resolvedAt, t1, u1), None, accepts);
      var reply := SendRequest(2, 1, "hey");
      var replyEnv := SendEnv(nextCandidate, resolvedLater, t2, u2);
      var second := Send(first.db, reply, replyEnv, None, accepts);
      && Models.GetConversationRow(first.db.conversations, c) == Some(Conversation(c, 1, 2, t1, "hi"))
      && ResolvedId(first.db, reply, replyEnv) == c
      && Models.GetConversationRow(second.db.conversations, c) == Some(Conversation(c, 1, 2, t2, "hey"))
      && Models.GetConversationMessages(second.db.messages, c, 1, 20)
         == Some([Message(c, t2, u2, 2, 1, "hey"), Message(c, t1, u1, 1, 2, "hi")])
      && Models.UserPartition(second.db.userConversations, 1)
         == [UserConversation(1, c, 2, t2, "hey"), UserConversation(1, c, 2, t1, "hi")]
  {
    var first := Send(Tables([], [], []), SendRequest(1, 2, "hi"), SendEnv(c, resolvedAt, t1, u1), None, accepts);
    FirstSendTables(Tables([], [], []), SendRequest(1, 2, "hi"), SendEnv(c, resolvedAt, t1, u1), accepts);
    ReplyTables(first.db, SendRequest(2, 1, "hey"), SendEnv(nextCandidate, resolvedLater, t2, u2), c, t1, u1, accepts);
    ScenarioMessagePage(c, t1, u1, t2, u2);
    ScenarioListing(c, t1, t2);
  }
}
