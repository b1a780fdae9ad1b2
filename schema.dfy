/** The three tables of the keyspace: their rows and their primary keys
    with clustering order. Timestamps, ids and uuids are integers with
    their natural order. */
module Schema {
  import opened SortedTable

  /** conversations: one row per conversation, keyed by conversation_id alone. */
  datatype Conversation = Conversation(
    conversationId: int, user1Id: int, user2Id: int,
    lastMessageAt: int, lastMessageContent: string)

  /** user_conversations: partition user_id, clustering last_message_at DESC,
      conversation_id ASC. */
  datatype UserConversation = UserConversation(
    userId: int, conversationId: int, otherUserId: int,
    lastMessageAt: int, lastMessageContent: string)

  /** messages: partition conversation_id, clustering created_at DESC,
      message_id ASC. */
  datatype Message = Message(
    conversationId: int, createdAt: int, messageId: int,
    senderId: int, receiverId: int, content: string)

  function ConversationKey(c: Conversation): Key {
    Key(c.conversationId, 0, 0)
  }

  function UserConversationKey(v: UserConversation): Key {
    Key(v.userId, -v.lastMessageAt, v.conversationId)
  }

  function MessageKey(m: Message): Key {
    Key(m.conversationId, -m.createdAt, m.messageId)
  }

  /** A conversations key names one conversation_id, in ascending order. */
  lemma ConversationKeyEncoding(a: Conversation, b: Conversation)
    ensures ConversationKey(a) == ConversationKey(b) <==> a.conversationId == b.conversationId
    ensures KeyLess(ConversationKey(a), ConversationKey(b)) <==> a.conversationId < b.conversationId
  {
  }

  /** A user_conversations key names one (user_id, last_message_at,
      conversation_id); within a user, key order is last_message_at
      descending, then conversation_id ascending. */
  lemma UserConversationKeyEncoding(a: UserConversation, b: UserConversation)
    ensures UserConversationKey(a) == UserConversationKey(b) <==>
      a.userId == b.userId && a.lastMessageAt == b.lastMessageAt && a.conversationId == b.conversationId
    ensures a.userId == b.userId ==>
      (KeyLess(UserConversationKey(a), UserConversationKey(b)) <==>
         || a.lastMessageAt > b.lastMessageAt
         || (a.lastMessageAt == b.lastMessageAt && a.conversationId < b.conversationId))
  {
  }

  /** A messages key names one (conversation_id, created_at, message_id);
      within a conversation, key order is created_at descending, then
      message_id ascending. */
  lemma MessageKeyEncoding(a: Message, b: Message)
    ensures MessageKey(a) == MessageKey(b) <==>
      a.conversationId == b.conversationId && a.createdAt == b.createdAt && a.messageId == b.messageId
    ensures a.conversationId == b.conversationId ==>
      (KeyLess(MessageKey(a), MessageKey(b)) <==>
         || a.createdAt > b.createdAt
         || (a.createdAt == b.createdAt && a.messageId < b.messageId))
  {
  }

  /** Newest message first; equal timestamps by ascending message id. */
  predicate NewestFirst(ms: seq<Message>) {
    forall i, j :: 0 <= i < j < |ms| ==>
      || ms[i].createdAt > ms[j].createdAt
      || (ms[i].createdAt == ms[j].createdAt && ms[i].messageId < ms[j].messageId)
  }

  /** Most recent activity first; equal timestamps by ascending conversation id. */
  predicate MostRecentFirst(vs: seq<UserConversation>) {
    forall i, j :: 0 <= i < j < |vs| ==>
      || vs[i].lastMessageAt > vs[j].lastMessageAt
      || (vs[i].lastMessageAt == vs[j].lastMessageAt && vs[i].conversationId < vs[j].conversationId)
  }

  /** Within one partition, key order is the declared clustering order. */
  lemma MessageClusteringOrder(ms: seq<Message>, cid: int)
    requires Sorted(ms, MessageKey)
    requires forall m :: m in ms ==> m.conversationId == cid
    ensures NewestFirst(ms)
  {
    forall i, j | 0 <= i < j < |ms|
      ensures || ms[i].createdAt > ms[j].createdAt
              || (ms[i].createdAt == ms[j].createdAt && ms[i].messageId < ms[j].messageId)
    {
      assert ms[i] in ms && ms[j] in ms;
      assert KeyLess(MessageKey(ms[i]), MessageKey(ms[j]));
    }
  }

  lemma UserConversationClusteringOrder(vs: seq<UserConversation>, uid: int)
    requires Sorted(vs, UserConversationKey)
    requires forall v :: v in vs ==> v.userId == uid
    ensures MostRecentFirst(vs)
  {
    forall i, j | 0 <= i < j < |vs|
      ensures || vs[i].lastMessageAt > vs[j].lastMessageAt
              || (vs[i].lastMessageAt == vs[j].lastMessageAt && vs[i].conversationId < vs[j].conversationId)
    {
      assert vs[i] in vs && vs[j] in vs;
      assert KeyLess(UserConversationKey(vs[i]), UserConversationKey(vs[j]));
    }
  }
}
