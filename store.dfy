/** The in-memory stand-in for the wide-column store: three tables, each
    kept in primary-key order, changed only by the statements the data
    layer issues. */
module CassandraStore {
  import opened SortedTable
  import opened Schema

  datatype Tables = Tables(
    conversations: seq<Conversation>,
    userConversations: seq<UserConversation>,
    messages: seq<Message>)

  /** Every table is in strict primary-key order, so no key occurs twice. */
  ghost predicate ValidTables(db: Tables) {
    && Sorted(db.conversations, ConversationKey)
    && Sorted(db.userConversations, UserConversationKey)
    && Sorted(db.messages, MessageKey)
  }

  /** The write statements the data layer issues. */
  datatype Write =
    | InsertConversation(conversation: Conversation)
    | UpdateConversation(conversationId: int, lastMessageAt: int, lastMessageContent: string)
    | InsertUserConversation(view: UserConversation)
    | InsertMessage(message: Message)

  /** UPDATE conversations SET last_message_at, last_message_content WHERE
      conversation_id = id: only the two named columns of the row under
      that key change. */
  function SetSummary(t: seq<Conversation>, id: int, at: int, content: string): (r: seq<Conversation>)
    ensures |r| == |t|
    ensures forall i :: 0 <= i < |t| ==>
      && r[i].conversationId == t[i].conversationId
      && r[i].user1Id == t[i].user1Id && r[i].user2Id == t[i].user2Id
    ensures forall i :: 0 <= i < |t| && t[i].conversationId != id ==> r[i] == t[i]
    ensures forall i :: 0 <= i < |t| && t[i].conversationId == id ==>
      r[i].lastMessageAt == at && r[i].lastMessageContent == content
  {
    seq(|t|, i requires 0 <= i < |t| =>
      if t[i].conversationId == id
      then t[i].(lastMessageAt := at, lastMessageContent := content)
      else t[i])
  }

  /** The effect of one statement: INSERT is an upsert on the full primary
      key; UPDATE overwrites columns of an existing key. Each statement
      touches one table only. */
  function ApplyWrite(db: Tables, w: Write): (r: Tables)
    requires ValidTables(db)
    ensures ValidTables(r)
    ensures !w.InsertConversation? && !w.UpdateConversation? ==> r.conversations == db.conversations
    ensures !w.InsertUserConversation? ==> r.userConversations == db.userConversations
    ensures !w.InsertMessage? ==> r.messages == db.messages
  {
    match w
    case InsertConversation(c) =>
      db.(conversations := Upsert(db.conversations, c, ConversationKey))
    case UpdateConversation(id, at, content) =>
      var t := SetSummary(db.conversations, id, at, content);
      assert forall i :: 0 <= i < |t| ==> ConversationKey(t[i]) == ConversationKey(db.conversations[i]);
      db.(conversations := t)
    case InsertUserConversation(v) =>
      db.(userConversations := Upsert(db.userConversations, v, UserConversationKey))
    case InsertMessage(m) =>
      db.(messages := Upsert(db.messages, m, MessageKey))
  }

  /** Statements executed one after another. */
  function ApplyAll(db: Tables, ws: seq<Write>): (r: Tables)
    requires ValidTables(db)
    ensures ValidTables(r)
    decreases |ws|
  {
    if ws == [] then db else ApplyWrite(ApplyAll(db, ws[..|ws| - 1]), ws[|ws| - 1])
  }

  class Store {
    var conversations: seq<Conversation>
    var userConversations: seq<UserConversation>
    var messages: seq<Message>

    function Snapshot(): Tables
      reads this
    {
      Tables(conversations, userConversations, messages)
    }

    ghost predicate Valid()
      reads this
    {
      ValidTables(Snapshot())
    }

    constructor ()
      ensures Valid()
      ensures Snapshot() == Tables([], [], [])
    {
      conversations, userConversations, messages := [], [], [];
    }

    /** Executes one statement. When the store rejects it (fails), nothing
        is written and the caller sees the exception as ok == false. */
    method Execute(w: Write, fails: bool) returns (ok: bool)
      requires Valid()
      modifies this
      ensures Valid()
      ensures ok == !fails
      ensures Snapshot() == if ok then ApplyWrite(old(Snapshot()), w) else old(Snapshot())
    {
      ok := !fails;
      if ok {
        var db := ApplyWrite(Snapshot(), w);
        conversations, userConversations, messages := db.conversations, db.userConversations, db.messages;
      }
    }
  }
}
