/** ConversationController: a user's paginated conversation list and a
    single conversation's detail. */
module ConversationController {
  import opened Wrappers
  import opened SortedTable
  import opened Schema
  import opened CassandraStore
  import opened Envelope
  import opened Pagination
  import Models = CassandraModels

  /** {id, user1_id, user2_id, last_message_at, last_message_content};
      the participant ids are optional because the listing leaves
      user1_id empty. */
  datatype ConversationResponse = ConversationResponse(
    id: int, user1Id: Option<int>, user2Id: Option<int>,
    lastMessageAt: int, lastMessageContent: string)

  /** A user_conversations row as a list entry: the summary row does not
      know which participant was user1, so user1_id is empty and user2_id
      is the other participant. */
  function ToListEntry(v: UserConversation): ConversationResponse {
    ConversationResponse(v.conversationId, None, Some(v.otherUserId), v.lastMessageAt, v.lastMessageContent)
  }

  /** Within one user's listing no two summary rows give the same entry:
      an entry has no user1_id, and keeps every other column of the row. */
  lemma ListEntryWithinUser(a: UserConversation, b: UserConversation)
    requires a.userId == b.userId
    ensures ToListEntry(a).user1Id == None
    ensures ToListEntry(a) == ToListEntry(b) <==> a == b
  {
  }

  /** A conversations row as the detail response. */
  function ToDetail(c: Conversation): ConversationResponse {
    ConversationResponse(c.conversationId, Some(c.user1Id), Some(c.user2Id), c.lastMessageAt, c.lastMessageContent)
  }

  /** The detail response keeps every column of the row, both
      participants included. */
  lemma DetailKeepsEveryColumn(a: Conversation, b: Conversation)
    ensures ToDetail(a).user1Id.Some? && ToDetail(a).user2Id.Some?
    ensures ToDetail(a) == ToDetail(b) <==> a == b
  {
  }

  /** get_user_conversations: {total = rows fetched, page, limit, data},
      where data holds the rows the response schema accepts, mapped, in
      row order. A failed fetch is an internal error. */
  method GetUserConversations(store: Store, userId: int, page: int, limit: int,
                              fetchFails: bool, accepts: ConversationResponse -> bool)
      returns (r: Outcome<Page<ConversationResponse>>)
    ensures
      var fetched := Models.GetUserConversations(store.userConversations, userId, page, limit);
      if fetchFails || fetched.None? then r == InternalError
      else r == Ok(Page(|fetched.value|, page, limit, Accepted(fetched.value, ToListEntry, accepts)))
  {
    var fetched := Models.GetUserConversations(store.userConversations, userId, page, limit);
    if fetchFails || fetched.None? {
      return InternalError;
    }
    var rows := fetched.value;
    var data := CollectAccepted(rows, ToListEntry, accepts);
    r := Ok(Page(|rows|, page, limit, data));
  }

  /** The envelope of a listing page: total counts the fetched page rows
      (at most limit), data is no longer than total, and every entry is a
      summary row of this user, mapped field by field. */
  lemma UserConversationsEnvelope(views: seq<UserConversation>, userId: int, page: int, limit: int,
                                  accepts: ConversationResponse -> bool)
    requires page >= 1 && limit >= 1 && page * limit <= MaxLimit
    ensures
      var rows := Models.GetUserConversations(views, userId, page, limit).value;
      var data := Accepted(rows, ToListEntry, accepts);
      && |rows| <= limit
      && |data| <= |rows|
      && forall e :: e in data ==>
           && e.user1Id == None
           && exists v :: v in views && v.userId == userId
                && e.id == v.conversationId && e.user2Id == Some(v.otherUserId)
                && e.lastMessageAt == v.lastMessageAt && e.lastMessageContent == v.lastMessageContent
  {
    var rows := Models.GetUserConversations(views, userId, page, limit).value;
    var data := Accepted(rows, ToListEntry, accepts);
    AcceptedKeepsOrder(rows, ToListEntry, accepts);
    var idx :| EmbeddedAt(data, rows, ToListEntry, idx);
    forall e | e in data
      ensures e.user1Id == None
      ensures exists v :: v in views && v.userId == userId
                && e.id == v.conversationId && e.user2Id == Some(v.otherUserId)
                && e.lastMessageAt == v.lastMessageAt && e.lastMessageContent == v.lastMessageContent
    {
      var k :| 0 <= k < |data| && data[k] == e;
      var v := rows[idx[k]];
      assert v in rows;
    }
  }

  /** get_conversation: a failed lookup is an internal error; a missing
      row is NotFound; a found row is copied into the response, which the
      response schema may still reject (an internal error). */
  function GetConversation(conversations: seq<Conversation>, conversationId: int,
                           fetchFails: bool, accepts: ConversationResponse -> bool)
      : (r: Outcome<ConversationResponse>)
    ensures r.NotFound? <==> !fetchFails && forall c :: c in conversations ==> c.conversationId != conversationId
    ensures r.Ok? ==>
      exists c :: && c in conversations && c.conversationId == conversationId
                  && r.value == ConversationResponse(conversationId, Some(c.user1Id), Some(c.user2Id),
                                                     c.lastMessageAt, c.lastMessageContent)
    ensures fetchFails ==> r == InternalError
  {
    if fetchFails then InternalError
    else
      match Models.GetConversationRow(conversations, conversationId)
      case None => NotFound
      case Some(row) =>
        var response := ToDetail(row);
        if accepts(response) then Ok(response) else InternalError
  }

  /** On a store in key order, the detail answer is decided by the one row
      under the key: found and accepted gives exactly that row's fields. */
  lemma GetConversationOfStoredRow(conversations: seq<Conversation>, c: Conversation,
                                   accepts: ConversationResponse -> bool)
    requires Sorted(conversations, ConversationKey)
    requires c in conversations
    ensures GetConversation(conversations, c.conversationId, false, accepts)
      == if accepts(ToDetail(c)) then Ok(ToDetail(c)) else InternalError
  {
    Models.ConversationRowUnique(conversations, c);
  }
}
