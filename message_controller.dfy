/** MessageController: sending a message (the write fan-out across the
    three tables) and the two paginated message readers. */
module MessageController {
  import opened Wrappers
  import opened SortedTable
  import opened Schema
  import opened CassandraStore
  import opened Envelope
  import opened Pagination
  import Models = CassandraModels

  /** {id, sender_id, receiver_id, content, created_at, conversation_id};
      id is the message uuid. */
  datatype MessageResponse = MessageResponse(
    id: int, senderId: int, receiverId: int, content: string,
    createdAt: int, conversationId: int)

  /** The row-to-record mapping of both readers. */
  function ToMessageResponse(m: Message): MessageResponse {
    MessageResponse(m.messageId, m.senderId, m.receiverId, m.content, m.createdAt, m.conversationId)
  }

  /** The record carries every column of the row: distinct messages give
      distinct records. */
  lemma MessageResponseKeepsEveryColumn(a: Message, b: Message)
    ensures ToMessageResponse(a) == ToMessageResponse(b) <==> a == b
  {
  }

  /** The request body: who sends what to whom. */
  datatype SendRequest = SendRequest(senderId: int, receiverId: int, content: string)

  /** The values the source draws from the clock and the id generators:
      the id a new conversation would get, the clock read while creating
      it, the send timestamp, and the message uuid. */
  datatype SendEnv = SendEnv(candidateId: int, resolvedAt: int, now: int, messageUuid: int)

  /** The store statements of one send, in the order they are issued. A
      fault names the one the store rejects. */
  datatype Step = Lookup | CreateConversation | StoreMessage | UpdateSummary | IndexUser(k: nat)

  datatype SendResult = SendResult(response: Outcome<MessageResponse>, db: Tables)

  /** The two user_conversations rows of the `for uid, oid in [...]` loop. */
  function IndexRows(req: SendRequest, cid: int, now: int): (r: seq<UserConversation>)
    ensures |r| == 2
    ensures forall v :: v in r ==>
      && v.conversationId == cid && v.lastMessageAt == now && v.lastMessageContent == req.content
      && ((v.userId == req.senderId && v.otherUserId == req.receiverId)
          || (v.userId == req.receiverId && v.otherUserId == req.senderId))
    ensures r[0].userId == req.senderId && r[1].userId == req.receiverId
    ensures UserConversationKey(r[0]) == UserConversationKey(r[1]) <==> req.senderId == req.receiverId
  {
    [ UserConversation(req.senderId, cid, req.receiverId, now, req.content),
      UserConversation(req.receiverId, cid, req.senderId, now, req.content) ]
  }

  /** How many of the n index rows are written before the fault stops the loop. */
  function IndexedBeforeFault(fault: Option<Step>, n: nat): (r: nat)
    ensures r <= n
    ensures r < n <==> fault.Some? && fault.value.IndexUser? && fault.value.k < n
  {
    if fault.Some? && fault.value.IndexUser? && fault.value.k < n then fault.value.k else n
  }

  /** What send_message does to the store and returns, statement by
      statement; a rejected statement ends the send with InternalError
      and leaves every earlier write in place. accepts is the response
      schema's verdict on the final record. */
  function Send(db: Tables, req: SendRequest, env: SendEnv, fault: Option<Step>,
                accepts: MessageResponse -> bool): (r: SendResult)
    requires ValidTables(db)
    ensures ValidTables(r.db)
  {
    var found := Models.FindConversation(db.conversations, req.senderId, req.receiverId);
    if fault == Some(Lookup) || (found.None? && fault == Some(CreateConversation)) then
      SendResult(InternalError, db)
    else
      var res := Models.Resolve(db.conversations, req.senderId, req.receiverId, env.candidateId, env.resolvedAt);
      Deliver(db.(conversations := res.conversations), res.conversationId, req, env, fault, accepts)
  }

  /** The part of a send after the conversation is known: store the
      message, refresh the summary, index both users, answer. */
  function Deliver(resolved: Tables, cid: int, req: SendRequest, env: SendEnv, fault: Option<Step>,
                   accepts: MessageResponse -> bool): (r: SendResult)
    requires ValidTables(resolved)
    ensures ValidTables(r.db)
  {
    if fault == Some(StoreMessage) then SendResult(InternalError, resolved)
    else
      var message := Message(cid, env.now, env.messageUuid, req.senderId, req.receiverId, req.content);
      var stored := ApplyWrite(resolved, InsertMessage(message));
      if fault == Some(UpdateSummary) then SendResult(InternalError, stored)
      else
        var summarized := ApplyWrite(stored, UpdateConversation(cid, env.now, req.content));
        var views := IndexRows(req, cid, env.now);
        var n := IndexedBeforeFault(fault, |views|);
        var indexed := summarized.(userConversations :=
          UpsertAll(summarized.userConversations, views[..n], UserConversationKey));
        if n < |views| then SendResult(InternalError, indexed)
        else
          var response := MessageResponse(env.messageUuid, req.senderId, req.receiverId,
                                          req.content, env.now, cid);
          SendResult(if accepts(response) then Ok(response) else InternalError, indexed)
  }

  /** send_message against the store. */
  method SendMessage(store: Store, req: SendRequest, env: SendEnv, fault: Option<Step>,
                     accepts: MessageResponse -> bool)
      returns (r: Outcome<MessageResponse>)
    requires store.Valid()
    modifies store
    ensures store.Valid()
    ensures Send(old(store.Snapshot()), req, env, fault, accepts) == SendResult(r, store.Snapshot())
  {
    var conversationId := Models.CreateOrGetConversation(
      store, req.senderId, req.receiverId, env.candidateId, env.resolvedAt,
      fault == Some(Lookup), fault == Some(CreateConversation));
    if conversationId.None? {
      return InternalError;
    }
    r := DeliverMessage(store, conversationId.value, req, env, fault, accepts);
  }

  /** The statements after conversation lookup. */
  method DeliverMessage(store: Store, cid: int, req: SendRequest, env: SendEnv, fault: Option<Step>,
                        accepts: MessageResponse -> bool)
      returns (r: Outcome<MessageResponse>)
    requires store.Valid()
    modifies store
    ensures store.Valid()
    ensures Deliver(old(store.Snapshot()), cid, req, env, fault, accepts) == SendResult(r, store.Snapshot())
  {
    var messageId := Models.CreateMessage(
      store, cid, req.senderId, req.receiverId, req.content, env.now, None, env.messageUuid,
      fault == Some(StoreMessage));
    if messageId.None? {
      return InternalError;
    }
    var ok := store.Execute(UpdateConversation(cid, env.now, req.content), fault == Some(UpdateSummary));
    if !ok {
      return InternalError;
    }
    ok := IndexUsers(store, req, cid, env.now, fault);
    if !ok {
      return InternalError;
    }
    var response := MessageResponse(messageId.value, req.senderId, req.receiverId, req.content, env.now, cid);
    r := if accepts(response) then Ok(response) else InternalError;
  }

  /** The `for uid, oid in [...]` loop: one user_conversations insert per
      participant, stopping at the first rejected one. */
  method IndexUsers(store: Store, req: SendRequest, cid: int, now: int, fault: Option<Step>)
      returns (ok: bool)
    requires store.Valid()
    modifies store
    ensures store.Valid()
    ensures
      var views := IndexRows(req, cid, now);
      var n := IndexedBeforeFault(fault, |views|);
      && ok == (n == |views|)
      && store.Snapshot() == old(store.Snapshot()).(userConversations :=
           UpsertAll(old(store.userConversations), views[..n], UserConversationKey))
  {
    ghost var before := store.Snapshot();
    ghost var views := IndexRows(req, cid, now);
    ghost var n := IndexedBeforeFault(fault, |views|);
    var pairs := [(req.senderId, req.receiverId), (req.receiverId, req.senderId)];
    for k := 0 to |pairs|
      invariant store.Valid()
      invariant k <= n
      invariant store.conversations == before.conversations
      invariant store.messages == before.messages
      invariant store.userConversations == UpsertAll(before.userConversations, views[..k], UserConversationKey)
    {
      var (uid, oid) := pairs[k];
      var view := UserConversation(uid, cid, oid, now, req.content);
      assert view == views[k];
      var rejected := fault == Some(IndexUser(k));
      assert rejected <==> k == n;
      ok := store.Execute(InsertUserConversation(view), rejected);
      if !ok {
        return false;
      }
      assert views[..k + 1] == views[..k] + [view];
      UpsertAllSnoc(before.userConversations, views[..k], view, UserConversationKey);
    }
    assert views[..|pairs|] == views;
    ok := true;
  }

  /** get_conversation_messages: {total = rows fetched, page, limit, data}. */
  method GetConversationMessages(store: Store, conversationId: int, page: int, limit: int,
                                 fetchFails: bool, accepts: MessageResponse -> bool)
      returns (r: Outcome<Page<MessageResponse>>)
    ensures
      var fetched := Models.GetConversationMessages(store.messages, conversationId, page, limit);
      if fetchFails || fetched.None? then r == InternalError
      else r == Ok(Page(|fetched.value|, page, limit, Accepted(fetched.value, ToMessageResponse, accepts)))
  {
    var fetched := Models.GetConversationMessages(store.messages, conversationId, page, limit);
    if fetchFails || fetched.None? {
      return InternalError;
    }
    var rows := fetched.value;
    var data := CollectAccepted(rows, ToMessageResponse, accepts);
    r := Ok(Page(|rows|, page, limit, data));
  }

  /** get_messages_before_timestamp: the same envelope over the filtered rows. */
  method GetMessagesBeforeTimestamp(store: Store, conversationId: int, before: int, page: int, limit: int,
                                    fetchFails: bool, accepts: MessageResponse -> bool)
      returns (r: Outcome<Page<MessageResponse>>)
    ensures
      var fetched := Models.GetMessagesBeforeTimestamp(store.messages, conversationId, before, page, limit);
      if fetchFails || fetched.None? then r == InternalError
      else r == Ok(Page(|fetched.value|, page, limit, Accepted(fetched.value, ToMessageResponse, accepts)))
  {
    var fetched := Models.GetMessagesBeforeTimestamp(store.messages, conversationId, before, page, limit);
    if fetchFails || fetched.None? {
      return InternalError;
    }
    var rows := fetched.value;
    var data := CollectAccepted(rows, ToMessageResponse, accepts);
    r := Ok(Page(|rows|, page, limit, data));
  }

  /** The envelope of a message page: total counts the fetched page rows
      (at most limit), data is no longer than total, and every entry is a
      message of the requested conversation strictly before the cut-off,
      mapped field by field. */
  lemma MessagesBeforeTimestampEnvelope(messages: seq<Message>, conversationId: int, before: int,
                                        page: int, limit: int, accepts: MessageResponse -> bool)
    requires page >= 1 && limit >= 1 && page * limit <= MaxLimit
    ensures
      var rows := Models.GetMessagesBeforeTimestamp(messages, conversationId, before, page, limit).value;
      var data := Accepted(rows, ToMessageResponse, accepts);
      && |rows| <= limit
      && |data| <= |rows|
      && forall e :: e in data ==>
           && e.conversationId == conversationId && e.createdAt < before
           && exists m :: m in messages && e == ToMessageResponse(m)
  {
    var rows := Models.GetMessagesBeforeTimestamp(messages, conversationId, before, page, limit).value;
    var data := Accepted(rows, ToMessageResponse, accepts);
    AcceptedKeepsOrder(rows, ToMessageResponse, accepts);
    var idx :| EmbeddedAt(data, rows, ToMessageResponse, idx);
    forall e | e in data
      ensures e.conversationId == conversationId && e.createdAt < before
      ensures exists m :: m in messages && e == ToMessageResponse(m)
    {
      var k :| 0 <= k < |data| && data[k] == e;
      assert rows[idx[k]] in rows;
    }
  }

  /** The same envelope for the unfiltered reader: every entry is a
      message of the requested conversation. */
  lemma ConversationMessagesEnvelope(messages: seq<Message>, conversationId: int,
                                     page: int, limit: int, accepts: MessageResponse -> bool)
    requires page >= 1 && limit >= 1 && page * limit <= MaxLimit
    ensures
      var rows := Models.GetConversationMessages(messages, conversationId, page, limit).value;
      var data := Accepted(rows, ToMessageResponse, accepts);
      && |rows| <= limit
      && |data| <= |rows|
      && forall e :: e in data ==>
           && e.conversationId == conversationId
           && exists m :: m in messages && e == ToMessageResponse(m)
  {
    var rows := Models.GetConversationMessages(messages, conversationId, page, limit).value;
    var data := Accepted(rows, ToMessageResponse, accepts);
    AcceptedKeepsOrder(rows, ToMessageResponse, accepts);
    var idx :| EmbeddedAt(data, rows, ToMessageResponse, idx);
    forall e | e in data
      ensures e.conversationId == conversationId
      ensures exists m :: m in messages && e == ToMessageResponse(m)
    {
      var k :| 0 <= k < |data| && data[k] == e;
      assert rows[idx[k]] in rows;
    }
  }
}

/** What one send does to the store and answers, stated as the list of
    statements it issues and proved about the staged definition Send. */
module SendProperties {
  import opened Wrappers
  import opened SortedTable
  import opened Schema
  import opened CassandraStore
  import opened MessageController
  import Models = CassandraModels

  /** The conversation id a send resolves to: the first row between the
      two users, or else the candidate id. */
  function ResolvedId(db: Tables, req: SendRequest, env: SendEnv): (cid: int)
    requires ValidTables(db)
    ensures Models.FindConversation(db.conversations, req.senderId, req.receiverId).Some? ==>
      Models.FindConversation(db.conversations, req.senderId, req.receiverId) == Some(cid)
  {
    Models.Resolve(db.conversations, req.senderId, req.receiverId, env.candidateId, env.resolvedAt).conversationId
  }

  /** The statements issued once the conversation is known: the message
      insert, the summary update, and one user_conversations insert per
      participant. */
  function DeliverStatements(cid: int, req: SendRequest, env: SendEnv): (ws: seq<Write>)
    ensures |ws| == 4
  {
    var views := IndexRows(req, cid, env.now);
    [ InsertMessage(Message(cid, env.now, env.messageUuid, req.senderId, req.receiverId, req.content)),
      UpdateConversation(cid, env.now, req.content),
      InsertUserConversation(views[0]),
      InsertUserConversation(views[1]) ]
  }

  /** The write statements of a send without faults, in issue order: the
      conversation insert when the pair has none, then the delivery. */
  function SendStatements(db: Tables, req: SendRequest, env: SendEnv): (ws: seq<Write>)
    requires ValidTables(db)
    ensures |ws| == if Models.FindConversation(db.conversations, req.senderId, req.receiverId).None? then 5 else 4
  {
    (if Models.FindConversation(db.conversations, req.senderId, req.receiverId).None?
     then [InsertConversation(Conversation(env.candidateId, req.senderId, req.receiverId, env.resolvedAt, ""))]
     else [])
    + DeliverStatements(ResolvedId(db, req, env), req, env)
  }

  /** How many delivery statements are issued before the faulty one. */
  function DeliveredBeforeFault(fault: Option<Step>): (n: nat)
    ensures n <= 4
  {
    match fault
    case Some(StoreMessage) => 0
    case Some(UpdateSummary) => 1
    case Some(IndexUser(k)) => if k < 2 then 2 + k else 4
    case _ => 4
  }

  /** How many statements of SendStatements are issued before the faulty
      one; a fault naming a statement the send does not issue changes
      nothing. */
  function IssuedBeforeFault(creates: bool, fault: Option<Step>): (n: nat)
    ensures n <= if creates then 5 else 4
  {
    if fault == Some(Lookup) || (creates && fault == Some(CreateConversation)) then 0
    else (if creates then 1 else 0) + DeliveredBeforeFault(fault)
  }

  lemma ApplyAllStep(db: Tables, ws: seq<Write>, k: nat)
    requires ValidTables(db) && k < |ws|
    ensures ApplyAll(db, ws[..k + 1]) == ApplyWrite(ApplyAll(db, ws[..k]), ws[k])
  {
    assert ws[..k + 1][..k] == ws[..k];
  }

  /** Statements issued in two batches. */
  lemma {:induction false} ApplyAllAppend(db: Tables, us: seq<Write>, vs: seq<Write>)
    requires ValidTables(db)
    ensures ApplyAll(db, us + vs) == ApplyAll(ApplyAll(db, us), vs)
    decreases |vs|
  {
    if vs == [] {
      assert us + vs == us;
    } else {
      var front := vs[..|vs| - 1];
      assert (us + vs)[..|us + vs| - 1] == us + front;
      ApplyAllAppend(db, us, front);
    }
  }

  /** The two index inserts as single statements. */
  lemma IndexAsStatements(t: Tables, views: seq<UserConversation>, n: nat)
    requires ValidTables(t) && n <= |views| == 2
    ensures n == 0 ==> t.(userConversations := UpsertAll(t.userConversations, views[..n], UserConversationKey)) == t
    ensures n >= 1 ==>
      t.(userConversations := UpsertAll(t.userConversations, views[..n], UserConversationKey))
      == (var one := ApplyWrite(t, InsertUserConversation(views[0]));
          if n == 1 then one else ApplyWrite(one, InsertUserConversation(views[1])))
  {
    if n >= 1 {
      assert views[..1] == [] + [views[0]];
      UpsertAllSnoc(t.userConversations, [], views[0], UserConversationKey);
    }
    if n == 2 {
      assert views[..2] == views[..1] + [views[1]];
      UpsertAllSnoc(t.userConversations, views[..1], views[1], UserConversationKey);
    }
  }

  /** The store after the first n delivery statements. */
  lemma {:induction false} DeliverPrefix(resolved: Tables, cid: int, req: SendRequest, env: SendEnv, n: nat)
    requires ValidTables(resolved) && n <= 4
    ensures
      var ws := DeliverStatements(cid, req, env);
      var message := Message(cid, env.now, env.messageUuid, req.senderId, req.receiverId, req.content);
      var stored := ApplyWrite(resolved, InsertMessage(message));
      var summarized := ApplyWrite(stored, UpdateConversation(cid, env.now, req.content));
      var views := IndexRows(req, cid, env.now);
      ApplyAll(resolved, ws[..n]) ==
        if n == 0 then resolved
        else if n == 1 then stored
        else summarized.(userConversations := UpsertAll(summarized.userConversations, views[..n - 2], UserConversationKey))
  {
    var ws := DeliverStatements(cid, req, env);
    var message := Message(cid, env.now, env.messageUuid, req.senderId, req.receiverId, req.content);
    var stored := ApplyWrite(resolved, InsertMessage(message));
    var summarized := ApplyWrite(stored, UpdateConversation(cid, env.now, req.content));
    var views := IndexRows(req, cid, env.now);
    if n > 0 {
      DeliverPrefix(resolved, cid, req, env, n - 1);
      ApplyAllStep(resolved, ws, n - 1);
      if n >= 3 {
        IndexAsStatements(summarized, views, n - 2);
        IndexAsStatements(summarized, views, n - 3);
      } else if n == 2 {
        IndexAsStatements(summarized, views, 0);
      }
    }
  }

  /** A delivery that reaches the index inserts. */
  lemma DeliverReachingIndex(resolved: Tables, cid: int, req: SendRequest, env: SendEnv,
                             fault: Option<Step>, accepts: MessageResponse -> bool)
    requires ValidTables(resolved)
    requires fault != Some(StoreMessage) && fault != Some(UpdateSummary)
    ensures
      var message := Message(cid, env.now, env.messageUuid, req.senderId, req.receiverId, req.content);
      var stored := ApplyWrite(resolved, InsertMessage(message));
      var summarized := ApplyWrite(stored, UpdateConversation(cid, env.now, req.content));
      var views := IndexRows(req, cid, env.now);
      var n := DeliveredBeforeFault(fault);
      && n >= 2
      && Deliver(resolved, cid, req, env, fault, accepts).db
         == summarized.(userConversations := UpsertAll(summarized.userConversations, views[..n - 2], UserConversationKey))
      && (n < 4 ==> Deliver(resolved, cid, req, env, fault, accepts).response == InternalError)
  {
    var views := IndexRows(req, cid, env.now);
    assert IndexedBeforeFault(fault, |views|) == DeliveredBeforeFault(fault) - 2;
  }

  /** After the conversation is known, the store holds exactly the
      delivery statements issued before the rejected one. */
  lemma DeliverAppliesIssuedStatements(resolved: Tables, cid: int, req: SendRequest, env: SendEnv,
                                       fault: Option<Step>, accepts: MessageResponse -> bool)
    requires ValidTables(resolved)
    ensures
      var ws := DeliverStatements(cid, req, env);
      var n := DeliveredBeforeFault(fault);
      var r := Deliver(resolved, cid, req, env, fault, accepts);
      && r.db == ApplyAll(resolved, ws[..n])
      && (n < 4 ==> r.response == InternalError)
  {
    var n := DeliveredBeforeFault(fault);
    DeliverPrefix(resolved, cid, req, env, n);
    if n >= 2 {
      DeliverReachingIndex(resolved, cid, req, env, fault, accepts);
    }
  }

  /** Failure semantics of send_message: the store holds exactly the
      statements issued before the rejected one (nothing is rolled back),
      and a rejected statement makes the answer an internal error. */
  lemma SendAppliesIssuedStatements(db: Tables, req: SendRequest, env: SendEnv,
                                    fault: Option<Step>, accepts: MessageResponse -> bool)
    requires ValidTables(db)
    ensures
      var creates := Models.FindConversation(db.conversations, req.senderId, req.receiverId).None?;
      var ws := SendStatements(db, req, env);
      var n := IssuedBeforeFault(creates, fault);
      var r := Send(db, req, env, fault, accepts);
      && r.db == ApplyAll(db, ws[..n])
      && (n < |ws| ==> r.response == InternalError)
  {
    var creates := Models.FindConversation(db.conversations, req.senderId, req.receiverId).None?;
    var ws := SendStatements(db, req, env);
    var n := IssuedBeforeFault(creates, fault);
    var create := ws[..if creates then 1 else 0];
    var res := Models.Resolve(db.conversations, req.senderId, req.receiverId, env.candidateId, env.resolvedAt);
    var resolved := db.(conversations := res.conversations);
    assert ApplyAll(db, ws[..0]) == db;
    if creates {
      ApplyAllStep(db, ws, 0);
    }
    assert ApplyAll(db, create) == resolved;
    if n > 0 || !(fault == Some(Lookup) || (creates && fault == Some(CreateConversation))) {
      var ds := DeliverStatements(res.conversationId, req, env);
      var m := DeliveredBeforeFault(fault);
      assert ws[..n] == create + ds[..m];
      ApplyAllAppend(db, create, ds[..m]);
      DeliverAppliesIssuedStatements(resolved, res.conversationId, req, env, fault, accepts);
    }
  }

  /** A send without faults, table by table. */
  lemma SendWithoutFault(db: Tables, req: SendRequest, env: SendEnv, accepts: MessageResponse -> bool)
    requires ValidTables(db)
    ensures
      var res := Models.Resolve(db.conversations, req.senderId, req.receiverId, env.candidateId, env.resolvedAt);
      var cid := res.conversationId;
      var m := Message(cid, env.now, env.messageUuid, req.senderId, req.receiverId, req.content);
      var answer := MessageResponse(env.messageUuid, req.senderId, req.receiverId, req.content, env.now, cid);
      var r := Send(db, req, env, None, accepts);
      && r.db.conversations == SetSummary(res.conversations, cid, env.now, req.content)
      && r.db.messages == Upsert(db.messages, m, MessageKey)
      && r.db.userConversations == UpsertAll(db.userConversations, IndexRows(req, cid, env.now), UserConversationKey)
      && r.response == if accepts(answer) then Ok(answer) else InternalError
  {
    var views := IndexRows(req, ResolvedId(db, req, env), env.now);
    assert views[..2] == views;
  }

  /** A send without faults stores one message row, under the resolved
      conversation, and answers with that row's fields (unless the
      response schema rejects the record). */
  lemma SendStoresMessage(db: Tables, req: SendRequest, env: SendEnv, accepts: MessageResponse -> bool)
    requires ValidTables(db)
    ensures
      var r := Send(db, req, env, None, accepts);
      var cid := ResolvedId(db, req, env);
      var m := Message(cid, env.now, env.messageUuid, req.senderId, req.receiverId, req.content);
      var answer := MessageResponse(m.messageId, m.senderId, m.receiverId, m.content, m.createdAt, m.conversationId);
      && Models.FindConversation(r.db.conversations, req.senderId, req.receiverId) == Some(cid)
      && m in r.db.messages
      && (forall x :: x in r.db.messages ==> x == m || x in db.messages)
      && (forall x :: x in db.messages && MessageKey(x) != MessageKey(m) ==> x in r.db.messages)
      && r.response == if accepts(answer) then Ok(answer) else InternalError
  {
    SendWithoutFault(db, req, env, accepts);
    var res := Models.Resolve(db.conversations, req.senderId, req.receiverId, env.candidateId, env.resolvedAt);
    var cid := res.conversationId;
    var t := res.conversations;
    var u := SetSummary(t, cid, env.now, req.content);
    Models.FindConversationIgnoresSummary(t, u, req.senderId, req.receiverId);
  }

  /** A send without faults leaves the conversation row between the two
      users with the new message's timestamp and content, keeps its
      participants (in argument order for a new row), and keeps every
      other conversation row. */
  lemma SendRefreshesSummary(db: Tables, req: SendRequest, env: SendEnv, accepts: MessageResponse -> bool)
    requires ValidTables(db)
    ensures
      var r := Send(db, req, env, None, accepts);
      var cid := ResolvedId(db, req, env);
      var existed := Models.FindConversation(db.conversations, req.senderId, req.receiverId).Some?;
      var row := Models.GetConversationRow(r.db.conversations, cid);
      && row.Some?
      && Models.Pairs(row.value, req.senderId, req.receiverId)
      && row.value.lastMessageAt == env.now
      && row.value.lastMessageContent == req.content
      && (existed ==>
            var before := Models.GetConversationRow(db.conversations, cid);
            before.Some? && row.value.user1Id == before.value.user1Id && row.value.user2Id == before.value.user2Id)
      && (!existed ==> row.value.user1Id == req.senderId && row.value.user2Id == req.receiverId)
      && (forall c :: c in db.conversations && c.conversationId != cid ==> c in r.db.conversations)
      && (forall c :: c in r.db.conversations && c.conversationId != cid ==> c in db.conversations)
  {
    SendWithoutFault(db, req, env, accepts);
    var res := Models.Resolve(db.conversations, req.senderId, req.receiverId, env.candidateId, env.resolvedAt);
    Models.SummaryUpdateEffect(res.conversations, res.conversationId, env.now, req.content);
  }

  /** The two index inserts: both rows are present afterwards, and only
      rows under their two keys can have been replaced. */
  lemma IndexInsertEffect(t: seq<UserConversation>, req: SendRequest, cid: int, now: int)
    requires Sorted(t, UserConversationKey)
    ensures
      var views := IndexRows(req, cid, now);
      var u := UpsertAll(t, views, UserConversationKey);
      && views[0] in u && views[1] in u
      && (forall v :: v in u ==> v in t || v == views[0] || v == views[1])
      && (forall v :: (&& v in t
                       && UserConversationKey(v) != UserConversationKey(views[0])
                       && UserConversationKey(v) != UserConversationKey(views[1])) ==> v in u)
  {
    var views := IndexRows(req, cid, now);
    assert views == [views[0], views[1]];
    UpsertAllPair(t, views[0], views[1], UserConversationKey);
    assert views[0] != views[1] ==> UserConversationKey(views[0]) != UserConversationKey(views[1]);
  }

  /** A send without faults inserts the two summary rows, one per
      participant naming the other, so both users' listings show the
      conversation; every other summary row stays, including the rows of
      earlier sends, whose key has another timestamp. */
  lemma SendIndexesBothUsers(db: Tables, req: SendRequest, env: SendEnv, accepts: MessageResponse -> bool)
    requires ValidTables(db)
    ensures
      var r := Send(db, req, env, None, accepts);
      var cid := ResolvedId(db, req, env);
      var mine := UserConversation(req.senderId, cid, req.receiverId, env.now, req.content);
      var theirs := UserConversation(req.receiverId, cid, req.senderId, env.now, req.content);
      && mine in Models.UserPartition(r.db.userConversations, req.senderId)
      && theirs in Models.UserPartition(r.db.userConversations, req.receiverId)
      && (forall v :: v in r.db.userConversations ==> v in db.userConversations || v == mine || v == theirs)
      && (forall v :: (&& v in db.userConversations
                       && UserConversationKey(v) != UserConversationKey(mine)
                       && UserConversationKey(v) != UserConversationKey(theirs)) ==> v in r.db.userConversations)
  {
    SendWithoutFault(db, req, env, accepts);
    var cid := ResolvedId(db, req, env);
    IndexInsertEffect(db.userConversations, req, cid, env.now);
  }

  /** The summary update changes no participant, so pairs stay unique. */
  lemma SetSummaryKeepsPairsUnique(t: seq<Conversation>, id: int, at: int, content: string)
    requires Sorted(t, ConversationKey)
    requires Models.UniquePairs(t)
    ensures Models.UniquePairs(SetSummary(t, id, at, content))
  {
    var u := SetSummary(t, id, at, content);
    forall x, y | x in u && y in u && x != y ensures !Models.Pairs(x, y.user1Id, y.user2Id) {
      var i :| 0 <= i < |u| && u[i] == x;
      var j :| 0 <= j < |u| && u[j] == y;
      assert i != j;
      assert t[i] != t[j] by {
        if i < j {
          assert KeyLess(ConversationKey(t[i]), ConversationKey(t[j]));
        } else {
          assert KeyLess(ConversationKey(t[j]), ConversationKey(t[i]));
        }
      }
      assert t[i] in t && t[j] in t;
    }
  }

  /** Delivery changes conversations by the summary update alone. */
  lemma DeliverConversationsTable(resolved: Tables, cid: int, req: SendRequest, env: SendEnv,
                                  fault: Option<Step>, accepts: MessageResponse -> bool)
    requires ValidTables(resolved)
    ensures
      var after := Deliver(resolved, cid, req, env, fault, accepts).db.conversations;
      after == resolved.conversations || after == SetSummary(resolved.conversations, cid, env.now, req.content)
  {
    if fault != Some(StoreMessage) {
      var message := Message(cid, env.now, env.messageUuid, req.senderId, req.receiverId, req.content);
      var stored := ApplyWrite(resolved, InsertMessage(message));
      assert stored.conversations == resolved.conversations;
    }
  }

  /** Whatever fails, a send leaves the conversations table as it was, as
      resolved, or as resolved and refreshed. */
  lemma SendConversationsTable(db: Tables, req: SendRequest, env: SendEnv, fault: Option<Step>,
                               accepts: MessageResponse -> bool)
    requires ValidTables(db)
    ensures
      var res := Models.Resolve(db.conversations, req.senderId, req.receiverId, env.candidateId, env.resolvedAt);
      var after := Send(db, req, env, fault, accepts).db.conversations;
      || after == db.conversations
      || after == res.conversations
      || after == SetSummary(res.conversations, res.conversationId, env.now, req.content)
  {
    var res := Models.Resolve(db.conversations, req.senderId, req.receiverId, env.candidateId, env.resolvedAt);
    DeliverConversationsTable(db.(conversations := res.conversations), res.conversationId, req, env, fault, accepts);
  }

  /** Sequential sends keep at most one conversation row per unordered
      pair, whatever statement fails. */
  lemma SendKeepsPairsUnique(db: Tables, req: SendRequest, env: SendEnv, fault: Option<Step>,
                             accepts: MessageResponse -> bool)
    requires ValidTables(db)
    requires Models.UniquePairs(db.conversations)
    ensures Models.UniquePairs(Send(db, req, env, fault, accepts).db.conversations)
  {
    var res := Models.Resolve(db.conversations, req.senderId, req.receiverId, env.candidateId, env.resolvedAt);
    Models.ResolveKeepsPairsUnique(db.conversations, req.senderId, req.receiverId, env.candidateId, env.resolvedAt);
    SetSummaryKeepsPairsUnique(res.conversations, res.conversationId, env.now, req.content);
    SendConversationsTable(db, req, env, fault, accepts);
  }

  /** send_message as the source is written: the clock read on the creating
      branch of create_or_get_conversation (cassandra_models.py line 117)
      asks the datetime class for an attribute it does not have, so that
      branch raises before its INSERT whenever the pair has no row yet. */
  function SendAsWritten(db: Tables, req: SendRequest, env: SendEnv, fault: Option<Step>,
                         accepts: MessageResponse -> bool): (r: SendResult)
    requires ValidTables(db)
    ensures Models.FindConversation(db.conversations, req.senderId, req.receiverId).None? ==>
      r == SendResult(InternalError, db)
    ensures Models.FindConversation(db.conversations, req.senderId, req.receiverId).Some? ==>
      r == Send(db, req, env, fault, accepts)
  {
    var creates := Models.FindConversation(db.conversations, req.senderId, req.receiverId).None?;
    Send(db, req, env, if creates then Some(CreateConversation) else fault, accepts)
  }

  /** As written, no conversation can ever be created: on a store without
      conversations every send fails and leaves the conversations table
      empty, where the model with the clock value passed in creates the
      conversation on the first send. */
  lemma NoConversationIsEverCreatedAsWritten(db: Tables, req: SendRequest, env: SendEnv,
                                            fault: Option<Step>, accepts: MessageResponse -> bool)
    requires ValidTables(db) && db.conversations == []
    ensures SendAsWritten(db, req, env, fault, accepts).response == InternalError
    ensures SendAsWritten(db, req, env, fault, accepts).db.conversations == []
    ensures Models.FindConversation(Send(db, req, env, None, accepts).db.conversations, req.senderId, req.receiverId)
         == Some(env.candidateId)
  {
    assert Models.FindConversation(db.conversations, req.senderId, req.receiverId).None?;
    SendStoresMessage(db, req, env, accepts);
  }
}
