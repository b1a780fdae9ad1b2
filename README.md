# Messenger data-access layer, modelled in Dafny

This project models the data-access layer of a two-party messenger backend.
The layer stores direct messages in three denormalised tables of a
wide-column store. These are `conversations`, `user_conversations` and
`messages`. The layer also:

- resolves a pair of users to a conversation (find-or-create);
- fans a sent message out to all three tables;
- serves three offset-paginated readers and a point lookup;
- wraps the readers in controllers that map rows to response records.

The store is an in-memory class, `CassandraStore.Store`. It keeps each table
as a sequence in strict primary-key order:

- `conversations` is keyed by `conversation_id`.
- `user_conversations` is keyed by `(user_id, last_message_at DESC, conversation_id ASC)`.
- `messages` is keyed by `(conversation_id, created_at DESC, message_id ASC)`.

A DESC clustering column is stored negated, so ascending key order is the
declared clustering order. Strict order makes every key unique:

- `INSERT` is an upsert on the full primary key (`SortedTable.Upsert`).
- `UPDATE` rewrites only the named columns of the rows under the key (`CassandraStore.SetSummary`).

Timestamps, ids and uuids are unbounded integers.

Layout:

- `sorted_table.dfy`: keyed, ordered tables, upsert and filter.
- `schema.dfy`: rows, keys and clustering order.
- `store.dfy`: write statements and the `Store` class.
- `pagination.dfy`: LIMIT, Python slicing, offset windows and page completeness.
- `envelope.dfy`: row-to-record mapping with per-row error isolation.
- `models.dfy`: `MessageModel` and `ConversationModel`.
- `message_controller.dfy`: `MessageController`, plus the `SendProperties` module.
- `conversation_controller.dfy`: `ConversationController`.
- `scenario.dfy`: two users exchange "hi" and "hey".

Some values come from outside the program: the clock (`datetime.utcnow()`,
`time.time()`), the random salt of the new conversation id and `uuid.uuid4()`.
They are parameters. `SendEnv` carries them for a send.

Whether a store statement raises is also a parameter. This covers a
`fails`/`fetchFails` flag, or a `fault: Option<Step>` naming the statement of
a send that the store rejects. Whether the response schema accepts a built
record is a predicate `accepts`.

Controller outcomes are `Outcome<T> = Ok(value) | NotFound | InternalError`.
They stand for the 200, 404 and 500 answers.

Decisions where the text leaves room:

- **Scan order of `conversations`.** The find-or-create lookup scans `conversations` with a `LIMIT 1`. The scan order is fixed to `conversation_id` ascending. "First match" means first in that order.
- **LIMIT bounds.** The readers send `LIMIT page * limit`. CQL's LIMIT is a 32-bit int: Cassandra refuses a LIMIT that is not positive or exceeds 2147483647 (`Pagination.MaxLimit`). In both cases the readers return `None` and the controllers answer `InternalError`. No `requires` is placed on `page` or `limit`. So only the first `2147483647 / limit` pages of a partition can be read.
- **Negative slice bounds.** With `page >= 1, limit >= 1` the offset is never negative. In the other cases Python's normalisation of negative slice bounds is modelled (`Pagination.PySlice`).
- **`total` in the envelopes.** `total` is the length of the sliced page. This follows the code. It is not the count of the whole fetch window, nor of the partition.
- **UPDATE of a missing key.** An `UPDATE` of a missing conversation key is a no-op in the model. Cassandra would create the row. `send_message` never issues that update: the id it resolves always has a row.

## Model

| member | source | states |
|---|---|---|
| SortedTable.Upsert | scripts/setup_db.py:55-86 | INSERT is an upsert on the full primary key. Afterwards the row is present and the table is still in strict key order. Only a row with the same key is replaced; every other row stays. The table grows by one exactly when the key was new. |
| SortedTable.UpsertAll | app/controllers/message_controller.py:56-71 | A batch of inserts keeps key order. Every row afterwards is old or inserted. Old rows under keys not written stay. The last insert is present. |
| SortedTable.UpsertAllPair | app/controllers/message_controller.py:56-71 | The two-element loop of inserts is one upsert followed by the other. |
| SortedTable.Filter | app/models/cassandra_models.py:47 | A WHERE selection holds exactly the rows of the table that satisfy the predicate, and no more rows than the table. |
| SortedTable.FilterSorted | app/models/cassandra_models.py:47 | A WHERE selection of a key-ordered table is key-ordered. |
| Schema.MessageClusteringOrder | scripts/setup_db.py:85-86 | Within one `messages` partition, key order is `created_at` descending with ties broken by `message_id` ascending. |
| Schema.UserConversationClusteringOrder | scripts/setup_db.py:72-73 | Within one `user_conversations` partition, key order is `last_message_at` descending with ties broken by `conversation_id` ascending. |
| Schema.ConversationKeyEncoding | scripts/setup_db.py:55-56 | The `conversations` key is `conversation_id` alone: two rows share a key exactly when their ids are equal. Keys compare as the ids do. |
| Schema.UserConversationKeyEncoding | scripts/setup_db.py:66-73 | The `user_conversations` key names one `(user_id, last_message_at, conversation_id)`. Within a user, key order is `last_message_at` descending (the column is stored negated), then `conversation_id` ascending. |
| Schema.MessageKeyEncoding | scripts/setup_db.py:78-86 | The `messages` key names one `(conversation_id, created_at, message_id)`. Within a conversation, key order is `created_at` descending (the column is stored negated), then `message_id` ascending. |
| CassandraStore.SetSummary | app/controllers/message_controller.py:46-54 | The summary UPDATE sets `last_message_at` and `last_message_content` of the rows under the id. Ids and participants of all rows stay, and rows under other ids are unchanged. |
| CassandraStore.ApplyWrite | scripts/setup_db.py:55-86 | Every write statement keeps all three tables in key order and changes only the table it names. |
| CassandraStore.Store.constructor | scripts/setup_db.py:47-87 | The keyspace starts with three empty, valid tables. |
| CassandraStore.Store.Execute | app/models/cassandra_models.py:40 | A statement the store rejects writes nothing and is reported. An accepted one applies its write. |
| CassandraModels.CreateMessage | app/models/cassandra_models.py:24-41 | The uuid used is the caller's, or else the generated one, and it is returned. The store changes by exactly one `messages` insert with the given columns. A rejected insert returns None and writes nothing. |
| CassandraModels.MessageInsertEffect | app/models/cassandra_models.py:27-40 | After a message insert the row is present and every message under another key stays. The table grows by one when the key was new. The two conversation tables are unchanged. |
| CassandraModels.ConversationPartition | app/models/cassandra_models.py:47 | Exactly the messages of the conversation, in key order. |
| CassandraModels.EarlierPartition | app/models/cassandra_models.py:58 | Exactly the messages of the conversation with `created_at < before`, strictly, in key order. |
| CassandraModels.GetConversationMessages | app/models/cassandra_models.py:44-52 | Fails exactly when the LIMIT `page * limit` is not positive or exceeds 2147483647. Every row returned belongs to the conversation. For `page, limit >= 1` within that bound, the result is the partition's segment from `(page-1)*limit`, of at most `limit` rows. |
| CassandraModels.GetMessagesBeforeTimestamp | app/models/cassandra_models.py:55-63 | As above, with the window taken after the strict timestamp filter: every row has `created_at < before`. |
| CassandraModels.ConversationMessagesNewestFirst | app/models/cassandra_models.py:47 | A page of a conversation's messages is newest first, with equal timestamps by ascending message id. |
| CassandraModels.MessagesBeforeTimestampNewestFirst | app/models/cassandra_models.py:58 | The same order holds for the filtered reader. |
| CassandraModels.UserPartition | app/models/cassandra_models.py:81 | Exactly the user's summary rows, in key order. |
| CassandraModels.GetUserConversations | app/models/cassandra_models.py:78-86 | Fails exactly when the LIMIT `page * limit` is not positive or exceeds 2147483647. Every row returned is the user's. For `page, limit >= 1` within that bound, the result is the segment from `(page-1)*limit`, of at most `limit` rows. |
| CassandraModels.UserConversationsMostRecentFirst | app/models/cassandra_models.py:81 | A page of a user's conversations is ordered by `last_message_at` descending, then `conversation_id` ascending. |
| CassandraModels.GetConversationRow | app/models/cassandra_models.py:89-96 | Returns a row exactly when some row has the id, and the row returned has that id. |
| CassandraModels.ConversationRowUnique | app/models/cassandra_models.py:89-96 | On a keyed table the lookup returns the one row stored under the key. |
| CassandraModels.SummaryUpdateEffect | app/controllers/message_controller.py:46-54 | The summary UPDATE leaves the stored row with the new timestamp and content and its participants unchanged. Every other row stays. |
| CassandraModels.PairsIsUnorderedPair | app/models/cassandra_models.py:102 | The OR of the lookup holds exactly when the row's two participants, as an unordered pair, are the two users. |
| CassandraModels.FindConversation | app/models/cassandra_models.py:101-108 | Finds nothing exactly when no row pairs the two users in either order. Otherwise returns the id of the first such row. |
| CassandraModels.FindConversationSymmetric | app/models/cassandra_models.py:102 | The lookup gives the same answer for `(a, b)` and `(b, a)`. |
| CassandraModels.FindConversationIgnoresSummary | app/models/cassandra_models.py:102 | The lookup reads only ids and participants, so summary updates do not change its answer. |
| CassandraModels.FoundRow | app/models/cassandra_models.py:101-108 | The id found names, by key, a row between the two users. |
| CassandraModels.Resolve | app/models/cassandra_models.py:99-126 | After resolution the pair finds the returned id in both orders, and its row pairs the two users. An existing pair writes nothing. Otherwise exactly one row `(candidate, a, b, now, "")` is added under the candidate id, and rows under other ids are kept. |
| CassandraModels.ResolveIsStable | app/models/cassandra_models.py:101-108 | Once a pair is resolved, resolving `(b, a)` with any candidate gives the same id and writes nothing. |
| CassandraModels.ResolveKeepsPairsUnique | app/models/cassandra_models.py:99-126 | Sequential resolutions keep at most one conversation row per unordered pair. |
| CassandraModels.ResolveCollisionOverwrites | app/models/cassandra_models.py:112-125 | The new id is not checked for freshness. If it collides with another pair's row, the insert overwrites that row and the table does not grow. |
| CassandraModels.CreateOrGetConversation | app/models/cassandra_models.py:99-126 | A failed lookup, or a failed insert for a new pair, returns None and writes nothing. Otherwise it returns the resolved id and the conversations table becomes the resolved table. |
| Pagination.PySlice | app/models/cassandra_models.py:52 | Python slicing: in-range bounds give the ordinary subsequence, and crossed bounds give an empty list. |
| Pagination.Fetch | app/models/cassandra_models.py:47-51 | An accepted `LIMIT n` returns the first `min(n, len)` rows. |
| Pagination.Segment | app/models/cassandra_models.py:52 | A page holds at most `limit` rows, taken from position `offset` in order. Below the end it holds exactly `min(limit, n - offset)` rows. It is empty exactly when `offset >= n` or `limit = 0`. |
| Pagination.FetchThenSlice | app/models/cassandra_models.py:49-52 | Fetching `offset + limit` rows and then slicing `[offset:offset+limit]` is the segment from `offset`. |
| Pagination.Offset | app/models/cassandra_models.py:45 | `offset = (page-1)*limit` is non-negative for `page, limit >= 1`, and `offset + limit = page * limit`. |
| Pagination.Window | app/models/cassandra_models.py:45-52 | A read fails exactly when the LIMIT `page * limit` is not positive or exceeds 2147483647. For `page, limit >= 1` within that bound it is `Segment(rows, (page-1)*limit, limit)`. It is empty for other accepted inputs. It returns only stored rows. |
| Pagination.WindowSorted | app/models/cassandra_models.py:47-52 | A page of an ordered partition is ordered. |
| Pagination.PagesArePrefix | app/models/cassandra_models.py:45-52 | Pages `1..k` at a fixed limit, with `k * limit` within the LIMIT bound, concatenated, are exactly the first `min(k*limit, n)` ordered rows: no duplicates, no omissions. |
| Pagination.PagesCoverAll | app/models/cassandra_models.py:45-52 | Pages `1..ceil(n/limit)` reproduce the whole partition, as long as the last read's LIMIT is within the bound. |
| Envelope.Accepted | app/controllers/message_controller.py:111-123 | The mapped records the schema accepts are no more than the rows, and each is accepted. |
| Envelope.AcceptedKeepsOrder | app/controllers/conversation_controller.py:40-50 | The surviving records are an order-preserving selection of the mapped rows. |
| Envelope.AcceptedKeepsEveryValidRow | app/controllers/conversation_controller.py:40-50 | No record the schema accepts is dropped. |
| Envelope.AcceptedAll | app/controllers/message_controller.py:111-123 | When every record is accepted, `data` is every row, mapped, in order. |
| Envelope.CollectAccepted | app/controllers/message_controller.py:111-123 | The append loop with per-row try/except computes exactly `Accepted(rows)`. |
| MessageController.MessageResponseKeepsEveryColumn | app/controllers/message_controller.py:114-121 | The response record carries every column of the message row: two records are equal exactly when the rows are. |
| MessageController.IndexRows | app/controllers/message_controller.py:56-70 | The summary loop writes two rows, the sender's and then the receiver's. Each row names the other user, the conversation, the send time and the content. The two rows share a key, and the second overwrites the first, exactly when sender and receiver are the same user. |
| MessageController.Deliver | app/controllers/message_controller.py:37-79 | The statements after resolution leave every table in key order, whichever statement fails. |
| MessageController.Send | app/controllers/message_controller.py:32-85 | A send, with or without a failing statement, leaves every table in key order. |
| MessageController.SendMessage | app/controllers/message_controller.py:19-85 | The method's answer and the store it leaves are exactly `Send` of the old store. |
| MessageController.DeliverMessage | app/controllers/message_controller.py:37-79 | The statements after resolution: answer and store are exactly `Deliver` of the old store. |
| MessageController.IndexUsers | app/controllers/message_controller.py:56-71 | The loop inserts the rows `(sender, conv, receiver)` and then `(receiver, conv, sender)`. It stops at the first rejected insert and touches no other table. |
| MessageController.GetConversationMessages | app/controllers/message_controller.py:107-135 | A failed fetch gives `InternalError`. Otherwise the envelope has `total` = number of rows fetched, echoes `page` and `limit`, and `data` = the accepted mapped rows in row order. |
| MessageController.GetMessagesBeforeTimestamp | app/controllers/message_controller.py:159-187 | The same envelope over the timestamp-filtered rows. |
| MessageController.ConversationMessagesEnvelope | app/controllers/message_controller.py:108-129 | For `page, limit >= 1` with `page * limit` within the LIMIT bound: `total <= limit` and `len(data) <= total`. Every entry is a stored message of the conversation, mapped field by field. |
| MessageController.MessagesBeforeTimestampEnvelope | app/controllers/message_controller.py:160-181 | As above, and every entry has `created_at < before`. |
| SendProperties.ResolvedId | app/controllers/message_controller.py:34-36 | The id a send uses is the existing pair's id whenever the pair has a row. |
| SendProperties.SendStatements | app/controllers/message_controller.py:34-71 | A send without faults issues five write statements for a new pair and four otherwise. |
| SendProperties.DeliverAppliesIssuedStatements | app/controllers/message_controller.py:38-85 | After resolution, the store holds exactly the statements issued before the rejected one. A rejection gives `InternalError`. |
| SendProperties.SendAppliesIssuedStatements | app/controllers/message_controller.py:32-85 | Any failure gives `InternalError`. The store then holds exactly the statements issued before the failing one, in order, with nothing rolled back. The conversation is resolved before the message insert. |
| SendProperties.SendWithoutFault | app/controllers/message_controller.py:32-79 | A fault-free send: each table is the resolved, inserted or upserted table, and the answer is the echoed record. |
| SendProperties.SendStoresMessage | app/controllers/message_controller.py:34-44 | The message row carries the resolved conversation id, the send time, the uuid, both users and the content. Other messages stay. The response echoes the stored row, or is `InternalError` when the schema rejects it. |
| SendProperties.SendRefreshesSummary | app/controllers/message_controller.py:46-54 | The conversation row has `last_message_at = now` and `last_message_content = content`, and its participants are unchanged. A new row has the users in argument order. Other conversation rows stay. |
| SendProperties.IndexInsertEffect | app/controllers/message_controller.py:56-71 | After the two index inserts, both rows are present. Only rows under their two keys can have been replaced. |
| SendProperties.SendIndexesBothUsers | app/controllers/message_controller.py:56-71 | Both users' listings show the conversation, each naming the other user. No other summary row changes, so earlier rows of the same conversation accumulate. |
| SendProperties.SendConversationsTable | app/controllers/message_controller.py:32-85 | Whatever fails, `conversations` ends as it was, as resolved, or as resolved and refreshed. |
| SendProperties.SetSummaryKeepsPairsUnique | app/controllers/message_controller.py:46-54 | The summary update keeps pairs unique. |
| SendProperties.SendKeepsPairsUnique | app/controllers/message_controller.py:32-85 | Sequential sends keep at most one conversation row per unordered pair. |
| SendProperties.SendAsWritten | app/models/cassandra_models.py:117 | As written, a send to a pair without a row fails with `InternalError` and leaves the store unchanged. |
| SendProperties.NoConversationIsEverCreatedAsWritten | app/models/cassandra_models.py:110-126 | As written, on a store without conversations every send fails and no conversation is created. With the clock value as a parameter, the first send creates the conversation. |
| ConversationController.ListEntryWithinUser | app/controllers/conversation_controller.py:42-48 | A list entry has no `user1_id`. Within one user's listing, two entries are equal exactly when their summary rows are. |
| ConversationController.DetailKeepsEveryColumn | app/controllers/conversation_controller.py:85-91 | The detail response carries both participants and every other column of the row: two responses are equal exactly when the rows are. |
| ConversationController.GetUserConversations | app/controllers/conversation_controller.py:35-62 | A failed fetch gives `InternalError`. Otherwise `total` = rows fetched, `page` and `limit` are echoed, and `data` = the accepted entries in row order. |
| ConversationController.UserConversationsEnvelope | app/controllers/conversation_controller.py:38-56 | For `page, limit >= 1` with `page * limit` within the LIMIT bound: `total <= limit` and `len(data) <= total`. Each entry has `id = conversation_id`, `user1_id = None` and `user2_id = other_user_id`, with the summary fields copied from one of the user's rows. |
| ConversationController.GetConversation | app/controllers/conversation_controller.py:77-99 | `NotFound` exactly when the lookup succeeds and no row has the id. A lookup failure is `InternalError`. `Ok` copies id, participants and summary from a stored row under the id. |
| ConversationController.GetConversationOfStoredRow | app/controllers/conversation_controller.py:85-91 | For a stored row, the answer is that row's fields, or `InternalError` if the schema rejects them. |
| Scenario.FirstSendTables | app/controllers/message_controller.py:32-71 | On an empty store, "hi" from 1 to 2 leaves one conversation, two summary rows and one message. |
| Scenario.ReplyTables | app/controllers/message_controller.py:32-71 | A later "hey" from 2 to 1 reuses the conversation. The summary rows accumulate, newest first per user. |
| Scenario.FirstContactThenReply | app/controllers/message_controller.py:19-85 | After `send(1,2,"hi")`, the conversation holds `(1, 2, "hi")`. `send(2,1,"hey")` reuses it. The first message page is `["hey", "hi"]`. User 1's listing holds one summary row per send. |

## Findings

| source | as written | input that shows it | evidently intended | confidence | as-written member | corrected member |
|---|---|---|---|---|---|---|
| app/models/cassandra_models.py:117 | `datetime.now(datetime.UTC)` looks up `UTC` on the `datetime` class imported at line 6. The class has no such attribute (it belongs to the module), so the creating branch of `create_or_get_conversation` raises before its INSERT. `send_message` turns that into a 500. | Any first send between two users, e.g. `send(1, 2, "hi")` on an empty store. | Read the current UTC time and create the conversation. | high (not executed) | SendProperties.SendAsWritten | CassandraModels.Resolve |

The rest of the model uses the corrected behaviour: the creating branch takes
the clock value `now` as a parameter.

## Left out

- CassandraStore.Store.Execute: a statement that raises after taking effect is not modelled. A write that times out may still be applied, so after a failed summary UPDATE the row may already carry the new summary. The model treats a failing statement as writing nothing. `SendProperties.SendAppliesIssuedStatements` and `SendProperties.DeliverAppliesIssuedStatements` rely on that: they say the store holds exactly the statements issued before the failing one. On a real store it may also hold the failing one.
- Asynchronous execution (`run_in_executor`), the shared driver handle, logging, FastAPI exceptions and status codes. Store calls are direct method calls, and outcomes are the `Outcome` datatype.
- The clock, the random salt of the conversation id and `uuid4`. They are parameters. The id formula `int(time.time() * 1000) + random.randint(0, 999)` is not modelled. Its value arrives as `candidateId`.
- Concurrency. Two concurrent first sends for one pair could both create a conversation. Only sequential behaviour is modelled.
- CQL dialect limits. Real Cassandra refuses the `OR` predicate of the lookup. The model evaluates the predicate the query text states.
- Cassandra's token order for a full scan of `conversations`. The model scans in `conversation_id` order.
- The response schemas in `app.schemas`, which are not part of this model. Whether a record is accepted is a predicate parameter.
- How `row.get(...)` behaves on malformed rows. The model's rows always have every column, so a row fails only when the schema rejects the record.
- `str(message_id)` in the responses. The id is kept as the integer uuid.
- The setup script's connection retry loop and DDL execution, and the test-data generator. The model starts from an empty `Store`.
- Rebuilding the summary rows from the message history. Nor does the model keep exactly two summary rows per conversation: the code accumulates one row per send per user, because `last_message_at` is part of the key, and the model follows the code.
- Idempotence of reads. Readers are functions of the table contents, so repeated reads of an unchanged store are equal by construction, and no lemma states it.
- Self-conversations (`sender == receiver`). They are not rejected, as in the code. Both summary inserts then write the same row.
