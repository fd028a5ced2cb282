# Chat server messaging core in Dafny

This project models the server side of a chat application. It has three
parts. The first is the message store: the repository and the chat service
that read and write the message table. The second is the request pipeline,
with its create-message and delete-message commands and its paged-feed
query. The third is the real-time hub, which keeps a registry from user
id to connection id and pushes messages to those connections.

Every operation is a pure function. The store is a sequence of rows. The
invariant `Messages.Valid` holds the table's own constraints: the primary
key is unique and content is at most 2000 characters. A write returns the
new store, or it returns the error the database would raise. A command
handler returns `Completed(state, result)` or `Threw(error)`. The connect
and disconnect handlers of the hub raise nothing and push nothing, so they
return only the new hub. `SendMessage` and `LoadMessages` return a `Step`,
which holds three things:

- the new store and registry;
- the pushes `(connection id, event name, payload)`, in the order they are
  sent;
- the error that was raised, if any.

Three inputs come in as parameters:

- the current instant (`now`);
- the key the database or `Guid.NewGuid` generates (`id`);
- the caller's user id from the HTTP context, as `Option<string>`.

`None` stands for the source's `null` wherever a value may be missing.

Modules, one per file:

- `Optional`, `Seqs` and `Ordering` are generic helpers. They provide
  `Option`, filter and map with their multiset facts, and a key-ordered
  insertion sort.
- `Guids` defines the 128-bit key and its "D" text form. It proves that
  the form parses back to the key.
- `Messages` defines the entity, its defaults, the table invariant, the
  visibility rule and the DTO projection.
- `MessageRepository` models the repository: lookups, add, update,
  delete, mark-as-read and the paged feed.
- `PagedLists` models the page metadata and `Results` the result
  envelope.
- `ValidationPipeline` models the validation stage.
- `ChatService` models the conversation read and the hub-side save.
- `CreateMessage`, `DeleteMessage` and `PagedUserMessages` model the
  commands and the query.
- `ChatHub` models the hub.
- `Scenarios` states end-to-end scenarios and compares the two write paths.

Some behaviour of the source is surprising. The model follows the code as
written, and lemmas state each case:

- A disconnect removes the user's registry entry even when a newer
  connection replaced it (`ChatHub.StaleDisconnectEvictsNewer`).
- The hub stores content that the create command would reject
  (`Scenarios.HubSkipsContentRules`).
- The conversation history ignores both soft-delete flags
  (`ChatService.ConversationIgnoresDeletion`).
- A user deleting a message sent to themself sets only the sender flag
  (`DeleteMessage.SelfDeleteStaysVisible`).
- The create command takes its sender from the command itself. No caller
  identity is consulted, so `CreateMessage.Handle` has no caller input.
- A `UserId` header that is present but empty hides the query-string value
  (`ChatHub.HeaderTakesPrecedence`).

## Model

| member | source | states |
|---|---|---|
| Messages.NewMessageDefaults | ChatApplication.Server/Domain/Entities/Message.cs:18-22 | a new message is unread, has both deletion flags clear and so is visible to both parties, carries no deletion audit, and is a valid row exactly when its content fits the 2000-character column |
| Messages.ValidIsKeyAndFit | ChatApplication.Server/Persistence/MessageConfiguration.cs:11-15 | the table invariant `Valid` holds exactly when the store has as many distinct keys as rows (the primary key) and every row's content fits the 2000-character column |
| Messages.ToDto | ChatApplication.Server/Infrastructure/Services/ChatService.cs:28-35 | the DTO carries the message's key, sender, recipient (as receiver), content and send time, field for field |
| MessageRepository.GetById | ChatApplication.Server/Persistence/Repositories/MessageRepository.cs:24-30 | a row is found exactly when the id is in the store, and the row found is a stored row with that id |
| MessageRepository.GetByIdUnique | ChatApplication.Server/Persistence/MessageConfiguration.cs:11 | under the primary key, looking up a row's id finds that very row |
| MessageRepository.GetAll | ChatApplication.Server/Persistence/Repositories/MessageRepository.cs:33-39 | every row is returned, each as often as it is stored |
| MessageRepository.GetBySender | ChatApplication.Server/Persistence/Repositories/MessageRepository.cs:42-48 | exactly the rows the user sent and has not soft-deleted, each with its multiplicity in the store |
| MessageRepository.GetByRecipient | ChatApplication.Server/Persistence/Repositories/MessageRepository.cs:51-57 | exactly the rows the user received and has not soft-deleted, each with its multiplicity in the store |
| MessageRepository.VisibleIsSentOrReceived | ChatApplication.Server/Persistence/Repositories/MessageRepository.cs:98-100 | the paged feed's filter is the union of the by-sender and by-recipient filters |
| MessageRepository.Add | ChatApplication.Server/Persistence/Repositories/MessageRepository.cs:60-64 | the insert succeeds exactly when the key is new and the content fits; a duplicate key is rejected as such, and a new key with over-long content as too long; on success the store gains exactly that row, lookups of other ids are unchanged, and the table invariant is kept |
| MessageRepository.Update | ChatApplication.Server/Persistence/Repositories/MessageRepository.cs:67-71 | the update succeeds exactly when the row exists and the content fits; a missing row is rejected as missing, and an existing row with over-long content as too long; on success only that row changes, the key set and row count stay, and the invariant is kept |
| MessageRepository.Delete | ChatApplication.Server/Persistence/Repositories/MessageRepository.cs:74-82 | an absent id changes nothing; otherwise exactly that key leaves the store, one row fewer, other lookups unchanged, invariant kept |
| MessageRepository.AddThenDelete | ChatApplication.Server/Persistence/Repositories/MessageRepository.cs:74-82 | deleting the row just added restores the store it was added to |
| MessageRepository.MarkAsRead | ChatApplication.Server/Persistence/Repositories/MessageRepository.cs:85-93 | an absent id changes nothing; otherwise only the target row changes, and only in its read flag |
| MessageRepository.MarkAsReadIdempotent | ChatApplication.Server/Persistence/Repositories/MessageRepository.cs:85-93 | marking a message read twice is the same as marking it once |
| MessageRepository.Feed | ChatApplication.Server/Persistence/Repositories/MessageRepository.cs:98-109 | the user's visible messages, newest first, as a permutation of the filtered rows |
| MessageRepository.SkipTake | ChatApplication.Server/Persistence/Repositories/MessageRepository.cs:110-111 | skip-then-take yields the clamped window of the input, element by element |
| MessageRepository.GetPaged | ChatApplication.Server/Persistence/Repositories/MessageRepository.cs:96-115 | for a page number and size of at least 1: the count is the whole visible feed regardless of paging; the page holds at most page-size visible rows, newest first, and is exactly the feed window starting at (page - 1) * size |
| MessageRepository.GetPagedMessages | ChatApplication.Server/Persistence/Repositories/MessageRepository.cs:108-112 | the query answers a page exactly when the offset (page - 1) * size is not negative and the size is at least 1, and that page is the feed window; otherwise the database rejects the paging arguments |
| Ordering.Sort | ChatApplication.Server/Persistence/Repositories/MessageRepository.cs:109 | the sort result is ordered by the key and is a permutation of its input |
| PagedLists.CeilDiv | ChatApplication.Server/Domain/DTOs/Common/PagedList.cs:32 | the page count k satisfies (k - 1) * size < total <= k * size |
| PagedLists.Empty | ChatApplication.Server/Domain/DTOs/Common/PagedList.cs:59-61 | the parameterless page has no items and page number, page size and total count all zero |
| PagedLists.TotalPagesIsLeast | ChatApplication.Server/Domain/DTOs/Common/PagedList.cs:32 | the page count is the least count that holds every item, and is never negative for a non-negative total |
| PagedLists.NextPageBounds | ChatApplication.Server/Domain/DTOs/Common/PagedList.cs:37-42 | there is a next page exactly when pageNumber * pageSize < totalCount, and a previous one exactly from page 2 on |
| PagedLists.EmptyHasNoPages | ChatApplication.Server/Domain/DTOs/Common/PagedList.cs:32-42 | with no items there are no pages and no next page |
| Results.SuccessResult | ChatApplication.Server/Domain/DTOs/Common/Result.cs:48-54 | a success result has not failed, has no failures and carries its value |
| Results.Result.SetFailures | ChatApplication.Server/Domain/DTOs/Common/Result.cs:24-28 | the result becomes failed with exactly the given messages, and its value is kept |
| Results.FailureResult | ChatApplication.Server/Domain/DTOs/Common/Result.cs:68-71 | a failure result has failed with exactly that message and carries no value |
| Results.FailureResults | ChatApplication.Server/Domain/DTOs/Common/Result.cs:64-67 | a failure result built from a list has failed with exactly those messages and carries no value |
| Results.Fresh | ChatApplication.Server/Domain/DTOs/Common/Result.cs:38 | the parameterless result is not a success and carries no value |
| Results.ToStringDistinguishes | ChatApplication.Server/Domain/DTOs/Common/Result.cs:30-33 | the text is "Success" exactly for a successful result, and a failed result's text starts with "Failure: " |
| ValidationPipeline.ErrorMessages | ChatApplication.Server/MediatR/FluentValidationPipelineBehaviour.cs:24-25 | the messages kept are exactly those of the non-null error entries |
| ValidationPipeline.ErrorMessagesAppend | ChatApplication.Server/MediatR/FluentValidationPipelineBehaviour.cs:24-29 | messages keep the order and multiplicity of their entries: a list's messages are its parts' messages in order, one non-null entry gives its one message, and a null entry gives none |
| ValidationPipeline.Errors | ChatApplication.Server/MediatR/FluentValidationPipelineBehaviour.cs:18-26 | every message of every validator is collected; no validator is skipped |
| ValidationPipeline.ErrorsAppend | ChatApplication.Server/MediatR/FluentValidationPipelineBehaviour.cs:19-26 | the messages of a validator list are the messages of its parts in order |
| ValidationPipeline.ErrorsSingle | ChatApplication.Server/MediatR/FluentValidationPipelineBehaviour.cs:18-26 | one validator contributes exactly its own non-null messages, in order; with the append law this fixes the messages of any validator list, each once and in order |
| ValidationPipeline.NullErrorsPass | ChatApplication.Server/MediatR/FluentValidationPipelineBehaviour.cs:24-28 | null error entries, or no validators at all, never fail a request |
| ValidationPipeline.Validated | ChatApplication.Server/MediatR/FluentValidationPipelineBehaviour.cs:16-36 | with any error the answer is a failed result carrying all messages, no value and the untouched state; with none it is exactly the next stage's answer |
| ValidationPipeline.ShortCircuit | ChatApplication.Server/MediatR/FluentValidationPipelineBehaviour.cs:28-33 | when validation fails, the next stage cannot influence the outcome |
| ChatService.Between | ChatApplication.Server/Infrastructure/Services/ChatService.cs:24-26 | exactly the stored messages exchanged between the two users, in either direction, each as often as it is stored |
| ChatService.BetweenSymmetric | ChatApplication.Server/Infrastructure/Services/ChatService.cs:25-26 | the conversation filter selects the same rows, in the same order, with the two users swapped |
| ChatService.BetweenStrip | ChatApplication.Server/Infrastructure/Services/ChatService.cs:25-26 | the conversation filter reads only sender and recipient, so it commutes with dropping the read and delete flags |
| ChatService.GetConversation | ChatApplication.Server/Infrastructure/Services/ChatService.cs:22-37 | the exchanged messages as DTOs, oldest first, as a permutation of their projections |
| ChatService.ConversationMembers | ChatApplication.Server/Infrastructure/Services/ChatService.cs:24-35 | a DTO is in the conversation exactly when it projects a stored message between the two users |
| ChatService.ConversationSymmetric | ChatApplication.Server/Infrastructure/Services/ChatService.cs:25-26 | the conversation of a with b equals the conversation of b with a |
| ChatService.ConversationIgnoresDeletion | ChatApplication.Server/Infrastructure/Services/ChatService.cs:24-27 | stores differing only in read flags, delete flags and deletion audit give the same conversation |
| ChatService.SaveMessage | ChatApplication.Server/Infrastructure/Services/ChatService.cs:39-60 | the save succeeds exactly when the generated key is new and the content fits the column; on success exactly the new message is stored and its DTO is returned; a failed save reports the duplicate key when the key is taken and the over-long content otherwise |
| ChatService.SaveAcceptsEmptyContent | ChatApplication.Server/Infrastructure/Services/ChatService.cs:39-50 | the service stores empty content between any two user ids under a fresh key; no content rule applies |
| CreateMessage.Validator | ChatApplication.Server/Application/Features/Messages/CreateMessageCommand.cs:17-35 | each rule's message is reported exactly when that rule fails (blank sender, blank recipient, blank content, content over 500 characters); the messages are exactly the failed rules' texts, each once, in the order the rules are declared; there are none exactly when all four rules pass |
| CreateMessage.Handle | ChatApplication.Server/Application/Features/Messages/CreateMessageCommand.cs:51-79 | the handler completes exactly when the key is new and the content fits; it then stores exactly the new message and answers with the key's text; otherwise it throws the database error |
| CreateMessage.SendRejectsInvalid | ChatApplication.Server/Application/Features/Messages/CreateMessageCommand.cs:17-35 | through the pipeline, an invalid command stores nothing and fails with the validator's messages |
| CreateMessage.SendStoresValid | ChatApplication.Server/Application/Features/Messages/CreateMessageCommand.cs:51-72 | through the pipeline, a valid command stores one message of 1 to 500 characters and answers with text that parses back to its key |
| Guids.IdStringRoundTrip | ChatApplication.Server/Application/Features/Messages/CreateMessageCommand.cs:72 | the key's text form parses back to the key |
| Guids.IdStringInjective | ChatApplication.Server/Application/Features/Messages/DeleteMessageCommand.cs:85 | distinct keys have distinct text forms |
| DeleteMessage.Validator | ChatApplication.Server/Application/Features/Messages/DeleteMessageCommand.cs:16-24 | the command fails validation exactly when its id is the empty key, with the one rule message |
| DeleteMessage.SendRejectsEmptyId | ChatApplication.Server/Application/Features/Messages/DeleteMessageCommand.cs:20-22 | an empty id never reaches the handler and leaves the store as it was |
| DeleteMessage.SoftDelete | ChatApplication.Server/Application/Features/Messages/DeleteMessageCommand.cs:69-80 | the sender flag is set when the caller sent the message, otherwise the recipient flag; the audit is stamped; nothing else about the message changes |
| DeleteMessage.Handle | ChatApplication.Server/Application/Features/Messages/DeleteMessageCommand.cs:42-86 | an unauthenticated caller, a missing message and a non-participant each fail with their message and leave the store unchanged; a participant soft-deletes exactly that row and gets the success text; on a valid store the handler never throws |
| DeleteMessage.DeleteHidesFromActorOnly | ChatApplication.Server/Application/Features/Messages/DeleteMessageCommand.cs:69-77 | a delete hides the message from the acting participant and from no one else |
| DeleteMessage.SelfDeleteStaysVisible | ChatApplication.Server/Application/Features/Messages/DeleteMessageCommand.cs:70-77 | a message to oneself stays visible after one's own delete, through the recipient role |
| DeleteMessage.RedeleteRestamps | ChatApplication.Server/Application/Features/Messages/DeleteMessageCommand.cs:69-80 | deleting again keeps the flags and moves the audit stamp |
| PagedUserMessages.Handle | ChatApplication.Server/Application/Features/Messages/GetPagedUserMessagesQuery.cs:31-61 | an unauthenticated caller fails whatever the paging; for an identified caller a page number or size below 1 throws the database's paging error; otherwise an empty feed answers with the parameterless page, and a non-empty one with the repository's window and count, echoing the query; every item is the caller's visible message; the store is never changed |
| PagedUserMessages.AnswerDependsOnlyOnCallersView | ChatApplication.Server/Application/Features/Messages/GetPagedUserMessagesQuery.cs:45 | stores that agree on what the caller may see give the same answer or throw the same error |
| PagedUserMessages.TotalCountIndependentOfPage | ChatApplication.Server/Persistence/Repositories/MessageRepository.cs:104-105 | the count does not depend on the page asked for |
| PagedUserMessages.PageNonEmptyIffWithinPages | ChatApplication.Server/Domain/DTOs/Common/PagedList.cs:32 | a page has items exactly when its number is at most the page count |
| PagedUserMessages.HasNextPageIffNextPageNonEmpty | ChatApplication.Server/Domain/DTOs/Common/PagedList.cs:42 | the next-page flag holds exactly when fetching the next page would return items |
| PagedUserMessages.FeedPositionPage | ChatApplication.Server/Persistence/Repositories/MessageRepository.cs:108-111 | every feed entry appears on the page its position selects, at the offset its position selects |
| PagedUserMessages.PageAt | ChatApplication.Server/Persistence/Repositories/MessageRepository.cs:110-111 | entry k of page p, for k below the page size, is feed entry (p - 1) * size + k whenever that entry exists |
| PagedUserMessages.DefaultQueryReadsNewestTen | ChatApplication.Server/Application/Features/Messages/GetPagedUserMessagesQuery.cs:11-12 | a query with defaults returns the first ten entries of the newest-first feed, with no previous page |
| ChatHub.HeaderTakesPrecedence | ChatApplication.Server/SignalR/ChatHub.cs:113-128 | the header value wins over the query value, the query is used only when the header is absent, and no request context or an empty header means no identity |
| ChatHub.OnConnected | ChatApplication.Server/SignalR/ChatHub.cs:29-41 | an identified connection becomes its user's registered connection and no other entry changes; otherwise nothing changes |
| ChatHub.OnDisconnected | ChatApplication.Server/SignalR/ChatHub.cs:48-60 | an identified user loses their registry entry whichever connection it names, and no other entry changes |
| ChatHub.StaleDisconnectEvictsNewer | ChatApplication.Server/SignalR/ChatHub.cs:48-60 | closing an older connection of a user who reconnected leaves that user unregistered |
| ChatHub.PushTo | ChatApplication.Server/SignalR/ChatHub.cs:79-82 | one push to the user's registered connection, or none when there is none |
| ChatHub.SendMessage | ChatApplication.Server/SignalR/ChatHub.cs:68-89 | the send succeeds exactly when the caller is identified, the key is new and the content fits the column; on success exactly the new message is stored and it is pushed to the sender's then the receiver's registered connection, skipping unregistered ones; an unidentified caller gets the sender error, and an identified caller whose save fails gets the database error (duplicate key, else over-long content); on failure nothing changes and nothing is pushed |
| ChatHub.SendToSelfPushesTwice | ChatApplication.Server/SignalR/ChatHub.cs:78-88 | a message to oneself is pushed twice to the same connection |
| ChatHub.LoadMessages | ChatApplication.Server/SignalR/ChatHub.cs:96-111 | nothing changes; an identified caller with a registered connection gets exactly one push of the conversation, to that connection |
| ChatHub.HistoryGoesToRegisteredConnection | ChatApplication.Server/SignalR/ChatHub.cs:107-110 | a caller whose entry names a newer connection gets nothing on the calling connection |
| Scenarios.HelloReachesBoth | ChatApplication.Server/SignalR/ChatHub.cs:68-89 | with both users connected, one row is stored and both connections receive it, the sender's first |
| Scenarios.ByeWhileAway | ChatApplication.Server/SignalR/ChatHub.cs:48-89 | after the receiver disconnects, a second message is still stored but only the sender is told |
| Scenarios.HistoryAfterReconnect | ChatApplication.Server/SignalR/ChatHub.cs:96-111 | the returning receiver gets both messages on the new connection, oldest first |
| Scenarios.TwoMessageConversation | ChatApplication.Server/Infrastructure/Services/ChatService.cs:27 | two messages of one conversation are read back in time order |
| Scenarios.OutsiderCannotDelete | ChatApplication.Server/Application/Features/Messages/DeleteMessageCommand.cs:63-67 | a third user's delete is forbidden and leaves the store as it was |
| Scenarios.HubSkipsContentRules | ChatApplication.Server/SignalR/ChatHub.cs:76 | the hub saves and delivers empty content that the create command rejects |

## Left out

- Dependency injection, hosting and MediatR wiring are not modelled. The pipeline order is error handling, then logging, then validation.
- Logging and console output are left out because they have no effect on state or results.
- `ErrorHandlerPipelineBehavior` is left out. It catches every exception and throws a new `UnhandledEventingPipelineException` that wraps it under a fresh `Guid` correlation id. In the model, `Threw` carries the handler's own exception; host callers receive it wrapped, and the wrapper and its id are not modelled.
- Authentication, JWT issuing and the user commands and queries are left out. So is `HttpUserContextService`: the caller's id from the claims is a parameter, `None` when there is none.
- Controllers and the client application are outside the messaging core.
- Concurrency is not modelled: the hub's `lock`, the static registry shared by all hub instances, and asynchronous interleaving. Operations are sequential and atomic.
- `DateTime.UtcNow` and `Guid.NewGuid` are not modelled. The instant and the key come in as parameters, and a fresh key is modelled as one not yet in the store.
- The database's foreign keys from sender and recipient to the user table are not modelled. User ids are arbitrary strings.
- User-id equality is modelled as exact string equality everywhere. In the source, the filters of the repository (MessageRepository.cs:45, 54, 99-100) and of the conversation read (ChatService.cs:25-26) run in SQL Server, where `=` on `nvarchar` ignores trailing spaces and, under the default collation, case. The hub's connection dictionary and the delete command's ownership check compare ordinally. So an id such as `"u2 "` matches `"u2"` in those queries but not in the hub. SQL Server's padding and collation rules are not modelled.
- EF `Include` of the sender and recipient navigation properties is left out because it changes no selected row.
- Null strings for command fields and the `receiverId`/`content` hub arguments are left out. Strings are never null here.
- Lengths count `char`s. The source counts UTF-16 code units, so characters outside the Basic Multilingual Plane count once here and twice there.
- The `BaseEntity` audit fields other than `DeletedBy`/`DeletedAt` are left out because no messaging code writes them.
- `GetConversationAsync` and `AddMessageAsync` of `IMessageRepository` are declared without an implementation in the repository class, so they are not modelled.
- MessageRepository.GetPagedMessages: the product `(pageNumber - 1) * pageSize` is unbounded here, whereas the source computes it in 32-bit arithmetic, so a product that overflows is not modelled. The rejection of a negative OFFSET or a FETCH below one row follows SQL Server's rules for OFFSET/FETCH; the text of the database's error is not modelled.
- Tie order: the model sorts the feed and the conversation with one stable insertion sort and uses that same order for rows with equal `SentAt` in every query. SQL Server does not promise a consistent order for tied rows, not even across separate OFFSET/FETCH queries over the same data. `PagedUserMessages.PageAt`, `PagedUserMessages.FeedPositionPage` and `ChatService.ConversationSymmetric` rely on the model's fixed order, so they hold in the source only when no two of the rows involved share a `SentAt`.
- MessageRepository.Add: an entity whose key is `Guid.Empty` is inserted here under the empty key. EF Core would instead generate a fresh key for it. The create handler sets its key with `Guid.NewGuid`. `ChatService.SaveMessageAsync` leaves the key unset and lets EF Core generate one, which the model passes in as the `id` parameter.
- MessageRepository.Update: an entity whose key is `Guid.Empty` is rejected here as a missing row. EF Core's `DbSet.Update` would instead mark it for insertion under a generated key. The two callers in the messaging core are the delete handler (DeleteMessageCommand.cs:82) and `MarkAsReadAsync` (MessageRepository.cs:91). Each updates a row it has just read by a stored key, so neither passes the empty key.
- PagedLists.CeilDiv: models `Math.Ceiling` on `double` as exact integer ceiling division. This is exact for 32-bit operands. A page size of 0 is excluded, because the source then casts infinity or NaN to `int`.
- Results.Fresh: the source's parameterless constructor leaves `Failures` null, and the model writes that as the empty list. So the model does not show that `ToString` on such a result throws in `string.Join` instead of printing "Failure: ". Where the validation stage builds a fresh result, it sets the list with `SetFailures` before returning it.
- MessageRepository.MarkAsRead: requires the store invariant, which the table always satisfies, so that the row it rewrites is known to fit.
- HubException is modelled as the `UnidentifiedSender` error value rather than an exception.
- The hub's remaining failures are modelled only as error values. A database error during the hub save becomes `SaveRejected`. The transport's own failures on a push are not modelled.
