# NServiceBus, modelled and proved

Dafny models of the algorithmic cores of NServiceBus, with proofs of what those cores promise. `dafny verify dfyconfig.toml` checks everything.

Code that changes things in place (the timeout table, the bus, the distributor, the proxy, the mutators) is modelled by classes and methods with loops. Each of their contracts ties the new state to a function of the old one. Where a promise spans many calls, the objects carry the run they make as a ghost field: every method takes one step of a transition system (`Next`), and the class invariant says that the real fields are what the run made them. The lemmas about those systems, over every run and every interleaving, are then about the classes.

| module | what it covers |
|---|---|
| TimeoutTable | the in-memory timeout table: push, clear, pop, dispatch; refinement to a stable priority queue |
| TimeoutPolling | the poller, other threads and an ideal clock as a transition system: conservation, two-sided timing, drain order |
| TestingTimeouts | the second timeout queue, with its linear-scan minimum; it drains the same queue |
| TimeoutStore | the durable store beside the table, the handlers that update both, the poller, restart by replay |
| TimeoutThreads | timeout messages handled by any number of threads, in two halves that interleave |
| Encryption, EncryptionWalk, EncryptionRoundTrip | encrypting members of a possibly cyclic object graph in place; what the walk visits; decrypting what was encrypted |
| UnitOfWork | the bracket of units of work around one message, with a failure at any call |
| HandlerOrdering | from specified order and scanned types to the handlers a message invokes |
| TimeToBeReceived | the cache of times to be received against the rule it caches |
| Callbacks | the table of callbacks waiting for replies |
| Distributor | capacity tokens, worker restarts, the licence limit, dispatch and rollback |
| Proxy | correlation ids and addresses rewritten in both directions, notifications to subscribers |
| Subscriptions | who is subscribed to which message types; publisher and proxy find the same subscribers |
| DataBus | the claim check for large properties, through a gateway and back |
| Addresses, MsmqLabel, EnclosedTypes, Strings | text forms: addresses, MSMQ paths, the MSMQ label, the enclosed-types header, type names |
| Sequences | small facts about sequences |
| SlaEstimator | the sliding window and the extrapolation to a breach of the service level agreement |

Clocks, generated ids, serializers, the encryption service, reflection, and which calls throw are parameters. Message queues are sequences. A transactional receive is one step, committed or rolled back whole.

## Where the code does less than it says

Each of these is proved with the exact condition under which the promise holds. Most come with a lemma or method that reaches a state in which it fails.

- A timeout at `DateTime.MinValue` is taken out of the table and never dispatched, because that value also marks an empty bucket (`LostExactlyAtMinValue`). Its presence can also delay others past their deadline (`OnTimeExactlyAboveMinValue`, `LateRun`).
- The exception for a bucket says it lists the timeouts that failed; it lists the whole bucket (`ListsFailuresExactly`).
- A timeout that has been dispatched but not yet confirmed in the store is dispatched again after a restart, and store and table then part (`RestartAgreesExactlyWhenNoRequestPending`, `RequestPending`).
- With several handler threads a clear can strand a timeout in the store, and an add can outlive its clear in the table (`ThreadsAgreeExactly`, `ConcurrentClearStrandsATimeout`, `ConcurrentAddOutlivesItsClear`).
- A `WireEncryptedString` that hangs off two members, or has no value, is not restored (`WireRestoredExactly`, `SharedStringLost`).
- A data-bus property that is null cannot be received (`ReceivableExactly`); one that wraps null cannot be sent (`DataBusMessageMutator.MutateOutgoing`).
- A handler that asks to stop and then throws leaves the stop flag set (`FlagLeftSet`), which changes the next dispatch exactly when `StaleFlagMatters` says so, and can hide a failure (`StaleFlagHidesFailure`).
- A handler type scanned twice makes configuration throw (`LoadsExactly`).
- Registering a message type after queries can make the cache wrong (`LateRegistrationExactly`, `LateRegistrationMissed`).
- Registering a second callback for the same message id makes the first one wait for ever (`CompletedExactly`).
- An identity name is lost from the label when the correlation id holds identity tags (`IdentityNameExactly`).
- A generic type, or a type whose name misleads the version search, is read differently from the header than it is published (`QualifiedNameParsesExactly`, `ProxySeesPublishersTypes`).

Two comments in the sources describe something else than the code does, and the model follows the code. The comment in `ForEachMember` (EncryptionMessageMutator.cs:61) speaks of skipping primitives and system types; the code tests the type of the object that declares the member, not of what the member holds. The comment on `BusAsyncResult.Complete` has blocked threads released before the callback is called; the code calls it first.

## Model

| member | source | states |
|---|---|---|
| TimeoutTable.DefaultTimeoutManager.PushTimeout | src/timeout/NServiceBus.Timeout.Core/DefaultTimeoutManager.cs:21-30 | pushing is a stable insertion by time into the queue the table stands for; buckets stay non-empty and keyed by their own time |
| TimeoutTable.DefaultTimeoutManager.ClearTimeout | src/timeout/NServiceBus.Timeout.Core/DefaultTimeoutManager.cs:62-75 | clearing removes exactly the saga's timeouts and keeps everyone else's order; emptied buckets go |
| TimeoutTable.DefaultTimeoutManager.PopTimeout | src/timeout/NServiceBus.Timeout.Core/DefaultTimeoutManager.cs:32-60 | it sleeps the whole duration only if nothing is closer than that, or over the bucket at DateTime.MinValue; otherwise the earliest bucket is attempted whole, at its time or at once, and it throws exactly when a dispatch failed, naming the bucket |
| TimeoutTable.DefaultTimeoutManager.TakeDue | src/timeout/NServiceBus.Timeout.Core/DefaultTimeoutManager.cs:34-48 | the locked part: removes exactly the earliest bucket if it is close enough |
| TimeoutTable.DefaultTimeoutManager.DispatchTimeouts | src/timeout/NServiceBus.Timeout.Core/DefaultTimeoutManager.cs:77-96 | every timeout of the bucket is attempted, in order, whatever fails; it throws exactly when one failed, and its exception then lists the bucket |
| TimeoutTable.ListsFailuresExactly | src/timeout/NServiceBus.Timeout.Core/DefaultTimeoutManager.cs:94-95 | what the exception lists is what failed if and only if the whole bucket failed |
| TimeoutTable.FlattenPushed | src/timeout/NServiceBus.Timeout.Core/DefaultTimeoutManager.cs:21-30 | the bucketed table refines a stable priority queue under push |
| TimeoutTable.FlattenCleared | src/timeout/NServiceBus.Timeout.Core/DefaultTimeoutManager.cs:62-75 | the bucketed table refines the queue under clear |
| TimeoutTable.StableSortHolds | src/timeout/NServiceBus.Timeout.Core/DefaultTimeoutManager.cs:21-60 | the order of the queue is sorted, a permutation, and keeps arrival order among equal times |
| TimeoutTable.StableOrderIsUnique | src/timeout/NServiceBus.Timeout.Core/DefaultTimeoutManager.cs:21-60 | only one order has these properties |
| TimeoutTable.QueueIsStableSort | src/timeout/NServiceBus.Timeout.Core/DefaultTimeoutManager.cs:21-30 | after any pushes the table reads as the stable time-sort of what was pushed |
| TimeoutPolling.Conservation | src/timeout/NServiceBus.Timeout.Core/DefaultTimeoutManager.cs:21-96 | over every run, pushed = pending + in flight + attempted + cleared + lost, as multisets |
| TimeoutPolling.BoundedLateness | src/timeout/NServiceBus.Timeout.Core/DefaultTimeoutManager.cs:32-60 | over every run with times above DateTime.MinValue, nothing is dispatched before its time k or after max(k, pushed + duration), and the clock cannot pass that while it is pending |
| TimeoutPolling.LostExactlyAtMinValue | src/timeout/NServiceBus.Timeout.Core/DefaultTimeoutManager.cs:50-54 | for every duration, timeouts for a moment can never be lost if and only if the moment is not DateTime.MinValue |
| TimeoutPolling.OnTimeExactlyAboveMinValue | src/timeout/NServiceBus.Timeout.Core/DefaultTimeoutManager.cs:34-54 | the timing promise holds for all runs over times from a bound on if and only if the bound is above DateTime.MinValue |
| TimeoutPolling.LateRun | src/timeout/NServiceBus.Timeout.Core/DefaultTimeoutManager.cs:50-54 | a concrete run in which a timeout at DateTime.MinValue makes another one late |
| TimeoutPolling.LineFrom | src/timeout/NServiceBus.Timeout.Core/DefaultTimeoutManager.cs:32-60 | while nobody pushes or clears, polling only moves the front of one unchanging line: attempted, in flight, pending |
| TimeoutPolling.DrainIsStableSort | src/timeout/NServiceBus.Timeout.Core/DefaultTimeoutManager.cs:21-60 | pushing anything and draining the table attempts the stable time-sort of what was pushed |
| TimeoutPolling.TableDrains | src/timeout/NServiceBus.Timeout.Core/DefaultTimeoutManager.cs:32-60 | left alone, a poller with a positive duration empties the table |
| TimeoutPolling.EverythingDispatched | src/timeout/NServiceBus.Timeout.Core/DefaultTimeoutManager.cs:21-60 | whatever is pushed gets dispatched, all of it, on time and in the order of its stable sort |
| TimeoutPolling.PopTimeoutIsOneCycle | src/timeout/NServiceBus.Timeout.Core/DefaultTimeoutManager.cs:32-60 | an undisturbed call of PopTimeout is one cycle of the transition system |
| TestingTimeouts.TimeoutManager.Push | src/testing/TimeoutManager.cs:8-20 | files the value under a time or a span from now, unless the sum leaves the range of DateTime |
| TestingTimeouts.TimeoutManager.Pop | src/testing/TimeoutManager.cs:22-36 | the linear-scan minimum takes the front of the same queue DefaultTimeoutManager drains; on an empty storage it throws |
| TestingTimeouts.PushAndDrain | src/testing/TimeoutManager.cs:8-36 | pushing any values and popping until nothing is left yields the stable time-sort, the order of DefaultTimeoutManager (DrainIsStableSort) |
| TestingTimeouts.HeadRemoved | src/testing/TimeoutManager.cs:29-33 | removing the first of the earliest list, and the list when empty, removes the head of the queue |
| TimeoutStore.InMemoryTimeoutPersistence.Add | src/timeout/NServiceBus.Timeout.Hosting.Windows/Persistence/InMemoryTimeoutPersistence.cs:18-25 | stores the timeout last, under its new id |
| TimeoutStore.InMemoryTimeoutPersistence.ClearTimeoutsFor | src/timeout/NServiceBus.Timeout.Hosting.Windows/Persistence/InMemoryTimeoutPersistence.cs:33-38 | removes exactly the saga's timeouts, in place and in order |
| TimeoutStore.InMemoryTimeoutPersistence.Remove | src/timeout/NServiceBus.Timeout.Hosting.Windows/Persistence/InMemoryTimeoutPersistence.cs:27-31 | removes the one timeout with the id; throws, changing nothing, when there is not exactly one |
| TimeoutStore.TimeoutTransportMessageHandler.Handle | src/timeout/NServiceBus.Timeout.Core/TimeoutTransportMessageHandler.cs:12-46 | each message clears a saga in store and table, adds one timeout to both, or throws and changes neither |
| TimeoutStore.DecisionExactly | src/timeout/NServiceBus.Timeout.Core/TimeoutTransportMessageHandler.cs:14-45 | which message clears, which is stored as which timeout, and which throws what, outcome by outcome and with no other outcome possible |
| TimeoutStore.CacheExistingTimeouts | src/timeout/NServiceBus.Timeout.Core/TimeoutRunner.cs:30-46 | start-up pushes everything stored, in store order |
| TimeoutStore.StoreAndTableAgree | src/timeout/NServiceBus.Timeout.Core/TimeoutTransportMessageHandler.cs:12-46 | over every run, all of the table is in the store and all of the store is in the table, in flight, attempted or lost |
| TimeoutStore.ReplayLosesNothing | src/timeout/NServiceBus.Timeout.Core/TimeoutRunner.cs:30-46 | after a restart the table is the stable sort of the store: everything persisted is pending, and nothing else |
| TimeoutStore.RestartAgreesExactlyWhenNoRequestPending | src/timeout/NServiceBus.Timeout.Core/TimeoutRunner.cs:17-46 | after a restart the copies agree for ever if and only if no stored timeout has a dispatch message outstanding |
| TimeoutStore.PendingRequestBreaksAgreement | src/timeout/NServiceBus.Timeout.Core/Dispatch/TimeoutDispatchHandler.cs:11-24 | an outstanding dispatch message confirmed after the restart leaves a pending timeout that is not stored |
| TimeoutStore.RequestPending | src/timeout/NServiceBus.Timeout.Core/TimeoutRunner.cs:17-46 | the run store, take, dispatch reaches such a service |
| TimeoutStore.TimeoutService.constructor | src/timeout/NServiceBus.Timeout.Core/TimeoutRunner.cs:17-28 | starting on a store is the restart step; the invariant holds again if and only if no stored timeout has a dispatch message outstanding |
| TimeoutStore.TimeoutService.Handle | src/timeout/NServiceBus.Timeout.Core/TimeoutTransportMessageHandler.cs:12-46 | handling a timeout message is the add or the clear step of the run, or none if it throws |
| TimeoutStore.TimeoutService.Poll | src/timeout/NServiceBus.Timeout.Core/TimeoutRunner.cs:54-69 | one turn of the polling loop is a take step and one attempt step for each timeout of the bucket; a dispatch message goes out for exactly those whose dispatch did not fail |
| TimeoutStore.TimeoutService.HandleDispatch | src/timeout/NServiceBus.Timeout.Core/Dispatch/TimeoutDispatchHandler.cs:11-24 | a dispatch message is the confirming step, which removes that timeout and no other, or is rolled back when it is not stored any more |
| TimeoutStore.TimeoutService.ObjectsAgree | src/timeout/NServiceBus.Timeout.Core/TimeoutTransportMessageHandler.cs:12-46 | after every call the manager's table and the persister's list agree |
| TimeoutThreads.ThreadsAgreeExactly | src/timeout/NServiceBus.Timeout.Hosting.Windows/TimeoutMessageProcessor.cs:30-48 | after any run of any number of handler threads, store and table agree if and only if, for each timeout not taken by the poller, the last store half about it was a clear exactly when the last table half was, or is still to add it |
| TimeoutThreads.SameOrderAgrees | src/timeout/NServiceBus.Timeout.Core/TimeoutTransportMessageHandler.cs:25-45 | if the table halves come in the order of the store halves, the copies agree |
| TimeoutThreads.RaceAgreesExactly | src/timeout/NServiceBus.Timeout.Core/TimeoutTransportMessageHandler.cs:25-45 | in every service that agrees, however an add and a clear of one saga interleave: they agree afterwards if and only if both halves come in the same order |
| TimeoutThreads.ConcurrentClearStrandsATimeout | src/timeout/NServiceBus.Timeout.Core/TimeoutTransportMessageHandler.cs:25-45 | two threads reach a timeout that is stored and waits nowhere |
| TimeoutThreads.ConcurrentAddOutlivesItsClear | src/timeout/NServiceBus.Timeout.Core/TimeoutTransportMessageHandler.cs:25-45 | two threads reach a timeout that waits and is not stored |
| Encryption.ActableExactly | src/encryption/NServiceBus.Encryption/EncryptionMessageMutator.cs:76-172 | encrypting or decrypting one member succeeds under an exact condition on its value, the service and the encrypted form |
| Encryption.RefusedExactly | src/encryption/NServiceBus.Encryption/EncryptionMessageMutator.cs:83-158 | which error is thrown, by the service, the value and its encrypted form |
| Encryption.SetThenGet | src/core/NServiceBus/WireEncryptedString.cs:35-60 | setting the encrypted form and getting it gives it back if and only if it is not null or there is no copy to fall back on |
| Encryption.CopiesAlone | src/core/NServiceBus/WireEncryptedString.cs:42-48 | from the 2.X copies alone the getter gives the encrypted form if and only if compatibility is asked for, and null otherwise |
| EncryptionWalk.EncryptionMessageMutator.MutateOutgoing | src/encryption/NServiceBus.Encryption/EncryptionMessageMutator.cs:21-26 | ends on every graph, cyclic or not; visits exactly the reachable objects; acts on each of their encrypted members exactly once, after which every string met has its 2.X copies exactly if compatibility is asked for; throws exactly when a member cannot be encrypted, for the reason one of them has |
| EncryptionWalk.EncryptionMessageMutator.MutateIncoming | src/encryption/NServiceBus.Encryption/EncryptionMessageMutator.cs:29-33 | the same walk for decryption, with its reasons to throw |
| EncryptionWalk.EncryptionMessageMutator.ForEachMember | src/encryption/NServiceBus.Encryption/EncryptionMessageMutator.cs:46-73 | one recursive call adds reachable objects only, closes the visited set under children and logs each new object's encrypted members once |
| EncryptionWalk.EncryptionMessageMutator.ActOn | src/encryption/NServiceBus.Encryption/EncryptionMessageMutator.cs:58-59 | a member is acted on exactly when it is an encrypted one |
| EncryptionWalk.EncryptionMessageMutator.DescendItems | src/encryption/NServiceBus.Encryption/EncryptionMessageMutator.cs:67-69 | every item of a collection is visited |
| EncryptionWalk.ReachesExactly | src/encryption/NServiceBus.Encryption/EncryptionMessageMutator.cs:61-71 | an object reaches itself and what is reached from what its members hold or their collections contain; an object of a system type reaches only itself |
| EncryptionWalk.ReplayFrame | src/encryption/NServiceBus.Encryption/EncryptionMessageMutator.cs:58-65 | whatever has been acted on before, a member not acted on yet is as it was at the start |
| EncryptionWalk.WiresMadeReady | src/encryption/NServiceBus.Encryption/EncryptionMessageMutator.cs:88-99 | after an encrypting walk each string met is encrypted, its text gone, its copies equal to the encrypted form if compatible and absent otherwise |
| EncryptionWalk.ReplayedActable | src/encryption/NServiceBus.Encryption/EncryptionMessageMutator.cs:46-73 | a walk that gets through met only members fit to be acted on at the start, so shared strings cannot make it fail halfway |
| EncryptionRoundTrip.TextEncrypted | src/encryption/NServiceBus.Encryption/EncryptionMessageMutator.cs:155-165 | after the walk each encrypted text member holds the joined form of an encryption of its own original value |
| EncryptionRoundTrip.WiresEncrypted | src/encryption/NServiceBus.Encryption/EncryptionMessageMutator.cs:88-99 | after the walk each WireEncryptedString met holds the encryption of its value, of null if it was met again, no clear text, and the 2.X copies the setting asks for; others are untouched |
| EncryptionRoundTrip.ReceivedIsDecryptable | src/encryption/NServiceBus.Encryption/EncryptionMessageMutator.cs:109-153 | whatever was encrypted and sent can be decrypted: the receiving walk does not throw |
| EncryptionRoundTrip.GraphRestored | src/encryption/NServiceBus.Encryption/EncryptionMessageMutator.cs:46-172 | after sending and receiving, all members of all objects are what they were before, cycles and sharing included |
| EncryptionRoundTrip.WireOutcome | src/core/NServiceBus/WireEncryptedString.cs:35-60 | what each WireEncryptedString decrypts to: its value, or null's encryption if it is shared |
| EncryptionRoundTrip.WireRestored | src/encryption/NServiceBus.Encryption/EncryptionMessageMutator.cs:88-99 | a WireEncryptedString with a value, on one member, gets the value back; one not reached is untouched |
| EncryptionRoundTrip.WireRestoredExactly | src/encryption/NServiceBus.Encryption/EncryptionMessageMutator.cs:167-171 | it is restored if and only if it has a value and is not shared, the empty string being the one shared value that survives |
| EncryptionRoundTrip.SendAndReceive | src/encryption/NServiceBus.Encryption/EncryptionMessageMutator.cs:21-33 | one mutator out, the wire, a fresh mutator in: only sending can throw, exactly when a reachable encrypted member cannot be encrypted; otherwise every object of the graph arrives as it was, and the strings held by encrypted members come back exactly when they have a value that is not shared, or is empty |
| EncryptionRoundTrip.OldReceiverReads | src/core/NServiceBus/WireEncryptedString.cs:63-73 | a 2.X receiver, who knows the copies only, can decrypt the value of an unshared string if and only if compatibility was asked for |
| EncryptionRoundTrip.SharedStringLost | src/encryption/NServiceBus.Encryption/EncryptionMessageMutator.cs:88-99 | an object with two encrypted members on one string is sent and received, and the string is lost |
| EncryptionRoundTrip.EscapingIsSound | src/encryption/NServiceBus.Encryption/EncryptionMessageMutator.cs:140-164 | what is assumed of an encryption service can be met |
| UnitOfWork.HandleTransportMessage | src/unicast/NServiceBus.Unicast/UnicastBus.cs:1210-1294 | with any call throwing: the units begun are a prefix, each is ended exactly once in reverse order, and what is thrown is exactly what the calls threw, in order, alone or aggregated |
| UnitOfWork.TryHandle | src/unicast/NServiceBus.Unicast/UnicastBus.cs:1218-1267 | wherever the try block stops, the started list and the shared index say exactly which Ends were made |
| UnitOfWork.EndNext | src/unicast/NServiceBus.Unicast/UnicastBus.cs:1272-1283 | one turn of the loop over units still to end calls the next End with the first exception and collects what it throws |
| UnitOfWork.EndRest | src/unicast/NServiceBus.Unicast/UnicastBus.cs:1268-1283 | the catch block ends every unit the try block did not, whatever they throw, and collects all of it in order |
| UnitOfWork.EndedInReverse | src/unicast/NServiceBus.Unicast/UnicastBus.cs:1244-1283 | position by position: the i-th unit begun is the i-th of the list, the i-th ended mirrors it |
| UnitOfWork.ToldTheFirst | src/unicast/NServiceBus.Unicast/UnicastBus.cs:1268-1283 | at every call of the trace, an End is told the first exception thrown before it, and nothing else is called after an exception |
| UnitOfWork.EndIsTold | src/unicast/NServiceBus.Unicast/UnicastBus.cs:1244-1283 | an End is told null as long as nothing was thrown and afterwards the exception thrown first, position 0 of all that were; nothing but Ends is called after one |
| UnitOfWork.ThrownExactly | src/unicast/NServiceBus.Unicast/UnicastBus.cs:1285-1290 | nothing thrown leaves nothing, one exception leaves as it is, several leave as an aggregate of exactly all of them in order |
| UnitOfWork.FailuresGrow | src/unicast/NServiceBus.Unicast/UnicastBus.cs:1220-1283 | each Begin, processing, End and forward adds to what was thrown what its unit, the handlers or the forwarding throws |
| UnitOfWork.CallsListed | src/unicast/NServiceBus.Unicast/UnicastBus.cs:1220-1283 | a unit counts as begun or ended if and only if its call is in the trace |
| UnitOfWork.EndFailsToo | src/unicast/NServiceBus.Unicast/UnicastBus.cs:1268-1290 | handlers throw a, and the End told of it throws b: an aggregate of a and b leaves |
| UnitOfWork.ForwardFails | src/unicast/NServiceBus.Unicast/UnicastBus.cs:1260-1287 | only forwarding throws: the unit was ended before, once and untold, and that exception leaves |
| UnitOfWork.Determined | src/unicast/NServiceBus.Unicast/UnicastBus.cs:1210-1294 | the promise admits one trace and one outcome only |
| UnitOfWork.StraightThrough | src/unicast/NServiceBus.Unicast/UnicastBus.cs:1220-1266 | without an exception: all Begins, processing, all Ends in reverse, then the forward of a regular message |
| HandlerOrdering.First.AndThen | src/core/NServiceBus/ISpecifyMessageHandlerOrdering.cs:97-103 | appends a type once; the list stays duplicate-free |
| HandlerOrdering.CollectOrders | src/unicast/NServiceBus.Unicast.Config/ConfigUnicastBus.cs:129-146 | concatenates the specified orders without duplicates; throws for a type in two of them and for an order without types |
| HandlerOrdering.LoadMessageHandlers | src/unicast/NServiceBus.Unicast.Config/ConfigUnicastBus.cs:187-198 | the ordered types, then the scan with each of them removed once |
| HandlerOrdering.ConfigureMessageHandlersIn | src/unicast/NServiceBus.Unicast.Config/ConfigUnicastBus.cs:207-257 | keeps exactly the handlers in order; throws if and only if a handler occurs twice |
| HandlerOrdering.LoadedList | src/unicast/NServiceBus.Unicast.Config/ConfigUnicastBus.cs:187-198 | on a duplicate-free scan: the specified types, then all others in scan order, without duplicates |
| HandlerOrdering.LoadsExactly | src/unicast/NServiceBus.Unicast.Config/ConfigUnicastBus.cs:187-257 | configuration goes through if and only if the scan lists no handler type twice |
| HandlerOrdering.UnicastBus.IfTypeIsMessageHandlerThenLoad | src/unicast/NServiceBus.Unicast/UnicastBus.cs:1572-1612 | a concrete handler is entered once, at the end, with exactly the message types found; it throws exactly at a generic interface with several arguments |
| HandlerOrdering.UnicastBus.LoadHandlers | src/unicast/NServiceBus.Unicast/UnicastBus.cs:249-255 | loads the types in the order given, up to the first that cannot be loaded |
| HandlerOrdering.UnicastBus.GetHandlerTypes | src/unicast/NServiceBus.Unicast/UnicastBus.cs:1619-1628 | exactly the handlers with a message type assignable from this one, each once, in loading order |
| HandlerOrdering.UnicastBus.DispatchMessageToHandlersBasedOnType | src/unicast/NServiceBus.Unicast/UnicastBus.cs:1073-1110 | for any behaviour and any flag on entry: it fails with the exception of the first handler that does not let the next one run, or the handlers run are all, up to the first that asks to stop, or the first alone under a flag left set; and how the flag is left |
| HandlerOrdering.DispatchExactly | src/unicast/NServiceBus.Unicast/UnicastBus.cs:1078-1109 | that meaning holds of what comes out, throws and stale flag included |
| HandlerOrdering.DispatchedOnce | src/unicast/NServiceBus.Unicast/UnicastBus.cs:1078-1109 | and admits no other outcome or flag |
| HandlerOrdering.StopsAtFirstRequest | src/unicast/NServiceBus.Unicast/UnicastBus.cs:1095-1099 | without throws and with the flag clear, the handlers run are those up to and including the first that asks to stop |
| HandlerOrdering.StaleFlagMatters | src/unicast/NServiceBus.Unicast/UnicastBus.cs:1078-1109 | a flag left set changes what dispatching ends in, throws included, if and only if there is a second handler and the first neither throws nor asks to stop |
| HandlerOrdering.StaleFlagHidesFailure | src/unicast/NServiceBus.Unicast/UnicastBus.cs:1078-1109 | two handlers of which the second fails, unless the flag hides it |
| HandlerOrdering.FlagLeftSet | src/unicast/NServiceBus.Unicast/UnicastBus.cs:1088-1107 | the flag is left set if and only if the run ends with a handler that asks to stop and throws |
| HandlerOrdering.EndToEnd | src/unicast/NServiceBus.Unicast.Config/ConfigUnicastBus.cs:187-218 | the handlers considered for a message are the matching specified types in their order, then the other matching scanned ones in scan order, none twice: exactly the concrete handlers with a message type the message can be assigned to |
| TimeToBeReceived.MessageTypeTable.RegisterMessageType | src/unicast/NServiceBus.Unicast/UnicastBus.cs:1444-1466 | records a limited time to be received and the types that are not express, first or again; keeps the cache right before the first query, and later exactly when it affects no cached result of an unregistered type |
| TimeToBeReceived.MessageTypeTable.GetTimeToBeReceivedForMessageType | src/unicast/NServiceBus.Unicast/UnicastBus.cs:1537-1566 | every query answers from the cache alone, and on a table that is right gives what the uncached rule gives and keeps it right |
| TimeToBeReceived.MessageTypeTable.MapTransportMessageFor | src/unicast/NServiceBus.Unicast/UnicastBus.cs:1491-1504 | the envelope gets the least time of its messages and is recoverable when one of them is of a recoverable type |
| TimeToBeReceived.RuleExactly | src/unicast/NServiceBus.Unicast/UnicastBus.cs:1541-1560 | the uncached rule: a type's own registration first, else the least of its interfaces' registrations, attained, else unlimited |
| TimeToBeReceived.CachedInterfacesHarmless | src/unicast/NServiceBus.Unicast/UnicastBus.cs:1549-1562 | cached results of interfaces do not change the minimum, because interface sets are transitively closed |
| TimeToBeReceived.LateRegistrationExactly | src/unicast/NServiceBus.Unicast/UnicastBus.cs:1458-1465 | a registration after queries, of a new type or one registered before, keeps the cache right if and only if each cached unregistered type with that interface is at most the new span and, where the span grows, has another interface at most the old one |
| TimeToBeReceived.LateRegistrationMissed | src/unicast/NServiceBus.Unicast/UnicastBus.cs:1541-1565 | a type is asked for, then its interface registered: the next answer is the old, unlimited one |
| TimeToBeReceived.EnvelopeIsLeast | src/unicast/NServiceBus.Unicast/UnicastBus.cs:1491-1504 | the envelope's value is a lower bound of its messages' values and one of them unless unlimited |
| Callbacks.BusAsyncResult.Complete | src/unicast/NServiceBus.Unicast/BusAsyncResult.cs:37-54 | records error code and messages, marks the result completed, calls the callback if there is one, logs what it throws, and releases those who wait |
| Callbacks.CallbackTable.Register | src/unicast/NServiceBus.Unicast/UnicastBus.cs:668-684 | a fresh result waits under the message's id, an earlier one under the same id is dropped; table and results stay what the run makes them |
| Callbacks.CallbackTable.HandleCorrelatedMessage | src/unicast/NServiceBus.Unicast/UnicastBus.cs:1168-1190 | completes and removes exactly the result under the reply's correlation id, with the reply's messages and its error code, or int.MinValue without one; table and results stay what the run makes them |
| Callbacks.CallbackTable.ResultsExact | src/unicast/NServiceBus.Unicast/UnicastBus.cs:1168-1190 | at any time a result object is completed, with one call of its callback, if and only if the first event about its message was a reply, and holds that reply |
| Callbacks.WaitingExactly | src/unicast/NServiceBus.Unicast/UnicastBus.cs:668-684 | over every interleaving, a result is in the table if and only if nothing concerned its id since it was registered |
| Callbacks.CompletedExactly | src/unicast/NServiceBus.Unicast/UnicastBus.cs:1168-1190 | over every interleaving, a message completes a result if and only if it is the first event after its registration that concerns its id |
| Callbacks.AtMostOnce | src/unicast/NServiceBus.Unicast/UnicastBus.cs:1168-1190 | a result is completed at most once, only by a reply to its own message, and is then no longer in the table |
| Distributor.WorkerAvailabilityManager.ClearAvailabilityForWorker | src/distributor/NServiceBus.Distributor.MsmqWorkerAvailabilityManager/MsmqWorkerAvailabilityManager.cs:30-37 | removes all of the worker's tokens and no others, keeping their order |
| Distributor.WorkerAvailabilityManager.PopAvailableWorker | src/distributor/NServiceBus.Distributor.MsmqWorkerAvailabilityManager/MsmqWorkerAvailabilityManager.cs:43-58 | takes the oldest token, if there is one |
| Distributor.WorkerAvailabilityManager.WorkerAvailable | src/distributor/NServiceBus.Distributor.MsmqWorkerAvailabilityManager/MsmqWorkerAvailabilityManager.cs:80-87 | adds one token per reported message at the end, for any address; a negative number adds none; they name the worker if the address can be read back |
| Distributor.LicenseConfig.LimitNumberOfWorkers | src/distributor/NServiceBus.Distributor/LicenseConfig.cs:48-74 | turns a worker away if and only if there is a limit, it is reached and the worker is not known; remembers those let in |
| Distributor.HandleControlMessage | src/distributor/NServiceBus.Distributor/DistributorReadyMessageProcessor.cs:49-70 | a worker that is known or fits the limit gets a token for each message reported, on top of those it had unless it is starting, and nobody else's change; one turned away changes nothing; it throws exactly when there is capacity to add and no reply address |
| Distributor.HandleMessage | src/distributor/NServiceBus.Unicast.Distributor/Distributor.cs:78-99 | sends to the oldest token's worker and uses the token up, or rolls back when there is none |
| Distributor.DistributorNode.ControlArrived | src/distributor/NServiceBus.Distributor/DistributorReadyMessageProcessor.cs:34-43 | a control message is one step of the run, and the balance is a class invariant |
| Distributor.DistributorNode.DistributeNext | src/distributor/NServiceBus.Unicast.Distributor/Distributor.cs:78-99 | handling the next message is one step of the run |
| Distributor.WorkersRecover | src/utils/MsmqUtilities.cs:305-319 | every worker address read from a queue path can be read again from the path written for it, which is what clearing relies on |
| Distributor.CreditConservation | src/distributor/NServiceBus.Distributor/DistributorReadyMessageProcessor.cs:49-70 | over every run, for each worker tokens + messages given = capacity reported since it last started, messages are neither lost, doubled nor reordered, and under a licence limit at most the allowed workers hold tokens |
| Distributor.ReportLetIn | src/distributor/NServiceBus.Distributor/LicenseConfig.cs:60-74 | in the run a report is credited in full if there is no limit, the worker is known or fewer than allowed are, and the worker is then known; otherwise nothing changes |
| Distributor.NeverTurnedAway | src/distributor/NServiceBus.Distributor/LicenseConfig.cs:62-63 | a worker once let in has every later report credited in full, whatever happens in between |
| Distributor.FirstInFirstOut | src/distributor/NServiceBus.Unicast.Distributor/Distributor.cs:78-92 | for any workers that do not restart, whatever the others do, destinations so far followed by tokens left are the tokens granted, in order |
| Proxy.MsmqProxyDataStorage.GetAndRemove | src/proxy/NServiceBus.Proxy/MsmqProxyDataStorage.cs:38-49 | receives the first entry with the id and leaves the rest; nothing when there is none |
| Proxy.MsmqProxyDataStorage.Save | src/proxy/NServiceBus.Proxy/MsmqProxyDataStorage.cs:31-36 | appends the entry |
| Proxy.ProxyServer.ExternalMessageReceived | src/proxy/NServiceBus.Proxy/Proxy.cs:60-93 | one step of the run, after which the run is still safe: a reply to an unanswered request goes to that request's client with that request's correlation id and otherwise as it came, any other reply to nobody; a notification goes as it came to the subscribers of its types, or throws and does nothing |
| Proxy.ProxyServer.InternalMessageReceived | src/proxy/NServiceBus.Proxy/Proxy.cs:95-121 | one step of the run, after which the run is still safe: what goes on names the proxy as sender and is otherwise unchanged; a request's client and id are stored under the id it goes on with; a subscription without a type throws and does nothing |
| Proxy.ProxyServer.HandledSubscriptionMessage | src/unicast/NServiceBus.Unicast/UnicastBus.cs:1309-1369 | subscribes or unsubscribes the sender, up to the major version of the type |
| Proxy.NotifiedExactly | src/proxy/NServiceBus.Proxy/Proxy.cs:68-75 | after every run, a notification goes, once each, to exactly the clients whose last word on one of its types was to subscribe |
| Proxy.CorrelationSafety | src/proxy/NServiceBus.Proxy/Proxy.cs:60-121 | over every run: the storage is exactly the unanswered requests, each answer goes to the right client under that request's id, at most one per request, and the server sees only the external address |
| Proxy.DeliveredExactly | src/proxy/NServiceBus.Proxy/Proxy.cs:79-91 | a reply has an effect if and only if it is the first to an outstanding request |
| Proxy.RepliedTo | src/proxy/NServiceBus.Proxy/Proxy.cs:81-91 | a reply that names an unanswered request goes to that request's client, under that request's correlation id, and takes exactly that request out of the storage |
| Proxy.AnswersTraced | src/proxy/NServiceBus.Proxy/Proxy.cs:60-121 | over every run, each answer delivered is a reply that arrived, sent on to the client whose request it named; each request stored is one that a client sent |
| Proxy.TypesReadBack | src/proxy/NServiceBus.Proxy/Proxy.cs:64-70 | the types of a notification are the parts of its header, parsed one by one; it throws if and only if the header is missing or a part does not parse |
| DataBus.DataBusMessageMutator.MutateOutgoing | src/databus/NServiceBus.Databus/DataBusMessageMutator.cs:24-71 | every value is on the bus under its fresh key; a plain property is null and its key stands under type and property name, a wrapper has the key, which stands under itself; other headers and entries of the bus stay, and none are added; it throws exactly on a wrapper of null |
| DataBus.DataBusMessageMutator.MutateIncoming | src/databus/NServiceBus.Databus/DataBusMessageMutator.cs:73-112 | every property gets the payload its header leads to, a wrapper is marked as having a value; it throws exactly when some property leads nowhere |
| DataBus.TransmitDataBusProperties | src/gateway/NServiceBus.Gateway/Receiving/IdempotentChannelReceiver.cs:115-131 | every payload a header refers to (sent by IdempotentChannelForwarder.cs:53-69) reaches the other site's bus, and its header is rewritten to the new key there; other headers and entries stay |
| DataBus.PropertyRestored | src/core/NServiceBus/DataBusProperty.cs:16-46 | every property sent with a value, stripped on the wire and received, is as it was, a wrapper under its new key, through any number of key changes on the way |
| DataBus.TransmittedExactly | src/core/NServiceBus/DataBusProperty.cs:16-38 | of a wrapper the key and the mark survive the wire, its value does not |
| DataBus.ReceivableExactly | src/databus/NServiceBus.Databus/DataBusMessageMutator.cs:34-35 | a message sent can be received if and only if none of its data-bus properties was null |
| DataBus.SendAndReceiveLocally | src/databus/NServiceBus.Databus/DataBusMessageMutator.cs:24-112 | the same round trip over one bus, which gains one entry for each value moved out and keeps the others |
| DataBus.SendAndReceive | src/databus/NServiceBus.Databus/DataBusMessageMutator.cs:24-112 | out at one site, through the gateway, in at another: it gets through if and only if no data-bus property was null, every property is then restored, and earlier entries of both buses stay |
| Addresses.ParsedRoundTrip | src/core/NServiceBus/Address.cs:88-114 | printing and parsing returns every address that was itself parsed, in both address modes, with any default machine |
| Addresses.ParsedForms | src/core/NServiceBus/Address.cs:88-103 | a queue alone, with any name of this machine in any case, or with several machines, is on the default machine; otherwise on the machine named |
| Addresses.MadeOf | src/core/NServiceBus/Address.cs:110-114 | the queue is folded to lower case, the machine in local mode only |
| Addresses.PrintedRoundTripExactly | src/core/NServiceBus/Address.cs:160-163 | any address survives printing and parsing if and only if its queue is in lower case without '@' and its machine is what parsing makes of it |
| Addresses.PathRoundTripExactly | src/utils/MsmqUtilities.cs:139-146 | an address is recovered from its MSMQ path, host or IP form, if and only if neither part has a backslash and both are already normalised |
| Addresses.PathForms | src/utils/MsmqUtilities.cs:139-146 | the path names TCP for an IP address and OS for a host |
| Addresses.ReadAddressesRecover | src/utils/MsmqUtilities.cs:305-319 | every address read from a path is recovered from its own path |
| MsmqLabel.ExtractExactly | src/utils/MsmqUtilities.cs:408-411 | text between tags comes back if and only if it does not contain the closing tag |
| MsmqLabel.CorrelationIdExactly | src/utils/MsmqUtilities.cs:406-412 | the correlation id comes back from the filled label if and only if it does not contain its closing tag |
| MsmqLabel.IdentityNameExactly | src/utils/MsmqUtilities.cs:414-420 | for all ids and names: the identity name comes back if and only if neither contains its closing tag, or, when the id contains its opening tag, if it is by chance what the id's own tags hold |
| MsmqLabel.LabelWritten | src/utils/MsmqUtilities.cs:470-479 | the label as it is written, and when nothing is extracted from one |
| EnclosedTypes.GetFullTypes | src/unicast/NServiceBus.Unicast/UnicastBus.cs:766-785 | a duplicate-free list of exactly the message's types and message interfaces, although a type seen before is skipped with its interfaces |
| EnclosedTypes.EnclosedHolds | src/unicast/NServiceBus.Unicast.Monitoring/EnclosedMessageTypesMutator.cs:25-33 | the header lists exactly the same set, each type once |
| EnclosedTypes.VersionParses | src/unicast/NServiceBus.Unicast.Subscriptions/MessageType.cs:56-65 | a printed version parses to itself |
| EnclosedTypes.NamesWritten | src/unicast/NServiceBus.Unicast.Subscriptions/MessageType.cs:15-19 | the qualified name and the version as they are written, and what a message type takes from a type |
| EnclosedTypes.QualifiedNameParsesExactly | src/unicast/NServiceBus.Unicast.Subscriptions/MessageType.cs:15-32 | building a message type from a type and parsing it from the qualified name agree if and only if the name has no comma and no misleading "Version=" |
| EnclosedTypes.PrintedTypeParsesExactly | src/unicast/NServiceBus.Unicast.Subscriptions/MessageType.cs:82-85 | a printed message type parses to itself under the same condition on its name |
| EnclosedTypes.ProxySeesPublishersTypes | src/proxy/NServiceBus.Proxy/Proxy.cs:68-70 | the proxy reads from the header, part by part, the message types the publisher uses, if and only if all their names are plain |
| Subscriptions.SameSubscribers | src/proxy/NServiceBus.Proxy/Proxy.cs:68-70 | the set of message types parsed from the header is the publisher's set, and any storage gives the same subscribers for both, equality by name and major version included |
| Subscriptions.SubscribersHold | src/impl/unicast/NServiceBus.Unicast.Subscriptions.InMemory/InMemorySubscriptionStorage.cs:35-45 | the subscribers found are those subscribed to one of the types, each once |
| Subscriptions.SubscribedByMajor | src/unicast/NServiceBus.Unicast.Subscriptions/MessageType.cs:92-97 | a subscriber is found for other minor versions of the type, and for no other major version or type |
| Subscriptions.SubscriptionStorage.Unsubscribe | src/impl/unicast/NServiceBus.Unicast.Subscriptions.InMemory/InMemorySubscriptionStorage.cs:25-32 | removes the client's subscriptions to that type and no others |
| SlaEstimator.CalculateTimeToSLABreach | src/unicast/NServiceBus.Unicast.Monitoring/EstimatedTimeToSLABreachCalculator.cs:60-99 | unlimited unless critical time rose over positive time; otherwise the first moment from now at which the line through the first and last point is at or above the agreement |
| SlaEstimator.ForetoldOnce | src/unicast/NServiceBus.Unicast.Monitoring/EstimatedTimeToSLABreachCalculator.cs:60-99 | that meaning fixes the estimate |
| SlaEstimator.LandsOnAgreement | src/unicast/NServiceBus.Unicast.Monitoring/EstimatedTimeToSLABreachCalculator.cs:89-98 | the estimate is zero if and only if the agreement is reached already; otherwise the line lands on it exactly |
| SlaEstimator.InTicks | src/unicast/NServiceBus.Unicast.Monitoring/EstimatedTimeToSLABreachCalculator.cs:60-99 | in ticks: unlimited if and only if there are not two points between which critical time rises and time passes; otherwise the estimate times the rise is the gap times the elapsed time |
| SlaEstimator.LooserIsLater | src/unicast/NServiceBus.Unicast.Monitoring/EstimatedTimeToSLABreachCalculator.cs:89-98 | a looser agreement is never foretold to be breached earlier |
| SlaEstimator.EstimatedTimeToSLABreachCalculator.Update | src/unicast/NServiceBus.Unicast.Monitoring/EstimatedTimeToSLABreachCalculator.cs:28-58 | adds the data point of the message, at ten points drops the first, and shows what the window foretells |
| SlaEstimator.EstimatedTimeToSLABreachCalculator.RemoveOldDatapoints | src/unicast/NServiceBus.Unicast.Monitoring/EstimatedTimeToSLABreachCalculator.cs:104-119 | prunes the window and shows what it foretells |
| SlaEstimator.EstimatedTimeToSLABreachCalculator.KeepRecent | src/unicast/NServiceBus.Unicast.Monitoring/EstimatedTimeToSLABreachCalculator.cs:106-116 | exactly the points older than three times the last processing time go, and the others keep their order |
| SlaEstimator.WindowIsRecent | src/unicast/NServiceBus.Unicast.Monitoring/EstimatedTimeToSLABreachCalculator.cs:37-42 | after any calls, the window is a subsequence of the points seen, at most ten |
| SlaEstimator.LastTen | src/unicast/NServiceBus.Unicast.Monitoring/EstimatedTimeToSLABreachCalculator.cs:37-42 | without the timer the window is exactly the last ten points |
| SlaEstimator.OrderedWindowIsEnd | src/unicast/NServiceBus.Unicast.Monitoring/EstimatedTimeToSLABreachCalculator.cs:37-42 | when points arrive in time order, the window is the unbroken end of what was seen |

## Left out

- MSMQ, DTC, the container, hosting, installers, configuration sections, logging, impersonation, performance counters: plumbing over libraries.
- TransactionalTransport, TimeoutDispatcher and the persisters other than the in-memory one: outside the cores, represented by their effect only.
- Scheduling, satellites, subscription retries, sagas, the samples and the mock-style parts of the testing library: they would add only easy members.
- HandleTransportMessage's mutators, subscription handling, message handlers and the MessageReceived event are one call that may throw; which of them threw is not told apart.
- DispatchMessageToHandlersBasedOnType runs several dispatchers per handler; they are one behaviour, with the flag and the exception they end with.
- Threads: timeouts are interleaved at lock granularity, and the two halves of handling a timeout message freely; the start-up race between priming and incoming messages, and races in the other tables, are not modelled.
- The object graph of a message is a map from references to objects rather than Dafny objects, so that graphs before and after can be compared; aliasing is in the references. Strings, boxed values and WireEncryptedString objects are leaves of the walk and do not enter the visited set; a convention that selects members of WireEncryptedString itself is not modelled.
- EncryptionWalk.EncryptionMessageMutator.MutateOutgoing: takes the visited set to compare by identity. The source's HashSet<object> compares with Equals, so where a message class overrides it, of two distinct but equal objects the second is skipped and stays unencrypted; the guarantee is for classes that do not.
- EncryptionWalk.EncryptionMessageMutator.MutateIncoming: takes the visited set to compare by identity, as above.
- EncryptionWalk.EncryptionMessageMutator.ForEachMember: takes the visited set to compare by identity, as above.
- Exceptions thrown by the encryption service, the serializer, the data bus, the message sender and property getters: collaborators are total functions, except that serializing null throws.
- A collection is walked as the items it holds at that moment; a collection of the visited objects that is itself changed by the walk cannot occur here because only strings change.
- Integers and ticks are unbounded; an overflow of DateTime or TimeSpan is modelled only where TestingTimeouts.Push meets it, and a double's rounding in the estimator is not.
- Case folding covers ASCII letters; culture-sensitive comparison and case-insensitive gateway headers are not modelled.
- GetIndependentAddressForQueue's fallback for format names that are not direct, which asks the queue itself, is not modelled.
- A format name is taken to be the path without its leading "FormatName:", as MSMQ gives it for a direct name.
- MessageType's hash code, which takes the whole version while equality takes the major one, is not modelled; subscriptions are compared by equality.
- Version.Parse is modelled for four components of plain digits.
- A capacity header that is not a number makes the control message fail; only parsed headers enter the model.
- The data bus's expiry of payloads and the gateway's call types, hashes and acknowledgements are not modelled; the gateway is its effect on payloads and headers.
- Order.Types is a copy of First.types here; an AndThen after Specify would also extend the order in the original.
- A proxy without a subscription storage, which would forward subscription messages as requests, and an authorizer of subscriptions, which the proxy does not have, are not modelled; subscribers are notified in the order of their subscriptions.
- The order in which a handler's message types are found when a later interface stops the search is that of reflection; `handled` lists what was found.
- Convert overwrites an extracted correlation id from the headers later; the label lemmas are about the extraction. An extraction that throws also keeps the rest of the message from being read.
- DataBus.DataBusMessageMutator.MutateOutgoing: assumes that generated keys are new and that none is the qualified name of one of the message's properties, because it would then take that property's header.
- TimeoutPolling.BoundedLateness: assumes that dispatching takes no time and that the poller polls again as soon as it can.
- Distributor.FirstInFirstOut: says nothing about workers that restart within the run beyond what CreditConservation says of their counts.
