# Arcella broker: routing, delivery and wire format

A Dafny model of the Arcella message broker, an in-process broker with hierarchical addresses
(`level1:level2:level3`), wildcard subscriptions under an exclusive binding rule, load-balanced
groups, request/reply correlation and a binary message format. `dafny verify dfyconfig.toml`
checks everything.

## Layout

| file | content |
|---|---|
| `Segments.dfy` | byte strings and their division at `:` |
| `Patterns.dfy` | wildcard syntax, what a pattern matches, the segment comparison |
| `Scans.dfy` | the static-prefix scan and the candidate probes, compared with an unrestricted search |
| `RoutingTable.dfy` | the three stores as one value, the conflict rule, the invariant every registration keeps |
| `RegistryLaws.dfy` | exclusive binding, lookup, conflicts, removal; when the documented law holds |
| `KnownGaps.dfy` | concrete registrations for which the documented law fails |
| `ConflictCheck.dfy` | the registry's searches as loops |
| `LocalRegistry.dfy` | registry, slots, groups, endpoints and subscription handles as mutable objects |
| `Operations.dfy`, `Histories.dfy` | operations in sequence, and laws for every history of them |
| `Concurrency.dfy` | mutex, snapshot publication and cached endpoints under any number of threads |
| `Versions.dfy`, `Progress.dfy` | what versions and closed flags detect; that no operation waits for ever |
| `ReplyRouting.dfy` | the injected reply address leads back to the client |
| `Dispatcher.dfy`, `Deliveries.dfy` | the task behind a load-balanced group; the fate of each token and message |
| `Replies.dfy`, `ReplyDispatcher.dfy` | reply correlation as interleavings, and as an object |
| `PublisherCache.dfy`, `PublisherRuns.dfy` | the double-checked endpoint cache on top of the concurrent registry; what it holds, and that callers go on |
| `Client.dfy`, `Scenarios.dfy` | publishing, sending and requesting; subscribe, send, drop, subscribe again |
| `Protocol.dfy`, `Codec.dfy`, `Layout.dfy`, `Wire.dfy` | the format, the codec as functions, its layout and its errors by position, and the codec on buffers |

## Reading the model

A *star-free* address has no `*`; it is what messages carry. A pattern *covers* an address when its
segments match it: `*` one segment, a final `**` any number. Two patterns *overlap* when some
star-free address is covered by both.

The radix trees are maps under this assumption: `get` is exact, `walk_prefix(p)` gives the keys that
start with `p` in any order, `walk_path(a)` and `get_ancestor(a)` give keys that `a` starts with.
Snapshots are values, the atomic cell holds one, the mutex admits one thread. Bytes are integers
below 256; a mask with the mode bit is a remainder modulo 2. Versions and queue lengths are unbounded
naturals; `as u16` and `as u32` truncations and the wrapping consumer counter are written out.

Concurrent parts are state machines: a label is one atomic step, `Enabled` says when it can happen,
`Next` what it does, and a run is a list of states joined by labels in any order the guards allow.
Threads, requests, callers and tokens are unlimited in number.

### Where the code and its documentation differ

The documentation promises that no address ever has two recipients. The model follows the code:

- A stored `**` key contains `*`, so no star-free address starts with it. The two ancestor queries
  (registration of an exact address, `lookup`) never find one: an address below `a:**` can be
  registered, and messages to it are never routed to `a:**`.
- The scan for exact addresses below `a:**` starts at `a:` and so does not see the address `a`.
- A stored `**` pattern with a single `*` before every star of the newcomer is not found.

`RegistryLaws.RegistrationExact` proves for every table and newcomer that these three are the only
ways: an accepted registration keeps the documented law if and only if it overlooks no such entry.
`Histories.LawAfterRegistrations` says the same of whole histories. `KnownGaps` gives one concrete
pair for each.

Further: `Message::new` accepts a type that is not UTF-8 and a payload whose length only fits after
truncation (`Codec.NewMessageExact` says exactly when the result survives the wire, and
`Codec.BadTypeIsConstructed` and `Codec.WrappedPayloadIsConstructed` give one message for each); a
waiter guard removes by id, so a reused id can cost another request its reply
(`Replies.ReusedIdLosesReply`; `Replies.ReplyArrivesExactly` says exactly when a reply arrives); the
third check of the endpoint cache can succeed only for a group that nobody had joined at this
caller's second check and somebody joined since (`PublisherCache.ThirdHitNeedsJoin`); a publisher's
request goes to the publisher's address, not to the message's (`Client.Publisher.SendRequest`).

## Model

Rows whose last column begins with **main** are the main results; the others are the operations and
the steps that lead there.

| member | source | states |
|---|---|---|
| Patterns.ValidatePattern | src/broker_core/registry/mod.rs:126-179 | accepts exactly the patterns that start literally, have no empty or partly starred segment, and `**` only last; a rejection names a rule that is broken |
| Patterns.CompareSegments | src/broker_core/registry/mod.rs:190-217 | the two-mode loop computes the comparison of the two segment lists |
| Patterns.OneSidedExact | src/broker_core/registry/mod.rs:190-217 | **main** one-sided: true exactly when the valid pattern covers the star-free address |
| Patterns.TwoSidedExact | src/broker_core/registry/mod.rs:181-217 | **main** two-sided: true exactly when some star-free address is covered by both valid patterns |
| Patterns.MergeIsShared | src/broker_core/registry/mod.rs:186-217 | spells out an address covered by both whenever the two are compatible |
| Scans.StaticPrefixSegments | src/broker_core/registry/mod.rs:219-225 | the bytes before the first star are the leading literal segments, each closed by `:` |
| Scans.ExactScanExact | src/broker_core/registry/mod.rs:329-336 | **main** the scan below the static prefix finds exactly the covered addresses, except the pattern's own stem before a first-and-final `**` |
| Scans.PrefixScanExact | src/broker_core/registry/mod.rs:227-271 | **main** candidates plus scan find a stored `**` pattern exactly when it overlaps the newcomer and does not put a single `*` before all its stars |
| Scans.LiteralNeverMissed | src/broker_core/registry/mod.rs:227-271 | a `**` pattern with only literals before `**` is found exactly when it overlaps |
| RoutingTable.EndsWithAnyIsOpen | src/broker_core/registry/mod.rs:302-389 | for a valid pattern, ending in the bytes `**` means its last segment is `**` |
| RoutingTable.NewExactIsApart | src/broker_core/registry/mod.rs:275-296 | an accepted exact address is covered by no `*` pattern |
| RoutingTable.NewSingleIsApart | src/broker_core/registry/mod.rs:300-339 | an accepted `*` pattern overlaps no `*` pattern, covers no exact address, and overlaps a `**` pattern only when blind to it |
| RoutingTable.InsertKeepsValid | src/broker_core/registry/mod.rs:349-399 | **main** every accepted registration keeps the table invariant |
| RoutingTable.RemoveKeepsValid | src/broker_core/registry/mod.rs:495-544 | every removal keeps it |
| RoutingTable.RemoveSingleIs | src/broker_core/registry/mod.rs:520-526 | list removal drops the first entry with the key and nothing else |
| RoutingTable.LongestPrefixIs | src/broker_core/registry/mod.rs:559-562 | the ancestor query gives the entry of the longest stored key that the address starts with, or there is none |
| ConflictCheck.FindMatchingSingle | src/broker_core/registry/mod.rs:321-327 | the list scan stops at the first pattern that compares equal |
| ConflictCheck.GetExact | src/broker_core/registry/mod.rs:275-296 | reports a duplicate, an entry in conflict, or that there is neither |
| ConflictCheck.ProbeCandidates | src/broker_core/registry/mod.rs:235-254 | finds a stored candidate key, or there is none |
| ConflictCheck.CheckPrefixConflicts | src/broker_core/registry/mod.rs:227-271 | returns a stored `**` pattern that the check can find, or there is none |
| ConflictCheck.ScanExact | src/broker_core/registry/mod.rs:329-336 | returns a matched address below the static prefix, or there is none |
| ConflictCheck.GetWildcard | src/broker_core/registry/mod.rs:300-339 | as GetExact, for a valid wildcard |
| ConflictCheck.LookupIn | src/broker_core/registry/mod.rs:550-572 | the search order exact, ancestor, list is the lookup function |
| RegistryLaws.ExclusiveBinding | src/broker_core/registry/mod.rs:22-25 | a star-free address is covered by at most one exact address or `*` pattern |
| RegistryLaws.LookupRefines | src/broker_core/registry/mod.rs:546-572 | **main** lookup gives a target exactly when an exact address or `*` pattern bound to it covers the address |
| RegistryLaws.LookupIgnoresOrder | src/broker_core/registry/mod.rs:564-569 | the order of the `*` list changes no lookup of a star-free address |
| RegistryLaws.NoAncestor | src/broker_core/registry/mod.rs:559-562 | no wildcard key is an ancestor of a star-free address |
| RegistryLaws.NoFalseConflicts | src/broker_core/registry/mod.rs:227-339 | **main** an entry named in a refusal is stored and overlaps the newcomer |
| RegistryLaws.SharedOnlyWhenBlind | src/broker_core/registry/mod.rs:227-327 | two stored wildcards overlap only when the check was blind to one of them |
| RegistryLaws.WildcardExclusivity | src/broker_core/registry/mod.rs:227-327 | **main** with literals before every `**`, no star-free address is covered by two stored wildcards |
| RegistryLaws.AcceptedOverlap | src/broker_core/registry/mod.rs:227-339 | an accepted newcomer overlaps a stored entry exactly when it is of an overlooked kind |
| RegistryLaws.RegistrationExact | src/broker_core/registry/mod.rs:22-25 | **main** registration keeps the documented law for all kinds of entries exactly when it overlooks nothing |
| RegistryLaws.RemoveUndoesInsert | src/broker_core/registry/mod.rs:495-544 | removing a fresh registration restores the very table |
| RegistryLaws.RemoveIsLocal | src/broker_core/registry/mod.rs:495-544 | **main** removal silences exactly the addresses its key routed |
| KnownGaps.StarBeforeAny | src/broker_core/registry/mod.rs:235-268 | `a:*:**` then `a:b:*` are both accepted and overlap |
| KnownGaps.StemOfAny | src/broker_core/registry/mod.rs:329-336 | `a` then `a:**` are both accepted and overlap |
| KnownGaps.AddressBelowAny | src/broker_core/registry/mod.rs:283-286 | `a:**` then `a:b` are both accepted and overlap; before that `a:b` has no route |
| LocalRegistry.LocalRegistry.Register | src/broker_core/registry/mod.rs:349-399 | **main** succeeds exactly when nothing detectable is in the way, inserts exactly the entry, and otherwise changes nothing and explains itself |
| LocalRegistry.LocalRegistry.GetExistingOrRegister | src/broker_core/registry/mod.rs:416-482 | whatever the closure does, it runs exactly when the address is free; the result is what it made, newly entered, or the existing entry |
| LocalRegistry.LocalRegistry.Unregister | src/broker_core/registry/mod.rs:495-544 | **main** removes the entry exactly when it holds that very slot, which is then silenced; else no object changes |
| LocalRegistry.LocalRegistry.FindRoute | src/broker_core/registry/mod.rs:550-572 | lookup on the current snapshot |
| LocalRegistry.RouteTarget.RemoveSlot | src/broker_core/registry/routing.rs:89-110 | silences the target exactly when it holds the slot, shutting a group down |
| LocalRegistry.RouteTarget.Send | src/broker_core/registry/routing.rs:67-87 | appends the message to the slot's queue exactly when the slot has a sender with a receiver, and changes nothing otherwise |
| LocalRegistry.SubscriptionSlot.MarkRemoved | src/broker_core/registry/slot.rs:45-48 | no sender afterwards, version one higher |
| LocalRegistry.LoadBalancedGroup.RemoveConsumer | src/broker_core/registry/load_balanced_group.rs:145-156 | the last consumer shuts the group down, any other only lowers the count |
| LocalRegistry.LoadBalancedGroup.Shutdown | src/broker_core/registry/load_balanced_group.rs:174-184 | dispatcher gone, slot silenced, version one higher |
| LocalRegistry.InMemoryEndpoint.constructor | src/broker_core/transport/in_memory.rs:81-86 | caches the target with its current version |
| LocalRegistry.SubscriptionHandle.Drop | src/client/subscriber.rs:115-134 | an exclusive handle removes only its own entry and silences its slot; a shared one ends dispatching when it was the last |
| LocalRegistry.Subscribe | src/client/mod.rs:158-227 | which subscriptions succeed, the whole registry afterwards, and the state of the slot or group behind the handle, for both policies |
| LocalRegistry.SubscribeExclusively | src/client/mod.rs:163-180 | a fresh slot with an open, empty channel is registered |
| LocalRegistry.JoinGroup | src/client/mod.rs:181-224 | the group of the address gains one consumer and one request sender, and is made first if the address is free |
| Operations.ReplayValid | src/broker_core/registry/mod.rs:349-544 | every history of operations leaves a table with the invariant |
| Operations.EntryPersists | src/broker_core/registry/mod.rs:349-544 | only its own removal takes an entry away |
| Operations.RegistrationsSeparated | src/broker_core/registry/mod.rs:401-482 | two successful registrations of an address have its removal between them |
| Operations.EntryHasOrigin | src/broker_core/registry/mod.rs:349-544 | every entry was put there by a registration that nothing has removed since |
| Operations.ExistingWasRegistered | src/broker_core/registry/mod.rs:416-482 | **main** the existing target that get-or-register returns is that of the registration that stands: its callers share it |
| Histories.ExclusiveAfterAnyHistory | src/broker_core/registry/mod.rs:22-25 | **main** exclusive binding after every history |
| Histories.LookupAfterAnyHistory | src/broker_core/registry/mod.rs:546-572 | lookup is the declarative match after every history |
| Histories.RefusalsNameRealConflicts | src/broker_core/registry/mod.rs:227-339 | in any history a refusal names an entry present at that moment that overlaps the newcomer |
| Histories.WildcardsAfterLiteralHistory | src/broker_core/registry/mod.rs:227-327 | wildcard exclusivity after every history that asks for literal `**` patterns |
| Histories.LawAfterCarefulHistory | src/broker_core/registry/mod.rs:22-25 | the documented law holds after every history in which no accepted registration overlooks an entry |
| Histories.LawAfterRegistrations | src/broker_core/registry/mod.rs:22-25 | **main** after registrations alone it holds if and only if none of them overlooked an entry |
| Histories.StaleHandlesAreHarmless | src/broker_core/registry/mod.rs:484-544 | unregistering with another slot changes no lookup; with the own slot only those of its key |
| Histories.UnregisterUndoesRegister | src/broker_core/registry/mod.rs:349-544 | **main** register, then unregister with the same slot, restores the table |
| Concurrency.StepKeepsInv | src/broker_core/registry/mod.rs:354-541 | every atomic step of every thread keeps mutual exclusion, fresh snapshots, the log and the endpoint links |
| Concurrency.Linearizable | src/broker_core/registry/mod.rs:354-541 | **main** in every interleaving the published table is the logged operations run one by one, with the results they would have alone, and it is valid |
| Concurrency.ResultIsLogged | src/broker_core/registry/mod.rs:354-541 | a finishing operation holds the mutex and is the last one logged, with its thread and result |
| Concurrency.LogGrows | src/broker_core/registry/mod.rs:354-541 | what has been logged stays logged, at the same place |
| Concurrency.NoUpdateIsLost | src/broker_core/registry/mod.rs:354-541 | **main** the operations logged for a thread are exactly those it returned from, in order and with their results, plus the one it is leaving; and those are the ones it began |
| Concurrency.TakesEffectDuringCall | src/broker_core/registry/mod.rs:354-541 | **main** an operation is logged between its beginning and its end, so the log respects real time |
| Concurrency.FactoryRunsOncePerRegistration | src/broker_core/registry/mod.rs:406-480 | without failing factories, factory runs equal `Registered` results |
| Concurrency.RegistrationsSeparatedInRun | src/broker_core/registry/mod.rs:406-480 | **main** in every interleaving two registrations of an address have its removal between them |
| Concurrency.CacheCoherence | src/broker_core/transport/in_memory.rs:107-118 | **main** when an exclusive endpoint passes the closed check, a lookup at that instant gives the same target |
| Concurrency.RouteOutlivesNoSlot | src/broker_core/registry/routing.rs:89-98 | in every run a route is there until its slot has lost its sender |
| Versions.VersionCounts | src/broker_core/registry/slot.rs:45-48 | a slot's version counts its removals and shutdowns |
| Versions.CheckDetectsRemoval | src/broker_core/transport/in_memory.rs:107-118 | **main** the version check can pass if and only if no removal or shutdown raised the version since the endpoint was made |
| Versions.ClosedExactly | src/broker_core/registry/slot.rs:50-57 | a slot is closed exactly when its removal has begun, its group was shut down, or its receiver went away |
| Versions.RaisedBeforePublished | src/broker_core/registry/mod.rs:507-541 | a removal is published only after the sender went away and, after that, the version was raised |
| Progress.NobodyIsStuck | src/broker_core/registry/mod.rs:354-541 | **main** no deadlock: a thread with an operation under way can step, or the holder of the mutex can |
| Progress.StepsRunOut | src/broker_core/registry/mod.rs:354-541 | an operation takes at most seven steps of its thread, and no other thread sets it back |
| Concurrency.RepliesReachTheClient | src/client/mod.rs:110-139 | **main** from binding until its own unregistration, lookup of a client's address gives the client's slot |
| ReplyRouting.ClientIsBorn | src/client/mod.rs:110-127 | publishing the registration makes the binding effective |
| ReplyRouting.ReplyToLeadsBack | src/client/mod.rs:262-284 | **main** the reply address decoded from a request resolves to the requesting client's own slot |
| Dispatcher.StepKeepsInv | src/broker_core/registry/load_balanced_group.rs:74-118 | every step keeps conservation, request order and the loss bound |
| Dispatcher.Conservation | src/broker_core/registry/load_balanced_group.rs:74-118 | **main** accepted = delivered, then at most one given up at the end, then in hand, then queued, in that order |
| Dispatcher.NothingLostWithoutDrops | src/broker_core/registry/load_balanced_group.rs:97-117 | a message is given up only after a consumer dropped its receiver |
| Dispatcher.TokensInOrder | src/broker_core/registry/load_balanced_group.rs:76-117 | **main** tokens are served in request order, at most once, and skipped only when dropped |
| Dispatcher.NoOvertaking | src/broker_core/registry/load_balanced_group.rs:85-95 | what is delivered is a beginning of what was accepted |
| Dispatcher.ServedGrows | src/broker_core/registry/load_balanced_group.rs:97-102 | a delivery is never taken back or moved |
| Dispatcher.Deliver | src/broker_core/registry/load_balanced_group.rs:97-117 | the inner loop gives the message to the first live token, or finds none |
| Dispatcher.Drain | src/broker_core/registry/load_balanced_group.rs:75-118 | **main** on closed queues the nested loops pair the messages with the live tokens, both in order |
| Deliveries.RecordsAreTrue | src/broker_core/registry/load_balanced_group.rs:74-118 | what counts as accepted, requested and dropped is what senders and consumers did |
| Deliveries.ClosingIsFinal | src/broker_core/registry/load_balanced_group.rs:74-95 | a queue is closed exactly after the step that closes it, and takes nothing from then on |
| Deliveries.EverythingAccounted | src/broker_core/registry/load_balanced_group.rs:74-118 | **main** what senders queued = delivered, at most one given up, in hand, queued; what consumers asked = served, in hand or left over, queued |
| Deliveries.GivenExactlyToLive | src/broker_core/registry/load_balanced_group.rs:97-117 | **main** a token was given its message in a step at which its receiver was there, and skipped in a step at which it was gone |
| Deliveries.KeptForNextLive | src/broker_core/registry/load_balanced_group.rs:97-117 | **main** the message in hand is what the next live token gets, past every skipped one |
| Deliveries.LeftAloneItDrains | src/broker_core/registry/load_balanced_group.rs:74-118 | **main** left alone until it ends, the task pairs queued messages with live queued tokens in order, as `Drain` computes |
| Deliveries.GoesOnExactly | src/broker_core/registry/load_balanced_group.rs:74-118 | the task can step exactly when it has not ended and does not wait for an open, empty queue |
| Deliveries.TaskUsesUpWork | src/broker_core/registry/load_balanced_group.rs:74-118 | every step of the task uses up work, so left alone it ends or waits |
| Deliveries.AbortGivesUp | src/broker_core/registry/load_balanced_group.rs:174-184 | shutdown ends the task wherever it waits, and gives up the message it holds there |
| Deliveries.SecondConsumerGetsIt | src/broker_core/registry/load_balanced_group.rs:97-117 | a run in which the first consumer is gone and the second gets the message |
| Replies.StepKeepsInv | src/client/reply_dispatcher.rs:68-188 | every step keeps waiters guarded, no empty cell without a waiter, replies under their own id |
| Replies.FilledWhileWaiting | src/client/reply_dispatcher.rs:135-145 | a filled cell was filled by a reply processed while that request was waiting |
| Replies.RepliesAreCorrelated | src/client/reply_dispatcher.rs:131-147 | **main** a request receives only a reply with its own id, processed while it waited, and only one |
| Replies.WaitersAreGuarded | src/client/reply_dispatcher.rs:68-96 | waiting ids belong to live guards, and no pending request is forgotten |
| Replies.ReplyArrivesExactly | src/client/reply_dispatcher.rs:90-188 | **main** in every run, the first reply for a waiting request fills its cell if and only if no step before it gave the request up, ended the dispatcher, removed the id, or dropped a guard with that id, whosesoever |
| Replies.ReplyReachesRequester | src/client/mod.rs:286-299 | so with distinct ids and no explicit removal, a reply processed before the requester gives up reaches it |
| Replies.ReusedIdLosesReply | src/client/reply_dispatcher.rs:90-96 | a run in which a reused id costs the second request its reply |
| Replies.OutcomeIsEarned | src/client/mod.rs:294-299 | a request ends as received, closed or given up exactly when its requester took the reply, saw its sender gone, or gave up |
| Replies.ClosedMeansCutOff | src/client/reply_dispatcher.rs:90-188 | a request ends as closed only because a step took its waiter away while it waited |
| Replies.GuardDropsOnce | src/client/reply_dispatcher.rs:90-96 | a guard is dropped at most once and is dead afterwards |
| Replies.EndIsFinal | src/client/reply_dispatcher.rs:168-188 | after the end of the dispatcher nobody waits, registers or is answered |
| ReplyDispatcher.Dispatcher.RegisterWaiter | src/client/reply_dispatcher.rs:68-87 | refuses exactly the ids that are waiting, else adds a fresh channel under a guard |
| ReplyDispatcher.Dispatcher.RemoveWaiter | src/client/reply_dispatcher.rs:163-165 | the id is gone and its sender dropped unused |
| ReplyDispatcher.Dispatcher.HandleReply | src/client/reply_dispatcher.rs:135-145 | takes the waiter out and fills its channel unless the receiver is gone |
| ReplyDispatcher.Dispatcher.Listen | src/client/reply_dispatcher.rs:131-147 | **main** over a whole inbox each waiter gets the first reply with its id, the others keep waiting |
| ReplyDispatcher.FirstReplyIsFirst | src/client/reply_dispatcher.rs:135-145 | the reply a waiter gets is the earliest with its id |
| ReplyDispatcher.Dispatcher.Drop | src/client/reply_dispatcher.rs:168-188 | every sender is dropped unused |
| ReplyDispatcher.WaiterGuard.Drop | src/client/reply_dispatcher.rs:90-96 | removes by id |
| PublisherCache.StepKeepsInv | src/client/publisher.rs:139-177 | every step keeps the lock discipline, and every endpoint held traces back to an entry of the registry |
| PublisherCache.ReturnedWasSeen | src/client/publisher.rs:139-177 | **main** a returned endpoint was looked up and given its version during that very call, or during that call its version was found unchanged and, at the return, its target open |
| PublisherCache.HitIsFresh | src/client/publisher.rs:139-171 | **main** the hot path has the recipient of the cold path: when a cached endpoint of an exclusive target is returned, a lookup at that instant gives the same target |
| PublisherCache.CacheIsOwn | src/client/publisher.rs:153-176 | what is cached is what a lookup of the publisher's address gave earlier, with the version read after it |
| PublisherCache.ThirdHitNeedsJoin | src/client/publisher.rs:164-175 | **main** the re-check under the write lock hits only a group that was closed at this caller's second check and joined between that check and this one, while the caller was waiting to write |
| PublisherRuns.CacheIsLastStored | src/client/publisher.rs:153-176 | the cache holds what was stored last, and nothing after it was emptied |
| PublisherRuns.MissIsReal | src/client/publisher.rs:139-176 | **main** the cache is passed by or overwritten only at an instant at which it is empty, outdated or closed |
| PublisherRuns.HitIsReal | src/client/publisher.rs:139-171 | the cache is answered with only at an instant at which somebody can receive |
| PublisherRuns.GroupVersionCounts | src/broker_core/registry/load_balanced_group.rs:163-184 | a group's version counts its shutdowns |
| PublisherRuns.GroupIsOpen | src/broker_core/registry/load_balanced_group.rs:167-169 | a group is open exactly from a consumer's joining to its leaving |
| PublisherRuns.NobodyIsStuck | src/client/publisher.rs:139-177 | no deadlock: a caller can step, or one that it waits for can |
| PublisherRuns.SecondCallHits | src/client/publisher.rs:139-177 | a run whose second call is answered from the cache |
| Client.Publisher.GetOrResolve | src/client/publisher.rs:139-177 | a cached endpoint with its own version and an open target is used as it is; otherwise the registry's answer is cached, with its version, and returned |
| Client.Publisher.Send | src/client/publisher.rs:192-199 | the message reaches the recipient's queue, or no queue changes and the error says why; what is cached afterwards |
| Client.Publisher.SendRequest | src/client/publisher.rs:213-236 | resolved, registered, sent, in that order, to the publisher's address; the queued message differs from the given one in mode bit and reply address only; a failure leaves waiter map and queue as they were |
| Client.SendUncached | src/broker_core/transport/mod.rs:220-232 | the message reaches the queue its own address is routed to, or the error says why not and no queue changes |
| Client.SendRequest | src/client/mod.rs:273-292 | registered before sent; the queued message differs from the given one in mode bit and reply address only; a failure is explained and leaves waiter map and queue as they were |
| Scenarios.SendToNew | src/client/mod.rs:158-227 | **main** a message to a new subscription's address is in that subscription's queue, whatever its policy |
| Scenarios.FollowsItsRecipient | src/broker_core/transport/in_memory.rs:107-118 | **main** subscribe, send, drop, subscribe, send: each message is in the queue of the subscription of its time |
| Scenarios.SendAfterResubscription | src/client/publisher.rs:139-199 | a publisher whose cached subscription is gone sends to the one made since |
| Scenarios.LeftGroupStays | src/broker_core/registry/load_balanced_group.rs:145-184 | after its only consumer left, a group's address is still taken and nobody receives what is sent to it |
| Protocol.ValidAddressLevels | src/protocol/mod.rs:312-336 | valid addresses are those without empty levels over letters, digits, '-', '_' and ':' |
| Protocol.AddressRejections | src/protocol/mod.rs:312-336 | which of the two errors an invalid address gets |
| Protocol.Utf8Exact | src/protocol/mod.rs:447-462 | **main** a byte string passes as UTF-8 exactly when it encodes some Unicode scalar values (RFC 3629) |
| Codec.HeaderLayout | src/protocol/mod.rs:159-184 | the position and byte order of every header field |
| Layout.MessageLayout | src/protocol/mod.rs:505-523 | **main** the position of every part of an encoded message, the reply length with its low byte first, and the mode bit |
| Layout.RejectionExact | src/protocol/mod.rs:227-502 | **main** decoding fails exactly when something is wrong, and reports the first wrong thing, told by positions in the buffer |
| Codec.RoundTrip | src/protocol/mod.rs:438-523 | decoding an encoding, whatever follows it, gives the message and what follows |
| Codec.Canonical | src/protocol/mod.rs:438-523 | **main** whatever decodes is well formed and re-encodes to the bytes consumed |
| Codec.RoundTripExact | src/protocol/mod.rs:438-523 | **main** a message survives the wire exactly when it is well formed |
| Codec.DecodeExtends | src/protocol/mod.rs:438-502 | more input changes neither a decoded message nor a rejection that is not about missing bytes |
| Codec.PrefixIsIncomplete | src/protocol/mod.rs:438-502 | **main** every proper prefix of an encoding is reported incomplete |
| Codec.StreamRoundTrip | src/protocol/mod.rs:438-523 | **main** decoding concatenated encodings gives back the list |
| Codec.StreamCanonical | src/protocol/mod.rs:438-523 | a stream that decodes is the concatenation of its messages' encodings |
| Codec.SizeIsEncodedLength | src/protocol/mod.rs:530-543 | the computed size is the encoded length |
| Codec.NewMessageExact | src/protocol/mod.rs:361-435 | **main** a message accepted by the constructor survives the wire exactly when its type is UTF-8 and its payload within the limit |
| Codec.BadTypeIsConstructed | src/protocol/mod.rs:361-435 | a message with the type 0x80 is constructed and does not survive the wire |
| Codec.WrappedPayloadIsConstructed | src/protocol/mod.rs:411 | a message with 2^32 payload bytes is constructed with length 0 and does not survive the wire |
| Codec.NewMessageComplete | src/protocol/mod.rs:361-435 | every well-formed message with clear reserved bits can be constructed |
| Codec.NewMessageAccepts | src/protocol/mod.rs:361-435 | exactly which arguments the constructor accepts |
| Codec.NewMessageHolds | src/protocol/mod.rs:361-435 | every field of the constructed message |
| Codec.NewMessageRefusals | src/protocol/mod.rs:361-435 | what a refusal says about the arguments |
| Codec.AsRequestPreserves | src/client/mod.rs:276-284 | **main** the rewritten message has the mode bit and the given reply address and is otherwise the given message, field by field; rewriting again changes nothing |
| Codec.RequestRoundTrip | src/client/mod.rs:276-284 | **main** it survives the wire exactly when the client's address is valid and short enough |
| Wire.ReadBuffer.DecodeHeader | src/protocol/mod.rs:227-280 | the cursor version agrees with the decoding function |
| Wire.ReadBuffer.DecodeMessage | src/protocol/mod.rs:438-502 | **main** likewise for whole messages, the cursor left just after |
| Wire.WriteBuffer.EncodeHeader | src/protocol/mod.rs:283-294 | appends exactly the header's encoding |
| Wire.WriteBuffer.EncodeMessage | src/protocol/mod.rs:505-523 | appends exactly the message's encoding |

## Left out

- Concurrency.CacheCoherence: for exclusive targets only; a group's closed check counts request senders and says nothing about its registration.
- Concurrency.CacheCoherence: `SubscriptionSlot::update` is not modelled; nothing in the crate calls it, and reviving a removed slot would break the claim.
- PublisherCache.HitIsFresh: for exclusive targets only, for the same reason; a group's version is raised by a step of its own, at any moment.
- Client.Publisher.GetOrResolve: one caller at a time; the interleavings of the cache's locks are in PublisherCache.
- LocalRegistry.RouteTarget.Send: waiting for room in a full queue is taken as done; a send either completes or fails.
- Freeing of a load-balanced address when its last consumer leaves: the task is aborted, so the clean-up after its loop does not happen, and the entry stays (`Scenarios.LeftGroupStays`).
- The clean-up after the dispatcher's natural end is, to the registry, one more shutdown and unregistration by some thread.
- Routing of star-free addresses through `**` entries: the code never does it.
- The lookup of addresses that contain `*`, which no valid message carries.
- Dropping the request sender of a pull subscriber, which lowers the strong count that a group's closed check reads.
- The lengths that `MsgTypeTooLong`, `AddressTooLong` and `ReplyToTooLong` carry, and the wording of `InvalidAddressFormat`.
- Time: a timeout is a step that may happen at any moment while the request is pending.
- Memory ordering, version overflow, poisoned locks, and the internals of the radix tree, the atomic cell and the locks.
- `has_local`, `has_route`, `try_recv`, the configuration builders, the `Broker` container, the server module and the command-line binary: they add no state and no rule to what is modelled here.
