# Verification of genropy-asgi

This project models the stateful cores of genropy-asgi and of its benchmark laboratory
in Dafny and proves what they keep over whole runs.

| area | files |
|---|---|
| the global store: dotted paths on one dictionary behind one FIFO lock | `LegacyBag`, `GlobalPaths`, `GlobalStore`, `DottedBag`, `GlobalStoreAdapter`, `GlobalStoreRuns`, `GlobalStoreProgress` |
| the delivery desk: subscriptions, announcements, three families of queues | `SubscriptionIndex`, `Datachanges`, `DeliveryDesk`, `DeskRuns`, `DeskQueues`, `Trees`, `TreeClients`, `BagClients`, `DeskBags` |
| the register client: item locks, copies across the store boundary, client clocks | `ItemLocks`, `ItemLockRuns`, `StoreCopies`, `StoreBoundary`, `ClientClocks` |
| the admission guard | `Sorting`, `Percentile`, `AdmissionGuard`, `GuardRuns`, `GuardPasses` |
| the load engine and the cycle it plays | `Counting`, `Sending`, `LoadEngine`, `LoadWindows`, `LoadRuns`, `LoadAdmissions`, `LoadAccounts`, `CycleEngine` |
| the plan of the cycle | `PlanInstants`, `CyclePlan`, `PlanRates`, `PlanOrder` |
| the structural comparison | `StructuralDiff` |

Objects that the program changes in place are classes here (`GlobalStoreAdapter`,
`SubscriptionIndex`, `DeliveryDesk`, `RegisterLocks`, `Worker`, `AdmissionGuard`,
`LoadEngine`, `CycleEngine`, `StructuralDiff`). Each method says its whole new state as a
function of the old one; what the program promises is then proved about those functions,
over every run. Code run by many threads is a machine whose steps are the pieces that are
atomic in the program: one call under a lock, one queue operation, one read of one counter.

## Assumptions

- The core's global store client is not part of this model. Its interface is: one lock,
  granted first come first served; a lease hands out a private copy, publishes it on a clean
  exit and nothing on an abort or an exception; the holder is refused a second whole-store
  lease. A commit, of a block or of one call, may fail, and a failed one may or may not have
  been applied.
  Reads, sets and deletes outside a block are calls under the same lock, as
  `tests/test_global_store.py:322` promises for reads.
- A gnr Bag is a list of labelled nodes. How it reads an empty label in a dotted path is not
  in the repository, so it is a parameter (`Reading`): it keeps empty labels, or it drops them
  and a path left with none names the empty label. Every result holds for both. Query
  suffixes, resolvers and positional labels of a path are not read.
- The local zone is one fixed offset. Clocks and reported times are whole numbers, and the
  instants given to the guard are not negative.
- The guard's bucket width and minimum of samples are positive. With a minimum below one, a
  bucket nobody wrote to has no percentile and the comparison with the limit raises.
- Latencies, lateness and limits are whole numbers of a unit in which rounding is exact.
- Numbers, texts, dates and the like are immutable; a deep copy copies every mutable object it
  meets, whatever its type.
- An exception has a non-empty representation.
- TYTX is lossless; the naive dates inside a Bag travel as they are. Wall clocks are parameters.
- The sequence matcher of the standard library hands over opcodes that tile both
  sequences, with equal keys in equal blocks, and a single equal block (none for two empty
  sequences) when the keys agree throughout.
- Periods and windows of the plan are whole seconds, and its instants are exact numbers.

## Where the code differs from what it says

- The two backings of the global store can disagree where a path has an empty label. If a Bag
  keeps empty labels it is a key with one trailing dot and nothing behind it, which the adapter
  takes for the whole key; if it drops them it is a leading dot, where the adapter alone begins
  with the empty key, and a key with several dots alone behind (`AdapterReadsLikeBag`,
  `ADotCanPartThem`). What must stand in the store for the two to agree all the same is exact
  for get, set and delete (`GetIsFaithful`, `SetIsFaithful`, `DeleteIsFaithful`).
- The local Bag puts a default on the legacy clock; the dictionary does so only when it has a
  Bag to look into (`GetIsFaithful`).
- A block and direct writes answer every read alike but need not store alike. Below a key the
  direct road keeps every aware date, a local one included, and the block makes it naive; under
  a whole key only a foreign zone and a Bag with aware dates inside tell the two apart; and the
  close of a block gives the local zone to every bare naive date in the store
  (`BlockAndDirectStoreAlike`).
- A date one site writes under a whole key reaches any other at the right instant, on the
  reader's own clock. Below a key a naive date, and whatever a block writes, is read on the
  writer's clock by everybody (`WhenADateKeepsItsInstant`).
- The item lock is reentrant for the thread that built the store, not for the one that enters
  it. Exclusion holds exactly under the practice that no two threads enter stores of one
  builder (`ExclusionNeedsOwnStores`); a thread that enters an item it already holds through a
  store built elsewhere can only time out (`NeverLetInByItself`).
- The copy a store hands out shares with the original, outside of containers, what tuples and
  attribute values lead to and every mutable object that is neither Bag, dict, list nor set,
  such as a bytearray or an instance; and nothing else (`CopyIsIndependent`).
- A client clock that stands at zero is replaced by whatever is reported, even a negative time
  (`ClimbingIsLater`). A refresh that finds no user row raises after it has written page and
  connection, if it had a clock to write (`WhatAFailedRefreshLeaves`).
- A call whose execution raises is signed off like any other, so the drain passes and the
  window closes short of it (`ACrashIsSignedOff`), and its user's thread is gone: what that
  user is offered later keeps every drain from passing (`NobodyServesTheDead`).
- The count of waiting tasks is read while users may still be registering: a login that lands
  during such a read makes it raise, and no later window closes (`RegistrationBreaksTheScan`).
- A return is taken under the engine's lock but recorded after it, so the records of two users
  may come in the other order (`RecordsMayOvertake`).
- A replacing delete takes a waiting set of its key out of the queue. For a client that keeps a
  Bag this shows where the set would have made the Bag above the path; exactly when is decided
  after any run (`WhenADeleteShows`, `WhenADeleteShowsInABag`).
- The login ramp reaches the rate it declares, in its last second, exactly if its period is
  longer than a second; with a period of one it ends one request short
  (`LoginRampReachesItsRate`, `DeclaredRateIsThePeak`).
- The instants of a plan are distinct after rounding to six digits only up to a million users
  (`SixDigitsTellAMillionApart`).

## Model

| member | source | states |
|---|---|---|
| GlobalPaths.SplitInvertsJoin | src/genropy_asgi/siteregister/global_store_adapter.py:107-120 | splitting a dot-free key joined to any rest gives the two back |
| GlobalPaths.SplitLosesNothing | src/genropy_asgi/siteregister/global_store_adapter.py:107-120 | the key is dot-free, and key and rest make up the path |
| GlobalPaths.JoinRoundTrip | src/genropy_asgi/siteregister/global_store_adapter.py:16-26 | joined dot-free labels are read back iff empty ones are kept, or there is none, or nothing else |
| GlobalPaths.AdapterReadsLikeBag | src/genropy_asgi/siteregister/global_store_adapter.py:107-120 | adapter and Bag read a path alike iff it avoids one trailing dot (labels kept) or a leading dot and a key with several dots alone behind (labels dropped) |
| LegacyBag.LegacyIdempotent | src/genropy_asgi/siteregister/global_store_adapter.py:288-307 | bringing a value to the legacy side twice is doing it once |
| LegacyBag.LegacyAbsorbsWire | src/genropy_asgi/siteregister/global_store_adapter.py:288-319 | a value sent over the wire comes to the legacy side as the value itself would |
| LegacyBag.OneInstantReadsAlike | src/genropy_asgi/siteregister/global_store_adapter.py:288-319 | a date sent by one site is read by any other on its own clock, and two dates read alike iff they name one instant, whatever their zones |
| LegacyBag.LegacyMovesOnlyDates | src/genropy_asgi/siteregister/global_store_adapter.py:288-307 | at every path of the converted Bag stands what stood there, attributes and order of nodes kept, but for aware dates, which are naive on the local clock |
| LegacyBag.SetKeepsNodes | src/genropy_asgi/siteregister/global_store_adapter.py:329-338 | a write keeps the order, the attributes and all other nodes of a Bag; a new node comes last and bare |
| LegacyBag.LegacySetItem | src/genropy_asgi/siteregister/global_store_adapter.py:288-307 | writing a path and then converting the Bag is converting both and then writing |
| LegacyBag.LegacyDelItem | src/genropy_asgi/siteregister/global_store_adapter.py:288-307 | the same for deleting a path |
| LegacyBag.GetAfterSet | src/genropy_asgi/siteregister/global_store_adapter.py:329-338 | a path just written reads as what was written, whatever stood in its way |
| LegacyBag.GetAfterSetElsewhere | src/genropy_asgi/siteregister/global_store_adapter.py:190-215 | a write leaves every path it neither leads through nor ends above as it was |
| LegacyBag.GetAfterDelElsewhere | src/genropy_asgi/siteregister/global_store_adapter.py:217-246 | the same for a delete |
| GlobalStore.BlockEqualsDirect | src/genropy_asgi/siteregister/global_store_adapter.py:146-246 | the same writes done in one clean block or directly leave every read with the same answer |
| GlobalStore.BlockAndDirectStoreAlike | src/genropy_asgi/siteregister/global_store_adapter.py:146-215 | for every path, value and dictionary: a write and the same write as a block of its own leave one dictionary iff the value is one that both store alike there and no other key holds a bare naive date |
| GlobalStore.WhenADateKeepsItsInstant | src/genropy_asgi/siteregister/global_store_adapter.py:146-215 | a date written by one site, directly or in a block, is read by another at the instant it named iff it was written under a whole key, or directly and aware, or the two share a zone |
| GlobalStore.WritesLeaveNoBareNaive | src/genropy_asgi/siteregister/global_store_adapter.py:146-246 | no write or close leaves a bare naive date that was not there |
| GlobalStore.ReadSeesLegacyFace | src/genropy_asgi/siteregister/global_store_adapter.py:167-188 | a read depends on nothing but the dictionary as the legacy side sees it |
| DottedBag.SetIsFaithful | src/genropy_asgi/siteregister/global_store_adapter.py:190-215 | for either reading of a Bag: dictionary and local Bag say the same after a set iff the path is read alike or both readings of it already lead to that value |
| DottedBag.DeleteIsFaithful | src/genropy_asgi/siteregister/global_store_adapter.py:217-246 | for either reading: after a delete iff the path is read alike or neither reading of it leads anywhere |
| DottedBag.GetIsFaithful | src/genropy_asgi/siteregister/global_store_adapter.py:167-188 | for either reading and every path: both backings answer a get alike iff what stands in the dictionary meets a stated condition, which on paths read alike is that the read gets somewhere or the default is legacy already |
| DottedBag.ADotCanPartThem | src/genropy_asgi/siteregister/global_store_adapter.py:107-120 | for either reading a store of one key and a path of one dot on which get, set and delete all part the two backings |
| DottedBag.SnapshotIsFaithful | src/genropy_asgi/siteregister/global_store_adapter.py:248-266 | the snapshot is the dictionary as one Bag, in any walking order, iff no key has a dot |
| GlobalStore.WritesKeepKeysDotFree | src/genropy_asgi/siteregister/global_store_adapter.py:190-246 | no write by either road makes a key with a dot |
| GlobalStore.SubpathDeleteUnderAbsentKey | src/genropy_asgi/siteregister/global_store_adapter.py:217-246 | a delete under an absent key leaves it absent |
| DottedBag.HistoriesAreFaithful | src/genropy_asgi/siteregister/global_store_adapter.py:167-266 | a history of writes keeps local Bag, dictionary and block copy saying the same throughout iff each of its writes does |
| GlobalStoreAdapter.GlobalStoreAdapter.OpenTurn | src/genropy_asgi/siteregister/global_store_adapter.py:126-144 | a turn is the thread's copy of the master; a refusal, nested or other, changes nothing |
| GlobalStoreAdapter.GlobalStoreAdapter.CloseTurn | src/genropy_asgi/siteregister/global_store_adapter.py:146-161 | the turn is gone and the lock free, whatever happens; the copy is published only on a clean, landed exit |
| GlobalStoreAdapter.GlobalStoreAdapter.GetGlobalItem | src/genropy_asgi/siteregister/global_store_adapter.py:167-188 | the read of the backing that serves the thread, taking no lock the thread holds |
| GlobalStoreAdapter.GlobalStoreAdapter.SetGlobalItem | src/genropy_asgi/siteregister/global_store_adapter.py:190-215 | exactly one backing gets the write; an empty path is refused and changes nothing |
| GlobalStoreAdapter.GlobalStoreAdapter.DeleteGlobalItem | src/genropy_asgi/siteregister/global_store_adapter.py:217-246 | exactly one backing gets the delete; an empty path is refused |
| GlobalStoreAdapter.GlobalStoreAdapter.StoreBag | src/genropy_asgi/siteregister/global_store_adapter.py:248-266 | a snapshot of the backing, publishing nothing |
| GlobalStoreRuns.TurnIsTheWrite | src/genropy_asgi/siteregister/global_store_adapter.py:206-246 | read, modify and publish under a keyed lease is the write itself |
| GlobalStoreRuns.Serializable | src/genropy_asgi/siteregister/global_store_adapter.py:126-246 | in every interleaving the master is the finished operations applied in the order they released the lock, and every answer is the one that order gives |
| GlobalStoreRuns.NoFinishedWriteIsLost | src/genropy_asgi/siteregister/global_store_adapter.py:5-45 | a finished write is read back until something on its own path is written, whoever writes beside it |
| GlobalStoreRuns.WholeIsTheSnapshot | src/genropy_asgi/siteregister/global_store_adapter.py:248-266 | in every interleaving a read of the whole store, by either name, says what the snapshot of the master has, in whatever order it is walked |
| GlobalStoreProgress.BlockIsIsolated | src/genropy_asgi/siteregister/global_store_adapter.py:126-161 | no other thread moves the master or the copy during a block, and the block reads its own writes |
| GlobalStoreProgress.CloseEndsTheTurn | src/genropy_asgi/siteregister/global_store_adapter.py:126-161 | however a block goes on, nested opens included, its close leaves no lease, the lock free for the first in line, and the master as it was or with exactly the block's calls published on it |
| GlobalStoreProgress.NeverStuck | src/genropy_asgi/siteregister/global_store_adapter.py:102-105 | in every reachable state where somebody waits, the holder can finish or the first in line can be let in |
| GlobalStoreProgress.WaitIsBounded | src/genropy_asgi/siteregister/global_store_adapter.py:5-45 | on every run from every reachable state, a request waits through at most three lock steps per other before it and those the holder owes |
| GlobalStoreProgress.SomeRunServes | src/genropy_asgi/siteregister/global_store_adapter.py:5-45 | and some run of no more than those steps lets it in |
| SubscriptionIndex.SubscriptionIndex.Subscribe | src/genropy_asgi/spa/subscription_index.py:65-76 | both directions gain the pair; the answer tells a table's first subscriber |
| SubscriptionIndex.SubscriptionIndex.DropPage | src/genropy_asgi/spa/subscription_index.py:87-98 | the page is gone from every table; the answer tells whether the table set moved |
| DeliveryDesk.DeliveryDesk.RecordPageTableSubscriptions | src/genropy_asgi/spa/delivery_desk.py:109-122 | the tables are subscribed, repeated ones included, and announced once iff the set moved |
| DeliveryDesk.DeliveryDesk.SubscribeTable | src/genropy_asgi/spa/delivery_desk.py:125-148 | one pair moves, announced iff the set of tables did |
| DeliveryDesk.DeliveryDesk.Exchange | src/genropy_asgi/spa/delivery_desk.py:151-181 | deposits go in first, then the page's and the user's queues are handed over and retired |
| DeliveryDesk.DeliveryDesk.OnDatachange | src/genropy_asgi/spa/delivery_desk.py:203-228 | filed iff the target is held; a filtered address changes nothing |
| DeliveryDesk.DeliveryDesk.DropPage | src/genropy_asgi/spa/delivery_desk.py:302-315 | both queues and all subscriptions go, announced iff the set moved |
| DeskQueues.WhatWaitsForAPage | src/genropy_asgi/spa/delivery_desk.py:151-315 | over every run the page's queue is, in order, the changes sent to it that no later exchange, loss, reset, drop of a prefix above or replacing write of the key took |
| DeskQueues.WhatWaitsForAUser | src/genropy_asgi/spa/delivery_desk.py:151-319 | the same for the store changes of a user |
| DeskQueues.WhatAnExchangeReturns | src/genropy_asgi/spa/delivery_desk.py:151-181 | an exchange hands over exactly those, and the events with the caller's own deposits last |
| DeskQueues.AResetEmptiesTheQueue | src/genropy_asgi/spa/delivery_desk.py:256-260 | a reset that reaches its target leaves nothing waiting there |
| DeskQueues.UnderIsBelow | src/genropy_asgi/spa/delivery_desk.py:325-327 | a path lies under a prefix iff its dot-separated segments begin with the prefix's |
| DeskQueues.WhoSubscribes | src/genropy_asgi/spa/delivery_desk.py:109-148 | a page subscribes a table iff it opened the subscription, or its record named the table, and neither closed it nor was dropped since |
| DeskRuns.AnnouncedSetIsTheSubscribedSet | src/genropy_asgi/spa/delivery_desk.py:88-148 | after every call the set last broadcast is the set of subscribed tables, and exactly the calls that moved it broadcast, once |
| DeskRuns.ExactlyOnce | src/genropy_asgi/spa/delivery_desk.py:150-200 | what a page was given and what waits for it are, in order, the deposits filed while it subscribed |
| DeskRuns.OwnDepositsComeBack | src/genropy_asgi/spa/delivery_desk.py:151-181 | an exchanging page gets its own deposits in the same answer and leaves nothing waiting |
| DeskRuns.NothingAfterADrop | src/genropy_asgi/spa/delivery_desk.py:302-315 | a dropped page is given nothing and nothing waits for it until it subscribes again |
| DeskRuns.PageQueueIsItsLine | src/genropy_asgi/spa/delivery_desk.py:230-292 | over any run the page's queue and client depend on the page's own messages alone |
| DeskRuns.UserQueueIsItsLine | src/genropy_asgi/spa/delivery_desk.py:230-300 | the same for the store changes of a user |
| DeskRuns.DeskCoalescingPreservesMeaning | src/genropy_asgi/spa/delivery_desk.py:230-272 | a page's latest value per path, deletes included, is what an uncoalescing desk would have left, at every exchange of every run |
| DeskBags.PagesKeepTheirBags | src/genropy_asgi/spa/delivery_desk.py:151-272 | over any run of calls in which no replacing delete finds a set of its key waiting, the page's Bag is, up to the order of nodes, what an uncoalescing desk would have left, and every read of it is answered alike |
| DeskBags.UsersKeepTheirBags | src/genropy_asgi/spa/delivery_desk.py:151-300 | the same for the Bag of a user's store, whichever of his pages collects |
| DeskBags.PageBagIsItsLine | src/genropy_asgi/spa/delivery_desk.py:151-292 | the page's queue and Bag depend on the page's own messages alone |
| DeskBags.UserBagIsItsLine | src/genropy_asgi/spa/delivery_desk.py:151-300 | the user's queue and Bag depend on the user's own messages alone |
| Trees.TreeOfSet | src/genropy_asgi/spa/genropy_worker.py:293-320 | a write into a Bag is a write into its tree of labels |
| Trees.TreeOfDel | src/genropy_asgi/spa/genropy_worker.py:293-320 | and so is a delete, where the label is worn once |
| Trees.SetKeepsNeat | src/genropy_asgi/spa/genropy_worker.py:293-320 | a write keeps labels distinct at every level |
| Trees.DelKeepsNeat | src/genropy_asgi/spa/genropy_worker.py:293-320 | so does a delete |
| Trees.DelUndoesSet | src/genropy_asgi/spa/genropy_worker.py:293-320 | to write a path and delete it is to delete it iff its parent was there |
| TreeClients.CoalescingPreservesTrees | src/genropy_asgi/spa/delivery_desk.py:230-272 | a client that keeps a tree of labels ends with the same tree on every run in which no replacing delete finds a set of its key waiting |
| TreeClients.WhenADeleteShows | src/genropy_asgi/spa/delivery_desk.py:268-272 | after any such run, whatever waits, a replacing delete leaves the collecting client the same tree iff the node above the path is there with and without what was replaced, or that made no difference |
| TreeClients.ADeleteOverASetCanShow | src/genropy_asgi/spa/delivery_desk.py:268-272 | a set, then the delete that replaces it, on an empty queue: the client ends the same iff the node above the path was there |
| BagClients.BagIsItsTree | src/genropy_asgi/spa/genropy_worker.py:293-320 | what any queue makes of a Bag is, by its tree, what it makes of the tree, and labels stay distinct |
| BagClients.LastChangeIsRead | src/genropy_asgi/spa/genropy_worker.py:293-320 | after any queue the path of its last change reads nothing if that deleted it, an emptied place if it was fired, and what was sent otherwise |
| BagClients.CoalescingPreservesBags | src/genropy_asgi/spa/delivery_desk.py:230-272 | the client's own Bag is the uncoalesced one up to the order of nodes, and read alike, on every run in which no replacing delete finds a set of its key waiting |
| BagClients.WhenADeleteShowsInABag | src/genropy_asgi/spa/delivery_desk.py:268-272 | and where a replacing delete comes last, iff a Bag stands above the path with and without what was replaced, or those two Bags are one |
| Datachanges.CoalescingPreservesMeaning | src/genropy_asgi/spa/delivery_desk.py:230-272 | the latest value per path is kept by any run of sets, replaces, prefix drops, resets and drains on one queue |
| Datachanges.ReplacingLeavesOnePerKey | src/genropy_asgi/spa/delivery_desk.py:268-272 | if every set replaces, at most one change per path, reason and fired waits |
| Datachanges.ReplacingWriteIsTheOnlyOne | src/genropy_asgi/spa/delivery_desk.py:268-272 | a replacing set stands last, alone of its key, and touches no other key |
| Datachanges.QueueIsInArrivalOrder | src/genropy_asgi/spa/delivery_desk.py:242-272 | what waits is in arrival order, coalesced newcomers included |
| ItemLocks.RegisterLocks.LockItem | src/genropy_asgi/siteregister/siteregister_client.py:715-731 | granted iff free, held for the same reason, or global; a refusal changes nothing |
| ItemLocks.RegisterLocks.UnlockItem | src/genropy_asgi/siteregister/siteregister_client.py:733-745 | one hold less, whoever asks |
| ItemLocks.Enter | src/genropy_asgi/siteregister/siteregister_client.py:131-149 | enters at the first of 51 attempts that finds the item grantable; raises iff none does, after 91.15 seconds |
| ItemLocks.PausesInClosedForm | src/genropy_asgi/siteregister/siteregister_client.py:138-146 | the pauses double to two seconds and add up in closed form |
| ItemLockRuns.EntryIsTheOpenBlocks | src/genropy_asgi/siteregister/siteregister_client.py:715-745 | an item has no entry iff no block on it is open; otherwise its count is the open blocks, all of the recorded reason |
| ItemLockRuns.ExclusionNeedsOwnStores | src/genropy_asgi/siteregister/siteregister_client.py:116-162 | the lock keeps threads apart on every run iff no two threads enter stores of one builder |
| ItemLockRuns.SharedBuilderLetsBothIn | src/genropy_asgi/siteregister/siteregister_client.py:129-149 | two threads entering stores of one builder are inside together |
| ItemLockRuns.NeverLetInByItself | src/genropy_asgi/siteregister/siteregister_client.py:131-149 | a thread holding the item for another reason is refused until its last attempt raises |
| ItemLockRuns.FiftyOneAttempts | src/genropy_asgi/siteregister/siteregister_client.py:131-149 | such an entry waits through fifty attempts, whatever the others do, and the next one raises |
| StoreCopies.CopySharesTheExposed | src/genropy_asgi/siteregister/siteregister_client.py:295-311 | the copy has the original's content and shares exactly what frozen values, attributes and objects of other types lead to outside of containers |
| StoreCopies.CopyIsIndependent | src/genropy_asgi/siteregister/siteregister_client.py:236-311 | no mutation of what there was shows in the copy iff nothing is exposed; none of the copy shows in the original |
| StoreBoundary.StepKeepsApart | src/genropy_asgi/siteregister/siteregister_client.py:236-311 | a read or write makes site and store share an object iff the value that crosses exposes one |
| StoreBoundary.SidesStayApart | src/genropy_asgi/siteregister/siteregister_client.py:236-311 | over every clean run the sides share nothing, and neither's work shows in a value of the other |
| StoreBoundary.ReadAsWritten | src/genropy_asgi/siteregister/siteregister_client.py:236-284 | what was written is what is read, whatever the site mutates in between and whatever the store writes under other names or into other objects than the value kept |
| StoreBoundary.WriteKeepsOthers | src/genropy_asgi/siteregister/siteregister_client.py:263-284 | a write leaves every other name of its Bag, value, attributes and place, and every other object |
| ClientClocks.Worker.LocalRefresh | src/genropy_asgi/siteregister/siteregister_client.py:1337-1369 | the rows written and the answer, with a dead page, a chain broken at either link, and no clock reported |
| ClientClocks.WhatARefreshAnswers | src/genropy_asgi/siteregister/siteregister_client.py:1352-1369 | it names a user iff the page's chain ends at that user's row; a dead page gets nothing, a chain broken above raises, and a missing user with no clock reported gets nothing |
| ClientClocks.WhatAFailedRefreshLeaves | src/genropy_asgi/siteregister/siteregister_client.py:1352-1369 | a refresh that reaches no user changes a row iff the user's row is all that is missing and a clock below it climbs, and raises then |
| ClientClocks.ClimbingIsLater | src/genropy_asgi/siteregister/siteregister_client.py:1364-1368 | the later time is kept unless a negative one meets a zero |
| ClientClocks.ClocksAreTheLatestReports | src/genropy_asgi/siteregister/siteregister_client.py:1337-1369 | each row's clocks are the latest of the reports whose chain reaches it |
| ClientClocks.ReportsKeepClimbing | src/genropy_asgi/siteregister/siteregister_client.py:1337-1369 | no page gets ahead of its connection, nor a connection of its user |
| Percentile.PercentileByCounting | benchmarks/scenarios/eight_core_cycle/admission_guard.py:99-105 | the percentile is over a limit iff fewer than its share of samples, and fewer than one at least, are within it |
| Percentile.OnlyPercentile | benchmarks/scenarios/eight_core_cycle/admission_guard.py:99-105 | the percentile is the only figure that is over exactly the limits within which fewer than its share of samples lie |
| Percentile.OrderIsIrrelevant | benchmarks/scenarios/eight_core_cycle/admission_guard.py:99-105 | samples in another order have the same percentiles |
| AdmissionGuard.AdmissionGuard.JudgeBucket | benchmarks/scenarios/eight_core_cycle/admission_guard.py:112-136 | the bucket leaves the store and its verdict, count, peak, door, event and record are those of its samples |
| AdmissionGuard.AdmissionGuard.JudgeClosedBuckets | benchmarks/scenarios/eight_core_cycle/admission_guard.py:138-154 | every bucket up to the last closed one is judged, in order, none skipped |
| GuardPasses.JudgedOnceEnded | benchmarks/scenarios/eight_core_cycle/admission_guard.py:138-154 | from the first pass's bucket on exactly those buckets are judged that were over by the instant of some pass: none still open, none left out |
| GuardPasses.APassLeavesNothingBehind | benchmarks/scenarios/eight_core_cycle/admission_guard.py:138-154 | after a pass no bucket that is over by then is unjudged |
| GuardPasses.InTimeExactly | benchmarks/scenarios/eight_core_cycle/admission_guard.py:87-154 | samples are in time iff none comes behind a pass by whose instant its bucket was over |
| GuardPasses.SamplesComeInTime | benchmarks/scenarios/eight_core_cycle/admission_guard.py:138-154 | they are, whenever no sample completed before an earlier pass |
| GuardPasses.WhatTheGuardReports | benchmarks/scenarios/eight_core_cycle/admission_guard.py:112-182 | with samples in time each record reports the count, p95, verdict and run of its bucket's samples by counting, fires iff it ends the first run long enough, and the event reports count, p50, p95 and p99 of its bucket |
| GuardRuns.HistoryIsGapless | benchmarks/scenarios/eight_core_cycle/admission_guard.py:112-154 | for every schedule: consecutive buckets, one record each; the count is the bad suffix and the peak the longest bad run |
| GuardRuns.DoorClosesOnTheFirstRun | benchmarks/scenarios/eight_core_cycle/admission_guard.py:112-182 | closed iff some `needed` judged buckets in a row were bad; the event names the earliest such end and counts exactly `needed` |
| GuardRuns.EventNeverChanges | benchmarks/scenarios/eight_core_cycle/admission_guard.py:156-182 | once closed, closed for good with the same event |
| GuardRuns.GuardRefinesItsSamples | benchmarks/scenarios/eight_core_cycle/admission_guard.py:87-154 | while samples come in time the whole state is a statement about each bucket's samples |
| GuardRuns.TimingIsIrrelevant | benchmarks/scenarios/eight_core_cycle/admission_guard.py:138-154 | two schedules with the same buckets judged and the same samples in time end alike, whenever the passes ran |
| GuardRuns.LateSampleChangesNoVerdict | benchmarks/scenarios/eight_core_cycle/admission_guard.py:87-91 | a sample for a bucket gone past stays stored and alters nothing else, ever |
| GuardRuns.BadBySampleCount | benchmarks/scenarios/eight_core_cycle/admission_guard.py:112-136 | a bucket is bad iff it has samples enough and too few of them are within the limit |
| Sending.Send | benchmarks/execution/load_engine.py:97-120 | one retry, on an exception alone, and the outcome of the attempt that counted |
| Sending.WhatACallKeeps | benchmarks/execution/load_engine.py:97-120 | the status of the reply, or the first 120 characters of the exception and no status; an application error only at status 200 |
| Sending.SendReportsOneKind | benchmarks/execution/load_engine.py:97-120 | no call wears two errors; a transport error is a raised attempt and nothing else |
| Sending.ErrorsPartitionTheWindow | benchmarks/execution/load_engine.py:248-298 | three error counts and the successes add up to the calls iff no call wears two errors |
| Sending.SentCallsPartition | benchmarks/execution/load_engine.py:97-120 | so they do for calls that were sent |
| LoadEngine.LoadEngine.RecordCall | benchmarks/execution/load_engine.py:164-185 | one more completed call in every account, one error counter at most |
| LoadEngine.LoadEngine.CloseWindow | benchmarks/execution/load_engine.py:248-298 | the window has exactly the untaken calls of its phase, which no later window can take |
| LoadWindows.WhatAWindowReports | benchmarks/execution/load_engine.py:248-298 | on every run a window reports exactly the calls of its phase recorded since the last window of it, their responses and errors by kind and the p50, p95 and p99 of their latencies by counting, and leaves earlier windows as they are |
| LoadWindows.WhatTheSamplerTakes | benchmarks/execution/load_engine.py:187-198 | the next interval has the latencies and latenesses of exactly the calls recorded since the last one, in order |
| LoadWindows.CountersCount | benchmarks/execution/load_engine.py:156-185 | the running counters count what was offered, started and recorded, each call under its one kind |
| LoadEngine.WindowsShareOutTheCalls | benchmarks/execution/load_engine.py:164-298 | over every run each completed call is in one window or waits for one |
| LoadEngine.ErrorsAreConserved | benchmarks/execution/load_engine.py:164-298 | each running error counter is the windows' errors of that kind and those still waiting |
| LoadEngine.ResponsesOfAWindow | benchmarks/execution/load_engine.py:248-298 | responses and transport errors make the completed; HTTP errors, application errors and successes the responses |
| LoadRuns.OfferedIsConserved | benchmarks/execution/load_engine.py:58-95 | in every interleaving offered = being handed over + queued + in flight + completed + crashed |
| LoadRuns.PhaseIsConserved | benchmarks/execution/load_engine.py:58-95 | and for the window in play: queued so far = queued + in flight + completed + crashed, all of its phase |
| LoadRuns.UsersRunInOrder | benchmarks/execution/load_engine.py:58-95 | each user completed its first calls in order, then has the call that killed its thread or at most one in flight, then the rest queued |
| LoadRuns.CountsOnlyFallDuringAScan | benchmarks/execution/load_engine.py:200-246 | while the offerer drains, no step raises a user's task count |
| LoadRuns.DrainIsSound | benchmarks/execution/load_engine.py:200-246 | a scan that read one queue at a time and found nothing was right, users registering at any time |
| LoadRuns.RegistrationBreaksTheScan | benchmarks/execution/load_engine.py:200-246 | a user registered during a scan makes it raise: no run from there drains or closes a window |
| LoadRuns.ClosedWindowsSettle | benchmarks/scenarios/eight_core_cycle/cycle_probe.py:219-259 | every closed window accounts for what it offered as completed or crashed, once each, and completed it all iff nothing crashed; rows visited are offered or withheld, all rows unless stopped |
| LoadAdmissions.AdmittedAreOffered | benchmarks/scenarios/eight_core_cycle/cycle_probe.py:219-259 | in every interleaving no row is withheld as long as all a window asks for are admitted and none is paused |
| LoadAdmissions.OnlyTheAdmittedAreOffered | benchmarks/scenarios/eight_core_cycle/cycle_probe.py:219-259 | a user never admitted, or paused, is offered no further call until admitted, one already counted apart |
| LoadRuns.ACrashIsSignedOff | benchmarks/execution/load_engine.py:64-95 | from a fresh engine a run in which one call raises and is signed off: the drain passes and the window closes with one offered and none completed |
| LoadRuns.NobodyServesTheDead | benchmarks/execution/load_engine.py:64-73 | what waits for a thread that raised keeps every later drain from passing |
| LoadAccounts.AccountsFollowTheThreads | benchmarks/execution/load_engine.py:156-298 | in every interleaving the engine's counters, untaken calls and windows are those of the threads' own steps |
| LoadRuns.TimedOutStays | benchmarks/execution/load_engine.py:234-246 | after a drain that gave up no window closes |
| CycleEngine.CycleEngine.RecordReturn | benchmarks/scenarios/eight_core_cycle/cycle_probe.py:203-217 | an awaited user's record is added and the user no longer awaited |
| CycleEngine.FirstCallAfterAReturn | benchmarks/scenarios/eight_core_cycle/cycle_probe.py:194-217 | a completed call takes a return iff it is the user's first since one was expected, and adds no record yet |
| CycleEngine.ReturnsAreConserved | benchmarks/scenarios/eight_core_cycle/cycle_probe.py:194-217 | expected returns are recorded, about to be recorded, awaited, or were expected anew |
| CycleEngine.RecordsMayOvertake | benchmarks/scenarios/eight_core_cycle/cycle_probe.py:203-217 | a run of two users whose records come in the other order than their calls |
| CycleEngine.OneRecordPerReturn | benchmarks/scenarios/eight_core_cycle/cycle_probe.py:194-217 | a user expected once gives one record as soon as a call completes, and no other |
| CyclePlan.UserCalls | benchmarks/scenarios/eight_core_cycle/make_cycle_trace.py:104-117 | one call a second from the first to the end of the window |
| CyclePlan.RowsOfLoginRamp | benchmarks/scenarios/eight_core_cycle/make_cycle_trace.py:154-161 | the rows of users that enter one period after another |
| CyclePlan.RowsOfPause | benchmarks/scenarios/eight_core_cycle/make_cycle_trace.py:171-180 | the rows of the users that are not paused |
| CyclePlan.RowsOfReturnRamp | benchmarks/scenarios/eight_core_cycle/make_cycle_trace.py:182-192 | the rows of those never paused and of those that come back, in the order drawn |
| CyclePlan.Calls | benchmarks/scenarios/eight_core_cycle/make_cycle_trace.py:194-226 | the windows' sorted rows one after the other, numbered throughout |
| PlanRates.RowsAre | benchmarks/scenarios/eight_core_cycle/make_cycle_trace.py:154-192 | a phase has exactly one row per user and second from the user's first, at the user's slot |
| PlanRates.RateOfRows | benchmarks/scenarios/eight_core_cycle/make_cycle_trace.py:119-192 | each second of each window has the rate of its phase, none past its end, for any whole periods |
| PlanRates.UnitRates | benchmarks/scenarios/eight_core_cycle/make_cycle_trace.py:119-192 | with unit periods second s of the login ramp has s, of the return ramp users - paused + s |
| PlanRates.DeclaredRateIsThePeak | benchmarks/scenarios/eight_core_cycle/make_cycle_trace.py:119-152 | whatever the whole periods the declared rate is never exceeded and met in the last second, but for a login ramp of unit period, which ends one short |
| PlanRates.LoginRampReachesItsRate | benchmarks/scenarios/eight_core_cycle/make_cycle_trace.py:119-161 | the login ramp has a second at its declared rate iff its period is longer than one second |
| PlanRates.RampTotals | benchmarks/scenarios/eight_core_cycle/make_cycle_trace.py:154-192 | both ramps total a closed form for any whole period |
| PlanRates.SteadyTotals | benchmarks/scenarios/eight_core_cycle/make_cycle_trace.py:163-180 | the other windows hold their rate times their seconds |
| PlanOrder.SegmentInOrder | benchmarks/scenarios/eight_core_cycle/make_cycle_trace.py:194-215 | after the sort no two rows of a phase share an instant |
| PlanOrder.OneSecondApart | benchmarks/scenarios/eight_core_cycle/make_cycle_trace.py:108-117 | a user's rows are whole seconds apart with none missing between |
| PlanOrder.PlanInOrder | benchmarks/scenarios/eight_core_cycle/make_cycle_trace.py:194-226 | numbered from zero without a gap, and strictly increasing within a phase after rounding, up to a million users |
| PlanOrder.PlanRate | benchmarks/scenarios/eight_core_cycle/make_cycle_trace.py:194-226 | the finished plan states each phase's rate in every second, rounding included |
| PlanOrder.PlanTotals | benchmarks/scenarios/eight_core_cycle/make_cycle_trace.py:119-226 | the plan runs through the six phases in their turn and has of each as many calls as its users and the length asked for make, the ramps in closed form |
| PlanOrder.WhoCallsWhen | benchmarks/scenarios/eight_core_cycle/make_cycle_trace.py:154-226 | a user has a call in a second of a window iff it calls then: from one second after its entry or its return in the order drawn, and not while paused |
| PlanOrder.CallsKeepTheirSlots | benchmarks/scenarios/eight_core_cycle/make_cycle_trace.py:104-226 | every call has the rate of its window and lies at its user's own slot of its second |
| PlanOrder.SixDigitsTellAMillionApart | benchmarks/scenarios/eight_core_cycle/make_cycle_trace.py:104-106 | rounded instants of a full phase stay distinct iff there are at most a million users |
| StructuralDiff.GetValueDifferences | benchmarks/analysis/structural_diff.py:536-550 | one difference per pair that disagrees, arguments before answer |
| StructuralDiff.GetDifferences | benchmarks/analysis/structural_diff.py:513-534 | the differences block by block; the stable sort moves nothing |
| StructuralDiff.WhatIsFound | benchmarks/analysis/structural_diff.py:513-560 | exactly these differences are found: for every aligned pair that disagrees the first thing it disagrees about, for every other block its first call on each side it has one, the left line as reference and the right as replica |
| StructuralDiff.FoundInOrder | benchmarks/analysis/structural_diff.py:533-534 | they are found in ordinal order already |
| StructuralDiff.NoDifferenceIsEquality | benchmarks/analysis/structural_diff.py:513-560 | none is reported iff both sides agree line by line in key, arguments and answer |
| StructuralDiff.FirstDifferenceIsFirst | benchmarks/analysis/structural_diff.py:513-560 | everything before the first difference reported is the same on both sides |
| StructuralDiff.FirstRuleCounts | benchmarks/analysis/structural_diff.py:455-461 | the first rule in the table that gives a reason names the difference; none, and it goes unrecognised |
| StructuralDiff.FirstUnknownIsFirst | benchmarks/analysis/structural_diff.py:499-511 | every difference before the one returned is recognised by some rule, and that one by none |
| StructuralDiff.StructuralDiff.GetDivergence | benchmarks/analysis/structural_diff.py:499-511 | returns the first unrecognised difference; `known` grows by exactly those before it |
| StructuralDiff.PassingExchanges | benchmarks/analysis/structural_diff.py:499-511 | exchanges pass iff every difference is recognised; without rules, iff they are equal |

## Left out

- DottedBag.HistoriesAreFaithful: is about staying together after every write; two that parted may meet again later.
- GlobalStoreAdapter.GlobalStoreAdapter.SetGlobalItem: the call to the commander succeeds; one that fails is a step of GlobalStoreRuns.
- GlobalStoreAdapter.GlobalStoreAdapter.DeleteGlobalItem: the same.
- GlobalStoreProgress.WaitIsBounded: that a block ends is its caller's business; the bound counts the steps by which the lock is handed on.
- GlobalStoreAdapter.GlobalStoreAdapter.StoreBag: the order of a dictionary's keys is any order, not the order of insertion.
- DeskRuns.DeskCoalescingPreservesMeaning: is about the latest value per path, on every run; the Bag a client makes of the values is in DeskBags.
- Datachanges.CoalescingPreservesMeaning: the same for one queue; the Bag is in BagClients.
- TreeClients.CoalescingPreservesTrees: a tree has no order of nodes and no attributes; a run that goes on after a delete that replaced a set is decided only up to the collection that follows it.
- BagClients.CoalescingPreservesBags: the same; the values sent wear no label twice at any level.
- DeliveryDesk.DeliveryDesk.OnDatachange: the populations of the vertex are given as two sets.
- StoreCopies.CopySharesTheExposed: objects that copy themselves in a way of their own; a value that contains itself, and two places of one container that share an object and share its copy too, are not told apart.
- StoreBoundary.ReadAsWritten: the path to the Bag that holds the name is walked already; how an earlier node's attributes merge with new ones is not modelled; nor is the default a read hands back.
- ClientClocks.ClocksAreTheLatestReports: the chain stays as it is during the run; logins that relabel a connection and the core's own stamps are not part of it.
- ItemLockRuns.EntryIsTheOpenBlocks: blocks of one thread may end in any order, and thread identifiers are never reused.
- AdmissionGuard.AdmissionGuard.JudgeBucket: the wall-clock fields of a record and the context of an event are not kept.
- LoadEngine.LoadEngine.CloseWindow: rates, percentiles of lateness, its drift and medians are reported numbers and are not modelled.
- LoadAdmissions.OnlyTheAdmittedAreOffered: from any state that keeps the machine's invariant, as every reachable one does.
- PlanOrder.WhoCallsWhen: up to a million users, beyond which six digits no longer tell instants apart.
- LoadAccounts.AccountsFollowTheThreads: intervals taken by the sampler; a call that crashes after it was recorded is recorded.
- LoadRuns.RegistrationBreaksTheScan: that a registration fell into the scan is seen by the number of users, which only grows.
- LoadRuns.ClosedWindowsSettle: the waits between rows and the polling pause of a drain are steps of any length.
- CyclePlan.Calls: the drawn lookup of a row and its constant operation name; the draw of the paused users is an argument.
- PlanOrder.PlanInOrder: instants are exact where the program computes them in floating point.
- StructuralDiff.GetDifferences: how the matcher finds its opcodes; masking and shaping of lines, which enter as opaque shapes.
- StructuralDiff.StructuralDiff.GetDivergence: the declared rules themselves; a rule is any function from a difference to a reason.
- HTTP clients, proxies, recorders, the SQLite archive, the portal, the command line, sampling and report files.
- The rest of the register client: lifecycle commands, legacy views and the ping envelope, which copy fields.
- Daylight-saving gaps and folds.
