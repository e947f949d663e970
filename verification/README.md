# BACnet stack: a verified model of its stateful handlers

The project models, in Dafny, the parts of the BACnet stack that keep state or parse nested data, and
proves what they promise over whole runs and for all inputs.

- **Change-of-value subscriptions** (`bacnet/handler/h_cov.c`, ASHRAE 135-2010 clauses 13.1 and 13.14):
  128 subscription slots share 16 address entries by index, lifetimes tick, and a task visits one slot per
  call in five states while confirmed notifications hold invoke IDs of the TSM. `CovEngine` holds the
  tables as arrays with the scan loops of the source; every method is proved to change the state as the
  transition function of `CovModel` says. The other `Cov*` modules prove properties of all runs of that
  function, in which requests, ticks, task calls, raised COV flags and TSM events interleave freely;
  `CovWitnesses` gives runs from initialisation in which the service falls short.
- **The TSM table** (`bacnet/src/tsm.c`, declared in `bacnet/include/tsm.h`), as far as the subscriptions
  rely on it: module `Tsm`.
- **GetEventInformation** (`bacnet/handler/h_getevent.c`, clause 13.12): module `GetEvent`.
- **ReadPropertyMultiple acknowledgements** (`bacnet/handler/h_rpm_a.c`, clause 15.7): `Rpm` parses into
  linked lists in an explicit heap (`Chains`) that can run out of memory, `RpmHandler` frees them, and
  `RpmAck` prints the grammar and reads it back.
- **WritePropertyMultiple** (`bacnet/handler/h_wpm.c`, clause 15.10): modules `Wpm` and `WpmRequest`.
- **Private transfer, router messages, the millisecond timer**: `PrivateTransfer`, `Router`, `MsTimer`.

`Octets`, `Tags` and `Tokens` hold machine integers, the octet codecs of clause 20.2 and bracketed tag lists.

Where the code does less than the standard or its own comments say, the code is modelled as it is, and the
exact condition is proved:

- When the address table is full a subscription is accepted without an address. Such an orphan answers to any
  station (`CovOrphans.OrphanIsTakenOver`). It comes about exactly when an accepted request finds no room for its
  address (`CovRegistry.OrphanIffNoRoom`), which can be read off the registered stations
  (`CovRegistry.RoomyByRegistry`). The tables represent a map from subscribers to terms throughout a run exactly
  when no request of the run comes to that (`CovRegistry.ServiceRefinesRegistry`).
- One key can end up in two slots (`CovOrphans.KeyInTwoSlots`): exactly when a request that is no cancellation
  matches an orphan first, finds room for its address, and its key is in some slot already
  (`CovOrphans.StepKeepsUniqueIff`, over whole runs `CovOrphans.UniqueIffNeverDoubled`).
- An unmatched cancellation succeeds exactly when a slot is free (`CovRegistry.UnmatchedCancel`), although the
  comment at `bacnet/handler/h_cov.c:434` quotes the standard that it always shall; with 128 subscriptions it
  is refused (`CovWitnesses.CancellationRefused`).
- A change can be lost to a subscriber that is neither notified of it nor will be. Under any interleaving that
  happens exactly when CLEAR visits a subscription with a request pending while another one on the same object
  has not been told and has none (`CovNoLoss.StepLosesIffHasty`, over whole runs `CovNoLoss.LostIffHasty`);
  nothing is lost when all changes come outside the MARK and CLEAR sweeps (`CovNoLoss.NoChangeIsLost`,
  `CovNoLoss.TimelyBetweenSweeps`). What becomes of a change in the middle of a sweep can be told at once when
  nothing but task calls follows (`CovNoLoss.MidSweepChangeLostIff`, run `CovWitnesses.ChangeIsLost`), but a
  station that subscribes in the rest of the sweep can still lose it (`CovWitnesses.ChangeIsLostLater`).
- Slots share invoke IDs, or release transactions that are not theirs, exactly when the TSM hands out an ID that
  a slot still remembers (`CovTransactions.StepExclusiveIff`). Although the TSM hands its IDs out in rotation,
  that happens when it goes around between two visits of a slot, and a cancellation then closes another client's
  transaction (`CovWitnesses.ReusedIdIsReleased`).
- A GetEventInformation page that would announce more to a client that accepts fewer than 128 octets is replaced
  by an abort, so paging delivers everything exactly when one page takes all events, or the client accepts at
  least 128 octets and each event fits a page (`GetEvent.PagingIsComplete`, `GetEvent.ShortResponseAborts`).
- The encoders write to the transmit buffer without looking at its size. It is overrun exactly when the response,
  or an event that is tried behind the page, does not fit (`GetEvent.Handle`); nine events of 61 octets do not
  fit the 506 octets of the stack for a client that accepts 1476 (`GetEvent.NineEventsOverrun`).
- A GetEventInformation page is empty, without more to come, exactly when the marker is the last event or
  is no longer active (`GetEvent.EmptyPageIff`).
- A segmented WritePropertyMultiple request is acknowledged although nothing is written (`Wpm.Handle`).
- When the first object identifier of a ReadPropertyMultiple acknowledgement does not decode, the parser frees
  the node of the handler, and only then (`Rpm.Parse`); the freeing loop of the handler then starts at a node that
  is no longer in the heap (`RpmHandler.Handle`). A single octet 0 is such an acknowledgement
  (`RpmAck.IdentifierFails`).
- The parser of property values allocates until no memory is left, however much there is, exactly when values
  that delimit themselves are followed by one that decodes to no octets and not by the closing tag 4
  (`Rpm.NeverEnoughIffStuck`). In the stack that is a closing tag numbered 0 to 14 other than 4, or a value whose
  contents take no octets (`RpmAck.StuckInStack`); the octet 0x1F is enough (`RpmAck.StrayClosingTag`).
- A written property value is measured right, and the request written as asked, exactly when the steps of the
  measurement end where the value ends and meet no closing tag of the value's own number before
  (`WpmRequest.MeasuredIffPasses`, `WpmRequest.WrittenIffPassing`). The contents of context tags 7 and 8 of
  property 2, and 2 of property 152, are read as tags of their own: one octet 0 or 1 does no harm
  (`WpmRequest.ConstructedPasses`), array index 47 ends the value (`WpmRequest.MeasuredWrong`).
- Resetting a timer reads the clock twice; the ticks in between are in neither report
  (`MsTimer.ResetLosesGap`).
- The count octet of a routing table holds the number of ports exactly up to 255 (`Router.RoutingTableRoundTrip`).
- `timeGetTime` is ahead of true time by one exactly when it rounds a negative nanosecond difference
  (`MsTimer.MillisIsElapsed`).

## Model

| member | source | states |
|---|---|---|
| CovEngine.AddressSame | bacnet/src/bacaddr.c:62-97 | the result is true exactly when network and length are equal, the remote octets agree up to seven, and on the local network MAC length and MAC octets agree as well |
| CovModel.SameInOctets | bacnet/src/bacaddr.c:62-97 | the same of the relation that all tables go by |
| CovModel.GrantedAsAsked | bacnet/handler/h_cov.c:386-425 | a granted request puts its own object, process, lifetime and kind of notification into one slot with a notification pending, with or without room for its address; a cancellation frees the slot it matches; no other slot changes, and a transaction of the slot is released |
| CovModel.RefusedUnchanged | bacnet/handler/h_cov.c:426-439 | a request is refused exactly when every slot is valid and none matches, and then nothing changes |
| CovEngine.CovService.constructor | bacnet/handler/h_cov.c:331-351 | both tables are empty and the task is idle |
| CovEngine.CovService.GetAddress | bacnet/handler/h_cov.c:91-104 | the address in a valid entry, none for index 255 or a freed entry |
| CovEngine.CovService.RemoveUnusedAddresses | bacnet/handler/h_cov.c:109-130 | exactly the entries that no valid subscription refers to become free |
| CovEngine.CovService.AddAddress | bacnet/handler/h_cov.c:139-176 | the first equal entry, else the first free one now holding the address, else -1 and no change |
| CovEngine.CovService.UpdateExisting | bacnet/handler/h_cov.c:386-400 | cancels or renews the matching slot, collects addresses, and releases its invoke ID |
| CovEngine.CovService.ListSubscribe | bacnet/handler/h_cov.c:353-443 | the scan loop performs the transition Subscribe, with its result and error code |
| CovEngine.CovService.ExpireLifetime | bacnet/handler/h_cov.c:527-567 | one slot is ticked without underflow, and on expiry gives back address and invoke ID |
| CovEngine.CovService.TimerTick | bacnet/handler/h_cov.c:590-609 | the loop over all slots, collecting after every expiry, equals ticking them at once and collecting once |
| CovEngine.CovService.SendRequest | bacnet/handler/h_cov.c:445-525 | sends only to a known address under DCC, and opens a transaction even when the datalink then fails |
| CovEngine.CovService.TaskTick | bacnet/handler/h_cov.c:611-744 | one call performs the transition Task in each of the five states |
| CovAddresses.AddressTableIsExact | bacnet/handler/h_cov.c:109-176 | in every reachable state valid addresses differ pairwise, no subscription dangles, and no address is garbage |
| CovAddresses.TableIsLiveSet | bacnet/handler/h_cov.c:109-130 | in every reachable state the stations in the table are exactly those of the valid subscriptions |
| CovAddresses.NeverRedirected | bacnet/handler/h_cov.c:386-425 | no event makes a live subscription report to another station, unless it is that subscription's own request |
| CovAddresses.RenewKeepsAddressSlot | bacnet/handler/h_cov.c:391-396 | renewing a subscription that has an address keeps its address index and the whole table |
| CovAddresses.SubscribeKeepsExact | bacnet/handler/h_cov.c:353-443 | a request keeps the table exact and leaves all other subscribers where they were |
| CovAddresses.TickKeepsExact | bacnet/handler/h_cov.c:556-558 | expiry keeps the table exact and the surviving subscribers where they were |
| CovRegistry.SubscribeIsMapUpdate | bacnet/handler/h_cov.c:353-443 | unless it asks for an address in vain, a request succeeds iff its key is registered or a slot is free, and then is a map update, a removal or no change; the same when it is refused with both tables full |
| CovRegistry.TickIsMapTick | bacnet/handler/h_cov.c:590-609 | a tick lowers every definite lifetime in the map and drops those that reach zero |
| CovRegistry.ServiceRefinesRegistry | bacnet/handler/h_cov.c:353-443 | throughout a run the tables represent the map from station, object and process to terms if and only if no request asks for an address in vain, which the map itself tells |
| CovRegistry.StepRepresentsIff | bacnet/handler/h_cov.c:353-443 | the same for one event |
| CovRegistry.RoomyByRegistry | bacnet/handler/h_cov.c:370-443 | a request asks in vain exactly when it is no cancellation, would be accepted, and its station is not among sixteen registered ones |
| CovRegistry.RegistryIsUnique | bacnet/handler/h_cov.c:66-80 | the tables determine that map |
| CovRegistry.MatchIsKey | bacnet/handler/h_cov.c:370-384 | without orphans a slot matches a request exactly when it holds the request's key |
| CovRegistry.OrphanIffNoRoom | bacnet/handler/h_cov.c:391-414 | a request leaves an orphan exactly when it is accepted, is no cancellation and finds no room for its address |
| CovRegistry.RoomByStations | bacnet/handler/h_cov.c:139-176 | there is room exactly when the station is registered or fewer than sixteen stations are |
| CovRegistry.UnmatchedCancel | bacnet/handler/h_cov.c:426-439 | an unmatched cancellation changes nothing and succeeds exactly when a slot is free |
| CovOrphans.OrphanIsTakenOver | bacnet/handler/h_cov.c:373-396 | the first station that asks for an orphan's object and process becomes its subscriber |
| CovOrphans.KeyInTwoSlots | bacnet/handler/h_cov.c:373-396 | a run of requests from initialisation after which two valid slots hold the same key, and the tables represent no map |
| CovOrphans.StepKeepsUniqueIff | bacnet/handler/h_cov.c:370-425 | unique keys stay unique through an event exactly when it is no request that gives an orphan an address under a key some slot holds already |
| CovOrphans.UniqueIffNeverDoubled | bacnet/handler/h_cov.c:353-443 | throughout a run no key is in two slots exactly when no request of the run is of that kind |
| CovWitnesses.CancellationRefused | bacnet/handler/h_cov.c:426-439 | a legal run from initialisation after which an unmatched cancellation fails |
| CovLifetime.TickAdds | bacnet/handler/h_cov.c:527-609 | ticking a and then b leaves the same slots, addresses and transactions as ticking a + b |
| CovLifetime.ExpiresWhenTimeIsUp | bacnet/handler/h_cov.c:534-566 | under any interleaving a lifetime L expires exactly when the elapsed seconds reach L, shows exactly the rest before, and 0 never expires |
| CovTransactions.StepKeepsHolders | bacnet/handler/h_cov.c:397-400 | a slot with an invoke ID stays valid and confirmed through every event |
| CovTransactions.NeverOverwritten | bacnet/handler/h_cov.c:673-707 | a recorded invoke ID is kept or dropped, never replaced |
| CovTransactions.NoTransactionIsForgotten | bacnet/handler/h_cov.c:490-510 | over every run, each transaction opened for a notification that the TSM still holds is recorded in a slot |
| CovTransactions.NoSubscriberNoTransaction | bacnet/handler/h_cov.c:559-564 | with no confirmed subscription left, no notification transaction is left |
| CovTransactions.TransactionsAreExclusive | bacnet/handler/h_cov.c:673-707 | throughout a run slots never share an invoke ID and release only their own transactions exactly when the TSM never hands out an ID that a slot still records |
| CovTransactions.StepExclusiveIff | bacnet/handler/h_cov.c:397-400 | the same for one event |
| CovWitnesses.ReusedIdIsReleased | bacnet/handler/h_cov.c:397-400 | a legal run from initialisation, with all IDs handed out in rotation, in which a cancellation closes another client's transaction |
| CovScheduler.SchedulerIsCounter | bacnet/handler/h_cov.c:629-741 | state and index are the number of task calls modulo 513, under any interleaving |
| CovScheduler.PositionIsState | bacnet/handler/h_cov.c:614-633 | that number determines state and index |
| CovScheduler.DeliveredOncePerCycle | bacnet/handler/h_cov.c:629-741 | in the 513 calls from IDLE on, a known station with a notification pending, or whose object's flag is up, is sent exactly one if its FREE and SEND visits find the way clear, else none |
| CovScheduler.NothingSentUnasked | bacnet/handler/h_cov.c:634-735 | a subscription with nothing pending, whose object's flag is down and is never raised, is sent nothing in any run |
| CovNoLoss.NoChangeIsLost | bacnet/handler/h_cov.c:634-672 | if every change is timely, an untold subscriber always has its request pending or its object's flag up, over every run |
| CovNoLoss.ClearFindsAllMarked | bacnet/handler/h_cov.c:656-672 | when CLEAR takes a flag down, every subscription to the object has its request pending |
| CovNoLoss.RequestEndsBySending | bacnet/handler/h_cov.c:693-731 | a pending request ends only by a successful send, a cancellation or expiry |
| CovNoLoss.TimelyBetweenSweeps | bacnet/handler/h_cov.c:630-633 | changes outside MARK and CLEAR are timely |
| CovNoLoss.StepLosesIffHasty | bacnet/handler/h_cov.c:656-672 | an event loses a change to a subscriber exactly when it is a CLEAR visit of a pending slot while another slot on its object is untold and not pending |
| CovNoLoss.LostIffHasty | bacnet/handler/h_cov.c:634-735 | throughout a run nothing is lost exactly when no event is of that kind, under any interleaving |
| CovNoLoss.MidSweepChangeLostIff | bacnet/handler/h_cov.c:634-672 | when nothing but task calls follows to the end of the sweep, a change in its middle is lost to a subscriber exactly when one subscription was passed over and another takes the flag down |
| CovWitnesses.ChangeIsLost | bacnet/handler/h_cov.c:634-672 | a legal run from initialisation after which a subscriber has not been told of a change and nothing will tell it |
| CovWitnesses.ChangeIsLostLater | bacnet/handler/h_cov.c:634-672 | another, in which only a request after the change brings in the subscription that takes the flag down |
| CovEncoding.EncodeSubscriptions | bacnet/handler/h_cov.c:302-326 | the octets are all subscriptions' in slot order, and -2 is returned exactly when they exceed the limit and a subscription is valid |
| CovEncoding.PropertyReadsBack | bacnet/handler/h_cov.c:205-289 | the octets are well-bracketed tags that read back as the subscriptions with an address, in slot order |
| CovEncoding.ReportedInOrder | bacnet/handler/h_cov.c:205-326 | the records reported are, one for each and in slot order, those of the valid subscriptions with an address: network, remote octets behind a router or MAC octets on the local network, process, object, kind and lifetime |
| CovEncoding.ReportedAreLive | bacnet/handler/h_cov.c:221-224 | a record is reported exactly when it tells that of some such subscription |
| CovEncoding.ExampleOctets | bacnet/handler/h_cov.c:225-286 | one subscription of a local station octet by octet |
| Tsm.Table.NextFreeInvokeId | bacnet/include/tsm.h:96-98 | the search ends; it gives the first unused ID from the current one on and enters it, and 0 exactly when no entry is free (body: lines 155-204 of bacnet/src/tsm.c) |
| Tsm.RunOfUsed | bacnet/include/tsm.h:96-98 | with a free entry, fewer than 255 consecutive IDs can be in use (the search loop: lines 163-200 of bacnet/src/tsm.c) |
| Tsm.Table.TransactionAvailable | bacnet/include/tsm.h:87-88 | answers whether an entry is free (body: lines 105-122 of bacnet/src/tsm.c) |
| Tsm.Table.SetConfirmed | bacnet/include/tsm.h:101-107 | the transaction now waits for its confirmation, and no other changes (body: lines 206-237 of bacnet/src/tsm.c) |
| Tsm.Table.FreeInvokeId | bacnet/include/tsm.h:93-95 | that transaction and no other is gone (body: lines 311-321 of bacnet/src/tsm.c) |
| Tsm.Table.InvokeIdFree | bacnet/include/tsm.h:116-117 | answers whether the transaction is gone (body: lines 327-337 of bacnet/src/tsm.c) |
| Tsm.Table.InvokeIdFailed | bacnet/include/tsm.h:118-119 | answers whether the transaction is held but has run out of retries (body: lines 345-361 of bacnet/src/tsm.c) |
| GetEvent.VisitEvent | bacnet/handler/h_getevent.c:125-160 | one active event is skipped, resumes the scan, is committed or is cut off as the fold over the flat list says |
| GetEvent.AskHandler | bacnet/handler/h_getevent.c:123-164 | the inner loop, although it stops early, acts as the fold over the list of all events of the handler |
| GetEvent.AskAll | bacnet/handler/h_getevent.c:121-166 | the outer loop, which goes on after a cut-off, acts as the fold over all handlers' events |
| GetEvent.ActiveInOrder | bacnet/handler/h_getevent.c:121-163 | that list holds one event for each object type and index below 0xffff that is answered with one, by type and then by index, an index without event ending nothing; the flags mark the first event of each type |
| GetEvent.ActiveIffAnswered | bacnet/handler/h_getevent.c:121-163 | an event is in the list exactly when a registered handler answers with it below index 0xffff |
| GetEvent.Handle | bacnet/handler/h_getevent.c:112-176 | for every max_resp and buffer size: the buffer is overrun exactly when the response or an event tried behind it does not fit; else the answer is the longest page after the marker that fits, with more_events and exactly its octets in the buffer, or the abort that replaces it |
| GetEvent.FoldIsPage | bacnet/handler/h_getevent.c:121-166 | the fold commits that longest prefix |
| GetEvent.AckInOctets | bacnet/src/getevent.c:88-184 | the acknowledgement octet by octet: invoke ID, service choice 29, the bracketed summaries, more_events |
| GetEvent.FitsMeansWithin | bacnet/handler/h_getevent.c:145-158 | events fit exactly when the whole acknowledgement is no longer than max_resp |
| GetEvent.AbortedIff | bacnet/handler/h_getevent.c:148-154 | the answer is an abort exactly when max_resp is below 128 and the rest of the list is too long for it |
| GetEvent.ScanWrites | bacnet/handler/h_getevent.c:139-160 | the scan goes past the end of the buffer exactly when the page does, or a summary tried behind it |
| GetEvent.LargeBufferSuffices | bacnet/handler/h_getevent.c:139-160 | a buffer for max_resp octets and one more summary is never overrun |
| GetEvent.WholePageFits | bacnet/handler/h_getevent.c:139-176 | when one page takes all events the buffer is overrun exactly if the response is longer |
| GetEvent.NineEventsOverrun | bacnet/handler/h_getevent.c:139-160 | nine events of 61 octets overrun 506 octets for a client that accepts 1476 |
| GetEvent.PageIsUnique | bacnet/handler/h_getevent.c:148-160 | only one prefix is the longest that fits |
| GetEvent.NextPage | bacnet/handler/h_getevent.c:127-137 | a page that announces more is not empty, and the next request resumes right behind it |
| GetEvent.DialogueDelivers | bacnet/handler/h_getevent.c:112-173 | from any marker on, repeated requests end, deliver a prefix of what follows, and deliver all of it exactly when it fits one page, or max_resp is at least 128 and each event fits a page |
| GetEvent.PagingIsComplete | bacnet/handler/h_getevent.c:112-173 | exactly then all pages together are the event list, in order, each event once, with more_events false only on the last |
| GetEvent.ShortResponseAborts | bacnet/handler/h_getevent.c:148-154 | two events of 31 octets and max_resp 50: the whole dialogue is one abort |
| GetEvent.EmptyPageIff | bacnet/handler/h_getevent.c:127-137 | an empty last page is the answer exactly when the marker is the last event or no longer active |
| Rpm.ParseValues | bacnet/handler/h_rpm_a.c:107-152 | the value list is the only thing added to the heap; it is what the octets say if there is room for all its nodes, and else the room is used up |
| Rpm.ParseError | bacnet/handler/h_rpm_a.c:153-186 | error class and code are stored, and nothing else |
| Rpm.ParseProperties | bacnet/handler/h_rpm_a.c:87-190 | likewise for the lists of properties and values; the last, empty node is taken off the list again when no property follows |
| Rpm.Parse | bacnet/handler/h_rpm_a.c:56-207 | at every return the nodes left are exactly those of one list of lists from the caller's node, each once, and that node is freed iff the first object identifier does not decode; with room for the nodes it takes, lists and length are what the octets say, and else the room is used up |
| Rpm.PeakIffEnds | bacnet/handler/h_rpm_a.c:56-207 | some amount of memory is enough exactly when the octets do not keep the parser allocating |
| Rpm.EndlessIffStuck | bacnet/handler/h_rpm_a.c:107-152 | the octets never let the values end exactly when values that delimit themselves lead to one of no octets without the closing tag behind it |
| Rpm.NeverEnoughIffStuck | bacnet/handler/h_rpm_a.c:107-152 | exactly then no amount of memory is enough |
| RpmHandler.FreeValues | bacnet/handler/h_rpm_a.c:334-339 | the loop ends, and frees each node of the list once and no other |
| RpmHandler.FreeProperties | bacnet/handler/h_rpm_a.c:333-343 | likewise for the properties of an object with their values |
| RpmHandler.FreeObjects | bacnet/handler/h_rpm_a.c:330-347 | likewise for the objects with all their lists |
| RpmHandler.Handle | bacnet/handler/h_rpm_a.c:303-370 | for all octets and any amount of memory every allocated node is freed once and the heap is left as found; exactly when the first object identifier does not decode the parser has done that, and the freeing loop starts at a node no longer in the heap |
| RpmAck.ObjectsRead | bacnet/handler/h_rpm_a.c:75-206 | over any decoders that read the parts right, parsing what was printed gives it back |
| RpmAck.AckReadsBack | bacnet/handler/h_rpm_a.c:56-207 | with the decoders of the stack, the octets of a printed list of objects, properties, values and errors say that same structure to their end |
| RpmAck.AckPeak | bacnet/handler/h_rpm_a.c:56-207 | reading it takes as many nodes as it has |
| RpmAck.ParsePrinted | bacnet/handler/h_rpm_a.c:56-207 | with room for those nodes the parser builds exactly that structure in the heap and takes all octets; with less it uses up the room |
| RpmAck.StuckInStack | bacnet/src/bacapp.c:724-764 | where the contents of values take octets, the parser gets stuck exactly at a closing tag 0 to 14 other than 4 |
| RpmAck.StrayClosingTag | bacnet/handler/h_rpm_a.c:107-152 | the octet 0x1F as a value never ends |
| RpmAck.ValueDelimits | bacnet/src/bacapp.c:171-328 | every value under an application tag that the stack takes, listed by tag and length, delimits itself |
| RpmAck.OnlyEncodable | bacnet/src/bacapp.c:171-328 | whatever the octets, nothing but such a value is decoded |
| RpmAck.StandardReadsBack | bacnet/handler/h_rpm_a.c:56-207 | an acknowledgement of any values of clause 20.2, listed by tag and length, and errors reads back as its structure |
| RpmAck.ExampleReads | bacnet/handler/h_rpm_a.c:56-207 | the real present value of an analog input octet by octet |
| RpmAck.FaultInOctets | bacnet/src/rpm.c:459-505 | a property with array index and an error octet by octet |
| RpmAck.ObjectIdReads | bacnet/src/rpm.c:418-442 | a printed object identifier and opening tag are read as six octets |
| RpmAck.IdentifierFails | bacnet/src/rpm.c:418-442 | which octets are no object identifier; a single 0 is none |
| RpmAck.StackReadsIdentifier | bacnet/src/rpm.c:459-505 | a printed property identifier with or without array index is read back, whatever answer follows |
| Wpm.WriteProperties | bacnet/handler/h_wpm.c:105-144 | the inner loop ends, and writes and answers as the recursive function over the octets says |
| Wpm.WriteObject | bacnet/handler/h_wpm.c:95-156 | one turn of the outer loop does so too |
| Wpm.WriteObjects | bacnet/handler/h_wpm.c:93-157 | the outer loop ends, and does so too |
| Wpm.Handle | bacnet/handler/h_wpm.c:82-200 | a segmented request is acknowledged with nothing written; any other is written and answered by the loops |
| WpmRequest.RequestIsWritten | bacnet/handler/h_wpm.c:91-200 | a well-formed request whose values pass the measurement writes its flattened property list up to and including the first refusal, and is acknowledged exactly when none is refused |
| WpmRequest.Defaults | bacnet/src/wpm.c:112-114 | without index 0xFFFFFFFF and without priority 16 is written |
| WpmRequest.ExampleIsWritten | bacnet/handler/h_wpm.c:91-200 | a request of one real value, octet by octet, is written with these defaults and answered as the device decides |
| WpmRequest.PropertyInOctets | bacnet/src/wpm.c:100-177 | a property with array index and priority octet by octet |
| WpmRequest.ReplySays | bacnet/handler/h_wpm.c:122-200 | for any octets, a write error is the reply exactly when the last write was refused, and no earlier one was |
| WpmRequest.UndecodableRejected | bacnet/handler/h_wpm.c:95-156 | too few octets, or another tag than context 0 in front, are rejected and nothing is written |
| WpmRequest.UndecodableProperty | bacnet/handler/h_wpm.c:105-144 | a property that does not decode is rejected, and what was written before it stays |
| WpmRequest.WrittenIffPassing | bacnet/handler/h_wpm.c:91-157 | for any device, a well-formed request is written as asked, up to and including the first refusal, if and only if the values of those writes pass |
| WpmRequest.WrittenIffAllPass | bacnet/handler/h_wpm.c:91-157 | in particular by a device that refuses nothing if and only if all values pass |
| WpmRequest.RefusalStopsRequest | bacnet/handler/h_wpm.c:122-126 | whatever the octets, the device decides only where the writing stops |
| WpmRequest.RequestIsCarried | bacnet/handler/h_wpm.c:91-157 | the same from any position in the request and with any writes already made |
| WpmRequest.CarriedIsPrefix | bacnet/handler/h_wpm.c:122-126 | what is carried out is a prefix that ends at the first refusal |
| WpmRequest.PropertyReadsIff | bacnet/src/wpm.c:100-177 | a property decodes to the write it asks for, with default index and priority, and takes exactly its octets, if and only if its value passes |
| WpmRequest.MeasuredIffPasses | bacnet/src/bacapp.c:915-976 | whatever follows the closing tag, a value is measured right exactly when it passes, a test on the value alone |
| WpmRequest.TokensPassIff | bacnet/src/bacapp.c:915-976 | any list of tags passes exactly when the brackets with the value's own number match in eight bits |
| WpmRequest.ConstructedPasses | bacnet/src/bacapp.c:766-976 | properly nested tags pass, with the value's own brackets at most 254 deep: any octets under application tags 2 to 12 and under context tags, but for tags 7 and 8 of property 2 and tag 2 of property 152, which may hold one octet 0 or 1 |
| WpmRequest.ReferencePasses | bacnet/src/bacapp.c:636-651 | a property reference written to property 132, octet by octet, passes |
| WpmRequest.MeasuredWrong | bacnet/src/bacapp.c:766-800 | array index 47 in property 152, and the octet 0x2F under tag 7 of property 2, are measured as one octet |
| WpmRequest.WireObjectAhead | bacnet/src/wpm.c:52-97 | a printed object identifier is read in five octets with its list opened behind it |
| PrivateTransfer.EncodeRequest | bacnet/handler/s_ptransfer.c:98-112 | the block number and, for a write, the four fields of the block |
| PrivateTransfer.ExampleBlock | bacnet/handler/s_ptransfer.c:98-112 | one block octet by octet |
| PrivateTransfer.Server.WriteBlock | bacnet/handler/h_pt.c:127-179 | fields are stored one by one up to the first that does not decode, in this block only |
| PrivateTransfer.StoredByIndex | bacnet/handler/h_pt.c:165-179 | of a written text the characters up to the first NUL are stored, at most 32, and NULs behind them |
| PrivateTransfer.Server.ProcessPT | bacnet/handler/h_pt.c:55-189 | table and reply after a request |
| PrivateTransfer.RepliesInOctets | bacnet/handler/h_pt.c:80-189 | the replies to a bad index, a write and a read octet by octet |
| PrivateTransfer.WriteStores | bacnet/handler/h_pt.c:119-182 | a write request changes exactly its block, to the written contents, and is acknowledged |
| PrivateTransfer.ReadFetches | bacnet/handler/h_pt_a.c:116-165 | a read changes nothing, and its reply decodes to the stored block |
| PrivateTransfer.SendThenFetch | bacnet/handler/h_pt.c:66-188 | a block encoded by the client, written by the server, asked for and decoded again is the same block, text cut to 32 characters, and no other block changes |
| PrivateTransfer.WriteThenRead | bacnet/handler/h_pt.c:66-188 | in particular any bytes, real pattern and text of up to 32 non-NUL characters come back unchanged |
| PrivateTransfer.BadIndexRefused | bacnet/handler/h_pt.c:80-186 | a block number out of range changes nothing and is reported for both services, except that 128 to 255 reach in front of the table where `char` has a sign |
| Router.EncodeDnets | bacnet/handler/s_router.c:145-155 | the loop writes the networks before the terminator |
| Router.DecodeDnets | bacnet/handler/h_routed_npdu.c:114-122 | the loop reads pairs of octets, and offset plus rest stays the length |
| Router.DnetRoundTrip | bacnet/handler/h_routed_npdu.c:114-122 | any list of network numbers is read back as written, an odd last octet ignored |
| Router.DnetsByIndex | bacnet/handler/s_router.c:145-155 | network i stands in octets 2i and 2i + 1, the high one first |
| Router.EncodeRoutingTable | bacnet/handler/s_router.c:167-196 | one count octet and four octets for each network |
| Router.PortsByIndex | bacnet/handler/s_router.c:167-196 | the four octets of each port by index |
| Router.RoutingTableRoundTrip | bacnet/handler/s_router.c:167-196 | the table reads back with ports 1 to n exactly when there are at most 255 networks |
| MsTimer.MillisIsElapsed | bacnet/linux/timer.c:40-53 | the tick count is true elapsed time, or one more exactly when a negative difference is rounded |
| MsTimer.MillisIsMonotone | bacnet/linux/timer.c:48-50 | the tick count before truncation never runs backwards |
| MsTimer.ReportIsAccurate | bacnet/linux/timer.c:60-75 | a timer shows elapsed time modulo 2^32, at most one millisecond less or two more |
| MsTimer.Timers.Milliseconds | bacnet/linux/timer.c:60-75 | both branches are the difference modulo 2^32 |
| MsTimer.Timers.ElapsedMilliseconds | bacnet/linux/timer.c:82-87 | compares that difference |
| MsTimer.Timers.Reset | bacnet/linux/timer.c:118-129 | returns what the timer showed at the first clock reading and counts on from the second, for this timer only |
| MsTimer.ResetLosesGap | bacnet/linux/timer.c:118-129 | two reports around a reset make up the whole time exactly when no tick passes between its two readings |
| Tags.TagRoundTrip | bacnet/src/bacdcode.c:212-256 | every tag is read back with number, class, value and length, in short and extended forms |
| Tags.TagInOctets | bacnet/src/bacdcode.c:212-256 | the octets of tags up to number 14 in numbers |
| Tags.ExtendedTagInOctets | bacnet/src/bacdcode.c:212-256 | the octets of tags above number 14 in numbers |
| Tags.IntegersInOctets | bacnet/src/bacint.c:38-130 | integers are written to base 256, the highest digit first, and no longer than needed |
| Tags.ObjectIdInNumbers | bacnet/src/bacdcode.c:761-784 | ten bits of type above 22 bits of instance |
| Tags.UnsignedRoundTrip | bacnet/src/bacdcode.c:1157-1176 | every 32-bit unsigned value is read back from its shortest form |
| Tags.ObjectIdRoundTrip | bacnet/src/bacdcode.c:761-784 | object type and instance are read back |
| Tags.PrimitiveRoundTrip | bacnet/src/bacdcode.c:368-411 | a tagged value is read back and delimits itself |
| Tokens.ScanInvertsPrint | bacnet/src/bacdcode.c:212-304 | any list of tags is read back from its octets |

## Left out

- The environment: COV flags of the objects, the TSM, the datalink and DCC enter the subscription model as events and as the `Link` that answers one task call. That a transaction is available and that the TSM hands out a non-zero ID are one condition there; module `Tsm` proves them equal.
- `CovModel.World`: the TSM retry timer and the copied messages are not modelled, only whether a transaction waits or has lapsed.
- Decoding of SubscribeCOV requests and the checks that the object exists and supports COV (`bacnet/handler/h_cov.c:746-775`): they come before the modelled code and keep no state.
- NPDU headers, address look-up, sending and printing in all handlers.
- CovEncoding.EncodeSubscriptions: the octets are a growing sequence, so the writes that the source makes before it notices that the buffer is too small are not modelled.
- CovEncoding.PropertyReadsBack: needs address lengths of at most 7 and identifiers that fit their 10 and 22 bits, as the request decoder delivers them.
- GetEvent.Handle: summaries are opaque octets, so the branches for a failing encoder, a segmented or an undecodable request are not modelled; what happens once the buffer is overrun is not either.
- GetEvent.PagingIsComplete: the list of active events does not change during the dialogue, as the property is meant.
- RpmHandler.Handle: what the freeing loop does once it has read a node that is free.
- Rpm.Parse: no decoder takes more octets than there are; octets read beyond the end of the message are not modelled.
- RpmAck.AckReadsBack: how the contents of context-tagged values decode is a parameter, required only to delimit itself; the contents of values are octets, not numbers.
- Wpm.Handle: octets read beyond the end of the request, and a value that cannot be measured (length -1 in the source), count as malformed.
- WpmRequest.RequestIsWritten: for values that do not pass, the writes that are made instead are those of `Wpm.Handle`, and only that they are not the ones asked for is proved.
- PrivateTransfer.Server.ProcessPT: what an access in front of the table reads or writes. Character strings of length 0 or above 474, which the decoder leaves undefined, count as undecodable.
- Router: the who-is-router and reject payloads, which have no loop.
- MsTimer: the comparisons in seconds and minutes, which divide the same difference.
- MS/TP, CRC, date and time codecs, the object database and the remaining handlers and senders, which would add only easy members.
