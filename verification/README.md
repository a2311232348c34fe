# A verified model of the simulated Ethernet switch and the ThreadX glue

The model has two parts.

**The switch** (`nx_nvnet_network_driver.c`). A fixed table of driver instances takes commands from NetX; a send builds an
Ethernet header in front of the packet, copies the frame to every other live instance that accepts it, and each copy is
parsed again and handed to the IP, ARP or RARP queue.

- `Words.dfy`, `Frame.dfy`: words in memory on either kind of host, the header (section 3.2 of IEEE 802.3), its writer and
  its two readers. RARP is 0x8035 as at line 54 of the source; the comment at line 48 says 0x0835.
- `Netx.dfy`: packets (a byte array with a prepend offset and a length), interface blocks, and the NetX services the
  driver calls. `held` is the set of packets the driver owns; hand-off and release ask for membership and end it, so no
  packet is given away twice. Everything handed off or released is recorded in `log`, in order, and each entry has a
  custody in `left`: the packet, with its offset, length, interface and whole buffer as they were. That nothing is changed
  after it was given away is `Settled`: every custody's packet is still as recorded, is not held, and shares its buffer
  with no other. It is proved of what a request, and a run of requests, gives away. A copy either fails without effect or
  yields a fresh packet with the same bytes; which of the two is left open.
- `Table.dfy`: the instance table and what each command does to it. `Effects.dfy`: the same once more, field by field and in
  the source's own numbers, as a check on the definitions. `Fanout.dfy`: the abstract network, that is, who
  receives how many copies. `Driver.dfy`: the driver, command by command and loop by loop, proved against both.
- `History.dfy`, `Trace.dfy`, `Reply.dfy`: whole runs of commands, what they leave in the table, what they send, and
  whether an answer finds its way back.

**The glue** (`threadx_glue/glue.c`).

- `EventFlags.dfy`: a mask under a critical section and a get that polls it, among any number of threads.
- `Semaphore.dfy`: a kernel object and a shadow count updated one step later, among any number of threads.
- `ThreadList.dfy`: the intrusive circular list of threads on the heap.

The numbers of instances and of multicast addresses per instance (4 and 3 in the source) are arbitrary in the model. The
configuration is the one the Makefile builds: no VLAN, IPv4 enabled, deferred receive.

Where the code does not do what one would expect, the model follows the code and says exactly when it does:

- A send whose instance is not found returns without releasing the packet. The packet is released if and only if some
  live instance is attached for the IP and the interface (`Driver.Driver.Handle`); in a run from program start, if and
  only if the requests and statuses before it attached the pair more often than they detached or uninitialized it
  (`Driver.Driver.Process`). `Driver.Driver.SendOnBlank` is a send whose packet stays with the driver.
- The link status reported is that of interface 0 of the IP instance. It is the status of the interface asked about if
  and only if that is interface 0 (`Table.StatusIsOfFirstInterface`).
- The second search behind setting a physical address ignores the IP. It agrees with the first search if and only if no
  earlier live instance has the interface under another IP (`Table.SecondSearchAgrees`, and a run where it does not in
  `Table.SecondSearchCanHitAnother`).
- Attach followed by detach restores the table if and only if attach took a place before every instance of the same pair
  (`Table.DetachUndoesAttach`, and a run where it does not in `Table.DetachCanTakeAnother`).
- Deliveries to an instance are what was outstanding there when its (IP, interface) pair was last attached, detached or
  uninitialized, and, if the pair's requests reach the instance, the joins and leaves seen for the pair since. So that
  count is right about an instance that is reached if and only if nothing was outstanding there then
  (`History.DeliverySinceReset`, `Trace.LogSinceReset`); it is if the pair is attached only once (`Trace.LogIsLedger`), and
  it can be wrong otherwise (`History.SecondAttachMisleads`).
- An answer to the source address of an earlier frame reaches the attachment that sent it, once, and nobody else, if and
  only if its pair has not been detached or uninitialized since and no third instance has joined the address by then
  (`Reply.ReplyReachesSenderIff`, and a run where another interface gets the answer in `Reply.AnswerCanGoAstray`).
- A thread is identified as itself if and only if no thread created before it and still listed has its identifier
  (`ThreadList.Threads.PerformAndIdentify`).
- The shadow count of an idle semaphore equals the kernel count if and only if as many puts as gets have failed, modulo
  2^32 (`Semaphore.QuiescentAgreement`, in terms of steps `Semaphore.AgreementInSteps`, and `Semaphore.FailedGetWraps`).
- Without waiting, an event-flag get reports "no events" even when it was satisfied and has consumed the flags, as long as
  ticks do not run backwards (`EventFlags.NoWaitPollsOnce`).

## Model

| member | source | states |
|---|---|---|
| Words.WriteWords | nx_nvnet_network_driver.c:413-424 | four host-order stores followed by four byte swaps leave the four words most significant byte first, on a host of either byte order, and touch nothing else |
| Words.BigEndianValue | nx_nvnet_network_driver.c:420-424 | a word in wire order is its four bytes, most significant first |
| Words.IndexWordInjective | nx_nvnet_network_driver.c:251 | adding distinct 32-bit indices to the base address gives distinct words |
| Words.IndexWordCounts | nx_nvnet_network_driver.c:251 | the word of an index is its value: 0 for 0, and one more for the next |
| Frame.HeaderRoundTrip | nx_nvnet_network_driver.c:403-424 | for all 32-bit inputs the destination reader recovers msw mod 2^16 and the full lsw, bytes 6 to 11 hold the source, the type reader recovers the type, and stripping leaves the payload |
| Frame.HighHalfStaysOutside | nx_nvnet_network_driver.c:408-415 | the high half of the destination's msw lands in the two bytes before the frame and nowhere else |
| Frame.HeaderLayout | nx_nvnet_network_driver.c:403-424 | byte by byte the header is the low 48 bits of the destination, those of the source, and the type |
| Frame.TruncateMeans | nx_nvnet_network_driver.c:413 | of the destination's msw the header has the low 16 bits |
| Netx.Services.Copy | nx_nvnet_network_driver.c:797-798 | a copy fails without effect or yields a fresh packet with the same bytes that the driver owns |
| Netx.SettledInFull | nx_nvnet_network_driver.c:804-821 | field by field, a packet that has settled is not owned, is as recorded, and shares neither itself nor its buffer with another |
| Netx.Services.EventsAreOfPackets | nx_nvnet_network_driver.c:938-1012 | every logged event has the bytes and the interface its packet had when it was given away |
| Table.SimulatedMacInjective | nx_nvnet_network_driver.c:250-251 | instances are given distinct addresses |
| Table.Lookup | nx_nvnet_network_driver.c:192-217 | the first live instance attached for the IP and the interface, or none |
| Table.ApplyKeepsSound | nx_nvnet_network_driver.c:222-660 | every command keeps free entries entirely zero, and live entries with their own index as id and a non-null interface |
| Table.OneSlotChanges | nx_nvnet_network_driver.c:222-660 | every command leaves all entries but one alone, and which one that is |
| Table.SecondSearchSucceeds | nx_nvnet_network_driver.c:604-630 | after the first search has succeeded, the second one finds a live instance of the interface, so its error branch is dead |
| Table.SecondSearchAgrees | nx_nvnet_network_driver.c:604-630 | it finds the same instance if and only if no earlier live one has the interface under another IP |
| Table.SecondSearchCanHitAnother | nx_nvnet_network_driver.c:604-630 | with one interface attached under two IPs, setting the second IP's address changes the first one's instance |
| Table.AttachSucceedsIff | nx_nvnet_network_driver.c:225-259 | attach succeeds if and only if some entry is free |
| Table.DetachUndoesAttach | nx_nvnet_network_driver.c:225-308 | detach or uninitialize restores the table exactly if and only if attach took a place before every instance of the same pair |
| Table.DetachCanTakeAnother | nx_nvnet_network_driver.c:225-268 | a pair attached twice and detached once is left with the other entry than before the second attach |
| Table.StatusIsOfFirstInterface | nx_nvnet_network_driver.c:517-523 | enabling an interface makes the link read up, and disabling it down, if and only if it is interface 0 of its IP instance |
| Effects.BlankIsZero | nx_nvnet_network_driver.c:102-105 | the table at program start is zero in every field |
| Effects.SimulatedIsBasePlusIndex | nx_nvnet_network_driver.c:61-62 | the address given to an instance is 00:11:22:33:44:56 plus its index |
| Effects.AttachEffect | nx_nvnet_network_driver.c:225-259 | attach fills exactly the first free entry, field by field, or is refused |
| Effects.RefusedEffect | nx_nvnet_network_driver.c:192-217 | any other command on a pair without a live instance changes nothing and reports an invalid interface |
| Effects.DetachEffect | nx_nvnet_network_driver.c:261-308 | detach and uninitialize zero every field of the found entry and touch no other |
| Effects.InitializeEffect | nx_nvnet_network_driver.c:270-299 | initialize gives the block at the interface's index MTU 1500, the instance's address and mapping, and no other block changes; none does if the index is outside the list |
| Effects.LinkEffect | nx_nvnet_network_driver.c:310-343 | enable and disable set the interface's link flag and nothing else |
| Effects.JoinEffect | nx_nvnet_network_driver.c:450-484 | join overwrites exactly the first zero entry; "no more entries" exactly if there is none |
| Effects.LeaveEffect | nx_nvnet_network_driver.c:486-515 | leave zeroes exactly the first entry with the address; "entry not found" exactly if there is none |
| Effects.SetAddressEffect | nx_nvnet_network_driver.c:604-630 | the first entry with the interface gets the address and nothing else changes |
| Effects.OtherEffect | nx_nvnet_network_driver.c:345-661 | sends, queries and deferred processing leave the table alone, queries are answered with interface 0's link flag, "unknown" or zero, and anything else is unhandled |
| Fanout.RecipientsExact | nx_nvnet_network_driver.c:770-850 | every entry receives exactly as many copies as its filter calls for: none for the sender and free entries, one if accepted outright, otherwise one per matching multicast entry |
| Fanout.AcceptsInNumbers | nx_nvnet_network_driver.c:790-794 | accepted outright are FFFF:FFFFFFFF, anything with upper half 3333, zero, and the instance's own address |
| Fanout.RecipientsOrdered | nx_nvnet_network_driver.c:770-850 | copies go out in table order |
| Fanout.RecipientsGrow | nx_nvnet_network_driver.c:770-850 | what has been delivered at any stage is a prefix of what the whole loop delivers |
| Fanout.StoppedInside | nx_nvnet_network_driver.c:798-843 | stopping at a failed copy stops at a proper prefix of the failure-free delivery |
| Fanout.DispatchAgrees | nx_nvnet_network_driver.c:366-385 | the receiver routes each type the sender writes to the queue the command is meant for, and discards none |
| Fanout.TypeInHeader | nx_nvnet_network_driver.c:366-385 | bytes 12 and 13 are 08 06 for the ARP commands, 80 35 for RARP, and otherwise 08 00 for version 4 and 86 DD for any other |
| Fanout.ReceivedInBytes | nx_nvnet_network_driver.c:938-1012 | what a receiver makes of a frame, by those two bytes: the queue, the stripped bytes or the whole frame, and the receiving interface |
| Fanout.FramesCarryPayload | nx_nvnet_network_driver.c:938-1012 | what the receivers make of a driver-built frame is the sender's payload, with the receiving interface, in the command's queue |
| Driver.Driver.Receive | nx_nvnet_network_driver.c:929-1014 | a frame is routed by its type with its header stripped, or discarded whole, and the packet given up as it is then |
| Driver.Driver.Forward | nx_nvnet_network_driver.c:797-820 | a copy is received by the instance, in a packet and a buffer of its own that are not changed again, or there is no copy |
| Driver.Driver.ForwardToGroups | nx_nvnet_network_driver.c:824-848 | one copy for each matching multicast entry, until a copy fails |
| Driver.Driver.FanOut | nx_nvnet_network_driver.c:770-850 | for any pattern of copy failures the deliveries are the prefix of the failure-free sequence given by the successful copies before the first failure |
| Driver.Driver.Output | nx_nvnet_network_driver.c:713-872 | those deliveries, and then on every path the original is released with its header off; the driver owns none of the packets any more and changes none of the copies again |
| Driver.Driver.BuildHeader | nx_nvnet_network_driver.c:402-424 | only the sixteen bytes before the payload are written |
| Driver.Driver.BuildFrame | nx_nvnet_network_driver.c:362-424 | the packet becomes a frame whose destination the fan-out reads back, truncated, whose bytes 12 and 13 are the type for the command and the version, and whose payload is what the packet carried |
| Driver.Driver.Send | nx_nvnet_network_driver.c:345-438 | the abstract network's deliveries of the payload, then the release of the packet with the offset, length and bytes it came with |
| Driver.Driver.FindInstance | nx_nvnet_network_driver.c:194-210 | the search loop computes the lookup |
| Driver.Driver.AttachInstance | nx_nvnet_network_driver.c:228-256 | the first free entry becomes live with its index as id and its simulated address |
| Driver.Driver.Join | nx_nvnet_network_driver.c:467-480 | the address replaces the first zero entry, or there are no more entries |
| Driver.Driver.Leave | nx_nvnet_network_driver.c:499-512 | the first matching entry becomes zero, or there is none |
| Driver.Driver.ConfigureNic | nx_nvnet_network_driver.c:280-296 | initialize gives the selected interface block the IP MTU, the instance's address and mapping |
| Driver.Driver.SetAddress | nx_nvnet_network_driver.c:607-627 | the first entry with the interface gets the address |
| Driver.Driver.Handle | nx_nvnet_network_driver.c:159-661 | the new table, interface blocks, status and answer of any request; a send delivers and releases as above if and only if a live instance is attached for its IP and interface, the sent buffer has the type bytes of the command and the version before the payload, any other request leaves the packet alone, and nothing given away is changed again |
| Driver.Driver.SendOnBlank | nx_nvnet_network_driver.c:192-217 | a send on a table without instances is refused and its packet not released |
| Driver.Driver.Process | nx_nvnet_network_driver.c:159-872 | after any sequence of requests, each send with a packet the driver owns, possibly one refused before, the driver's state and statuses are those of the abstract run, the log and the copies have grown by exactly the run's events and attempts, the packets given up are those with an accepted send, that is, one whose pair was attached by then, and nothing given away has been changed since |
| Driver.SpentMeans | nx_nvnet_network_driver.c:192-217 | a packet is given up if and only if some send of it succeeded |
| History.RunKeepsSound | nx_nvnet_network_driver.c:222-660 | the table is sound after any run |
| History.DetachedPairIsRefused | nx_nvnet_network_driver.c:192-308 | attach and detach of an unattached pair restore the table, and until the pair is attached anew every other command on it is refused as an invalid interface, whatever runs in between |
| History.GroupsAreHistory | nx_nvnet_network_driver.c:467-512 | after any run a nonzero address is in an entry's multicast table as often as successful joins less successful leaves since attach |
| History.DeliveryIsHistory | nx_nvnet_network_driver.c:790-848 | an address that is not accepted outright reaches a live entry as often as that history says |
| History.BalanceIsLive | nx_nvnet_network_driver.c:225-308 | after any run there are as many live instances of a pair as successful attaches of it less successful detaches and uninitializes |
| History.FoundIffAttached | nx_nvnet_network_driver.c:192-217 | a request finds an instance if and only if that difference is positive |
| History.LedgerSinceReset | nx_nvnet_network_driver.c:192-217 | the joins outstanding at an instance are those outstanding when its pair was last attached, detached or uninitialized, and, if the pair's requests reach it, the successful joins less leaves seen for the pair since |
| History.LedgerIsNetJoinsIff | nx_nvnet_network_driver.c:192-217 | for an instance its pair's requests reach, the count of joins and leaves kept from requests and statuses alone agrees with the table if and only if nothing was outstanding there at that time |
| History.LedgerIsNetJoins | nx_nvnet_network_driver.c:192-217 | so it does if the pair was not attached again while attached |
| History.SecondAttachMisleads | nx_nvnet_network_driver.c:192-259 | a run in which the pair is attached again and that count is wrong |
| History.DeliverySinceReset | nx_nvnet_network_driver.c:770-850 | the same of deliveries: what was outstanding then, and what an outsider has seen since; the outsider is right about an instance that is reached if and only if nothing was outstanding |
| History.DeliveryIsLedger | nx_nvnet_network_driver.c:770-850 | delivery agrees with the history an outsider keeps for a pair that was not attached again while attached |
| Trace.EventsInOrder | nx_nvnet_network_driver.c:159-872 | the events of a run are those of its requests one after the other, the `i`-th request's at a known place |
| Trace.LogIsShare | nx_nvnet_network_driver.c:770-850 | whatever copies fail, an accepted send in a run delivers to each entry at most what the filters call for in the state it meets, and exactly that if no copy of the run fails |
| Trace.LogIsHistory | nx_nvnet_network_driver.c:467-512 | if no copy of a run from program start fails, an accepted send delivers to an instance that does not accept it outright as often as the destination was joined and not left there before |
| Trace.LogInNumbers | nx_nvnet_network_driver.c:770-850 | from program start, if no copy fails, an accepted send delivers nothing to the sender and free entries, exactly one packet to every other instance whose test the destination passes outright, by number, and otherwise one for each outstanding join |
| Trace.SentInFull | nx_nvnet_network_driver.c:345-438 | the events of a send in full: entry, IP, interface, queue and payload of each delivery, and the release last; other commands log nothing |
| Trace.LogSinceReset | nx_nvnet_network_driver.c:770-850 | the deliveries an accepted send of a run logs, in an outsider's terms, and exactly when the outsider is right |
| Trace.LogIsLedger | nx_nvnet_network_driver.c:770-850 | the outsider is right if the pair was not attached again while attached |
| Trace.AcceptedIffAttached | nx_nvnet_network_driver.c:192-217 | in a run from program start a send succeeds if and only if its pair was attached more often than detached or uninitialized before |
| Trace.BlankRefuses | nx_nvnet_network_driver.c:192-217 | on a table without instances a send is refused |
| Trace.AttachedPoolsExist | nx_nvnet_network_driver.c:225-248 | if every attach names an existing IP instance, the pools the fan-out takes its copies from always exist |
| Reply.SourceNamesSender | nx_nvnet_network_driver.c:416-418 | the source address in a frame of an initialized instance is that instance's own |
| Reply.AttachmentLasts | nx_nvnet_network_driver.c:261-308 | an entry belongs to the same attachment until a request detaches or uninitializes its pair, and not after |
| Reply.ReplyReachesSenderIff | nx_nvnet_network_driver.c:770-850 | over runs that set no address and attach distinct interfaces, a later frame to the source address of an earlier one reaches the attachment that sent it exactly once and no other instance if and only if its pair was not detached or uninitialized in between and no third instance has joined that address by then |
| Reply.ReplyReachesSender | nx_nvnet_network_driver.c:770-850 | so it does if nobody joined that address and the pair was not detached since |
| Reply.AnswerCanGoAstray | nx_nvnet_network_driver.c:225-268 | attach, initialize, detach, attach another interface: an answer to a frame sent after the second step reaches the other interface's instance |
| Reply.InitializedIsConfigured | nx_nvnet_network_driver.c:287-293 | an instance initialized since it was attached has its own address in its interface block |
| EventFlags.MetMeaning | threadx_glue/glue.c:66-73 | a poll is satisfied by all requested flags if bit 1 of its option is set, by some otherwise, and never if it requests none |
| EventFlags.PollLeaves | threadx_glue/glue.c:73-80 | a satisfied poll with bit 0 of its option set leaves the mask without the requested flags, any other poll leaves it as it was |
| EventFlags.SetLeaves | threadx_glue/glue.c:92-106 | on bits, an OR-set raises exactly the flags it names, an AND-set lowers exactly the others, and any other option changes nothing |
| EventFlags.AllOrNothing | threadx_glue/glue.c:68-80 | a clearing AND takes all requested flags or none |
| EventFlags.OthersUntouched | threadx_glue/glue.c:73-80 | no poll touches a flag it did not request |
| EventFlags.EachConsumptionHasItsOwnSet | threadx_glue/glue.c:59-106 | in every interleaving each satisfied poll with a clear option that asks for a flag and sees it follows an OR-set of that flag that no earlier one has used |
| EventFlags.LedgerNeverOverdrawn | threadx_glue/glue.c:59-106 | at every moment such polls, plus one while the flag is up, number at most its OR-sets |
| EventFlags.ShownAgainOnlyIfSetAgain | threadx_glue/glue.c:59-106 | between a satisfied poll with bit 0 of its option set that is shown a flag it asks for, and a later poll that is shown it too, an OR-set has raised it |
| EventFlags.PollingRefinesBlocking | threadx_glue/glue.c:58-87 | every interleaving of polling threads is, without its failed polls, a run of a blocking machine with the same sets and the same mask |
| EventFlags.EndIsUnique | threadx_glue/glue.c:58-87 | how a get ends is determined by what the other threads do and the ticks read |
| EventFlags.EndIsRun | threadx_glue/glue.c:58-106 | a get among other threads is an interleaving of polls and sets and leaves the mask that interleaving leaves |
| EventFlags.Group.Get | threadx_glue/glue.c:48-90 | the get ends at the first poll that satisfies it, unless a tick reading reached the timeout before; it reports the mask before clearing and leaves that mask less the requested flags if it clears |
| EventFlags.SatisfiedGet | threadx_glue/glue.c:66-87 | in options and bits, when a get is satisfied and that it leaves the mask it reports, without the requested flags exactly if bit 0 of its option is set |
| EventFlags.GetInTicks | threadx_glue/glue.c:55-89 | when a get gives up, until when it polls on, and its status, in tick counts |
| EventFlags.Group.SetFlags | threadx_glue/glue.c:92-106 | an OR-set adds flags, an AND-set keeps the named ones, any other option does nothing |
| EventFlags.ForeverMeansMet | threadx_glue/glue.c:55-89 | waiting forever, with ticks below 0xFFFFFFFF, a get returns only satisfied and with success, and does return once some poll is satisfied |
| EventFlags.NoWaitPollsOnce | threadx_glue/glue.c:56-89 | without waiting there is one poll, with this effect on the mask, and the status is "no events" even if it was satisfied |
| EventFlags.OnlyTakersRemove | threadx_glue/glue.c:73-103 | only an AND-set or a satisfied clearing get takes a flag away |
| EventFlags.StaysMet | threadx_glue/glue.c:59-106 | a satisfied request stays satisfied until one of its flags is taken |
| EventFlags.NoLostWakeUp | threadx_glue/glue.c:59-106 | if the request is satisfied at some moment between two polls and none of its flags is taken in the rest of that time, the get has returned by the second of them |
| Semaphore.DriftStep | threadx_glue/glue.c:170-199 | each kernel call and each count update keeps the drift law |
| Semaphore.DriftLaw | threadx_glue/glue.c:154-199 | in every interleaving the kernel count stays in 0..4096, and mod 2^32 the shadow is the kernel count plus gets not yet decremented, less puts not yet incremented, plus failed puts, less failed gets |
| Semaphore.CreatedDrift | threadx_glue/glue.c:154-161 | it holds of a new semaphore, also when the kernel refused the initial count |
| Semaphore.QuiescentAgreement | threadx_glue/glue.c:170-199 | with no call in flight the counts agree if and only if as many puts as gets have failed, mod 2^32 |
| Semaphore.FailedGetWraps | threadx_glue/glue.c:176-187 | one timed-out get on an empty semaphore leaves the shadow count at 0xFFFFFFFF |
| Semaphore.Conservation | threadx_glue/glue.c:154-199 | in every interleaving the kernel count is the initial count plus successful puts less successful gets, so gets never exceed the initial count plus puts |
| Semaphore.ReleasesBelowMaximum | threadx_glue/glue.c:154-199 | after any run a release raises the kernel count exactly if the object exists and the initial count plus successful puts less successful gets is below 4096, and a wait can succeed exactly if that is above zero |
| Semaphore.ShadowCounts | threadx_glue/glue.c:170-199 | the shadow count is the initial count plus increments less decrements, mod 2^32 |
| Semaphore.FailuresCount | threadx_glue/glue.c:170-199 | the failed calls counted are the waits and releases of the run that failed and have been followed by their update |
| Semaphore.AgreementInSteps | threadx_glue/glue.c:170-199 | with no call in flight the counts agree if and only if as many releases as waits failed, in terms of the steps |
| Semaphore.TimeoutIsOption | threadx_glue/glue.c:173-174 | the timeout given to the kernel is the wait option |
| Semaphore.SemaphoreBlock.Get | threadx_glue/glue.c:170-191 | a get is the kernel wait with the timeout its option stands for, any steps of others, and the decrement even if the wait failed; and its status, which is never "no instance" when it waits forever |
| Semaphore.SemaphoreBlock.Put | threadx_glue/glue.c:193-199 | a put is the kernel release, any steps of others, and the increment even if the release failed; and its status, which is success exactly if the kernel count was below 4096 and so went up |
| ThreadList.Threads.InsertTailList | threadx_glue/glue.c:274 | the entry joins the ring before the head, and the ring stays circular and doubly linked |
| ThreadList.Threads.RemoveEntryList | threadx_glue/glue.c:299 | the entry leaves the ring, and the ring stays circular and doubly linked |
| ThreadList.Threads.Create | threadx_glue/glue.c:247-276 | the thread block is filled from the arguments and what the kernel gave, handle included, with nothing left of its earlier contents, and listed last |
| ThreadList.FilledInFull | threadx_glue/glue.c:255-272 | field by field, what a filled block holds |
| ThreadList.Threads.Delete | threadx_glue/glue.c:290-301 | a thread that has ended leaves the list; a failed delete changes nothing |
| ThreadList.Threads.Identify | threadx_glue/glue.c:205-222 | the walk ends and returns the earliest listed thread with the caller's identifier, or fails the assertion if there is none |
| ThreadList.Threads.Perform | threadx_glue/glue.c:247-301 | after any sequence of completed creates and deletes the ring is well formed and lists what the operations say, each block as its last create filled it |
| ThreadList.Threads.PerformAndIdentify | threadx_glue/glue.c:205-301 | after any such sequence a thread is identified as itself if and only if no thread created before it and not deleted since was given its identifier |
| ThreadList.ListedAreAlive | threadx_glue/glue.c:247-301 | those are the threads created and not yet deleted, in order of creation |
| ThreadList.IdentifiesEarliest | threadx_glue/glue.c:205-222 | identify returns null exactly if no listed thread has the identifier, and otherwise no earlier one has it |
| ThreadList.IdentifiesCaller | threadx_glue/glue.c:205-222 | identify returns the caller's own block if and only if no thread listed before it has the same identifier |

## Left out

- VLAN, raw sends, debug printing and the interface-capability commands: not in the built configuration.
- The preemption calls around the fan-out: the glue's version of them does nothing (threadx_glue/glue.c:383-389).
- NetX itself: its queues are entries of the log, its control blocks are named by address, and its packet pools are the open choice in `Netx.Services.Copy`. Packets are single buffers, not chains.
- Driver.Driver.Handle: asks that the control blocks the command dereferences exist, those of a send's recipients included, that a packet to be sent has sixteen bytes in front of it, as the source's comment at lines 35-38 does, and that its buffer is not the instance table.
- EventFlags.Group.Get: the uninitialised timeout of a finite wait (threadx_glue/glue.c:55) is an arbitrary value; nothing is claimed about when such a wait ends beyond the loop test.
- Semaphore.SemaphoreBlock.Get: which way the kernel wait comes out is a parameter; a finite wait may time out at any moment.
- ThreadList.Threads.Create: what the kernel gives a thread is a parameter.
- The time between starting a thread and listing it, and unlocked concurrent edits of the list: list operations are atomic.
- Mutex wrappers, sleep, relinquish, info, priority, timers, suspend and resume, address translation: thin, empty, or resting on kernel calls.
- Memory ordering of the shadow semaphore count: each update is one atomic step.
- `main.c`: video setup, interrupts and threads of the demonstration program.
