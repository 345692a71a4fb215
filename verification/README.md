# Verified model of Hycast

Hycast distributes data products from a publisher to subscribers by multicast, with a peer-to-peer
network that fills the gaps. This project models the parts of it that carry state through
concurrent steps or through buffers, and proves what they promise:

- **Request bookkeeping** (`Bookkeeper.dfy`, `RequestRuns.dfy`). Which peer is responsible for which
  chunk, who could take over, and what happens to outstanding requests when a peer stops.
  Reassignment is split into micro-steps that interleave with announcements and deliveries of other
  peers.
- **Peer membership** (`PeerSet.dfy`, `DelayQueue.dfy`, `Membership.dfy`). Connecting, accepting,
  executing, stopping and reaping peers, and the pool of server addresses, as one step system under
  the locks of the manager and of the peer-set.
- **The managers** (`P2pMgr.dfy`). The classes of a subscriber's and a publisher's peer-to-peer
  manager, whose methods are proved to have the effects, and to take the steps, of the two systems above.
- **The subscriber** (`Subscriber.dfy`). Items that arrive over both transports, their counters and
  announcements, with handlers that interleave everywhere except in the repository's test-and-insert.
- **Products** (`ProdInfo.dfy`, `Product.dfy`, `OrderedMap.dfy`, `ProdStore.dfy`, `ChunkIterator.dfy`,
  `Receiving.dfy`, `StoredProducts.dfy`, `ProdIndex.dfy`). The 32-bit chunk arithmetic, reassembly into one buffer, the store
  with its ends and its incomplete products, which an ordered map finds by the circular `<` alone,
  iteration over what it holds, processing exactly once, what stored products are made of in every run,
  and the circular order of product indexes.
- **Wire formats** (`HostOrder.dfy`, `AlignedFields.dfy`, `TcpSock.dfy`, `UdpSock.dfy`, `Codec.dfy`,
  `ChunkWire.dfy`). Byte order on hosts of both endiannesses, padding by stream position with
  wrapping counters, short reads and writes, gathered and peeked packets, the in-memory codec with
  its scatter-read, and the round trips of all of them.
- **The executor** (`Executor.dfy`). The bound on finished-but-unjoined threads and termination.

What the source does to mutable objects is done here by classes, each of whose methods is proved
against a function on the object's value; the properties are lemmas about those functions and about
all runs of step systems that are built from them. A run is a sequence of events each of which is
enabled where it happens; `Exec` is the state that it leads to.

`dafny verify dfyconfig.toml` verifies everything.

## Where the code isn't what its documentation says

The model follows the code.

- `Bookkeeper.cpp:251-254` documents an exception for a peer that is already an alternate; line 291
  appends it again. `RequeuedPeerIsDuplicated` says exactly when that makes a duplicate. The run
  system has each remote peer announce an item at most once.
- `P2pMgr.cpp:185-195` promises the strong guarantee, but the rollback at line 167 erases whatever
  account the peer already had (`FailedAdditionErases`). A peer that is added again while it runs goes
  on without an account, and its operations throw (`ReAddingBreaks`). `PubP2pMgr::maybeAdd2` (lines
  568-571) reports that a peer was added to a full publisher, although it wasn't.
- `ProdInfo.cpp:156` rounds up in 32 bits. If `size + canonChunkSize - 1` reaches 2^32 then the
  product appears to have no chunks (`NumChunksIsExact`), and neither it nor an empty product is
  ever complete (`Completable`).
- `Product.cpp:677` overwrites the name unconditionally, so information with an empty name takes the
  name of a complete product away, and the product is processed a second time later
  (`UnnamedInformationRepeatsProcessing`, `AdditionTracksIncomplete`).
- `Product.cpp:630` compares with an operator that `ChunkInfo` doesn't declare, so it only compares
  whether both are non-empty. A chunk whose header disagrees with the stored product is accepted and
  written where its own header puts it (`MisplacedChunk`): in the right place if and only if its
  index is 0 or the canonical sizes agree (`LandsInPlace`). The guard at line 643 keeps it inside the
  buffer (`GuardIsExact`).
- `ProdStore.cpp:125-136` is only called after the product has been inserted, so its first branch is
  never taken: `earliest` and `latest` always take index 0 into account.
- The map of incomplete products is ordered by the circular `<` (`ProdIndex.h:79-81`). It takes two
  indexes for the same key exactly if they are 2^63-1, 2^63 or 2^63+1 apart (`AtMostOneOrder`): the
  entry of one product then replaces that of the other, and the first to be completed or erased takes
  the other's key along (`OppositeIndexesCollide`). An addition keeps the map right if and only if
  there's no such key and no name is taken away (`AdditionTracksIncomplete`). With keys on which `<`
  isn't a strict weak order, `std::map` promises nothing, and neither does the model; within a
  half-range window nothing of this happens (`WindowIsUsable`, `TracksInEveryRun`).
- `Socket.cpp:840-877` stores an integer in the next place of a buffer before the packet's limit is
  checked, and `write()` (lines 879-886) doesn't go back to the buffers' beginnings. A further integer
  of one width for a packet that's full of them is stored beyond the end of its buffer
  (`FirstPacketOverruns`), and so are those of later packets as soon as there are more than 1472, 736,
  368 or 184 of a width in all packets together (`SendPackets`). What happens then is undefined, so
  nothing is promised from there on.
- `ProdIndex.h:109` is reflexive, so an iterator that is to start inside the earliest product starts
  at that product's first chunk (`IterationIsComplete`).
- If the first incomplete product is full and lacks only its name, no missing chunk is reported even
  if later products lack some (`ReportedChunkIsLeast`).
- `Codec.cpp:133-137` writes a 64-bit integer as two words in the order they lie in memory: it
  survives between hosts exactly if they have the same endianness or the halves are equal
  (`Wire64RoundTrip`, `SurviveExactly`). The sockets' own translation doesn't have that limit.
- `Codec.cpp:252-270` counts bytes that were peeked but not decoded a second time, unless nothing is
  read (`Fill`).
- The validity flag of a chunk identifier that is made from a product's information and an index is
  false for index 0 (`Chunk_old.cpp:79`); "no chunk" is an `Option` here.
- C++ doesn't order the operands of the sums in `Codec.cpp:136` and `Chunk_old.cpp:637-640`; the
  model evaluates them from left to right, which is what the parsers assume.

## Model

| member | source | states |
|---|---|---|
| RequestRuns.SafeInEveryRun | main/p2p/Bookkeeper.cpp:181-185 | in every reachable state, mid-reassignment included, of a run in which no running peer is added again: no chunk is outstanding at two live peers, what is outstanding at a live peer has an alternate-list, and no list has a peer that requested the chunk, an unknown peer or a peer twice |
| RequestRuns.RunsKeepInvariant | main/p2p/P2pMgr.cpp:529-542 | the inductive invariant of all runs of add, announce, deliver, stop and reap, with `stopped()` split into micro-steps and adding as activate-or-roll-back; it adds to the commented invariant what makes it inductive |
| RequestRuns.NeverThrows | main/p2p/Bookkeeper.cpp:266-333 | in those runs no announcement or delivery by a running peer meets `LogicError` or `out_of_range`, nor does the look-up behind its stop |
| RequestRuns.AccountsExactly | main/p2p/P2pMgr.cpp:154-171 | running peers have an account throughout a run if and only if none of them is added again while it runs |
| RequestRuns.ReAddingBreaks | main/p2p/P2pMgr.cpp:166-170 | a running peer that is added again goes on running, and its deliveries, first announcements and stop throw `out_of_range` |
| RequestRuns.TakeoverIsSound | main/p2p/P2pMgr.cpp:753-763 | the popped alternate is a known peer other than the stopping one and doesn't have the chunk outstanding, whatever has happened between pop and record |
| RequestRuns.KeysAreHeldOrDropped | main/p2p/Bookkeeper.cpp:455-510 | between stops the keys of `altPeers` are the disjoint union of the chunks outstanding at live peers and the dropped ones |
| RequestRuns.DroppedForever | main/p2p/Bookkeeper.cpp:455-470 | a dropped chunk keeps its entry through every further event, and announcing it only queues the peer |
| RequestRuns.BooksAreHistory | main/p2p/Bookkeeper.cpp:258-333 | in those runs the books are what the events add up to: a chunk is outstanding at a peer exactly if the peer was told to request it or took it over, hasn't delivered it and hasn't stopped; the alternates are those who announced it and weren't told, in that order, less those who took over or stopped; and each count is that of the deliveries since a peer last came or went |
| Bookkeeping.RequeuedPeerIsDuplicated | main/p2p/Bookkeeper.cpp:280-293 | a further announcement keeps the lists duplicate-free if and only if the peer wasn't queued; no exception is raised |
| Bookkeeping.AnnouncementIsAnswered | main/p2p/Bookkeeper.cpp:258-298 | an announcing peer is told to request exactly if nobody has announced the chunk, and exactly then the chunk is outstanding there; otherwise it queues at the end; both exceptions exactly; nothing else changes |
| Bookkeeping.ReceiptIsCounted | main/p2p/Bookkeeper.cpp:315-333 | a chunk is wanted exactly if it's outstanding at that peer; then it no longer is, its list is gone, and the peer's count is one more; nothing else changes |
| Bookkeeping.AdditionStartsAnew | main/p2p/P2pMgr.cpp:154-171 | adding a peer that isn't active sets every count to 0 and keeps what is outstanding and queued; adding one that is erases it from the books |
| Bookkeeping.ErasedEverywhere | main/p2p/Bookkeeper.cpp:502-510 | erasing takes the peer out of every list and of the peers, changes no other peer's chunks, and keeps lists duplicate-free |
| Bookkeeping.WithoutKeepsOthers | main/p2p/Bookkeeper.cpp:506-507 | list removal takes out exactly the given peer |
| Bookkeeping.WithoutKeepsOrder | main/p2p/Bookkeeper.cpp:506-507 | and leaves the others queued in their old order |
| Bookkeeping.SubBookkeeper.AddPeer | main/p2p/Bookkeeper.cpp:210-214 | an unknown peer gets an empty account, a known one keeps its own |
| Bookkeeping.SubBookkeeper.MaybeRequest | main/p2p/Bookkeeper.cpp:258-298 | the new value and the result or exception are those of `ShouldRequest`, which the run system uses |
| Bookkeeping.SubBookkeeper.MarkReceived | main/p2p/Bookkeeper.cpp:315-333 | the new value and the result or exception are those of `Received` |
| Bookkeeping.SubBookkeeper.PopAlternate | main/p2p/Bookkeeper.cpp:455-470 | takes the head of the chunk's list, if there is one, and nothing else |
| Bookkeeping.SubBookkeeper.MarkRequested | main/p2p/Bookkeeper.cpp:481-487 | the chunk is outstanding at the peer, which becomes known if it wasn't |
| Bookkeeping.SubBookkeeper.ErasePeer | main/p2p/Bookkeeper.cpp:502-510 | the loop over all lists and the erasure come to `Erase`, in whatever order the lists are visited |
| Bookkeeping.SubBookkeeper.ResetCounts | main/p2p/Bookkeeper.cpp:408-414 | every count is 0 and nothing else changes |
| Bookkeeping.SubBookkeeper.GetPubPathCounts | main/p2p/Bookkeeper.cpp:224-240 | the numbers of known peers with and without a path to the publisher |
| Bookkeeping.SubBookkeeper.GetWorstPeer | main/p2p/Bookkeeper.cpp:378-399 | a peer of the wanted kind with the least count; none exactly if there is at most one peer or none of that kind is below the largest count |
| Bookkeeping.FailedAdditionErases | main/p2p/P2pMgr.cpp:154-171 | rolling back a failed addition leaves the books as they were if and only if the peer was nowhere in them |
| PeerManager.StopMovesChunks | main/p2p/P2pMgr.cpp:529-542 | each chunk of the stopped peer moves to the old head of its list or to nobody, no other peer's set changes otherwise, and every count starts anew |
| PeerManager.StopShortensLists | main/p2p/P2pMgr.cpp:529-542 | each list loses its head if that took over, and the stopped peer; no entry vanishes |
| PeerManager.UninterruptedStop | main/p2p/P2pMgr.cpp:753-763 | the micro-steps of a stop that nothing interrupts have the effect of the whole stop, in any order of the chunks |
| PeerManager.SubP2pMgr.AddPeer | main/p2p/P2pMgr.cpp:154-171 | account and thread are added together and all counts reset; if the peer is already running, its account is erased and it goes on running |
| PeerManager.SubP2pMgr.MaybeReplace | main/p2p/P2pMgr.cpp:789-810 | a worst peer of the new one's kind is halted and the new one added exactly if the path counts ask for that kind and there is a worst one; otherwise nothing changes |
| PeerManager.SubP2pMgr.MaybeAdd | main/p2p/P2pMgr.cpp:195-230 | adds, rejects or throws, and changes books and threads, as the run systems' verdict and step say |
| PeerManager.SubP2pMgr.HandlePeer | main/p2p/P2pMgr.cpp:687-693 | adding a new peer, or considering its address again, is the offering and adding steps of the membership system |
| PeerManager.SubP2pMgr.HandleFailure | main/p2p/P2pMgr.cpp:695-715 | a failed connection puts the address back with a delay, unless the error is one that ends the loop |
| PeerManager.SubP2pMgr.NextServer | main/p2p/P2pMgr.cpp:682 | an address is taken only by a step that the membership system allows, and is held then |
| PeerManager.PubP2pMgr.AddPeer | main/p2p/P2pMgr.cpp:154-171 | the same for a publisher, whose bookkeeper counts requests |
| PeerManager.PublisherStartsAnew | main/p2p/P2pMgr.cpp:154-171 | which counts are known and what they are after that |
| PeerManager.PubP2pMgr.MaybeAdd | main/p2p/P2pMgr.cpp:568-571 | the same steps for a publisher, which at its limit reports an addition that it doesn't make; its counts start anew exactly if it does |
| PeerManager.PubP2pMgr.PeerStopped | main/p2p/P2pMgr.cpp:529-542 | the peer's count is gone and the others start anew |
| Bookkeeping.PubBookkeeper.MarkRequested | main/p2p/Bookkeeper.cpp:97-109 | the peer's count is one more and no other's changes |
| Bookkeeping.PubBookkeeper.ResetCounts | main/p2p/Bookkeeper.cpp:131-136 | every count is 0 |
| Bookkeeping.PubBookkeeper.GetWorstPeer | main/p2p/Bookkeeper.cpp:111-129 | a peer with the least count, and the exact condition for none |
| PeerManager.SubP2pMgr.ReassignPending | main/p2p/P2pMgr.cpp:753-763 | the loop over the outstanding chunks has the effect `Reassigned` for all of them |
| PeerManager.SubP2pMgr.PeerStopped | main/p2p/P2pMgr.cpp:529-542 | puts the address back exactly if the peer resulted from connecting, then has the effect `Stopped`, counts included; nothing once the manager is done; an unknown peer is an exception after the first |
| PeerManager.SubP2pMgr.ShouldRequestFrom | main/p2p/P2pMgr.cpp:934-967 | an item that the repository has isn't requested and doesn't touch the books; for others the bookkeeper decides |
| PeerManager.SubP2pMgr.HereIs | main/p2p/P2pMgr.cpp:977-1011 | an item is saved and counted only if it was outstanding at that peer, announced to the others only if it was also new, and isn't outstanding there afterwards |
| Membership.MembershipIsSafe | main/p2p/PeerSet.cpp:57-97 | in every run: the peers to be reaped are distinct, have a thread and are those that returned; the size doesn't underflow; at most `maxPeers` active peers for a publisher and one more for a subscriber |
| Membership.ReaperEnds | main/p2p/PeerSet.cpp:78-97 | in every continuation of a run once the set is being destroyed, threads and reaper take at most the steps that were left, and exactly as many if and only if the reaper has ended with both collections empty; until then one of them can step |
| Membership.WorkGetsLess | main/p2p/PeerSet.cpp:112-128 | the measure behind it, step by step |
| Membership.SomeoneCanWork | main/p2p/PeerSet.cpp:82-96 | the reaper has ended exactly if no step is left, and otherwise a step is enabled |
| Membership.AddressesAreConserved | main/p2p/P2pMgr.cpp:674-726 | until halt or a fatal error, in every run each initial server address is in the delay-queue, held by the connect-loop, or the address of a connected peer whose stop isn't handled |
| Membership.FireKeepsAddress | main/p2p/P2pMgr.cpp:857-866 | no step but a fatal error loses any address |
| Membership.OfferIsDecided | main/p2p/P2pMgr.cpp:195-230 | an offered peer is added exactly if there's room, or just none and a subscriber may replace one; a subscriber that doesn't add it puts its address back with the delay |
| Membership.ReapedInOrder | main/p2p/PeerSet.cpp:57-97 | in every run peers are reaped in the order in which they returned |
| Membership.NoneIsDueEarly | main/p2p/ServerPool.cpp:88-93 | in every run each queued address was there at the start or was put back by an event whose delay ends when it's due |
| PeerSets.DistinctFit | main/p2p/PeerSet.cpp:154-158 | distinct peers that all have threads aren't more than the threads |
| PeerSets.PeerSet.ActivatePeer | main/p2p/PeerSet.cpp:139-152 | a new peer gets a thread; a running one is an exception and changes nothing |
| PeerSets.PeerSet.PeerReturned | main/p2p/PeerSet.cpp:63-67 | the peer is queued behind the others |
| PeerSets.PeerSet.ReapOne | main/p2p/PeerSet.cpp:87-95 | takes the peer that waited longest out of both collections; its lookup succeeds, and stays able to |
| PeerSets.PeerSet.GetSize | main/p2p/PeerSet.cpp:154-158 | the unsigned subtraction is the true one |
| DelayQueues.TopExists | main/misc/DelayQueue.cpp:92-106 | a non-empty queue has an element that no other precedes |
| DelayQueues.DelayQueue.Push | main/misc/DelayQueue.cpp:131-142 | adds exactly one element, or throws if closed |
| DelayQueues.DelayQueue.TryPop | main/misc/DelayQueue.cpp:156-201 | releases a value only at or after its time and only if none is earlier; otherwise it says why and until when to wait and changes nothing |
| DelayQueues.DelayQueue.IsReady | main/misc/DelayQueue.cpp:206-210 | true exactly if some element's time has come |
| DelayQueues.ServerQueue.Pop | main/p2p/ServerPool.cpp:72-86 | as the delay-queue's, waiting and closure included |
| DelayQueues.ServerQueue.Consider | main/p2p/ServerPool.cpp:88-93 | the address is revealed after the delay; a closed queue is an exception |
| DelayQueues.ServerQueue.constructor | main/p2p/ServerPool.cpp:56-61 | every address is queued once and revealed at once |
| DelayQueues.InitiallyOnce | main/p2p/ServerPool.cpp:56-61 | that is each address exactly once, at that time, and nothing else |
| Subscription.SafeInEveryRun | main/node/Node.cpp:538-601 | in every interleaving of handlers an item is announced at most once to any peer and never to the one it was stored from, and the counters account for every save that was counted |
| Subscription.CountersWhenQuiet | main/node/Node.cpp:538-601 | with no handler running, each original counter is the number of stored items that came from there, multicast or peers, and with the duplicates it's the number of attempts |
| Subscription.HandlerIsItsSteps | main/node/Node.cpp:559-565 | the steps of one handler in a row are the handler |
| Subscription.Subscriber.HereIsMcast | main/node/Node.cpp:538-550 | saves, counts as original or duplicate, and announces exactly new items |
| Subscription.Subscriber.HereIsP2p | main/node/Node.cpp:559-565 | saves and counts; leaves announcing to the manager |
| Subscription.Subscriber.ShouldRequest | main/node/Node.cpp:484-504 | exactly items that aren't stored |
| ProductInfo.NumChunksIsExact | main/prod/ProdInfo.cpp:154-157 | the computed number of chunks is the rounded-up quotient if and only if the sum doesn't reach 2^32; otherwise it is 0 |
| ProductInfo.ChunkBounds | main/prod/ProdInfo.cpp:140-146 | offset and size of a valid chunk are the true ones: no 32- or 16-bit intermediate wraps; the chunk isn't empty and lies inside the product |
| ProductInfo.OthersAreRefused | main/prod/ProdInfo.cpp:154-157 | offset and size are refused exactly for indexes that aren't below the true number of chunks, or if that can't be computed |
| ProductInfo.OnlyLastIsShort | main/prod/ProdInfo.cpp:140-146 | all chunks but the last are canonical, and the last ends where the product does |
| ProductInfo.ChunksTile | main/prod/ProdInfo.cpp:140-181 | a byte is in a chunk exactly if it is in the product and its quotient is the chunk's index, so chunks are disjoint |
| ProductInfo.EveryPositionIsInAChunk | main/prod/ProdInfo.cpp:154-157 | and cover the product |
| ProductInfo.SizesAddUp | main/prod/ProdInfo.cpp:140-146 | the sizes of all chunks sum to the product's |
| ProductInfo.IndexInvertsOffset | main/prod/ProdInfo.cpp:159-181 | `getChunkIndex` and `getOffset` are inverse |
| Reassembly.ReassemblyIsCorrect | main/prod/Product.cpp:608-665 | for every sequence of deliveries that go to their place, with duplicates and truncated chunks: the buffer is the source in every chunk that came in full, the count is the number of those, and the product is complete exactly when it has chunks and all came, and then the whole buffer is the source |
| Reassembly.HeldIsDelivered | main/prod/Product.cpp:608-665 | the chunks held are those delivered in full at least once, and the buffer agrees with the source on them |
| Reassembly.AddHolds | main/prod/Product.cpp:608-665 | whatever its header says, a delivery is new exactly if it is full, passes the guard and its chunk is missing, and adds exactly that chunk; the counter stays the size of what is held |
| Reassembly.AddAgrees | main/prod/Product.cpp:650-656 | no delivery to its place, truncated ones included, harms the bytes of a held chunk |
| Reassembly.AdditionFails | main/prod/Product.cpp:624-665 | adding throws exactly if the chunk is missing and isn't brought in full to a place inside the buffer, and which exception it is |
| Reassembly.AdditionWrites | main/prod/Product.cpp:608-665 | what is written into the buffer and where, a chunk that is cut short included |
| Reassembly.InformationIsTaken | main/prod/Product.cpp:667-679 | information is taken exactly if index, size and canonical size agree; then it's the product's, and it's news exactly if it gives a name; nothing else changes |
| Reassembly.LandsInPlace | main/prod/Product.cpp:630-651 | an accepted latent chunk is written where its own header puts it, which is its place in the product if and only if the index is 0 or the canonical sizes agree |
| Reassembly.MisplacedChunk | main/prod/Product.cpp:630-635 | a chunk under a disagreeing header is accepted, counts as held, and isn't in its place |
| Reassembly.GuardIsExact | main/prod/Product.cpp:643-649 | the guard's 32-bit sum doesn't wrap, so it passes exactly what stays inside the buffer, and every header that doesn't claim larger chunks |
| Reassembly.Completable | main/prod/ProdInfo.cpp:154-157 | exactly non-empty products without wrap-around have chunks, hence can be completed |
| Reassembly.EarliestMissingIsLeast | main/prod/Product.cpp:595-606 | the least missing chunk, and none exactly if none is missing |
| Reassembly.PartialProduct.AddActual | main/prod/Product.cpp:608-622 | the bit-vector, buffer and counter change as `Add` says, wherever in the buffer the chunk's own header puts it |
| Reassembly.PartialProduct.AddLatent | main/prod/Product.cpp:624-665 | the same for a chunk drained from a transport under its own header, exceptions included |
| Reassembly.PartialProduct.Set | main/prod/Product.cpp:667-679 | only the name changes; inconsistent information is an exception |
| Reassembly.PartialProduct.IdentifyEarliestMissingChunk | main/prod/Product.cpp:595-606 | the scan finds `EarliestMissing` |
| ProductStore.AdditionCompletes | main/prod/ProdStore.cpp:645-666 | the status is "new and complete" exactly if the product wasn't complete before and is after; completeness isn't lost |
| ProductStore.AdditionTracksIncomplete | main/prod/ProdStore.cpp:175-237 | for keys on which `<` is an order: the map of incomplete products goes on to have exactly those, each under its own index, if and only if the addition doesn't take the name of a complete product away and no other key is 2^63-1 to 2^63+1 away; a failed addition always keeps it |
| ProductStore.ErasureTracksIncomplete | main/prod/ProdStore.cpp:318-328 | the same for an erasure, if and only if no other key is that far away |
| ProductStore.OppositeIndexesCollide | main/prod/ProdStore.cpp:175-202 | products 0 and 2^63, both incomplete, share key 0; erasing the second leaves the first untracked |
| ProductStore.AdditionKeepsOthers | main/prod/ProdStore.cpp:175-237 | adding to one product changes no other |
| ProductStore.AdditionKeepsBounds | main/prod/ProdStore.cpp:125-136 | `earliest` and `latest` go on to bound every stored index in a half-range window that contains 0 |
| ProductStore.ReportedChunkIsLeast | main/prod/ProdStore.cpp:309-316 | the first incomplete product's earliest missing chunk is the least missing one in the whole store; there's none exactly if that product has all its chunks or none |
| ProductStore.ReportedIsLeast | main/prod/ProdStore.cpp:309-316 | what is reported, product and chunk, is missing, and every other missing chunk of the store comes after it; nothing is reported exactly if no product is incomplete or the first one has all its chunks or none |
| ProductStore.AdditionMovesEnds | main/prod/ProdStore.cpp:125-136 | an addition moves an end only to a product that it puts into the store, and only outwards |
| ProductStore.ProdMap.UpdateEndIndexes | main/prod/ProdStore.cpp:125-136 | the ends change as `UpdateEnds` says |
| ProductStore.ProdMap.AddInformation | main/prod/ProdStore.cpp:175-202 | products, ends and status are those of `MapAdd`, and so is the ordered map where `<` orders its keys |
| ProductStore.ProdMap.AddChunk | main/prod/ProdStore.cpp:211-237 | the same for a chunk |
| ProductStore.ProdMap.EraseProduct | main/prod/ProdStore.cpp:318-328 | the product is gone, an equivalent key is gone from the ordered map, and the ends stay |
| ProductStore.ProdMap.IdentifyEarliestMissingChunk | main/prod/ProdStore.cpp:309-316 | the answer of `ReportedIsLeast`: the least missing chunk of a store that knows its incomplete products within a window |
| OrderedMaps.CollisionsDecide | main/prod/ProdStore.cpp:188 | insertion and erasure by equivalence are those of a map if and only if no other key is 2^63-1 to 2^63+1 away; otherwise they hit that key, and the index itself isn't one |
| OrderedMaps.WindowIsUsable | main/prod/ProdIndex.h:79-81 | within a half-range window `<` orders the keys and no two are the same |
| OrderedMaps.Find | main/prod/ProdStore.cpp:318-328 | an equivalent key, and none exactly if there isn't any |
| OrderedMaps.Assign | main/prod/ProdStore.cpp:188 | an equivalent key keeps its place and gets the value |
| OrderedMaps.Remove | main/prod/ProdStore.cpp:197 | an equivalent key goes |
| Reception.ProcessedExactlyOnce | main/comms/Receiving.cpp:111-144 | in every run that doesn't take the name of a complete product away, a stored product has been processed once since it was put there if it is named and full, and otherwise never |
| Reception.ProcessedWhenItCompletes | main/comms/Receiving.cpp:121-122 | and that happens at exactly the step that first makes it both |
| Reception.UnnamedInformationRepeatsProcessing | main/prod/Product.cpp:667-679 | replacing a processed product's information leads to its being processed again if and only if the replacement takes the name away |
| Reception.EndsBoundEveryRun | main/prod/ProdStore.cpp:125-136 | in every run with indexes and 0 in a half-range window, erasures included, the ends bound every stored index |
| Reception.TracksInEveryRun | main/prod/ProdStore.cpp:175-237 | and the map of incomplete products has exactly the stored products that lack a name or a chunk |
| Reception.EndsAreExtremes | main/prod/ProdStore.cpp:125-136 | they are the first and the last of 0 and all products that were ever in the store |
| Reception.ReportedIsLeastInEveryRun | main/prod/ProdStore.cpp:309-316 | in every such run what the store reports is the least missing chunk |
| Reception.Receiving.AcceptInformation | main/comms/Receiving.cpp:111-124 | store, status, processing and the requested set change together; a failure is kept |
| Reception.Receiving.AcceptChunk | main/comms/Receiving.cpp:131-144 | the same for a chunk |
| Reception.Receiving.ShouldRequestInformation | main/comms/Receiving.cpp:284-296 | exactly if the name isn't known and it hasn't been requested; then it has; a failed store throws |
| Reception.Receiving.ShouldRequestChunk | main/comms/Receiving.cpp:308-319 | exactly if the chunk isn't held and hasn't been requested; then it has; a failed store throws |
| StoredProducts.StoredIsReassembled | main/comms/Receiving.cpp:111-144 | in every run a stored product has been processed once exactly if all its chunks have arrived in full since it was put there and the latest information has a name, and otherwise never; if its chunks come from a source and go to their place then it has the source's bytes in each, and once all have arrived it is the source |
| StoredProducts.StoredIsMade | main/prod/ProdStore.cpp:175-237 | in every run a stored product has the geometry of its first arrival since it was put there, the latest agreeing information's name, and exactly the chunks that have arrived in full since then |
| StoredProducts.StoredAgrees | main/prod/Product.cpp:624-665 | and the source's bytes in them |
| StoredProducts.NewEntryIsMade | main/prod/ProdStore.cpp:45-50 | a product that its first chunk puts into the store holds exactly that chunk, with its bytes |
| StoredProducts.AdditionIsAnswered | main/prod/ProdStore.cpp:645-666 | when an addition throws and that the exception is kept; new means a new product, a name that was lacking, or a chunk that was missing; complete means named and full |
| ChunkIteration.HeldFromIsExact | main/prod/ProdStore.cpp:386-401 | what remains to be yielded is exactly the held chunks from the position through `latest`, each once, strictly increasing |
| ChunkIteration.IterationIsComplete | main/prod/ProdStore.cpp:351-378 | iterating from a stored product's chunk yields all held chunks not before it; within the earliest product it starts over |
| ChunkIteration.ChunkInfoIterator.constructor | main/prod/ProdStore.cpp:360-378 | starts where `Start` says |
| ChunkIteration.GetChunkInfoIterator | main/prod/ProdStore.cpp:351-378 | the same, and an empty identifier is an exception |
| ChunkIteration.ChunkInfoIterator.Current | main/prod/ProdStore.cpp:386-401 | the loops end (measure: distance to `latest` modulo 2^64) at the next held chunk and skip none |
| ChunkIteration.ChunkInfoIterator.Advance | main/prod/ProdStore.cpp:407-410 | takes exactly one chunk off what remains |
| ChunkIteration.ChunkInfoIterator.Collect | main/prod/ProdStore.cpp:386-410 | repeating the two ends, and yields exactly what remained |
| ProdIndexes.AtMostOneOrder | main/prod/ProdIndex.h:70-99 | `<`, `==`, `>` exclude one another and all fail exactly at modular distances 2^63-1, 2^63 and 2^63+1 |
| ProdIndexes.FurtherOn | main/prod/ProdIndex.h:79-111 | an index is less than the one that is k further on exactly if 0 < k < 2^63-1, around the circle too, and not later exactly if k <= 2^63-1 |
| ProdIndexes.OrderIsOffsetOrder | main/prod/ProdIndex.h:79-111 | how `<` and `isEarlierThan` of any two indexes relate to their offsets from any base |
| ProdIndexes.StrictTotalOrderInWindow | main/prod/ProdIndex.h:79-81 | a strict total order equal to offset order on any set within fewer than 2^63-1 positions |
| ProdIndexes.OrderIsStableUnderShift | main/prod/ProdIndex.h:79-111 | shifting both indexes around the circle changes no comparison |
| HostOrder.HtonIsBigEndian | main/inet/Socket.h:97-126 | on hosts of both endiannesses a translated 8- to 64-bit value lies in memory in network byte-order |
| HostOrder.NtohRecovers | main/inet/Socket.h:128-143 | and is recovered from it |
| HostOrder.MostSignificantFirst | main/inet/Socket.h:97-126 | network byte-order: the weight of each byte |
| HostOrder.MemoryIsOrdered | main/inet/Socket.h:97-126 | and in memory of hosts of either endianness |
| AlignedFields.PadAligns | main/inet/Socket.cpp:194-199 | the padding is what is missing to the next multiple, in spite of the unsigned subtraction |
| AlignedFields.WrappedCountAligns | main/inet/Socket.cpp:201-211 | a byte counter that has wrapped gives the same padding |
| AlignedFields.DecodeAllEncoded | main/inet/Socket.cpp:270-401 | decoding kinds at any position of any stream recovers the values that were encoded there |
| AlignedFields.WireFormat | main/inet/Socket.cpp:270-303 | every byte on the wire: zeros as padding, 1 or 0, an integer's bytes from the most significant one down, or the given bytes |
| AlignedFields.DecodedValue | main/inet/Socket.cpp:352-401 | what any bytes are decoded to, also those that no writer produces: any byte but 0 is true |
| TcpSockets.TcpSock.WriteBytes | main/inet/Socket.cpp:244-268 | however short the writes are, all bytes are sent in order, or exactly as many as the other end takes before it closes the connection; it fails exactly then |
| TcpSockets.TcpSock.ReadBytes | main/inet/Socket.cpp:314-345 | however short the reads are, exactly the next bytes, or nothing if the stream ends |
| TcpSockets.TcpSock.Write | main/inet/Socket.cpp:270-303 | the aligned encoding of the value goes out, cut off where the connection closes |
| TcpSockets.TcpSock.Read | main/inet/Socket.cpp:352-401 | the value that is encoded at the reader's position |
| TcpSockets.TcpSock.WriteAll | main/inet/Socket.cpp:244-303 | the same for a sequence of values |
| TcpSockets.TcpSock.ReadAll | main/inet/Socket.cpp:314-401 | and of kinds |
| TcpSockets.RoundTrip | main/inet/Socket.cpp:244-401 | any values between hosts of any endianness, with any splitting of the stream, are read back if and only if the connection isn't closed before all of them are sent; nothing is otherwise; and both counters agree modulo 2^32 |
| UdpSockets.BatchDecodes | main/inet/Socket.cpp:701-728 | a scatter-read of a batch is the decoding of its fields at the position reached |
| UdpSockets.UdpSender.AddWrite | main/inet/Socket.cpp:840-877 | adds exactly the aligned encoding, or throws if and only if a limit is exceeded, which exception that is, and whether the padding has been added then; the integer takes up a place in its buffer unless its padding was refused, and it's beyond the end exactly if the buffer was used up |
| UdpSockets.UdpSender.Send | main/inet/Socket.cpp:879-886 | the packet is the encoding of all fields; refused if and only if that exceeds 1472 bytes or its elements the vector; an integer is stored out of bounds exactly if the accepted ones before it have used up its buffer |
| UdpSockets.FirstPacketOverruns | main/inet/Socket.cpp:840-877 | for the first packet that's exactly if integers of one width fill it and another one is added; never if the packet is accepted |
| UdpSockets.AcceptedPacketOverruns | main/inet/Socket.cpp:879-886 | for an accepted packet it's exactly if its integers and those of earlier packets are too many for a buffer |
| UdpSockets.SendPackets | main/inet/Socket.cpp:840-886 | any number of packets of one socket: all stores are in bounds if and only if the integers of each width in all of them together fit into one buffer, and then each packet is the encoding of its values |
| UdpSockets.PaddingFits | main/inet/Socket.cpp:687-694 | padding never exceeds the packet's limit, so only the vector's can refuse it |
| UdpSockets.IsRoomExactly | main/inet/Socket.cpp:635-646 | an addition is refused exactly beyond 1472 bytes or 1024 elements, and which of the two is reported |
| UdpSockets.UdpReceiver.AddPeek | main/inet/Socket.cpp:901-930 | adds the padding, if any, and the destination, or throws if and only if a limit is exceeded, which exception that is, and whether the padding has been added then |
| UdpSockets.UdpReceiver.Peek | main/inet/Socket.cpp:949-976 | the destinations' values if the packet is long enough, and the next peek skips them; otherwise the packet is discarded |
| UdpSockets.UdpReceiver.PeekBatch | main/inet/Socket.cpp:901-976 | a batch gets the fields at the position reached, if and only if the packet has them and the vector room for them |
| UdpSockets.RoundTrip | main/inet/Socket.cpp:635-976 | unless the values fill a packet with integers of one width and another one follows, they are sent in one packet if and only if they fit packet and vector, and then all recovered if and only if the receiver's vector has room for each batch, however they are divided |
| Codecs.Wire64RoundTrip | main/net/Codec.cpp:133-184 | what becomes of a 64-bit integer; it survives if and only if the endiannesses are the same or its halves are equal |
| Codecs.WordsOnTheWire | main/net/Codec.cpp:133-137 | the two words are in the order of the writer's memory, each in network byte-order |
| Codecs.MemEncoder.PutBytes | main/net/Codec.cpp:89-131 | bytes are appended to the serial buffer, or it overflows and nothing changes |
| Codecs.MemEncoder.Encode64 | main/net/Codec.cpp:133-137 | two words in memory order |
| Codecs.MemEncoder.EncodeBytes | main/net/Codec.cpp:212-221 | one array can be referred to; a second is an exception |
| Codecs.MemEncoder.Flush | main/net/Codec.cpp:237-250 | serial buffer and array are written one after the other, cut off at the end of memory, and both are empty then |
| Codecs.MemDecoder.Fill | main/net/Codec.cpp:252-270 | peeks at as many more bytes as there are or were asked for, without consuming any; the count of undecoded bytes stays right if and only if there were none or nothing is read |
| Codecs.MemDecoder.TakeBytes | main/net/Codec.cpp:139-177 | the next peeked bytes, or an exception that changes nothing |
| Codecs.MemDecoder.Decode64 | main/net/Codec.cpp:179-184 | reads what `Encode64` writes |
| Codecs.MemDecoder.DecodeBytes | main/net/Codec.cpp:223-235 | the scatter-read re-reads what was decoded and returns exactly the bytes that follow it |
| ChunkWire.Serialize | main/prod/Chunk_old.cpp:628-641 | header appended to the serial buffer, data referred to, and the reported size is the record's; exactly when it throws and what |
| ChunkWire.Deserialize | main/prod/Chunk_old.cpp:721-740 | the result for every header: its information and index, or the exception |
| ChunkWire.ParsedHeader | main/prod/Chunk_old.cpp:132-157 | what a host of any endianness parses from a header is the chunk's information and index, as far as the product's index survives |
| ChunkWire.HeaderFields | main/prod/Chunk_old.cpp:628-641 | where each field of a header is and what it holds |
| ChunkWire.ParsedExactly | main/prod/Chunk_old.cpp:721-740 | any header is refused exactly if its canonical size is 0 or its index isn't one of those that its sizes imply, and otherwise gives its fields |
| ChunkWire.SurviveExactly | main/net/Codec.cpp:133-184 | chunks survive if and only if the endiannesses are the same or every product index has equal halves |
| ChunkWire.LatentChunk.DrainData | main/prod/Chunk_old.cpp:765-774 | the bytes after the header, once; a second time is an exception |
| ChunkWire.SendAll | main/prod/Chunk_old.cpp:628-641 | chunks serialized and flushed in turn lie in memory one after the other, cut off at its end, and the reported sizes sum to the bytes produced; it fails exactly if a header doesn't fit into the serial buffer, and then nothing is written |
| ChunkWire.ReceiveOne | main/prod/Chunk_old.cpp:721-774 | recovers the next chunk and stops at its end |
| ChunkWire.ReceiveAll | main/net/Codec.cpp:223-270 | and so all of them |
| ChunkWire.RoundTrip | main/prod/Chunk_old.cpp:628-774 | any sequence of valid chunks is read back on a host of any endianness, exactly if and only if their product indexes survive; reported sizes are the bytes produced |
| Execution.ThreadsAreJoined | main/misc/Executor.cpp:145-177 | in every run the task map is the running threads and at most one that has finished; each other thread was joined exactly once and none by itself |
| Execution.NoneStartsAfterShutdown | main/misc/Executor.cpp:228-242 | after shutdown no thread starts |
| Execution.TerminationIsReached | main/misc/Executor.cpp:330-343 | once the threads that were running at shutdown have finished, the map has at most one entry, which is the wait loop's exit, and exactly one if a task was ever submitted |
| Execution.LastIsKept | main/misc/Executor.cpp:164-177 | when nothing runs any more, the last thread to finish is still to be joined |
| Execution.SubmitStarts | main/misc/Executor.cpp:228-242 | submitting fails exactly if the executor is closed, and changes nothing then; otherwise exactly that thread is started, running and in the task map |
| Execution.StartedExactly | main/misc/Executor.cpp:228-242 | in every run exactly those threads were started that were submitted before the first shutdown, and exactly those of them are running that haven't finished |
| Execution.Executor.RemoveAndDestroyDoneThread | main/misc/Executor.cpp:145-155 | joins and forgets the finished thread, if there is one |
| Execution.Executor.SubmitTask | main/misc/Executor.cpp:228-242 | joins a finished thread and starts the new one, or throws after shutdown and changes nothing |
| Execution.Executor.PurgeDoneThreadAndSaveThisThread | main/misc/Executor.cpp:164-177 | joins the previous finished thread and leaves its own identifier |
| Execution.Executor.Close | main/misc/Executor.cpp:316-324 | only the flag changes |

## Left out

- DelayQueues.DelayQueue.TryPop: is one iteration of `pop()`'s loop; waiting on the condition variable and being woken are the caller trying again.
- Membership.ReaperEnds: says that a step is enabled and that each leaves less, for peers whose run returns normally; a peer whose run throws is neither queued for the reaper nor handled as stopped.
- Membership.AddressesAreConserved: is about peers whose run returns normally.
- Execution.TerminationIsReached: reaches the exit of the wait loop; the join of the last thread after it is a system call.
- ChunkWire.Deserialize: a header with canonical size 0 leads to an error of its own, where the source's division by zero is undefined.
- Reassembly.PartialProduct.AddActual: takes a chunk whose index is one of the product's and whose place is inside the buffer; there's no guard, so for any other the source's behaviour is undefined.
- UdpSockets.UdpSender.AddWrite: promises nothing once an integer has been stored beyond the end of its buffer.
- ProductStore.ProdMap.AddInformation: says nothing of the ordered map where `<` isn't a strict weak order on its keys; `std::map` promises nothing there.
- System calls: sockets, SCTP, multicast joins, `mmap`, pthread cancellation. Reads and writes are cut short arbitrarily; of the errors only a closed connection is modelled.
- `Repository`, `PeerProto` and `McastProto`: the repository is a set with an atomic test-and-insert, messages are events.
- Logging, exception texts, YAML, performance meters, address classes, file ingestion, product names and strings on the wire.
- `LinkedMap`, `LinkedHashMap` and `FileProduct`: their code doesn't keep list and map in agreement.
- Liveness of dropped requests: there is none (`RequestRuns.DroppedForever`).
- Requests sent to a halted alternate, and the window between asking an alternate and recording that it was asked, beyond its being interruptible.
- Deadlock freedom: the reaper joins while it holds the peer-set's lock.
- The map from addresses to peers, the improver thread's timing, and the local node type. Whether a peer has a path to the publisher is a parameter; in the membership system, so is whether a new peer may replace another.
- Adding a whole product over a partial one, persistence of the store, and the timing of expiry: a product can expire at any time.
- Entries of the store are held by value; aliasing through product handles isn't modelled. The values in the buffers of a UDP socket are held by value as well, since each has a place of its own there; places are counted.
- Condition variables and their notifications, and the width of the counters of requests and received chunks, which are unbounded here.
