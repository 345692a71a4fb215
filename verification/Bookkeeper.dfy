/**
 * The request bookkeeping of a subscriber's peer-to-peer manager: which peer is responsible for
 * which chunk, and which peers could take over. `Books` is the value of a bookkeeper, the
 * functions on it are the bookkeeper's operations, and class `SubBookkeeper` is the mutable form.
 */
module Bookkeeping {
  import opened Wrappers
  import opened PeerLists

  /** Something that can be requested: information on a product, or one of its segments. */
  datatype ChunkId = ProductInformation(prodIndex: nat) | Segment(prodIndex: nat, offset: nat)

  datatype PeerInfo = PeerInfo(reqChunks: set<ChunkId>, chunkCount: nat)

  datatype Books = Books(peerInfos: map<Peer, PeerInfo>, altPeers: map<ChunkId, seq<Peer>>)
  {
    /** The chunks that are outstanding at a peer. */
    function Outstanding(peer: Peer): set<ChunkId> {
      if peer in peerInfos then peerInfos[peer].reqChunks else {}
    }

    /** The peers that could take over a chunk, best first. */
    function Alternates(chunkId: ChunkId): seq<Peer> {
      if chunkId in altPeers then altPeers[chunkId] else []
    }
  }

  datatype Error = OutOfRange | LogicError

  const EMPTY_INFO := PeerInfo({}, 0)

  // ---------------------------------------------------------------- operations

  function Add(books: Books, peer: Peer): Books {
    if peer in books.peerInfos then books
    else books.(peerInfos := books.peerInfos[peer := EMPTY_INFO])
  }

  function ShouldRequest(books: Books, peer: Peer, chunkId: ChunkId): Result<(Books, bool), Error> {
    if chunkId !in books.altPeers then
      if peer !in books.peerInfos then Failure(OutOfRange)
      else if chunkId in books.peerInfos[peer].reqChunks then Failure(LogicError)
      else
        var info := books.peerInfos[peer];
        Success((Books(books.peerInfos[peer := info.(reqChunks := info.reqChunks + {chunkId})],
                       books.altPeers[chunkId := []]), true))
    else if peer in books.peerInfos && chunkId in books.peerInfos[peer].reqChunks then
      Failure(LogicError)
    else
      Success((books.(altPeers := books.altPeers[chunkId := books.altPeers[chunkId] + [peer]]), false))
  }

  function Received(books: Books, peer: Peer, chunkId: ChunkId): Result<(Books, bool), Error> {
    if peer !in books.peerInfos then Failure(OutOfRange)
    else
      var info := books.peerInfos[peer];
      if chunkId !in info.reqChunks then Success((books, false))
      else
        Success((Books(books.peerInfos[peer := PeerInfo(info.reqChunks - {chunkId}, info.chunkCount + 1)],
                       books.altPeers - {chunkId}), true))
  }

  /** The chunks outstanding at a peer; an unknown peer is an exception. */
  function GetRequested(books: Books, peer: Peer): Result<set<ChunkId>, Error> {
    if peer in books.peerInfos then Success(books.peerInfos[peer].reqChunks) else Failure(OutOfRange)
  }

  function PopBestAlt(books: Books, chunkId: ChunkId): (Books, Option<Peer>) {
    var peers := books.Alternates(chunkId);
    if peers == [] then (books, None)
    else (books.(altPeers := books.altPeers[chunkId := peers[1..]]), Some(peers[0]))
  }

  /** Subscripting an `unordered_map` inserts a missing key, so an unknown peer becomes known. */
  function Requested(books: Books, peer: Peer, chunkId: ChunkId): Books {
    var info := if peer in books.peerInfos then books.peerInfos[peer] else EMPTY_INFO;
    books.(peerInfos := books.peerInfos[peer := info.(reqChunks := info.reqChunks + {chunkId})])
  }

  /** `std::list::remove`: every occurrence goes, the rest keep their order. */
  function Without(peers: seq<Peer>, peer: Peer): seq<Peer> {
    if peers == [] then []
    else if peers[0] == peer then Without(peers[1..], peer)
    else [peers[0]] + Without(peers[1..], peer)
  }

  function Erase(books: Books, peer: Peer): Books {
    Books(books.peerInfos - {peer},
          map chunkId | chunkId in books.altPeers :: Without(books.altPeers[chunkId], peer))
  }

  /** Every peer's count of received chunks starts anew. */
  function Reset(books: Books): Books {
    books.(peerInfos := map peer | peer in books.peerInfos :: books.peerInfos[peer].(chunkCount := 0))
  }

  /**
   * What adding a peer does to the books and to the peers that have a thread. A peer that has one
   * already can't be activated; then its account is erased, whoever opened it.
   */
  function Added(books: Books, threads: set<Peer>, peer: Peer): (Books, set<Peer>) {
    if peer in threads then (Erase(Add(books, peer), peer), threads)
    else (Reset(Add(books, peer)), threads + {peer})
  }

  // ---------------------------------------------------------------- invariants

  /** At most one of the given peers has a chunk outstanding. */
  ghost predicate SoleHolder(books: Books, live: set<Peer>) {
    forall p, q, c :: p in live && q in live && c in books.Outstanding(p) && c in books.Outstanding(q) ==> p == q
  }

  /** What is outstanding at one of the given peers has an alternate-list. */
  ghost predicate Tracked(books: Books, live: set<Peer>) {
    forall p, c :: p in live && c in books.Outstanding(p) ==> c in books.altPeers
  }

  /** The invariant that is a comment in the source: a peer isn't an alternate for what it has requested. */
  ghost predicate NotOwnAlternate(books: Books) {
    forall p, c :: c in books.Outstanding(p) ==> p !in books.Alternates(c)
  }

  ghost predicate KnownAlternates(books: Books) {
    forall p, c :: p in books.Alternates(c) ==> p in books.peerInfos
  }

  ghost predicate DistinctAlternates(books: Books) {
    forall c :: c in books.altPeers ==> NoDuplicates(books.altPeers[c])
  }

  /** Everything that holds of the books alone, whoever is live. */
  ghost predicate Sound(books: Books) {
    NotOwnAlternate(books) && KnownAlternates(books) && DistinctAlternates(books)
  }

  // ---------------------------------------------------------------- list removal

  lemma {:induction false} WithoutKeepsOthers(peers: seq<Peer>, peer: Peer)
    ensures forall p :: p in Without(peers, peer) <==> p in peers && p != peer
    ensures NoDuplicates(peers) ==> NoDuplicates(Without(peers, peer))
  {
    if peers == [] {
    } else {
      WithoutKeepsOthers(peers[1..], peer);
      assert peers == [peers[0]] + peers[1..];
      if NoDuplicates(peers) {
        assert NoDuplicates(peers[1..]);
        assert peers[0] !in peers[1..];
      }
    }
  }

  lemma {:induction false} WithoutAbsent(peers: seq<Peer>, peer: Peer)
    requires peer !in peers
    ensures Without(peers, peer) == peers
  {
    if peers == [] {
    } else {
      WithoutAbsent(peers[1..], peer);
    }
  }

  /** Removal keeps the queueing order: the survivors are listed as they were. */
  lemma {:induction false} WithoutKeepsOrder(peers: seq<Peer>, peer: Peer, i: nat, j: nat)
    requires i < j < |Without(peers, peer)|
    ensures exists k, l ::
              0 <= k < l < |peers| && peers[k] == Without(peers, peer)[i] && peers[l] == Without(peers, peer)[j]
  {
    if peers == [] {
    } else if peers[0] != peer && i == 0 {
      var rest := Without(peers[1..], peer);
      WithoutKeepsOthers(peers[1..], peer);
      assert rest[j - 1] in rest;
      var l :| 0 <= l < |peers[1..]| && peers[1..][l] == rest[j - 1];
      assert peers[0] == Without(peers, peer)[i] && peers[l + 1] == Without(peers, peer)[j];
    } else {
      var rest := Without(peers[1..], peer);
      var kept := if peers[0] == peer then 0 else 1;
      WithoutKeepsOrder(peers[1..], peer, i - kept, j - kept);
      var k, l :| 0 <= k < l < |peers[1..]| && peers[1..][k] == rest[i - kept] && peers[1..][l] == rest[j - kept];
      assert peers[k + 1] == Without(peers, peer)[i] && peers[l + 1] == Without(peers, peer)[j];
    }
  }

  lemma ErasedEverywhere(books: Books, peer: Peer)
    ensures forall c :: Erase(books, peer).Alternates(c) == Without(books.Alternates(c), peer)
    ensures forall p, c :: p in Erase(books, peer).Alternates(c) <==> p in books.Alternates(c) && p != peer
    ensures forall p :: Erase(books, peer).Outstanding(p) == if p == peer then {} else books.Outstanding(p)
    ensures DistinctAlternates(books) ==> DistinctAlternates(Erase(books, peer))
  {
    forall c
      ensures Erase(books, peer).Alternates(c) == Without(books.Alternates(c), peer)
      ensures forall p :: p in Erase(books, peer).Alternates(c) <==> p in books.Alternates(c) && p != peer
      ensures NoDuplicates(books.Alternates(c)) ==> NoDuplicates(Erase(books, peer).Alternates(c))
    {
      WithoutKeepsOthers(books.Alternates(c), peer);
    }
    if DistinctAlternates(books) {
      forall c | c in Erase(books, peer).altPeers
        ensures NoDuplicates(Erase(books, peer).altPeers[c])
      {
        assert NoDuplicates(books.Alternates(c));
        assert Erase(books, peer).altPeers[c] == Erase(books, peer).Alternates(c);
      }
    }
  }

  // ---------------------------------------------------------------- what the peers are answered

  /** How many chunks a peer has delivered since its count was reset. */
  function CountOf(books: Books, peer: Peer): nat {
    if peer in books.peerInfos then books.peerInfos[peer].chunkCount else 0
  }

  /**
   * An announcing peer is asked for the chunk exactly if nobody has announced it, and then it's
   * outstanding at that peer; otherwise the peer queues behind those that could take over. It's an
   * exception exactly if the peer has already been asked, or should be and isn't known.
   */
  lemma AnnouncementIsAnswered(books: Books, peer: Peer, chunkId: ChunkId)
    ensures match ShouldRequest(books, peer, chunkId)
            case Failure(LogicError) => chunkId in books.Outstanding(peer)
            case Failure(OutOfRange) => chunkId !in books.altPeers && peer !in books.peerInfos
            case Success((after, should)) =>
              && (chunkId in books.altPeers || peer in books.peerInfos) && chunkId !in books.Outstanding(peer)
              && (should <==> chunkId !in books.altPeers)
              && (should <==> chunkId in after.Outstanding(peer))
              && (forall p :: after.Outstanding(p) ==
                    books.Outstanding(p) + if p == peer && should then {chunkId} else {})
              && (forall c :: after.Alternates(c) ==
                    books.Alternates(c) + if c == chunkId && !should then [peer] else [])
              && after.altPeers.Keys == books.altPeers.Keys + {chunkId}
              && after.peerInfos.Keys == books.peerInfos.Keys
              && (forall p :: CountOf(after, p) == CountOf(books, p))
  {
  }

  /**
   * A chunk is wanted from a peer exactly if it's outstanding there. Then it isn't any more, nobody is
   * queued for it, and it counts for the peer. Otherwise nothing happens.
   */
  lemma ReceiptIsCounted(books: Books, peer: Peer, chunkId: ChunkId)
    ensures match Received(books, peer, chunkId)
            case Failure(e) => e == OutOfRange && peer !in books.peerInfos
            case Success((after, isWanted)) =>
              && peer in books.peerInfos
              && (isWanted <==> chunkId in books.Outstanding(peer))
              && (forall p :: after.Outstanding(p) == books.Outstanding(p) - if p == peer then {chunkId} else {})
              && (forall c :: after.Alternates(c) == if isWanted && c == chunkId then [] else books.Alternates(c))
              && after.altPeers.Keys == books.altPeers.Keys - (if isWanted then {chunkId} else {})
              && after.peerInfos.Keys == books.peerInfos.Keys
              && (forall p :: CountOf(after, p) == CountOf(books, p) + if p == peer && isWanted then 1 else 0)
  {
  }

  /**
   * Adding a peer that has no thread opens an empty account if there is none, and every count starts
   * anew; adding one that has a thread erases it.
   */
  lemma AdditionStartsAnew(books: Books, threads: set<Peer>, peer: Peer)
    ensures var (after, active) := Added(books, threads, peer);
            && active == threads + {peer}
            && after.peerInfos.Keys == (if peer in threads then books.peerInfos.Keys - {peer}
                                        else books.peerInfos.Keys + {peer})
            && (forall p :: after.Outstanding(p) ==
                  if p == peer && peer in threads then {} else books.Outstanding(p))
            && (forall c :: after.Alternates(c) ==
                  if peer in threads then Without(books.Alternates(c), peer) else books.Alternates(c))
            && (forall p :: CountOf(after, p) ==
                  if peer !in threads || p == peer then 0 else CountOf(books, p))
  {
    ErasedEverywhere(Add(books, peer), peer);
    assert forall c :: Add(books, peer).Alternates(c) == books.Alternates(c);
    assert forall p :: Add(books, peer).Outstanding(p) == books.Outstanding(p);
    hide Without;
  }

  // ---------------------------------------------------------------- a failed addition

  /**
   * If a peer can't be activated then it's erased from the books. The documentation promises the
   * strong guarantee; the books are as they were exactly if the peer was nowhere in them.
   */
  lemma FailedAdditionErases(books: Books, peer: Peer)
    ensures Erase(Add(books, peer), peer) == books <==>
              peer !in books.peerInfos && forall c :: peer !in books.Alternates(c)
  {
    var erased := Erase(Add(books, peer), peer);
    ErasedEverywhere(Add(books, peer), peer);
    assert Add(books, peer).altPeers == books.altPeers;
    assert forall c :: erased.Alternates(c) == Without(books.Alternates(c), peer);
    if peer !in books.peerInfos && forall c :: peer !in books.Alternates(c) {
      assert erased.peerInfos == books.peerInfos;
      forall c | c in books.altPeers
        ensures erased.altPeers[c] == books.altPeers[c]
      {
        assert peer !in books.Alternates(c);
        WithoutAbsent(books.altPeers[c], peer);
      }
      assert erased.altPeers == books.altPeers;
    }
  }

  // ---------------------------------------------------------------- a repeated announcement

  /**
   * The documentation of `shouldRequest` promises an exception when the peer is already an
   * alternate for the chunk; the code appends it again. The lists stay duplicate-free exactly
   * when the announcing peer wasn't queued yet.
   */
  lemma RequeuedPeerIsDuplicated(books: Books, peer: Peer, chunkId: ChunkId)
    requires chunkId in books.altPeers && chunkId !in books.Outstanding(peer)
    requires DistinctAlternates(books)
    ensures ShouldRequest(books, peer, chunkId).Success?
    ensures DistinctAlternates(ShouldRequest(books, peer, chunkId).value.0) <==> peer !in books.Alternates(chunkId)
  {
    var list := books.altPeers[chunkId];
    var after := ShouldRequest(books, peer, chunkId).value.0;
    assert after.altPeers[chunkId] == list + [peer];
    if peer in list {
      var i :| 0 <= i < |list| && list[i] == peer;
      assert after.altPeers[chunkId][i] == after.altPeers[chunkId][|list|];
    }
  }

  // ---------------------------------------------------------------- the worst peer

  /** The peers that are, or aren't, a path to the publisher. */
  function OfKind(peers: set<Peer>, isPathToPub: map<Peer, bool>, wanted: bool): set<Peer>
    requires peers <= isPathToPub.Keys
  {
    set p | p in peers && isPathToPub[p] == wanted
  }

  lemma OneMoreOfKind(peers: set<Peer>, isPathToPub: map<Peer, bool>, peer: Peer, wanted: bool)
    requires peers + {peer} <= isPathToPub.Keys && peer !in peers
    ensures |OfKind(peers + {peer}, isPathToPub, wanted)| ==
            |OfKind(peers, isPathToPub, wanted)| + if isPathToPub[peer] == wanted then 1 else 0
  {
    var rest := OfKind(peers, isPathToPub, wanted);
    assert OfKind(peers + {peer}, isPathToPub, wanted) == if isPathToPub[peer] == wanted then rest + {peer} else rest;
  }

  /** Counts start at the largest `unsigned long`, so a peer that reached it can't be picked. */
  const MAX_COUNT := 0xFFFF_FFFF_FFFF_FFFF

  /** Whether there's a worst peer of a kind: a lone peer isn't considered at all. */
  ghost predicate HasWorst(books: Books, isPathToPub: map<Peer, bool>, wanted: bool)
    requires books.peerInfos.Keys <= isPathToPub.Keys
  {
    && |books.peerInfos| > 1
    && exists p :: p in books.peerInfos && isPathToPub[p] == wanted && books.peerInfos[p].chunkCount < MAX_COUNT
  }

  // ---------------------------------------------------------------- the mutable bookkeeper

  class SubBookkeeper {
    var peerInfos: map<Peer, PeerInfo>
    var altPeers: map<ChunkId, seq<Peer>>

    ghost function Value(): Books
      reads this
    {
      Books(peerInfos, altPeers)
    }

    constructor ()
      ensures Value() == Books(map[], map[])
    {
      peerInfos := map[];
      altPeers := map[];
    }

    method AddPeer(peer: Peer)
      modifies this
      ensures Value() == Add(old(Value()), peer)
      ensures peerInfos == if peer in old(peerInfos) then old(peerInfos) else old(peerInfos)[peer := PeerInfo({}, 0)]
    {
      if peer !in peerInfos {
        peerInfos := peerInfos[peer := EMPTY_INFO];
      }
    }

    method MaybeRequest(peer: Peer, chunkId: ChunkId) returns (r: Result<bool, Error>)
      modifies this
      ensures match ShouldRequest(old(Value()), peer, chunkId)
              case Success((books, should)) => r == Success(should) && Value() == books
              case Failure(error) => r == Failure(error) && Value() == old(Value())
    {
      if chunkId !in altPeers {
        if peer !in peerInfos {
          return Failure(OutOfRange);
        }
        var info := peerInfos[peer];
        if chunkId in info.reqChunks {
          return Failure(LogicError);
        }
        altPeers := altPeers[chunkId := []];
        peerInfos := peerInfos[peer := info.(reqChunks := info.reqChunks + {chunkId})];
        return Success(true);
      }
      if peer in peerInfos && chunkId in peerInfos[peer].reqChunks {
        return Failure(LogicError);
      }
      altPeers := altPeers[chunkId := altPeers[chunkId] + [peer]];
      return Success(false);
    }

    method MarkReceived(peer: Peer, chunkId: ChunkId) returns (r: Result<bool, Error>)
      modifies this
      ensures match Received(old(Value()), peer, chunkId)
              case Success((books, wasRequested)) => r == Success(wasRequested) && Value() == books
              case Failure(error) => r == Failure(error) && Value() == old(Value())
    {
      if peer !in peerInfos {
        return Failure(OutOfRange);
      }
      var info := peerInfos[peer];
      if chunkId !in info.reqChunks {
        return Success(false);
      }
      peerInfos := peerInfos[peer := PeerInfo(info.reqChunks - {chunkId}, info.chunkCount + 1)];
      altPeers := altPeers - {chunkId};
      return Success(true);
    }

    method PopAlternate(chunkId: ChunkId) returns (peer: Option<Peer>)
      modifies this
      ensures (Value(), peer) == PopBestAlt(old(Value()), chunkId)
    {
      peer := None;
      if chunkId in altPeers {
        var peers := altPeers[chunkId];
        if peers != [] {
          peer := Some(peers[0]);
          altPeers := altPeers[chunkId := peers[1..]];
        }
      }
    }

    method MarkRequested(peer: Peer, chunkId: ChunkId)
      modifies this
      ensures Value() == Requested(old(Value()), peer, chunkId)
      ensures peer !in old(peerInfos) ==> peerInfos == old(peerInfos)[peer := PeerInfo({} + {chunkId}, 0)]
    {
      if peer !in peerInfos {
        peerInfos := peerInfos[peer := EMPTY_INFO];
      }
      var info := peerInfos[peer];
      peerInfos := peerInfos[peer := info.(reqChunks := info.reqChunks + {chunkId})];
    }

    /** Visits every alternate-list, in whatever order the map yields them. */
    method ErasePeer(peer: Peer)
      modifies this
      ensures Value() == Erase(old(Value()), peer)
    {
      var todo := altPeers.Keys;
      while todo != {}
        invariant todo <= altPeers.Keys == old(altPeers.Keys)
        invariant peerInfos == old(peerInfos)
        invariant forall c :: c in altPeers ==>
                    altPeers[c] == if c in todo then old(altPeers)[c] else Without(old(altPeers)[c], peer)
        decreases todo
      {
        var chunkId :| chunkId in todo;
        altPeers := altPeers[chunkId := Without(altPeers[chunkId], peer)];
        todo := todo - {chunkId};
      }
      peerInfos := peerInfos - {peer};
    }

    method ResetCounts()
      modifies this
      ensures Value() == Reset(old(Value()))
    {
      var todo := peerInfos.Keys;
      while todo != {}
        invariant todo <= peerInfos.Keys == old(peerInfos.Keys)
        invariant altPeers == old(altPeers)
        invariant forall p :: p in peerInfos ==>
                    peerInfos[p] == if p in todo then old(peerInfos)[p] else old(peerInfos)[p].(chunkCount := 0)
        decreases todo
      {
        var p :| p in todo;
        peerInfos := peerInfos[p := peerInfos[p].(chunkCount := 0)];
        todo := todo - {p};
      }
      assert peerInfos == Reset(old(Value())).peerInfos;
    }

    /** How many peers are a path to the publisher, and how many aren't. */
    method GetPubPathCounts(isPathToPub: map<Peer, bool>) returns (numPath: nat, numNoPath: nat)
      requires peerInfos.Keys <= isPathToPub.Keys
      ensures numPath == |OfKind(peerInfos.Keys, isPathToPub, true)|
      ensures numNoPath == |OfKind(peerInfos.Keys, isPathToPub, false)|
    {
      numPath, numNoPath := 0, 0;
      var todo := peerInfos.Keys;
      while todo != {}
        invariant todo <= peerInfos.Keys
        invariant numPath == |OfKind(peerInfos.Keys - todo, isPathToPub, true)|
        invariant numNoPath == |OfKind(peerInfos.Keys - todo, isPathToPub, false)|
        decreases todo
      {
        var p :| p in todo;
        ghost var seen := peerInfos.Keys - todo;
        assert peerInfos.Keys - (todo - {p}) == seen + {p};
        OneMoreOfKind(seen, isPathToPub, p, true);
        OneMoreOfKind(seen, isPathToPub, p, false);
        if isPathToPub[p] {
          numPath := numPath + 1;
        } else {
          numNoPath := numNoPath + 1;
        }
        todo := todo - {p};
      }
      assert peerInfos.Keys - todo == peerInfos.Keys;
    }

    /** A peer that received fewest chunks among those of the given path attribute. */
    method GetWorstPeer(isPathToPub: map<Peer, bool>, wanted: bool) returns (worst: Option<Peer>)
      requires peerInfos.Keys <= isPathToPub.Keys
      ensures worst.Some? ==>
                |peerInfos| > 1 && worst.value in peerInfos && isPathToPub[worst.value] == wanted &&
                forall p :: p in peerInfos && isPathToPub[p] == wanted ==>
                  peerInfos[worst.value].chunkCount <= peerInfos[p].chunkCount
      ensures worst.None? <==>
                |peerInfos| <= 1 ||
                forall p :: p in peerInfos && isPathToPub[p] == wanted ==> peerInfos[p].chunkCount >= MAX_COUNT
      ensures worst.Some? <==> HasWorst(Value(), isPathToPub, wanted)
    {
      worst := None;
      if |peerInfos| > 1 {
        var minCount := MAX_COUNT;
        var todo := peerInfos.Keys;
        while todo != {}
          invariant todo <= peerInfos.Keys
          invariant worst.None? ==> minCount == MAX_COUNT
          invariant worst.Some? ==>
                      worst.value in peerInfos && isPathToPub[worst.value] == wanted &&
                      peerInfos[worst.value].chunkCount == minCount < MAX_COUNT
          invariant forall p :: p in peerInfos && p !in todo && isPathToPub[p] == wanted ==>
                      minCount <= peerInfos[p].chunkCount
          decreases todo
        {
          var p :| p in todo;
          if isPathToPub[p] == wanted && peerInfos[p].chunkCount < minCount {
            minCount := peerInfos[p].chunkCount;
            worst := Some(p);
          }
          todo := todo - {p};
        }
      }
    }
  }
  /** A publisher's bookkeeper: how many items each peer has requested. */
  class PubBookkeeper {
    var numRequested: map<Peer, nat>

    constructor ()
      ensures numRequested == map[]
    {
      numRequested := map[];
    }

    method AddPeer(peer: Peer)
      modifies this
      ensures numRequested == if peer in old(numRequested) then old(numRequested) else old(numRequested)[peer := 0]
    {
      if peer !in numRequested {
        numRequested := numRequested[peer := 0];
      }
    }

    /** A peer that isn't known becomes known. */
    method MarkRequested(peer: Peer)
      modifies this
      ensures numRequested.Keys == old(numRequested.Keys) + {peer}
      ensures numRequested[peer] == 1 + if peer in old(numRequested) then old(numRequested)[peer] else 0
      ensures forall p :: p in old(numRequested) && p != peer ==> numRequested[p] == old(numRequested)[p]
    {
      AddPeer(peer);
      numRequested := numRequested[peer := numRequested[peer] + 1];
    }

    method ErasePeer(peer: Peer)
      modifies this
      ensures numRequested == old(numRequested) - {peer}
    {
      numRequested := numRequested - {peer};
    }

    method ResetCounts()
      modifies this
      ensures numRequested == map p | p in old(numRequested) :: 0
    {
      var todo := numRequested.Keys;
      while todo != {}
        invariant todo <= numRequested.Keys == old(numRequested.Keys)
        invariant forall p :: p in numRequested && p !in todo ==> numRequested[p] == 0
        decreases todo
      {
        var p :| p in todo;
        numRequested := numRequested[p := 0];
        todo := todo - {p};
      }
    }

    /** A peer with the least count; none exactly if there's at most one, or no count is below the largest. */
    method GetWorstPeer() returns (worst: Option<Peer>)
      ensures worst.Some? ==>
                worst.value in numRequested &&
                forall p :: p in numRequested ==> numRequested[worst.value] <= numRequested[p]
      ensures worst.Some? <==> |numRequested| > 1 && exists p :: p in numRequested && numRequested[p] < MAX_COUNT
    {
      worst := None;
      if |numRequested| > 1 {
        var minCount := MAX_COUNT;
        var todo := numRequested.Keys;
        while todo != {}
          invariant todo <= numRequested.Keys
          invariant worst.None? ==> minCount == MAX_COUNT
          invariant worst.Some? ==> worst.value in numRequested && numRequested[worst.value] == minCount < MAX_COUNT
          invariant forall p :: p in numRequested && p !in todo ==> minCount <= numRequested[p]
          decreases todo
        {
          var p :| p in todo;
          if numRequested[p] < minCount {
            minCount := numRequested[p];
            worst := Some(p);
          }
          todo := todo - {p};
        }
      }
    }
  }
}
