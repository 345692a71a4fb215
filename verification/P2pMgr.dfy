/**
 * The peer-to-peer managers: how they add peers, and what a subscriber's one does when a peer
 * stops. It hands the peer's outstanding chunks to the best alternates and forgets the peer.
 */
module PeerManager {
  import opened Wrappers
  import opened PeerLists
  import opened Bookkeeping
  import opened RequestRuns
  import DelayQueues
  import Membership
  import PeerSets
  import Subscription

  /** The peer that is responsible for a chunk next. */
  function Heir(books: Books, c: ChunkId): Option<Peer> {
    if books.Alternates(c) == [] then None else Some(books.Alternates(c)[0])
  }

  /** The chunks, among those already dealt with, for which a peer was the best alternate. */
  function Taken(books: Books, dealtWith: set<ChunkId>, peer: Peer): set<ChunkId> {
    set c | c in dealtWith && books.Alternates(c) != [] && books.Alternates(c)[0] == peer
  }

  /** The books when the given chunks of a stopped peer have been reassigned. */
  function Reassigned(books: Books, dealtWith: set<ChunkId>): Books {
    Books(map p | p in books.peerInfos ::
            books.peerInfos[p].(reqChunks := books.peerInfos[p].reqChunks + Taken(books, dealtWith, p)),
          map c | c in books.altPeers ::
            if c in dealtWith && books.altPeers[c] != [] then books.altPeers[c][1..] else books.altPeers[c])
  }

  /** The whole effect of a stop. The evaluation of the remaining peers starts anew. */
  function Stopped(books: Books, peer: Peer): Books {
    Reset(Erase(Reassigned(books, books.Outstanding(peer)), peer))
  }

  lemma ReassignNone(books: Books)
    ensures Reassigned(books, {}) == books
  {
    forall p | p in books.peerInfos
      ensures Reassigned(books, {}).peerInfos[p] == books.peerInfos[p]
    {
      assert books.peerInfos[p].reqChunks + Taken(books, {}, p) == books.peerInfos[p].reqChunks;
    }
    assert Reassigned(books, {}).peerInfos == books.peerInfos;
    assert Reassigned(books, {}).altPeers == books.altPeers;
  }

  lemma TakenOneMore(books: Books, dealtWith: set<ChunkId>, c: ChunkId, p: Peer)
    requires c !in dealtWith
    ensures Taken(books, dealtWith + {c}, p) ==
            Taken(books, dealtWith, p) + if Heir(books, c) == Some(p) then {c} else {}
  {
  }

  lemma PopShortensList(books: Books, dealtWith: set<ChunkId>, c: ChunkId)
    requires c !in dealtWith
    ensures var (popped, alternate) := PopBestAlt(Reassigned(books, dealtWith), c);
            && alternate == Heir(books, c)
            && popped.peerInfos == Reassigned(books, dealtWith).peerInfos
            && popped.altPeers == Reassigned(books, dealtWith + {c}).altPeers
  {
    hide Taken;
    assert Reassigned(books, dealtWith).Alternates(c) == books.Alternates(c);
  }

  lemma ReassignOne(books: Books, dealtWith: set<ChunkId>, c: ChunkId)
    requires Sound(books) && c !in dealtWith
    ensures var (popped, alternate) := PopBestAlt(Reassigned(books, dealtWith), c);
            Reassigned(books, dealtWith + {c}) ==
              match alternate
              case Some(p) => Requested(popped, p, c)
              case None => popped
  {
    var after := Reassigned(books, dealtWith + {c});
    PopShortensList(books, dealtWith, c);
    var (popped, alternate) := PopBestAlt(Reassigned(books, dealtWith), c);
    var result := if alternate.Some? then Requested(popped, alternate.value, c) else popped;
    if alternate.Some? {
      assert alternate.value in books.Alternates(c);
    }
    hide PopBestAlt;
    forall p | p in books.peerInfos
      ensures result.peerInfos[p] == after.peerInfos[p]
    {
      TakenOneMore(books, dealtWith, c, p);
      assert result.peerInfos[p].reqChunks == after.peerInfos[p].reqChunks;
    }
    assert result.peerInfos == after.peerInfos;
  }

  lemma ReassignedChunks(books: Books, dealtWith: set<ChunkId>)
    requires KnownAlternates(books)
    ensures forall p: Peer, c :: c in Reassigned(books, dealtWith).Outstanding(p) <==>
                           c in books.Outstanding(p) || (c in dealtWith && Heir(books, c) == Some(p))
    ensures forall c :: Reassigned(books, dealtWith).Alternates(c) ==
                        if c in dealtWith && Heir(books, c).Some? then books.Alternates(c)[1..] else books.Alternates(c)
  {
    forall p: Peer, c
      ensures c in Reassigned(books, dealtWith).Outstanding(p) <==>
              c in books.Outstanding(p) || (c in dealtWith && Heir(books, c) == Some(p))
    {
      if c in dealtWith && Heir(books, c) == Some(p) {
        assert p in books.Alternates(c);
      }
    }
  }

  /**
   * What a stop does to each chunk: one that was outstanding at the stopped peer passes to the
   * old head of its alternate-list, or to nobody if the list was empty, and every other peer
   * keeps exactly what it had.
   */
  lemma StopMovesChunks(books: Books, peer: Peer)
    requires Sound(books) && peer in books.peerInfos
    ensures forall p, c :: p != peer ==>
              (c in Stopped(books, peer).Outstanding(p) <==>
                 || c in books.Outstanding(p)
                 || (c in books.Outstanding(peer) && books.Alternates(c) != [] && books.Alternates(c)[0] == p))
    ensures Stopped(books, peer).peerInfos.Keys == books.peerInfos.Keys - {peer}
    ensures forall p :: p in Stopped(books, peer).peerInfos ==> Stopped(books, peer).peerInfos[p].chunkCount == 0
  {
    var reassigned := Reassigned(books, books.Outstanding(peer));
    ReassignedChunks(books, books.Outstanding(peer));
    ErasedEverywhere(reassigned, peer);
    ResetKeeps(Erase(reassigned, peer));
    hide Reset;
  }

  /** And to each alternate-list: the head that took over is gone, and so is the stopped peer. */
  lemma StopShortensLists(books: Books, peer: Peer, c: ChunkId)
    requires Sound(books) && peer in books.peerInfos
    ensures Stopped(books, peer).altPeers.Keys == books.altPeers.Keys
    ensures peer !in Stopped(books, peer).Alternates(c)
    ensures Stopped(books, peer).Alternates(c) ==
              Without(if c in books.Outstanding(peer) && books.Alternates(c) != [] then books.Alternates(c)[1..]
                      else books.Alternates(c), peer)
  {
    var reassigned := Reassigned(books, books.Outstanding(peer));
    ReassignedChunks(books, books.Outstanding(peer));
    ErasedEverywhere(reassigned, peer);
    ResetKeeps(Erase(reassigned, peer));
    WithoutKeepsOthers(reassigned.Alternates(c), peer);
    hide Reset;
  }

  // ---------------------------------------------------------------- the stop as micro-steps

  ghost predicate LegalFrom(s: State, events: seq<Event>)
    decreases |events|
  {
    events == [] || (Enabled(s, events[0]) && LegalFrom(Fire(s, events[0]), events[1..]))
  }

  ghost function ExecFrom(s: State, events: seq<Event>): State
    requires LegalFrom(s, events)
    decreases |events|
  {
    if events == [] then s else ExecFrom(Fire(s, events[0]), events[1..])
  }

  /** A stop of `peer` that began with the given books and that nothing has interrupted. */
  ghost predicate MidStop(s: State, books: Books, peer: Peer) {
    && s.stop.Reassigning?
    && s.stop.peer == peer
    && s.stop.todo <= books.Outstanding(peer)
    && match s.stop.popped
       case None => s.books == Reassigned(books, books.Outstanding(peer) - s.stop.todo)
       case Some((p, c)) =>
         && c in books.Outstanding(peer)
         && c !in s.stop.todo
         && (s.books, Some(p)) == PopBestAlt(Reassigned(books, books.Outstanding(peer) - s.stop.todo - {c}), c)
  }

  lemma {:induction false} MidStopGoesOn(s: State, books: Books, peer: Peer, steps: seq<Event>)
    requires Sound(books) && MidStop(s, books, peer) && LegalFrom(s, steps)
    requires forall e :: e in steps ==> e.PopAlternate? || e.RecordAlternate?
    ensures MidStop(ExecFrom(s, steps), books, peer)
    decreases |steps|
  {
    if steps == [] {
    } else {
      var s' := Fire(s, steps[0]);
      var all := books.Outstanding(peer);
      assert steps[0] in steps;
      if steps[0].PopAlternate? {
        var c := steps[0].chunkId;
        ReassignOne(books, all - s.stop.todo, c);
        assert all - s'.stop.todo == all - s.stop.todo + {c};
        assert all - s'.stop.todo - {c} == all - s.stop.todo;
      } else {
        var c := s.stop.popped.value.1;
        ReassignOne(books, all - s.stop.todo - {c}, c);
        assert all - s'.stop.todo == all - s.stop.todo - {c} + {c};
      }
      MidStopGoesOn(s', books, peer, steps[1..]);
    }
  }

  /** A stop that isn't interleaved with anything has the effect `Stopped`, in whatever order the chunks are visited. */
  lemma UninterruptedStop(s: State, peer: Peer, steps: seq<Event>)
    requires Invariant(s)
    requires Enabled(s, BeginStop(peer)) && LegalFrom(Fire(s, BeginStop(peer)), steps)
    requires forall e :: e in steps ==> e.PopAlternate? || e.RecordAlternate?
    requires Enabled(ExecFrom(Fire(s, BeginStop(peer)), steps), EndStop)
    ensures Fire(ExecFrom(Fire(s, BeginStop(peer)), steps), EndStop).books == Stopped(s.books, peer)
  {
    var begun := Fire(s, BeginStop(peer));
    assert s.books.Outstanding(peer) - begun.stop.todo == {};
    ReassignNone(s.books);
    MidStopGoesOn(begun, s.books, peer, steps);
    var end := ExecFrom(begun, steps);
    assert s.books.Outstanding(peer) - end.stop.todo == s.books.Outstanding(peer);
  }

  // ---------------------------------------------------------------- the mutable manager

  /**
   * Whether a new peer takes the place of the worst one: if the numbers of peers with and without a
   * path to the publisher ask for its kind, and there is a worst one of that kind.
   */
  ghost predicate MayReplace(books: Books, isPathToPub: map<Peer, bool>, peer: Peer)
    requires books.peerInfos.Keys <= isPathToPub.Keys && peer in isPathToPub
  {
    var peers := books.peerInfos.Keys;
    && (|OfKind(peers, isPathToPub, true)| < |OfKind(peers, isPathToPub, false)| <==> isPathToPub[peer])
    && HasWorst(books, isPathToPub, isPathToPub[peer])
  }

  datatype ConnectError = SystemError(isGeneric: bool, errNum: ErrNum) | OtherError

  datatype ErrNum =
    | ECONNREFUSED | ECONNRESET | ENETUNREACH | ENETRESET | ENETDOWN | EHOSTUNREACH | OtherErrNum

  class SubP2pMgr {
    const maxPeers: nat
    const bookkeeper: SubBookkeeper
    const p2pSub: Subscription.Subscriber
    const peerSet: PeerSets.PeerSet
    const serverPool: DelayQueues.ServerQueue
    var done: bool
    /** The announcements that were asked for: what, and which peer isn't to get it. */
    ghost var notified: seq<(ChunkId, Peer)>

    ghost predicate Represents(s: Membership.State)
      reads this, peerSet, serverPool.servers
    {
      && s.role.Subscriber? && s.maxPeers == maxPeers && s.done == done
      && s.peerSet == peerSet.Value()
      && !serverPool.servers.isClosed && s.queue == serverPool.servers.queue
    }

    constructor (maxPeers: nat, servers: set<DelayQueues.SockAddr>, p2pSub: Subscription.Subscriber)
      ensures Represents(Membership.Initial(Membership.Subscriber, maxPeers, servers))
      ensures bookkeeper.Value() == Books(map[], map[]) && notified == [] && this.p2pSub == p2pSub
      ensures fresh(bookkeeper) && fresh(peerSet) && fresh(serverPool) && fresh(serverPool.servers)
    {
      this.maxPeers := maxPeers;
      this.p2pSub := p2pSub;
      bookkeeper := new SubBookkeeper();
      peerSet := new PeerSets.PeerSet();
      serverPool := new DelayQueues.ServerQueue(servers, 0);
      done := false;
      notified := [];
    }

    /** Opens an account for a peer and activates it; if that fails then the account is erased. */
    method AddPeer(peer: Peer) returns (r: Result<(), PeerSets.Error>)
      modifies bookkeeper, peerSet`threads
      ensures r == if peer in old(peerSet.threads) then Failure(PeerSets.LogicError) else Success(())
      ensures (bookkeeper.Value(), peerSet.threads) == Added(old(bookkeeper.Value()), old(peerSet.threads), peer)
    {
      bookkeeper.AddPeer(peer);
      r := peerSet.ActivatePeer(peer);
      if r.Failure? {
        bookkeeper.ErasePeer(peer);
      } else {
        bookkeeper.ResetCounts();
      }
    }

    /** At the limit: halts the worst peer of the wanted kind, if there is one, and adds the new one. */
    method MaybeReplace(peer: Peer, isPathToPub: map<Peer, bool>)
      returns (r: Result<bool, PeerSets.Error>, halted: Option<Peer>)
      requires bookkeeper.peerInfos.Keys <= isPathToPub.Keys && peer in isPathToPub
      modifies bookkeeper, peerSet`threads
      ensures halted.Some? <==> MayReplace(old(bookkeeper.Value()), isPathToPub, peer)
      ensures var paths := set p | p in old(bookkeeper.peerInfos) && isPathToPub[p];
              var others := set p | p in old(bookkeeper.peerInfos) && !isPathToPub[p];
              halted.Some? <==>
                && (|paths| < |others| <==> isPathToPub[peer])
                && |old(bookkeeper.peerInfos)| > 1
                && exists p :: p in (if isPathToPub[peer] then paths else others) &&
                               old(bookkeeper.peerInfos)[p].chunkCount < 0xFFFF_FFFF_FFFF_FFFF
      ensures halted.Some? ==>
                && halted.value in old(bookkeeper.peerInfos) && isPathToPub[halted.value] == isPathToPub[peer]
                && (forall p :: p in old(bookkeeper.peerInfos) && isPathToPub[p] == isPathToPub[peer] ==>
                      old(bookkeeper.peerInfos)[halted.value].chunkCount <= old(bookkeeper.peerInfos)[p].chunkCount)
                && r == (if peer in old(peerSet.threads) then Failure(PeerSets.LogicError) else Success(true))
                && (bookkeeper.Value(), peerSet.threads) == Added(old(bookkeeper.Value()), old(peerSet.threads), peer)
      ensures halted.None? ==>
                && r == Success(false)
                && bookkeeper.Value() == old(bookkeeper.Value()) && peerSet.threads == old(peerSet.threads)
    {
      halted := None;
      assert OfKind(bookkeeper.peerInfos.Keys, isPathToPub, true) ==
             set p | p in bookkeeper.peerInfos && isPathToPub[p];
      assert OfKind(bookkeeper.peerInfos.Keys, isPathToPub, false) ==
             set p | p in bookkeeper.peerInfos && !isPathToPub[p];
      var numPath, numNoPath := bookkeeper.GetPubPathCounts(isPathToPub);
      if (numPath < numNoPath) == isPathToPub[peer] {
        halted := bookkeeper.GetWorstPeer(isPathToPub, isPathToPub[peer]);
      }
      if halted.None? {
        return Success(false), None;
      }
      var added := AddPeer(peer);
      match added
      case Failure(e) => r := Failure(e);
      case Success(_) => r := Success(true);
    }

    /** Adds a peer, maybe: as the run system's verdict on it says. */
    method MaybeAdd(peer: Peer, isPathToPub: map<Peer, bool>) returns (r: Result<bool, PeerSets.Error>)
      requires PeerSets.Reapable(peerSet.Value())
      requires bookkeeper.peerInfos.Keys <= isPathToPub.Keys && peer in isPathToPub
      modifies bookkeeper, peerSet`threads
      ensures var numPeers := |old(peerSet.threads)| - |old(peerSet.inactivePeers)|;
              var (books, threads) := (old(bookkeeper.Value()), old(peerSet.threads));
              var adds := numPeers < maxPeers || (numPeers == maxPeers && MayReplace(books, isPathToPub, peer));
              && r == (if adds && peer in threads then Failure(PeerSets.LogicError) else Success(adds))
              && (bookkeeper.Value(), peerSet.threads) ==
                   if adds then Added(books, threads, peer) else (books, threads)
    {
      hide Added, MayReplace, PeerSets.Reapable;
      var numPeers := peerSet.GetSize();
      if numPeers < maxPeers {
        var added := AddPeer(peer);
        match added
        case Failure(e) => r := Failure(e);
        case Success(_) => r := Success(true);
      } else if numPeers > maxPeers {
        r := Success(false);
      } else {
        var halted: Option<Peer>;
        r, halted := MaybeReplace(peer, isPathToPub);
      }
    }

    /** What the connect-loop and the accept-loop do with a new peer. */
    method HandlePeer(ghost s: Membership.State, ghost e: Membership.Event, peer: Peer, addr: DelayQueues.SockAddr,
                      isPathToPub: map<Peer, bool>, now: DelayQueues.Time, delay: nat)
      returns (r: Result<bool, PeerSets.Error>)
      requires Represents(s) && Membership.Consistent(s) && Membership.Enabled(s, e)
      requires bookkeeper.peerInfos.Keys <= isPathToPub.Keys && peer in isPathToPub
      requires e.Offer? && (e.peer, e.addr, e.now, e.delay) == (peer, addr, now, delay)
      requires e.mayReplace == MayReplace(bookkeeper.Value(), isPathToPub, peer)
      modifies bookkeeper, peerSet`threads, serverPool.servers`queue
      ensures r.Success? && Represents(Membership.Offered(s, e))
      ensures serverPool.servers.queue ==
              old(serverPool.servers.queue)
              + if r.value then multiset{} else multiset{DelayQueues.Element(addr, now + delay)}
    {
      Membership.RoomDecides(s, e.mayReplace);
      Membership.OfferedIsNew(s, e);
      assert PeerSets.Reapable(s.peerSet);
      hide Membership.Offered, Membership.Enabled, Membership.Consistent, Membership.MaybeAdd;
      hide MayReplace, PeerSets.Reapable, Erase, Add, Reset;
      r := MaybeAdd(peer, isPathToPub);
      if r.Failure? || !r.value {
        var _ := serverPool.Consider(addr, delay, now);
      }
      Membership.OfferedToSubscriber(s, e, peerSet.Value(), serverPool.servers.queue);
    }

    /**
     * An attempt to connect threw. The loop ends if the error is fatal, and tries the server again
     * later if it isn't.
     */
    method HandleFailure(ghost s: Membership.State, addr: DelayQueues.SockAddr, error: ConnectError,
                         now: DelayQueues.Time, delay: nat)
      returns (goesOn: bool)
      requires Represents(s) && s.held == Some(addr) && Membership.Enabled(s, Membership.ConnectFails(now, delay))
      modifies serverPool.servers`queue
      ensures goesOn <==>
                !error.SystemError? || !error.isGeneric ||
                error.errNum in {ECONNREFUSED, ECONNRESET, ENETUNREACH, ENETRESET, ENETDOWN, EHOSTUNREACH}
      ensures serverPool.servers.queue ==
              old(serverPool.servers.queue)
              + if goesOn then multiset{DelayQueues.Element(addr, now + delay)} else multiset{}
      ensures goesOn ==> Represents(Membership.Fire(s, Membership.ConnectFails(now, delay)))
      ensures !goesOn ==> Represents(Membership.Fire(s, Membership.ConnectIsFatal))
    {
      if error.SystemError? && error.isGeneric && error.errNum.OtherErrNum? {
        return false;
      }
      var _ := serverPool.Consider(addr, delay, now);
      return true;
    }

    /** A server address is taken only by a step that the run system allows. */
    method NextServer(ghost s: Membership.State, now: DelayQueues.Time)
      returns (r: DelayQueues.Attempt, ghost e: Membership.Event)
      requires Represents(s) && !s.failed && s.held.None?
      modifies serverPool.servers`queue
      ensures r.Popped? ==>
                && e.PopServer? && Membership.Enabled(s, e) && Represents(Membership.Fire(s, e))
                && Membership.Fire(s, e).held == Some(r.value)
      ensures !r.Popped? ==> Represents(s)
    {
      r := serverPool.Pop(now);
      e := Membership.Halt;
      if r.Popped? {
        ghost var when: DelayQueues.Time :|
          && when <= now && DelayQueues.IsTop(s.queue, DelayQueues.Element(r.value, when))
          && serverPool.servers.queue == s.queue - multiset{DelayQueues.Element(r.value, when)};
        e := Membership.PopServer(now, DelayQueues.Element(r.value, when));
      }
    }

    /** A peer offers an item. One that the subscriber has isn't asked for, and the offer isn't remembered. */
    method ShouldRequestFrom(peer: Peer, chunkId: ChunkId) returns (r: Result<bool, Error>)
      modifies bookkeeper
      ensures chunkId in p2pSub.repo ==> r == Success(false) && bookkeeper.Value() == old(bookkeeper.Value())
      ensures chunkId !in p2pSub.repo ==>
                match ShouldRequest(old(bookkeeper.Value()), peer, chunkId)
                case Success((books, should)) => r == Success(should) && bookkeeper.Value() == books
                case Failure(error) => r == Failure(error) && bookkeeper.Value() == old(bookkeeper.Value())
    {
      var needed := p2pSub.ShouldRequest(chunkId);
      if !needed {
        return Success(false);
      }
      r := bookkeeper.MaybeRequest(peer, chunkId);
    }

    /**
     * An item arrives from a peer. It's saved and counted only if it's outstanding at that peer,
     * and announced to the other peers only if it was also missing. Either way, it's no longer
     * outstanding.
     */
    method HereIs(peer: Peer, chunkId: ChunkId) returns (r: Result<bool, Error>)
      modifies this`notified, bookkeeper, p2pSub
      ensures var requested := chunkId in old(bookkeeper.Value()).Outstanding(peer);
              var isNew := requested && chunkId !in old(p2pSub.repo);
              && r == (if peer in old(bookkeeper.peerInfos) then Success(isNew) else Failure(OutOfRange))
              && p2pSub.repo == old(p2pSub.repo) + (if requested then {chunkId} else {})
              && p2pSub.Counts() == old(p2pSub.Counts()).(
                   tcpOrig := old(p2pSub.numTcpOrig) + if isNew then 1 else 0,
                   tcpDup := old(p2pSub.numTcpDup) + if requested && !isNew then 1 else 0)
              && notified == old(notified) + (if isNew then [(chunkId, peer)] else [])
              && chunkId !in bookkeeper.Value().Outstanding(peer)
      ensures match Received(old(bookkeeper.Value()), peer, chunkId)
              case Success((books, _)) => bookkeeper.Value() == books
              case Failure(_) => bookkeeper.Value() == old(bookkeeper.Value())
    {
      var wasRequested := bookkeeper.MarkReceived(peer, chunkId);
      if wasRequested.Failure? || !wasRequested.value {
        return wasRequested;
      }
      var isNew := p2pSub.HereIsP2p(peer, chunkId);
      if isNew {
        notified := notified + [(chunkId, peer)];
      }
      return Success(isNew);
    }

    /** Visits the stopped peer's outstanding chunks in whatever order the set yields them. */
    method ReassignPending(peer: Peer)
      requires Sound(bookkeeper.Value()) && peer in bookkeeper.peerInfos
      modifies bookkeeper
      ensures bookkeeper.Value() == Reassigned(old(bookkeeper.Value()), old(bookkeeper.Value()).Outstanding(peer))
    {
      ghost var books := bookkeeper.Value();
      var todo := bookkeeper.peerInfos[peer].reqChunks;
      ghost var dealtWith: set<ChunkId> := {};
      ReassignNone(books);
      while todo != {}
        invariant dealtWith + todo == books.Outstanding(peer) && dealtWith !! todo
        invariant bookkeeper.Value() == Reassigned(books, dealtWith)
        decreases todo
      {
        var chunkId :| chunkId in todo;
        ReassignOne(books, dealtWith, chunkId);
        var altPeer := bookkeeper.PopAlternate(chunkId);
        if altPeer.Some? {
          bookkeeper.MarkRequested(altPeer.value, chunkId);
        }
        todo := todo - {chunkId};
        dealtWith := dealtWith + {chunkId};
      }
      assert dealtWith == books.Outstanding(peer);
    }

    /**
     * Handles a stopped peer. Nothing happens once the manager is done. A peer that resulted from
     * connecting has its address considered again, even if it has no account and an exception follows.
     */
    method PeerStopped(ghost s: Membership.State, peer: Peer, addr: DelayQueues.SockAddr, fromConnect: bool,
                       now: DelayQueues.Time, delay: nat)
      returns (r: Result<(), Error>)
      requires Sound(bookkeeper.Value()) && Represents(s)
      requires Membership.Enabled(s, Membership.HandleStop(peer, now, delay))
      requires s.records[peer].addr == addr && s.records[peer].fromConnect == fromConnect
      modifies bookkeeper, serverPool.servers`queue
      ensures Represents(Membership.Fire(s, Membership.HandleStop(peer, now, delay)))
      ensures serverPool.servers.queue ==
              old(serverPool.servers.queue)
              + if !done && fromConnect then multiset{DelayQueues.Element(addr, now + delay)} else multiset{}
      ensures r.Success? <==> done || GetRequested(old(bookkeeper.Value()), peer).Success?
      ensures bookkeeper.Value() ==
              if done || r.Failure? then old(bookkeeper.Value()) else Stopped(old(bookkeeper.Value()), peer)
    {
      if !done {
        if fromConnect {
          var _ := serverPool.Consider(addr, delay, now);
        }
        if peer !in bookkeeper.peerInfos {
          return Failure(OutOfRange);
        }
        ReassignPending(peer);
        bookkeeper.ErasePeer(peer);
        bookkeeper.ResetCounts();
      }
      return Success(());
    }
  }

  /** The counts and the active peers when a publisher has added a peer, or failed to because it's active already. */
  function PubAdded(numRequested: map<Peer, nat>, threads: set<Peer>, peer: Peer): (map<Peer, nat>, set<Peer>) {
    if peer in threads then (numRequested - {peer}, threads)
    else (map p | p in numRequested.Keys + {peer} :: 0, threads + {peer})
  }

  /** Adding a peer that has no thread counts from 0 for everybody; adding one that has a thread forgets it. */
  lemma PublisherStartsAnew(numRequested: map<Peer, nat>, threads: set<Peer>, peer: Peer)
    ensures var (after, active) := PubAdded(numRequested, threads, peer);
            && active == threads + {peer}
            && after.Keys == (if peer in threads then numRequested.Keys - {peer} else numRequested.Keys + {peer})
            && forall p :: p in after ==> after[p] == if peer in threads then numRequested[p] else 0
  {
  }

  class PubP2pMgr {
    const maxPeers: nat
    const bookkeeper: PubBookkeeper
    const peerSet: PeerSets.PeerSet

    ghost predicate Represents(s: Membership.State)
      reads peerSet
    {
      s.role.Publisher? && s.maxPeers == maxPeers && s.peerSet == peerSet.Value()
    }

    constructor (maxPeers: nat)
      ensures Represents(Membership.Initial(Membership.Publisher, maxPeers, {}))
      ensures fresh(bookkeeper) && fresh(peerSet) && bookkeeper.numRequested == map[]
    {
      this.maxPeers := maxPeers;
      bookkeeper := new PubBookkeeper();
      peerSet := new PeerSets.PeerSet();
    }

    method AddPeer(peer: Peer) returns (r: Result<(), PeerSets.Error>)
      modifies bookkeeper, peerSet`threads
      ensures r == if peer in old(peerSet.threads) then Failure(PeerSets.LogicError) else Success(())
      ensures (bookkeeper.numRequested, peerSet.threads) ==
              PubAdded(old(bookkeeper.numRequested), old(peerSet.threads), peer)
    {
      bookkeeper.AddPeer(peer);
      r := peerSet.ActivatePeer(peer);
      if r.Failure? {
        bookkeeper.ErasePeer(peer);
      } else {
        bookkeeper.ResetCounts();
      }
      assert bookkeeper.numRequested == PubAdded(old(bookkeeper.numRequested), old(peerSet.threads), peer).0;
    }

    /** At the limit, a peer is reported as added although it isn't. */
    method MaybeAdd(ghost s: Membership.State, ghost e: Membership.Event, peer: Peer)
      returns (r: Result<bool, PeerSets.Error>)
      requires Represents(s) && Membership.Consistent(s) && e.Offer? && Membership.Enabled(s, e) && e.peer == peer
      modifies bookkeeper, peerSet`threads
      ensures Represents(Membership.Offered(s, e))
      ensures r == Success(s.peerSet.Size() <= maxPeers)
      ensures (bookkeeper.numRequested, peerSet.threads) ==
              if s.peerSet.Size() < maxPeers
              then PubAdded(old(bookkeeper.numRequested), old(peerSet.threads), peer)
              else (old(bookkeeper.numRequested), old(peerSet.threads))
    {
      Membership.OfferedPeers(s, e);
      Membership.OfferedRest(s, e);
      assert PeerSets.Reapable(s.peerSet);
      hide Membership.Offered, Membership.Enabled, Membership.Consistent, PeerSets.Reapable;
      var numPeers := peerSet.GetSize();
      if numPeers < maxPeers {
        var _ := AddPeer(peer);
        return Success(true);
      } else if numPeers > maxPeers {
        return Success(false);
      }
      return Success(true);
    }

    /** Every evaluation starts anew when a peer stops. */
    method PeerStopped(peer: Peer, done: bool)
      modifies bookkeeper
      ensures bookkeeper.numRequested ==
              if done then old(bookkeeper.numRequested) else map p | p in old(bookkeeper.numRequested) && p != peer :: 0
    {
      if !done {
        bookkeeper.ErasePeer(peer);
        bookkeeper.ResetCounts();
      }
    }
  }
}
