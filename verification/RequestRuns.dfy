/**
 * Every run of the request protocol. Peers are added, announce chunks, deliver chunks and stop.
 * Stopping isn't atomic: the manager pops an alternate for one outstanding chunk, records it as
 * requested, goes on to the next chunk and at last erases the peer, and the other peers may
 * announce and deliver between any two of these steps.
 */
module RequestRuns {
  import opened Wrappers
  import opened PeerLists
  import opened Bookkeeping

  /** How far the manager has got with a stopped peer. */
  datatype Reassignment =
    | Idle
    | Reassigning(peer: Peer, todo: set<ChunkId>, popped: Option<(Peer, ChunkId)>)
  {
    /** The chunks that have no responsible peer for the moment. */
    function Pending(): set<ChunkId> {
      if Idle? then {} else todo + (if popped.Some? then {popped.value.1} else {})
    }
  }

  /**
   * `threads` are the peers in the peer-set, `running` those among them whose stop hasn't been
   * handled. `announced` and `dropped` are history: who announced what, and the chunks that lost
   * their responsible peer when nobody could take over.
   */
  datatype State = State(
    books: Books,
    stop: Reassignment,
    threads: set<Peer>,
    running: set<Peer>,
    announced: set<(Peer, ChunkId)>,
    dropped: set<ChunkId>)
  {
    /** The running peers, but for the one whose stop is being handled. */
    function Live(): set<Peer> {
      running - (if stop.Reassigning? then {stop.peer} else {})
    }
  }

  datatype Event =
    | AddPeer(peer: Peer)
    | Announce(peer: Peer, chunkId: ChunkId)
    | Deliver(peer: Peer, chunkId: ChunkId)
    | BeginStop(peer: Peer)
    | PopAlternate(chunkId: ChunkId)
    | RecordAlternate
    | EndStop
    | Reap(peer: Peer)

  const INITIAL := State(Books(map[], map[]), Idle, {}, {}, {}, {})

  /**
   * When an event can occur. Adding and stopping hold the manager's mutex; only a peer that is
   * running announces and delivers, whether or not it has an account; and a remote peer announces
   * an item at most once.
   */
  predicate Enabled(s: State, e: Event) {
    match e
    case AddPeer(p) => s.stop.Idle?
    case Announce(p, c) => p in s.Live() && (p, c) !in s.announced
    case Deliver(p, c) => p in s.Live()
    case BeginStop(p) => s.stop.Idle? && p in s.Live()
    case PopAlternate(c) => s.stop.Reassigning? && s.stop.popped.None? && c in s.stop.todo
    case RecordAlternate => s.stop.Reassigning? && s.stop.popped.Some?
    case EndStop => s.stop.Reassigning? && s.stop.popped.None? && s.stop.todo == {}
    case Reap(p) => p in s.threads - s.running
  }

  /**
   * The effect of an event. An operation that throws leaves the books as they were. A stop throws
   * if the peer has no account; then it isn't handled any further.
   */
  function Fire(s: State, e: Event): State
    requires Enabled(s, e)
  {
    match e
    case AddPeer(p) =>
      var (books, threads) := Added(s.books, s.threads, p);
      s.(books := books, threads := threads, running := if p in s.threads then s.running else s.running + {p})
    case Announce(p, c) =>
      var s' := s.(announced := s.announced + {(p, c)});
      (match ShouldRequest(s.books, p, c)
       case Success((books, _)) => s'.(books := books)
       case Failure(_) => s')
    case Deliver(p, c) =>
      (match Received(s.books, p, c)
       case Success((books, _)) => s.(books := books)
       case Failure(_) => s)
    case BeginStop(p) =>
      (match GetRequested(s.books, p)
       case Success(chunks) => s.(stop := Reassigning(p, chunks, None))
       case Failure(_) => s.(running := s.running - {p}))
    case PopAlternate(c) =>
      var (books, alternate) := PopBestAlt(s.books, c);
      var stop := s.stop.(todo := s.stop.todo - {c});
      (match alternate
       case Some(p) => s.(books := books, stop := stop.(popped := Some((p, c))))
       case None => s.(books := books, stop := stop, dropped := s.dropped + {c}))
    case RecordAlternate =>
      s.(books := Requested(s.books, s.stop.popped.value.0, s.stop.popped.value.1),
         stop := s.stop.(popped := None))
    case EndStop =>
      s.(books := Reset(Erase(s.books, s.stop.peer)), stop := Idle, running := s.running - {s.stop.peer})
    case Reap(p) => s.(threads := s.threads - {p})
  }

  ghost predicate Legal(events: seq<Event>)
    decreases |events|, 0
  {
    events == [] ||
    (Legal(events[..|events| - 1]) && Enabled(Exec(events[..|events| - 1]), events[|events| - 1]))
  }

  ghost function Exec(events: seq<Event>): State
    requires Legal(events)
    decreases |events|, 1
  {
    if events == [] then INITIAL else Fire(Exec(events[..|events| - 1]), events[|events| - 1])
  }

  /** No peer is added, in this run, while it's running. */
  ghost predicate NoneReAdded(events: seq<Event>)
    requires Legal(events)
    decreases |events|
  {
    events == [] ||
    (var prefix, last := events[..|events| - 1], events[|events| - 1];
     NoneReAdded(prefix) && (last.AddPeer? ==> last.peer !in Exec(prefix).running))
  }

  // ---------------------------------------------------------------- the inductive invariant

  /** Whoever queues for a chunk or is responsible for it has announced it. */
  ghost predicate Announced(s: State) {
    && (forall p: Peer, c :: c in s.books.Outstanding(p) ==> (p, c) in s.announced)
    && (forall p: Peer, c :: p in s.books.Alternates(c) ==> (p, c) in s.announced)
  }

  /** The running peers are those that have an account. */
  ghost predicate RunningIsKnown(s: State) {
    s.running == s.books.peerInfos.Keys && s.running <= s.threads
  }

  ghost predicate LiveHolds(s: State, c: ChunkId) {
    exists p :: p in s.Live() && c in s.books.Outstanding(p)
  }

  /** The chunks with an alternate-list are held by a live peer, dropped or pending: exactly one of the three. */
  ghost predicate Conserved(s: State) {
    && (forall c :: c in s.books.altPeers <==> LiveHolds(s, c) || c in s.dropped || c in s.stop.Pending())
    && (forall c :: c in s.dropped ==> !LiveHolds(s, c) && c !in s.stop.Pending())
    && (forall c :: c in s.stop.Pending() ==> !LiveHolds(s, c))
  }

  ghost predicate StopSound(s: State) {
    s.stop.Reassigning? ==>
      && s.stop.peer in s.books.peerInfos
      && (forall c :: c in s.stop.Pending() ==> c in s.books.Outstanding(s.stop.peer))
      && (s.stop.popped.Some? ==>
            var (p, c) := s.stop.popped.value;
            && p in s.Live()
            && p !in s.books.Alternates(c)
            && c !in s.stop.todo
            && (p, c) in s.announced)
  }

  ghost predicate Invariant(s: State) {
    && Sound(s.books)
    && RunningIsKnown(s)
    && SoleHolder(s.books, s.Live())
    && Announced(s)
    && Conserved(s)
    && StopSound(s)
  }

  lemma HeldMeansTracked(s: State)
    requires Conserved(s)
    ensures Tracked(s.books, s.Live())
  {
    forall p, c | p in s.Live() && c in s.books.Outstanding(p)
      ensures c in s.books.altPeers
    {
      assert LiveHolds(s, c);
    }
  }

  lemma AddKeeps(s: State, s': State, p: Peer)
    requires Invariant(s) && s.stop.Idle? && p !in s.running
    requires s' == s.(books := s'.books, threads := s.threads + {p}, running := s.running + {p})
    requires s'.books.altPeers == s.books.altPeers && s'.books.peerInfos.Keys == s.books.peerInfos.Keys + {p}
    requires forall q :: s'.books.Outstanding(q) == s.books.Outstanding(q)
    ensures Invariant(s')
  {
    assert forall c :: s'.books.Alternates(c) == s.books.Alternates(c);
    assert s.books.Outstanding(p) == {};
    forall c
      ensures LiveHolds(s', c) <==> LiveHolds(s, c)
    {
      if LiveHolds(s, c) {
        var q :| q in s.Live() && c in s.books.Outstanding(q);
        assert q in s'.Live();
      }
    }
  }

  /** A peer that has stopped but not been reaped can't be activated, and has no account to lose. */
  lemma AddKeepsInvariant(s: State, p: Peer)
    requires Invariant(s) && Enabled(s, AddPeer(p)) && p !in s.running
    ensures Invariant(Fire(s, AddPeer(p)))
  {
    hide Announced, Conserved, SoleHolder;
    if p in s.threads {
      FailedAdditionErases(s.books, p);
      assert Fire(s, AddPeer(p)) == s;
    } else {
      AddKeeps(s, Fire(s, AddPeer(p)), p);
    }
  }

  lemma QueueKeepsSound(books: Books, p: Peer, c: ChunkId)
    requires Sound(books) && p in books.peerInfos && c in books.altPeers
    requires c !in books.Outstanding(p) && p !in books.Alternates(c)
    ensures Sound(books.(altPeers := books.altPeers[c := books.altPeers[c] + [p]]))
  {
    var books' := books.(altPeers := books.altPeers[c := books.altPeers[c] + [p]]);
    assert forall q :: books'.Outstanding(q) == books.Outstanding(q);
    assert forall d :: books'.Alternates(d) == books.Alternates(d) + if d == c then [p] else [];
    assert NoDuplicates(books.altPeers[c]);
    assert NoDuplicates(books'.altPeers[c]);
  }

  lemma QueueEffect(s: State, p: Peer, c: ChunkId)
    requires Invariant(s) && Enabled(s, Announce(p, c)) && c in s.books.altPeers
    ensures ShouldRequest(s.books, p, c).Success?
    ensures var s' := Fire(s, Announce(p, c));
            && IsQueued(s, s', p, c)
            && p in s.books.peerInfos && c !in s.books.Outstanding(p) && p !in s.books.Alternates(c)
  {
    assert (p, c) !in s.announced;
  }

  /** The state when a peer has been queued for a chunk that it announced. */
  ghost predicate IsQueued(s: State, s': State, p: Peer, c: ChunkId) {
    && p in s.Live() && (p, c) !in s.announced && c in s.books.altPeers
    && s' == s.(books := s'.books, announced := s.announced + {(p, c)})
    && s'.books == s.books.(altPeers := s.books.altPeers[c := s.books.altPeers[c] + [p]])
  }

  lemma QueueConserves(s: State, s': State, p: Peer, c: ChunkId)
    requires Conserved(s) && IsQueued(s, s', p, c)
    ensures Conserved(s')
  {
    assert s'.Live() == s.Live();
    assert forall q :: s'.books.Outstanding(q) == s.books.Outstanding(q);
    assert forall d :: LiveHolds(s', d) <==> LiveHolds(s, d);
  }

  lemma QueueKeepsRest(s: State, s': State, p: Peer, c: ChunkId)
    requires SoleHolder(s.books, s.Live()) && Announced(s) && StopSound(s) && RunningIsKnown(s)
    requires IsQueued(s, s', p, c)
    ensures SoleHolder(s'.books, s'.Live()) && Announced(s') && StopSound(s') && RunningIsKnown(s')
  {
    assert s'.Live() == s.Live();
    assert forall q :: s'.books.Outstanding(q) == s.books.Outstanding(q);
    assert forall d :: s'.books.Alternates(d) == s.books.Alternates(d) + if d == c then [p] else [];
  }

  lemma QueueKeepsInvariant(s: State, p: Peer, c: ChunkId)
    requires Invariant(s) && Enabled(s, Announce(p, c)) && c in s.books.altPeers
    ensures ShouldRequest(s.books, p, c).Success?
    ensures Invariant(Fire(s, Announce(p, c)))
  {
    QueueEffect(s, p, c);
    hide Fire, ShouldRequest, Sound, SoleHolder, Announced, Conserved, StopSound;
    QueueKeepsSound(s.books, p, c);
    QueueConserves(s, Fire(s, Announce(p, c)), p, c);
    QueueKeepsRest(s, Fire(s, Announce(p, c)), p, c);
  }

  lemma FirstRequestKeeps(s: State, s': State, p: Peer, c: ChunkId)
    requires Invariant(s) && p in s.Live() && (p, c) !in s.announced && c !in s.books.altPeers
    requires s' == s.(books := s'.books, announced := s.announced + {(p, c)})
    requires s'.books.altPeers == s.books.altPeers[c := []] && s'.books.peerInfos.Keys == s.books.peerInfos.Keys
    requires forall q :: s'.books.Outstanding(q) == s.books.Outstanding(q) + if q == p then {c} else {}
    ensures Invariant(s')
  {
    assert s'.Live() == s.Live();
    assert forall d :: s'.books.Alternates(d) == s.books.Alternates(d);
    assert !LiveHolds(s, c);
    assert c in s'.books.Outstanding(p);
    forall d
      ensures LiveHolds(s', d) <==> LiveHolds(s, d) || d == c
    {
      if LiveHolds(s, d) {
        var q :| q in s.Live() && d in s.books.Outstanding(q);
        assert q in s'.Live() && d in s'.books.Outstanding(q);
      }
    }
  }

  lemma FirstRequestKeepsInvariant(s: State, p: Peer, c: ChunkId)
    requires Invariant(s) && Enabled(s, Announce(p, c)) && c !in s.books.altPeers
    ensures ShouldRequest(s.books, p, c).Success?
    ensures Invariant(Fire(s, Announce(p, c)))
  {
    assert c !in s.books.Outstanding(p);
    FirstRequestKeeps(s, Fire(s, Announce(p, c)), p, c);
  }

  lemma AnnounceKeepsInvariant(s: State, p: Peer, c: ChunkId)
    requires Invariant(s) && Enabled(s, Announce(p, c))
    ensures ShouldRequest(s.books, p, c).Success?
    ensures Invariant(Fire(s, Announce(p, c)))
  {
    if c in s.books.altPeers {
      QueueKeepsInvariant(s, p, c);
    } else {
      FirstRequestKeepsInvariant(s, p, c);
    }
  }

  lemma DeliverKeeps(s: State, s': State, p: Peer, c: ChunkId)
    requires Invariant(s) && p in s.Live() && c in s.books.Outstanding(p)
    requires s' == s.(books := s'.books)
    requires s'.books.altPeers == s.books.altPeers - {c} && s'.books.peerInfos.Keys == s.books.peerInfos.Keys
    requires forall q :: s'.books.Outstanding(q) == s.books.Outstanding(q) - if q == p then {c} else {}
    ensures Invariant(s')
  {
    assert LiveHolds(s, c);
    assert s'.Live() == s.Live();
    assert forall d :: s'.books.Alternates(d) == if d == c then [] else s.books.Alternates(d);
    forall d
      ensures LiveHolds(s', d) <==> LiveHolds(s, d) && d != c
    {
      if LiveHolds(s, d) && d != c {
        var q :| q in s.Live() && d in s.books.Outstanding(q);
        assert q in s'.Live() && d in s'.books.Outstanding(q);
      }
    }
  }

  lemma DeliverKeepsInvariant(s: State, p: Peer, c: ChunkId)
    requires Invariant(s) && Enabled(s, Deliver(p, c))
    ensures Received(s.books, p, c).Success?
    ensures Invariant(Fire(s, Deliver(p, c)))
  {
    hide Announced, Conserved, StopSound, SoleHolder, Sound;
    if c in s.books.Outstanding(p) {
      DeliverKeeps(s, Fire(s, Deliver(p, c)), p, c);
    }
  }

  lemma BeginStopKeepsInvariant(s: State, p: Peer)
    requires Invariant(s) && Enabled(s, BeginStop(p))
    ensures GetRequested(s.books, p).Success?
    ensures Invariant(Fire(s, BeginStop(p)))
  {
    var s' := Fire(s, BeginStop(p));
    assert p in s.books.peerInfos;
    assert s'.Live() == s.Live() - {p};
    forall c
      ensures LiveHolds(s, c) <==> LiveHolds(s', c) || c in s'.stop.Pending()
      ensures c in s'.stop.Pending() ==> !LiveHolds(s', c)
    {
      if LiveHolds(s, c) {
        var q :| q in s.Live() && c in s.books.Outstanding(q);
        assert q != p ==> q in s'.Live();
      }
    }
  }

  lemma PopSomeKeeps(s: State, s': State, c: ChunkId)
    requires Invariant(s) && s.stop.Reassigning? && s.stop.popped.None? && c in s.stop.todo
    requires s.books.Alternates(c) != []
    requires var list := s.books.altPeers[c];
             s' == s.(books := s.books.(altPeers := s.books.altPeers[c := list[1..]]),
                      stop := Reassigning(s.stop.peer, s.stop.todo - {c}, Some((list[0], c))))
    ensures Invariant(s')
  {
    var list := s.books.altPeers[c];
    assert s'.Live() == s.Live();
    assert c in s.stop.Pending();
    assert forall q :: s'.books.Outstanding(q) == s.books.Outstanding(q);
    assert forall d :: LiveHolds(s', d) <==> LiveHolds(s, d);
    assert list == [list[0]] + list[1..];
    assert forall d :: s'.books.Alternates(d) == if d == c then list[1..] else s.books.Alternates(d);
    assert list[0] in s.books.Alternates(c);
    assert forall q :: q in list[1..] ==> q in list;
    assert s'.stop.Pending() == s.stop.Pending();
    assert list[0] !in list[1..];
  }

  lemma PopNoneKeeps(s: State, s': State, c: ChunkId)
    requires Invariant(s) && s.stop.Reassigning? && s.stop.popped.None? && c in s.stop.todo
    requires s.books.Alternates(c) == []
    requires s' == s.(stop := Reassigning(s.stop.peer, s.stop.todo - {c}, None), dropped := s.dropped + {c})
    ensures Invariant(s')
  {
    assert s'.Live() == s.Live();
    assert c in s.stop.Pending();
    assert forall d :: LiveHolds(s', d) <==> LiveHolds(s, d);
    assert s'.stop.Pending() == s.stop.Pending() - {c};
  }

  lemma PopKeepsInvariant(s: State, c: ChunkId)
    requires Invariant(s) && Enabled(s, PopAlternate(c))
    ensures Invariant(Fire(s, PopAlternate(c)))
  {
    hide Announced, Conserved, StopSound, SoleHolder, Sound;
    if s.books.Alternates(c) != [] {
      PopSomeKeeps(s, Fire(s, PopAlternate(c)), c);
    } else {
      PopNoneKeeps(s, Fire(s, PopAlternate(c)), c);
    }
  }

  lemma RecordKeeps(s: State, s': State, p: Peer, c: ChunkId)
    requires Invariant(s) && s.stop.Reassigning? && s.stop.popped == Some((p, c))
    requires s' == s.(books := s'.books, stop := s.stop.(popped := None))
    requires s'.books.altPeers == s.books.altPeers && s'.books.peerInfos.Keys == s.books.peerInfos.Keys
    requires forall q :: s'.books.Outstanding(q) == s.books.Outstanding(q) + if q == p then {c} else {}
    ensures Invariant(s')
  {
    assert s'.Live() == s.Live();
    assert c in s.stop.Pending();
    assert s'.stop.Pending() == s.stop.Pending() - {c};
    assert forall d :: s'.books.Alternates(d) == s.books.Alternates(d);
    assert c in s'.books.Outstanding(p);
    forall d
      ensures LiveHolds(s', d) <==> LiveHolds(s, d) || d == c
    {
      if LiveHolds(s, d) {
        var q :| q in s.Live() && d in s.books.Outstanding(q);
        assert q in s'.Live() && d in s'.books.Outstanding(q);
      }
    }
  }

  lemma RecordKeepsInvariant(s: State)
    requires Invariant(s) && Enabled(s, RecordAlternate)
    ensures Invariant(Fire(s, RecordAlternate))
  {
    hide Announced, Conserved, SoleHolder, Sound;
    var (p, c) := s.stop.popped.value;
    RecordKeeps(s, Fire(s, RecordAlternate), p, c);
  }

  /** The state when a stop has been handled: the peer is nowhere in the books any more. */
  ghost predicate StopIsDone(s: State, s': State) {
    && s.stop.Reassigning? && s.stop.Pending() == {}
    && s' == s.(books := s'.books, stop := Idle, running := s.running - {s.stop.peer})
    && s'.books.altPeers.Keys == s.books.altPeers.Keys && DistinctAlternates(s'.books)
    && s'.books.peerInfos.Keys == s.books.peerInfos.Keys - {s.stop.peer}
    && (forall p: Peer, c :: p in s'.books.Alternates(c) <==> p in s.books.Alternates(c) && p != s.stop.peer)
    && (forall q :: s'.books.Outstanding(q) == if q == s.stop.peer then {} else s.books.Outstanding(q))
  }

  lemma EndStopConserves(s: State, s': State)
    requires Conserved(s) && StopIsDone(s, s')
    ensures Conserved(s')
  {
    assert s'.Live() == s.Live();
    forall d
      ensures LiveHolds(s', d) <==> LiveHolds(s, d)
    {
      if LiveHolds(s, d) {
        var q :| q in s.Live() && d in s.books.Outstanding(q);
        assert q in s'.Live() && d in s'.books.Outstanding(q);
      }
    }
  }

  lemma EndStopKeepsRest(s: State, s': State)
    requires Sound(s.books) && RunningIsKnown(s) && SoleHolder(s.books, s.Live()) && Announced(s) && StopIsDone(s, s')
    ensures Sound(s'.books) && RunningIsKnown(s') && SoleHolder(s'.books, s'.Live()) && Announced(s') && StopSound(s')
  {
    assert s'.Live() == s.Live();
  }

  /** Only the counts change. */
  lemma ResetKeeps(books: Books)
    ensures Reset(books).altPeers == books.altPeers && Reset(books).peerInfos.Keys == books.peerInfos.Keys
    ensures forall p :: Reset(books).Outstanding(p) == books.Outstanding(p)
    ensures forall c :: Reset(books).Alternates(c) == books.Alternates(c)
    ensures forall p :: p in Reset(books).peerInfos ==> Reset(books).peerInfos[p].chunkCount == 0
  {
  }

  lemma EndStopKeepsInvariant(s: State)
    requires Invariant(s) && Enabled(s, EndStop)
    ensures Invariant(Fire(s, EndStop))
  {
    ErasedEverywhere(s.books, s.stop.peer);
    ResetKeeps(Erase(s.books, s.stop.peer));
    hide Announced, Conserved, SoleHolder, Erase, Reset, Without;
    assert StopIsDone(s, Fire(s, EndStop));
    EndStopConserves(s, Fire(s, EndStop));
    EndStopKeepsRest(s, Fire(s, EndStop));
  }

  lemma ReapKeepsInvariant(s: State, p: Peer)
    requires Invariant(s) && Enabled(s, Reap(p))
    ensures Invariant(Fire(s, Reap(p)))
  {
    var s' := Fire(s, Reap(p));
    assert s'.Live() == s.Live();
    assert forall c :: LiveHolds(s', c) <==> LiveHolds(s, c);
  }

  lemma FireKeepsInvariant(s: State, e: Event)
    requires Invariant(s) && Enabled(s, e)
    requires e.AddPeer? ==> e.peer !in s.running
    ensures Invariant(Fire(s, e))
  {
    match e
    case AddPeer(p) => AddKeepsInvariant(s, p);
    case Announce(p, c) => AnnounceKeepsInvariant(s, p, c);
    case Deliver(p, c) => DeliverKeepsInvariant(s, p, c);
    case BeginStop(p) => BeginStopKeepsInvariant(s, p);
    case PopAlternate(c) => PopKeepsInvariant(s, c);
    case RecordAlternate => RecordKeepsInvariant(s);
    case EndStop => EndStopKeepsInvariant(s);
    case Reap(p) => ReapKeepsInvariant(s, p);
  }

  lemma {:induction false} RunsKeepInvariant(events: seq<Event>)
    requires Legal(events) && NoneReAdded(events)
    ensures Invariant(Exec(events))
  {
    if events == [] {
      assert forall p :: INITIAL.books.Outstanding(p) == {};
    } else {
      RunsKeepInvariant(events[..|events| - 1]);
      FireKeepsInvariant(Exec(events[..|events| - 1]), events[|events| - 1]);
    }
  }

  // ---------------------------------------------------------------- what every run satisfies

  /**
   * In every reachable state, also in the middle of a reassignment: no chunk is outstanding at
   * two live peers, what is outstanding has an alternate-list, no peer is an alternate for what
   * it has requested, and no list names a peer twice or an unknown one.
   */
  lemma SafeInEveryRun(events: seq<Event>)
    requires Legal(events) && NoneReAdded(events)
    ensures SoleHolder(Exec(events).books, Exec(events).Live())
    ensures Tracked(Exec(events).books, Exec(events).Live())
    ensures Sound(Exec(events).books)
  {
    RunsKeepInvariant(events);
    HeldMeansTracked(Exec(events));
  }

  /**
   * No operation throws for a peer that is running: neither an announcement, nor a delivery, nor
   * the look-up behind a stop.
   */
  lemma NeverThrows(events: seq<Event>, p: Peer, c: ChunkId)
    requires Legal(events) && NoneReAdded(events)
    ensures Enabled(Exec(events), Announce(p, c)) ==> ShouldRequest(Exec(events).books, p, c).Success?
    ensures Enabled(Exec(events), Deliver(p, c)) ==> Received(Exec(events).books, p, c).Success?
    ensures Enabled(Exec(events), BeginStop(p)) ==> GetRequested(Exec(events).books, p).Success?
  {
    RunsKeepInvariant(events);
    if Enabled(Exec(events), Announce(p, c)) {
      AnnounceKeepsInvariant(Exec(events), p, c);
    }
  }

  // ---------------------------------------------------------------- the books as history

  /** A peer that announces a chunk is told to request it. */
  predicate IsTold(s: State, p: Peer, c: ChunkId) {
    var answer := ShouldRequest(s.books, p, c);
    answer.Success? && answer.value.1
  }

  /**
   * What each peer is responsible for: the chunks that it was told to request or took over, less those
   * that it has delivered, until its stop has been handled.
   */
  ghost function Owed(events: seq<Event>): set<(Peer, ChunkId)>
    requires Legal(events)
    decreases |events|
  {
    if events == [] then {}
    else
      var prefix, last := events[..|events| - 1], events[|events| - 1];
      var s := Exec(prefix);
      match last
      case Announce(p, c) => Owed(prefix) + if IsTold(s, p, c) then {(p, c)} else {}
      case Deliver(p, c) => Owed(prefix) - {(p, c)}
      case RecordAlternate => Owed(prefix) + {s.stop.popped.value}
      case EndStop => set o | o in Owed(prefix) && o.0 != s.stop.peer
      case _ => Owed(prefix)
  }

  /** The peers that have announced a chunk, in order, and neither were told to request it nor stopped. */
  ghost function Queue(events: seq<Event>, c: ChunkId): seq<Peer>
    requires Legal(events)
    decreases |events|
  {
    if events == [] then []
    else
      var prefix, last := events[..|events| - 1], events[|events| - 1];
      var queue := Queue(prefix, c);
      match last
      case Announce(p, d) => if d == c && !IsTold(Exec(prefix), p, d) then queue + [p] else queue
      case Deliver(p, d) => if d == c && (p, d) in Owed(prefix) then [] else queue
      case PopAlternate(d) => if d == c && queue != [] then queue[1..] else queue
      case EndStop => Without(queue, Exec(prefix).stop.peer)
      case _ => queue
  }

  /** How many chunks that it owed a peer has delivered since a peer was last added or had stopped. */
  ghost function DeliveredSince(events: seq<Event>, p: Peer): nat
    requires Legal(events)
    decreases |events|
  {
    if events == [] then 0
    else
      var prefix, last := events[..|events| - 1], events[|events| - 1];
      match last
      case AddPeer(q) => if q in Exec(prefix).threads then DeliveredSince(prefix, p) else 0
      case EndStop => 0
      case Deliver(q, c) => DeliveredSince(prefix, p) + if q == p && (q, c) in Owed(prefix) then 1 else 0
      case _ => DeliveredSince(prefix, p)
  }

  lemma OutstandingAfter(s: State, e: Event, p: Peer)
    requires Invariant(s) && Enabled(s, e) && (e.AddPeer? ==> e.peer !in s.running)
    ensures Fire(s, e).books.Outstanding(p) ==
            match e
            case Announce(q, c) => s.books.Outstanding(p) + if q == p && IsTold(s, q, c) then {c} else {}
            case Deliver(q, c) => s.books.Outstanding(p) - if q == p then {c} else {}
            case RecordAlternate =>
              s.books.Outstanding(p) + if s.stop.popped.value.0 == p then {s.stop.popped.value.1} else {}
            case EndStop => if p == s.stop.peer then {} else s.books.Outstanding(p)
            case _ => s.books.Outstanding(p)
  {
    hide Announced, Conserved, SoleHolder, Sound, Erase, Reset, ShouldRequest, Received, Added;
    match e
    case AddPeer(q) => AdditionStartsAnew(s.books, s.threads, q);
    case Announce(q, c) => AnnouncementIsAnswered(s.books, q, c);
    case Deliver(q, c) => ReceiptIsCounted(s.books, q, c);
    case EndStop =>
      ErasedEverywhere(s.books, s.stop.peer);
      ResetKeeps(Erase(s.books, s.stop.peer));
    case _ =>
  }

  lemma AlternatesAfter(s: State, e: Event, c: ChunkId)
    requires Invariant(s) && Enabled(s, e) && (e.AddPeer? ==> e.peer !in s.running)
    ensures Fire(s, e).books.Alternates(c) ==
            match e
            case Announce(q, d) =>
              if d == c && !IsTold(s, q, d) then s.books.Alternates(c) + [q] else s.books.Alternates(c)
            case Deliver(q, d) =>
              if d == c && d in s.books.Outstanding(q) then [] else s.books.Alternates(c)
            case PopAlternate(d) =>
              if d == c && s.books.Alternates(c) != [] then s.books.Alternates(c)[1..] else s.books.Alternates(c)
            case EndStop => Without(s.books.Alternates(c), s.stop.peer)
            case _ => s.books.Alternates(c)
  {
    hide Announced, Conserved, SoleHolder, Erase, Reset, ShouldRequest, Received, Added;
    match e
    case AddPeer(q) =>
      AdditionStartsAnew(s.books, s.threads, q);
      assert q !in s.books.Alternates(c);
      WithoutAbsent(s.books.Alternates(c), q);
    case Announce(q, d) =>
      AnnouncementIsAnswered(s.books, q, d);
      AnnounceKeepsInvariant(s, q, d);
    case Deliver(q, d) => ReceiptIsCounted(s.books, q, d);
    case EndStop =>
      ErasedEverywhere(s.books, s.stop.peer);
      ResetKeeps(Erase(s.books, s.stop.peer));
    case _ =>
  }

  lemma CountAfter(s: State, e: Event, p: Peer)
    requires Invariant(s) && Enabled(s, e) && (e.AddPeer? ==> e.peer !in s.running)
    ensures CountOf(Fire(s, e).books, p) ==
            match e
            case AddPeer(q) => if q in s.threads then CountOf(s.books, p) else 0
            case Deliver(q, c) => CountOf(s.books, p) + if q == p && c in s.books.Outstanding(q) then 1 else 0
            case EndStop => 0
            case _ => CountOf(s.books, p)
  {
    hide Announced, Conserved, SoleHolder, Sound, Erase, Reset, ShouldRequest, Received, Added;
    match e
    case AddPeer(q) => AdditionStartsAnew(s.books, s.threads, q);
    case Announce(q, c) => AnnouncementIsAnswered(s.books, q, c);
    case Deliver(q, c) => ReceiptIsCounted(s.books, q, c);
    case EndStop => ResetKeeps(Erase(s.books, s.stop.peer));
    case _ =>
  }

  /**
   * In every run in which no running peer is added again, the books are what the events add up to. A
   * chunk is outstanding at a peer exactly if the peer was told to request it, or took it over, and
   * hasn't delivered it; the alternates are those who announced it and weren't told, in that order;
   * and the counts are those of the deliveries since a peer last came or went.
   */
  lemma {:induction false} BooksAreHistory(events: seq<Event>)
    requires Legal(events) && NoneReAdded(events)
    ensures forall p: Peer, c :: c in Exec(events).books.Outstanding(p) <==> (p, c) in Owed(events)
    ensures forall c :: Exec(events).books.Alternates(c) == Queue(events, c)
    ensures forall p: Peer :: CountOf(Exec(events).books, p) == DeliveredSince(events, p)
  {
    hide Fire, IsTold, Without, Invariant;
    if events == [] {
    } else {
      var prefix, last := events[..|events| - 1], events[|events| - 1];
      RunsKeepInvariant(prefix);
      BooksAreHistory(prefix);
      forall p: Peer
        ensures CountOf(Exec(events).books, p) == DeliveredSince(events, p)
        ensures forall c :: c in Exec(events).books.Outstanding(p) <==> (p, c) in Owed(events)
      {
        CountAfter(Exec(prefix), last, p);
        OutstandingAfter(Exec(prefix), last, p);
      }
      forall c
        ensures Exec(events).books.Alternates(c) == Queue(events, c)
      {
        AlternatesAfter(Exec(prefix), last, c);
      }
    }
  }

  /** Every running peer had an account at every moment of a run. */
  ghost predicate AccountsThroughout(events: seq<Event>)
    requires Legal(events)
    decreases |events|
  {
    Exec(events).running <= Exec(events).books.peerInfos.Keys &&
    (events != [] ==> AccountsThroughout(events[..|events| - 1]))
  }

  /** Running peers always have an account exactly in those runs in which none of them is added again. */
  lemma {:induction false} AccountsExactly(events: seq<Event>)
    requires Legal(events)
    ensures AccountsThroughout(events) <==> NoneReAdded(events)
  {
    if events == [] {
    } else {
      var prefix, last := events[..|events| - 1], events[|events| - 1];
      AccountsExactly(prefix);
      if NoneReAdded(prefix) {
        RunsKeepInvariant(prefix);
        if last.AddPeer? && last.peer in Exec(prefix).running {
          ReAddingBreaks(Exec(prefix), last.peer);
        } else {
          RunsKeepInvariant(events);
        }
      }
    }
  }

  /**
   * What happens when a running peer is added again: it goes on running, but it has no account, so
   * its deliveries, its announcements of what nobody has announced, and its stop throw.
   */
  lemma ReAddingBreaks(s: State, p: Peer)
    requires s.stop.Idle? && p in s.running && s.running <= s.threads
    ensures var s' := Fire(s, AddPeer(p));
            && p in s'.Live() && p !in s'.books.peerInfos
            && (forall c :: Received(s'.books, p, c) == Failure(OutOfRange))
            && (forall c :: c !in s'.books.altPeers ==> ShouldRequest(s'.books, p, c) == Failure(OutOfRange))
            && GetRequested(s'.books, p) == Failure(OutOfRange)
  {
  }

  /**
   * The alternate that takes over is a known peer, isn't the stopping one, and doesn't have the
   * chunk outstanding already -- neither when it is popped nor when it is recorded.
   */
  lemma TakeoverIsSound(events: seq<Event>)
    requires Legal(events) && NoneReAdded(events) && Exec(events).stop.Reassigning? && Exec(events).stop.popped.Some?
    ensures var s := Exec(events);
            var (p, c) := s.stop.popped.value;
            && p != s.stop.peer && p in s.books.peerInfos
            && c !in s.books.Outstanding(p) && c in s.books.Outstanding(s.stop.peer)
  {
    RunsKeepInvariant(events);
    var s := Exec(events);
    var (p, c) := s.stop.popped.value;
    assert c in s.stop.Pending();
    assert !LiveHolds(s, c);
  }

  /** Between stops, the keys of the alternate-map are the live peers' chunks and, disjointly, the dropped ones. */
  lemma KeysAreHeldOrDropped(events: seq<Event>)
    requires Legal(events) && NoneReAdded(events) && Exec(events).stop.Idle?
    ensures var s := Exec(events);
            && (forall c :: c in s.books.altPeers <==>
                  c in s.dropped || exists p :: p in s.books.peerInfos && c in s.books.peerInfos[p].reqChunks)
            && (forall p, c :: p in s.books.peerInfos && c in s.books.peerInfos[p].reqChunks ==> c !in s.dropped)
  {
    RunsKeepInvariant(events);
    var s := Exec(events);
    assert s.Live() == s.books.peerInfos.Keys;
    forall c
      ensures LiveHolds(s, c) <==> exists p :: p in s.books.peerInfos && c in s.books.peerInfos[p].reqChunks
    {
      if LiveHolds(s, c) {
        var p :| p in s.Live() && c in s.books.Outstanding(p);
        assert p in s.books.peerInfos && c in s.books.peerInfos[p].reqChunks;
      }
      if p :| p in s.books.peerInfos && c in s.books.peerInfos[p].reqChunks {
        assert p in s.Live() && c in s.books.Outstanding(p);
      }
    }
    forall p, c | p in s.books.peerInfos && c in s.books.peerInfos[p].reqChunks
      ensures c !in s.dropped
    {
      assert p in s.Live() && c in s.books.Outstanding(p);
      assert LiveHolds(s, c);
    }
  }

  /** A dropped chunk is never requested again: it stays dropped, and announcements only queue. */
  lemma DroppedForever(events: seq<Event>, e: Event, c: ChunkId)
    requires Legal(events) && NoneReAdded(events) && c in Exec(events).dropped && Enabled(Exec(events), e)
    requires e.AddPeer? ==> e.peer !in Exec(events).running
    ensures c in Fire(Exec(events), e).dropped && c in Fire(Exec(events), e).books.altPeers
    ensures e.Announce? && e.chunkId == c ==> 
              (var r := ShouldRequest(Exec(events).books, e.peer, c); r.Success? && !r.value.1)
  {
    RunsKeepInvariant(events);
    FireKeepsInvariant(Exec(events), e);
    if e.Announce? {
      AnnounceKeepsInvariant(Exec(events), e.peer, e.chunkId);
    }
  }
}
