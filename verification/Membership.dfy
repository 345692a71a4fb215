/**
 * Every run of the peer-to-peer manager's membership: the threads that connect, accept, execute
 * and reap peers, interleaved under the locks of the manager and of the peer-set.
 */
module Membership {
  import opened Wrappers
  import opened DelayQueues
  import opened PeerLists
  import opened PeerSets

  datatype Role = Publisher | Subscriber

  /**
   * A peer's `execute()`: its run; then it's queued for the reaper; then the manager has handled
   * the stop, and the thread ends.
   */
  datatype Phase = Running | Returned | Finished

  datatype Record = Record(addr: SockAddr, fromConnect: bool, phase: Phase)

  /** A peer that the manager has decided to add, and the number of peers that it counted then. */
  datatype Adding = Adding(peer: Peer, addr: SockAddr, fromConnect: bool, numPeers: int)

  /**
   * `destroying` is set by the peer-set's destructor, `done` by `halt()`, and `failed` by an error
   * that ends the connect-loop.
   */
  datatype State = State(
    role: Role,
    maxPeers: nat,
    peerSet: Peers,
    records: map<Peer, Record>,
    destroying: bool,
    done: bool,
    failed: bool,
    adding: Option<Adding>,
    queue: multiset<Element>,
    held: Option<SockAddr>,
    everAdded: set<Peer>)

  function Initial(role: Role, maxPeers: nat, servers: set<SockAddr>): State {
    State(role, maxPeers, Peers({}, []), map[], false, false, false, None, Initially(servers, 0), None, {})
  }

  /** `maybeAdd()`: at the limit, a publisher accepts the peer but doesn't add it, and a subscriber may replace one. */
  datatype Verdict = Add | Accept | Reject

  function MaybeAdd(role: Role, numPeers: int, maxPeers: nat, mayReplace: bool): Verdict {
    if numPeers < maxPeers then Add
    else if numPeers > maxPeers then Reject
    else
      match role
      case Publisher => Accept
      case Subscriber => if mayReplace then Add else Reject
  }

  datatype Event =
    | PopServer(now: Time, e: Element)
    | ConnectFails(now: Time, delay: nat)
    | ConnectIsFatal
    | Offer(peer: Peer, addr: SockAddr, fromConnect: bool, mayReplace: bool, now: Time, delay: nat)
    | FinishAdd
    | PeerReturns(peer: Peer)
    | HandleStop(peer: Peer, now: Time, delay: nat)
    | ReapPeer
    | Halt
    | Destroy

  /**
   * `Offer` and `HandleStop` need the manager's lock, which is held while a peer is being added.
   * A peer object is offered once. Only a subscriber connects, and the remote address of the peer
   * that results is the server's. The reaper's join returns when the thread has ended.
   */
  predicate Enabled(s: State, e: Event) {
    match e
    case PopServer(now, top) =>
      s.role.Subscriber? && !s.failed && s.held.None? && IsTop(s.queue, top) && top.when <= now
    case ConnectFails(_, _) => s.held.Some? && !(s.adding.Some? && s.adding.value.fromConnect)
    case ConnectIsFatal => s.held.Some? && !(s.adding.Some? && s.adding.value.fromConnect)
    case Offer(p, addr, fromConnect, _, _, _) =>
      s.adding.None? && !s.destroying && p !in s.everAdded && (fromConnect ==> s.held == Some(addr))
    case FinishAdd => s.adding.Some?
    case PeerReturns(p) => p in s.records && s.records[p].phase.Running?
    case HandleStop(p, _, _) => s.adding.None? && p in s.records && s.records[p].phase.Returned?
    case ReapPeer =>
      s.peerSet.inactivePeers != [] && s.peerSet.inactivePeers[0] in s.records &&
      s.records[s.peerSet.inactivePeers[0]].phase.Finished?
    case Halt => s.adding.None?
    case Destroy => s.adding.None?
  }

  function Fire(s: State, e: Event): State
    requires Enabled(s, e)
  {
    match e
    case PopServer(_, top) => s.(queue := s.queue - multiset{top}, held := Some(top.value))
    case ConnectFails(now, delay) => s.(queue := s.queue + multiset{Element(s.held.value, now + delay)}, held := None)
    case ConnectIsFatal => s.(held := None, failed := true)
    case Offer(p, addr, fromConnect, mayReplace, now, delay) =>
      (match MaybeAdd(s.role, s.peerSet.Size(), s.maxPeers, mayReplace)
       case Add => s.(adding := Some(Adding(p, addr, fromConnect, s.peerSet.Size())), everAdded := s.everAdded + {p})
       case Accept => s.(everAdded := s.everAdded + {p})
       case Reject =>
         var s' := s.(everAdded := s.everAdded + {p}, held := if fromConnect then None else s.held);
         if s.role.Publisher? then s' else s'.(queue := s.queue + multiset{Element(addr, now + delay)}))
    case FinishAdd =>
      var Adding(p, addr, fromConnect, _) := s.adding.value;
      (match Activate(s.peerSet, p)
       case Failure(_) => s.(adding := None)
       case Success(peerSet) =>
         s.(peerSet := peerSet, records := s.records[p := Record(addr, fromConnect, Running)], adding := None,
            held := if fromConnect then None else s.held))
    case PeerReturns(p) =>
      s.(peerSet := Deactivate(s.peerSet, p), records := s.records[p := s.records[p].(phase := Returned)])
    case HandleStop(p, now, delay) =>
      var r := s.records[p];
      s.(records := s.records[p := r.(phase := Finished)],
         queue := if s.done || s.role.Publisher? || !r.fromConnect then s.queue
                  else s.queue + multiset{Element(r.addr, now + delay)})
    case ReapPeer =>
      s.(peerSet := Reap(s.peerSet), records := s.records - {s.peerSet.inactivePeers[0]})
    case Halt => s.(done := true)
    case Destroy => s.(destroying := true)
  }

  ghost predicate Legal(start: State, events: seq<Event>)
    decreases |events|, 0
  {
    events == [] ||
    (Legal(start, events[..|events| - 1]) && Enabled(Exec(start, events[..|events| - 1]), events[|events| - 1]))
  }

  ghost function Exec(start: State, events: seq<Event>): State
    requires Legal(start, events)
    decreases |events|, 1
  {
    if events == [] then start else Fire(Exec(start, events[..|events| - 1]), events[|events| - 1])
  }

  // ---------------------------------------------------------------- membership

  /** The peers that wait for the reaper are exactly those that have a thread and have returned. */
  ghost predicate Consistent(s: State) {
    && s.records.Keys == s.peerSet.threads
    && Reapable(s.peerSet)
    && (forall p :: p in s.records ==> (p in s.peerSet.inactivePeers <==> !s.records[p].phase.Running?))
    && s.records.Keys <= s.everAdded
    && (s.adding.Some? ==> s.adding.value.peer !in s.records && s.adding.value.peer in s.everAdded)
    && (s.destroying ==> s.adding.None?)
  }

  function Limit(s: State): int {
    s.maxPeers + if s.role.Subscriber? then 1 else 0
  }

  /** The number of peers hasn't grown since the manager counted them. */
  ghost predicate Bounded(s: State) {
    && s.peerSet.Size() <= Limit(s)
    && (s.adding.Some? ==> s.peerSet.Size() <= s.adding.value.numPeers < Limit(s))
  }

  lemma FinishAddKeepsConsistency(s: State)
    requires Consistent(s) && Enabled(s, FinishAdd)
    ensures Consistent(Fire(s, FinishAdd))
  {
    var p := s.adding.value.peer;
    assert p !in s.peerSet.inactivePeers;
    assert Fire(s, FinishAdd).records.Keys == s.records.Keys + {p};
  }

  lemma PeerReturnsKeepsConsistency(s: State, p: Peer)
    requires Consistent(s) && Enabled(s, PeerReturns(p))
    ensures Consistent(Fire(s, PeerReturns(p)))
  {
    assert p !in s.peerSet.inactivePeers;
    assert Fire(s, PeerReturns(p)).records.Keys == s.records.Keys;
  }

  lemma ReapKeepsConsistency(s: State)
    requires Consistent(s) && Enabled(s, ReapPeer)
    ensures Consistent(Fire(s, ReapPeer))
  {
    var s' := Fire(s, ReapPeer);
    var first := s.peerSet.inactivePeers[0];
    assert forall p: Peer :: p in s'.peerSet.inactivePeers <==> p in s.peerSet.inactivePeers && p != first by {
      assert s.peerSet.inactivePeers == [first] + s'.peerSet.inactivePeers;
      assert first !in s'.peerSet.inactivePeers;
    }
    assert s'.records.Keys == s.records.Keys - {first};
  }

  lemma OfferKeepsConsistency(s: State, e: Event)
    requires Consistent(s) && Enabled(s, e) && e.Offer?
    ensures Consistent(Fire(s, e))
  {
    assert e.peer !in s.records.Keys;
  }

  lemma StaysConsistent(s: State, s': State)
    requires Consistent(s)
    requires s'.peerSet == s.peerSet && s'.records.Keys == s.records.Keys && s'.everAdded == s.everAdded
    requires s'.adding == s.adding && (s'.destroying ==> s.adding.None?)
    requires forall p :: p in s.records ==> (s'.records[p].phase.Running? <==> s.records[p].phase.Running?)
    ensures Consistent(s')
  {
    hide Reapable;
  }

  lemma NotDestroying(s: State)
    requires Consistent(s)
    ensures s.destroying ==> s.adding.None?
  {
  }

  lemma FireKeepsConsistency(s: State, e: Event)
    requires Consistent(s) && Enabled(s, e)
    ensures Consistent(Fire(s, e))
  {
    hide Consistent;
    match e
    case FinishAdd => FinishAddKeepsConsistency(s);
    case PeerReturns(p) => PeerReturnsKeepsConsistency(s, p);
    case ReapPeer => ReapKeepsConsistency(s);
    case Offer(_, _, _, _, _, _) => OfferKeepsConsistency(s, e);
    case PopServer(_, _) => NotDestroying(s); StaysConsistent(s, Fire(s, e));
    case ConnectFails(_, _) => NotDestroying(s); StaysConsistent(s, Fire(s, e));
    case ConnectIsFatal => NotDestroying(s); StaysConsistent(s, Fire(s, e));
    case HandleStop(p, _, _) => StaysConsistent(s, Fire(s, e));
    case Halt => StaysConsistent(s, Fire(s, e));
    case Destroy => StaysConsistent(s, Fire(s, e));
  }

  lemma OfferKeepsBound(s: State, e: Event)
    requires e.Offer? && Bounded(s) && Enabled(s, e)
    ensures Bounded(Fire(s, e))
  {
    assert Fire(s, e).peerSet == s.peerSet;
  }

  lemma FinishAddKeepsBound(s: State)
    requires Consistent(s) && Bounded(s) && Enabled(s, FinishAdd)
    ensures Bounded(Fire(s, FinishAdd))
  {
    hide Consistent;
  }

  lemma ReapKeepsSize(s: State)
    requires Consistent(s) && Enabled(s, ReapPeer)
    ensures Reap(s.peerSet).Size() == s.peerSet.Size()
  {
    assert s.peerSet.inactivePeers[0] in s.peerSet.inactivePeers;
  }

  lemma FireKeepsBound(s: State, e: Event)
    requires Consistent(s) && Bounded(s) && Enabled(s, e)
    ensures Bounded(Fire(s, e))
  {
    hide Enabled, Consistent;
    match e
    case Offer(_, _, _, _, _, _) => OfferKeepsBound(s, e);
    case FinishAdd => FinishAddKeepsBound(s);
    case ReapPeer => ReapKeepsSize(s);
    case _ =>
  }

  lemma FireKeepsLimits(s: State, e: Event)
    requires Enabled(s, e)
    ensures Fire(s, e).role == s.role && Fire(s, e).maxPeers == s.maxPeers
  {
  }

  lemma SizeFits(s: State)
    requires Consistent(s) && Bounded(s)
    ensures 0 <= s.peerSet.Size() <= Limit(s)
  {
    DistinctFit(s.peerSet.inactivePeers, s.peerSet.threads);
  }

  /**
   * In every run: the reaper's lookup doesn't fail, the size doesn't underflow, and a publisher
   * has at most the maximum number of active peers and a subscriber at most one more.
   */
  lemma {:induction false} MembershipIsSafe(role: Role, maxPeers: nat, servers: set<SockAddr>, events: seq<Event>)
    requires Legal(Initial(role, maxPeers, servers), events)
    ensures var s := Exec(Initial(role, maxPeers, servers), events);
            && Consistent(s) && Bounded(s)
            && 0 <= s.peerSet.Size() <= Limit(s)
            && s.role == role && s.maxPeers == maxPeers
  {
    var start := Initial(role, maxPeers, servers);
    if events == [] {
    } else {
      hide Enabled, Consistent, Bounded;
      var prefix, last := events[..|events| - 1], events[|events| - 1];
      MembershipIsSafe(role, maxPeers, servers, prefix);
      FireKeepsConsistency(Exec(start, prefix), last);
      FireKeepsBound(Exec(start, prefix), last);
      FireKeepsLimits(Exec(start, prefix), last);
      hide Fire;
      SizeFits(Exec(start, events));
    }
  }

  // ---------------------------------------------------------------- the reaper ends

  function InPhases(records: map<Peer, Record>, running: bool): set<Peer> {
    set p | p in records && (records[p].phase.Running? || (!running && records[p].phase.Returned?))
  }

  /** How many steps the peers' threads and the reaper have still to take. */
  function StepsLeft(s: State): nat {
    |s.records| + |InPhases(s.records, false)| + |InPhases(s.records, true)|
  }

  predicate IsWork(e: Event) {
    e.PeerReturns? || e.HandleStop? || e.ReapPeer?
  }

  predicate ReaperHasEnded(s: State) {
    !ReaperGoesOn(s.destroying, s.peerSet)
  }

  lemma ReturnGetsLess(s: State, p: Peer)
    requires Enabled(s, PeerReturns(p))
    ensures StepsLeft(Fire(s, PeerReturns(p))) == StepsLeft(s) - 1
  {
    var records := Fire(s, PeerReturns(p)).records;
    assert InPhases(records, false) == InPhases(s.records, false);
    assert InPhases(records, true) == InPhases(s.records, true) - {p};
    assert records.Keys == s.records.Keys;
    assert |records| == |records.Keys| && |s.records| == |s.records.Keys|;
  }

  lemma StopGetsLess(s: State, p: Peer, now: Time, delay: nat)
    requires Enabled(s, HandleStop(p, now, delay))
    ensures StepsLeft(Fire(s, HandleStop(p, now, delay))) == StepsLeft(s) - 1
  {
    var records := Fire(s, HandleStop(p, now, delay)).records;
    assert InPhases(records, false) == InPhases(s.records, false) - {p};
    assert InPhases(records, true) == InPhases(s.records, true);
    assert records.Keys == s.records.Keys;
    assert |records| == |records.Keys| && |s.records| == |s.records.Keys|;
  }

  lemma ReapGetsLess(s: State)
    requires Enabled(s, ReapPeer)
    ensures StepsLeft(Fire(s, ReapPeer)) == StepsLeft(s) - 1
  {
    var records := Fire(s, ReapPeer).records;
    assert InPhases(records, false) == InPhases(s.records, false);
    assert InPhases(records, true) == InPhases(s.records, true);
    assert records.Keys == s.records.Keys - {s.peerSet.inactivePeers[0]};
    assert |records| == |records.Keys| && |s.records| == |s.records.Keys|;
  }

  lemma WorkGetsLess(s: State, e: Event)
    requires Consistent(s) && Enabled(s, e) && s.destroying
    ensures Fire(s, e).destroying
    ensures StepsLeft(Fire(s, e)) == StepsLeft(s) - if IsWork(e) then 1 else 0
  {
    match e
    case PeerReturns(p) => ReturnGetsLess(s, p);
    case HandleStop(p, now, delay) => StopGetsLess(s, p, now, delay);
    case ReapPeer => ReapGetsLess(s);
    case _ =>
      hide InPhases;
  }

  function WorkIn(events: seq<Event>): nat {
    if events == [] then 0 else WorkIn(events[..|events| - 1]) + if IsWork(events[|events| - 1]) then 1 else 0
  }

  lemma {:induction false} WorkUsesUpSteps(role: Role, maxPeers: nat, servers: set<SockAddr>,
                                           events: seq<Event>, more: seq<Event>)
    requires var start := Initial(role, maxPeers, servers);
             Legal(start, events + more) && Legal(start, events) && Exec(start, events).destroying
    ensures var start := Initial(role, maxPeers, servers);
            && Exec(start, events + more).destroying
            && StepsLeft(Exec(start, events + more)) == StepsLeft(Exec(start, events)) - WorkIn(more)
    decreases |more|
  {
    hide StepsLeft, Consistent, Bounded, Fire, Enabled, Initial, IsWork;
    if more == [] {
      assert events + more == events;
    } else {
      var start := Initial(role, maxPeers, servers);
      var front, last := more[..|more| - 1], more[|more| - 1];
      assert (events + more)[..|events + more| - 1] == events + front;
      WorkUsesUpSteps(role, maxPeers, servers, events, front);
      MembershipIsSafe(role, maxPeers, servers, events + front);
      WorkGetsLess(Exec(start, events + front), last);
    }
  }

  /**
   * However a run goes on once the set is being destroyed, the peers' threads and the reaper take
   * at most as many steps as were left, and exactly as many if and only if the reaper's loop has
   * ended, with both collections empty. Until then, one of them can take a step. The runs of all
   * peers are taken to return normally.
   */
  lemma ReaperEnds(role: Role, maxPeers: nat, servers: set<SockAddr>, events: seq<Event>, more: seq<Event>)
    requires Legal(Initial(role, maxPeers, servers), events + more) && Legal(Initial(role, maxPeers, servers), events)
    requires Exec(Initial(role, maxPeers, servers), events).destroying
    ensures var before := Exec(Initial(role, maxPeers, servers), events);
            var s := Exec(Initial(role, maxPeers, servers), events + more);
            && WorkIn(more) <= StepsLeft(before)
            && (WorkIn(more) == StepsLeft(before) <==> ReaperHasEnded(s))
            && (ReaperHasEnded(s) ==> s.peerSet == Peers({}, []))
            && (ReaperHasEnded(s) || exists e :: Enabled(s, e) && IsWork(e))
  {
    var start := Initial(role, maxPeers, servers);
    WorkUsesUpSteps(role, maxPeers, servers, events, more);
    MembershipIsSafe(role, maxPeers, servers, events + more);
    hide StepsLeft, Consistent, Enabled;
    SomeoneCanWork(Exec(start, events + more));
  }

  lemma SomeoneCanWork(s: State)
    requires Consistent(s) && s.destroying
    ensures ReaperHasEnded(s) <==> StepsLeft(s) == 0
    ensures ReaperHasEnded(s) || exists e :: Enabled(s, e) && IsWork(e)
  {
    if p :| p in s.records && s.records[p].phase.Running? {
      assert Enabled(s, PeerReturns(p)) && IsWork(PeerReturns(p));
      assert s.records != map[];
    } else if p :| p in s.records && s.records[p].phase.Returned? {
      assert Enabled(s, HandleStop(p, 0, 0)) && IsWork(HandleStop(p, 0, 0));
      assert s.records != map[];
    } else if s.peerSet.inactivePeers != [] {
      var first := s.peerSet.inactivePeers[0];
      assert first in s.peerSet.inactivePeers && first in s.records;
      assert Enabled(s, ReapPeer) && IsWork(ReapPeer);
      assert s.records != map[];
    } else {
      assert forall p :: p in s.records ==> p in s.peerSet.inactivePeers;
      assert s.records.Keys == {};
      assert s.records == map[];
      assert InPhases(s.records, false) == {} && InPhases(s.records, true) == {};
    }
  }

  // ---------------------------------------------------------------- server addresses

  ghost predicate InQueue(s: State, a: SockAddr) {
    exists when :: Element(a, when) in s.queue
  }

  /** The remote address of a connected peer that isn't reaped and whose stop hasn't been handled. */
  ghost predicate Connected(s: State, a: SockAddr) {
    exists p :: p in s.records && s.records[p].fromConnect && s.records[p].addr == a && !s.records[p].phase.Finished?
  }

  ghost predicate Somewhere(s: State, a: SockAddr) {
    InQueue(s, a) || s.held == Some(a) || Connected(s, a)
  }

  /** What's being added by the connect-loop is still held by it. */
  ghost predicate HeldWhileAdding(s: State) {
    s.adding.Some? && s.adding.value.fromConnect ==> s.held == Some(s.adding.value.addr)
  }

  lemma QueueGrows(s: State, s': State, a: SockAddr)
    requires s.queue <= s'.queue
    ensures InQueue(s, a) ==> InQueue(s', a)
  {
    if InQueue(s, a) {
      var when :| Element(a, when) in s.queue;
      assert Element(a, when) in s'.queue;
    }
  }

  /** A step that keeps the records of peers that are still connected keeps them connected. */
  lemma StaysConnected(s: State, s': State, a: SockAddr)
    requires Connected(s, a)
    requires forall p :: p in s.records && !s.records[p].phase.Finished? ==>
                           p in s'.records && s'.records[p].addr == s.records[p].addr &&
                           s'.records[p].fromConnect == s.records[p].fromConnect && !s'.records[p].phase.Finished?
    ensures Connected(s', a)
  {
    var p :| p in s.records && s.records[p].fromConnect && s.records[p].addr == a && !s.records[p].phase.Finished?;
    assert s'.records[p].fromConnect && s'.records[p].addr == a;
  }

  lemma PopKeepsAddress(s: State, now: Time, top: Element, a: SockAddr)
    requires Enabled(s, PopServer(now, top)) && Somewhere(s, a)
    ensures Somewhere(Fire(s, PopServer(now, top)), a)
  {
    var s' := Fire(s, PopServer(now, top));
    if Connected(s, a) {
      StaysConnected(s, s', a);
    } else if top.value != a {
      var when :| Element(a, when) in s.queue;
      assert Element(a, when) in s'.queue;
    }
  }

  lemma FinishAddKeepsAddress(s: State, a: SockAddr)
    requires Consistent(s) && HeldWhileAdding(s) && Enabled(s, FinishAdd) && Somewhere(s, a)
    ensures Somewhere(Fire(s, FinishAdd), a)
  {
    var s' := Fire(s, FinishAdd);
    var p := s.adding.value.peer;
    QueueGrows(s, s', a);
    if Connected(s, a) {
      StaysConnected(s, s', a);
    } else if s.held == Some(a) && s'.held != s.held {
      assert p in s'.records && s'.records[p].fromConnect && s'.records[p].addr == a;
    }
  }

  lemma StopKeepsAddress(s: State, p: Peer, now: Time, delay: nat, a: SockAddr)
    requires Enabled(s, HandleStop(p, now, delay)) && s.role.Subscriber? && !s.done && Somewhere(s, a)
    ensures Somewhere(Fire(s, HandleStop(p, now, delay)), a)
  {
    var s' := Fire(s, HandleStop(p, now, delay));
    QueueGrows(s, s', a);
    if Connected(s, a) {
      var q :| q in s.records && s.records[q].fromConnect && s.records[q].addr == a && !s.records[q].phase.Finished?;
      if q == p {
        assert Element(a, now + delay) in s'.queue;
      } else {
        assert q in s'.records && s'.records[q] == s.records[q];
      }
    }
  }

  lemma ReapKeepsAddress(s: State, a: SockAddr)
    requires Enabled(s, ReapPeer) && Somewhere(s, a)
    ensures Somewhere(Fire(s, ReapPeer), a)
  {
    var s' := Fire(s, ReapPeer);
    QueueGrows(s, s', a);
    if Connected(s, a) {
      StaysConnected(s, s', a);
    }
  }

  lemma OfferOrFailureKeepsAddress(s: State, e: Event, a: SockAddr)
    requires e.Offer? || e.ConnectFails?
    requires Enabled(s, e) && s.role.Subscriber? && Somewhere(s, a)
    ensures Somewhere(Fire(s, e), a)
  {
    var s' := Fire(s, e);
    QueueGrows(s, s', a);
    if Connected(s, a) {
      StaysConnected(s, s', a);
    } else if s.held == Some(a) && s'.held != s.held {
      assert Element(a, e.now + e.delay) in s'.queue;
    }
  }

  lemma ReturnKeepsAddress(s: State, p: Peer, a: SockAddr)
    requires Enabled(s, PeerReturns(p)) && Somewhere(s, a)
    ensures Somewhere(Fire(s, PeerReturns(p)), a)
  {
    var s' := Fire(s, PeerReturns(p));
    QueueGrows(s, s', a);
    if Connected(s, a) {
      StaysConnected(s, s', a);
    }
  }

  lemma FireKeepsAddress(s: State, e: Event, a: SockAddr)
    requires Consistent(s) && HeldWhileAdding(s) && Enabled(s, e)
    requires s.role.Subscriber? && !s.done && !s.failed && Somewhere(s, a)
    ensures Fire(s, e).failed || Somewhere(Fire(s, e), a)
  {
    match e
    case PopServer(now, top) => PopKeepsAddress(s, now, top, a);
    case FinishAdd => FinishAddKeepsAddress(s, a);
    case PeerReturns(p) => ReturnKeepsAddress(s, p, a);
    case HandleStop(p, now, delay) => StopKeepsAddress(s, p, now, delay, a);
    case ReapPeer => ReapKeepsAddress(s, a);
    case Offer(_, _, _, _, _, _) => OfferOrFailureKeepsAddress(s, e, a);
    case ConnectFails(_, _) => OfferOrFailureKeepsAddress(s, e, a);
    case ConnectIsFatal =>
    case Halt =>
      assert InQueue(s, a) ==> InQueue(Fire(s, e), a);
      assert Connected(s, a) ==> Connected(Fire(s, e), a);
    case Destroy =>
      assert InQueue(s, a) ==> InQueue(Fire(s, e), a);
      assert Connected(s, a) ==> Connected(Fire(s, e), a);
  }

  lemma FireKeepsHeld(s: State, e: Event)
    requires HeldWhileAdding(s) && Enabled(s, e)
    ensures HeldWhileAdding(Fire(s, e))
  {
  }

  /**
   * Until the manager is halted or an error ends the connect-loop, no initial server address is
   * lost: in every run each one is in the delay-queue, held by the connect-loop, or the remote
   * address of a connected peer that isn't reaped.
   */
  lemma {:induction false} AddressesAreConserved(maxPeers: nat, servers: set<SockAddr>, events: seq<Event>, a: SockAddr)
    requires Legal(Initial(Subscriber, maxPeers, servers), events) && a in servers
    ensures var s := Exec(Initial(Subscriber, maxPeers, servers), events);
            HeldWhileAdding(s) && (!s.done && !s.failed ==> Somewhere(s, a))
  {
    var start := Initial(Subscriber, maxPeers, servers);
    if events == [] {
      assert Element(a, 0) in start.queue;
    } else {
      var prefix, last := events[..|events| - 1], events[|events| - 1];
      AddressesAreConserved(maxPeers, servers, prefix, a);
      MembershipIsSafe(Subscriber, maxPeers, servers, prefix);
      FireKeepsHeld(Exec(start, prefix), last);
      if !Exec(start, prefix).done && !Exec(start, prefix).failed {
        FireKeepsAddress(Exec(start, prefix), last, a);
      }
    }
  }

  // ---------------------------------------------------------------- order and delay

  /** The peers that have returned, in order. */
  function ReturnsOf(events: seq<Event>): seq<Peer> {
    if events == [] then []
    else
      ReturnsOf(events[..|events| - 1]) + ReturnsIn(events[|events| - 1])
  }

  /** The peers whose threads have been joined, in order. */
  ghost function ReapsOf(start: State, events: seq<Event>): seq<Peer>
    requires Legal(start, events)
    decreases |events|
  {
    if events == [] then []
    else
      var prefix, last := events[..|events| - 1], events[|events| - 1];
      ReapsOf(start, prefix) + ReapsIn(Exec(start, prefix), last)
  }

  /** The peer, if it's a single one, that has no thread any more. */
  ghost function Gone(before: set<Peer>, after: set<Peer>): seq<Peer> {
    if exists p :: before - after == {p} then
      var p :| before - after == {p};
      [p]
    else []
  }

  lemma GoneIsUnique(before: set<Peer>, p: Peer)
    requires p in before
    ensures Gone(before, before - {p}) == [p]
  {
    assert before - (before - {p}) == {p};
    assert forall q :: before - (before - {p}) == {q} ==> q in {p};
  }

  /** The peers that return, and those that are reaped, in a step. */
  function ReturnsIn(e: Event): seq<Peer> {
    if e.PeerReturns? then [e.peer] else []
  }

  ghost function ReapsIn(s: State, e: Event): seq<Peer>
    requires Enabled(s, e)
  {
    if e.ReapPeer? then Gone(s.peerSet.threads, Fire(s, e).peerSet.threads) else []
  }

  lemma ReapKeepsOrder(s: State)
    requires Consistent(s) && Enabled(s, ReapPeer)
    ensures ReapsIn(s, ReapPeer) + Fire(s, ReapPeer).peerSet.inactivePeers == s.peerSet.inactivePeers
  {
    var first := s.peerSet.inactivePeers[0];
    assert first in s.peerSet.inactivePeers;
    GoneIsUnique(s.peerSet.threads, first);
    hide Gone, Reapable;
  }

  lemma StepKeepsOrder(s: State, e: Event)
    requires Consistent(s) && Enabled(s, e)
    ensures ReapsIn(s, e) + Fire(s, e).peerSet.inactivePeers == s.peerSet.inactivePeers + ReturnsIn(e)
  {
    hide Consistent, Gone;
    if e.ReapPeer? {
      ReapKeepsOrder(s);
    }
  }

  /** In every run, peers are reaped in the order in which they returned. */
  lemma {:induction false} ReapedInOrder(role: Role, maxPeers: nat, servers: set<SockAddr>, events: seq<Event>)
    requires Legal(Initial(role, maxPeers, servers), events)
    ensures var start := Initial(role, maxPeers, servers);
            ReturnsOf(events) == ReapsOf(start, events) + Exec(start, events).peerSet.inactivePeers
  {
    hide Consistent, Bounded, Enabled, Fire, ReapsIn, ReturnsIn;
    var start := Initial(role, maxPeers, servers);
    if events == [] {
    } else {
      var prefix, last := events[..|events| - 1], events[|events| - 1];
      ReapedInOrder(role, maxPeers, servers, prefix);
      MembershipIsSafe(role, maxPeers, servers, prefix);
      StepKeepsOrder(Exec(start, prefix), last);
      var reaped, waiting := ReapsOf(start, prefix), Exec(start, prefix).peerSet.inactivePeers;
      assert reaped + waiting + ReturnsIn(last) == reaped + (waiting + ReturnsIn(last));
    }
  }

  /** An event that puts an address back, to be tried again when a delay has passed. */
  predicate PutsBack(e: Event, when: Time) {
    (e.ConnectFails? || e.Offer? || e.HandleStop?) && e.now + e.delay == when
  }

  /** In every run, each address in the queue was there at the start, or was put back a delay before it's due. */
  lemma {:induction false} NoneIsDueEarly(role: Role, maxPeers: nat, servers: set<SockAddr>, events: seq<Event>,
                                          element: Element)
    requires Legal(Initial(role, maxPeers, servers), events)
    requires element in Exec(Initial(role, maxPeers, servers), events).queue
    ensures (element.when == 0 && element.value in servers) || exists e :: e in events && PutsBack(e, element.when)
  {
    var start := Initial(role, maxPeers, servers);
    if events == [] {
      InitiallyOnce(servers, 0, element);
    } else {
      var prefix, last := events[..|events| - 1], events[|events| - 1];
      assert events == prefix + [last];
      QueueAfter(Exec(start, prefix), last, element);
      hide Fire, Enabled, PutsBack;
      if element in Exec(start, prefix).queue {
        NoneIsDueEarly(role, maxPeers, servers, prefix, element);
      }
    }
  }

  lemma QueueAfter(s: State, e: Event, element: Element)
    requires Enabled(s, e) && element in Fire(s, e).queue
    ensures element in s.queue || PutsBack(e, element.when)
  {
  }

  // ---------------------------------------------------------------- an offer and its outcome

  /** The step of offering a peer and, if the peer is to be added, the step that adds it. */
  function Offered(s: State, e: Event): State
    requires e.Offer? && Enabled(s, e)
  {
    if Fire(s, e).adding.Some? then Fire(Fire(s, e), FinishAdd) else Fire(s, e)
  }

  lemma OfferedIsNew(s: State, e: Event)
    requires Consistent(s) && e.Offer? && Enabled(s, e)
    ensures e.peer !in s.peerSet.threads
  {
    assert e.peer !in s.records.Keys;
  }

  /** An offer changes nothing else but what the connect-loop holds and, if the peer is rejected, the queue. */
  lemma OfferedRest(s: State, e: Event)
    requires Consistent(s) && e.Offer? && Enabled(s, e)
    ensures var s' := Offered(s, e);
            var rejected := MaybeAdd(s.role, s.peerSet.Size(), s.maxPeers, e.mayReplace) == Reject;
            && s'.role == s.role && s'.maxPeers == s.maxPeers && s'.done == s.done && s'.failed == s.failed
            && s'.queue == s.queue + if rejected && s.role.Subscriber? then multiset{Element(e.addr, e.now + e.delay)}
                                     else multiset{}
  {
    OfferedIsNew(s, e);
    hide Consistent;
  }

  lemma OfferedPeers(s: State, e: Event)
    requires Consistent(s) && e.Offer? && Enabled(s, e)
    ensures e.peer !in s.peerSet.threads
    ensures Offered(s, e).peerSet ==
              if MaybeAdd(s.role, s.peerSet.Size(), s.maxPeers, e.mayReplace) == Add
              then Peers(s.peerSet.threads + {e.peer}, s.peerSet.inactivePeers)
              else s.peerSet
  {
    OfferedIsNew(s, e);
    hide Consistent;
    var s' := Fire(s, e);
    assert s'.peerSet == s.peerSet;
    if MaybeAdd(s.role, s.peerSet.Size(), s.maxPeers, e.mayReplace) == Add {
      assert s'.adding.Some? && s'.adding.value.peer == e.peer;
    } else {
      assert s'.adding.None?;
    }
  }

  lemma AddedRecords(s: State)
    requires Enabled(s, FinishAdd) && s.adding.value.peer !in s.peerSet.threads
    ensures var Adding(p, addr, fromConnect, _) := s.adding.value;
            Fire(s, FinishAdd).records == s.records[p := Record(addr, fromConnect, Running)]
  {
  }

  lemma OfferedRecords(s: State, e: Event)
    requires Consistent(s) && e.Offer? && Enabled(s, e)
    ensures var s' := Offered(s, e);
            if MaybeAdd(s.role, s.peerSet.Size(), s.maxPeers, e.mayReplace) == Add
            then s'.records == s.records[e.peer := Record(e.addr, e.fromConnect, Running)]
            else s'.records == s.records
  {
    OfferedIsNew(s, e);
    hide Consistent, MaybeAdd, Reapable;
    var s' := Fire(s, e);
    assert s'.peerSet == s.peerSet && s'.records == s.records;
    if MaybeAdd(s.role, s.peerSet.Size(), s.maxPeers, e.mayReplace) == Add {
      assert s'.adding == Some(Adding(e.peer, e.addr, e.fromConnect, s.peerSet.Size()));
      AddedRecords(s');
    } else {
      assert s'.adding.None?;
    }
    hide Fire;
  }

  lemma OfferedHeld(s: State, e: Event)
    requires Consistent(s) && e.Offer? && Enabled(s, e)
    ensures s.role.Subscriber? ==> Offered(s, e).held == if e.fromConnect then None else s.held
  {
    OfferedIsNew(s, e);
    hide Consistent;
  }

  /** A peer fits if there's room, or if there's just none and a subscriber may replace a peer. */
  predicate IsRoom(s: State, mayReplace: bool) {
    s.peerSet.Size() < s.maxPeers || (s.peerSet.Size() == s.maxPeers && s.role.Subscriber? && mayReplace)
  }

  lemma RoomDecides(s: State, mayReplace: bool)
    ensures MaybeAdd(s.role, s.peerSet.Size(), s.maxPeers, mayReplace) == Add <==> IsRoom(s, mayReplace)
    ensures s.role.Subscriber? && !IsRoom(s, mayReplace) ==>
              MaybeAdd(s.role, s.peerSet.Size(), s.maxPeers, mayReplace) == Reject
  {
  }

  /**
   * What becomes of an offered peer. It's added exactly if there's room for it, and a subscriber that
   * doesn't add it considers its address again.
   */
  lemma OfferIsDecided(s: State, e: Event)
    requires Consistent(s) && e.Offer? && Enabled(s, e)
    ensures var s' := Offered(s, e);
            var added := IsRoom(s, e.mayReplace);
            && s'.peerSet == s.peerSet.(threads := s.peerSet.threads + if added then {e.peer} else {})
            && s'.records == (if added then s.records[e.peer := Record(e.addr, e.fromConnect, Running)] else s.records)
            && s'.queue == s.queue + (if added || s.role.Publisher? then multiset{}
                                      else multiset{Element(e.addr, e.now + e.delay)})
            && (s.role.Subscriber? ==> s'.held == if e.fromConnect then None else s.held)
  {
    OfferedPeers(s, e);
    OfferedRest(s, e);
    OfferedRecords(s, e);
    OfferedHeld(s, e);
    RoomDecides(s, e.mayReplace);
    hide Consistent, Enabled, Offered, MaybeAdd, IsRoom;
  }

  /** What an offer to a subscriber comes to. */
  lemma OfferedToSubscriber(s: State, e: Event, peerSet: Peers, queue: multiset<Element>)
    requires Consistent(s) && e.Offer? && Enabled(s, e) && s.role.Subscriber?
    requires var added := MaybeAdd(Subscriber, s.peerSet.Size(), s.maxPeers, e.mayReplace) == Add;
             && peerSet == (if added then Peers(s.peerSet.threads + {e.peer}, s.peerSet.inactivePeers) else s.peerSet)
             && queue == s.queue + if added then multiset{} else multiset{Element(e.addr, e.now + e.delay)}
    ensures var s' := Offered(s, e);
            && s'.role == s.role && s'.maxPeers == s.maxPeers && s'.done == s.done
            && s'.peerSet == peerSet && s'.queue == queue
  {
    OfferedPeers(s, e);
    OfferedRest(s, e);
    hide Consistent, Enabled, Offered;
  }
}
