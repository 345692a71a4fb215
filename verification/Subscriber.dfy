/**
 * A subscriber node that receives the same items over multicast and from peers. Handlers of
 * different arrivals run concurrently; only saving into the repository is atomic.
 */
module Subscription {
  import opened Wrappers
  import opened PeerLists
  import Bookkeeping

  type Item = Bookkeeping.ChunkId

  /** Where an item came from: multicast, or a peer. */
  type Source = Option<Peer>

  datatype Counters = Counters(udpOrig: nat, tcpOrig: nat, udpDup: nat, tcpDup: nat)
  {
    /** The new items, and all of them, that came over multicast or from peers. */
    function Originals(fromPeer: bool): nat { if fromPeer then tcpOrig else udpOrig }
    function All(fromPeer: bool): nat { if fromPeer then tcpOrig + tcpDup else udpOrig + udpDup }
  }

  function Count(c: Counters, source: Source, isNew: bool): Counters {
    match (source, isNew)
    case (None, true) => c.(udpOrig := c.udpOrig + 1)
    case (None, false) => c.(udpDup := c.udpDup + 1)
    case (Some(_), true) => c.(tcpOrig := c.tcpOrig + 1)
    case (Some(_), false) => c.(tcpDup := c.tcpDup + 1)
  }

  /** How far the handler of an arrival has got. One from a peer was requested from that peer. */
  datatype Task =
    | Arrived(source: Source, item: Item)
    | Saved(source: Source, item: Item, isNew: bool)
    | Counted(source: Source, item: Item)
  {
    /** The handler has stored the item and hasn't announced it yet. */
    predicate Owns(i: Item) {
      item == i && (Counted? || (Saved? && isNew))
    }
  }

  /**
   * `suppliers` has the repository's items, each with the source that it was stored from. The
   * announcements and the numbers of attempts to save what came from either are history.
   */
  datatype State = State(
    suppliers: map<Item, Source>,
    counters: Counters,
    tasks: map<nat, Task>,
    peers: set<Peer>,
    announcements: multiset<(Peer, Item)>,
    udpAttempts: nat,
    tcpAttempts: nat)
  {
    function Attempts(fromPeer: bool): nat { if fromPeer then tcpAttempts else udpAttempts }
  }

  const INITIAL := State(map[], Counters(0, 0, 0, 0), map[], {}, multiset{}, 0, 0)

  datatype Event =
    | Join(peer: Peer)
    | Leave(peer: Peer)
    | Arrive(id: nat, source: Source, item: Item)
    | Save(id: nat)
    | CountIt(id: nat)
    | Announce(id: nat, reached: set<Peer>)

  /**
   * An announcement goes to peers of the set, but not to the peer that the item came from. It may
   * reach fewer: a halted peer ends it with an exception, and a publisher isn't told.
   */
  predicate Enabled(s: State, e: Event) {
    match e
    case Join(_) => true
    case Leave(_) => true
    case Arrive(id, _, _) => id !in s.tasks
    case Save(id) => id in s.tasks && s.tasks[id].Arrived?
    case CountIt(id) => id in s.tasks && s.tasks[id].Saved?
    case Announce(id, reached) =>
      id in s.tasks && s.tasks[id].Counted? && reached <= s.peers &&
      forall p :: p in reached ==> s.tasks[id].source != Some(p)
  }

  function Fire(s: State, e: Event): State
    requires Enabled(s, e)
  {
    match e
    case Join(p) => s.(peers := s.peers + {p})
    case Leave(p) => s.(peers := s.peers - {p})
    case Arrive(id, source, item) => s.(tasks := s.tasks[id := Arrived(source, item)])
    case Save(id) =>
      var Arrived(source, item) := s.tasks[id];
      var isNew := item !in s.suppliers;
      s.(suppliers := if isNew then s.suppliers[item := source] else s.suppliers,
         tasks := s.tasks[id := Saved(source, item, isNew)],
         udpAttempts := s.udpAttempts + if source.None? then 1 else 0,
         tcpAttempts := s.tcpAttempts + if source.Some? then 1 else 0)
    case CountIt(id) =>
      var Saved(source, item, isNew) := s.tasks[id];
      s.(counters := Count(s.counters, source, isNew),
         tasks := if isNew then s.tasks[id := Counted(source, item)] else s.tasks - {id})
    case Announce(id, reached) =>
      s.(announcements := s.announcements + Told(reached, s.tasks[id].item),
         tasks := s.tasks - {id})
  }

  function Told(reached: set<Peer>, item: Item): multiset<(Peer, Item)> {
    multiset(set p | p in reached :: (p, item))
  }

  ghost predicate Legal(events: seq<Event>)
    decreases |events|, 0
  {
    events == [] ||
    (Legal(events[..|events| - 1]) && Enabled(Exec(events[..|events| - 1]), events[|events| - 1]))
  }

  ghost function Exec(events: seq<Event>): State
    requires Legal(events)
    decreases |events|, 1
  {
    if events == [] then INITIAL else Fire(Exec(events[..|events| - 1]), events[|events| - 1])
  }

  // ---------------------------------------------------------------- announcements

  /** A stored item's announcement is either still owed by exactly one handler, or was made. */
  ghost predicate OwnedOnce(s: State) {
    && (forall id, i :: id in s.tasks && s.tasks[id].Owns(i) ==>
          i in s.suppliers && s.suppliers[i] == s.tasks[id].source && forall p: Peer :: s.announcements[(p, i)] == 0)
    && (forall id, id', i ::
          id in s.tasks && id' in s.tasks && s.tasks[id].Owns(i) && s.tasks[id'].Owns(i) ==> id == id')
  }

  ghost predicate AnnouncedAtMostOnce(s: State) {
    forall p: Peer, i ::
      && s.announcements[(p, i)] <= 1
      && (s.announcements[(p, i)] > 0 ==> i in s.suppliers && s.suppliers[i] != Some(p))
  }

  lemma ToldOnce(reached: set<Peer>, item: Item, p: Peer, i: Item)
    ensures Told(reached, item)[(p, i)] == if p in reached && i == item then 1 else 0
  {
    var pairs := set q | q in reached :: (q, item);
    assert (p, i) in pairs <==> p in reached && i == item;
  }

  lemma SaveKeepsAnnouncements(s: State, id: nat)
    requires OwnedOnce(s) && AnnouncedAtMostOnce(s) && Enabled(s, Save(id))
    ensures OwnedOnce(Fire(s, Save(id))) && AnnouncedAtMostOnce(Fire(s, Save(id)))
  {
    var s' := Fire(s, Save(id));
    var item := s.tasks[id].item;
    if item !in s.suppliers {
      assert forall p: Peer :: s.announcements[(p, item)] == 0;
    }
    forall j, i | j in s'.tasks && s'.tasks[j].Owns(i)
      ensures i in s'.suppliers && s'.suppliers[i] == s'.tasks[j].source
      ensures forall p: Peer :: s'.announcements[(p, i)] == 0
    {
      if j != id {
        assert j in s.tasks && s.tasks[j].Owns(i);
      }
    }
    forall j, k, i | j in s'.tasks && k in s'.tasks && s'.tasks[j].Owns(i) && s'.tasks[k].Owns(i)
      ensures j == k
    {
      if j != id {
        assert j in s.tasks && s.tasks[j].Owns(i);
      }
      if k != id {
        assert k in s.tasks && s.tasks[k].Owns(i);
      }
    }
  }

  lemma AnnounceKeepsAnnouncements(s: State, id: nat, reached: set<Peer>)
    requires OwnedOnce(s) && AnnouncedAtMostOnce(s) && Enabled(s, Announce(id, reached))
    ensures OwnedOnce(Fire(s, Announce(id, reached))) && AnnouncedAtMostOnce(Fire(s, Announce(id, reached)))
  {
    var s' := Fire(s, Announce(id, reached));
    var item := s.tasks[id].item;
    assert s.tasks[id].Owns(item);
    forall p: Peer, i
      ensures s'.announcements[(p, i)] == s.announcements[(p, i)] + if p in reached && i == item then 1 else 0
    {
      ToldOnce(reached, item, p, i);
    }
    forall j, i | j in s'.tasks && s'.tasks[j].Owns(i)
      ensures i != item
    {
      assert j in s.tasks && s.tasks[j].Owns(i);
    }
  }

  lemma FireKeepsAnnouncements(s: State, e: Event)
    requires OwnedOnce(s) && AnnouncedAtMostOnce(s) && Enabled(s, e)
    ensures OwnedOnce(Fire(s, e)) && AnnouncedAtMostOnce(Fire(s, e))
  {
    var s' := Fire(s, e);
    match e
    case Join(_) =>
    case Leave(_) =>
    case Arrive(id, _, _) =>
      assert forall i :: !s'.tasks[id].Owns(i);
    case Save(id) => SaveKeepsAnnouncements(s, id);
    case CountIt(id) =>
      assert forall i :: id in s'.tasks ==> (s'.tasks[id].Owns(i) <==> s.tasks[id].Owns(i));
    case Announce(id, reached) => AnnounceKeepsAnnouncements(s, id, reached);
  }

  // ---------------------------------------------------------------- counters

  /** The handlers that have saved an item, from multicast or from a peer, but haven't counted it. */
  function Uncounted(tasks: map<nat, Task>, fromPeer: bool): set<nat> {
    set id | id in tasks && tasks[id].Saved? && tasks[id].source.Some? == fromPeer
  }

  function UncountedNew(tasks: map<nat, Task>, fromPeer: bool): set<nat> {
    set id | id in tasks && tasks[id].Saved? && tasks[id].source.Some? == fromPeer && tasks[id].isNew
  }

  /** The items that were stored from multicast, or from peers. */
  function StoredFrom(suppliers: map<Item, Source>, fromPeer: bool): set<Item> {
    set i | i in suppliers && suppliers[i].Some? == fromPeer
  }

  ghost predicate CountersAddUp(s: State) {
    forall fromPeer: bool ::
      && s.counters.Originals(fromPeer) + |UncountedNew(s.tasks, fromPeer)| == |StoredFrom(s.suppliers, fromPeer)|
      && s.counters.All(fromPeer) + |Uncounted(s.tasks, fromPeer)| == s.Attempts(fromPeer)
  }

  lemma ArrivedIsUncounted(tasks: map<nat, Task>, id: nat, task: Task, fromPeer: bool)
    requires id !in tasks && task.Arrived?
    ensures |Uncounted(tasks[id := task], fromPeer)| == |Uncounted(tasks, fromPeer)|
    ensures |UncountedNew(tasks[id := task], fromPeer)| == |UncountedNew(tasks, fromPeer)|
  {
    assert Uncounted(tasks[id := task], fromPeer) == Uncounted(tasks, fromPeer);
    assert UncountedNew(tasks[id := task], fromPeer) == UncountedNew(tasks, fromPeer);
  }

  lemma SavedIsUncounted(tasks: map<nat, Task>, id: nat, task: Task, fromPeer: bool)
    requires id in tasks && tasks[id].Arrived? && task.Saved?
    ensures |Uncounted(tasks[id := task], fromPeer)| ==
            |Uncounted(tasks, fromPeer)| + if task.source.Some? == fromPeer then 1 else 0
    ensures |UncountedNew(tasks[id := task], fromPeer)| ==
            |UncountedNew(tasks, fromPeer)| + if task.source.Some? == fromPeer && task.isNew then 1 else 0
  {
    var after := tasks[id := task];
    var rest, restNew := Uncounted(tasks, fromPeer), UncountedNew(tasks, fromPeer);
    if task.source.Some? == fromPeer {
      assert Uncounted(after, fromPeer) == rest + {id};
      assert UncountedNew(after, fromPeer) == if task.isNew then restNew + {id} else restNew;
    } else {
      assert Uncounted(after, fromPeer) == rest;
      assert UncountedNew(after, fromPeer) == restNew;
    }
  }

  lemma CountedIsNot(tasks: map<nat, Task>, id: nat, task: Task, fromPeer: bool)
    requires id in tasks && tasks[id].Saved? && task.Counted?
    ensures |Uncounted(tasks[id := task], fromPeer)| ==
            |Uncounted(tasks, fromPeer)| - if tasks[id].source.Some? == fromPeer then 1 else 0
    ensures |UncountedNew(tasks[id := task], fromPeer)| ==
            |UncountedNew(tasks, fromPeer)| - if tasks[id].source.Some? == fromPeer && tasks[id].isNew then 1 else 0
  {
    assert Uncounted(tasks[id := task], fromPeer) == Uncounted(tasks, fromPeer) - {id};
    assert UncountedNew(tasks[id := task], fromPeer) == UncountedNew(tasks, fromPeer) - {id};
  }

  lemma GoneIsNot(tasks: map<nat, Task>, id: nat, fromPeer: bool)
    requires id in tasks
    ensures |Uncounted(tasks - {id}, fromPeer)| ==
            |Uncounted(tasks, fromPeer)| - if tasks[id].Saved? && tasks[id].source.Some? == fromPeer then 1 else 0
    ensures |UncountedNew(tasks - {id}, fromPeer)| ==
            |UncountedNew(tasks, fromPeer)|
            - if tasks[id].Saved? && tasks[id].source.Some? == fromPeer && tasks[id].isNew then 1 else 0
  {
    assert Uncounted(tasks - {id}, fromPeer) == Uncounted(tasks, fromPeer) - {id};
    assert UncountedNew(tasks - {id}, fromPeer) == UncountedNew(tasks, fromPeer) - {id};
  }

  lemma StoredOneMore(suppliers: map<Item, Source>, item: Item, source: Source, fromPeer: bool)
    requires item !in suppliers
    ensures |StoredFrom(suppliers[item := source], fromPeer)| ==
            |StoredFrom(suppliers, fromPeer)| + if source.Some? == fromPeer then 1 else 0
  {
    var rest := StoredFrom(suppliers, fromPeer);
    if source.Some? == fromPeer {
      assert StoredFrom(suppliers[item := source], fromPeer) == rest + {item};
    } else {
      assert StoredFrom(suppliers[item := source], fromPeer) == rest;
    }
  }

  lemma SaveKeepsCounters(s: State, id: nat)
    requires CountersAddUp(s) && Enabled(s, Save(id))
    ensures CountersAddUp(Fire(s, Save(id)))
  {
    hide Uncounted, UncountedNew, StoredFrom;
    var Arrived(source, item) := s.tasks[id];
    forall fromPeer
      ensures var s' := Fire(s, Save(id));
              && s'.counters.Originals(fromPeer) + |UncountedNew(s'.tasks, fromPeer)| ==
                 |StoredFrom(s'.suppliers, fromPeer)|
              && s'.counters.All(fromPeer) + |Uncounted(s'.tasks, fromPeer)| == s'.Attempts(fromPeer)
    {
      SavedIsUncounted(s.tasks, id, Saved(source, item, item !in s.suppliers), fromPeer);
      if item !in s.suppliers {
        StoredOneMore(s.suppliers, item, source, fromPeer);
      }
    }
  }

  lemma CountKeepsCounters(s: State, id: nat)
    requires CountersAddUp(s) && Enabled(s, CountIt(id))
    ensures CountersAddUp(Fire(s, CountIt(id)))
  {
    hide Uncounted, UncountedNew, StoredFrom;
    var Saved(source, item, isNew) := s.tasks[id];
    forall fromPeer
      ensures var s' := Fire(s, CountIt(id));
              && s'.counters.Originals(fromPeer) + |UncountedNew(s'.tasks, fromPeer)| ==
                 |StoredFrom(s'.suppliers, fromPeer)|
              && s'.counters.All(fromPeer) + |Uncounted(s'.tasks, fromPeer)| == s'.Attempts(fromPeer)
    {
      CountedIsNot(s.tasks, id, Counted(source, item), fromPeer);
      GoneIsNot(s.tasks, id, fromPeer);
    }
  }

  lemma FireKeepsCounters(s: State, e: Event)
    requires CountersAddUp(s) && Enabled(s, e)
    ensures CountersAddUp(Fire(s, e))
  {
    hide Uncounted, UncountedNew, StoredFrom, Told;
    match e
    case Join(_) =>
    case Leave(_) =>
    case Arrive(id, source, item) =>
      ArrivedIsUncounted(s.tasks, id, Arrived(source, item), true);
      ArrivedIsUncounted(s.tasks, id, Arrived(source, item), false);
    case Save(id) => SaveKeepsCounters(s, id);
    case CountIt(id) => CountKeepsCounters(s, id);
    case Announce(id, _) =>
      GoneIsNot(s.tasks, id, true);
      GoneIsNot(s.tasks, id, false);
  }

  lemma NoTasks(tasks: map<nat, Task>, fromPeer: bool)
    requires tasks == map[]
    ensures |Uncounted(tasks, fromPeer)| == 0 && |UncountedNew(tasks, fromPeer)| == 0
  {
    assert Uncounted(tasks, fromPeer) == {} && UncountedNew(tasks, fromPeer) == {};
  }

  lemma InitialAnnouncements()
    ensures OwnedOnce(INITIAL) && AnnouncedAtMostOnce(INITIAL)
  {
  }

  lemma NothingCounted(s: State)
    requires s.tasks == map[]
    requires forall fromPeer: bool ::
               s.counters.Originals(fromPeer) == |StoredFrom(s.suppliers, fromPeer)| &&
               s.counters.All(fromPeer) == s.Attempts(fromPeer)
    ensures CountersAddUp(s)
  {
    NoTasks(s.tasks, true);
    NoTasks(s.tasks, false);
    hide Uncounted, UncountedNew, StoredFrom;
  }

  lemma InitialNumbers()
    ensures forall fromPeer: bool ::
              INITIAL.counters.Originals(fromPeer) == 0 && INITIAL.counters.All(fromPeer) == 0 &&
              INITIAL.Attempts(fromPeer) == 0
  {
  }

  lemma InitialMaps()
    ensures (forall fromPeer: bool :: |StoredFrom(INITIAL.suppliers, fromPeer)| == 0) && INITIAL.tasks == map[]
  {
    assert StoredFrom(map[], true) == {} && StoredFrom(map[], false) == {};
  }

  lemma InitialIsSafe()
    ensures OwnedOnce(INITIAL) && AnnouncedAtMostOnce(INITIAL) && CountersAddUp(INITIAL)
  {
    InitialAnnouncements();
    InitialNumbers();
    InitialMaps();
    hide INITIAL, OwnedOnce, AnnouncedAtMostOnce, CountersAddUp;
    NothingCounted(INITIAL);
  }

  lemma QuietCounters(s: State)
    requires CountersAddUp(s) && s.tasks == map[]
    ensures forall fromPeer: bool ::
              s.counters.Originals(fromPeer) == |StoredFrom(s.suppliers, fromPeer)| &&
              s.counters.All(fromPeer) == s.Attempts(fromPeer)
  {
    NoTasks(s.tasks, true);
    NoTasks(s.tasks, false);
    hide Uncounted, UncountedNew, StoredFrom;
  }

  /**
   * In every run, however the handlers interleave: an item is announced at most once to any peer
   * and never to the peer that it was stored from; and the counters account for every attempt to
   * save whose handler has got that far.
   */
  lemma {:induction false} SafeInEveryRun(events: seq<Event>)
    requires Legal(events)
    ensures OwnedOnce(Exec(events)) && AnnouncedAtMostOnce(Exec(events))
    ensures CountersAddUp(Exec(events))
  {
    hide Fire, Enabled, OwnedOnce, AnnouncedAtMostOnce, CountersAddUp;
    if events == [] {
      InitialIsSafe();
    } else {
      var prefix, last := events[..|events| - 1], events[|events| - 1];
      SafeInEveryRun(prefix);
      FireKeepsAnnouncements(Exec(prefix), last);
      FireKeepsCounters(Exec(prefix), last);
    }
  }

  /**
   * When no handler is running, each original counter is the number of stored items that came from
   * there, and together with the duplicates it's the number of attempts.
   */
  lemma CountersWhenQuiet(events: seq<Event>)
    requires Legal(events) && Exec(events).tasks == map[]
    ensures var s := Exec(events);
            && s.counters.udpOrig == |StoredFrom(s.suppliers, false)|
            && s.counters.tcpOrig == |StoredFrom(s.suppliers, true)|
            && s.counters.udpOrig + s.counters.udpDup == s.udpAttempts
            && s.counters.tcpOrig + s.counters.tcpDup == s.tcpAttempts
  {
    hide Legal, Exec, StoredFrom, OwnedOnce, AnnouncedAtMostOnce, CountersAddUp;
    SafeInEveryRun(events);
    QuietCounters(Exec(events));
    var s := Exec(events);
    assert s.counters.Originals(true) == s.counters.tcpOrig && s.counters.Originals(false) == s.counters.udpOrig;
  }

  // ---------------------------------------------------------------- the mutable subscriber

  /** A handler that isn't interleaved with others, up to the announcement. */
  function Handled(stored: set<Item>, counters: Counters, source: Source, item: Item): (set<Item>, Counters, bool) {
    (stored + {item}, Count(counters, source, item !in stored), item !in stored)
  }

  /** The steps of the run system, taken one after the other, are the handler. */
  lemma HandlerIsItsSteps(s: State, id: nat, source: Source, item: Item)
    requires Enabled(s, Arrive(id, source, item))
    ensures var saved := Fire(Fire(s, Arrive(id, source, item)), Save(id));
            Enabled(saved, CountIt(id)) &&
            var counted := Fire(saved, CountIt(id));
            (counted.suppliers.Keys, counted.counters, id in counted.tasks) ==
                 Handled(s.suppliers.Keys, s.counters, source, item)
  {
    var saved := Fire(Fire(s, Arrive(id, source, item)), Save(id));
    assert saved.suppliers.Keys == s.suppliers.Keys + {item};
  }

  class Subscriber {
    var repo: set<Item>
    var numUdpOrig: nat
    var numTcpOrig: nat
    var numUdpDup: nat
    var numTcpDup: nat
    /** The items whose announcement to all peers was asked for, in order. */
    var announced: seq<Item>

    ghost function Counts(): Counters
      reads this
    {
      Counters(numUdpOrig, numTcpOrig, numUdpDup, numTcpDup)
    }

    constructor ()
      ensures repo == {} && Counts() == Counters(0, 0, 0, 0) && announced == []
    {
      repo := {};
      numUdpOrig, numTcpOrig, numUdpDup, numTcpDup := 0, 0, 0, 0;
      announced := [];
    }

    /** The repository's atomic test-and-insert. */
    method Save(item: Item) returns (saved: bool)
      modifies this`repo
      ensures saved == (item !in old(repo)) && repo == old(repo) + {item}
    {
      saved := item !in repo;
      repo := repo + {item};
    }

    method HereIsMcast(item: Item) returns (isNew: bool)
      modifies this
      ensures (repo, Counts(), isNew) == Handled(old(repo), old(Counts()), None, item)
      ensures (isNew <==> item !in old(repo)) && repo == old(repo) + {item}
      ensures Counts() == old(Counts()).(udpOrig := old(numUdpOrig) + if isNew then 1 else 0,
                                         udpDup := old(numUdpDup) + if isNew then 0 else 1)
      ensures announced == old(announced) + if isNew then [item] else []
    {
      isNew := Save(item);
      if isNew {
        numUdpOrig := numUdpOrig + 1;
        announced := announced + [item];
      } else {
        numUdpDup := numUdpDup + 1;
      }
    }

    /** The manager announces a new item itself, to all peers but the one it came from. */
    method HereIsP2p(peer: Peer, item: Item) returns (isNew: bool)
      modifies this
      ensures (repo, Counts(), isNew) == Handled(old(repo), old(Counts()), Some(peer), item)
      ensures (isNew <==> item !in old(repo)) && repo == old(repo) + {item}
      ensures Counts() == old(Counts()).(tcpOrig := old(numTcpOrig) + if isNew then 1 else 0,
                                         tcpDup := old(numTcpDup) + if isNew then 0 else 1)
      ensures announced == old(announced)
    {
      isNew := Save(item);
      if isNew {
        numTcpOrig := numTcpOrig + 1;
      } else {
        numTcpDup := numTcpDup + 1;
      }
    }

    method ShouldRequest(item: Item) returns (should: bool)
      ensures should <==> item !in repo
    {
      should := item !in repo;
    }
  }
}
