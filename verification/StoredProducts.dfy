/**
 * What the products in a receiver's store are made of: in every run, the information and the chunks
 * that have arrived since each of them was put there.
 */
module StoredProducts {
  import opened Wrappers
  import opened Bytes
  import opened OrderedMaps
  import opened ProdIndexes
  import opened Reassembly
  import opened ProductStore
  import opened Reception
  import P = ProductInfo

  // ---------------------------------------------------------------- what arrivals come to

  function AsDelivery(thing: Thing): Delivery
    requires thing.LatentChunk?
  {
    Latent(thing.info, thing.index, thing.available)
  }

  /** An arrival that brings a chunk of a product in full. */
  ghost predicate BringsChunk(info: ProdInfo, thing: Thing)
    requires info.canonSize > 0 && IsVetted(thing)
  {
    thing.LatentChunk? && Full(info, AsDelivery(thing))
  }

  /** The chunks that have arrived in full at least once. */
  ghost function ArrivedInFull(info: ProdInfo, arrivals: seq<Thing>): set<P.uint32>
    requires info.canonSize > 0 && forall t :: t in arrivals ==> IsVetted(t)
  {
    set t | t in arrivals && BringsChunk(info, t) :: t.index
  }

  /** The name that the latest information has, of that which agrees in everything else. */
  function LatestName(info: ProdInfo, arrivals: seq<Thing>): string {
    if arrivals == [] then ""
    else
      var last := arrivals[|arrivals| - 1];
      if last.Information? && info.EqualsExceptName(last.info) then last.info.name
      else LatestName(info, arrivals[..|arrivals| - 1])
  }

  /** A product that has the geometry of its first arrival, the latest name, and the chunks that arrived in full. */
  ghost predicate IsMadeOf(a: Assembly, arrivals: seq<Thing>)
    requires a.Valid()
  {
    && arrivals != [] && (forall t :: t in arrivals ==> IsVetted(t))
    && arrivals[0].info.canonSize > 0
    && a.info == arrivals[0].info.(name := LatestName(arrivals[0].info, arrivals))
    && a.Held() == ArrivedInFull(arrivals[0].info, arrivals)
  }

  /** The bytes of all arrived chunks come from the source, and go to their place. */
  ghost predicate ComeFrom(info: ProdInfo, source: seq<Byte>, arrivals: seq<Thing>)
    requires info.canonSize > 0 && |source| == info.size
  {
    forall t :: t in arrivals && t.LatentChunk? ==> FromSource(info, source, AsDelivery(t))
  }

  // ---------------------------------------------------------------- names don't matter

  lemma RenamedGeometry(info: ProdInfo, name: string)
    requires info.canonSize > 0
    ensures P.NumChunks(info.(name := name)) == P.NumChunks(info)
    ensures forall i: P.uint32 :: P.ChunkSize(info.(name := name), i) == P.ChunkSize(info, i)
    ensures forall i: P.uint32 :: P.ChunkOffset(info.(name := name), i) == P.ChunkOffset(info, i)
  {
  }

  lemma NameDoesntMatter(info: ProdInfo, name: string, d: Delivery)
    requires info.canonSize > 0 && Proper(info, d)
    ensures Proper(info.(name := name), d)
    ensures Full(info.(name := name), d) <==> Full(info, d)
  {
    hide P.NumChunks, P.ChunkSize, P.ChunkOffset;
    RenamedGeometry(info, name);
  }

  lemma RenamedSource(info: ProdInfo, name: string, source: seq<Byte>, d: Delivery)
    requires info.canonSize > 0 && |source| == info.size && FromSource(info, source, d)
    ensures FromSource(info.(name := name), source, d)
  {
    hide P.NumChunks, P.ChunkSize, P.ChunkOffset;
    RenamedGeometry(info, name);
  }

  lemma RenamedAgrees(a: Assembly, name: string, source: seq<Byte>)
    requires a.Valid() && |source| == a.info.size && Agrees(a, source)
    ensures a.(info := a.info.(name := name)).Valid() && Agrees(a.(info := a.info.(name := name)), source)
  {
    var renamed := a.info.(name := name);
    assert a.info.EqualsExceptName(renamed);
    SetHolds(a, renamed);
    RenamedGeometry(a.info, name);
    hide P.NumChunks, P.ChunkSize, P.ChunkOffset;
  }

  // ---------------------------------------------------------------- one more arrival

  lemma ArrivedOneMore(info: ProdInfo, arrivals: seq<Thing>, last: Thing)
    requires info.canonSize > 0 && IsVetted(last) && forall t :: t in arrivals ==> IsVetted(t)
    ensures ArrivedInFull(info, arrivals + [last]) ==
            ArrivedInFull(info, arrivals)
            + if BringsChunk(info, last) then {last.index} else {}
  {
  }

  lemma LatestOneMore(info: ProdInfo, arrivals: seq<Thing>, last: Thing)
    ensures LatestName(info, arrivals + [last]) ==
            if last.Information? && info.EqualsExceptName(last.info) then last.info.name
            else LatestName(info, arrivals)
  {
    assert (arrivals + [last])[..|arrivals|] == arrivals;
  }

  lemma NewEntryIsMade(thing: Thing, buffer: seq<Byte>)
    requires Acceptable(thing, buffer) && NewEntry(thing, buffer).Success?
    ensures var entry := NewEntry(thing, buffer).value;
            && entry.Valid() && IsMadeOf(entry, [thing])
            && forall source :: |source| == thing.info.size && ComeFrom(thing.info, source, [thing]) ==>
                 Agrees(entry, source)
  {
    NewEntryIsIncomplete(thing, buffer);
    FreshIsValid(thing.info, buffer);
    ArrivedOneMore(thing.info, [], thing);
    LatestOneMore(thing.info, [], thing);
    assert [] + [thing] == [thing];
    assert thing in [thing];
    if thing.LatentChunk? {
      AddHolds(Fresh(thing.info, buffer), AsDelivery(thing));
      forall source | |source| == thing.info.size && ComeFrom(thing.info, source, [thing])
        ensures Agrees(NewEntry(thing, buffer).value, source)
      {
        AddAgrees(Fresh(thing.info, buffer), source, AsDelivery(thing));
      }
    }
    hide P.NumChunks, Full, LatestName, Fresh;
  }

  lemma ChangedIsMade(a: Assembly, arrivals: seq<Thing>, thing: Thing)
    requires a.Valid() && IsMadeOf(a, arrivals) && IsVetted(thing)
    ensures Changed(a, thing).0.Valid() && IsMadeOf(Changed(a, thing).0, arrivals + [thing])
  {
    var info := arrivals[0].info;
    var a' := Changed(a, thing).0;
    ChangedIsValid(a, thing);
    ArrivedOneMore(info, arrivals, thing);
    LatestOneMore(info, arrivals, thing);
    match thing
    case Information(_) =>
      SetHolds(a, thing.info);
      InformationIsTaken(a, thing.info);
    case LatentChunk(_, _, _) =>
      AddHolds(a, AsDelivery(thing));
      NameDoesntMatter(info, a.info.name, AsDelivery(thing));
  }

  lemma ChangedAgrees(a: Assembly, thing: Thing, source: seq<Byte>)
    requires a.Valid() && IsVetted(thing) && |source| == a.info.size && Agrees(a, source)
    requires thing.LatentChunk? ==> FromSource(a.info, source, AsDelivery(thing))
    ensures Changed(a, thing).0.Valid() && Changed(a, thing).0.info.size == a.info.size
    ensures Agrees(Changed(a, thing).0, source)
  {
    match thing
    case Information(info) =>
      RenamedAgrees(a, info.name, source);
      InformationIsTaken(a, info);
    case LatentChunk(_, _, _) => AddAgrees(a, source, AsDelivery(thing));
  }

  /** What an addition makes of the store's products. */
  lemma EntryAfter(s: Store, thing: Thing, buffer: seq<Byte>)
    requires s.Valid() && Acceptable(thing, buffer)
    ensures var s' := StoreAdd(s, thing, buffer).0;
            var index := thing.info.index;
            s'.prods == if s.failure.Some? then s.prods
                        else if index in s.prods then s.prods[index := Changed(s.prods[index], thing).0]
                        else if NewEntry(thing, buffer).Success? then s.prods[index := NewEntry(thing, buffer).value]
                        else s.prods
  {
    hide Assigned, Removed, IsEarlierThan, NewEntry, Changed, Assembly.IsComplete;
    if thing.info.index in s.prods {
      ChangedIsValid(s.prods[thing.info.index], thing);
    } else if NewEntry(thing, buffer).Success? {
      NewEntryIsIncomplete(thing, buffer);
    }
  }

  /** What a product refuses: information that disagrees, and a missing chunk that isn't brought in full. */
  ghost predicate IsRefused(a: Assembly, thing: Thing)
    requires a.Valid() && IsVetted(thing)
  {
    match thing
    case Information(info) => !a.info.EqualsExceptName(info)
    case LatentChunk(_, i, _) => !a.complete && i !in a.Held() && !BringsChunk(a.info, thing)
  }

  /** An addition throws if the store has failed, the product refuses it, or a new product's chunk is cut short. */
  ghost predicate Throws(s: Store, thing: Thing)
    requires s.Valid() && thing.info.canonSize > 0 && IsVetted(thing)
  {
    || s.failure.Some?
    || (thing.info.index in s.prods &&
        IsRefused(s.prods[thing.info.index], thing))
    || (thing.info.index !in s.prods && thing.LatentChunk? && |thing.available| < HowMany(thing.info, thing.index))
  }

  /** Something is new if its product is, if it's the name that was lacking, or if it's a chunk that was. */
  ghost predicate IsNews(s: Store, thing: Thing)
    requires s.Valid()
  {
    thing.info.index in s.prods ==>
      var a := s.prods[thing.info.index];
      match thing
      case Information(info) => a.info.name == "" && info.name != ""
      case LatentChunk(_, i, _) => !a.complete && i !in a.Held()
  }

  lemma NewEntryFails(thing: Thing, buffer: seq<Byte>)
    requires Acceptable(thing, buffer)
    ensures NewEntry(thing, buffer).Failure? <==>
              thing.LatentChunk? && |thing.available| < HowMany(thing.info, thing.index)
  {
    if thing.LatentChunk? {
      FreshIsValid(thing.info, buffer);
      GuardIsExact(thing.info, thing.info, thing.index);
      AdditionFails(Fresh(thing.info, buffer), AsDelivery(thing));
    }
  }

  lemma ChangedIsAnswered(a: Assembly, thing: Thing)
    requires a.Valid() && IsVetted(thing)
    ensures match Changed(a, thing).1
            case Failure(_) => IsRefused(a, thing)
            case Success(isNew) =>
              !IsRefused(a, thing) &&
              (match thing
               case Information(info) =>
                 isNew <==> a.info.name == "" && info.name != ""
               case LatentChunk(_, i, _) =>
                 isNew <==> !a.complete && i !in a.Held())
  {
    match thing
    case Information(info) => InformationIsTaken(a, info);
    case LatentChunk(_, i, _) =>
      AddHolds(a, AsDelivery(thing));
      AdditionFails(a, AsDelivery(thing));
      hide Add, Full, Agrees, HowMany;
  }

  /**
   * What an addition is answered: when it throws, that the exception is kept, and what the two parts of
   * the status mean. The store's answer is the map's, unless the store has failed.
   */
  lemma AdditionIsAnswered(s: Store, thing: Thing, buffer: seq<Byte>)
    requires s.Valid() && Acceptable(thing, buffer)
    ensures s.failure.None? ==> MapAdd(s, thing, buffer).1 == StoreAdd(s, thing, buffer).1
    ensures var (s', r) := StoreAdd(s, thing, buffer);
            && (r.Failure? <==> Throws(s, thing))
            && s'.failure == (if r.Failure? then Some(r.error) else None)
            && (r.Failure? && s.failure.Some? ==> s' == s)
            && (r.Success? ==>
                  && (r.value.isNew <==> IsNews(s, thing))
                  && (r.value.isComplete <==> IsCompleteIn(s', thing.info.index)))
  {
    if thing.info.index in s.prods {
      ChangedIsAnswered(s.prods[thing.info.index], thing);
      ChangedIsValid(s.prods[thing.info.index], thing);
    } else {
      NewEntryFails(thing, buffer);
      if NewEntry(thing, buffer).Success? {
        NewEntryIsIncomplete(thing, buffer);
      }
    }
    hide NewEntry, Changed, Full, HowMany, P.NumChunks, IsEarlierThan, Assigned, Removed;
  }

  // ---------------------------------------------------------------- every run

  /**
   * The arrivals for a product since it was put into the store. Once the store has failed, nothing
   * arrives any more: the exception is thrown again.
   */
  ghost function Arrivals(events: seq<Event>, p: ProdIndex): seq<Thing>
    requires Legal(events)
    decreases |events|
  {
    if events == [] || p !in Exec(events).store.prods then []
    else
      var prefix, last := events[..|events| - 1], events[|events| - 1];
      Arrivals(prefix, p) +
      if last.Arrive? && last.thing.info.index == p && Exec(prefix).store.failure.None? then [last.thing] else []
  }

  /** What an event adds to the arrivals for a product. */
  function ArrivesFor(s: State, e: Event, p: ProdIndex): seq<Thing> {
    if e.Arrive? && e.thing.info.index == p && s.store.failure.None? then [e.thing] else []
  }

  lemma ArrivalsStep(prefix: seq<Event>, last: Event, p: ProdIndex)
    requires Legal(prefix + [last]) && p in Exec(prefix + [last]).store.prods
    ensures Legal(prefix) && Enabled(Exec(prefix), last)
    ensures Exec(prefix + [last]) == Fire(Exec(prefix), last)
    ensures Arrivals(prefix + [last], p) == Arrivals(prefix, p) + ArrivesFor(Exec(prefix), last, p)
    ensures p !in Exec(prefix).store.prods ==> Arrivals(prefix, p) == []
  {
    assert (prefix + [last])[..|prefix|] == prefix;
    hide Enabled, Fire;
  }

  /** A product that's stored after an event: it was and stays the same, or it has just arrived. */
  lemma ProductAfter(s: State, e: Event, p: ProdIndex)
    requires Enabled(s, e) && p in Fire(s, e).store.prods
    ensures ArrivesFor(s, e, p) == [] ==> p in s.store.prods && Fire(s, e).store.prods[p] == s.store.prods[p]
    ensures ArrivesFor(s, e, p) != [] && p in s.store.prods ==>
              IsVetted(e.thing) && Fire(s, e).store.prods[p] == Changed(s.store.prods[p], e.thing).0
    ensures ArrivesFor(s, e, p) != [] && p !in s.store.prods ==>
              && Acceptable(e.thing, e.buffer) && NewEntry(e.thing, e.buffer).Success?
              && Fire(s, e).store.prods[p] == NewEntry(e.thing, e.buffer).value
  {
    hide StoreAdd, NewEntry, Changed, Unnames, Processes;
    if e.Arrive? {
      EntryAfter(s.store, e.thing, e.buffer);
    }
    hide P.NumChunks, Acceptable;
  }

  lemma StepIsMade(s: State, e: Event, p: ProdIndex, before: seq<Thing>)
    requires Enabled(s, e) && p in Fire(s, e).store.prods && Fire(s, e).store.Valid()
    requires if p in s.store.prods then IsMadeOf(s.store.prods[p], before) else before == []
    ensures IsMadeOf(Fire(s, e).store.prods[p], before + ArrivesFor(s, e, p))
  {
    hide Fire, IsMadeOf, Changed, NewEntry, Acceptable, IsVetted, Unnames, Assembly.Valid;
    ProductAfter(s, e, p);
    assert before + [] == before;
    if ArrivesFor(s, e, p) == [] {
    } else if p in s.store.prods {
      ChangedIsMade(s.store.prods[p], before, e.thing);
    } else {
      NewEntryIsMade(e.thing, e.buffer);
      assert [] + [e.thing] == [e.thing];
    }
  }

  /**
   * In every run, a stored product has the geometry of its first arrival since it was put there, the name
   * that the latest information has, and exactly the chunks that have arrived in full since then.
   */
  lemma {:induction false} StoredIsMade(events: seq<Event>, p: ProdIndex)
    requires Legal(events) && p in Exec(events).store.prods
    ensures Exec(events).store.Valid()
    ensures IsMadeOf(Exec(events).store.prods[p], Arrivals(events, p))
    decreases |events|
  {
    hide Fire, Enabled, IsMadeOf, ArrivesFor, Arrivals;
    ProcessedExactlyOnce(events);
    if events == [] {
    } else {
      var prefix, last := events[..|events| - 1], events[|events| - 1];
      assert events == prefix + [last];
      ArrivalsStep(prefix, last, p);
      ProcessedExactlyOnce(prefix);
      if p in Exec(prefix).store.prods {
        StoredIsMade(prefix, p);
      }
      StepIsMade(Exec(prefix), last, p, Arrivals(prefix, p));
    }
  }

  lemma StepAgrees(s: State, e: Event, p: ProdIndex, info: ProdInfo, source: seq<Byte>)
    requires Enabled(s, e) && p in Fire(s, e).store.prods && Fire(s, e).store.Valid()
    requires |source| == info.size && info.canonSize > 0
    requires p in s.store.prods ==> info.EqualsExceptName(s.store.prods[p].info) && Agrees(s.store.prods[p], source)
    requires p !in s.store.prods ==> ArrivesFor(s, e, p) != [] && info == e.thing.info
    requires ComeFrom(info, source, ArrivesFor(s, e, p))
    ensures info.EqualsExceptName(Fire(s, e).store.prods[p].info) && Agrees(Fire(s, e).store.prods[p], source)
  {
    hide Fire, Changed, NewEntry, Acceptable, Unnames, Agrees, FromSource;
    ProductAfter(s, e, p);
    if ArrivesFor(s, e, p) == [] {
    } else if p in s.store.prods {
      var entry := s.store.prods[p];
      assert e.thing in ArrivesFor(s, e, p);
      if e.thing.LatentChunk? {
        RenamedSource(info, entry.info.name, source, AsDelivery(e.thing));
        assert entry.info == info.(name := entry.info.name);
      }
      ChangedAgrees(entry, e.thing, source);
      ChangedIsValid(entry, e.thing);
    } else {
      NewEntryIsMade(e.thing, e.buffer);
      NewEntryIsIncomplete(e.thing, e.buffer);
    }
  }

  lemma {:induction false} StoredAgrees(events: seq<Event>, p: ProdIndex, info: ProdInfo, source: seq<Byte>)
    requires Legal(events) && p in Exec(events).store.prods && Exec(events).store.Valid()
    requires Arrivals(events, p) != [] && info == Arrivals(events, p)[0].info
    requires info.canonSize > 0 && |source| == info.size && ComeFrom(info, source, Arrivals(events, p))
    ensures info.EqualsExceptName(Exec(events).store.prods[p].info) && Agrees(Exec(events).store.prods[p], source)
    decreases |events|
  {
    hide Fire, Enabled, IsMadeOf, ArrivesFor, Arrivals, Agrees, FromSource;
    if events == [] {
    } else {
      var prefix, last := events[..|events| - 1], events[|events| - 1];
      assert events == prefix + [last];
      ArrivalsStep(prefix, last, p);
      ProcessedExactlyOnce(prefix);
      var before, now := Arrivals(prefix, p), ArrivesFor(Exec(prefix), last, p);
      assert forall t :: t in before || t in now ==> t in Arrivals(events, p);
      if p in Exec(prefix).store.prods {
        FirstArrival(prefix, p);
        StoredAgrees(prefix, p, info, source);
      } else {
        assert ArrivesFor(Exec(prefix), last, p) == Arrivals(events, p);
        JustArrived(Exec(prefix), last, p);
      }
      StepAgrees(Exec(prefix), last, p, info, source);
    }
  }

  lemma FirstArrival(events: seq<Event>, p: ProdIndex)
    requires Legal(events) && p in Exec(events).store.prods
    ensures Arrivals(events, p) != []
  {
    StoredIsMade(events, p);
  }

  lemma JustArrived(s: State, e: Event, p: ProdIndex)
    ensures ArrivesFor(s, e, p) != [] ==> e.Arrive? && ArrivesFor(s, e, p)[0] == e.thing
  {
  }

  /** Every chunk of a product has arrived in full, and it has some. */
  ghost predicate AllArrived(info: ProdInfo, arrivals: seq<Thing>)
    requires info.canonSize > 0 && forall t :: t in arrivals ==> IsVetted(t)
  {
    P.NumChunks(info) > 0 && forall i: P.uint32 :: i < P.NumChunks(info) ==> i in ArrivedInFull(info, arrivals)
  }

  lemma MadeIsComplete(a: Assembly, arrivals: seq<Thing>)
    requires a.Valid() && IsMadeOf(a, arrivals)
    ensures arrivals != [] && arrivals[0].info.canonSize > 0 && forall t :: t in arrivals ==> IsVetted(t)
    ensures arrivals[0].info.EqualsExceptName(a.info)
    ensures a.complete <==> AllArrived(arrivals[0].info, arrivals)
    ensures a.IsComplete() <==> AllArrived(arrivals[0].info, arrivals) && LatestName(arrivals[0].info, arrivals) != ""
  {
    AllHeldMeansComplete(a);
    RenamedGeometry(arrivals[0].info, a.info.name);
    hide P.NumChunks, LatestName, ArrivedInFull;
  }

  /**
   * In every run, in whatever order information and chunks arrive: a stored product has been processed
   * once exactly if a name for it and all its chunks have arrived since it was put there, and otherwise
   * not at all. If its chunks come from a source then it has the source's bytes in each of them, and
   * once all have arrived it is the source.
   */
  lemma StoredIsReassembled(events: seq<Event>, p: ProdIndex)
    requires Legal(events) && p in Exec(events).store.prods
    ensures var s := Exec(events);
            var arrivals := Arrivals(events, p);
            && s.store.Valid() && IsMadeOf(s.store.prods[p], arrivals) && p in s.calls
            && var info := arrivals[0].info;
               && info.index == p
               && s.calls[p] == (if LatestName(info, arrivals) != "" && AllArrived(info, arrivals) then 1 else 0)
               && forall source :: |source| == info.size && ComeFrom(info, source, arrivals) ==>
                    && Agrees(s.store.prods[p], source)
                    && (AllArrived(info, arrivals) ==> s.store.prods[p].data == source)
  {
    hide Arrivals, Agrees, ComeFrom, IsMadeOf, LatestName, AllArrived, Legal, Exec, Assembly.IsComplete;
    ProcessedExactlyOnce(events);
    StoredIsMade(events, p);
    var s, arrivals := Exec(events), Arrivals(events, p);
    MadeIsComplete(s.store.prods[p], arrivals);
    var info := arrivals[0].info;
    forall source | |source| == info.size && ComeFrom(info, source, arrivals)
      ensures Agrees(s.store.prods[p], source)
      ensures AllArrived(info, arrivals) ==> s.store.prods[p].data == source
    {
      StoredAgrees(events, p, info, source);
      if s.store.prods[p].complete {
        AllHeldMeansWholeSource(s.store.prods[p], source);
      }
    }
  }
}
