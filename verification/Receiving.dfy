/**
 * The coordinator of reception: what arrives over either transport goes into the store, and a
 * product is handed to the processor when it becomes complete.
 */
module Reception {
  import opened Wrappers
  import opened Bytes
  import opened OrderedMaps
  import opened ProdIndexes
  import opened Reassembly
  import opened ProductStore
  import P = ProductInfo

  /** The identity of a chunk: the product and the chunk's index in it. */
  datatype ChunkId = ChunkId(prodIndex: ProdIndex, index: P.uint32)

  // ---------------------------------------------------------------- every run

  /**
   * Arrivals are serialized by the mutex. Between any two of them, the store's deletion thread can
   * erase a product that was queued for deletion, which happens at every addition of something new.
   */
  datatype Event =
    | Arrive(thing: Thing, buffer: seq<Byte>)
    | Expire(index: ProdIndex)

  /**
   * `calls` and `queued` are history: how often a product was processed since it was put into the
   * store, and which were ever queued for deletion.
   */
  datatype State = State(store: Store, calls: map<ProdIndex, nat>, queued: set<ProdIndex>)

  const INITIAL := State(EMPTY, map[], {})

  ghost predicate Enabled(s: State, e: Event) {
    && s.store.Valid()
    && match e
       case Arrive(thing, buffer) => Acceptable(thing, buffer) && !Unnames(s.store, thing)
       case Expire(index) => index in s.queued
  }

  /** Whether an arrival makes the coordinator process the product. */
  predicate Processes(r: Result<Status, Error>) {
    r.Success? && r.value.isNew && r.value.isComplete
  }

  ghost function Fire(s: State, e: Event): State
    requires Enabled(s, e)
  {
    match e
    case Expire(index) => s.(store := ProductStore.Erase(s.store, index), calls := s.calls - {index})
    case Arrive(thing, buffer) =>
      var (store, r) := StoreAdd(s.store, thing, buffer);
      var index := thing.info.index;
      var soFar := if index in s.calls then s.calls[index] else 0;
      State(store,
            if index !in store.prods then s.calls
            else s.calls[index := soFar + if Processes(r) then 1 else 0],
            s.queued + if r.Success? && r.value.isNew then {index} else {})
  }

  ghost predicate Legal(events: seq<Event>)
    decreases |events|, 0
  {
    events == [] ||
    (Legal(events[..|events| - 1]) && Enabled(Exec(events[..|events| - 1]), events[|events| - 1]))
  }

  ghost function Exec(events: seq<Event>): State
    requires Legal(events)
    decreases |events|, 1
  {
    if events == [] then INITIAL else Fire(Exec(events[..|events| - 1]), events[|events| - 1])
  }

  /** A stored product has been processed once if it's complete and never if it isn't. */
  ghost predicate OncePerResidency(s: State) {
    && s.calls.Keys == s.store.prods.Keys
    && forall p :: p in s.store.prods ==> s.calls[p] == if s.store.prods[p].IsComplete() then 1 else 0
  }

  lemma ArrivalKeepsProduct(s: State, thing: Thing, buffer: seq<Byte>)
    requires Enabled(s, Arrive(thing, buffer))
    ensures var s' := Fire(s, Arrive(thing, buffer));
            thing.info.index in s.store.prods ==> thing.info.index in s'.store.prods
  {
    if thing.info.index in s.store.prods {
      ChangedIsValid(s.store.prods[thing.info.index], thing);
    }
  }

  lemma ArrivalKeepsCount(s: State, thing: Thing, buffer: seq<Byte>)
    requires Enabled(s, Arrive(thing, buffer)) && OncePerResidency(s)
    ensures OncePerResidency(Fire(s, Arrive(thing, buffer)))
  {
    hide StoreAdd, Acceptable, ProductStore.Erase;
    var index := thing.info.index;
    var (store, r) := StoreAdd(s.store, thing, buffer);
    var s' := Fire(s, Arrive(thing, buffer));
    ArrivalKeepsProduct(s, thing, buffer);
    assert index in store.prods ==> s'.calls[index] == if store.prods[index].IsComplete() then 1 else 0 by {
      AdditionCompletes(s.store, thing, buffer);
    }
    forall p | p != index
      ensures p in store.prods <==> p in s.store.prods
      ensures p in s.store.prods ==> store.prods[p] == s.store.prods[p]
    {
      AdditionKeepsOthers(s.store, thing, buffer, p);
    }
  }

  /**
   * In every run, in whatever order information and chunks arrive, duplicates included: each
   * product in the store has been processed exactly once since it was put there if it's named and
   * full, and not at all otherwise.
   */
  lemma {:induction false} ProcessedExactlyOnce(events: seq<Event>)
    requires Legal(events)
    ensures Exec(events).store.Valid()
    ensures OncePerResidency(Exec(events))
  {
    if events == [] {
    } else {
      var prefix, last := events[..|events| - 1], events[|events| - 1];
      ProcessedExactlyOnce(prefix);
      match last
      case Expire(_) =>
      case Arrive(thing, buffer) =>
        AdditionEffect(Exec(prefix).store, thing, buffer);
        ArrivalKeepsCount(Exec(prefix), thing, buffer);
    }
  }

  /**
   * The step at which a product is processed: exactly an arrival that finds the product absent or
   * lacking something and leaves it named and full. The product that is processed is a whole one.
   */
  lemma ProcessedWhenItCompletes(events: seq<Event>, thing: Thing, buffer: seq<Byte>)
    requires Legal(events) && Enabled(Exec(events), Arrive(thing, buffer))
    ensures var store := Exec(events).store;
            var (store', r) := StoreAdd(store, thing, buffer);
            Processes(r) <==> !IsCompleteIn(store, thing.info.index) && IsCompleteIn(store', thing.info.index)
  {
    ProcessedExactlyOnce(events);
    AdditionCompletes(Exec(events).store, thing, buffer);
  }

  /**
   * Without names the promise fails. Information that replaces that of a processed product leads
   * to its being processed again, by the next named information, exactly when it has no name.
   */
  lemma UnnamedInformationRepeatsProcessing(s: Store, index: ProdIndex, unnamed: ProdInfo, named: ProdInfo,
                                            buffer: seq<Byte>)
    requires s.Valid() && s.failure.None? && IsCompleteIn(s, index)
    requires s.prods[index].info.EqualsExceptName(unnamed) && s.prods[index].info.EqualsExceptName(named)
    requires named.name != "" && |buffer| == named.size && named.canonSize > 0
    ensures StoreAdd(s, Information(unnamed), buffer).0.Valid()
    ensures Processes(StoreAdd(StoreAdd(s, Information(unnamed), buffer).0, Information(named), buffer).1) <==>
              Unnames(s, Information(unnamed))
  {
    MapAddKeeps(s, Information(unnamed), buffer);
  }

  /** All indexes that arrive, and 0, are within half the circle. */
  ghost predicate Windowed(base: ProdIndex, events: seq<Event>) {
    Offset(base, 0) < HALF &&
    forall e :: e in events && e.Arrive? ==> Offset(base, e.thing.info.index) < HALF
  }

  /** In that window, the ends bound every stored index, and what is queued for deletion was stored. */
  ghost predicate IsBounded(base: ProdIndex, s: State) {
    s.store.Valid() && EndsBound(s.store, base) && InWindow(base, s.queued)
  }

  lemma StepKeepsBounds(base: ProdIndex, s: State, e: Event)
    requires Enabled(s, e) && IsBounded(base, s)
    requires e.Arrive? ==> Offset(base, e.thing.info.index) < HALF
    ensures IsBounded(base, Fire(s, e))
  {
    hide Processes, Offset, StoreAdd, HasEffect, Unnames, Acceptable, Removed, Assembly.Valid;
    match e
    case Expire(_) =>
    case Arrive(thing, buffer) =>
      hide EndsBound;
      AdditionKeepsBounds(s.store, thing, buffer, base);
      AdditionEffect(s.store, thing, buffer);
  }

  /** In every such run, erasures included, the ends bound every stored index. */
  lemma {:induction false} EndsBoundEveryRun(base: ProdIndex, events: seq<Event>)
    requires Legal(events) && Windowed(base, events)
    ensures Exec(events).store.Valid() && EndsBound(Exec(events).store, base)
    ensures InWindow(base, Exec(events).store.prods.Keys) && InWindow(base, Exec(events).queued)
  {
    hide Enabled, Fire;
    if events == [] {
    } else {
      var prefix, last := events[..|events| - 1], events[|events| - 1];
      assert events == prefix + [last];
      EndsBoundEveryRun(base, prefix);
      assert last in events;
      StepKeepsBounds(base, Exec(prefix), last);
    }
  }

  /** The products that were in the store at some time. */
  ghost function EverStored(events: seq<Event>): set<ProdIndex>
    requires Legal(events)
    decreases |events|
  {
    if events == [] then {} else EverStored(events[..|events| - 1]) + Exec(events).store.prods.Keys
  }

  /** An end moves only to a product that's put into the store, and only outwards. */
  lemma EndsAfter(base: ProdIndex, s: State, e: Event)
    requires Enabled(s, e) && IsBounded(base, s)
    requires e.Arrive? ==> Offset(base, e.thing.info.index) < HALF
    ensures var (before, after) := (s.store, Fire(s, e).store);
            && Offset(base, after.earliest) <= Offset(base, before.earliest)
            && Offset(base, before.latest) <= Offset(base, after.latest)
            && (after.earliest == before.earliest || after.earliest in after.prods)
            && (after.latest == before.latest || after.latest in after.prods)
  {
    hide Processes, Offset, StoreAdd, Unnames, Removed, Acceptable, Assembly.Valid, Assembly.IsComplete;
    if e.Arrive? {
      AdditionMovesEnds(s.store, e.thing, e.buffer);
      AdditionEffect(s.store, e.thing, e.buffer);
      hide HasEffect;
      OffsetsDetermine(base, e.thing.info.index, s.store.earliest);
      OffsetsDetermine(base, s.store.latest, e.thing.info.index);
    }
  }

  /**
   * In every such run, the ends are the first and the last of all products that were ever in the store,
   * and of 0: erasing a product doesn't move them.
   */
  lemma {:induction false} EndsAreExtremes(base: ProdIndex, events: seq<Event>)
    requires Legal(events) && Windowed(base, events)
    ensures Exec(events).store.earliest in EverStored(events) + {0}
    ensures Exec(events).store.latest in EverStored(events) + {0}
    ensures forall p :: p in EverStored(events) + {0} ==>
              Offset(base, Exec(events).store.earliest) <= Offset(base, p) <= Offset(base, Exec(events).store.latest)
  {
    hide Enabled, Fire, EndsBound;
    if events == [] {
    } else {
      var prefix, last := events[..|events| - 1], events[|events| - 1];
      assert events == prefix + [last];
      assert last in events;
      EndsAreExtremes(base, prefix);
      EndsBoundEveryRun(base, prefix);
      EndsAfter(base, Exec(prefix), last);
      StepKeepsBounds(base, Exec(prefix), last);
      BoundedKeys(base, Exec(events).store);
    }
  }

  lemma BoundedKeys(base: ProdIndex, s: Store)
    ensures EndsBound(s, base) ==>
              forall p :: p in s.prods ==> Offset(base, s.earliest) <= Offset(base, p) <= Offset(base, s.latest)
  {
  }

  lemma StepTracks(base: ProdIndex, s: State, e: Event)
    requires Enabled(s, e) && IsBounded(base, s) && s.store.TracksIncomplete()
    requires e.Arrive? ==> Offset(base, e.thing.info.index) < HALF
    ensures Fire(s, e).store.TracksIncomplete()
  {
    hide Processes, Offset, IsEarlierThan;
    var index := match e case Expire(index) => index case Arrive(thing, _) => thing.info.index;
    assert InWindow(base, s.store.incomplete.Keys + {index});
    WindowIsUsable(base, s.store.incomplete, index);
    hide StoreAdd, EndsBound, Unnames, Acceptable, IsUsable, Collides, InWindow, AreDistinct, Store.TracksIncomplete;
    match e
    case Expire(_) =>
      ErasureTracksIncomplete(s.store, index);
    case Arrive(thing, buffer) =>
      AdditionTracksIncomplete(s.store, thing, buffer);
  }

  /** And the map of incomplete products has exactly those that lack a name or a chunk. */
  lemma {:induction false} TracksInEveryRun(base: ProdIndex, events: seq<Event>)
    requires Legal(events) && Windowed(base, events)
    ensures Exec(events).store.TracksIncomplete()
  {
    hide Enabled, Fire;
    if events == [] {
    } else {
      var prefix, last := events[..|events| - 1], events[|events| - 1];
      assert events == prefix + [last];
      TracksInEveryRun(base, prefix);
      EndsBoundEveryRun(base, prefix);
      assert last in events;
      StepTracks(base, Exec(prefix), last);
    }
  }

  /**
   * In every such run, what the store reports as the chunk to ask for is the least missing chunk in the
   * store, unless no product is incomplete or the first one lacks nothing but its name.
   */
  lemma ReportedIsLeastInEveryRun(base: ProdIndex, events: seq<Event>)
    requires Legal(events) && Windowed(base, events)
    ensures Exec(events).store.Valid()
    ensures IsLeastMissing(Exec(events).store, Reported(Exec(events).store))
  {
    TracksInEveryRun(base, events);
    EndsBoundEveryRun(base, events);
    ReportedIsLeast(Exec(events).store, base);
  }

  // ---------------------------------------------------------------- the mutable coordinator

  /** What an addition comes to. Where the ordered map isn't usable, that's everything but the ordered map. */
  ghost predicate IsStoreAdd(s: Store, thing: Thing, buffer: seq<Byte>, s': Store, r: Result<Status, Error>)
    requires s.Valid() && Acceptable(thing, buffer)
  {
    && r == StoreAdd(s, thing, buffer).1
    && s'.IsLike(StoreAdd(s, thing, buffer).0)
    && (IsUsable(s.incomplete, thing.info.index) ==> s' == StoreAdd(s, thing, buffer).0)
  }

  /** The store's part of an addition, after that of the mutable map. */
  lemma {:induction false} ThenStoreAdd(s: Store, thing: Thing, buffer: seq<Byte>, s': Store, r: Result<Status, Error>)
    requires s.Valid() && Acceptable(thing, buffer) && s.failure.None?
    requires IsMapAdd(s, thing, buffer, s', r)
    ensures s'.Valid()
    ensures match r
            case Failure(e) =>
              s'.(failure := Some(e)).Valid() && IsStoreAdd(s, thing, buffer, s'.(failure := Some(e)), r)
            case Success(status) =>
              && thing.info.index in s'.prods
              && var isComplete := status.isComplete || s'.prods[thing.info.index].IsComplete();
                 IsStoreAdd(s, thing, buffer, s', Success(status.(isComplete := isComplete)))
  {
    MapAddKeeps(s, thing, buffer);
    hide MapAdd, Acceptable, IsUsable, Assembly.Valid, Assembly.IsComplete;
    assert s'.Valid() && s'.(failure := if r.Failure? then Some(r.error) else None).Valid();
    hide Store.Valid;
  }

  class Receiving {
    const prodStore: ProdMap
    var failure: Option<Error>
    var requestedProdInfos: set<ProdIndex>
    var requestedChunks: set<ChunkId>
    var processed: seq<ProdIndex>

    ghost function Value(): Store
      reads this, prodStore
    {
      prodStore.Value().(failure := failure)
    }

    constructor ()
      ensures fresh(prodStore) && Value() == EMPTY && processed == []
      ensures requestedProdInfos == {} && requestedChunks == {}
    {
      prodStore := new ProdMap();
      failure := None;
      requestedProdInfos := {};
      requestedChunks := {};
      processed := [];
    }

    /** Accepts product-information; processes the product if that completed it. */
    method AcceptInformation(info: ProdInfo, buffer: seq<Byte>) returns (r: Result<Status, Error>)
      requires Value().Valid() && Acceptable(Information(info), buffer)
      modifies this, prodStore
      ensures Value().Valid()
      ensures IsStoreAdd(old(Value()), Information(info), buffer, Value(), r)
      ensures processed == old(processed) + if Processes(r) then [info.index] else []
      ensures requestedProdInfos == old(requestedProdInfos) - if r.Success? then {info.index} else {}
      ensures requestedChunks == old(requestedChunks)
    {
      hide MapAdd, IsMapAdd, Acceptable, IsUsable, Store.Valid, Assembly.IsComplete;
      if failure.Some? {
        return Failure(failure.value);
      }
      ghost var before := Value();
      r := prodStore.AddInformation(info, buffer);
      ThenStoreAdd(before, Information(info), buffer, Value(), r);
      hide IsStoreAdd;
      if r.Failure? {
        failure := Some(r.error);
        return r;
      }
      if prodStore.prods[info.index].IsComplete() {
        r := Success(r.value.(isComplete := true));
      }
      requestedProdInfos := requestedProdInfos - {info.index};
      if r.value.isNew && r.value.isComplete {
        processed := processed + [info.index];
      }
    }

    /** Accepts a chunk; processes the product if that completed it. */
    method AcceptChunk(header: ProdInfo, index: P.uint32, available: seq<Byte>, buffer: seq<Byte>)
      returns (r: Result<Status, Error>)
      requires Value().Valid() && Acceptable(LatentChunk(header, index, available), buffer)
      modifies this, prodStore
      ensures Value().Valid()
      ensures IsStoreAdd(old(Value()), LatentChunk(header, index, available), buffer, Value(), r)
      ensures processed == old(processed) + if Processes(r) then [header.index] else []
      ensures requestedChunks == old(requestedChunks) - if r.Success? then {ChunkId(header.index, index)} else {}
      ensures requestedProdInfos == old(requestedProdInfos)
    {
      hide MapAdd, IsMapAdd, Acceptable, IsUsable, Store.Valid, Assembly.IsComplete;
      if failure.Some? {
        return Failure(failure.value);
      }
      ghost var before := Value();
      r := prodStore.AddChunk(header, index, available, buffer);
      ThenStoreAdd(before, LatentChunk(header, index, available), buffer, Value(), r);
      hide IsStoreAdd;
      if r.Failure? {
        failure := Some(r.error);
        return r;
      }
      if prodStore.prods[header.index].IsComplete() {
        r := Success(r.value.(isComplete := true));
      }
      requestedChunks := requestedChunks - {ChunkId(header.index, index)};
      if r.value.isNew && r.value.isComplete {
        processed := processed + [header.index];
      }
    }

    /**
     * True exactly if the name isn't known and the information hasn't been requested; then it has
     * been. The store throws once it has failed.
     */
    method ShouldRequestInformation(index: ProdIndex) returns (r: Result<bool, Error>)
      modifies this`requestedProdInfos
      ensures var isKnown := index in prodStore.prods && prodStore.prods[index].info.name != "";
              r == match failure
                   case Some(e) => Failure(e)
                   case None => Success(!isKnown && index !in old(requestedProdInfos))
      ensures requestedProdInfos == old(requestedProdInfos) + if r == Success(true) then {index} else {}
    {
      if failure.Some? {
        return Failure(failure.value);
      }
      if index in prodStore.prods && prodStore.prods[index].info.name != "" {
        return Success(false);
      }
      if index in requestedProdInfos {
        return Success(false);
      }
      requestedProdInfos := requestedProdInfos + {index};
      return Success(true);
    }

    method ShouldRequestChunk(id: ChunkId) returns (r: Result<bool, Error>)
      requires Value().Valid()
      modifies this`requestedChunks
      ensures var isHeld := id.prodIndex in prodStore.prods && prodStore.prods[id.prodIndex].HaveChunk(id.index);
              r == match failure
                   case Some(e) => Failure(e)
                   case None => Success(!isHeld && id !in old(requestedChunks))
      ensures requestedChunks == old(requestedChunks) + if r == Success(true) then {id} else {}
    {
      if failure.Some? {
        return Failure(failure.value);
      }
      assert id.prodIndex in prodStore.prods ==> Value().prods[id.prodIndex].Valid();
      if id.prodIndex in prodStore.prods && prodStore.prods[id.prodIndex].HaveChunk(id.index) {
        return Success(false);
      }
      if id in requestedChunks {
        return Success(false);
      }
      requestedChunks := requestedChunks + {id};
      return Success(true);
    }
  }
}
