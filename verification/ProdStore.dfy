/**
 * A receiver's store of products: which products it has, which of them are still incomplete, and
 * the ends of the range of product indexes that it has seen.
 */
module ProductStore {
  import opened Wrappers
  import opened Bytes
  import opened OrderedMaps
  import opened ProdIndexes
  import opened Reassembly
  import P = ProductInfo

  /**
   * The value of a store. `incomplete` is an ordered map to entries of incomplete products.
   * `failure` is the exception that, once thrown, every later addition throws again.
   */
  datatype Store = Store(
    prods: map<ProdIndex, Assembly>,
    incomplete: OrderedMap,
    earliest: ProdIndex,
    latest: ProdIndex,
    failure: Option<Error>)
  {
    ghost predicate Valid() {
      forall p :: p in prods ==> prods[p].Valid() && prods[p].info.index == p
    }

    /** The ordered map has exactly the products that lack a name or a chunk, each under its own index. */
    ghost predicate TracksIncomplete() {
      && (forall p :: p in incomplete <==> p in prods && !prods[p].IsComplete())
      && (forall p :: p in incomplete ==> incomplete[p] == p)
    }

    /** Everything but the ordered map is the same. */
    predicate IsLike(that: Store) {
      this.(incomplete := that.incomplete) == that
    }
  }

  /** What is added: information on a product, or a chunk that is still in a transport. */
  datatype Thing =
    | Information(info: ProdInfo)
    | LatentChunk(info: ProdInfo, index: P.uint32, available: seq<Byte>)

  datatype Status = Status(isNew: bool, isComplete: bool)

  const EMPTY := Store(map[], map[], 0, 0, None)

  /** Called after the product was inserted, so the first branch isn't ever taken. */
  function UpdateEnds(s: Store, index: ProdIndex): Store {
    if |s.prods| == 0 then s.(earliest := index, latest := index)
    else
      s.(earliest := if IsEarlierThan(index, s.earliest) then index else s.earliest,
         latest := if IsEarlierThan(s.latest, index) then index else s.latest)
  }

  /**
   * What the store relies on. A chunk's index has been vetted against the chunk's own header, which
   * has no name; `buffer` is the uninitialized memory that a new product would get. The header
   * needn't agree with a product that's already stored.
   */
  predicate Acceptable(thing: Thing, buffer: seq<Byte>) {
    && thing.info.canonSize > 0
    && |buffer| == thing.info.size
    && (thing.LatentChunk? ==> thing.info.name == "" && thing.index < P.NumChunks(thing.info))
  }

  /** A chunk's index is valid for its header. */
  predicate IsVetted(thing: Thing) {
    thing.LatentChunk? ==> thing.info.canonSize > 0 && thing.index < P.NumChunks(thing.info)
  }

  ghost function Insert(s: Store, entry: Assembly): Store {
    var index := entry.info.index;
    UpdateEnds(s.(prods := s.prods[index := entry], incomplete := Assigned(s.incomplete, index, index)), index)
  }

  /** Puts a changed entry back, and takes the product off the incomplete ones if it's complete. */
  ghost function Update(s: Store, entry: Assembly): Store {
    s.(prods := s.prods[entry.info.index := entry],
       incomplete := if entry.IsComplete() then Removed(s.incomplete, entry.info.index) else s.incomplete)
  }

  /** The entry of a product that isn't there yet. */
  function NewEntry(thing: Thing, buffer: seq<Byte>): Result<Assembly, Error>
    requires Acceptable(thing, buffer)
  {
    FreshIsValid(thing.info, buffer);
    match thing
    case Information(info) => Success(Fresh(info, buffer))
    case LatentChunk(header, i, available) =>
      match Add(Fresh(header, buffer), Latent(header, i, available))
      case (entry, Success(_)) => Success(entry)
      case (_, Failure(e)) => Failure(e)
  }

  /** The new value of an entry, and whether the thing was new to it. */
  function Changed(entry: Assembly, thing: Thing): (Assembly, Result<bool, Error>)
    requires entry.Valid() && IsVetted(thing)
  {
    match thing
    case Information(info) => SetInfo(entry, info)
    case LatentChunk(header, i, available) => Add(entry, Latent(header, i, available))
  }

  /** `ProdMap::add()` for product-information and for chunks. */
  ghost function MapAdd(s: Store, thing: Thing, buffer: seq<Byte>): (Store, Result<Status, Error>)
    requires s.Valid() && Acceptable(thing, buffer)
  {
    var index := thing.info.index;
    if index !in s.prods then
      match NewEntry(thing, buffer)
      case Failure(e) => (s, Failure(e))
      case Success(entry) => (Insert(s, entry), Success(Status(true, false)))
    else
      match Changed(s.prods[index], thing)
      case (entry, Failure(e)) => (s.(prods := s.prods[index := entry]), Failure(e))
      case (entry, Success(isNew)) => (Update(s, entry), Success(Status(isNew, entry.IsComplete())))
  }

  /** `ProdStore::add()`: an exception is kept and thrown again by every later call. */
  ghost function StoreAdd(s: Store, thing: Thing, buffer: seq<Byte>): (Store, Result<Status, Error>)
    requires s.Valid() && Acceptable(thing, buffer)
  {
    if s.failure.Some? then (s, Failure(s.failure.value))
    else
      match MapAdd(s, thing, buffer)
      case (s', Failure(e)) => (s'.(failure := Some(e)), Failure(e))
      case (s', Success(status)) =>
        if thing.info.index in s'.prods && s'.prods[thing.info.index].IsComplete() then
          (s', Success(status.(isComplete := true)))
        else (s', Success(status))
  }

  /** The ends aren't updated. */
  ghost function Erase(s: Store, index: ProdIndex): Store {
    s.(prods := s.prods - {index}, incomplete := Removed(s.incomplete, index))
  }

  // ---------------------------------------------------------------- each addition keeps the representation

  /** An entry, if any, that counts as complete: named and full. */
  predicate IsCompleteIn(s: Store, index: ProdIndex) {
    index in s.prods && s.prods[index].IsComplete()
  }

  lemma NewEntryIsIncomplete(thing: Thing, buffer: seq<Byte>)
    requires Acceptable(thing, buffer) && NewEntry(thing, buffer).Success?
    ensures var entry := NewEntry(thing, buffer).value;
            entry.Valid() && entry.info == thing.info && !entry.IsComplete()
  {
    FreshIsValid(thing.info, buffer);
    if thing.LatentChunk? {
      AddHolds(Fresh(thing.info, buffer), Latent(thing.info, thing.index, thing.available));
    }
  }

  /** Information that takes an entry's name away. */
  predicate Clears(entry: Assembly, thing: Thing) {
    thing.Information? && thing.info.name == "" && entry.info.EqualsExceptName(thing.info)
  }

  /** An addition that takes the name of a complete product away. */
  predicate Unnames(s: Store, thing: Thing) {
    s.failure.None? && IsCompleteIn(s, thing.info.index) && Clears(s.prods[thing.info.index], thing)
  }

  lemma ChangedIsValid(entry: Assembly, thing: Thing)
    requires entry.Valid() && IsVetted(thing)
    ensures Changed(entry, thing).0.Valid() && Changed(entry, thing).0.info.EqualsExceptName(entry.info)
    ensures entry.IsComplete() ==> (Changed(entry, thing).0.IsComplete() <==> !Clears(entry, thing))
    ensures !entry.IsComplete() && Changed(entry, thing).0.IsComplete() ==> Changed(entry, thing).1 == Success(true)
    ensures entry.IsComplete() ==> Changed(entry, thing).1 != Success(true)
  {
    match thing
    case Information(info) => SetHolds(entry, info);
    case LatentChunk(header, i, available) => AddHolds(entry, Latent(header, i, available));
  }

  lemma InsertEffect(s: Store, entry: Assembly)
    ensures Insert(s, entry).prods == s.prods[entry.info.index := entry]
    ensures Insert(s, entry).incomplete == Assigned(s.incomplete, entry.info.index, entry.info.index)
    ensures s.Valid() && entry.Valid() ==> Insert(s, entry).Valid()
  {
    hide Assigned, IsEarlierThan, Assembly.Valid;
  }

  lemma MapAddKeeps(s: Store, thing: Thing, buffer: seq<Byte>)
    requires s.Valid() && Acceptable(thing, buffer)
    ensures MapAdd(s, thing, buffer).0.Valid()
    ensures MapAdd(s, thing, buffer).1.Success? ==> thing.info.index in MapAdd(s, thing, buffer).0.prods
  {
    if thing.info.index in s.prods {
      ChangedIsValid(s.prods[thing.info.index], thing);
    } else if NewEntry(thing, buffer).Success? {
      NewEntryIsIncomplete(thing, buffer);
      InsertEffect(s, NewEntry(thing, buffer).value);
    }
    hide Insert, Removed, NewEntry, Changed, Clears, Assembly.Valid, Assembly.IsComplete, Acceptable;
  }

  /**
   * What an addition does to the completeness of its product: it becomes complete exactly when the
   * addition is reported as both new and complete, and once complete it stays complete.
   */
  lemma AdditionCompletes(s: Store, thing: Thing, buffer: seq<Byte>)
    requires s.Valid() && Acceptable(thing, buffer) && !Unnames(s, thing)
    ensures var (s', r) := StoreAdd(s, thing, buffer);
            && (IsCompleteIn(s, thing.info.index) ==> IsCompleteIn(s', thing.info.index))
            && (!IsCompleteIn(s, thing.info.index) && IsCompleteIn(s', thing.info.index) <==>
                  r.Success? && r.value.isNew && r.value.isComplete)
  {
    if thing.info.index in s.prods {
      ChangedIsValid(s.prods[thing.info.index], thing);
    } else if NewEntry(thing, buffer).Success? {
      NewEntryIsIncomplete(thing, buffer);
    }
  }

  /** Products other than the one that something is added to stay as they are. */
  lemma AdditionKeepsOthers(s: Store, thing: Thing, buffer: seq<Byte>, p: ProdIndex)
    requires s.Valid() && Acceptable(thing, buffer) && p != thing.info.index
    ensures p in StoreAdd(s, thing, buffer).0.prods <==> p in s.prods
    ensures p in s.prods ==> StoreAdd(s, thing, buffer).0.prods[p] == s.prods[p]
  {
    hide P.NumChunks, Add, SetInfo, IsEarlierThan, NewEntry, Changed, Assigned, Removed;
    if thing.info.index in s.prods {
      ChangedIsValid(s.prods[thing.info.index], thing);
    } else if NewEntry(thing, buffer).Success? {
      NewEntryIsIncomplete(thing, buffer);
    }
  }

  // ---------------------------------------------------------------- which products are tracked as incomplete

  /** What an addition does to its product and to the ordered map. */
  ghost predicate HasEffect(s: Store, thing: Thing, s': Store, r: Result<Status, Error>) {
    var index := thing.info.index;
    && (r.Failure? ==>
          && s'.incomplete == s.incomplete && s'.prods.Keys == s.prods.Keys
          && (IsCompleteIn(s', index) <==> IsCompleteIn(s, index)))
    && (r.Success? ==>
          && index in s'.prods
          && s'.incomplete == if index !in s.prods then Assigned(s.incomplete, index, index)
                              else if IsCompleteIn(s', index) then Removed(s.incomplete, index)
                              else s.incomplete)
    && (r.Success? && index !in s.prods ==> !IsCompleteIn(s', index))
    && (IsCompleteIn(s, index) ==> (IsCompleteIn(s', index) <==> !Unnames(s, thing)))
    && (Unnames(s, thing) ==> r.Success?)
  }

  lemma NewMapAdd(s: Store, thing: Thing, buffer: seq<Byte>)
    requires s.Valid() && Acceptable(thing, buffer) && thing.info.index !in s.prods
    ensures MapAdd(s, thing, buffer) ==
            match NewEntry(thing, buffer)
            case Failure(e) => (s, Failure(e))
            case Success(entry) => (Insert(s, entry), Success(Status(true, false)))
  {
    hide Insert, Update, NewEntry, Changed, Acceptable;
  }

  /** What adding to an absent product comes to. */
  lemma NewResult(s: Store, thing: Thing, buffer: seq<Byte>)
    requires s.Valid() && Acceptable(thing, buffer) && thing.info.index !in s.prods
    ensures match StoreAdd(s, thing, buffer)
            case (s', Failure(_)) => s'.prods == s.prods && s'.incomplete == s.incomplete
            case (s', Success(_)) =>
              && thing.info.index in s'.prods && !s'.prods[thing.info.index].IsComplete()
              && s'.incomplete == Assigned(s.incomplete, thing.info.index, thing.info.index)
  {
    hide Insert, Assigned, NewEntry, MapAdd, Acceptable, Assembly.IsComplete, Assembly.Valid;
    NewMapAdd(s, thing, buffer);
    if NewEntry(thing, buffer).Success? {
      NewEntryIsIncomplete(thing, buffer);
      InsertEffect(s, NewEntry(thing, buffer).value);
    }
  }

  lemma NewEffect(s: Store, thing: Thing, buffer: seq<Byte>)
    requires s.Valid() && Acceptable(thing, buffer) && thing.info.index !in s.prods
    ensures HasEffect(s, thing, StoreAdd(s, thing, buffer).0, StoreAdd(s, thing, buffer).1)
  {
    NewResult(s, thing, buffer);
    hide StoreAdd, Assigned, Removed, Clears, Acceptable, Assembly.IsComplete;
  }

  lemma ChangeEffect(s: Store, thing: Thing, buffer: seq<Byte>)
    requires s.Valid() && Acceptable(thing, buffer) && thing.info.index in s.prods
    ensures HasEffect(s, thing, StoreAdd(s, thing, buffer).0, StoreAdd(s, thing, buffer).1)
  {
    var entry := s.prods[thing.info.index];
    ChangedIsValid(entry, thing);
    assert Clears(entry, thing) ==> Changed(entry, thing).1.Success?;
    hide IsEarlierThan, NewEntry, Assigned, Removed, Changed, Clears, Acceptable;
  }

  lemma AdditionEffect(s: Store, thing: Thing, buffer: seq<Byte>)
    requires s.Valid() && Acceptable(thing, buffer)
    ensures StoreAdd(s, thing, buffer).0.Valid()
    ensures HasEffect(s, thing, StoreAdd(s, thing, buffer).0, StoreAdd(s, thing, buffer).1)
  {
    MapAddKeeps(s, thing, buffer);
    if thing.info.index in s.prods {
      ChangeEffect(s, thing, buffer);
    } else {
      NewEffect(s, thing, buffer);
    }
    hide HasEffect, MapAdd;
  }

  /** A new incomplete product is tracked exactly if its index doesn't collide. */
  lemma InsertionTracks(s: Store, s': Store, index: ProdIndex)
    requires s.TracksIncomplete() && IsUsable(s.incomplete, index) && index !in s.prods
    requires s'.incomplete == Assigned(s.incomplete, index, index)
    requires index in s'.prods && !IsCompleteIn(s', index)
    requires forall p :: p != index ==> (p in s'.prods <==> p in s.prods)
    requires forall p :: p != index && p in s.prods ==> s'.prods[p] == s.prods[p]
    ensures s'.TracksIncomplete() <==> !Collides(s.incomplete.Keys, index)
  {
    CollisionsDecide(s.incomplete, index, index);
    hide Assigned, Collides, IsUsable;
  }

  /** A product that's complete or gone is untracked alone exactly if its index doesn't collide. */
  lemma RemovalTracks(s: Store, s': Store, index: ProdIndex)
    requires s.TracksIncomplete() && IsUsable(s.incomplete, index)
    requires s'.incomplete == Removed(s.incomplete, index)
    requires index !in s'.prods || IsCompleteIn(s', index)
    requires forall p :: p != index ==> (p in s'.prods <==> p in s.prods)
    requires forall p :: p != index && p in s.prods ==> s'.prods[p] == s.prods[p]
    ensures s'.TracksIncomplete() <==> !Collides(s.incomplete.Keys, index)
  {
    CollisionsDecide(s.incomplete, index, index);
    hide Removed, Collides, IsUsable;
    if Collides(s.incomplete.Keys, index) {
      var k :| k in s.incomplete && k != index && s'.incomplete == s.incomplete - {k};
      assert k in s'.prods && !s'.prods[k].IsComplete() && k !in s'.incomplete;
    }
  }

  lemma SameKeysTrack(s: Store, s': Store, index: ProdIndex)
    requires s.TracksIncomplete() && s'.incomplete == s.incomplete
    requires forall p :: p in s'.prods <==> p in s.prods
    requires forall p :: p != index && p in s.prods ==> s'.prods[p] == s.prods[p]
    ensures s'.TracksIncomplete() <==> (IsCompleteIn(s', index) <==> IsCompleteIn(s, index))
  {
    assert index in s'.prods <==> index in s.prods;
  }

  /**
   * The map of incomplete products goes on to have exactly the products that lack a name or a chunk,
   * unless a complete product loses its name -- it's not complete then, but not in the map either --
   * or another key is half the circle away, which the map takes for the same key.
   */
  lemma AdditionTracksIncomplete(s: Store, thing: Thing, buffer: seq<Byte>)
    requires s.Valid() && Acceptable(thing, buffer) && s.TracksIncomplete() && IsUsable(s.incomplete, thing.info.index)
    ensures var (s', r) := StoreAdd(s, thing, buffer);
            && s'.Valid() && AreDistinct(s'.incomplete.Keys)
            && (r.Failure? ==> s'.TracksIncomplete())
            && (r.Success? ==>
                  (s'.TracksIncomplete() <==> !Unnames(s, thing) && !Collides(s.incomplete.Keys, thing.info.index)))
  {
    var (s', r) := StoreAdd(s, thing, buffer);
    var index := thing.info.index;
    AdditionEffect(s, thing, buffer);
    CollisionsDecide(s.incomplete, index, index);
    forall p | p != index
      ensures p in s'.prods <==> p in s.prods
      ensures p in s.prods ==> s'.prods[p] == s.prods[p]
    {
      AdditionKeepsOthers(s, thing, buffer, p);
    }
    hide StoreAdd, Assigned, Removed, Collides, IsUsable, AreDistinct, Acceptable;
    if r.Success? && index !in s.prods {
      InsertionTracks(s, s', index);
    } else if r.Success? && IsCompleteIn(s', index) {
      RemovalTracks(s, s', index);
    } else {
      SameKeysTrack(s, s', index);
    }
  }

  /** The same for an erasure. */
  lemma ErasureTracksIncomplete(s: Store, index: ProdIndex)
    requires s.Valid() && s.TracksIncomplete() && IsUsable(s.incomplete, index)
    ensures Erase(s, index).Valid() && AreDistinct(Erase(s, index).incomplete.Keys)
    ensures Erase(s, index).TracksIncomplete() <==> !Collides(s.incomplete.Keys, index)
  {
    CollisionsDecide(s.incomplete, index, index);
    RemovalTracks(s, Erase(s, index), index);
  }

  lemma NewInformation(s: Store, info: ProdInfo, buffer: seq<Byte>)
    requires s.Valid() && Acceptable(Information(info), buffer) && s.failure.None? && info.index !in s.prods
    ensures var s' := StoreAdd(s, Information(info), buffer).0;
            && s'.Valid() && s'.failure.None? && !IsCompleteIn(s', info.index)
            && s'.prods == s.prods[info.index := Fresh(info, buffer)]
            && s'.incomplete == Assigned(s.incomplete, info.index, info.index)
  {
    NewEntryIsIncomplete(Information(info), buffer);
    MapAddKeeps(s, Information(info), buffer);
    hide Assigned, Removed, Fresh;
  }

  /**
   * A collision: information on product 2^63 arrives while product 0 is incomplete. Neither index is
   * less than the other, so the entry of product 2^63 goes under key 0; and when product 2^63 is
   * erased, product 0 isn't tracked any more.
   */
  lemma OppositeIndexesCollide(name: string, buffer: seq<Byte>)
    requires |buffer| == 1 && name != ""
    ensures var first, opposite := P.ProdInfo(0, name, 1, 1), P.ProdInfo(0x8000_0000_0000_0000, name, 1, 1);
            var one := StoreAdd(EMPTY, Information(first), buffer).0;
            && one.Valid() && one.TracksIncomplete() && !Unnames(one, Information(opposite))
            && IsUsable(one.incomplete, opposite.index)
            && var both := StoreAdd(one, Information(opposite), buffer).0;
               && both.prods.Keys == {0, opposite.index} && both.incomplete == map[0 := opposite.index]
               && !IsCompleteIn(both, 0) && !IsCompleteIn(both, opposite.index)
               && var rest := Erase(both, opposite.index);
                  rest.prods.Keys == {0} && rest.incomplete == map[]
  {
    var first, opposite := P.ProdInfo(0, name, 1, 1), P.ProdInfo(0x8000_0000_0000_0000, name, 1, 1);
    var one := StoreAdd(EMPTY, Information(first), buffer).0;
    NewInformation(EMPTY, first, buffer);
    NoKeys();
    assert one.incomplete == map[0 := 0];
    assert one.prods.Keys == {0};
    OppositeKeys(0);
    TwoProducts(one, opposite, buffer);
  }

  lemma TwoProducts(one: Store, opposite: ProdInfo, buffer: seq<Byte>)
    requires one.Valid() && one.failure.None? && Acceptable(Information(opposite), buffer)
    requires one.prods.Keys == {0} && !IsCompleteIn(one, 0) && one.incomplete == map[0 := 0]
    requires opposite.index == 0x8000_0000_0000_0000
    ensures var both := StoreAdd(one, Information(opposite), buffer).0;
            && both.prods.Keys == {0, opposite.index} && both.incomplete == map[0 := opposite.index]
            && !IsCompleteIn(both, 0) && !IsCompleteIn(both, opposite.index)
            && Erase(both, opposite.index).prods.Keys == {0} && Erase(both, opposite.index).incomplete == map[]
  {
    NewInformation(one, opposite, buffer);
    OppositeKeys(0);
    OppositeKeys(opposite.index);
    hide StoreAdd, Assigned, Removed, Fresh;
    var both := StoreAdd(one, Information(opposite), buffer).0;
    assert both.prods[0] == one.prods[0];
    assert both.prods.Keys - {opposite.index} == {0};
  }

  lemma NoKeys()
    ensures Assigned(map[], 0, 0) == map[0 := 0]
  {
    var none: OrderedMap := map[];
    assert FindKey(none.Keys, 0) == None;
  }

  lemma OppositeKeys(value: ProdIndex)
    ensures IsUsable(map[0 := value], 0x8000_0000_0000_0000)
    ensures Assigned(map[0 := value], 0x8000_0000_0000_0000, 0x8000_0000_0000_0000) == map[0 := 0x8000_0000_0000_0000]
    ensures Removed(map[0 := value], 0x8000_0000_0000_0000) == map[]
  {
    var m: OrderedMap := map[0 := value];
    assert Equivalent(0, 0x8000_0000_0000_0000) && Equivalent(0, 0);
    assert m.Keys == {0};
    FindKeyIsUnique(m, 0x8000_0000_0000_0000, 0);
    assert m - {0} == map[];
  }

  // ---------------------------------------------------------------- the ends

  /** `earliest` and `latest` bound every stored index, as offsets in a window that also contains 0. */
  ghost predicate EndsBound(s: Store, base: ProdIndex) {
    && Offset(base, s.earliest) <= Offset(base, s.latest) < HALF
    && forall p :: p in s.prods ==> Offset(base, s.earliest) <= Offset(base, p) <= Offset(base, s.latest)
  }

  lemma InsertKeepsBounds(s: Store, entry: Assembly, base: ProdIndex)
    requires EndsBound(s, base) && Offset(base, entry.info.index) < HALF
    ensures EndsBound(Insert(s, entry), base)
  {
    var index := entry.info.index;
    var inserted := s.(prods := s.prods[index := entry]);
    assert index in inserted.prods;
    assert |inserted.prods| != 0;
    OffsetsDetermine(base, index, s.earliest);
    OffsetsDetermine(base, s.latest, index);
  }

  lemma InsertMovesEnds(s: Store, entry: Assembly)
    ensures var (s', index) := (Insert(s, entry), entry.info.index);
            && s'.earliest == (if IsEarlierThan(index, s.earliest) then index else s.earliest)
            && s'.latest == (if IsEarlierThan(s.latest, index) then index else s.latest)
            && index in s'.prods
  {
    hide Assigned, IsEarlierThan;
    assert entry.info.index in s.prods[entry.info.index := entry];
  }

  /** An addition moves an end only to a product that it puts into the store. */
  lemma AdditionMovesEnds(s: Store, thing: Thing, buffer: seq<Byte>)
    requires s.Valid() && Acceptable(thing, buffer)
    ensures var (s', index) := (StoreAdd(s, thing, buffer).0, thing.info.index);
            if index in s.prods || index !in s'.prods then s'.earliest == s.earliest && s'.latest == s.latest
            else
              && s'.earliest == (if IsEarlierThan(index, s.earliest) then index else s.earliest)
              && s'.latest == (if IsEarlierThan(s.latest, index) then index else s.latest)
  {
    hide Insert, IsEarlierThan, NewEntry, Changed, Removed, Assembly.IsComplete, Assembly.Valid;
    if thing.info.index !in s.prods && NewEntry(thing, buffer).Success? {
      NewEntryIsIncomplete(thing, buffer);
      InsertMovesEnds(s, NewEntry(thing, buffer).value);
    }
  }

  lemma AdditionKeepsBounds(s: Store, thing: Thing, buffer: seq<Byte>, base: ProdIndex)
    requires s.Valid() && Acceptable(thing, buffer)
    requires EndsBound(s, base) && Offset(base, thing.info.index) < HALF
    ensures EndsBound(StoreAdd(s, thing, buffer).0, base)
  {
    if thing.info.index in s.prods {
      ChangedIsValid(s.prods[thing.info.index], thing);
    } else if NewEntry(thing, buffer).Success? {
      NewEntryIsIncomplete(thing, buffer);
      InsertKeepsBounds(s, NewEntry(thing, buffer).value, base);
    }
  }

  // ---------------------------------------------------------------- the earliest missing chunk

  /** The first key in circular order: `begin()` of the ordered map. */
  ghost predicate IsFirst(p: ProdIndex, s: set<ProdIndex>) {
    p in s && forall q :: q in s ==> q == p || Less(p, q)
  }

  lemma FirstExists(s: set<ProdIndex>) returns (p: ProdIndex)
    requires s != {} && IsOrdered(s) && AreDistinct(s)
    ensures IsFirst(p, s)
    decreases s
  {
    hide Less;
    var q :| q in s;
    if s == {q} {
      p := q;
    } else {
      p := FirstExists(s - {q});
      if Less(q, p) {
        p := q;
      }
    }
  }

  lemma FirstIsUnique(p: ProdIndex, q: ProdIndex, s: set<ProdIndex>)
    requires IsFirst(p, s) && IsFirst(q, s)
    ensures p == q
  {
    AtMostOneOrder(p, q);
  }

  /** What is reported for a product: its earliest missing chunk. */
  function Report(a: Assembly): Option<(ProdIndex, nat)> {
    match EarliestMissing(a)
    case Some(i) => Some((a.info.index, i))
    case None => None
  }

  /** A chunk that a stored product lacks. */
  ghost predicate Missing(s: Store, p: ProdIndex, i: P.uint32)
    requires s.Valid()
  {
    p in s.prods && i < P.NumChunks(s.prods[p].info) && !s.prods[p].HaveChunk(i)
  }

  /**
   * What is reported for the first incomplete product. If that product lacks a chunk, then it's
   * the least missing chunk of the whole store. If it's full and only lacks its name, then nothing
   * is reported, although later products may lack chunks.
   */
  lemma ReportedChunkIsLeast(s: Store, base: ProdIndex, first: ProdIndex)
    requires s.Valid() && s.TracksIncomplete() && InWindow(base, s.prods.Keys)
    requires IsFirst(first, s.incomplete.Keys)
    ensures s.incomplete[first] == first && first in s.prods
    ensures match EarliestMissing(s.prods[first])
            case Some(i) =>
              i < P.NumChunks(s.prods[first].info) && Missing(s, first, i) &&
              forall q, j :: Missing(s, q, j) ==> Less(first, q) || (first == q && i <= j)
            case None => forall j :: !Missing(s, first, j)
    ensures EarliestMissing(s.prods[first]).None? <==>
              (s.prods[first].complete || P.NumChunks(s.prods[first].info) == 0)
  {
    var a := s.prods[first];
    EarliestMissingIsLeast(a);
    forall q, j | Missing(s, q, j)
      ensures q in s.incomplete
    {
      assert !s.prods[q].complete;
    }
    if EarliestMissing(a).None? && !a.complete && P.NumChunks(a.info) > 0 {
      FirstMissingIsLeast(a.chunkVec, 0);
      assert a.Held() == Below(P.NumChunks(a.info));
      BelowHasSize(P.NumChunks(a.info));
      assert false;
    }
  }

  /** What is reported for a store: the earliest missing chunk of the product that the first key leads to. */
  ghost function Reported(s: Store): Option<(ProdIndex, nat)> {
    if exists first :: IsFirst(first, s.incomplete.Keys) && s.incomplete[first] in s.prods then
      var first :| IsFirst(first, s.incomplete.Keys) && s.incomplete[first] in s.prods;
      Report(s.prods[s.incomplete[first]])
    else None
  }

  /** The first incomplete product has all its chunks, or none to have. */
  ghost predicate FirstLacksNoChunk(s: Store)
    requires s.Valid()
  {
    exists first ::
      && IsFirst(first, s.incomplete.Keys) && first in s.prods
      && (s.prods[first].complete || P.NumChunks(s.prods[first].info) == 0)
  }

  /**
   * An answer to the question which chunk to ask for: a missing chunk than which no other missing one
   * is earlier; and none exactly if no product is incomplete, or the first one lacks no chunk.
   */
  ghost predicate IsLeastMissing(s: Store, answer: Option<(ProdIndex, nat)>)
    requires s.Valid()
  {
    && (answer.None? <==> s.incomplete == map[] || FirstLacksNoChunk(s))
    && match answer
       case None => true
       case Some((p, i)) =>
         && i < P.TWO_TO_32 && Missing(s, p, i)
         && forall q, j :: Missing(s, q, j) ==> Less(p, q) || (p == q && i <= j)
  }

  lemma ReportedFor(s: Store, first: ProdIndex)
    requires IsFirst(first, s.incomplete.Keys) && s.incomplete[first] in s.prods
    ensures Reported(s) == Report(s.prods[s.incomplete[first]])
  {
    forall other | IsFirst(other, s.incomplete.Keys)
      ensures other == first
    {
      FirstIsUnique(first, other, s.incomplete.Keys);
    }
    hide IsFirst, Report;
  }

  /** What is reported is such an answer, in a store that knows its incomplete products. */
  lemma ReportedIsLeast(s: Store, base: ProdIndex)
    requires s.Valid() && s.TracksIncomplete() && InWindow(base, s.prods.Keys)
    ensures IsLeastMissing(s, Reported(s))
  {
    if s.incomplete == map[] {
      assert Reported(s) == None;
    } else {
      assert s.incomplete.Keys != {};
      StrictTotalOrderInWindow(base, s.incomplete.Keys);
      var first := FirstExists(s.incomplete.Keys);
      assert s.incomplete[first] in s.prods;
      ReportedFor(s, first);
      ReportedChunkIsLeast(s, base, first);
      forall other | IsFirst(other, s.incomplete.Keys)
        ensures other == first
      {
        FirstIsUnique(first, other, s.incomplete.Keys);
      }
      hide IsFirst, Reported, P.NumChunks;
    }
  }

  lemma NothingReported(s: Store)
    ensures s.incomplete == map[] ==> Reported(s) == None
  {
  }

  lemma ReportedIsLeastInAnyWindow(s: Store)
    requires s.Valid() && s.TracksIncomplete()
    ensures forall base :: InWindow(base, s.prods.Keys) ==> IsLeastMissing(s, Reported(s))
  {
    forall base | InWindow(base, s.prods.Keys)
      ensures IsLeastMissing(s, Reported(s))
    {
      ReportedIsLeast(s, base);
    }
  }

  // ---------------------------------------------------------------- the mutable map

  /** What an addition comes to. Where the ordered map isn't usable, that's everything but the ordered map. */
  ghost predicate IsMapAdd(s: Store, thing: Thing, buffer: seq<Byte>, s': Store, r: Result<Status, Error>)
    requires s.Valid() && Acceptable(thing, buffer)
  {
    && r == MapAdd(s, thing, buffer).1
    && s'.IsLike(MapAdd(s, thing, buffer).0)
    && (IsUsable(s.incomplete, thing.info.index) ==> s' == MapAdd(s, thing, buffer).0)
  }

  class ProdMap {
    var prods: map<ProdIndex, Assembly>
    var incomplete: OrderedMap
    var earliest: ProdIndex
    var latest: ProdIndex

    ghost function Value(): Store
      reads this
    {
      Store(prods, incomplete, earliest, latest, None)
    }

    constructor ()
      ensures Value() == EMPTY
    {
      prods := map[];
      incomplete := map[];
      earliest := 0;
      latest := 0;
    }

    method UpdateEndIndexes(index: ProdIndex)
      modifies this`earliest, this`latest
      ensures Value() == UpdateEnds(old(Value()), index)
    {
      if |prods| == 0 {
        latest := index;
        earliest := index;
      } else {
        if IsEarlierThan(index, earliest) {
          earliest := index;
        }
        if IsEarlierThan(latest, index) {
          latest := index;
        }
      }
    }

    /** Where the ordered map isn't usable, nothing is said of what becomes of it. */
    method InsertEntry(entry: Assembly)
      modifies this
      ensures Value().IsLike(Insert(old(Value()), entry))
      ensures IsUsable(old(incomplete), entry.info.index) ==> Value() == Insert(old(Value()), entry)
    {
      var index := entry.info.index;
      prods := prods[index := entry];
      incomplete := Assign(incomplete, index, index);
      hide Assigned, IsUsable;
      UpdateEndIndexes(index);
    }

    method UpdateEntry(entry: Assembly)
      modifies this`prods, this`incomplete
      ensures Value().IsLike(Update(old(Value()), entry))
      ensures IsUsable(old(incomplete), entry.info.index) ==> Value() == Update(old(Value()), entry)
    {
      hide Removed, IsUsable;
      prods := prods[entry.info.index := entry];
      if entry.IsComplete() {
        incomplete := Remove(incomplete, entry.info.index);
      }
    }

    method AddInformation(info: ProdInfo, buffer: seq<Byte>) returns (r: Result<Status, Error>)
      requires Value().Valid() && Acceptable(Information(info), buffer)
      modifies this
      ensures Value().Valid()
      ensures IsMapAdd(old(Value()), Information(info), buffer, Value(), r)
    {
      MapAddKeeps(Value(), Information(info), buffer);
      hide Insert, Update, IsUsable, Fresh;
      if info.index !in prods {
        InsertEntry(Fresh(info, buffer));
        return Success(Status(true, false));
      }
      var (entry, added) := SetInfo(prods[info.index], info);
      if added.Failure? {
        prods := prods[info.index := entry];
        return Failure(added.error);
      }
      UpdateEntry(entry);
      return Success(Status(added.value, entry.IsComplete()));
    }

    method AddFirstChunk(header: ProdInfo, i: P.uint32, available: seq<Byte>, buffer: seq<Byte>)
      returns (r: Result<Status, Error>)
      requires Value().Valid() && Acceptable(LatentChunk(header, i, available), buffer) && header.index !in prods
      modifies this
      ensures IsMapAdd(old(Value()), LatentChunk(header, i, available), buffer, Value(), r)
    {
      FreshIsValid(header, buffer);
      var (entry, added) := Add(Fresh(header, buffer), Latent(header, i, available));
      AddHolds(Fresh(header, buffer), Latent(header, i, available));
      hide Insert, Update, IsUsable, Fresh, Add;
      if added.Failure? {
        return Failure(added.error);
      }
      InsertEntry(entry);
      return Success(Status(true, false));
    }

    method AddFurtherChunk(header: ProdInfo, i: P.uint32, available: seq<Byte>, ghost buffer: seq<Byte>)
      returns (r: Result<Status, Error>)
      requires Value().Valid() && Acceptable(LatentChunk(header, i, available), buffer) && header.index in prods
      modifies this
      ensures IsMapAdd(old(Value()), LatentChunk(header, i, available), buffer, Value(), r)
    {
      var (entry, added) := Add(prods[header.index], Latent(header, i, available));
      AddHolds(prods[header.index], Latent(header, i, available));
      hide Insert, Update, IsUsable, Fresh, Add;
      if added.Failure? {
        prods := prods[header.index := entry];
        return Failure(added.error);
      }
      UpdateEntry(entry);
      return Success(Status(added.value, entry.IsComplete()));
    }

    method AddChunk(header: ProdInfo, i: P.uint32, available: seq<Byte>, buffer: seq<Byte>)
      returns (r: Result<Status, Error>)
      requires Value().Valid() && Acceptable(LatentChunk(header, i, available), buffer)
      modifies this
      ensures Value().Valid()
      ensures IsMapAdd(old(Value()), LatentChunk(header, i, available), buffer, Value(), r)
    {
      MapAddKeeps(Value(), LatentChunk(header, i, available), buffer);
      hide MapAdd, Acceptable, IsUsable;
      if header.index in prods {
        r := AddFurtherChunk(header, i, available, buffer);
      } else {
        r := AddFirstChunk(header, i, available, buffer);
      }
    }

    method EraseProduct(index: ProdIndex)
      modifies this
      ensures Value().IsLike(Erase(old(Value()), index))
      ensures IsUsable(old(incomplete), index) ==> Value() == Erase(old(Value()), index)
    {
      prods := prods - {index};
      incomplete := Remove(incomplete, index);
    }

    /** The chunk to ask for: the earliest missing one of the product under the first key. */
    method IdentifyEarliestMissingChunk() returns (r: Option<(ProdIndex, nat)>)
      requires IsOrdered(incomplete.Keys) && AreDistinct(incomplete.Keys)
      requires forall k :: k in incomplete ==> incomplete[k] in prods
      ensures r == Reported(Value())
      ensures Value().Valid() && Value().TracksIncomplete() ==>
                forall base :: InWindow(base, prods.Keys) ==> IsLeastMissing(Value(), r)
    {
      r := None;
      hide IsLeastMissing, Store.Valid, Store.TracksIncomplete, InWindow, Reported;
      NothingReported(Value());
      if incomplete != map[] {
        assert incomplete.Keys != {};
        ghost var least := FirstExists(incomplete.Keys);
        assert forall q :: q in incomplete ==> q == least || Less(least, q);
        var first :| first in incomplete && forall q :: q in incomplete ==> q == first || Less(first, q);
        assert IsFirst(first, incomplete.Keys);
        ReportedFor(Value(), first);
        hide *;
        r := Report(prods[incomplete[first]]);
      }
      if Value().Valid() && Value().TracksIncomplete() {
        ReportedIsLeastInAnyWindow(Value());
      }
    }
  }
}
