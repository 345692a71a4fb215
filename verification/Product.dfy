/**
 * The reassembly of a product from chunks that arrive in any order, more than once, over two
 * transports, and possibly cut short.
 */
module Reassembly {
  import opened Wrappers
  import opened Bytes
  import P = ProductInfo

  type ProdInfo = P.ProdInfo

  datatype Error = InvalidArgument | RuntimeError

  /** The value of a partial product. */
  datatype Assembly = Assembly(
    info: ProdInfo,
    chunkVec: seq<bool>,
    data: seq<Byte>,
    numChunks: nat,
    complete: bool)
  {
    ghost predicate Valid() {
      && info.canonSize > 0
      && |data| == info.size
      && (complete ==> numChunks == P.NumChunks(info) > 0)
      && (!complete ==> |chunkVec| == P.NumChunks(info))
      && numChunks == |Held()|
      && (!complete && P.NumChunks(info) > 0 ==> numChunks < P.NumChunks(info))
    }

    predicate HaveChunk(i: P.uint32)
      requires info.canonSize > 0
      requires !complete ==> |chunkVec| == P.NumChunks(info)
    {
      i < P.NumChunks(info) && (complete || chunkVec[i])
    }

    ghost function Held(): set<P.uint32>
      requires info.canonSize > 0
      requires !complete ==> |chunkVec| == P.NumChunks(info)
    {
      set i: P.uint32 | i < P.NumChunks(info) && HaveChunk(i)
    }

    /** Full and named. */
    predicate IsComplete() {
      complete && info.name != ""
    }
  }

  /**
   * Something that is delivered: a chunk in memory, or a chunk that is still in the transport, of
   * which the given bytes can be read. Its place comes from its own header.
   */
  datatype Delivery =
    | Actual(header: ProdInfo, index: P.uint32, bytes: seq<Byte>)
    | Latent(header: ProdInfo, index: P.uint32, available: seq<Byte>)

  function Fresh(info: ProdInfo, data: seq<Byte>): Assembly
    requires info.canonSize > 0
  {
    Assembly(info, seq(P.NumChunks(info), i => false), data, 0, false)
  }

  /** Counts a chunk in; the bit-vector is emptied when the product is full. */
  function Accept(a: Assembly, i: P.uint32, data: seq<Byte>): Assembly
    requires a.info.canonSize > 0 && i < |a.chunkVec|
  {
    var full := a.numChunks + 1 == P.NumChunks(a.info);
    Assembly(a.info, if full then [] else a.chunkVec[i := true], data, a.numChunks + 1, full)
  }

  function Where(info: ProdInfo, i: P.uint32): P.uint32
    requires info.canonSize > 0 && i < P.NumChunks(info)
  {
    P.ChunkOffset(info, i).value
  }

  function HowMany(info: ProdInfo, i: P.uint32): P.uint16
    requires info.canonSize > 0 && i < P.NumChunks(info)
  {
    P.ChunkSize(info, i).value
  }

  lemma ChunkIsInside(info: ProdInfo, i: P.uint32)
    requires info.canonSize > 0 && i < P.NumChunks(info)
    ensures P.Fits(info) && info.size > 0
    ensures Where(info, i) + HowMany(info, i) <= info.size
    ensures HowMany(info, i) > 0
  {
    P.NumChunksIsExact(info);
    P.ChunkBounds(info, i);
  }

  /**
   * A chunk's index has been vetted against its own header, which needn't be about the same geometry
   * as the product. An in-memory chunk is looked up and copied without any test, so its index must be
   * one of the product's and its place inside the buffer.
   */
  ghost predicate Proper(info: ProdInfo, d: Delivery)
    requires info.canonSize > 0
  {
    && d.header.canonSize > 0 && d.index < P.NumChunks(d.header)
    && (d.Actual? ==>
          && d.index < P.NumChunks(info) && |d.bytes| == HowMany(d.header, d.index)
          && Where(d.header, d.index) + |d.bytes| <= info.size)
  }

  /**
   * The guard against writing beyond the buffer, in 32-bit arithmetic: the chunk's own offset, and
   * the size that the product expects.
   */
  predicate PassesGuard(info: ProdInfo, header: ProdInfo, i: P.uint32)
    requires info.canonSize > 0 && i < P.NumChunks(info)
    requires header.canonSize > 0 && i < P.NumChunks(header)
  {
    (Where(header, i) + HowMany(info, i)) % P.TWO_TO_32 <= info.size
  }

  /** The guard's sum doesn't wrap. So it's exact, and it passes every header that doesn't claim larger chunks. */
  lemma GuardIsExact(info: ProdInfo, header: ProdInfo, i: P.uint32)
    requires info.canonSize > 0 && i < P.NumChunks(info)
    requires header.canonSize > 0 && i < P.NumChunks(header)
    ensures PassesGuard(info, header, i) <==> Where(header, i) + HowMany(info, i) <= info.size
    ensures header.canonSize <= info.canonSize ==> PassesGuard(info, header, i)
  {
    P.NumChunksIsExact(info);
    P.NumChunksIsExact(header);
    P.ChunkBounds(info, i);
    P.ChunkBounds(header, i);
    P.ProductMonotone(i, header.canonSize, info.canonSize);
    hide P.NumChunks, P.ChunkSize, P.ChunkOffset;
    P.SmallModulo(Where(header, i) + HowMany(info, i), P.TWO_TO_32);
  }

  /** Where a chunk's header puts it is where the product has it: for index 0, and if the canonical sizes agree. */
  lemma PlaceIsRight(info: ProdInfo, header: ProdInfo, i: P.uint32)
    requires info.canonSize > 0 && i < P.NumChunks(info)
    requires header.canonSize > 0 && i < P.NumChunks(header)
    ensures Where(header, i) == Where(info, i) <==> i == 0 || header.canonSize == info.canonSize
  {
    P.NumChunksIsExact(info);
    P.NumChunksIsExact(header);
    P.ChunkBounds(info, i);
    P.ChunkBounds(header, i);
    P.ProductInjective(i, header.canonSize, info.canonSize);
    hide P.NumChunks, P.ChunkSize, P.ChunkOffset;
  }

  /**
   * `add()`, for both kinds of chunk. The consistency test compares whether the chunk's information
   * and the product's are there at all, so it doesn't look at the header.
   */
  function Add(a: Assembly, d: Delivery): (Assembly, Result<bool, Error>)
    requires a.Valid() && Proper(a.info, d)
  {
    if a.complete then (a, Success(false))
    else if P.NumChunks(a.info) <= d.index then (a, Failure(InvalidArgument))
    else if a.chunkVec[d.index] then (a, Success(false))
    else
      ChunkIsInside(a.info, d.index);
      match d
      case Actual(header, i, bytes) => (Accept(a, i, Put(a.data, Where(header, i), bytes)), Success(true))
      case Latent(header, i, available) =>
        GuardIsExact(a.info, header, i);
        if !PassesGuard(a.info, header, i) then (a, Failure(RuntimeError))
        else
          var expected := HowMany(a.info, i);
          var drained := available[..Min(|available|, expected)];
          var data := Put(a.data, Where(header, i), drained);
          if |drained| != expected then (a.(data := data), Failure(RuntimeError))
          else (Accept(a, i, data), Success(true))
  }

  /** `set()`: only the name can differ. */
  function SetInfo(a: Assembly, info: ProdInfo): (Assembly, Result<bool, Error>) {
    if !a.info.EqualsExceptName(info) then (a, Failure(RuntimeError))
    else (a.(info := info), Success(a.info.name == "" && info.name != ""))
  }

  /** The earliest chunk that isn't there, as an option: the identifier's own validity flag is false for chunk 0. */
  function FirstMissing(chunkVec: seq<bool>, from: nat): Option<nat>
    requires from <= |chunkVec|
    decreases |chunkVec| - from
  {
    if from == |chunkVec| then None
    else if !chunkVec[from] then Some(from)
    else FirstMissing(chunkVec, from + 1)
  }

  function EarliestMissing(a: Assembly): Option<nat> {
    if a.complete then None else FirstMissing(a.chunkVec, 0)
  }

  // ---------------------------------------------------------------- counting

  predicate IsBelow(i: P.uint32, n: nat) {
    i < n
  }

  ghost function Below(n: nat): set<P.uint32> {
    set i: P.uint32 | IsBelow(i, n)
  }

  lemma {:induction false} BelowHasSize(n: nat)
    requires n <= P.TWO_TO_32
    ensures |Below(n)| == n
  {
    if n == 0 {
      assert Below(0) == {};
    } else {
      BelowHasSize(n - 1);
      var top: P.uint32 := n - 1;
      assert Below(n) == Below(n - 1) + {top};
    }
  }

  lemma SubsetSize<T>(a: set<T>, b: set<T>)
    requires a <= b
    ensures |a| <= |b| && (|a| == |b| ==> a == b)
  {
    assert b == a + (b - a);
    assert |b| == |a| + |b - a|;
  }

  // ---------------------------------------------------------------- each operation keeps the representation

  lemma FreshIsValid(info: ProdInfo, data: seq<Byte>)
    requires info.canonSize > 0 && |data| == info.size
    ensures Fresh(info, data).Valid() && Fresh(info, data).Held() == {}
  {
    assert Fresh(info, data).Held() == {};
  }

  lemma AcceptHolds(a: Assembly, i: P.uint32, data: seq<Byte>)
    requires a.Valid() && !a.complete && i < P.NumChunks(a.info) && !a.HaveChunk(i) && |data| == a.info.size
    ensures Accept(a, i, data).Valid()
    ensures Accept(a, i, data).Held() == a.Held() + {i}
  {
    var n := P.NumChunks(a.info);
    var a' := Accept(a, i, data);
    assert a.Held() + {i} <= Below(n);
    BelowHasSize(n);
    SubsetSize(a.Held() + {i}, Below(n));
    assert i !in a.Held();
    if a.numChunks + 1 == n {
      assert a.Held() + {i} == Below(n);
      assert a'.Held() == Below(n);
    } else {
      assert a'.Held() == a.Held() + {i};
    }
  }

  lemma SetHolds(a: Assembly, info: ProdInfo)
    requires a.Valid()
    ensures SetInfo(a, info).0.Valid() && SetInfo(a, info).0.Held() == a.Held()
  {
    var a' := SetInfo(a, info).0;
    assert P.NumChunks(a'.info) == P.NumChunks(a.info);
    assert forall i: P.uint32 :: a'.HaveChunk(i) == a.HaveChunk(i);
    assert a'.Held() == a.Held();
  }

  /**
   * Information is taken exactly if it agrees with the product's in everything but the name; then it's
   * the product's information, and it's news exactly if it gives the product a name.
   */
  lemma InformationIsTaken(a: Assembly, info: ProdInfo)
    ensures var (a', r) := SetInfo(a, info);
            var agrees := info.index == a.info.index && info.size == a.info.size && info.canonSize == a.info.canonSize;
            && r == (if agrees then Success(a.info.name == "" && a'.info.name != "") else Failure(RuntimeError))
            && a'.info == (if agrees then info else a.info)
            && a'.(info := a.info) == a
  {
  }

  /**
   * A chunk can't be added exactly if it isn't there and it's not one of the product's, or doesn't fit
   * where its header puts it, or is cut short.
   */
  lemma AdditionFails(a: Assembly, d: Delivery)
    requires a.Valid() && Proper(a.info, d)
    ensures Add(a, d).1.Failure? <==> !a.complete && d.index !in a.Held() && !Full(a.info, d)
    ensures Add(a, d).1 == Failure(InvalidArgument) <==> !a.complete && P.NumChunks(a.info) <= d.index
  {
    if !a.complete && d.index < P.NumChunks(a.info) && !a.chunkVec[d.index] {
      ChunkIsInside(a.info, d.index);
      if d.Latent? {
        GuardIsExact(a.info, d.header, d.index);
      }
    }
  }

  /** A delivery that brings all bytes of a valid chunk, to a place inside the buffer. */
  ghost predicate Full(info: ProdInfo, d: Delivery)
    requires info.canonSize > 0 && Proper(info, d)
  {
    && d.index < P.NumChunks(info)
    && (d.Latent? ==> |d.available| >= HowMany(info, d.index) && PassesGuard(info, d.header, d.index))
  }

  lemma AddLatentHolds(a: Assembly, d: Delivery)
    requires a.Valid() && Proper(a.info, d) && d.Latent?
    requires !a.complete && d.index < P.NumChunks(a.info) && !a.chunkVec[d.index]
    ensures var (a', r) := Add(a, d);
            && a'.Valid() && a'.info == a.info
            && a'.Held() == a.Held() + (if Full(a.info, d) then {d.index} else {})
            && (r == Success(true) <==> Full(a.info, d))
  {
    ChunkIsInside(a.info, d.index);
    GuardIsExact(a.info, d.header, d.index);
    if PassesGuard(a.info, d.header, d.index) {
      hide P.NumChunks, P.ChunkOffset, P.ChunkSize;
      var offset, expected := Where(d.header, d.index), HowMany(a.info, d.index);
      var drained := d.available[..Min(|d.available|, expected)];
      if |drained| == expected {
        AcceptHolds(a, d.index, Put(a.data, offset, drained));
      } else {
        assert a.(data := Put(a.data, offset, drained)).Held() == a.Held();
      }
    }
  }

  /**
   * A delivery is accepted exactly if it is full and its chunk isn't there yet; then exactly that
   * chunk is added, and otherwise the chunks that are there stay the same.
   */
  lemma AddHolds(a: Assembly, d: Delivery)
    requires a.Valid() && Proper(a.info, d)
    ensures var (a', r) := Add(a, d);
            && a'.Valid() && a'.info == a.info
            && a'.Held() == a.Held() + (if Full(a.info, d) then {d.index} else {})
            && (r == Success(true) <==> Full(a.info, d) && d.index !in a.Held())
  {
    if !a.complete && d.index < P.NumChunks(a.info) && !a.chunkVec[d.index] {
      ChunkIsInside(a.info, d.index);
      hide P.NumChunks, P.ChunkOffset, P.ChunkSize;
      match d
      case Actual(header, i, bytes) => AcceptHolds(a, i, Put(a.data, Where(header, i), bytes));
      case Latent(_, _, _) => AddLatentHolds(a, d);
    }
  }

  /** What can be read of a chunk that's missing is written where its header puts it, even if it's cut short. */
  lemma AdditionWrites(a: Assembly, d: Delivery)
    requires a.Valid() && Proper(a.info, d)
    ensures Add(a, d).0.data ==
            if a.complete || d.index >= P.NumChunks(a.info) || d.index in a.Held() then a.data
            else if d.Actual? then Put(a.data, Where(d.header, d.index), d.bytes)
            else if Where(d.header, d.index) + HowMany(a.info, d.index) > a.info.size then a.data
            else Put(a.data, Where(d.header, d.index), d.available[..Min(|d.available|, HowMany(a.info, d.index))])
  {
    if !a.complete && d.index < P.NumChunks(a.info) {
      ChunkIsInside(a.info, d.index);
      GuardIsExact(a.info, d.header, d.index);
    }
    hide P.NumChunks, P.ChunkOffset, P.ChunkSize, Where, HowMany, PassesGuard, Accept;
  }

  // ---------------------------------------------------------------- where a latent chunk lands

  /**
   * An accepted latent chunk is written where its own header puts it. That's its chunk's place in
   * the product exactly if the index is 0 or the header's canonical size is the product's.
   */
  lemma LandsInPlace(a: Assembly, header: ProdInfo, i: P.uint32, available: seq<Byte>)
    requires a.Valid() && Proper(a.info, Latent(header, i, available))
    requires Add(a, Latent(header, i, available)).1 == Success(true)
    ensures i < P.NumChunks(a.info) && |available| >= HowMany(a.info, i)
    ensures Where(header, i) + HowMany(a.info, i) <= |a.data|
    ensures Add(a, Latent(header, i, available)).0.data ==
            Put(a.data, Where(header, i), available[..HowMany(a.info, i)])
    ensures Where(header, i) == Where(a.info, i) <==> i == 0 || header.canonSize == a.info.canonSize
  {
    assert i < P.NumChunks(a.info);
    GuardIsExact(a.info, header, i);
    PlaceIsRight(a.info, header, i);
    hide P.NumChunks, P.ChunkSize, P.ChunkOffset, Where, HowMany;
  }

  /**
   * A header that disagrees, and is accepted: a product of four bytes in chunks of two gets its
   * second chunk under a header that says chunks of one. The chunk counts as held, but the buffer
   * doesn't have its bytes there.
   */
  lemma MisplacedChunk()
    ensures var info, header := P.ProdInfo(0, "name", 4, 2), P.ProdInfo(0, "", 4, 1);
            var source: seq<Byte> := [10, 11, 12, 13];
            var a := Fresh(info, [0, 0, 0, 0]);
            var d := Latent(header, 1, source[2..]);
            && a.Valid() && Proper(info, d)
            && Add(a, d).1 == Success(true)
            && 1 in Add(a, d).0.Held()
            && Add(a, d).0.data == [0, 12, 13, 0] && Add(a, d).0.data[2..4] != source[2..4]
  {
    var info, header := P.ProdInfo(0, "name", 4, 2), P.ProdInfo(0, "", 4, 1);
    FreshIsValid(info, [0, 0, 0, 0]);
    var source: seq<Byte> := [10, 11, 12, 13];
    var a := Fresh(info, [0, 0, 0, 0]);
    var d := Latent(header, 1, source[2..]);
    assert P.NumChunks(info) == 2 && P.NumChunks(header) == 4;
    assert Where(header, 1) == 1 && HowMany(info, 1) == 2;
    AddHolds(a, d);
    assert Add(a, d).1 == Success(true);
    LandsInPlace(a, header, 1, source[2..]);
    hide Add, Fresh;
    assert source[2..][..2] == [12, 13];
    assert Put([0, 0, 0, 0], 1, [12, 13]) == [0, 12, 13, 0];
    assert [0, 12, 13, 0][2..4][0] == 13 && source[2..4][0] == 12;
  }

  // ---------------------------------------------------------------- agreement with the source

  function SourceChunk(info: ProdInfo, source: seq<Byte>, i: P.uint32): seq<Byte>
    requires info.canonSize > 0 && |source| == info.size && i < P.NumChunks(info)
  {
    ChunkIsInside(info, i);
    source[Where(info, i)..Where(info, i) + HowMany(info, i)]
  }

  /** The chunks that are there have the source's bytes. */
  ghost predicate Agrees(a: Assembly, source: seq<Byte>)
    requires a.Valid() && |source| == a.info.size
  {
    forall i: P.uint32, k: nat ::
      i in a.Held() && Where(a.info, i) <= k < Where(a.info, i) + HowMany(a.info, i) && k < |source| ==>
        a.data[k] == source[k]
  }

  /**
   * A delivery whose bytes come from the source -- the whole chunk, a truncation of it, or the chunk
   * and what follows it -- and go to its place.
   */
  ghost predicate FromSource(info: ProdInfo, source: seq<Byte>, d: Delivery)
    requires info.canonSize > 0 && |source| == info.size
  {
    d.index < P.NumChunks(info) ==>
      && (d.index == 0 || d.header.canonSize == info.canonSize)
      && match d
         case Actual(_, i, bytes) => bytes == SourceChunk(info, source, i)
         case Latent(_, i, available) =>
           available <= SourceChunk(info, source, i) || SourceChunk(info, source, i) <= available
  }

  lemma DisjointChunks(info: ProdInfo, i: P.uint32, j: P.uint32, k: nat)
    requires info.canonSize > 0 && i < P.NumChunks(info) && j < P.NumChunks(info)
    requires Where(info, i) <= k < Where(info, i) + HowMany(info, i)
    requires Where(info, j) <= k < Where(info, j) + HowMany(info, j)
    ensures i == j
  {
    ChunkIsInside(info, i);
    P.ChunksTile(info, i, k);
    P.ChunksTile(info, j, k);
  }

  /** Nothing that arrives later damages a chunk that is there, a truncated delivery included. */
  lemma PutKeepsOthers(a: Assembly, source: seq<Byte>, i: P.uint32, bytes: seq<Byte>)
    requires a.Valid() && |source| == a.info.size && Agrees(a, source)
    requires i < P.NumChunks(a.info) && i !in a.Held()
    requires |bytes| <= HowMany(a.info, i) && bytes <= SourceChunk(a.info, source, i)
    ensures Where(a.info, i) + |bytes| <= |a.data|
    ensures var data := Put(a.data, Where(a.info, i), bytes);
            && (forall j: P.uint32, k: nat ::
                  j in a.Held() && Where(a.info, j) <= k < Where(a.info, j) + HowMany(a.info, j) && k < |source| ==>
                    data[k] == source[k])
            && (forall k: nat :: Where(a.info, i) <= k < Where(a.info, i) + |bytes| ==> data[k] == source[k])
  {
    ChunkIsInside(a.info, i);
    var data := Put(a.data, Where(a.info, i), bytes);
    var chunk := SourceChunk(a.info, source, i);
    forall j: P.uint32, k: nat |
      j in a.Held() && Where(a.info, j) <= k < Where(a.info, j) + HowMany(a.info, j) && k < |source|
      ensures data[k] == source[k]
    {
      if Where(a.info, i) <= k < Where(a.info, i) + |bytes| {
        DisjointChunks(a.info, i, j, k);
      }
    }
    forall k: nat | Where(a.info, i) <= k < Where(a.info, i) + |bytes|
      ensures data[k] == source[k]
    {
      assert bytes[k - Where(a.info, i)] == chunk[k - Where(a.info, i)];
    }
  }

  /** A missing chunk of which some bytes, that come from the source, are written to its place. */
  lemma WrittenAgrees(a: Assembly, source: seq<Byte>, i: P.uint32, bytes: seq<Byte>, a': Assembly)
    requires a.Valid() && |source| == a.info.size && Agrees(a, source)
    requires i < P.NumChunks(a.info) && i !in a.Held()
    requires |bytes| <= HowMany(a.info, i) && bytes <= SourceChunk(a.info, source, i)
    requires Where(a.info, i) + |bytes| <= |a.data| && a'.data == Put(a.data, Where(a.info, i), bytes)
    requires a'.Valid() && a'.info == a.info
    requires a'.Held() == a.Held() + if |bytes| == HowMany(a.info, i) then {i} else {}
    ensures Agrees(a', source)
  {
    hide P.NumChunks, Where, HowMany, Put, SourceChunk, Assembly.Held, Assembly.Valid;
    PutKeepsOthers(a, source, i, bytes);
  }

  lemma AddAgrees(a: Assembly, source: seq<Byte>, d: Delivery)
    requires a.Valid() && Proper(a.info, d)
    requires |source| == a.info.size && Agrees(a, source) && FromSource(a.info, source, d)
    ensures Add(a, d).0.Valid() && Add(a, d).0.info == a.info && Agrees(Add(a, d).0, source)
  {
    AddHolds(a, d);
    AdditionWrites(a, d);
    var a' := Add(a, d).0;
    if !a.complete && d.index < P.NumChunks(a.info) && d.index !in a.Held() {
      ChunkIsInside(a.info, d.index);
      PlaceIsRight(a.info, d.header, d.index);
      GuardIsExact(a.info, d.header, d.index);
      var chunk := SourceChunk(a.info, source, d.index);
      var bytes := if d.Actual? then d.bytes else d.available[..Min(|d.available|, |chunk|)];
      hide Add, Agrees, P.NumChunks, Put;
      WrittenAgrees(a, source, d.index, bytes, a');
    } else {
      hide Add, P.NumChunks, Full;
      assert a'.Held() == a.Held() && a'.data == a.data;
    }
  }

  // ---------------------------------------------------------------- every delivery sequence

  /** The product after a sequence of deliveries, whatever each of them returned or threw. */
  ghost function AfterAll(info: ProdInfo, garbage: seq<Byte>, ds: seq<Delivery>): (a: Assembly)
    requires info.canonSize > 0 && |garbage| == info.size
    requires forall d :: d in ds ==> Proper(info, d)
    ensures a.Valid() && a.info == info
  {
    if ds == [] then
      FreshIsValid(info, garbage);
      Fresh(info, garbage)
    else
      var before := AfterAll(info, garbage, ds[..|ds| - 1]);
      AddHolds(before, ds[|ds| - 1]);
      Add(before, ds[|ds| - 1]).0
  }

  /** The chunks that have been delivered in full at least once. */
  ghost function DeliveredInFull(info: ProdInfo, ds: seq<Delivery>): set<P.uint32>
    requires info.canonSize > 0 && forall d :: d in ds ==> Proper(info, d)
  {
    set d | d in ds && Full(info, d) :: d.index
  }

  lemma DeliveredOneMore(info: ProdInfo, ds: seq<Delivery>, last: Delivery)
    requires info.canonSize > 0 && Proper(info, last) && forall d :: d in ds ==> Proper(info, d)
    ensures DeliveredInFull(info, ds + [last]) ==
            DeliveredInFull(info, ds) + if Full(info, last) then {last.index} else {}
  {
  }

  lemma {:induction false} HeldIsDelivered(info: ProdInfo, garbage: seq<Byte>, source: seq<Byte>, ds: seq<Delivery>)
    requires info.canonSize > 0 && |garbage| == |source| == info.size
    requires forall d :: d in ds ==> Proper(info, d) && FromSource(info, source, d)
    ensures AfterAll(info, garbage, ds).Held() == DeliveredInFull(info, ds)
    ensures Agrees(AfterAll(info, garbage, ds), source)
  {
    if ds == [] {
      FreshIsValid(info, garbage);
    } else {
      var prefix, last := ds[..|ds| - 1], ds[|ds| - 1];
      assert ds == prefix + [last];
      hide Add, Full, Agrees, FromSource, Proper, DeliveredInFull;
      HeldIsDelivered(info, garbage, source, prefix);
      AddHolds(AfterAll(info, garbage, prefix), last);
      AddAgrees(AfterAll(info, garbage, prefix), source, last);
      DeliveredOneMore(info, prefix, last);
    }
  }

  lemma AllHeldMeansWholeSource(a: Assembly, source: seq<Byte>)
    requires a.Valid() && |source| == a.info.size && Agrees(a, source) && a.complete
    ensures a.data == source
  {
    P.NumChunksIsExact(a.info);
    forall k: nat | k < |source|
      ensures a.data[k] == source[k]
    {
      var i := P.ChunkAt(a.info, k);
      assert a.HaveChunk(i) && i in a.Held();
    }
  }

  lemma AllHeldMeansComplete(a: Assembly)
    requires a.Valid()
    ensures a.complete <==> P.NumChunks(a.info) > 0 && forall i: P.uint32 :: i < P.NumChunks(a.info) ==> i in a.Held()
  {
    var n := P.NumChunks(a.info);
    if !a.complete && n > 0 && forall i: P.uint32 :: i < n ==> i in a.Held() {
      BelowHasSize(n);
      SubsetSize(Below(n), a.Held());
      assert false;
    }
  }

  /**
   * Reassembly, for every product and every sequence of deliveries in any order, with duplicates
   * and truncations. The buffer has the source's bytes in every chunk that was delivered in full;
   * the count is the number of distinct such chunks; the product is complete exactly when it has
   * chunks and all of them were delivered in full, and then the whole buffer is the source.
   */
  lemma ReassemblyIsCorrect(info: ProdInfo, garbage: seq<Byte>, source: seq<Byte>, ds: seq<Delivery>)
    requires info.canonSize > 0 && |garbage| == |source| == info.size
    requires forall d :: d in ds ==> Proper(info, d) && FromSource(info, source, d)
    ensures var a := AfterAll(info, garbage, ds);
            && a.numChunks == |DeliveredInFull(info, ds)|
            && (a.complete <==>
                  P.NumChunks(info) > 0 &&
                  forall i: P.uint32 :: i < P.NumChunks(info) ==> i in DeliveredInFull(info, ds))
            && (a.complete ==> a.data == source)
    ensures forall i: P.uint32 :: i in DeliveredInFull(info, ds) ==>
              Where(info, i) + HowMany(info, i) <= |source| &&
              AfterAll(info, garbage, ds).data[Where(info, i)..Where(info, i) + HowMany(info, i)] ==
                SourceChunk(info, source, i)
  {
    HeldIsDelivered(info, garbage, source, ds);
    var a := AfterAll(info, garbage, ds);
    var n := P.NumChunks(info);
    forall i: P.uint32 | i in a.Held()
      ensures Where(info, i) + HowMany(info, i) <= |source|
      ensures a.data[Where(info, i)..Where(info, i) + HowMany(info, i)] == SourceChunk(info, source, i)
    {
      ChunkIsInside(info, i);
    }
    if a.complete {
      AllHeldMeansWholeSource(a, source);
    }
    AllHeldMeansComplete(a);
  }

  /**
   * Which products can be completed at all: exactly the non-empty ones whose number of chunks can
   * be computed without wrapping. An empty product, or one within a chunk of 4 GiB, never is.
   */
  lemma Completable(info: ProdInfo)
    requires info.canonSize > 0
    ensures P.NumChunks(info) > 0 <==> info.size > 0 && P.Fits(info)
  {
    P.NumChunksIsExact(info);
    if info.size > 0 && P.Fits(info) {
      P.EveryPositionIsInAChunk(info, 0);
    } else if P.Fits(info) {
      P.QuotientIs(info.canonSize - 1, 0, info.canonSize);
    }
  }

  lemma {:induction false} FirstMissingIsLeast(chunkVec: seq<bool>, from: nat)
    requires from <= |chunkVec|
    ensures match FirstMissing(chunkVec, from)
            case Some(i) => from <= i < |chunkVec| && !chunkVec[i] && forall j :: from <= j < i ==> chunkVec[j]
            case None => forall j :: from <= j < |chunkVec| ==> chunkVec[j]
    decreases |chunkVec| - from
  {
    if from == |chunkVec| || !chunkVec[from] {
    } else {
      FirstMissingIsLeast(chunkVec, from + 1);
    }
  }

  /** The reported chunk is the least one that isn't there, and nothing is reported exactly when nothing is missing. */
  lemma EarliestMissingIsLeast(a: Assembly)
    requires a.Valid()
    ensures match EarliestMissing(a)
            case Some(i) => i < P.NumChunks(a.info) && !a.HaveChunk(i) && forall j: P.uint32 :: j < i ==> a.HaveChunk(j)
            case None => forall j: P.uint32 :: j < P.NumChunks(a.info) ==> a.HaveChunk(j)
  {
    if !a.complete {
      FirstMissingIsLeast(a.chunkVec, 0);
    }
  }

  // ---------------------------------------------------------------- the mutable product

  class PartialProduct {
    var prodInfo: ProdInfo
    var chunkVec: seq<bool>
    const data: array<Byte>
    var numChunks: nat
    var complete: bool

    ghost function Value(): Assembly
      reads this, data
    {
      Assembly(prodInfo, chunkVec, data[..], numChunks, complete)
    }

    ghost predicate Valid()
      reads this, data
    {
      Value().Valid()
    }

    /** The new buffer isn't initialized. */
    constructor (info: ProdInfo)
      requires info.canonSize > 0
      ensures Valid() && fresh(data) && Value() == Fresh(info, data[..])
    {
      prodInfo := info;
      chunkVec := seq(P.NumChunks(info), i => false);
      data := new Byte[info.size];
      numChunks := 0;
      complete := false;
      new;
      FreshIsValid(info, data[..]);
    }

    method CopyIn(offset: nat, bytes: seq<Byte>)
      requires offset + |bytes| <= data.Length
      modifies data
      ensures data[..] == Put(old(data[..]), offset, bytes)
    {
      forall k | 0 <= k < |bytes| {
        data[offset + k] := bytes[k];
      }
    }

    method AddActual(header: ProdInfo, index: P.uint32, bytes: seq<Byte>) returns (isNew: bool)
      requires Valid() && Proper(prodInfo, Actual(header, index, bytes))
      modifies this, data
      ensures Valid()
      ensures (Value(), Success(isNew)) == Add(old(Value()), Actual(header, index, bytes))
    {
      AddHolds(Value(), Actual(header, index, bytes));
      if complete {
        return false;
      }
      if chunkVec[index] {
        return false;
      }
      ChunkIsInside(header, index);
      CopyIn(P.ChunkOffset(header, index).value, bytes);
      chunkVec := chunkVec[index := true];
      numChunks := numChunks + 1;
      complete := numChunks == P.NumChunks(prodInfo);
      if complete {
        chunkVec := [];
      }
      return true;
    }

    /** Counts a chunk in whose bytes are in the buffer. */
    method CountIn(index: P.uint32)
      requires prodInfo.canonSize > 0 && index < |chunkVec|
      modifies this
      ensures Value() == Accept(old(Value()), index, data[..])
    {
      numChunks := numChunks + 1;
      complete := numChunks == P.NumChunks(prodInfo);
      if complete {
        chunkVec := [];
      } else {
        chunkVec := chunkVec[index := true];
      }
    }

    /** A chunk that's missing: the bytes are drained straight into the buffer. */
    method DrainIn(header: ProdInfo, index: P.uint32, available: seq<Byte>) returns (r: Result<bool, Error>)
      requires Valid() && Proper(prodInfo, Latent(header, index, available))
      requires !complete && index < P.NumChunks(prodInfo) && !chunkVec[index]
      modifies this, data
      ensures (Value(), r) == Add(old(Value()), Latent(header, index, available))
    {
      GuardIsExact(prodInfo, header, index);
      var expected := P.ChunkSize(prodInfo, index).value;
      var offset := P.ChunkOffset(header, index).value;
      assert PassesGuard(prodInfo, header, index) <==> (offset + expected) % P.TWO_TO_32 <= prodInfo.size;
      assert offset == Where(header, index) && expected == HowMany(prodInfo, index);
      hide P.NumChunks, P.ChunkSize, P.ChunkOffset, PassesGuard, Put, Accept, Where, HowMany;
      if (offset + expected) % P.TWO_TO_32 > prodInfo.size {
        return Failure(RuntimeError);
      }
      var drained := available[..Min(|available|, expected)];
      CopyIn(offset, drained);
      if |drained| != expected {
        return Failure(RuntimeError);
      }
      CountIn(index);
      return Success(true);
    }

    method AddLatent(header: ProdInfo, index: P.uint32, available: seq<Byte>) returns (r: Result<bool, Error>)
      requires Valid() && Proper(prodInfo, Latent(header, index, available))
      modifies this, data
      ensures Valid()
      ensures (Value(), r) == Add(old(Value()), Latent(header, index, available))
    {
      AddHolds(Value(), Latent(header, index, available));
      if complete {
        return Success(false);
      }
      if P.NumChunks(prodInfo) <= index {
        return Failure(InvalidArgument);
      }
      if chunkVec[index] {
        return Success(false);
      }
      hide Add;
      r := DrainIn(header, index, available);
    }

    method Set(info: ProdInfo) returns (r: Result<bool, Error>)
      requires Valid()
      modifies this
      ensures Valid()
      ensures (Value(), r) == SetInfo(old(Value()), info)
    {
      if info.index != prodInfo.index || info.size != prodInfo.size || info.canonSize != prodInfo.canonSize {
        return Failure(RuntimeError);
      }
      SetHolds(Value(), info);
      var isNew := prodInfo.name == "" && info.name != "";
      prodInfo := info;
      return Success(isNew);
    }

    method IdentifyEarliestMissingChunk() returns (r: Option<nat>)
      requires Valid()
      ensures r == EarliestMissing(Value())
    {
      if !complete {
        for i := 0 to |chunkVec|
          invariant FirstMissing(chunkVec, 0) == FirstMissing(chunkVec, i)
        {
          if !chunkVec[i] {
            return Some(i);
          }
        }
      }
      return None;
    }
  }
}
