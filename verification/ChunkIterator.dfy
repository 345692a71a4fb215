/** The iterator over the chunks that a store holds, in circular order of the products. */
module ChunkIteration {
  import opened Wrappers
  import opened ProdIndexes
  import opened Reassembly
  import opened ProductStore
  import P = ProductInfo

  type Position = (ProdIndex, nat)

  ghost predicate Held(s: Store, at: Position)
    requires s.Valid()
  {
    at.0 in s.prods && at.1 < P.NumChunks(s.prods[at.0].info) && s.prods[at.0].HaveChunk(at.1)
  }

  /** The chunks of one product that are there, from a chunk index on. */
  ghost function HeldIn(s: Store, p: ProdIndex, from: nat): seq<Position>
    requires s.Valid() && p in s.prods
    decreases P.NumChunks(s.prods[p].info) - from
  {
    if from >= P.NumChunks(s.prods[p].info) then []
    else (if Held(s, (p, from)) then [(p, from)] else []) + HeldIn(s, p, from + 1)
  }

  /** How many product indexes there are from a position through the latest one. */
  function ProductsLeft(s: Store, p: ProdIndex): nat {
    if LessOrEqual(p, s.latest) then Minus(s.latest, p) + 1 else 0
  }

  lemma OneProductLess(s: Store, p: ProdIndex)
    requires LessOrEqual(p, s.latest)
    ensures ProductsLeft(s, Next(p)) == ProductsLeft(s, p) - 1
  {
    MinusCases(s.latest, p);
    MinusCases(s.latest, Next(p));
  }

  /** The chunks that the iterator has still to yield when it's at a given position. */
  ghost function HeldFrom(s: Store, p: ProdIndex, from: nat): seq<Position>
    requires s.Valid()
    decreases ProductsLeft(s, p)
  {
    if !LessOrEqual(p, s.latest) then []
    else
      OneProductLess(s, p);
      (if p in s.prods then HeldIn(s, p, from) else []) + HeldFrom(s, Next(p), 0)
  }

  /** The iterator's own steps leave what is still to come alone, except that a held chunk is yielded. */
  lemma NextChunk(s: Store, p: ProdIndex, i: nat)
    requires s.Valid() && LessOrEqual(p, s.latest) && p in s.prods && i < P.NumChunks(s.prods[p].info)
    ensures HeldFrom(s, p, i) == (if Held(s, (p, i)) then [(p, i)] else []) + HeldFrom(s, p, i + 1)
  {
    OneProductLess(s, p);
  }

  lemma NextProduct(s: Store, p: ProdIndex, i: nat)
    requires s.Valid() && LessOrEqual(p, s.latest) && (p in s.prods ==> i >= P.NumChunks(s.prods[p].info))
    ensures HeldFrom(s, p, i) == HeldFrom(s, Next(p), 0)
  {
    OneProductLess(s, p);
  }

  // ---------------------------------------------------------------- what is yielded

  /** One position is before another as seen from where the iteration is. */
  predicate Before(base: ProdIndex, a: Position, b: Position) {
    Offset(base, a.0) < Offset(base, b.0) || (a.0 == b.0 && a.1 < b.1)
  }

  ghost predicate Increasing(base: ProdIndex, at: seq<Position>) {
    forall i, j :: 0 <= i < j < |at| ==> Before(base, at[i], at[j])
  }

  lemma {:induction false} HeldInIsExact(s: Store, p: ProdIndex, from: nat)
    requires s.Valid() && p in s.prods
    ensures forall at :: at in HeldIn(s, p, from) <==> at.0 == p && at.1 >= from && Held(s, at)
    ensures Increasing(p, HeldIn(s, p, from))
    decreases P.NumChunks(s.prods[p].info) - from
  {
    if P.NumChunks(s.prods[p].info) <= from {
    } else {
      HeldInIsExact(s, p, from + 1);
    }
  }

  /** A position that is still to come: further on in the current product, or in a later one through the latest. */
  ghost predicate Ahead(s: Store, p: ProdIndex, from: nat, at: Position) {
    LessOrEqual(p, s.latest) && Offset(p, at.0) <= Offset(p, s.latest) && (at.0 == p ==> at.1 >= from)
  }

  lemma StillAhead(s: Store, p: ProdIndex, from: nat, at: Position)
    requires LessOrEqual(p, s.latest)
    ensures Ahead(s, p, from, at) <==> (at.0 == p && at.1 >= from) || Ahead(s, Next(p), 0, at)
    ensures Ahead(s, Next(p), 0, at) ==> Offset(p, at.0) == Offset(Next(p), at.0) + 1
  {
    MinusCases(at.0, p);
    MinusCases(at.0, Next(p));
    MinusCases(s.latest, p);
    MinusCases(s.latest, Next(p));
  }

  /** Exactly the chunks that are held and ahead, each once, in strictly increasing circular order. */
  lemma {:induction false} HeldFromIsExact(s: Store, p: ProdIndex, from: nat)
    requires s.Valid()
    ensures forall at :: at in HeldFrom(s, p, from) <==> Held(s, at) && Ahead(s, p, from, at)
    ensures Increasing(p, HeldFrom(s, p, from))
    decreases ProductsLeft(s, p)
  {
    if !LessOrEqual(p, s.latest) {
    } else {
      OneProductLess(s, p);
      HeldFromIsExact(s, Next(p), 0);
      var here := if p in s.prods then HeldIn(s, p, from) else [];
      var later := HeldFrom(s, Next(p), 0);
      if p in s.prods {
        HeldInIsExact(s, p, from);
      }
      forall at: Position
        ensures Ahead(s, p, from, at) <==> (at.0 == p && at.1 >= from) || Ahead(s, Next(p), 0, at)
        ensures Ahead(s, Next(p), 0, at) ==> Offset(p, at.0) == Offset(Next(p), at.0) + 1
      {
        StillAhead(s, p, from, at);
      }
      Concatenated(p, here, later);
    }
  }

  /** The chunks of one product followed by those of later ones. */
  lemma Concatenated(p: ProdIndex, here: seq<Position>, later: seq<Position>)
    requires forall at :: at in here ==> at.0 == p
    requires forall at :: at in later ==> Offset(p, at.0) == Offset(Next(p), at.0) + 1
    requires Increasing(p, here) && Increasing(Next(p), later)
    ensures Increasing(p, here + later)
  {
    var all := here + later;
    forall i, j | 0 <= i < j < |all|
      ensures Before(p, all[i], all[j])
    {
      if i < |here| {
        assert all[i] in here;
        if j >= |here| {
          assert all[j] == later[j - |here|] && all[j] in later;
          MinusCases(p, p);
        }
      } else {
        assert all[i] == later[i - |here|] && all[j] == later[j - |here|];
        assert later[i - |here|] in later && later[j - |here|] in later;
        assert Before(Next(p), later[i - |here|], later[j - |here|]);
      }
    }
  }

  /**
   * Where iteration starts. A product that isn't stored, or isn't after the earliest, starts it at
   * the earliest product's first chunk.
   */
  function Start(s: Store, startWith: Option<Position>): Result<Position, Error> {
    if startWith.None? then Failure(InvalidArgument)
    else if startWith.value.0 in s.prods && !IsEarlierThan(startWith.value.0, s.earliest) then Success(startWith.value)
    else Success((s.earliest, 0))
  }

  /**
   * Iterating from any chunk. All held chunks from there on are yielded if its product is stored. But if
   * that's the earliest product, or if the product isn't stored, then iteration starts with the earliest
   * product's first chunk, and so all held chunks are yielded. Without a chunk it's an exception.
   */
  lemma IterationIsComplete(s: Store, base: ProdIndex, start: Position)
    requires s.Valid() && EndsBound(s, base)
    ensures Start(s, None) == Failure(InvalidArgument)
    ensures Start(s, Some(start)).Success?
    ensures var begin := Start(s, Some(start)).value;
            && begin == (if start.0 in s.prods && start.0 != s.earliest then start else (s.earliest, 0))
            && (forall at :: at in HeldFrom(s, begin.0, begin.1) <==> Held(s, at) && !Before(base, at, begin))
            && (begin == (s.earliest, 0) ==> forall at :: at in HeldFrom(s, begin.0, begin.1) <==> Held(s, at))
            && Increasing(base, HeldFrom(s, begin.0, begin.1))
  {
    var begin := Start(s, Some(start)).value;
    OffsetsDetermine(base, start.0, s.earliest);
    OffsetsDetermine(base, s.earliest, start.0);
    assert begin == (if start.0 in s.prods && start.0 != s.earliest then start else (s.earliest, 0));
    HeldFromIsExact(s, begin.0, begin.1);
    OffsetsDetermine(base, begin.0, s.latest);
    var all := HeldFrom(s, begin.0, begin.1);
    forall at: Position | at.0 in s.prods
      ensures Ahead(s, begin.0, begin.1, at) <==> !Before(base, at, begin)
      ensures Ahead(s, begin.0, begin.1, at) ==> Offset(begin.0, at.0) == Offset(base, at.0) - Offset(base, begin.0)
      ensures begin == (s.earliest, 0) ==> !Before(base, at, begin)
    {
      OffsetsDetermine(base, begin.0, at.0);
    }
    forall i, j | 0 <= i < j < |all|
      ensures Before(base, all[i], all[j])
    {
      assert all[i] in all && all[j] in all;
      assert Before(begin.0, all[i], all[j]);
    }
  }

  lemma PastTheFirst(s: Store, p: ProdIndex, i: nat)
    requires s.Valid() && HeldFrom(s, p, i) != [] && HeldFrom(s, p, i)[0] == (p, i)
    ensures HeldFrom(s, p, i + 1) == HeldFrom(s, p, i)[1..]
  {
    HeldFromIsExact(s, p, i);
    hide HeldFrom, Store.Valid;
    assert (p, i) in HeldFrom(s, p, i);
    NextChunk(s, p, i);
  }

  // ---------------------------------------------------------------- the mutable iterator

  class ChunkInfoIterator {
    const prods: ProdMap
    var prodIndex: ProdIndex
    var chunkIndex: nat

    /** What is still to be yielded. */
    ghost function Remaining(): seq<Position>
      requires prods.Value().Valid()
      reads this, prods
    {
      HeldFrom(prods.Value(), prodIndex, chunkIndex)
    }

    constructor (prods: ProdMap, startWith: Position)
      ensures this.prods == prods
      ensures Success((prodIndex, chunkIndex)) == Start(prods.Value(), Some(startWith))
    {
      this.prods := prods;
      if startWith.0 !in prods.prods {
        prodIndex := prods.earliest;
        chunkIndex := 0;
      } else {
        if !IsEarlierThan(startWith.0, prods.earliest) {
          prodIndex := startWith.0;
          chunkIndex := startWith.1;
        } else {
          prodIndex := prods.earliest;
          chunkIndex := 0;
        }
      }
    }

    /** The next held chunk, without going past it. */
    method Current() returns (r: Option<Position>)
      requires prods.Value().Valid()
      modifies this
      ensures Remaining() == old(Remaining())
      ensures r == if old(Remaining()) == [] then None else Some(old(Remaining())[0])
      ensures r.Some? ==> r.value == (prodIndex, chunkIndex)
    {
      ghost var s := prods.Value();
      ghost var all := Remaining();
      while LessOrEqual(prodIndex, prods.latest)
        invariant HeldFrom(s, prodIndex, chunkIndex) == all
        decreases ProductsLeft(s, prodIndex)
      {
        label Outer:
        OneProductLess(s, prodIndex);
        if prodIndex in prods.prods {
          assert s.prods[prodIndex].Valid();
          var numChunks := P.NumChunks(prods.prods[prodIndex].info);
          while chunkIndex < numChunks
            invariant HeldFrom(s, prodIndex, chunkIndex) == all
            invariant prodIndex in s.prods && numChunks == P.NumChunks(s.prods[prodIndex].info)
            invariant prodIndex == old@Outer(prodIndex)
            decreases numChunks - chunkIndex
          {
            NextChunk(s, prodIndex, chunkIndex);
            if prods.prods[prodIndex].HaveChunk(chunkIndex) {
              return Some((prodIndex, chunkIndex));
            }
            chunkIndex := chunkIndex + 1;
          }
        }
        NextProduct(s, prodIndex, chunkIndex);
        chunkIndex := 0;
        prodIndex := Next(prodIndex);
      }
      return None;
    }

    /** Goes past the chunk that was yielded. */
    method Advance()
      requires prods.Value().Valid() && Remaining() != [] && Remaining()[0] == (prodIndex, chunkIndex)
      modifies this
      ensures Remaining() == old(Remaining())[1..]
    {
      hide HeldFrom, Store.Valid;
      PastTheFirst(prods.Value(), prodIndex, chunkIndex);
      chunkIndex := chunkIndex + 1;
    }

    /** A client's loop. It ends, and collects exactly what remained. */
    method Collect() returns (all: seq<Position>)
      requires prods.Value().Valid()
      modifies this
      ensures all == old(Remaining())
      ensures Remaining() == []
    {
      all := [];
      var next := Current();
      while next.Some?
        invariant all + Remaining() == old(Remaining())
        invariant next == if Remaining() == [] then None else Some(Remaining()[0])
        invariant next.Some? ==> next.value == (prodIndex, chunkIndex)
        decreases |Remaining()|
      {
        all := all + [next.value];
        Advance();
        next := Current();
      }
    }
  }

  /** `getChunkInfoIterator()`: an empty identifier is an exception. */
  method GetChunkInfoIterator(prods: ProdMap, startWith: Option<Position>) returns (r: Result<ChunkInfoIterator, Error>)
    ensures match Start(prods.Value(), startWith)
            case Failure(e) => r == Failure(e)
            case Success(begin) =>
              && r.Success? && fresh(r.value) && r.value.prods == prods
              && (r.value.prodIndex, r.value.chunkIndex) == begin
  {
    if startWith.None? {
      return Failure(InvalidArgument);
    }
    var chunks := new ChunkInfoIterator(prods, startWith.value);
    return Success(chunks);
  }
}
