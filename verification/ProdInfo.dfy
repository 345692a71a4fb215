/** The information on a product, and how it divides the product into chunks in 32-bit arithmetic. */
module ProductInfo {
  import opened Wrappers
  import opened ProdIndexes

  const TWO_TO_32: nat := 0x1_0000_0000
  const TWO_TO_16: nat := 0x1_0000

  type uint32 = x: nat | x < 0x1_0000_0000
  type uint16 = x: nat | x < 0x1_0000

  datatype ProdInfo = ProdInfo(index: ProdIndex, name: string, size: uint32, canonSize: uint16)
  {
    predicate EqualsExceptName(that: ProdInfo) {
      index == that.index && size == that.size && canonSize == that.canonSize
    }
  }

  datatype Error = InvalidArgument

  function NumChunks(info: ProdInfo): uint32
    requires info.canonSize > 0
  {
    (info.size + info.canonSize - 1) % TWO_TO_32 / info.canonSize
  }

  /** `vet()` and then `index*canonChunkSize`. */
  function ChunkOffset(info: ProdInfo, i: uint32): Result<uint32, Error>
    requires info.canonSize > 0
  {
    if NumChunks(info) <= i then Failure(InvalidArgument)
    else Success(i * info.canonSize % TWO_TO_32)
  }

  function ChunkSize(info: ProdInfo, i: uint32): Result<uint16, Error>
    requires info.canonSize > 0
  {
    match ChunkOffset(info, i)
    case Failure(e) => Failure(e)
    case Success(offset) =>
      if (offset + info.canonSize) % TWO_TO_32 <= info.size then Success(info.canonSize)
      else Success((info.size - offset) % TWO_TO_32 % TWO_TO_16)
  }

  function ChunkIndex(info: ProdInfo, offset: uint32): Result<uint32, Error>
    requires info.canonSize > 0
  {
    if offset % info.canonSize != 0 then Failure(InvalidArgument) else Success(offset / info.canonSize)
  }

  // ---------------------------------------------------------------- the exact chunks

  /** The number of chunks in unbounded arithmetic. */
  function Ceiling(info: ProdInfo): nat
    requires info.canonSize > 0
  {
    (info.size + info.canonSize - 1) / info.canonSize
  }

  /** The sizes for which the rounding-up doesn't wrap. */
  predicate Fits(info: ProdInfo) {
    info.canonSize > 0 && info.size + info.canonSize - 1 < TWO_TO_32
  }

  lemma DivisionBounds(n: nat, d: nat)
    requires d > 0
    ensures n / d * d <= n < n / d * d + d
  {
  }

  lemma MulStep(i: nat, d: nat)
    ensures (i + 1) * d == i * d + d
  {
  }

  lemma MulMonotone(i: nat, j: nat, d: nat)
    requires i < j
    ensures i * d + d <= j * d
  {
    if i + 1 < j {
      MulMonotone(i, j - 1, d);
    }
    MulStep(j - 1, d);
  }

  lemma ProductMonotone(i: nat, c: nat, d: nat)
    ensures c <= d ==> i * c <= i * d
    ensures c < d ==> i * c + i <= i * d
  {
    assert i * d == i * c + i * (d - c);
    if c < d {
      assert i * (d - c) == i * (d - c - 1) + i;
    }
  }

  lemma ProductInjective(i: nat, c: nat, d: nat)
    ensures i * c == i * d <==> i == 0 || c == d
  {
    ProductMonotone(i, c, d);
    ProductMonotone(i, d, c);
  }

  lemma QuotientIs(n: nat, q: nat, d: nat)
    requires d > 0 && q * d <= n < q * d + d
    ensures n / d == q
  {
    DivisionBounds(n, d);
    if n / d < q {
      MulMonotone(n / d, q, d);
    } else if q < n / d {
      MulMonotone(q, n / d, d);
    }
  }

  /**
   * The computed number of chunks is the true one exactly when rounding up doesn't wrap; when it
   * does wrap, the product appears to have no chunks at all.
   */
  lemma NumChunksIsExact(info: ProdInfo)
    requires info.canonSize > 0
    ensures NumChunks(info) == Ceiling(info) <==> Fits(info)
    ensures !Fits(info) ==> NumChunks(info) == 0
  {
    if !Fits(info) {
      var wrapped := info.size + info.canonSize - 1 - TWO_TO_32;
      assert (info.size + info.canonSize - 1) % TWO_TO_32 == wrapped;
      assert wrapped < info.canonSize;
      QuotientIs(wrapped, 0, info.canonSize);
      DivisionBounds(info.size + info.canonSize - 1, info.canonSize);
    }
  }

  lemma StartIsInside(info: ProdInfo, i: uint32)
    requires Fits(info) && i < NumChunks(info)
    ensures i * info.canonSize < info.size
  {
    NumChunksIsExact(info);
    DivisionBounds(info.size + info.canonSize - 1, info.canonSize);
    MulMonotone(i, NumChunks(info), info.canonSize);
  }

  lemma SmallModulo(n: nat, m: nat)
    requires n < m
    ensures n % m == n
  {
  }

  /** The bounds of a valid chunk. No 32-bit intermediate wraps. */
  lemma ChunkBounds(info: ProdInfo, i: uint32)
    requires Fits(info) && i < NumChunks(info)
    ensures i * info.canonSize < info.size && i * info.canonSize + info.canonSize < TWO_TO_32
    ensures ChunkOffset(info, i) == Success(i * info.canonSize)
    ensures ChunkSize(info, i) == Success(if i * info.canonSize + info.canonSize <= info.size then info.canonSize
                                          else info.size - i * info.canonSize)
    ensures 1 <= ChunkSize(info, i).value <= info.canonSize
    ensures i * info.canonSize + ChunkSize(info, i).value <= info.size
  {
    StartIsInside(info, i);
    var start: nat := i * info.canonSize;
    SmallModulo(start, TWO_TO_32);
    SmallModulo(start + info.canonSize, TWO_TO_32);
    SmallModulo(info.size - start, TWO_TO_32);
    if info.size < start + info.canonSize {
      SmallModulo(info.size - start, TWO_TO_16);
    }
  }

  /** Any other index is refused. */
  lemma OthersAreRefused(info: ProdInfo, i: uint32)
    requires info.canonSize > 0
    ensures ChunkOffset(info, i).Success? <==> Fits(info) && i < Ceiling(info)
    ensures ChunkSize(info, i).Success? <==> Fits(info) && i < Ceiling(info)
  {
    NumChunksIsExact(info);
    hide NumChunks, Ceiling;
  }

  /** Only the last chunk can be smaller than the canonical size, and it isn't empty. */
  lemma OnlyLastIsShort(info: ProdInfo, i: uint32)
    requires Fits(info) && i < NumChunks(info)
    ensures i + 1 < NumChunks(info) ==> ChunkSize(info, i) == Success(info.canonSize)
    ensures i + 1 == NumChunks(info) ==> i * info.canonSize + ChunkSize(info, i).value == info.size
  {
    ChunkBounds(info, i);
    NumChunksIsExact(info);
    DivisionBounds(info.size + info.canonSize - 1, info.canonSize);
    if i + 1 < NumChunks(info) {
      ChunkBounds(info, i + 1);
      MulMonotone(i, i + 1, info.canonSize);
    } else {
      MulStep(i, info.canonSize);
    }
  }

  /**
   * A byte position is in a given chunk exactly if it is a position of the product and its quotient
   * is the chunk's index.
   */
  lemma ChunksTile(info: ProdInfo, i: uint32, position: nat)
    requires Fits(info) && i < NumChunks(info)
    ensures ChunkOffset(info, i).value <= position < ChunkOffset(info, i).value + ChunkSize(info, i).value <==>
              position < info.size && position / info.canonSize == i
  {
    ChunkBounds(info, i);
    DivisionBounds(position, info.canonSize);
    if i * info.canonSize <= position < i * info.canonSize + info.canonSize {
      QuotientIs(position, i, info.canonSize);
    }
  }

  /** Every byte position of the product is in some chunk. */
  lemma EveryPositionIsInAChunk(info: ProdInfo, position: nat)
    requires Fits(info) && position < info.size
    ensures position / info.canonSize < NumChunks(info)
  {
    NumChunksIsExact(info);
    DivisionBounds(position, info.canonSize);
    DivisionBounds(info.size + info.canonSize - 1, info.canonSize);
    if NumChunks(info) <= position / info.canonSize {
      if NumChunks(info) < position / info.canonSize {
        MulMonotone(NumChunks(info), position / info.canonSize, info.canonSize);
      }
    }
  }

  /** The chunk that a byte position is in. */
  lemma ChunkAt(info: ProdInfo, position: nat) returns (i: uint32)
    requires Fits(info) && position < info.size
    ensures i < NumChunks(info)
    ensures ChunkOffset(info, i).value <= position < ChunkOffset(info, i).value + ChunkSize(info, i).value
  {
    EveryPositionIsInAChunk(info, position);
    var quotient := position / info.canonSize;
    i := quotient;
    ChunksTile(info, i, position);
  }

  function SumOfSizes(info: ProdInfo, n: uint32): nat
    requires info.canonSize > 0 && n <= NumChunks(info)
  {
    if n == 0 then 0 else SumOfSizes(info, n - 1) + ChunkSize(info, n - 1).value
  }

  lemma {:induction false} PartialSums(info: ProdInfo, n: uint32)
    requires Fits(info) && n <= NumChunks(info)
    ensures SumOfSizes(info, n) == if n == NumChunks(info) then info.size else n * info.canonSize
  {
    if n == 0 {
      if NumChunks(info) == 0 && info.size > 0 {
        EveryPositionIsInAChunk(info, 0);
      }
    } else {
      PartialSums(info, n - 1);
      OnlyLastIsShort(info, n - 1);
      MulStep(n - 1, info.canonSize);
    }
  }

  /** The sizes of all chunks add up to the size of the product. */
  lemma SizesAddUp(info: ProdInfo)
    requires Fits(info)
    ensures SumOfSizes(info, NumChunks(info)) == info.size
  {
    PartialSums(info, NumChunks(info));
  }

  /** `getChunkIndex` inverts `getOffset`, and rejects exactly what isn't the start of a canonical chunk. */
  lemma IndexInvertsOffset(info: ProdInfo, i: uint32, offset: uint32)
    requires Fits(info) && i < NumChunks(info)
    ensures ChunkIndex(info, ChunkOffset(info, i).value) == Success(i)
    ensures ChunkIndex(info, offset) == Success(i) <==> ChunkOffset(info, i) == Success(offset)
  {
    ChunkBounds(info, i);
    QuotientIs(i * info.canonSize, i, info.canonSize);
    assert i * info.canonSize % info.canonSize == 0 by {
      var product := i * info.canonSize;
      assert product == product / info.canonSize * info.canonSize + product % info.canonSize;
    }
    if ChunkIndex(info, offset) == Success(i) {
      assert offset == offset / info.canonSize * info.canonSize + offset % info.canonSize;
    }
  }
}
