/** A chunk on the wire: its identifier, the product's size, the canonical chunk size, and the bytes. */
module ChunkWire {
  import opened Wrappers
  import opened Bytes
  import opened HostOrder
  import opened ProdIndexes
  import opened Codecs
  import P = ProductInfo

  /** A chunk that's in memory, as is serialized. The product's name isn't. */
  datatype ActualChunk = ActualChunk(info: P.ProdInfo, index: P.uint32, data: seq<Byte>)
  {
    /** The index has been vetted, and there's as much data as the product's information says. */
    ghost predicate Valid() {
      && info.canonSize > 0 && info.name == ""
      && index < P.NumChunks(info)
      && |data| == P.ChunkSize(info, index).value
    }
  }

  /** `getMetadataSize()` */
  const METADATA_SIZE := 8 + 4 + 1 + 4 + 2

  function Header(e: Endian, chunk: ActualChunk): (bytes: seq<Byte>)
    ensures |bytes| == METADATA_SIZE
  {
    Wire64(e, chunk.info.index) + ToBig(chunk.index, 4) + [1] + ToBig(chunk.info.size, 4)
    + ToBig(chunk.info.canonSize, 2)
  }

  function Record(e: Endian, chunk: ActualChunk): seq<Byte> {
    Header(e, chunk) + chunk.data
  }

  function Records(e: Endian, chunks: seq<ActualChunk>): seq<Byte> {
    if chunks == [] then [] else Record(e, chunks[0]) + Records(e, chunks[1..])
  }

  lemma {:induction false} RecordsAppend(e: Endian, chunks: seq<ActualChunk>, last: ActualChunk)
    ensures Records(e, chunks + [last]) == Records(e, chunks) + Record(e, last)
  {
    hide Record;
    if chunks == [] {
      assert chunks + [last] == [last];
      assert [last][1..] == [];
    } else {
      RecordsAppend(e, chunks[1..], last);
      assert (chunks + [last])[1..] == chunks[1..] + [last];
    }
  }

  lemma FieldsFit(chunk: ActualChunk)
    ensures chunk.info.index < Power256(8) && chunk.index < Power256(4)
    ensures chunk.info.size < Power256(4) && chunk.info.canonSize < Power256(2)
  {
    Powers();
  }

  /** `ActualChunk::serialize()`: the header goes into the serial buffer, the data is referred to if nothing else is. */
  method Serialize(chunk: ActualChunk, encoder: MemEncoder) returns (r: Result<nat, Error>)
    requires encoder.Valid()
    modifies encoder`nextSerial, encoder`dma, encoder.serialBuf
    ensures encoder.Valid()
    ensures r == if |old(encoder.Serial())| + METADATA_SIZE > encoder.serialBuf.Length then Failure(BufferOverflow)
                 else if old(encoder.dma) != [] then Failure(VectorOverflow)
                 else Success(METADATA_SIZE + |chunk.data|)
    ensures !(r.Failure? && r.error == BufferOverflow) ==>
              encoder.Serial() == old(encoder.Serial()) + Header(encoder.endian, chunk)
    ensures encoder.dma == if r.Success? then chunk.data else old(encoder.dma)
  {
    FieldsFit(chunk);
    hide ToBig, Wire64, Power256;
    ghost var before := encoder.Serial();
    r := encoder.Encode64(chunk.info.index);
    if r.Failure? {
      return;
    }
    r := encoder.EncodeInteger(chunk.index, 4);
    if r.Failure? {
      return;
    }
    r := encoder.EncodeInteger(1, 1) by {
      Powers();
    }
    if r.Failure? {
      return;
    }
    r := encoder.EncodeInteger(chunk.info.size, 4);
    if r.Failure? {
      return;
    }
    r := encoder.EncodeInteger(chunk.info.canonSize, 2);
    if r.Failure? {
      return;
    }
    OneByte();
    HeaderAppends(before, encoder.endian, chunk);
    r := encoder.EncodeBytes(chunk.data);
    if r.Success? {
      r := Success(METADATA_SIZE + r.value);
    }
  }

  lemma HeaderAppends(before: seq<Byte>, e: Endian, chunk: ActualChunk)
    ensures before + Wire64(e, chunk.info.index) + ToBig(chunk.index, 4) + [1] + ToBig(chunk.info.size, 4)
              + ToBig(chunk.info.canonSize, 2)
            == before + Header(e, chunk)
  {
    hide ToBig, Wire64;
  }

  lemma OneByte()
    ensures ToBig(1, 1) == [1]
  {
    assert ToBig(1, 1) == ToBig(0, 0) + [1];
  }

  /** A chunk whose data is still in the decoder. */
  class LatentChunk {
    const decoder: MemDecoder
    const info: P.ProdInfo
    const index: P.uint32
    var drained: bool

    constructor (decoder: MemDecoder, info: P.ProdInfo, index: P.uint32)
      ensures this.decoder == decoder && this.info == info && this.index == index && !drained
    {
      this.decoder := decoder;
      this.info := info;
      this.index := index;
      drained := false;
    }

    /** The size that the header implies. */
    function Size(): nat
      requires info.canonSize > 0 && index < P.NumChunks(info)
    {
      P.ChunkSize(info, index).value
    }

    method DrainData(size: nat) returns (r: Result<seq<Byte>, Error>)
      requires decoder.Valid()
      modifies this`drained
      modifies decoder`memRead, decoder`nextSerial, decoder`serialBufBytes, decoder`peeked, decoder.serialBuf
      ensures decoder.Valid() && drained
      ensures r.Failure? <==> old(drained)
      ensures r.Failure? ==> r.error == LogicError
      ensures r.Success? ==>
                var start := old(decoder.memRead) + old(decoder.nextSerial);
                && r.value == decoder.msg[start..start + Min(size, |decoder.msg| - start)]
                && decoder.memRead == start + |r.value|
                && decoder.nextSerial == decoder.serialBufBytes == 0
    {
      if drained {
        return Failure(LogicError);
      }
      var bytes := decoder.DecodeBytes(size);
      drained := true;
      return Success(bytes);
    }
  }

  /**
   * The fields of a header: the product's index, the chunk's index, a flag that's always set, the product's
   * size and the canonical chunk size.
   */
  lemma HeaderFields(e: Endian, chunk: ActualChunk)
    ensures var h := Header(e, chunk);
            && h[0..8] == Wire64(e, chunk.info.index)
            && h[8..12] == ToBig(chunk.index, 4)
            && h[12..13] == [1]
            && h[13..17] == ToBig(chunk.info.size, 4)
            && h[17..19] == ToBig(chunk.info.canonSize, 2)
  {
    hide Wire64, ToBig;
  }

  // ---------------------------------------------------------------- what a header says

  /** The product's information and the chunk's index that a host finds in a header. */
  function ParsedInfo(e: Endian, header: seq<Byte>): P.ProdInfo
    requires |header| == METADATA_SIZE
  {
    SmallFields(header);
    P.ProdInfo(Read64(e, header[0..8]), "", FromBig(header[13..17]), FromBig(header[17..19]))
  }

  function ParsedIndex(header: seq<Byte>): P.uint32
    requires |header| == METADATA_SIZE
  {
    SmallFields(header);
    FromBig(header[8..12])
  }

  lemma SmallFields(header: seq<Byte>)
    requires |header| == METADATA_SIZE
    ensures FromBig(header[8..12]) < 0x1_0000_0000 && FromBig(header[13..17]) < 0x1_0000_0000
    ensures FromBig(header[17..19]) < 0x1_0000
  {
    Powers();
    ToFromBig(header[8..12]);
    ToFromBig(header[13..17]);
    ToFromBig(header[17..19]);
    hide FromBig, ToBig, Power256;
  }

  /** A chunk as it arrives on a host: between different endiannesses, the halves of its product's index are swapped. */
  function AsRead(writer: Endian, reader: Endian, chunk: ActualChunk): ActualChunk {
    chunk.(info := chunk.info.(index := if writer == reader then chunk.info.index else SwapHalves(chunk.info.index)))
  }

  function AllAsRead(writer: Endian, reader: Endian, chunks: seq<ActualChunk>): seq<ActualChunk> {
    seq(|chunks|, i requires 0 <= i < |chunks| => AsRead(writer, reader, chunks[i]))
  }

  /** What is parsed from a header is the chunk's information, as far as the index survives. */
  lemma ParsedHeader(writer: Endian, reader: Endian, chunk: ActualChunk)
    requires chunk.info.name == ""
    ensures ParsedInfo(reader, Header(writer, chunk)) == AsRead(writer, reader, chunk).info
    ensures ParsedIndex(Header(writer, chunk)) == chunk.index
  {
    hide ToBig, FromBig, Wire64, Read64, Power256, Header;
    HeaderFields(writer, chunk);
    FieldsFit(chunk);
    Powers();
    Wire64RoundTrip(writer, reader, chunk.info.index);
    FromToBig(chunk.index, 4);
    FromToBig(chunk.info.size, 4);
    FromToBig(chunk.info.canonSize, 2);
  }

  /** `LatentChunk`'s construction from a decoder: what a header comes to. */
  function Parsed(e: Endian, header: seq<Byte>): Result<(P.ProdInfo, P.uint32), Error>
    requires |header| == METADATA_SIZE
  {
    var info, index := ParsedInfo(e, header), ParsedIndex(header);
    if info.canonSize == 0 then Failure(DivisionByZero)
    else if P.NumChunks(info) <= index then Failure(InvalidArgument)
    else Success((info, index))
  }

  /**
   * A header is refused exactly if its canonical size is 0, or if its chunk's index isn't one of those that
   * its own sizes imply.
   */
  lemma ParsedExactly(e: Endian, header: seq<Byte>)
    requires |header| == METADATA_SIZE
    ensures var size, canonSize, index := FromBig(header[13..17]), FromBig(header[17..19]), FromBig(header[8..12]);
            match Parsed(e, header)
            case Failure(DivisionByZero) => canonSize == 0
            case Failure(InvalidArgument) =>
              canonSize > 0 && (size + canonSize - 1 >= 0x1_0000_0000 || index >= (size + canonSize - 1) / canonSize)
            case Failure(_) => false
            case Success((info, i)) =>
              && canonSize > 0 && size + canonSize - 1 < 0x1_0000_0000
              && i == index < (size + canonSize - 1) / canonSize
              && info == P.ProdInfo(Read64(e, header[0..8]), "", size, canonSize)
  {
    hide FromBig, Read64;
    SmallFields(header);
    var info := ParsedInfo(e, header);
    if info.canonSize > 0 {
      P.NumChunksIsExact(info);
      P.DivisionBounds(info.size + info.canonSize - 1, info.canonSize);
    }
    hide P.NumChunks;
  }

  /** The geometry doesn't depend on the product's index. */
  lemma SameGeometry(info: P.ProdInfo, other: ProdIndex, i: P.uint32)
    requires info.canonSize > 0
    ensures P.NumChunks(info.(index := other)) == P.NumChunks(info)
    ensures P.ChunkSize(info.(index := other), i) == P.ChunkSize(info, i)
    ensures i < P.NumChunks(info) ==> P.ChunkSize(info, i).Success?
  {
  }

  lemma ParsedChunk(writer: Endian, reader: Endian, chunk: ActualChunk)
    requires chunk.Valid()
    ensures AsRead(writer, reader, chunk).Valid()
    ensures Parsed(reader, Header(writer, chunk)) == Success((AsRead(writer, reader, chunk).info, chunk.index))
    ensures AsRead(writer, reader, chunk).index == chunk.index && AsRead(writer, reader, chunk).data == chunk.data
  {
    hide P.NumChunks, P.ChunkSize, P.ChunkOffset, ParsedInfo, ParsedIndex, SwapHalves, Header;
    ParsedHeader(writer, reader, chunk);
    SameGeometry(chunk.info, AsRead(writer, reader, chunk).info.index, chunk.index);
  }

  /**
   * Decodes a header and vets the chunk's index against it. The number of chunks is a quotient by
   * the canonical size, so a header in which that's 0 isn't survived.
   */
  method Deserialize(decoder: MemDecoder) returns (r: Result<LatentChunk, Error>)
    requires decoder.Valid()
    modifies decoder`nextSerial, decoder`serialBufBytes
    ensures decoder.Valid()
    ensures old(decoder.serialBufBytes) < METADATA_SIZE ==> r == Failure(BufferUnderflow)
    ensures old(decoder.serialBufBytes) >= METADATA_SIZE ==>
              var start := decoder.memRead + old(decoder.nextSerial);
              && decoder.nextSerial == old(decoder.nextSerial) + METADATA_SIZE
              && match Parsed(decoder.endian, decoder.msg[start..start + METADATA_SIZE])
                 case Failure(e) => r == Failure(e)
                 case Success((info, index)) => r.Success? && r.value.info == info && r.value.index == index
    ensures r.Success? ==> fresh(r.value) && r.value.decoder == decoder && !r.value.drained
    ensures r.Success? ==> r.value.info.canonSize > 0 && r.value.index < P.NumChunks(r.value.info)
  {
    hide ToBig, FromBig, Wire64, Read64, Power256;
    ghost var start := decoder.memRead + decoder.nextSerial;
    ghost var isEnough := decoder.serialBufBytes >= METADATA_SIZE;
    Powers();
    var prodIndex := decoder.Decode64();
    if prodIndex.Failure? { return Failure(prodIndex.error); }
    var index := decoder.DecodeInteger(4);
    if index.Failure? { return Failure(index.error); }
    var isValid := decoder.DecodeInteger(1);
    if isValid.Failure? { return Failure(isValid.error); }
    var prodSize := decoder.DecodeInteger(4);
    if prodSize.Failure? { return Failure(prodSize.error); }
    var canonSize := decoder.DecodeInteger(2);
    if canonSize.Failure? { return Failure(canonSize.error); }
    assert isEnough;
    HeaderSlices(decoder.msg, start);
    var info := P.ProdInfo(prodIndex.value, "", prodSize.value, canonSize.value);
    if info.canonSize == 0 {
      return Failure(DivisionByZero);
    }
    if P.NumChunks(info) <= index.value {
      return Failure(InvalidArgument);
    }
    var latent := new LatentChunk(decoder, info, index.value);
    return Success(latent);
  }

  lemma HeaderSlices(msg: seq<Byte>, start: nat)
    requires start + METADATA_SIZE <= |msg|
    ensures var h := msg[start..start + METADATA_SIZE];
            && h[0..8] == msg[start..start + 8] && h[8..12] == msg[start + 8..start + 12]
            && h[13..17] == msg[start + 13..start + 17] && h[17..19] == msg[start + 17..start + 19]
  {
    Subslice(msg, start, METADATA_SIZE, 0, 8);
    Subslice(msg, start, METADATA_SIZE, 8, 12);
    Subslice(msg, start, METADATA_SIZE, 13, 17);
    Subslice(msg, start, METADATA_SIZE, 17, 19);
  }

  /**
   * A sender's loop: serializes and flushes each chunk. It fails exactly if a header doesn't fit into
   * the serial buffer, which the first chunk's finds out, so nothing has been written then.
   */
  method SendAll(encoder: MemEncoder, chunks: seq<ActualChunk>) returns (r: Result<nat, Error>)
    requires encoder.Valid() && encoder.Serial() == [] && encoder.dma == [] && encoder.size == 0
    modifies encoder, encoder.serialBuf, encoder.buf
    ensures encoder.Valid()
    ensures var all := Records(encoder.endian, chunks);
            |all| <= encoder.buf.Length ==> r == Success(|all|) && encoder.Written() == all
    ensures r.Success? ==> r.value == |Records(encoder.endian, chunks)|
    ensures r.Success? ==> encoder.Written() == Records(encoder.endian, chunks)[..Min(r.value, encoder.buf.Length)]
    ensures r.Failure? <==> chunks != [] && METADATA_SIZE > encoder.serialBuf.Length
    ensures r.Failure? ==> r.error == BufferOverflow && encoder.Written() == []
  {
    hide Header, Record, Records;
    var total := 0;
    assert Records(encoder.endian, []) == [] by {
      NoRecords(encoder.endian);
    }
    for i := 0 to |chunks|
      invariant encoder.Valid() && encoder.Serial() == [] && encoder.dma == []
      invariant i > 0 ==> METADATA_SIZE <= encoder.serialBuf.Length
      invariant total == |Records(encoder.endian, chunks[..i])|
      invariant encoder.Written() == Records(encoder.endian, chunks[..i])[..Min(total, encoder.buf.Length)]
    {
      ghost var before := Records(encoder.endian, chunks[..i]);
      assert chunks[..i + 1] == chunks[..i] + [chunks[i]];
      RecordsAppend(encoder.endian, chunks[..i], chunks[i]);
      RecordsGrow(encoder.endian, chunks, i + 1);
      RecordParts(encoder.endian, chunks[i]);
      var n := Serialize(chunks[i], encoder);
      if n.Failure? {
        return n;
      }
      encoder.Flush();
      FlushedPrefix(before, Record(encoder.endian, chunks[i]), encoder.buf.Length);
      total := total + n.value;
    }
    assert chunks[..|chunks|] == chunks;
    return Success(total);
  }

  lemma NoRecords(e: Endian)
    ensures Records(e, []) == []
  {
  }

  lemma RecordParts(e: Endian, chunk: ActualChunk)
    ensures Record(e, chunk) == Header(e, chunk) + chunk.data
    ensures |Record(e, chunk)| == METADATA_SIZE + |chunk.data|
  {
  }

  lemma {:induction false} RecordsGrow(e: Endian, chunks: seq<ActualChunk>, i: nat)
    requires i <= |chunks|
    ensures Records(e, chunks[..i]) <= Records(e, chunks)
    decreases |chunks|
  {
    hide Record;
    if i == |chunks| {
      assert chunks[..i] == chunks;
    } else {
      var front := chunks[..|chunks| - 1];
      RecordsGrow(e, front, i);
      assert front[..i] == chunks[..i];
      RecordsAppend(e, front, chunks[|chunks| - 1]);
      assert chunks == front + [chunks[|chunks| - 1]];
    }
  }

  lemma FlushedPrefix(before: seq<Byte>, record: seq<Byte>, capacity: nat)
    ensures var kept := before[..Min(|before|, capacity)];
            kept + record[..Min(|record|, capacity - |kept|)] == (before + record)[..Min(|before + record|, capacity)]
  {
  }

  /** A valid chunk's record starts at a position of a message. */
  ghost predicate IsAt(msg: seq<Byte>, start: nat, e: Endian, chunk: ActualChunk) {
    var end := start + METADATA_SIZE + |chunk.data|;
    chunk.Valid() && end <= |msg| && msg[start..end] == Record(e, chunk)
  }

  lemma RecordIsNext(msg: seq<Byte>, start: nat, e: Endian, chunk: ActualChunk)
    requires IsAt(msg, start, e, chunk)
    ensures start + METADATA_SIZE + |chunk.data| <= |msg|
    ensures msg[start..start + METADATA_SIZE] == Header(e, chunk)
    ensures msg[start + METADATA_SIZE..start + METADATA_SIZE + |chunk.data|] == chunk.data
  {
    hide Header;
    var length := METADATA_SIZE + |chunk.data|;
    Subslice(msg, start, length, 0, METADATA_SIZE);
    Subslice(msg, start, length, METADATA_SIZE, length);
    assert Record(e, chunk)[..METADATA_SIZE] == Header(e, chunk);
    assert Record(e, chunk)[METADATA_SIZE..] == chunk.data;
  }

  lemma AtMeansEnough(msg: seq<Byte>, start: nat, e: Endian, chunk: ActualChunk)
    requires IsAt(msg, start, e, chunk)
    ensures chunk.Valid()
  {
  }

  /** What is peeked at where a chunk's record starts. */
  lemma ParsedNext(msg: seq<Byte>, start: nat, writer: Endian, reader: Endian, chunk: ActualChunk)
    requires IsAt(msg, start, writer, chunk)
    ensures start + METADATA_SIZE <= |msg|
    ensures Parsed(reader, msg[start..start + METADATA_SIZE]) ==
            Success((AsRead(writer, reader, chunk).info, chunk.index))
  {
    hide IsAt, Parsed, AsRead, Header, Record;
    RecordIsNext(msg, start, writer, chunk);
    AtMeansEnough(msg, start, writer, chunk);
    ParsedChunk(writer, reader, chunk);
  }

  /** Peeks at a header and constructs the latent chunk. */
  method PeekOne(decoder: MemDecoder, ghost writer: Endian, ghost chunk: ActualChunk)
    returns (r: Result<LatentChunk, Error>)
    requires decoder.Valid() && decoder.nextSerial == decoder.serialBufBytes == 0
    modifies decoder, decoder.serialBuf
    ensures decoder.Valid() && decoder.memRead == old(decoder.memRead)
    ensures r.Success? ==>
              && fresh(r.value) && r.value.decoder == decoder && !r.value.drained
              && r.value.info.canonSize > 0 && r.value.index < P.NumChunks(r.value.info)
    ensures IsAt(decoder.msg, decoder.memRead, writer, chunk) ==>
              && r.Success? && decoder.nextSerial == METADATA_SIZE
              && r.value.info == AsRead(writer, decoder.endian, chunk).info && r.value.index == chunk.index
  {
    hide Parsed, AsRead, IsAt, Header, P.ChunkSize, P.NumChunks, P.ChunkOffset;
    if IsAt(decoder.msg, decoder.memRead, writer, chunk) {
      ParsedNext(decoder.msg, decoder.memRead, writer, decoder.endian, chunk);
    }
    var _ := decoder.Fill(0);
    r := Deserialize(decoder);
  }

  /** The receiver's treatment of one chunk: peeks, and drains the latent chunk into a buffer of the chunk's size. */
  method ReceiveOne(decoder: MemDecoder, ghost writer: Endian, ghost chunk: ActualChunk)
    returns (r: Result<ActualChunk, Error>)
    requires decoder.Valid() && decoder.nextSerial == decoder.serialBufBytes == 0
    modifies decoder, decoder.serialBuf
    ensures decoder.Valid()
    ensures IsAt(decoder.msg, old(decoder.memRead), writer, chunk) ==>
              && r == Success(AsRead(writer, decoder.endian, chunk))
              && decoder.memRead == old(decoder.memRead) + METADATA_SIZE + |chunk.data|
              && decoder.nextSerial == decoder.serialBufBytes == 0
  {
    ghost var read := AsRead(writer, decoder.endian, chunk);
    ghost var isNext := IsAt(decoder.msg, decoder.memRead, writer, chunk);
    if isNext {
      RecordIsNext(decoder.msg, decoder.memRead, writer, chunk);
      AtMeansEnough(decoder.msg, decoder.memRead, writer, chunk);
      ParsedChunk(writer, decoder.endian, chunk);
      assert P.ChunkSize(read.info, chunk.index) == Success(|chunk.data|);
    }
    hide AsRead, IsAt, Header, Parsed, P.ChunkSize, P.NumChunks, P.ChunkOffset;
    var latent := PeekOne(decoder, writer, chunk);
    if latent.Failure? {
      return Failure(latent.error);
    }
    var size := latent.value.Size();
    var data := latent.value.DrainData(size);
    r := Success(ActualChunk(latent.value.info, latent.value.index, data.value));
  }

  /** A receiver's loop. */
  method ReceiveAll(decoder: MemDecoder, count: nat, ghost writer: Endian, ghost chunks: seq<ActualChunk>)
    returns (received: seq<ActualChunk>)
    requires decoder.Valid() && decoder.memRead == decoder.nextSerial == decoder.serialBufBytes == 0
    requires count == |chunks| && forall c :: c in chunks ==> c.Valid()
    requires decoder.msg == Records(writer, chunks)
    modifies decoder, decoder.serialBuf
    ensures received == AllAsRead(writer, decoder.endian, chunks)
  {
    hide Header, Record, Records;
    received := [];
    assert |Records(writer, chunks[..0])| == 0 by {
      NoRecords(writer);
      assert chunks[..0] == [];
    }
    for i := 0 to count
      invariant decoder.Valid() && decoder.nextSerial == decoder.serialBufBytes == 0
      invariant decoder.memRead == |Records(writer, chunks[..i])|
      invariant received == AllAsRead(writer, decoder.endian, chunks[..i])
    {
      NextRecord(writer, chunks, i);
      assert chunks[i] in chunks;
      var chunk := ReceiveOne(decoder, writer, chunks[i]);
      received := received + [chunk.value];
    }
    assert chunks[..count] == chunks;
  }

  lemma NextRecord(e: Endian, chunks: seq<ActualChunk>, i: nat)
    requires i < |chunks|
    ensures var all, start := Records(e, chunks), |Records(e, chunks[..i])|;
            && start + METADATA_SIZE + |chunks[i].data| <= |all|
            && all[start..start + METADATA_SIZE + |chunks[i].data|] == Record(e, chunks[i])
            && |Records(e, chunks[..i + 1])| == start + METADATA_SIZE + |chunks[i].data|
  {
    hide Header, Record, Records;
    assert chunks[..i + 1] == chunks[..i] + [chunks[i]];
    RecordsAppend(e, chunks[..i], chunks[i]);
    RecordsGrow(e, chunks, i + 1);
    RecordParts(e, chunks[i]);
    var all, before := Records(e, chunks), Records(e, chunks[..i]);
    var upTo := before + Record(e, chunks[i]);
    assert upTo <= all;
    assert all[..|upTo|] == upTo;
    Subslice(all, 0, |upTo|, |before|, |upTo|);
  }

  /**
   * Chunks survive exactly between hosts of the same endianness, or if the halves of each product's
   * index are equal.
   */
  lemma SurviveExactly(writer: Endian, reader: Endian, chunks: seq<ActualChunk>)
    ensures AllAsRead(writer, reader, chunks) == chunks <==>
              writer == reader || forall c :: c in chunks ==> HasEqualHalves(c.info.index)
  {
    forall i | 0 <= i < |chunks|
      ensures AsRead(writer, reader, chunks[i]) == chunks[i] <==>
                writer == reader || HasEqualHalves(chunks[i].info.index)
    {
      Wire64RoundTrip(writer, reader, chunks[i].info.index);
    }
    hide AsRead;
    if AllAsRead(writer, reader, chunks) == chunks {
      assert forall i :: 0 <= i < |chunks| ==> AllAsRead(writer, reader, chunks)[i] == chunks[i];
    }
  }

  /**
   * Any sequence of chunks, serialized and flushed one after the other into memory that's large
   * enough, is read back: chunk indexes, sizes and exact data always, products' indexes as far as
   * the endiannesses allow. The reported number of bytes is the number produced.
   */
  method RoundTrip(writer: Endian, reader: Endian, capacity: nat, chunks: seq<ActualChunk>)
    returns (reported: Result<nat, Error>, produced: nat, received: seq<ActualChunk>)
    requires forall c :: c in chunks ==> c.Valid()
    requires |Records(writer, chunks)| <= capacity
    ensures reported == Success(produced) && produced == |Records(writer, chunks)|
    ensures received == AllAsRead(writer, reader, chunks)
    ensures received == chunks <==>
              writer == reader || forall c :: c in chunks ==> HasEqualHalves(c.info.index)
  {
    hide Records;
    var encoder := new MemEncoder(writer, capacity);
    reported := SendAll(encoder, chunks);
    produced := encoder.size;
    var decoder := new MemDecoder(reader, encoder.buf[..encoder.size]);
    received := ReceiveAll(decoder, |chunks|, writer, chunks);
    SurviveExactly(writer, reader, chunks);
  }
}
