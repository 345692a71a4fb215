/**
 * The codec that a chunk travels through: integers go into a serial buffer, a byte-array is
 * referred to, and both are written together; the decoder peeks at a record to get the integers
 * and then reads it again, so that the byte-array lands in its place.
 */
module Codecs {
  import opened Wrappers
  import opened Bytes
  import opened HostOrder

  datatype Error = BufferOverflow | VectorOverflow | BufferUnderflow | InvalidArgument | LogicError | DivisionByZero

  // ---------------------------------------------------------------- 64-bit integers

  /** A 64-bit integer is encoded as two 32-bit ones, in the order of the host's memory. */
  function FirstWord(e: Endian, v: nat): nat {
    FromMemory(e, Memory(e, v, 8)[..4])
  }

  function SecondWord(e: Endian, v: nat): nat {
    FromMemory(e, Memory(e, v, 8)[4..])
  }

  function Wire64(e: Endian, v: nat): (bytes: seq<Byte>)
    ensures |bytes| == 8
  {
    ToBig(FirstWord(e, v), 4) + ToBig(SecondWord(e, v), 4)
  }

  function Read64(e: Endian, bytes: seq<Byte>): (v: nat)
    requires |bytes| == 8
    ensures v < 0x1_0000_0000_0000_0000
  {
    Read64IsSmall(e, bytes);
    FromMemory(e, Memory(e, FromBig(bytes[..4]), 4) + Memory(e, FromBig(bytes[4..]), 4))
  }

  lemma {:induction false} ReverseConcat(a: seq<Byte>, b: seq<Byte>)
    ensures Reverse(a + b) == Reverse(b) + Reverse(a)
  {
  }

  lemma WordsOf(e: Endian, v: nat)
    requires v < Power256(8)
    ensures FirstWord(e, v) == if e.Big? then v / 0x1_0000_0000 else v % 0x1_0000_0000
    ensures SecondWord(e, v) == if e.Big? then v % 0x1_0000_0000 else v / 0x1_0000_0000
  {
    Powers();
    BigHalves(v);
    var high, low := v / 0x1_0000_0000, v % 0x1_0000_0000;
    hide ToBig, FromBig, Reverse, Power256;
    FromToBig(high, 4);
    FromToBig(low, 4);
    if e.Big? {
      assert Memory(e, v, 8)[..4] == ToBig(high, 4) && Memory(e, v, 8)[4..] == ToBig(low, 4);
    } else {
      ReverseConcat(ToBig(high, 4), ToBig(low, 4));
      assert Memory(e, v, 8)[..4] == Reverse(ToBig(low, 4));
      assert Memory(e, v, 8)[4..] == Reverse(ToBig(high, 4));
      ReverseTwice(ToBig(low, 4));
      ReverseTwice(ToBig(high, 4));
    }
  }

  /** On the wire, the two words are in the order of the writing host's memory, each in network byte-order. */
  lemma WordsOnTheWire(e: Endian, v: nat)
    requires v < Power256(8)
    ensures Wire64(e, v) ==
            if e.Big? then ToBig(v / 0x1_0000_0000, 4) + ToBig(v % 0x1_0000_0000, 4)
            else ToBig(v % 0x1_0000_0000, 4) + ToBig(v / 0x1_0000_0000, 4)
  {
    WordsOf(e, v);
    hide ToBig, FromBig, FirstWord, SecondWord, Power256;
  }

  lemma FromWords(e: Endian, first: nat, second: nat)
    requires first < Power256(4) && second < Power256(4)
    ensures FromMemory(e, Memory(e, first, 4) + Memory(e, second, 4)) ==
            if e.Big? then first * 0x1_0000_0000 + second else second * 0x1_0000_0000 + first
  {
    Powers();
    hide ToBig, FromBig, Reverse, Power256;
    FromToBig(first, 4);
    FromToBig(second, 4);
    if e.Big? {
      FromBigConcat(ToBig(first, 4), ToBig(second, 4));
    } else {
      ReverseConcat(Reverse(ToBig(first, 4)), Reverse(ToBig(second, 4)));
      ReverseTwice(ToBig(first, 4));
      ReverseTwice(ToBig(second, 4));
      FromBigConcat(ToBig(second, 4), ToBig(first, 4));
    }
  }

  lemma Read64IsSmall(e: Endian, bytes: seq<Byte>)
    requires |bytes| == 8
    ensures FromMemory(e, Memory(e, FromBig(bytes[..4]), 4) + Memory(e, FromBig(bytes[4..]), 4))
            < 0x1_0000_0000_0000_0000
  {
    Powers();
    ToFromBig(bytes[..4]);
    ToFromBig(bytes[4..]);
    hide ToBig, FromBig, FromMemory, Memory, Power256;
    FromWords(e, FromBig(bytes[..4]), FromBig(bytes[4..]));
  }

  predicate HasEqualHalves(v: nat) {
    v / 0x1_0000_0000 == v % 0x1_0000_0000
  }

  /** What becomes of a 64-bit integer between hosts of different endianness. */
  function SwapHalves(v: nat): (swapped: nat)
    requires v < 0x1_0000_0000_0000_0000
    ensures swapped < 0x1_0000_0000_0000_0000
  {
    v % 0x1_0000_0000 * 0x1_0000_0000 + v / 0x1_0000_0000
  }

  /**
   * A 64-bit integer survives between hosts exactly if they have the same endianness or its halves
   * are equal: the words aren't put into a fixed order. The sockets' own 64-bit translation does
   * that: see `HtonIsBigEndian`.
   */
  lemma Wire64RoundTrip(writer: Endian, reader: Endian, v: nat)
    requires v < 0x1_0000_0000_0000_0000
    ensures Read64(reader, Wire64(writer, v)) == if writer == reader then v else SwapHalves(v)
    ensures Read64(reader, Wire64(writer, v)) == v <==> writer == reader || HasEqualHalves(v)
  {
    Powers();
    WordsOf(writer, v);
    var first, second := FirstWord(writer, v), SecondWord(writer, v);
    hide ToBig, FromBig, FromMemory, Memory, FirstWord, SecondWord, Power256;
    FromToBig(first, 4);
    FromToBig(second, 4);
    assert Wire64(writer, v)[..4] == ToBig(first, 4) && Wire64(writer, v)[4..] == ToBig(second, 4);
    FromWords(reader, first, second);
  }

  // ---------------------------------------------------------------- encoding into memory

  class MemEncoder {
    const endian: Endian
    const serialBuf: array<Byte>
    /** The number of bytes in the serial buffer. */
    var nextSerial: nat
    /** The byte-array that's written after them. */
    var dma: seq<Byte>
    const buf: array<Byte>
    var size: nat

    ghost predicate Valid()
      reads this
    {
      serialBuf != buf && nextSerial <= serialBuf.Length == buf.Length && size <= buf.Length
    }

    /** What is in the serial buffer, and what has been written. */
    ghost function Serial(): seq<Byte>
      requires Valid()
      reads this, serialBuf
    {
      serialBuf[..nextSerial]
    }

    ghost function Written(): seq<Byte>
      requires Valid()
      reads this, buf
    {
      buf[..size]
    }

    constructor (endian: Endian, maxSize: nat)
      ensures Valid() && fresh(serialBuf) && fresh(buf)
      ensures this.endian == endian && buf.Length == maxSize && Serial() == [] && dma == [] && Written() == []
    {
      this.endian := endian;
      serialBuf := new Byte[maxSize];
      nextSerial := 0;
      dma := [];
      buf := new Byte[maxSize];
      size := 0;
    }

    /** Puts bytes into the serial buffer, if they fit. */
    method PutBytes(bytes: seq<Byte>) returns (r: Result<nat, Error>)
      requires Valid()
      modifies this`nextSerial, serialBuf
      ensures Valid()
      ensures r == if |old(Serial())| + |bytes| > serialBuf.Length then Failure(BufferOverflow) else Success(|bytes|)
      ensures Serial() == old(Serial()) + if r.Success? then bytes else []
    {
      if nextSerial + |bytes| > serialBuf.Length {
        return Failure(BufferOverflow);
      }
      forall k | 0 <= k < |bytes| {
        serialBuf[nextSerial + k] := bytes[k];
      }
      nextSerial := nextSerial + |bytes|;
      assert Serial()[..old(nextSerial)] == old(Serial());
      assert Serial()[old(nextSerial)..] == bytes;
      return Success(|bytes|);
    }

    /** An 8-, 16- or 32-bit integer. */
    method EncodeInteger(v: nat, n: nat) returns (r: Result<nat, Error>)
      requires Valid() && n in {1, 2, 4} && v < Power256(n)
      modifies this`nextSerial, serialBuf
      ensures Valid()
      ensures r == if |old(Serial())| + n > serialBuf.Length then Failure(BufferOverflow) else Success(n)
      ensures Serial() == old(Serial()) + if r.Success? then ToBig(v, n) else []
    {
      HtonIsBigEndian(endian, v, n);
      r := PutBytes(Memory(endian, Hton(endian, v, n), n));
    }

    method Encode64(v: nat) returns (r: Result<nat, Error>)
      requires Valid() && v < Power256(8)
      modifies this`nextSerial, serialBuf
      ensures Valid()
      ensures r == if |old(Serial())| + 8 > serialBuf.Length then Failure(BufferOverflow) else Success(8)
      ensures r.Success? ==> Serial() == old(Serial()) + Wire64(endian, v)
    {
      WordsOf(endian, v);
      Powers();
      var n := EncodeInteger(FirstWord(endian, v), 4);
      if n.Failure? {
        return n;
      }
      n := EncodeInteger(SecondWord(endian, v), 4);
      if n.Failure? {
        return n;
      }
      return Success(8);
    }

    /** Refers to a byte-array; there can only be one. */
    method EncodeBytes(bytes: seq<Byte>) returns (r: Result<nat, Error>)
      modifies this`dma
      ensures r == if old(dma) != [] then Failure(VectorOverflow) else Success(|bytes|)
      ensures dma == if r.Success? then bytes else old(dma)
    {
      if dma != [] {
        return Failure(VectorOverflow);
      }
      dma := bytes;
      return Success(|bytes|);
    }

    /** Copies as much of one element of the I/O vector as there is room for. */
    method WriteElement(bytes: seq<Byte>)
      requires Valid()
      modifies this`size, buf
      ensures Valid()
      ensures Written() == old(Written()) + bytes[..Min(|bytes|, buf.Length - |old(Written())|)]
    {
      var len := Min(|bytes|, buf.Length - size);
      forall k | 0 <= k < len {
        buf[size + k] := bytes[k];
      }
      size := size + len;
      assert Written()[..old(size)] == old(Written());
      assert Written()[old(size)..] == bytes[..len];
    }

    /** Writes what was encoded. What there's no room for is silently dropped. */
    method Flush()
      requires Valid()
      modifies this`nextSerial, this`dma, this`size, buf
      ensures Valid() && Serial() == [] && dma == []
      ensures var record := old(Serial()) + old(dma);
              Written() == old(Written()) + record[..Min(|record|, buf.Length - |old(Written())|)]
    {
      var header, payload := serialBuf[..nextSerial], dma;
      nextSerial := 0;
      dma := [];
      var room := buf.Length - size;
      WriteElement(header);
      WriteElement(payload);
      ghost var record := header + payload;
      assert header[..Min(|header|, room)] + payload[..Min(|payload|, room - Min(|header|, room))] ==
             record[..Min(|record|, room)];
    }
  }

  // ---------------------------------------------------------------- decoding from memory

  /** An integer whose bytes are in memory, translated to host byte-order. */
  function Translated(e: Endian, bytes: seq<Byte>): (v: nat)
    ensures v == FromBig(bytes) < Power256(|bytes|)
  {
    NtohRecoversBytes(e, bytes);
    ToFromBig(bytes);
    Ntoh(e, FromMemory(e, bytes), |bytes|)
  }

  class MemDecoder {
    const endian: Endian
    const msg: seq<Byte>
    /** How much of the message was read; peeking doesn't count. */
    var memRead: nat
    const serialBuf: array<Byte>
    var nextSerial: nat
    /** How many bytes of the serial buffer are counted as still to be decoded. */
    var serialBufBytes: nat
    /** How many bytes of the serial buffer have been peeked. */
    ghost var peeked: nat

    /** What has been peeked are the message's bytes from `memRead` on. */
    ghost predicate HasPeeked()
      reads this, serialBuf
    {
      && serialBuf.Length == |msg|
      && memRead + peeked <= |msg| && nextSerial <= peeked
      && serialBuf[..peeked] == msg[memRead..memRead + peeked]
    }

    /** Exactly the peeked bytes that haven't been decoded are counted. */
    ghost predicate Valid()
      reads this, serialBuf
    {
      HasPeeked() && nextSerial + serialBufBytes == peeked
    }

    constructor (endian: Endian, msg: seq<Byte>)
      ensures Valid() && fresh(serialBuf)
      ensures this.endian == endian && this.msg == msg && memRead == nextSerial == serialBufBytes == 0
    {
      this.endian := endian;
      this.msg := msg;
      memRead := 0;
      serialBuf := new Byte[|msg|];
      nextSerial := 0;
      serialBufBytes := 0;
      peeked := 0;
    }

    /**
     * Peeks at that many more bytes than have been decoded, or at all there can be if the number is
     * 0. Bytes that had been peeked but not decoded are peeked again and counted twice: the count
     * stays right exactly if there were none, or nothing is read.
     */
    method Fill(nbytes: nat) returns (r: Result<nat, Error>)
      requires Valid()
      modifies this`serialBufBytes, this`peeked, serialBuf
      ensures HasPeeked()
      ensures Valid() <==> old(serialBufBytes) == 0 || r.Failure? || r.value == 0
      ensures r ==
              if nbytes > 0 && nextSerial + nbytes > |msg| then Failure(InvalidArgument)
              else Success(Min(if nbytes == 0 then |msg| - nextSerial else nbytes, |msg| - memRead - nextSerial))
      ensures serialBufBytes == old(serialBufBytes) + if r.Success? then r.value else 0
      ensures peeked == if r.Success? && nextSerial + r.value > old(peeked) then nextSerial + r.value else old(peeked)
    {
      var have := nextSerial;
      var wanted := nbytes;
      if nbytes == 0 {
        wanted := serialBuf.Length - have;
      } else if have + nbytes > serialBuf.Length {
        return Failure(InvalidArgument);
      }
      var nread := Min(have + wanted, |msg| - memRead);
      ghost var before := serialBuf[..peeked];
      forall k | 0 <= k < nread {
        serialBuf[k] := msg[memRead + k];
      }
      forall k | 0 <= k < peeked
        ensures serialBuf[k] == msg[memRead + k]
      {
        assert before[k] == msg[memRead..memRead + peeked][k];
      }
      if nread > peeked {
        peeked := nread;
      }
      serialBufBytes := serialBufBytes + (nread - have);
      return Success(nread - have);
    }

    /** Takes bytes from the serial buffer. */
    method TakeBytes(n: nat) returns (r: Result<seq<Byte>, Error>)
      requires Valid()
      modifies this`nextSerial, this`serialBufBytes
      ensures Valid()
      ensures r.Success? <==> n <= old(serialBufBytes)
      ensures r.Failure? ==> r.error == BufferUnderflow
      ensures r.Failure? ==> nextSerial == old(nextSerial) && serialBufBytes == old(serialBufBytes)
      ensures r.Success? ==>
                && nextSerial == old(nextSerial) + n && serialBufBytes == old(serialBufBytes) - n
                && r.value == msg[memRead + old(nextSerial)..memRead + old(nextSerial) + n]
    {
      if serialBufBytes < n {
        return Failure(BufferUnderflow);
      }
      var bytes := serialBuf[nextSerial..nextSerial + n];
      ghost var peeked := serialBuf[..nextSerial + serialBufBytes];
      Subslice(serialBuf[..], 0, nextSerial + serialBufBytes, nextSerial, nextSerial + n);
      assert serialBuf[..][0..nextSerial + serialBufBytes] == peeked;
      Subslice(msg, memRead, nextSerial + serialBufBytes, nextSerial, nextSerial + n);
      nextSerial := nextSerial + n;
      serialBufBytes := serialBufBytes - n;
      return Success(bytes);
    }

    method DecodeInteger(n: nat) returns (r: Result<nat, Error>)
      requires Valid() && n in {1, 2, 4}
      modifies this`nextSerial, this`serialBufBytes
      ensures Valid()
      ensures r.Success? <==> n <= old(serialBufBytes)
      ensures r.Failure? ==> r.error == BufferUnderflow
      ensures r.Failure? ==> nextSerial == old(nextSerial) && serialBufBytes == old(serialBufBytes)
      ensures r.Success? ==>
                && nextSerial == old(nextSerial) + n && serialBufBytes == old(serialBufBytes) - n
                && r.value == FromBig(msg[memRead + old(nextSerial)..memRead + old(nextSerial) + n]) < Power256(n)
    {
      hide FromBig, Power256, Translated;
      var bytes := TakeBytes(n);
      match bytes
      case Failure(e) => return Failure(e);
      case Success(b) => return Success(Translated(endian, b));
    }

    method Decode64() returns (r: Result<nat, Error>)
      requires Valid()
      modifies this`nextSerial, this`serialBufBytes
      ensures Valid()
      ensures r.Success? <==> 8 <= old(serialBufBytes)
      ensures r.Failure? ==> r.error == BufferUnderflow
      ensures r.Success? ==>
                && nextSerial == old(nextSerial) + 8 && serialBufBytes == old(serialBufBytes) - 8
                && r.value == Read64(endian, msg[memRead + old(nextSerial)..memRead + old(nextSerial) + 8])
    {
      hide FromMemory, Memory, FromBig, Power256;
      var first := DecodeInteger(4);
      if first.Failure? {
        return first;
      }
      var second := DecodeInteger(4);
      if second.Failure? {
        return second;
      }
      ghost var bytes := msg[memRead + old(nextSerial)..memRead + old(nextSerial) + 8];
      assert bytes[..4] == msg[memRead + old(nextSerial)..memRead + old(nextSerial) + 4];
      assert bytes[4..] == msg[memRead + old(nextSerial) + 4..memRead + old(nextSerial) + 8];
      FromWords(endian, first.value, second.value);
      Powers();
      return Success(FromMemory(endian, Memory(endian, first.value, 4) + Memory(endian, second.value, 4)));
    }

    /**
     * The scatter-read: reads what has been decoded once more, this time for good, and what
     * follows it into the caller's buffer. Returns the latter.
     */
    method DecodeBytes(len: nat) returns (bytes: seq<Byte>)
      requires Valid()
      modifies this`memRead, this`nextSerial, this`serialBufBytes, this`peeked, serialBuf
      ensures Valid() && nextSerial == serialBufBytes == 0
      ensures var start := old(memRead) + old(nextSerial);
              && memRead == start + |bytes|
              && bytes == msg[start..start + Min(len, |msg| - start)]
    {
      forall k | 0 <= k < nextSerial {
        serialBuf[k] := msg[memRead + k];
      }
      var start := memRead + nextSerial;
      bytes := msg[start..start + Min(len, |msg| - start)];
      memRead := start + |bytes|;
      nextSerial := 0;
      serialBufBytes := 0;
      peeked := 0;
    }
  }
}
