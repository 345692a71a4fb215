/**
 * A TCP socket that writes and reads aligned values. The system may transfer fewer bytes than it
 * was asked to, in both directions.
 */
module TcpSockets {
  import opened Wrappers
  import opened Bytes
  import opened HostOrder
  import opened AlignedFields

  type Count = n: nat | n < 0x1_0000_0000

  lemma Appended(before: seq<Byte>, data: seq<Byte>, done: nat, n: nat)
    requires done + n <= |data|
    ensures before + data[..done] + data[done..][..n] == before + data[..done + n]
  {
  }

  /** What has been sent when bytes follow others, if the other end takes no more than a given number. */
  function Cut(before: seq<Byte>, bytes: seq<Byte>, limit: nat): (sent: seq<Byte>)
    requires |before| <= limit
    ensures |sent| <= limit
  {
    before + bytes[..Min(|bytes|, limit - |before|)]
  }

  lemma CutInParts(before: seq<Byte>, first: seq<Byte>, rest: seq<Byte>, limit: nat)
    requires |before| <= limit
    ensures |before + first| <= limit ==> Cut(before, first, limit) == before + first
    ensures Cut(before, first + rest, limit) ==
            if |before + first| <= limit then Cut(before + first, rest, limit) else Cut(before, first, limit)
  {
    if |before + first| <= limit {
      var n := Min(|rest|, limit - |before + first|);
      assert (first + rest)[..|first| + n] == first + rest[..n];
      assert before + first + rest[..n] == before + (first + rest[..n]);
    } else {
      assert (first + rest)[..limit - |before|] == first[..limit - |before|];
    }
  }

  /** Adding to a wrapped counter is adding to the true one. */
  lemma CountAdds(count: nat, n: nat)
    ensures (count % 0x1_0000_0000 + n) % 0x1_0000_0000 == (count + n) % 0x1_0000_0000
  {
  }

  class TcpSock {
    const endian: Endian
    /** How many bytes the other end takes before it closes the connection. */
    const limit: nat
    /** The bytes that the system has taken for transmission. */
    var sent: seq<Byte>
    var bytesWritten: Count
    /** Everything that the other end sends before it closes the connection, and how much of it was read. */
    const incoming: seq<Byte>
    var consumed: nat
    var bytesRead: Count

    /** The counters have 32 bits. */
    ghost predicate Valid()
      reads this
    {
      && |sent| <= limit
      && bytesWritten == |sent| % 0x1_0000_0000
      && consumed <= |incoming|
      && bytesRead == consumed % 0x1_0000_0000
    }

    constructor (endian: Endian, limit: nat, incoming: seq<Byte>)
      ensures Valid() && this.endian == endian && this.limit == limit && this.incoming == incoming
      ensures sent == [] && consumed == 0
    {
      this.endian := endian;
      this.limit := limit;
      this.incoming := incoming;
      sent, bytesWritten := [], 0;
      consumed, bytesRead := 0, 0;
    }

    /** `::write()`: takes at least one of the bytes, unless the connection is closed. */
    method SystemWrite(bytes: seq<Byte>) returns (r: Option<nat>)
      requires bytes != [] && |sent| <= limit
      modifies this`sent
      ensures r.None? <==> |old(sent)| == limit
      ensures r.Some? ==> 1 <= r.value <= |bytes| && sent == old(sent) + bytes[..r.value] && |sent| <= limit
      ensures r.None? ==> sent == old(sent)
    {
      if |sent| == limit {
        r := None;
      } else {
        var n: nat :| 1 <= n <= |bytes| && |sent| + n <= limit;
        sent := sent + bytes[..n];
        r := Some(n);
      }
    }

    /** `::read()`: delivers at least one byte, unless the stream has ended. */
    method SystemRead(nbytes: nat) returns (bytes: seq<Byte>)
      requires nbytes > 0 && consumed <= |incoming|
      modifies this`consumed
      ensures old(consumed) <= consumed <= |incoming| && bytes == incoming[old(consumed)..consumed]
      ensures |bytes| <= nbytes
      ensures bytes == [] <==> old(consumed) == |incoming|
    {
      if consumed == |incoming| {
        bytes := [];
      } else {
        var n: nat :| 1 <= n <= nbytes && consumed + n <= |incoming|;
        bytes := incoming[consumed..consumed + n];
        consumed := consumed + n;
      }
    }

    /** Writes all the bytes that the other end takes; false means that these weren't all. */
    method WriteBytes(data: seq<Byte>) returns (ok: bool)
      requires Valid()
      modifies this`sent, this`bytesWritten
      ensures Valid()
      ensures sent == Cut(old(sent), data, limit)
      ensures ok <==> |old(sent)| + |data| <= limit
    {
      var done := 0;
      while done < |data|
        invariant 0 <= done <= |data|
        invariant Valid() && sent == old(sent) + data[..done]
        decreases |data| - done
      {
        var n := SystemWrite(data[done..]);
        if n.None? {
          return false;
        }
        Appended(old(sent), data, done, n.value);
        CountAdds(|old(sent)| + done, n.value);
        done := done + n.value;
        bytesWritten := (bytesWritten + n.value) % 0x1_0000_0000;
      }
      assert data[..done] == data;
      return true;
    }

    /** Reads that many bytes; nothing if the stream ends first. */
    method ReadBytes(nbytes: nat) returns (r: Option<seq<Byte>>)
      requires Valid()
      modifies this`consumed, this`bytesRead
      ensures Valid()
      ensures r == if old(consumed) + nbytes <= |incoming| then Some(incoming[old(consumed)..old(consumed) + nbytes])
                   else None
      ensures consumed == Min(old(consumed) + nbytes, |incoming|)
    {
      var bytes := [];
      while |bytes| < nbytes
        invariant |bytes| <= nbytes
        invariant Valid() && consumed == old(consumed) + |bytes|
        invariant bytes == incoming[old(consumed)..consumed]
        decreases nbytes - |bytes|
      {
        var part := SystemRead(nbytes - |bytes|);
        if part == [] {
          return None;
        }
        CountAdds(old(consumed) + |bytes|, |part|);
        bytesRead := (bytesRead + |part|) % 0x1_0000_0000;
        bytes := bytes + part;
      }
      return Some(bytes);
    }

    method AlignWriteTo(align: Width) returns (ok: bool)
      requires Valid()
      modifies this`sent, this`bytesWritten
      ensures Valid()
      ensures sent == Cut(old(sent), Zeros(PadLen(|old(sent)|, align)), limit)
      ensures ok <==> |old(sent)| + PadLen(|old(sent)|, align) <= limit
    {
      hide PadLen;
      WrappedCountAligns(|sent|, align);
      ok := WriteBytes(Zeros(PadLen(bytesWritten, align)));
    }

    /** The result of reading the padding is ignored: if the stream has ended, then so does reading the value. */
    method AlignReadTo(align: Width)
      requires Valid()
      modifies this`consumed, this`bytesRead
      ensures Valid()
      ensures consumed == Min(old(consumed) + PadLen(old(consumed), align), |incoming|)
    {
      WrappedCountAligns(consumed, align);
      var _ := ReadBytes(PadLen(bytesRead, align));
    }

    /** The `write()` of one value of any type. */
    method Write(value: Value) returns (ok: bool)
      requires Valid() && value.Fits()
      modifies this`sent, this`bytesWritten
      ensures Valid()
      ensures sent == Cut(old(sent), Encode(|old(sent)|, value), limit)
      ensures ok <==> |old(sent) + Encode(|old(sent)|, value)| <= limit
    {
      hide PadLen, Cut, ToNetwork;
      var bytes := ToNetwork(endian, value);
      ghost var pad := Zeros(PadLen(|sent|, value.KindOf().Alignment()));
      CutInParts(sent, pad, bytes, limit);
      if value.Unsigned? {
        ok := AlignWriteTo(value.width);
        if !ok {
          return;
        }
      } else {
        PadIsDistance(|sent|, 1);
        assert sent == sent + pad;
      }
      ok := WriteBytes(bytes);
    }

    /** The `read()` of one value of any type; nothing if the stream ends first. */
    method Read(kind: Kind) returns (r: Option<Value>)
      requires Valid()
      modifies this`consumed, this`bytesRead
      ensures Valid()
      ensures r == Decode(incoming, old(consumed), kind)
      ensures consumed == Min(EndOf(old(consumed), kind), |incoming|)
    {
      NoPadding(consumed);
      hide PadLen, ToHost;
      if kind.UnsignedKind? {
        AlignReadTo(kind.width);
      }
      var bytes := ReadBytes(kind.Length());
      r := if bytes.None? then None else Some(ToHost(endian, kind, bytes.value));
    }

    /** A client that writes a sequence of values. */
    method WriteAll(values: seq<Value>) returns (ok: bool)
      requires Valid() && forall v :: v in values ==> v.Fits()
      modifies this`sent, this`bytesWritten
      ensures Valid()
      ensures sent == Cut(old(sent), EncodeAll(|old(sent)|, values), limit)
      ensures ok <==> |old(sent) + EncodeAll(|old(sent)|, values)| <= limit
    {
      hide PadLen, Encode, Cut;
      ghost var before := sent;
      for i := 0 to |values|
        invariant Valid() && sent == before + EncodeAll(|before|, values[..i])
      {
        hide EncodeAll;
        ghost var first := EncodeAll(|before|, values[..i]);
        assert values[..i + 1] == values[..i] + [values[i]];
        EncodeAllAppend(|before|, values[..i], values[i]);
        ghost var next := Encode(|before| + |first|, values[i]);
        CutInParts(before, first, next, limit);
        CutInParts(before + first, next, [], limit);
        ok := Write(values[i]);
        if !ok {
          assert values[..i + 1] + values[i + 1..] == values;
          EncodeAllConcat(|before|, values[..i + 1], values[i + 1..]);
          CutInParts(before, first + next, EncodeAll(|before| + |first + next|, values[i + 1..]), limit);
          return;
        }
      }
      CutInParts(before, EncodeAll(|before|, values), [], limit);
      assert values[..|values|] == values;
      return true;
    }

    /** A client that reads a sequence of values of given kinds. */
    method ReadAll(kinds: seq<Kind>) returns (r: Option<seq<Value>>)
      requires Valid()
      modifies this`consumed, this`bytesRead
      ensures Valid()
      ensures r == DecodeAll(incoming, old(consumed), kinds)
      ensures r.Some? ==> consumed == EndOfAll(old(consumed), kinds)
      decreases |kinds|
    {
      if kinds == [] {
        return Some([]);
      }
      var first := Read(kinds[0]);
      if first.None? {
        return None;
      }
      var rest := ReadAll(kinds[1..]);
      r := if rest.None? then None else Some([first.value] + rest.value);
    }
  }

  /** Nothing is decoded from a stream that ends before the last value does. */
  lemma {:induction false} DecodeAllReaches(stream: seq<Byte>, position: nat, kinds: seq<Kind>)
    requires position <= |stream|
    ensures |stream| < EndOfAll(position, kinds) ==> DecodeAll(stream, position, kinds).None?
    decreases |kinds|
  {
    hide EndOf;
    if kinds == [] {
    } else {
      if EndOf(position, kinds[0]) <= |stream| {
        DecodeAllReaches(stream, EndOf(position, kinds[0]), kinds[1..]);
      }
    }
  }

  /**
   * A TCP connection between hosts of any endianness. Whatever values are written, and however the
   * system cuts the stream up on either side, reading the same kinds returns the same values, if the
   * connection isn't closed before all of them are written, and otherwise nothing. The byte counters of
   * both ends agree, also after they have wrapped.
   */
  method RoundTrip(writer: Endian, reader: Endian, limit: nat, values: seq<Value>)
    returns (ok: bool, received: Option<seq<Value>>, bytesWritten: Count, bytesRead: Count)
    requires forall v :: v in values ==> v.Fits()
    ensures ok <==> |EncodeAll(0, values)| <= limit
    ensures received == if ok then Some(values) else None
    ensures ok ==> bytesWritten == bytesRead == |EncodeAll(0, values)| % 0x1_0000_0000
    ensures !ok ==> bytesWritten == limit % 0x1_0000_0000
  {
    hide PadLen, Encode, EncodeAll, Decode, DecodeAll, EndOfAll, Kinds;
    var sender := new TcpSock(writer, limit, []);
    ok := sender.WriteAll(values);
    var receiver := new TcpSock(reader, 0, sender.sent);
    received := receiver.ReadAll(Kinds(values));
    bytesWritten, bytesRead := sender.bytesWritten, receiver.bytesRead;
    EncodeAllEnds(0, values);
    if ok {
      assert sender.sent == EncodeAll(0, values);
      DecodeAllEncoded([], values, []);
      assert [] + EncodeAll(0, values) + [] == EncodeAll(0, values);
    } else {
      DecodeAllReaches(sender.sent, 0, Kinds(values));
    }
  }
}
