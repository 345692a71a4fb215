/**
 * A UDP socket. A packet is gathered from an I/O vector to which values are added; a receiver
 * peeks at it in batches, each of which skips the bytes that were peeked before.
 */
module UdpSockets {
  import opened Wrappers
  import opened Bytes
  import opened HostOrder
  import opened AlignedFields

  const MAX_PAYLOAD := 1472
  const IOV_MAX := 1024

  datatype Error = InvalidArgument | LogicError

  /** `vetIoElt()` */
  function Vet(nbytes: nat, iovLength: nat): Option<Error> {
    if nbytes > MAX_PAYLOAD then Some(InvalidArgument)
    else if iovLength == IOV_MAX then Some(LogicError)
    else None
  }

  // ---------------------------------------------------------------- the elements of an I/O vector

  /** An element of an I/O vector: padding, which a reader skips, or a value's place. */
  datatype Element = Skip(length: nat) | Destination(kind: Kind)
  {
    function Length(): nat {
      if Skip? then length else kind.Length()
    }
  }

  /** How many elements a value takes up at a position: its padding, if any, and itself. */
  function NumElements(position: nat, kind: Kind): nat {
    if PadLen(position, kind.Alignment()) == 0 then 1 else 2
  }

  /** A vector with the elements of one more value, which comes after that many bytes. */
  function WithValue(elements: seq<Element>, position: nat, kind: Kind): seq<Element> {
    var padding := PadLen(position, kind.Alignment());
    (if padding == 0 then elements else elements + [Skip(padding)]) + [Destination(kind)]
  }

  /** The elements of a sequence of values, the first of which is at a position. */
  function ElementsFor(position: nat, kinds: seq<Kind>): seq<Element>
    decreases |kinds|
  {
    if kinds == [] then []
    else
      var front := kinds[..|kinds| - 1];
      WithValue(ElementsFor(position, front), EndOfAll(position, front), kinds[|kinds| - 1])
  }

  lemma {:induction false} EndOfAllAppend(position: nat, kinds: seq<Kind>, last: Kind)
    ensures EndOfAll(position, kinds + [last]) == EndOf(EndOfAll(position, kinds), last)
    decreases |kinds|
  {
    hide EndOf;
    if kinds == [] {
      assert kinds + [last] == [last];
      assert [last][1..] == [];
    } else {
      EndOfAllAppend(EndOf(position, kinds[0]), kinds[1..], last);
      assert (kinds + [last])[1..] == kinds[1..] + [last];
    }
  }

  lemma {:induction false} EndOfAllIsAhead(position: nat, kinds: seq<Kind>)
    ensures position <= EndOfAll(position, kinds)
    decreases |kinds|
  {
    hide PadLen;
    if kinds == [] {
    } else {
      EndOfAllIsAhead(EndOf(position, kinds[0]), kinds[1..]);
    }
  }

  lemma {:induction false} EndOfAllGrows(position: nat, a: seq<Kind>, b: seq<Kind>)
    ensures EndOfAll(position, a) <= EndOfAll(position, a + b)
    decreases |a|
  {
    hide EndOf;
    if a == [] {
      assert a + b == b;
      EndOfAllIsAhead(position, b);
    } else {
      assert (a + b)[1..] == a[1..] + b;
      EndOfAllGrows(EndOf(position, a[0]), a[1..], b);
    }
  }

  /** What `ElementsFor` adds for one more value. */
  lemma ElementsAppend(position: nat, kinds: seq<Kind>, last: Kind)
    ensures ElementsFor(position, kinds + [last]) ==
            WithValue(ElementsFor(position, kinds), EndOfAll(position, kinds), last)
    ensures |ElementsFor(position, kinds + [last])| ==
            |ElementsFor(position, kinds)| + NumElements(EndOfAll(position, kinds), last)
  {
    assert (kinds + [last])[..|kinds|] == kinds;
  }

  lemma {:induction false} ElementsGrow(position: nat, a: seq<Kind>, b: seq<Kind>)
    ensures |ElementsFor(position, a)| <= |ElementsFor(position, a + b)|
    decreases |b|
  {
    hide ElementsFor, PadLen;
    if b == [] {
      assert a + b == a;
    } else {
      var front, last := b[..|b| - 1], b[|b| - 1];
      assert a + b == a + front + [last];
      ElementsGrow(position, a, front);
      ElementsAppend(position, a + front, last);
    }
  }

  lemma KindsAppend(values: seq<Value>, i: nat)
    requires i < |values|
    ensures Kinds(values[..i + 1]) == Kinds(values[..i]) + [values[i].KindOf()]
    ensures Kinds(values[..i + 1]) + Kinds(values[i + 1..]) == Kinds(values)
  {
  }

  // ---------------------------------------------------------------- refusals

  /** Padding alone is too much exactly for a vector that's full. */
  predicate IsFullForPadding(position: nat, count: nat, width: Width) {
    PadLen(position, width) != 0 && count == IOV_MAX
  }

  /** Why a value can't be added at a position of a packet, to a vector with that many elements. */
  function Refusal(position: nat, count: nat, kind: Kind): Option<Error> {
    if IsFullForPadding(position, count, kind.Alignment()) then Some(LogicError)
    else if EndOf(position, kind) > MAX_PAYLOAD then Some(InvalidArgument)
    else if count + NumElements(position, kind) > IOV_MAX then Some(LogicError)
    else None
  }

  /**
   * An addition is refused exactly if it's too much for a packet or for the vector. It's the packet's limit
   * that is reported, unless the vector has no room even for the padding.
   */
  lemma IsRoomExactly(position: nat, count: nat, kind: Kind)
    ensures Refusal(position, count, kind) == Some(InvalidArgument) <==>
              EndOf(position, kind) > 1472 && (PadLen(position, kind.Alignment()) == 0 || count != 1024)
    ensures Refusal(position, count, kind).None? <==>
              EndOf(position, kind) <= MAX_PAYLOAD && count + NumElements(position, kind) <= IOV_MAX
  {
    hide PadLen;
  }

  /** Padding stays within a packet, because the limit is a multiple of every width. */
  lemma PaddingFits(position: nat, width: Width)
    requires position <= MAX_PAYLOAD
    ensures position + PadLen(position, width) <= MAX_PAYLOAD
  {
    PadAligns(position, width);
    hide PadLen;
    assert Remainder(MAX_PAYLOAD, width) == 0;
  }

  /** What vetting a value's own element comes to, if its padding wasn't refused. */
  lemma VettingRefuses(position: nat, count: nat, kind: Kind, nbytes: nat, iovLength: nat)
    requires count <= IOV_MAX && !IsFullForPadding(position, count, kind.Alignment())
    requires nbytes == EndOf(position, kind) && iovLength == count + NumElements(position, kind) - 1
    ensures Vet(nbytes, iovLength) == Refusal(position, count, kind)
  {
    hide PadLen;
  }

  // ---------------------------------------------------------------- sending

  function Gather(iov: seq<seq<Byte>>): seq<Byte> {
    if iov == [] then [] else Gather(iov[..|iov| - 1]) + iov[|iov| - 1]
  }

  lemma {:induction false} GatherOne(iov: seq<seq<Byte>>, bytes: seq<Byte>)
    ensures Gather(iov + [bytes]) == Gather(iov) + bytes
  {
    assert (iov + [bytes])[..|iov|] == iov;
  }

  /** Small enough for a packet, and for the sender's vector. */
  predicate FitsPacket(values: seq<Value>) {
    |EncodeAll(0, values)| <= MAX_PAYLOAD && |ElementsFor(0, Kinds(values))| <= IOV_MAX
  }

  /** What aligning the next write comes to. */
  ghost predicate WriteIsAligned(before: seq<seq<Byte>>, after: seq<seq<Byte>>, width: Width, error: Option<Error>) {
    var padding := PadLen(|Gather(before)|, width);
    && error == (if IsFullForPadding(|Gather(before)|, |before|, width) then Some(LogicError) else None)
    && after == (if padding == 0 || error.Some? then before else before + [Zeros(padding)])
    && (error.None? ==> Gather(after) == Gather(before) + Zeros(padding))
  }

  /** What adding a write comes to. */
  ghost predicate WriteIsAdded(before: seq<seq<Byte>>, after: seq<seq<Byte>>, value: Value, error: Option<Error>) {
    var start := |Gather(before)|;
    var padding := PadLen(start, value.KindOf().Alignment());
    && error == Refusal(start, |before|, value.KindOf())
    && match error
       case None =>
         && Gather(after) == Gather(before) + Encode(start, value)
         && |after| == |before| + NumElements(start, value.KindOf())
       case Some(_) => after == if padding == 0 || |before| == IOV_MAX then before else before + [Zeros(padding)]
  }

  lemma {:induction false} FailedWrite(before: seq<seq<Byte>>, value: Value, error: Option<Error>)
    requires value.Unsigned? && WriteIsAligned(before, before, value.width, error) && error.Some?
    ensures WriteIsAdded(before, before, value, error)
  {
    hide PadLen, Gather;
  }

  lemma {:induction false} AlignedError(before: seq<seq<Byte>>, aligned: seq<seq<Byte>>, value: Value)
    requires value.Fits() && |aligned| <= IOV_MAX
    requires if value.Unsigned? then WriteIsAligned(before, aligned, value.width, None) else aligned == before
    ensures Vet(|Gather(aligned)| + |value.Payload()|, |aligned|) ==
            Refusal(|Gather(before)|, |before|, value.KindOf())
    ensures PadLen(|Gather(before)|, value.KindOf().Alignment()) != 0 ==> |before| < IOV_MAX
  {
    NoPadding(|Gather(before)|);
    PayloadRoundTrip(value);
    hide PadLen, Gather, Value.Payload, Value.Fits;
    VettingRefuses(|Gather(before)|, |before|, value.KindOf(), |Gather(aligned)| + |value.Payload()|, |aligned|);
    hide Refusal, Vet;
  }

  lemma {:induction false} AlignedWrite(before: seq<seq<Byte>>, aligned: seq<seq<Byte>>, after: seq<seq<Byte>>,
                                        value: Value, error: Option<Error>)
    requires value.Fits() && |aligned| <= IOV_MAX
    requires if value.Unsigned? then WriteIsAligned(before, aligned, value.width, None) else aligned == before
    requires error == Vet(|Gather(aligned)| + |value.Payload()|, |aligned|)
    requires after == if error.None? then aligned + [value.Payload()] else aligned
    ensures WriteIsAdded(before, after, value, error)
  {
    var start := |Gather(before)|;
    var pad := Zeros(PadLen(start, value.KindOf().Alignment()));
    AlignedError(before, aligned, value);
    NoPadding(start);
    GatherOne(aligned, value.Payload());
    hide PadLen, Gather, Refusal, Vet, Value.Fits, Value.Payload;
    assert value.Unsigned? || pad == [];
    assert Gather(before) + pad + value.Payload() == Gather(before) + (pad + value.Payload());
    assert aligned == if pad == [] then before else before + [pad];
    assert Gather(aligned) == Gather(before) + pad;
    assert NumElements(start, value.KindOf()) == if pad == [] then 1 else 2;
    hide NumElements;
  }

  // ---------------------------------------------------------------- the value buffers

  /** How many integers of a width the buffer for them takes: as many as a packet. */
  function Capacity(width: Width): (n: nat)
    ensures n * width == MAX_PAYLOAD
  {
    if width == 1 then MAX_PAYLOAD
    else if width == 2 then MAX_PAYLOAD / 2
    else if width == 4 then MAX_PAYLOAD / 4
    else MAX_PAYLOAD / 8
  }

  /** The next places in the buffers that integers are stored in until they're written, one buffer a width. */
  datatype Nexts = Nexts(nxt8: nat, nxt16: nat, nxt32: nat, nxt64: nat)
  {
    function At(width: Width): nat {
      if width == 1 then nxt8 else if width == 2 then nxt16 else if width == 4 then nxt32 else nxt64
    }

    function Advanced(width: Width): Nexts {
      if width == 1 then this.(nxt8 := nxt8 + 1)
      else if width == 2 then this.(nxt16 := nxt16 + 1)
      else if width == 4 then this.(nxt32 := nxt32 + 1)
      else this.(nxt64 := nxt64 + 1)
    }

    /** Nothing has been stored beyond a buffer's end. */
    ghost predicate InBounds() {
      forall w: Width :: At(w) <= Capacity(w)
    }
  }

  const START := Nexts(0, 0, 0, 0)

  lemma AdvancedAt(nxt: Nexts, width: Width)
    ensures forall w: Width :: nxt.Advanced(width).At(w) == nxt.At(w) + if w == width then 1 else 0
    ensures nxt.InBounds() ==> (nxt.Advanced(width).InBounds() <==> nxt.At(width) < Capacity(width))
    ensures nxt.InBounds() ==> nxt.At(width) <= Capacity(width)
    ensures nxt.At(width) >= Capacity(width) ==> !nxt.Advanced(width).InBounds()
    ensures !nxt.InBounds() ==> !nxt.Advanced(width).InBounds()
  {
    var after := nxt.Advanced(width);
    assert forall w: Width :: after.At(w) == nxt.At(w) + if w == width then 1 else 0;
    hide Nexts.At, Nexts.Advanced, Capacity;
    assert after.At(width) == nxt.At(width) + 1;
  }

  /** The buffer in which a value is stored. */
  function BufferOf(value: Value): Option<Width> {
    match value
    case Boolean(_) => Some(1)
    case Unsigned(width, _) => Some(width)
    case Raw(_) => None
  }

  /** An integer is stored once it's aligned, before its own element is vetted. */
  function AfterStore(nxt: Nexts, position: nat, count: nat, value: Value): Nexts {
    if BufferOf(value).None? || IsFullForPadding(position, count, value.KindOf().Alignment()) then nxt
    else nxt.Advanced(BufferOf(value).value)
  }

  /** How many of the values are stored in the buffer for a width. */
  function Count(values: seq<Value>, width: Width): nat {
    if values == [] then 0
    else Count(values[..|values| - 1], width) + if BufferOf(values[|values| - 1]) == Some(width) then 1 else 0
  }

  /** The buffers don't take the values of these packets. */
  ghost predicate ExceedsBuffers(nxt: Nexts, values: seq<Value>) {
    exists w: Width :: nxt.At(w) + Count(values, w) > Capacity(w)
  }

  /** The values before an integer are accepted and use up the buffer for its width, and it's aligned. */
  ghost predicate IsStoredBeyond(nxt: Nexts, values: seq<Value>, i: nat)
    requires i < |values|
  {
    && FitsPacket(values[..i])
    && match BufferOf(values[i])
       case None => false
       case Some(width) =>
         && nxt.At(width) + Count(values[..i], width) == Capacity(width)
         && !IsFullForPadding(|EncodeAll(0, values[..i])|, |ElementsFor(0, Kinds(values[..i]))|,
                              values[i].KindOf().Alignment())
  }

  /** Adding the first so many values of a packet in turn stores one of them beyond the end of a buffer. */
  ghost predicate OverrunsUpTo(nxt: Nexts, values: seq<Value>, n: nat)
    requires n <= |values|
  {
    exists i :: 0 <= i < n && IsStoredBeyond(nxt, values, i)
  }

  ghost predicate Overruns(nxt: Nexts, values: seq<Value>) {
    OverrunsUpTo(nxt, values, |values|)
  }

  /** The first values fill a packet with integers of one width, and another one follows. */
  ghost predicate IsOneTooMany(values: seq<Value>, i: nat)
    requires i < |values|
  {
    && FitsPacket(values[..i])
    && match BufferOf(values[i])
       case None => false
       case Some(width) => Count(values[..i], width) == Capacity(width)
  }

  ghost predicate HasOneTooMany(values: seq<Value>) {
    exists i :: 0 <= i < |values| && IsOneTooMany(values, i)
  }

  lemma CountOne(values: seq<Value>, last: Value, width: Width)
    ensures Count(values + [last], width) == Count(values, width) + if BufferOf(last) == Some(width) then 1 else 0
  {
    assert (values + [last])[..|values|] == values;
  }

  lemma {:induction false} CountConcat(a: seq<Value>, b: seq<Value>, width: Width)
    ensures Count(a + b, width) == Count(a, width) + Count(b, width)
    decreases |b|
  {
    if b == [] {
      assert a + b == a;
    } else {
      CountConcat(a, b[..|b| - 1], width);
      assert (a + b)[..|a + b| - 1] == a + b[..|b| - 1];
    }
  }

  function Times(n: nat, width: Width): nat {
    if width == 1 then n else if width == 2 then 2 * n else if width == 4 then 4 * n else 8 * n
  }

  /** The integers of a width have room in the bytes that all values take up. */
  lemma {:induction false} CountFits(values: seq<Value>, width: Width)
    requires forall v :: v in values ==> v.Fits()
    ensures Times(Count(values, width), width) <= |EncodeAll(0, values)|
    decreases |values|
  {
    hide PadLen, EncodeAll;
    if values == [] {
    } else {
      var front, last := values[..|values| - 1], values[|values| - 1];
      CountFits(front, width);
      assert values == front + [last];
      EncodeAllAppend(0, front, last);
      PayloadRoundTrip(last);
      assert |Encode(|EncodeAll(0, front)|, last)| >= last.KindOf().Length();
    }
  }

  /** A packet that's full of integers of one width is full. */
  lemma {:induction false} OneTooManyIsAligned(values: seq<Value>, i: nat)
    requires i < |values| && IsOneTooMany(values, i) && forall v :: v in values ==> v.Fits()
    ensures |EncodeAll(0, values[..i])| == MAX_PAYLOAD
    ensures PadLen(|EncodeAll(0, values[..i])|, values[i].KindOf().Alignment()) == 0
  {
    CountFits(values[..i], BufferOf(values[i]).value);
    hide EncodeAll, ElementsFor, Count, PadLen;
    PadAligns(MAX_PAYLOAD, values[i].KindOf().Alignment());
    PaddingFits(MAX_PAYLOAD, values[i].KindOf().Alignment());
  }

  /**
   * The first packet's integers are stored beyond a buffer's end exactly if they fill the packet with
   * integers of one width and another one is added.
   */
  lemma {:induction false} FirstPacketOverruns(values: seq<Value>)
    requires forall v :: v in values ==> v.Fits()
    ensures Overruns(START, values) <==> HasOneTooMany(values)
    ensures FitsPacket(values) ==> !Overruns(START, values)
  {
    forall i | 0 <= i < |values|
      ensures IsStoredBeyond(START, values, i) <==> IsOneTooMany(values, i)
      ensures IsOneTooMany(values, i) ==> !FitsPacket(values)
    {
      FirstPacketAt(values, i);
    }
    hide IsStoredBeyond, IsOneTooMany;
  }

  lemma {:induction false} FirstPacketAt(values: seq<Value>, i: nat)
    requires i < |values| && forall v :: v in values ==> v.Fits()
    ensures IsStoredBeyond(START, values, i) <==> IsOneTooMany(values, i)
    ensures IsOneTooMany(values, i) ==> !FitsPacket(values)
  {
    if IsOneTooMany(values, i) {
      OneTooManyDoesntFit(values, i);
    }
    assert forall w: Width :: START.At(w) == 0;
    hide FitsPacket, Count, EncodeAll, ElementsFor, PadLen, Kinds, Value.Fits, Capacity, Nexts.At;
  }

  lemma BufferedHasLength(value: Value)
    ensures BufferOf(value).Some? <==> !value.Raw?
    ensures BufferOf(value).Some? ==> value.KindOf().Length() > 0
  {
  }

  lemma {:induction false} OneTooManyDoesntFit(values: seq<Value>, i: nat)
    requires i < |values| && IsOneTooMany(values, i) && forall v :: v in values ==> v.Fits()
    ensures PadLen(|EncodeAll(0, values[..i])|, values[i].KindOf().Alignment()) == 0
    ensures !FitsPacket(values)
  {
    hide FitsPacket, EncodeAll, ElementsFor, PadLen, Kinds, Value.Fits, Count, Capacity;
    OneTooManyIsAligned(values, i);
    OneMoreField(values, i);
    BufferedHasLength(values[i]);
  }

  /** If the values of a width are too many for its buffer then one of them is the first too many. */
  lemma {:induction false} FirstBeyond(nxt: Nexts, values: seq<Value>, width: Width) returns (i: nat)
    requires nxt.At(width) <= Capacity(width) < nxt.At(width) + Count(values, width)
    ensures i < |values| && BufferOf(values[i]) == Some(width)
    ensures nxt.At(width) + Count(values[..i], width) == Capacity(width)
    decreases |values|
  {
    var last := |values| - 1;
    if nxt.At(width) + Count(values[..last], width) <= Capacity(width) {
      i := last;
    } else {
      i := FirstBeyond(nxt, values[..last], width);
      assert values[..last][..i] == values[..i];
    }
  }

  lemma {:induction false} PrefixFitsPacket(values: seq<Value>, i: nat)
    requires i <= |values| && FitsPacket(values) && forall v :: v in values ==> v.Fits()
    ensures FitsPacket(values[..i])
  {
    if i == 0 {
      assert EncodeAll(0, values[..i]) == [] && ElementsFor(0, Kinds(values[..i])) == [];
    } else {
      OneMoreField(values, i - 1);
    }
  }

  /** The values of an accepted packet are stored beyond a buffer's end exactly if there are too many of a width. */
  lemma {:induction false} AcceptedPacketOverruns(nxt: Nexts, values: seq<Value>)
    requires nxt.InBounds() && FitsPacket(values) && forall v :: v in values ==> v.Fits()
    ensures Overruns(nxt, values) <==> ExceedsBuffers(nxt, values)
  {
    hide FitsPacket, Count, EncodeAll, ElementsFor, Kinds, PadLen, Capacity;
    if Overruns(nxt, values) {
      var i :| 0 <= i < |values| && IsStoredBeyond(nxt, values, i);
      var width := BufferOf(values[i]).value;
      assert values[..i + 1] == values[..i] + [values[i]] && values == values[..i + 1] + values[i + 1..];
      CountOne(values[..i], values[i], width);
      CountConcat(values[..i + 1], values[i + 1..], width);
    }
    if ExceedsBuffers(nxt, values) {
      var width: Width :| nxt.At(width) + Count(values, width) > Capacity(width);
      var i := FirstBeyond(nxt, values, width);
      PrefixFitsPacket(values, i);
      PrefixFitsPacket(values, i + 1);
      IsRoomForPadding(values, i);
      assert IsStoredBeyond(nxt, values, i);
    }
  }

  lemma {:induction false} IsRoomForPadding(values: seq<Value>, i: nat)
    requires i < |values| && FitsPacket(values[..i + 1]) && forall v :: v in values ==> v.Fits()
    ensures !IsFullForPadding(|EncodeAll(0, values[..i])|, |ElementsFor(0, Kinds(values[..i]))|,
                              values[i].KindOf().Alignment())
  {
    OneMoreField(values, i);
    hide FitsPacket, EncodeAll, ElementsFor, Kinds, PadLen;
  }

  /** The sending side. Writing a packet doesn't free the places in the buffers that its values took up. */
  class UdpSender {
    const endian: Endian
    var writeIov: seq<seq<Byte>>
    var numWrite: nat
    var nxt: Nexts
    var overran: bool

    ghost predicate Valid()
      reads this
    {
      && numWrite == |Gather(writeIov)| && numWrite <= MAX_PAYLOAD && |writeIov| <= IOV_MAX
      && (overran <==> !nxt.InBounds())
    }

    constructor (endian: Endian)
      ensures Valid() && this.endian == endian && writeIov == [] && nxt == START && !overran
    {
      this.endian := endian;
      writeIov := [];
      numWrite := 0;
      nxt := START;
      overran := false;
    }

    method AddElement(bytes: seq<Byte>) returns (error: Option<Error>)
      requires Valid()
      modifies this`writeIov, this`numWrite
      ensures Valid()
      ensures error == Vet(|Gather(old(writeIov))| + |bytes|, |old(writeIov)|)
      ensures writeIov == if error.None? then old(writeIov) + [bytes] else old(writeIov)
    {
      error := Vet(numWrite + |bytes|, |writeIov|);
      if error.None? {
        GatherOne(writeIov, bytes);
        numWrite := numWrite + |bytes|;
        writeIov := writeIov + [bytes];
      }
    }

    method AlignWriteTo(width: Width) returns (error: Option<Error>)
      requires Valid()
      modifies this`writeIov, this`numWrite
      ensures Valid()
      ensures WriteIsAligned(old(writeIov), writeIov, width, error)
    {
      var padding := PadLen(numWrite, width);
      GatherOne(writeIov, Zeros(padding));
      PaddingFits(numWrite, width);
      hide PadLen, Gather;
      if padding == 0 {
        assert Gather(writeIov) + Zeros(0) == Gather(writeIov);
        return None;
      }
      error := AddElement(Zeros(padding));
    }

    /** Stores an integer in the next place of its buffer, which may be beyond the buffer's end. */
    method Store(width: Width)
      requires Valid()
      modifies this`nxt, this`overran
      ensures Valid() && nxt == old(nxt).Advanced(width)
      ensures overran <==> old(overran) || old(nxt).At(width) == Capacity(width)
    {
      hide Gather, Capacity, Nexts.Advanced, Nexts.InBounds;
      AdvancedAt(nxt, width);
      if nxt.At(width) >= Capacity(width) {
        overran := true;
      }
      nxt := nxt.Advanced(width);
    }

    /** Stores a value and adds an element for it. */
    method AddAligned(value: Value) returns (error: Option<Error>)
      requires Valid() && value.Fits()
      modifies this
      ensures Valid() && (old(overran) ==> overran)
      ensures nxt == match BufferOf(value) case None => old(nxt) case Some(width) => old(nxt).Advanced(width)
      ensures error == Vet(|Gather(old(writeIov))| + |value.Payload()|, |old(writeIov)|)
      ensures writeIov == if error.None? then old(writeIov) + [value.Payload()] else old(writeIov)
    {
      var bytes := ToNetwork(endian, value);
      hide Gather, ToNetwork, Vet, Value.Payload, Value.Fits, Nexts.InBounds, Nexts.Advanced;
      match BufferOf(value) {
        case None =>
        case Some(width) => Store(width);
      }
      error := AddElement(bytes);
    }

    /**
     * Adds a value: exactly its aligned encoding. An exception is thrown exactly if that's too much
     * for a packet or for the vector; then at most the padding has been added. An integer takes up a
     * place in its buffer even if its own element is refused. Once one has been stored beyond its
     * buffer's end, nothing is promised any more.
     */
    method AddWrite(value: Value) returns (error: Option<Error>)
      requires Valid() && value.Fits()
      modifies this
      ensures Valid()
      ensures overran <==> old(overran) ||
                           !AfterStore(old(nxt), |Gather(old(writeIov))|, |old(writeIov)|, value).InBounds()
      ensures !overran ==>
                && WriteIsAdded(old(writeIov), writeIov, value, error)
                && nxt == AfterStore(old(nxt), |Gather(old(writeIov))|, |old(writeIov)|, value)
    {
      ghost var before := writeIov;
      NoPadding(|Gather(before)|);
      hide PadLen, Gather, WriteIsAdded, Vet, Value.Payload, Value.Fits, Nexts.InBounds, Nexts.Advanced;
      if value.Unsigned? {
        error := AlignWriteTo(value.width);
        if error.Some? {
          FailedWrite(before, value, error);
          return;
        }
      }
      ghost var aligned := writeIov;
      error := AddAligned(value);
      AlignedWrite(before, aligned, writeIov, value, error);
    }

    /** `::writev()`: the gathered packet. */
    method Write() returns (packet: seq<Byte>)
      requires Valid()
      modifies this`writeIov, this`numWrite
      ensures Valid() && writeIov == []
      ensures packet == Gather(old(writeIov)) && |packet| <= MAX_PAYLOAD
    {
      packet := Gather(writeIov);
      numWrite := 0;
      writeIov := [];
    }

    /**
     * A client that sends one packet. It's sent exactly if it's small enough and its elements fit
     * into the vector. That's provided that no integer is stored beyond the end of a buffer, which
     * happens exactly if the packets before have used up too much of it.
     */
    method Send(values: seq<Value>) returns (packet: Option<seq<Byte>>)
      requires Valid() && writeIov == [] && forall v :: v in values ==> v.Fits()
      modifies this
      ensures Valid()
      ensures overran <==> old(overran) || Overruns(old(nxt), values)
      ensures !overran ==> packet == if FitsPacket(values) then Some(EncodeAll(0, values)) else None
      ensures packet.Some? ==> writeIov == []
      ensures !overran && packet.Some? ==> forall w: Width :: nxt.At(w) == old(nxt).At(w) + Count(values, w)
    {
      NothingAdded(nxt, values);
      assert values[..0] == [];
      hide IsAdded, IsStoredBeyond, OverrunsUpTo, WriteIsAdded, FitsPacket, Gather, EncodeAll, AfterStore;
      hide Nexts.InBounds, Nexts.At, Value.Fits;
      hide Count, IsFullForPadding;
      for i := 0 to |values|
        invariant Valid()
        invariant overran <==> old(overran) || OverrunsUpTo(old(nxt), values, i)
        invariant overran || IsAdded(values[..i], writeIov)
        invariant overran || forall w: Width :: nxt.At(w) == old(nxt).At(w) + Count(values[..i], w)
      {
        ghost var before := writeIov;
        OverrunsGrows(old(nxt), values, i);
        if !overran {
          StoredOneMore(old(nxt), nxt, values, i, before);
        }
        var error := AddWrite(values[i]);
        if !overran {
          AddedOneMore(values, i, before, writeIov, error);
        }
        if error.Some? {
          if !overran {
            RefusedIsLast(old(nxt), values, i);
          }
          return None;
        }
      }
      assert values[..|values|] == values;
      if !overran {
        AllAdded(values, writeIov);
      }
      var gathered := Write();
      return Some(gathered);
    }
  }

  /** The vector holds the encoding of values that fit. */
  ghost predicate IsAdded(values: seq<Value>, iov: seq<seq<Byte>>) {
    && FitsPacket(values)
    && Gather(iov) == EncodeAll(0, values)
    && |iov| == |ElementsFor(0, Kinds(values))|
  }

  lemma NothingAdded(nxt: Nexts, values: seq<Value>)
    ensures IsAdded([], []) && !OverrunsUpTo(nxt, values, 0)
    ensures forall w: Width :: Count([], w) == 0
  {
  }

  lemma OverrunsGrows(nxt: Nexts, values: seq<Value>, i: nat)
    requires i < |values|
    ensures OverrunsUpTo(nxt, values, i + 1) <==> OverrunsUpTo(nxt, values, i) || IsStoredBeyond(nxt, values, i)
    ensures OverrunsUpTo(nxt, values, i + 1) ==> Overruns(nxt, values)
  {
    hide IsStoredBeyond;
  }

  lemma AllAdded(values: seq<Value>, iov: seq<seq<Byte>>)
    requires IsAdded(values, iov)
    ensures FitsPacket(values) && Gather(iov) == EncodeAll(0, values)
  {
  }

  /** One more value is added exactly if it fits. */
  lemma {:induction false} AddedOneMore(values: seq<Value>, i: nat, before: seq<seq<Byte>>, after: seq<seq<Byte>>,
                                        error: Option<Error>)
    requires i < |values| && forall v :: v in values ==> v.Fits()
    requires IsAdded(values[..i], before) && WriteIsAdded(before, after, values[i], error)
    ensures error.None? <==> FitsPacket(values[..i + 1])
    ensures error.None? ==> !IsFullForPadding(|Gather(before)|, |before|, values[i].KindOf().Alignment())
    ensures error.None? ==> IsAdded(values[..i + 1], after)
  {
    OneMoreField(values, i);
    IsRoomExactly(|Gather(before)|, |before|, values[i].KindOf());
    hide FitsPacket, EncodeAll, Encode, EndOf, NumElements, ElementsFor, Kinds, PadLen, Gather, Refusal;
  }

  /** And its place in a buffer is beyond the end exactly if the values up to it have used up the buffer. */
  lemma {:induction false} StoredOneMore(first: Nexts, nxt: Nexts, values: seq<Value>, i: nat, before: seq<seq<Byte>>)
    requires i < |values| && IsAdded(values[..i], before) && nxt.InBounds()
    requires forall w: Width :: nxt.At(w) == first.At(w) + Count(values[..i], w)
    ensures var after := AfterStore(nxt, |Gather(before)|, |before|, values[i]);
            && (!after.InBounds() <==> IsStoredBeyond(first, values, i))
            && (IsFullForPadding(|Gather(before)|, |before|, values[i].KindOf().Alignment()) ||
                forall w: Width :: after.At(w) == first.At(w) + Count(values[..i + 1], w))
  {
    assert values[..i + 1] == values[..i] + [values[i]];
    forall w: Width
      ensures Count(values[..i + 1], w) == Count(values[..i], w) + if BufferOf(values[i]) == Some(w) then 1 else 0
    {
      CountOne(values[..i], values[i], w);
    }
    hide FitsPacket, EncodeAll, ElementsFor, Kinds, PadLen, Gather, Count;
    if BufferOf(values[i]).Some? {
      AdvancedAt(nxt, BufferOf(values[i]).value);
    }
    hide Capacity, Nexts.At, Nexts.Advanced, Nexts.InBounds;
  }

  lemma {:induction false} RefusedIsLast(nxt: Nexts, values: seq<Value>, i: nat)
    requires i < |values| && !FitsPacket(values[..i + 1]) && forall v :: v in values ==> v.Fits()
    ensures !FitsPacket(values) && (Overruns(nxt, values) ==> OverrunsUpTo(nxt, values, i + 1))
  {
    hide FitsPacket;
    forall j | i < j <= |values|
      ensures !FitsPacket(values[..j])
    {
      assert values[..j][..i + 1] == values[..i + 1];
      if FitsPacket(values[..j]) {
        PrefixFitsPacket(values[..j], i + 1);
      }
    }
    assert values[..|values|] == values;
  }

  function Flatten<T>(parts: seq<seq<T>>): seq<T> {
    if parts == [] then [] else Flatten(parts[..|parts| - 1]) + parts[|parts| - 1]
  }

  lemma {:induction false} FlattenSplits<T>(parts: seq<seq<T>>, i: nat)
    requires i <= |parts|
    ensures Flatten(parts) == Flatten(parts[..i]) + Flatten(parts[i..])
    decreases |parts| - i
  {
    if i == |parts| {
      assert parts[..i] == parts;
    } else {
      FlattenSplits(parts[..|parts| - 1], i);
      assert parts[..|parts| - 1][..i] == parts[..i];
      assert parts[i..][..|parts[i..]| - 1] == parts[..|parts| - 1][i..];
    }
  }

  lemma CountUpTo(packets: seq<seq<Value>>, i: nat, width: Width)
    requires i < |packets|
    ensures Count(Flatten(packets[..i + 1]), width) ==
            Count(Flatten(packets[..i]), width) + Count(packets[i], width)
    ensures Count(Flatten(packets[..i + 1]), width) <= Count(Flatten(packets), width)
  {
    assert packets[..i + 1][..i] == packets[..i];
    FlattenSplits(packets, i + 1);
    CountConcat(Flatten(packets[..i]), packets[i], width);
    CountConcat(Flatten(packets[..i + 1]), Flatten(packets[i + 1..]), width);
    hide Count;
  }

  /** One more packet, after those that have taken up the places before. */
  lemma {:induction false} OneMorePacket(nxt: Nexts, packets: seq<seq<Value>>, i: nat)
    requires i < |packets| && nxt.InBounds() && forall w: Width :: nxt.At(w) == Count(Flatten(packets[..i]), w)
    requires FitsPacket(packets[i]) && forall v :: v in packets[i] ==> v.Fits()
    ensures Overruns(nxt, packets[i]) ==> ExceedsBuffers(START, Flatten(packets))
    ensures forall w: Width :: nxt.At(w) + Count(packets[i], w) == Count(Flatten(packets[..i + 1]), w)
  {
    hide Overruns, FitsPacket, Count, Flatten, Capacity;
    AcceptedPacketOverruns(nxt, packets[i]);
    forall w: Width
      ensures nxt.At(w) + Count(packets[i], w) == Count(Flatten(packets[..i + 1]), w)
      ensures START.At(w) + Count(Flatten(packets), w) >= nxt.At(w) + Count(packets[i], w)
    {
      CountUpTo(packets, i, w);
    }
  }

  lemma NoPackets(packets: seq<seq<Value>>)
    ensures forall w: Width :: START.At(w) == Count(Flatten(packets[..0]), w)
  {
  }

  lemma AllPackets(nxt: Nexts, packets: seq<seq<Value>>)
    requires nxt.InBounds() && forall w: Width :: nxt.At(w) == Count(Flatten(packets), w)
    ensures !ExceedsBuffers(START, Flatten(packets))
  {
    hide Count, Flatten, Capacity;
  }

  /**
   * A client that sends packets one after the other, each of which fits. The places in the buffers
   * aren't freed, so integers are stored beyond the end of a buffer exactly if there are too many of
   * a width in all packets together.
   */
  method SendPackets(writer: Endian, packets: seq<seq<Value>>) returns (overran: bool, sent: seq<seq<Byte>>)
    requires forall p :: p in packets ==> FitsPacket(p) && forall v :: v in p ==> v.Fits()
    ensures overran <==> ExceedsBuffers(START, Flatten(packets))
    ensures !overran ==>
              |sent| == |packets| && forall k :: 0 <= k < |packets| ==> sent[k] == EncodeAll(0, packets[k])
  {
    var sender := new UdpSender(writer);
    sent := [];
    NoPackets(packets);
    hide Overruns, FitsPacket, Count, EncodeAll, Gather, Flatten, Value.Fits, Nexts.At, Nexts.InBounds, ExceedsBuffers;
    for i := 0 to |packets|
      invariant sender.Valid() && sender.writeIov == [] && fresh(sender)
      invariant sender.overran ==> ExceedsBuffers(START, Flatten(packets))
      invariant sender.overran || forall w: Width :: sender.nxt.At(w) == Count(Flatten(packets[..i]), w)
      invariant sender.overran || (|sent| == i && forall k :: 0 <= k < i ==> sent[k] == EncodeAll(0, packets[k]))
    {
      if !sender.overran {
        OneMorePacket(sender.nxt, packets, i);
      }
      assert packets[i] in packets;
      var packet := sender.Send(packets[i]);
      if packet.None? {
        return true, sent;
      }
      sent := sent + [packet.value];
    }
    assert packets[..|packets|] == packets;
    if !sender.overran {
      AllPackets(sender.nxt, packets);
    }
    overran := sender.overran;
  }

  /** What one more field adds, and when it's too much. */
  lemma OneMoreField(values: seq<Value>, i: nat)
    requires i < |values| && forall v :: v in values ==> v.Fits()
    ensures var start := |EncodeAll(0, values[..i])|;
            var kind := values[i].KindOf();
            var count := |ElementsFor(0, Kinds(values[..i]))| + NumElements(start, kind);
            && EncodeAll(0, values[..i + 1]) == EncodeAll(0, values[..i]) + Encode(start, values[i])
            && |ElementsFor(0, Kinds(values[..i + 1]))| == count
            && (FitsPacket(values[..i + 1]) <==> EndOf(start, kind) <= MAX_PAYLOAD && count <= IOV_MAX)
            && (FitsPacket(values) ==> FitsPacket(values[..i + 1]))
  {
    hide PadLen, Encode, EncodeAll, ElementsFor, EndOfAll, EndOf, NumElements;
    var kinds := Kinds(values[..i]);
    assert values[..i + 1] == values[..i] + [values[i]];
    EncodeAllAppend(0, values[..i], values[i]);
    KindsAppend(values, i);
    hide Kinds;
    EncodeAllEnds(0, values[..i]);
    EncodeEnds(|EncodeAll(0, values[..i])|, values[i]);
    ElementsAppend(0, kinds, values[i].KindOf());
    EncodeAllEnds(0, values);
    EncodeAllEnds(0, values[..i + 1]);
    EndOfAllGrows(0, Kinds(values[..i + 1]), Kinds(values[i + 1..]));
    ElementsGrow(0, Kinds(values[..i + 1]), Kinds(values[i + 1..]));
  }

  // ---------------------------------------------------------------- peeking

  function TotalLength(elements: seq<Element>): nat {
    if elements == [] then 0 else TotalLength(elements[..|elements| - 1]) + elements[|elements| - 1].Length()
  }

  /** What the scatter-read puts into the destinations, after translation to host byte-order. */
  function Scatter(packet: seq<Byte>, position: nat, elements: seq<Element>): seq<Value>
    requires position + TotalLength(elements) <= |packet|
    decreases |elements|
  {
    if elements == [] then []
    else
      var last := elements[|elements| - 1];
      var front := elements[..|elements| - 1];
      var at := position + TotalLength(front);
      Scatter(packet, position, front) +
      if last.Skip? then [] else [last.kind.Interpret(packet[at..at + last.Length()])]
  }

  lemma TotalOfOne(elements: seq<Element>, e: Element)
    ensures TotalLength(elements + [e]) == TotalLength(elements) + e.Length()
  {
    assert (elements + [e])[..|elements|] == elements;
  }

  lemma ScatterOne(packet: seq<Byte>, position: nat, elements: seq<Element>, e: Element)
    requires position + TotalLength(elements) + e.Length() <= |packet|
    ensures TotalLength(elements + [e]) == TotalLength(elements) + e.Length()
    ensures var at := position + TotalLength(elements);
            Scatter(packet, position, elements + [e]) ==
              Scatter(packet, position, elements)
              + if e.Skip? then [] else [e.kind.Interpret(packet[at..at + e.Length()])]
  {
    TotalOfOne(elements, e);
    assert (elements + [e])[..|elements|] == elements;
  }

  lemma ScatterNothing(packet: seq<Byte>, position: nat)
    ensures TotalLength([]) == 0
    ensures position <= |packet| ==> Scatter(packet, position, []) == []
  {
  }

  lemma {:induction false} DecodeAllAppend(packet: seq<Byte>, position: nat, kinds: seq<Kind>, last: Kind)
    ensures DecodeAll(packet, position, kinds + [last]) ==
              match (DecodeAll(packet, position, kinds), Decode(packet, EndOfAll(position, kinds), last))
              case (Some(values), Some(value)) => Some(values + [value])
              case _ => None
    decreases |kinds|
  {
    hide Decode, EndOf;
    if kinds == [] {
      assert kinds + [last] == [last] && [last][1..] == [];
      assert forall value: Value :: [value] + [] == [] + [value];
    } else {
      assert (kinds + [last])[1..] == kinds[1..] + [last];
      DecodeAllAppend(packet, EndOf(position, kinds[0]), kinds[1..], last);
      match (Decode(packet, position, kinds[0]), DecodeAll(packet, EndOf(position, kinds[0]), kinds[1..]),
             Decode(packet, EndOfAll(position, kinds), last))
      case (Some(first), Some(values), Some(value)) =>
        assert [first] + (values + [value]) == [first] + values + [value];
      case _ =>
    }
  }

  lemma BatchOneMore(packet: seq<Byte>, position: nat, before: seq<Element>, end: nat, last: Kind)
    requires position + TotalLength(before) == end && EndOf(end, last) <= |packet|
    ensures var elements := WithValue(before, end, last);
            && position + TotalLength(elements) == EndOf(end, last)
            && Decode(packet, end, last).Some?
            && Scatter(packet, position, elements) ==
                 Scatter(packet, position, before) + [Decode(packet, end, last).value]
  {
    hide PadLen, Scatter, TotalLength;
    var padding := PadLen(end, last.Alignment());
    if padding == 0 {
      TotalOfOne(before, Destination(last));
      ScatterOne(packet, position, before, Destination(last));
    } else {
      TotalOfOne(before, Skip(padding));
      TotalOfOne(before + [Skip(padding)], Destination(last));
      ScatterOne(packet, position, before, Skip(padding));
      ScatterOne(packet, position, before + [Skip(padding)], Destination(last));
    }
  }

  /** A batch delivers exactly the values that decoding finds from the batch's position on. */
  lemma {:induction false} BatchDecodes(packet: seq<Byte>, position: nat, kinds: seq<Kind>)
    requires EndOfAll(position, kinds) <= |packet|
    ensures position + TotalLength(ElementsFor(position, kinds)) == EndOfAll(position, kinds)
    ensures DecodeAll(packet, position, kinds) == Some(Scatter(packet, position, ElementsFor(position, kinds)))
    decreases |kinds|
  {
    if kinds == [] {
    } else {
      hide PadLen, Scatter, TotalLength, Decode, DecodeAll, ElementsFor, EndOfAll;
      var front, last := kinds[..|kinds| - 1], kinds[|kinds| - 1];
      assert kinds == front + [last];
      EndOfAllAppend(position, front, last);
      BatchDecodes(packet, position, front);
      DecodeAllAppend(packet, position, front, last);
      ElementsAppend(position, front, last);
      BatchOneMore(packet, position, ElementsFor(position, front), EndOfAll(position, front), last);
    }
  }

  /** The vector's total length is right even if the packet turns out to be too short. */
  lemma {:induction false} ElementsReach(position: nat, kinds: seq<Kind>)
    ensures position + TotalLength(ElementsFor(position, kinds)) == EndOfAll(position, kinds)
    decreases |kinds|
  {
    BatchDecodes(seq(EndOfAll(position, kinds), i => 0), position, kinds);
  }

  /** What adding a peek comes to, when that many bytes come before it. */
  ghost predicate PeekIsAdded(numRead: nat, before: seq<Element>, after: seq<Element>, kind: Kind,
                              error: Option<Error>)
  {
    var padding := PadLen(numRead, kind.Alignment());
    && error == Refusal(numRead, 1 + |before|, kind)
    && after == match error
                case None => WithValue(before, numRead, kind)
                case Some(_) => if padding == 0 || 1 + |before| == IOV_MAX then before else before + [Skip(padding)]
  }

  /** What aligning the next peek comes to. */
  ghost predicate PeekIsAligned(numRead: nat, before: seq<Element>, after: seq<Element>, width: Width,
                                error: Option<Error>)
  {
    var padding := PadLen(numRead, width);
    && error == (if IsFullForPadding(numRead, 1 + |before|, width) then Some(LogicError) else None)
    && after == (if padding == 0 || error.Some? then before else before + [Skip(padding)])
    && (error.None? ==> TotalLength(after) == TotalLength(before) + padding)
  }

  lemma {:induction false} PaddingAligns(skip: nat, before: seq<Element>, after: seq<Element>, width: Width,
                                         error: Option<Error>)
    requires skip + TotalLength(before) <= MAX_PAYLOAD
    requires var numRead := skip + TotalLength(before);
             var padding := PadLen(numRead, width);
             if padding == 0 then error.None? && after == before
             else
               error == Vet(numRead + padding, 1 + |before|) &&
               after == if error.None? then before + [Skip(padding)] else before
    ensures PeekIsAligned(skip + TotalLength(before), before, after, width, error)
  {
    TotalOfOne(before, Skip(PadLen(skip + TotalLength(before), width)));
    PaddingFits(skip + TotalLength(before), width);
    hide PadLen, TotalLength;
  }

  lemma {:induction false} AlignedPeekIsAdded(skip: nat, before: seq<Element>, aligned: seq<Element>,
                                              after: seq<Element>, width: Width, error: Option<Error>)
    requires PeekIsAligned(skip + TotalLength(before), before, aligned, width, None)
    requires error == Vet(skip + TotalLength(aligned) + width, 1 + |aligned|)
    requires after == if error.None? then aligned + [Destination(UnsignedKind(width))] else aligned
    requires 1 + |aligned| <= IOV_MAX
    ensures PeekIsAdded(skip + TotalLength(before), before, after, UnsignedKind(width), error)
  {
    hide PadLen, TotalLength, Refusal, Vet;
    VettingRefuses(skip + TotalLength(before), 1 + |before|, UnsignedKind(width),
                   skip + TotalLength(aligned) + width, 1 + |aligned|);
    hide EndOf, NumElements;
  }

  lemma {:induction false} UnalignedPeekIsAdded(skip: nat, before: seq<Element>, after: seq<Element>, kind: Kind,
                                                error: Option<Error>)
    requires !kind.UnsignedKind? && 1 + |before| <= IOV_MAX
    requires error == Vet(skip + TotalLength(before) + kind.Length(), 1 + |before|)
    requires after == if error.None? then before + [Destination(kind)] else before
    ensures PeekIsAdded(skip + TotalLength(before), before, after, kind, error)
  {
    hide PadLen, TotalLength, Refusal, Vet;
    var numRead := skip + TotalLength(before);
    NoPadding(numRead);
    VettingRefuses(numRead, 1 + |before|, kind, numRead + kind.Length(), 1 + |before|);
  }

  lemma {:induction false} FailedAlignment(numRead: nat, before: seq<Element>, width: Width, error: Option<Error>)
    requires PeekIsAligned(numRead, before, before, width, error) && error.Some?
    ensures PeekIsAdded(numRead, before, before, UnsignedKind(width), error)
  {
    hide PadLen, TotalLength;
  }

  /** The receiving side, with one packet in the system's buffer. */
  class UdpReceiver {
    const endian: Endian
    const packet: seq<Byte>
    var skip: nat
    var elements: seq<Element>
    var numPeek: nat
    var discarded: bool

    ghost predicate Valid()
      reads this
    {
      numPeek == TotalLength(elements) && skip + numPeek <= MAX_PAYLOAD && 1 + |elements| <= IOV_MAX
    }

    constructor (endian: Endian, packet: seq<Byte>)
      ensures Valid() && this.endian == endian && this.packet == packet
      ensures skip == 0 && elements == [] && !discarded
    {
      this.endian := endian;
      this.packet := packet;
      skip := 0;
      elements := [];
      numPeek := 0;
      discarded := false;
    }

    method AddElement(e: Element) returns (error: Option<Error>)
      requires Valid()
      modifies this`elements, this`numPeek
      ensures Valid()
      ensures error == Vet(skip + TotalLength(old(elements)) + e.Length(), 1 + |old(elements)|)
      ensures elements == if error.None? then old(elements) + [e] else old(elements)
    {
      error := Vet(skip + numPeek + e.Length(), 1 + |elements|);
      if error.None? {
        TotalOfOne(elements, e);
        numPeek := numPeek + e.Length();
        elements := elements + [e];
      }
    }

    method AlignPeekTo(width: Width) returns (error: Option<Error>)
      requires Valid()
      modifies this`elements, this`numPeek
      ensures Valid()
      ensures PeekIsAligned(skip + TotalLength(old(elements)), old(elements), elements, width, error)
    {
      hide PadLen, TotalLength, PeekIsAligned;
      ghost var before := elements;
      error := None;
      var padding := PadLen(skip + numPeek, width);
      if padding != 0 {
        error := AddElement(Skip(padding));
      }
      PaddingAligns(skip, before, elements, width, error);
    }

    /** `addPeek()` for integers. */
    method AddAlignedPeek(width: Width) returns (error: Option<Error>)
      requires Valid()
      modifies this`elements, this`numPeek
      ensures Valid()
      ensures PeekIsAdded(skip + TotalLength(old(elements)), old(elements), elements, UnsignedKind(width), error)
    {
      hide PadLen, TotalLength, PeekIsAdded, EndOf;
      ghost var before := elements;
      error := AlignPeekTo(width);
      if error.Some? {
        FailedAlignment(skip + TotalLength(before), before, width, error);
        return;
      }
      ghost var aligned := elements;
      error := AddElement(Destination(UnsignedKind(width)));
      AlignedPeekIsAdded(skip, before, aligned, elements, width, error);
    }

    /** Adds the destination of a value, aligned by its position in the packet. */
    method AddPeek(kind: Kind) returns (error: Option<Error>)
      requires Valid()
      modifies this`elements, this`numPeek
      ensures Valid()
      ensures PeekIsAdded(skip + TotalLength(old(elements)), old(elements), elements, kind, error)
    {
      hide PadLen, TotalLength, PeekIsAdded;
      match kind
      case UnsignedKind(width) => error := AddAlignedPeek(width);
      case _ =>
        ghost var before := elements;
        error := AddElement(Destination(kind));
        UnalignedPeekIsAdded(skip, before, elements, kind, error);
    }

    /** Fills the destinations and translates them to host byte-order. */
    method DoScatter() returns (values: seq<Value>)
      requires skip + TotalLength(elements) <= |packet|
      ensures values == Scatter(packet, skip, elements)
    {
      hide Scatter, TotalLength;
      values := [];
      var at := skip;
      assert TotalLength([]) == 0 && Scatter(packet, skip, []) == [] by {
        ScatterNothing(packet, skip);
      }
      for i := 0 to |elements|
        invariant at == skip + TotalLength(elements[..i]) <= |packet|
        invariant values == Scatter(packet, skip, elements[..i])
      {
        PrefixFits(elements, i);
        assert elements[..i + 1] == elements[..i] + [elements[i]];
        ScatterOne(packet, skip, elements[..i], elements[i]);
        if elements[i].Destination? {
          values := values + [ToHost(endian, elements[i].kind, packet[at..at + elements[i].Length()])];
        }
        at := at + elements[i].Length();
      }
      assert elements[..|elements|] == elements;
    }

    /**
     * Peeks: the values, or nothing if the packet is too short, in which case it's gone. The
     * packet stays where it is otherwise, and the next batch skips what has been peeked.
     */
    method Peek() returns (r: Option<seq<Value>>)
      requires Valid() && !discarded
      modifies this
      ensures Valid() && elements == []
      ensures r.Some? <==> skip == old(skip) + TotalLength(old(elements)) <= |packet| && !discarded
      ensures r.None? <==> old(skip) + TotalLength(old(elements)) > |packet|
      ensures r.None? ==> discarded && skip == 0
      ensures r.Some? ==> r.value == Scatter(packet, old(skip), old(elements))
    {
      var nread := Min(skip + numPeek, |packet|);
      if nread != skip + numPeek {
        discarded := true;
        skip, elements, numPeek := 0, [], 0;
        return None;
      }
      var values := DoScatter();
      skip, elements, numPeek := nread, [], 0;
      return Some(values);
    }

    /**
     * A client that peeks at one batch of values. It gets them exactly if the packet has them and
     * the vector room for them.
     */
    method PeekBatch(kinds: seq<Kind>) returns (r: Option<seq<Value>>)
      requires Valid() && elements == [] && !discarded && skip <= |packet|
      modifies this
      ensures Valid()
      ensures r == if FitsBatch(packet, old(skip), kinds) then DecodeAll(packet, old(skip), kinds) else None
      ensures r.Some? <==> FitsBatch(packet, old(skip), kinds)
      ensures r.Some? ==> elements == [] && !discarded && skip == EndOfAll(old(skip), kinds)
    {
      hide PadLen, TotalLength, EndOfAll, Scatter, DecodeAll, EndOf, NumElements, WithValue;
      assert EndOfAll(skip, []) == skip && ElementsFor(skip, []) == [] by {
        NothingToPeek(skip);
      }
      for i := 0 to |kinds|
        invariant Valid() && !discarded && skip == old(skip)
        invariant elements == ElementsFor(skip, kinds[..i])
        invariant EndOfAll(skip, kinds[..i]) <= MAX_PAYLOAD
      {
        hide ElementsFor;
        assert kinds[..i + 1] == kinds[..i] + [kinds[i]];
        assert kinds[..i + 1] + kinds[i + 1..] == kinds;
        ElementsReach(skip, kinds[..i]);
        IsRoomExactly(EndOfAll(skip, kinds[..i]), 1 + |elements|, kinds[i]);
        ElementsAppend(skip, kinds[..i], kinds[i]);
        EndOfAllAppend(skip, kinds[..i], kinds[i]);
        var error := AddPeek(kinds[i]);
        if error.Some? {
          EndOfAllGrows(skip, kinds[..i + 1], kinds[i + 1..]);
          ElementsGrow(skip, kinds[..i + 1], kinds[i + 1..]);
          return None;
        }
      }
      assert kinds[..|kinds|] == kinds;
      ElementsReach(skip, kinds);
      r := Peek();
      if r.Some? {
        BatchDecodes(packet, old(skip), kinds);
      }
    }
  }

  /**
   * The packet has the batch, it's within the limit, and the receiver's vector has room for it and
   * the bytes to skip.
   */
  predicate FitsBatch(packet: seq<Byte>, position: nat, kinds: seq<Kind>) {
    && EndOfAll(position, kinds) <= |packet| && EndOfAll(position, kinds) <= MAX_PAYLOAD
    && 1 + |ElementsFor(position, kinds)| <= IOV_MAX
  }

  lemma NothingToPeek(position: nat)
    ensures EndOfAll(position, []) == position && ElementsFor(position, []) == []
  {
  }

  lemma {:induction false} PrefixFits(elements: seq<Element>, i: nat)
    requires i < |elements|
    ensures TotalLength(elements[..i]) + elements[i].Length() <= TotalLength(elements)
    decreases |elements|
  {
    var front := elements[..|elements| - 1];
    if i == |elements| - 1 {
    } else {
      assert front[..i] == elements[..i];
      PrefixFits(front, i);
    }
  }

  /** The receiver's vector has room for a batch of a packet of which the earlier batches have been peeked. */
  predicate HasRoomFor(batches: seq<seq<Value>>, i: nat)
    requires i < |batches|
  {
    1 + |ElementsFor(|EncodeAll(0, Flatten(batches[..i]))|, Kinds(batches[i]))| <= IOV_MAX
  }

  /**
   * One packet from a sender to a receiver of any endianness. It's sent exactly if the values fit
   * into a packet and into the sender's vector. And the receiver gets them all back, however it
   * divides them into batches, exactly if its vector has room for each batch. Nothing is promised
   * exactly if they first fill the packet with integers of one width and another one follows.
   */
  method RoundTrip(writer: Endian, reader: Endian, batches: seq<seq<Value>>)
    returns (overran: bool, sentOk: bool, received: Option<seq<Value>>)
    requires forall v :: v in Flatten(batches) ==> v.Fits()
    ensures overran <==> HasOneTooMany(Flatten(batches))
    ensures !overran ==> (sentOk <==> FitsPacket(Flatten(batches)))
    ensures !overran ==>
              received == if sentOk && forall i :: 0 <= i < |batches| ==> HasRoomFor(batches, i)
                          then Some(Flatten(batches)) else None
  {
    hide PadLen, Encode, DecodeAll, EndOfAll, ElementsFor;
    var sender := new UdpSender(writer);
    var sent := sender.Send(Flatten(batches));
    FirstPacketOverruns(Flatten(batches));
    hide Overruns, HasOneTooMany;
    if sender.overran || sent.None? {
      return sender.overran, false, None;
    }
    var receiver := new UdpReceiver(reader, sent.value);
    var values := [];
    for i := 0 to |batches|
      invariant receiver.Valid() && receiver.elements == [] && !receiver.discarded
      invariant receiver.packet == sent.value && receiver.skip <= |receiver.packet|
      invariant fresh(receiver)
      invariant values == Flatten(batches[..i])
      invariant receiver.skip == |EncodeAll(0, values)|
      invariant forall j :: 0 <= j < i ==> HasRoomFor(batches, j)
    {
      hide EncodeAll;
      BatchIsNext(batches, i, sent.value);
      var batch := receiver.PeekBatch(Kinds(batches[i]));
      if batch.None? {
        assert !HasRoomFor(batches, i);
        return false, true, None;
      }
      values := values + batch.value;
    }
    assert batches[..|batches|] == batches;
    return false, true, Some(values);
  }

  lemma BatchIsNext(batches: seq<seq<Value>>, i: nat, packet: seq<Byte>)
    requires i < |batches| && packet == EncodeAll(0, Flatten(batches))
    requires forall v :: v in Flatten(batches) ==> v.Fits()
    ensures var before := EncodeAll(0, Flatten(batches[..i]));
            && Flatten(batches[..i + 1]) == Flatten(batches[..i]) + batches[i]
            && DecodeAll(packet, |before|, Kinds(batches[i])) == Some(batches[i])
            && EndOfAll(|before|, Kinds(batches[i])) == |EncodeAll(0, Flatten(batches[..i + 1]))| <= |packet|
  {
    hide PadLen, Encode, EncodeAll, DecodeAll, EndOfAll;
    var done, next, rest := Flatten(batches[..i]), batches[i], Flatten(batches[i + 1..]);
    assert batches[..i + 1][..i] == batches[..i];
    FlattenSplits(batches, i + 1);
    assert Flatten(batches) == done + next + rest;
    assert forall v :: v in next ==> v in Flatten(batches);
    EncodeAllConcat(0, done, next);
    EncodeAllConcat(0, done + next, rest);
    var before := EncodeAll(0, done);
    var middle := EncodeAll(|before|, next);
    DecodeAllEncoded(before, next, EncodeAll(|before + middle|, rest));
    EncodeAllEnds(|before|, next);
  }
}
