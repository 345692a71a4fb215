/**
 * The wire format that both kinds of socket share: every unsigned integer is in network
 * byte-order and starts at a multiple of its size, counted from the start of the stream or packet.
 */
module AlignedFields {
  import opened Wrappers
  import opened Bytes
  import opened HostOrder

  type Width = w: nat | w == 1 || w == 2 || w == 4 || w == 8 witness 1

  datatype Value = Boolean(b: bool) | Unsigned(width: Width, v: nat) | Raw(bytes: seq<Byte>)
  {
    /** The value is one of its type. */
    predicate Fits() {
      Unsigned? ==> v < Power256(width)
    }

    function KindOf(): Kind {
      match this
      case Boolean(_) => BooleanKind
      case Unsigned(width, _) => UnsignedKind(width)
      case Raw(bytes) => RawKind(|bytes|)
    }

    function Payload(): seq<Byte> {
      match this
      case Boolean(b) => [if b then 1 else 0]
      case Unsigned(width, v) => ToBig(v, width)
      case Raw(bytes) => bytes
    }
  }

  /** The type of a value, which the reader has to know. */
  datatype Kind = BooleanKind | UnsignedKind(width: Width) | RawKind(length: nat)
  {
    function Alignment(): Width {
      if UnsignedKind? then width else 1
    }

    function Length(): nat {
      match this
      case BooleanKind => 1
      case UnsignedKind(width) => width
      case RawKind(length) => length
    }

    /** The value of this kind that the given bytes stand for; any non-zero byte is `true`. */
    function Interpret(bytes: seq<Byte>): Value
      requires |bytes| == Length()
    {
      match this
      case BooleanKind => Boolean(bytes[0] != 0)
      case UnsignedKind(width) => Unsigned(width, FromBig(bytes))
      case RawKind(_) => Raw(bytes)
    }
  }

  /** The remainder of a division by a width, by cases so that only constants are divided by. */
  function Remainder(n: nat, width: Width): nat {
    if width == 1 then 0 else if width == 2 then n % 2 else if width == 4 then n % 4 else n % 8
  }

  /** The number of padding bytes: `(align - nbytes) % align` in unsigned 64-bit arithmetic. */
  function PadLen(nbytes: nat, align: Width): nat {
    Remainder((align - nbytes) % 0x1_0000_0000_0000_0000, align)
  }

  function Zeros(n: nat): (z: seq<Byte>)
    ensures |z| == n && forall k :: 0 <= k < n ==> z[k] == 0
  {
    seq(n, i => 0)
  }

  /** A value, preceded by padding, as it's written at a position. */
  function Encode(position: nat, value: Value): seq<Byte> {
    Zeros(PadLen(position, value.KindOf().Alignment())) + value.Payload()
  }

  function EncodeAll(position: nat, values: seq<Value>): seq<Byte>
    decreases |values|
  {
    if values == [] then []
    else
      var first := Encode(position, values[0]);
      first + EncodeAll(position + |first|, values[1..])
  }

  /** Where the next value of a kind starts and ends. */
  function StartOf(position: nat, kind: Kind): nat {
    position + PadLen(position, kind.Alignment())
  }

  function EndOf(position: nat, kind: Kind): nat {
    StartOf(position, kind) + kind.Length()
  }

  /** Reads a value at a position; nothing if the stream ends before it does. */
  function Decode(stream: seq<Byte>, position: nat, kind: Kind): Option<Value> {
    if |stream| < EndOf(position, kind) then None
    else Some(kind.Interpret(stream[StartOf(position, kind)..EndOf(position, kind)]))
  }

  function DecodeAll(stream: seq<Byte>, position: nat, kinds: seq<Kind>): Option<seq<Value>>
    decreases |kinds|
  {
    if kinds == [] then Some([])
    else
      match Decode(stream, position, kinds[0])
      case None => None
      case Some(value) =>
        match DecodeAll(stream, EndOf(position, kinds[0]), kinds[1..])
        case None => None
        case Some(values) => Some([value] + values)
  }

  function Kinds(values: seq<Value>): seq<Kind> {
    seq(|values|, i requires 0 <= i < |values| => values[i].KindOf())
  }

  // ---------------------------------------------------------------- alignment

  lemma Remainder2(x: nat, q: int, r: nat)
    requires r < 2 && x == 2 * q + r
    ensures Remainder(x, 2) == r
  {
  }

  lemma Remainder4(x: nat, q: int, r: nat)
    requires r < 4 && x == 4 * q + r
    ensures Remainder(x, 4) == r
  {
  }

  lemma Remainder8(x: nat, q: int, r: nat)
    requires r < 8 && x == 8 * q + r
    ensures Remainder(x, 8) == r
  {
  }

  /** The distance to the next multiple of a width. */
  function Distance(n: nat, width: Width): nat {
    if Remainder(n, width) == 0 then 0 else width - Remainder(n, width)
  }

  lemma DistanceModulo(n: nat, wrapped: nat, wraps: int, align: Width)
    requires align - n == wraps * 0x1_0000_0000_0000_0000 + wrapped
    ensures Remainder(wrapped, align) == Distance(n, align)
  {
    if align == 2 {
      Remainder2(wrapped, 1 - wraps * 0x8000_0000_0000_0000 - n / 2 - (if n % 2 == 0 then 0 else 1), Distance(n, 2));
    } else if align == 4 {
      Remainder4(wrapped, 1 - wraps * 0x4000_0000_0000_0000 - n / 4 - (if n % 4 == 0 then 0 else 1), Distance(n, 4));
    } else if align == 8 {
      Remainder8(wrapped, 1 - wraps * 0x2000_0000_0000_0000 - n / 8 - (if n % 8 == 0 then 0 else 1), Distance(n, 8));
    }
  }

  /** The detour through 64 bits doesn't matter, because 2^64 is a multiple of every width. */
  lemma PadIsDistance(nbytes: nat, align: Width)
    ensures PadLen(nbytes, align) == Distance(nbytes, align)
  {
    var wraps := (align - nbytes) / 0x1_0000_0000_0000_0000;
    var wrapped := (align - nbytes) % 0x1_0000_0000_0000_0000;
    assert align - nbytes == wraps * 0x1_0000_0000_0000_0000 + wrapped;
    hide Remainder;
    hide Distance;
    DistanceModulo(nbytes, wrapped, wraps, align);
  }

  lemma RemainderModulo(n: nat, rest: nat, wraps: nat, width: Width)
    requires n == wraps * 0x1_0000_0000 + rest
    ensures Remainder(rest, width) == Remainder(n, width)
  {
    if width == 2 {
      Remainder2(n, wraps * 0x8000_0000 + rest / 2, rest % 2);
    } else if width == 4 {
      Remainder4(n, wraps * 0x4000_0000 + rest / 4, rest % 4);
    } else if width == 8 {
      Remainder8(n, wraps * 0x2000_0000 + rest / 8, rest % 8);
    }
  }

  lemma Aligns2(n: nat)
    ensures n % 2 != 0 ==> (n + 2 - n % 2) % 2 == 0
  {
  }

  lemma Aligns4(n: nat)
    ensures n % 4 != 0 ==> (n + 4 - n % 4) % 4 == 0
  {
  }

  lemma Aligns8(n: nat)
    ensures n % 8 != 0 ==> (n + 8 - n % 8) % 8 == 0
  {
  }

  lemma DistanceAligns(n: nat, width: Width)
    ensures Distance(n, width) < width && Remainder(n + Distance(n, width), width) == 0
  {
    Aligns2(n);
    Aligns4(n);
    Aligns8(n);
  }

  lemma NoPadding(position: nat)
    ensures PadLen(position, 1) == 0
  {
  }

  /** Padding is what's missing to the next multiple, and no more. */
  lemma PadAligns(position: nat, align: Width)
    ensures PadLen(position, align) < align
    ensures Remainder(position + PadLen(position, align), align) == 0
  {
    PadIsDistance(position, align);
    hide PadLen, Distance, Remainder;
    DistanceAligns(position, align);
  }

  /**
   * Each byte on the wire: zeros up to the next multiple of the value's size, and then 1 or 0, or the bytes
   * of an integer from the most significant one down, or the bytes themselves.
   */
  lemma WireFormat(position: nat, value: Value, k: nat)
    requires value.Fits() && k < |Encode(position, value)|
    ensures var pad := PadLen(position, value.KindOf().Alignment());
            var byte := Encode(position, value)[k];
            if k < pad then byte == 0
            else match value
                 case Boolean(b) => k == pad && byte == if b then 1 else 0
                 case Unsigned(width, v) =>
                   k - pad < width && Power256(width - 1 - (k - pad)) > 0 &&
                   byte == v / Power256(width - 1 - (k - pad)) % 256
                 case Raw(bytes) => k - pad < |bytes| && byte == bytes[k - pad]
  {
    hide PadLen, Power256, ToBig;
    var pad := PadLen(position, value.KindOf().Alignment());
    if value.Unsigned? && k >= pad {
      MostSignificantFirst(value.v, value.width, k - pad);
    }
  }

  /** A 32-bit byte count that has wrapped gives the same padding as the true one: 2^32 is a multiple of every width. */
  lemma WrappedCountAligns(position: nat, align: Width)
    ensures PadLen(position % 0x1_0000_0000, align) == PadLen(position, align)
  {
    PadIsDistance(position, align);
    PadIsDistance(position % 0x1_0000_0000, align);
    hide PadLen;
    hide Remainder;
    RemainderModulo(position, position % 0x1_0000_0000, position / 0x1_0000_0000, align);
  }

  // ---------------------------------------------------------------- round trip

  lemma PayloadRoundTrip(value: Value)
    requires value.Fits()
    ensures |value.Payload()| == value.KindOf().Length()
    ensures value.KindOf().Interpret(value.Payload()) == value
  {
    if value.Unsigned? {
      FromToBig(value.v, value.width);
    }
  }

  lemma EncodeEnds(position: nat, value: Value)
    requires value.Fits()
    ensures position + |Encode(position, value)| == EndOf(position, value.KindOf())
  {
    PayloadRoundTrip(value);
  }

  /**
   * What is decoded from any bytes at all: nothing exactly if the stream ends too soon; any byte but 0 is
   * true; and an integer is the one that has these bytes on the wire.
   */
  lemma DecodedValue(stream: seq<Byte>, position: nat, kind: Kind)
    ensures match Decode(stream, position, kind)
            case None => |stream| < EndOf(position, kind)
            case Some(value) =>
              && EndOf(position, kind) <= |stream| && value.Fits() && value.KindOf() == kind
              && var bytes := stream[EndOf(position, kind) - kind.Length()..EndOf(position, kind)];
                 match value
                 case Boolean(b) => b <==> bytes[0] != 0
                 case Unsigned(width, v) => ToBig(v, width) == bytes
                 case Raw(raw) => raw == bytes
  {
    hide PadLen, FromBig, ToBig, Power256;
    if EndOf(position, kind) <= |stream| {
      ToFromBig(stream[EndOf(position, kind) - kind.Length()..EndOf(position, kind)]);
    }
  }

  lemma DecodeEncoded(before: seq<Byte>, value: Value, after: seq<Byte>)
    requires value.Fits()
    ensures Decode(before + Encode(|before|, value) + after, |before|, value.KindOf()) == Some(value)
  {
    var stream := before + Encode(|before|, value) + after;
    var kind := value.KindOf();
    PayloadRoundTrip(value);
    EncodeEnds(|before|, value);
    assert stream[StartOf(|before|, kind)..EndOf(|before|, kind)] == value.Payload();
  }

  lemma SplitStream(before: seq<Byte>, first: seq<Byte>, rest: seq<Byte>, after: seq<Byte>)
    ensures before + (first + rest) + after == before + first + (rest + after)
    ensures before + (first + rest) + after == (before + first) + rest + after
  {
  }

  lemma KindsTail(values: seq<Value>)
    requires values != []
    ensures Kinds(values)[0] == values[0].KindOf() && Kinds(values)[1..] == Kinds(values[1..])
  {
  }

  /** Reading the kinds that were written returns the values that were written, wherever in the stream they are. */
  lemma {:induction false} DecodeAllEncoded(before: seq<Byte>, values: seq<Value>, after: seq<Byte>)
    requires forall v :: v in values ==> v.Fits()
    ensures DecodeAll(before + EncodeAll(|before|, values) + after, |before|, Kinds(values)) == Some(values)
    decreases |values|
  {
    hide PadLen, Encode, Decode, EndOf;
    if values == [] {
    } else {
      var first := Encode(|before|, values[0]);
      var rest := EncodeAll(|before + first|, values[1..]);
      DecodeEncoded(before, values[0], rest + after);
      EncodeEnds(|before|, values[0]);
      DecodeAllEncoded(before + first, values[1..], after);
      SplitStream(before, first, rest, after);
      KindsTail(values);
      assert values == [values[0]] + values[1..];
    }
  }

  /** Where a sequence of values ends. */
  function EndOfAll(position: nat, kinds: seq<Kind>): nat
    decreases |kinds|
  {
    if kinds == [] then position else EndOfAll(EndOf(position, kinds[0]), kinds[1..])
  }

  lemma {:induction false} EncodeAllEnds(position: nat, values: seq<Value>)
    requires forall v :: v in values ==> v.Fits()
    ensures position + |EncodeAll(position, values)| == EndOfAll(position, Kinds(values))
    decreases |values|
  {
    hide PadLen, Encode, EndOf;
    if values == [] {
    } else {
      EncodeEnds(position, values[0]);
      EncodeAllEnds(position + |Encode(position, values[0])|, values[1..]);
      KindsTail(values);
    }
  }

  lemma {:induction false} EncodeAllAppend(position: nat, values: seq<Value>, last: Value)
    ensures EncodeAll(position, values + [last]) ==
            EncodeAll(position, values) + Encode(position + |EncodeAll(position, values)|, last)
    decreases |values|
  {
    hide PadLen, Encode;
    if values == [] {
      assert values + [last] == [last];
      assert EncodeAll(position + |Encode(position, last)|, []) == [];
    } else {
      var first := Encode(position, values[0]);
      EncodeAllAppend(position + |first|, values[1..], last);
      assert (values + [last])[1..] == values[1..] + [last];
    }
  }

  lemma {:induction false} EncodeAllConcat(position: nat, a: seq<Value>, b: seq<Value>)
    ensures EncodeAll(position, a + b) == EncodeAll(position, a) + EncodeAll(position + |EncodeAll(position, a)|, b)
    decreases |a|
  {
    hide PadLen, Encode;
    if a == [] {
      assert a + b == b;
    } else {
      var first := Encode(position, a[0]);
      EncodeAllConcat(position + |first|, a[1..], b);
      assert (a + b)[1..] == a[1..] + b;
    }
  }

  // ---------------------------------------------------------------- translation

  /** The bytes in memory of a value that has been translated to network byte-order. */
  function ToNetwork(e: Endian, value: Value): (bytes: seq<Byte>)
    requires value.Fits()
    ensures bytes == value.Payload()
  {
    match value
    case Boolean(b) => [if b then 1 else 0]
    case Raw(raw) => raw
    case Unsigned(width, v) =>
      HtonIsBigEndian(e, v, width);
      Memory(e, Hton(e, v, width), width)
  }

  /** The value in memory of bytes that have been translated to host byte-order in place. */
  function ToHost(e: Endian, kind: Kind, bytes: seq<Byte>): (v: Value)
    requires |bytes| == kind.Length()
    ensures v == kind.Interpret(bytes)
  {
    match kind
    case BooleanKind => Boolean(bytes[0] != 0)
    case RawKind(_) => Raw(bytes)
    case UnsignedKind(width) =>
      NtohRecoversBytes(e, bytes);
      Unsigned(width, Ntoh(e, FromMemory(e, bytes), width))
  }
}
