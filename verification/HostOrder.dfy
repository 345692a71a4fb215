/** Unsigned integers in host memory and in network byte-order. */
module HostOrder {
  import opened Bytes

  datatype Endian = Little | Big

  function Power256(n: nat): nat {
    if n == 0 then 1 else 256 * Power256(n - 1)
  }

  /** The n bytes of a value, most significant first. */
  function ToBig(v: nat, n: nat): (bytes: seq<Byte>)
    ensures |bytes| == n
  {
    if n == 0 then [] else ToBig(v / 256, n - 1) + [v % 256]
  }

  function FromBig(bytes: seq<Byte>): nat {
    if bytes == [] then 0 else FromBig(bytes[..|bytes| - 1]) * 256 + bytes[|bytes| - 1]
  }

  function Reverse(bytes: seq<Byte>): (r: seq<Byte>)
    ensures |r| == |bytes|
    ensures forall k :: 0 <= k < |bytes| ==> r[k] == bytes[|bytes| - 1 - k]
  {
    if bytes == [] then [] else Reverse(bytes[1..]) + [bytes[0]]
  }

  /** How a host of a given endianness has an integer in memory. */
  function Memory(e: Endian, v: nat, n: nat): (bytes: seq<Byte>)
    ensures |bytes| == n
  {
    if e.Big? then ToBig(v, n) else Reverse(ToBig(v, n))
  }

  function FromMemory(e: Endian, bytes: seq<Byte>): nat {
    FromBig(if e.Big? then bytes else Reverse(bytes))
  }

  /** `htons()`, `htonl()` and their inverses, which are the same functions. */
  function SwapIfLittle(e: Endian, v: nat, n: nat): nat {
    if e.Big? then v else FromBig(Reverse(ToBig(v, n)))
  }

  /** Host-to-network translation. The 64-bit one translates each half as a 32-bit word of memory. */
  function Hton(e: Endian, v: nat, n: nat): nat {
    if n != 8 then SwapIfLittle(e, v, n)
    else
      FromMemory(e, Memory(e, SwapIfLittle(e, v / 0x1_0000_0000, 4), 4)
                    + Memory(e, SwapIfLittle(e, v % 0x1_0000_0000, 4), 4))
  }

  function Ntoh(e: Endian, v: nat, n: nat): nat {
    if n != 8 then SwapIfLittle(e, v, n)
    else
      SwapIfLittle(e, FromMemory(e, Memory(e, v, 8)[..4]), 4) * 0x1_0000_0000
      + SwapIfLittle(e, FromMemory(e, Memory(e, v, 8)[4..]), 4)
  }

  // ---------------------------------------------------------------- representation

  lemma QuotientOfQuotient(v: nat, p: nat)
    requires p > 0
    ensures v / 256 / p == v / (256 * p)
  {
    var q := v / 256 / p;
    var r := v / 256 % p;
    assert v / 256 == q * p + r;
    assert v == q * (256 * p) + (256 * r + v % 256);
    Quotient(v, q, 256 * p, 256 * r + v % 256);
  }

  lemma Quotient(v: nat, q: nat, d: nat, r: nat)
    requires r < d && v == q * d + r
    ensures v / d == q
  {
    var x, rest := v / d, v % d;
    assert v == x * d + rest;
    if q < x {
      QuotientsDiffer(q, r, x, rest, d);
    } else if x < q {
      QuotientsDiffer(x, rest, q, r, d);
    }
  }

  lemma QuotientsDiffer(q: nat, r: nat, x: nat, rest: nat, d: nat)
    requires r < d && rest < d && q < x
    ensures q * d + r != x * d + rest
  {
    assert x * d == q * d + (x - q) * d;
    assert (x - q) * d == (x - q - 1) * d + d;
    assert (x - q - 1) * d >= 0;
  }

  lemma PowersArePositive(n: nat)
    ensures Power256(n) > 0
  {
  }

  /** Network byte-order: the k-th of n bytes has weight 256^(n-1-k). */
  lemma {:induction false} MostSignificantFirst(v: nat, n: nat, k: nat)
    requires k < n
    ensures Power256(n - 1 - k) > 0 && ToBig(v, n)[k] == v / Power256(n - 1 - k) % 256
  {
    PowersArePositive(n - 1 - k);
    if k == n - 1 {
      assert Power256(0) == 1;
    } else {
      MostSignificantFirst(v / 256, n - 1, k);
      PowersArePositive(n - 2 - k);
      QuotientOfQuotient(v, Power256(n - 2 - k));
    }
  }

  /** In a little-endian host's memory it's the other way around. */
  lemma {:induction false} MemoryIsOrdered(e: Endian, v: nat, n: nat, k: nat)
    requires k < n
    ensures var weight := Power256(if e.Big? then n - 1 - k else k);
            weight > 0 && Memory(e, v, n)[k] == v / weight % 256
  {
    hide ToBig, Reverse, Power256;
    if e.Big? {
      MostSignificantFirst(v, n, k);
    } else {
      MostSignificantFirst(v, n, n - 1 - k);
    }
  }

  lemma {:induction false} FromToBig(v: nat, n: nat)
    requires v < Power256(n)
    ensures FromBig(ToBig(v, n)) == v
  {
    if n == 0 {
    } else {
      FromToBig(v / 256, n - 1);
      assert ToBig(v, n)[..n - 1] == ToBig(v / 256, n - 1);
    }
  }

  lemma {:induction false} ToFromBig(bytes: seq<Byte>)
    ensures FromBig(bytes) < Power256(|bytes|)
    ensures ToBig(FromBig(bytes), |bytes|) == bytes
  {
    if bytes == [] {
    } else {
      var front := bytes[..|bytes| - 1];
      ToFromBig(front);
      assert FromBig(bytes) / 256 == FromBig(front);
      assert FromBig(bytes) % 256 == bytes[|bytes| - 1];
    }
  }

  lemma {:induction false} FromBigConcat(a: seq<Byte>, b: seq<Byte>)
    ensures FromBig(a + b) == FromBig(a) * Power256(|b|) + FromBig(b)
  {
    if b == [] {
      assert a + b == a;
    } else {
      var front := b[..|b| - 1];
      FromBigConcat(a, front);
      assert (a + b)[..|a + b| - 1] == a + front;
      calc {
        FromBig(a + b);
        FromBig(a + front) * 256 + b[|b| - 1];
        (FromBig(a) * Power256(|front|) + FromBig(front)) * 256 + b[|b| - 1];
        FromBig(a) * Power256(|front|) * 256 + FromBig(b);
        { Regroup(FromBig(a), Power256(|front|)); }
        FromBig(a) * Power256(|b|) + FromBig(b);
      }
    }
  }

  lemma Regroup(a: nat, p: nat)
    ensures a * p * 256 == a * (256 * p)
  {
  }

  lemma ReverseTwice(bytes: seq<Byte>)
    ensures Reverse(Reverse(bytes)) == bytes
  {
  }

  lemma Powers()
    ensures Power256(1) == 0x100 && Power256(2) == 0x1_0000
    ensures Power256(4) == 0x1_0000_0000 && Power256(8) == 0x1_0000_0000_0000_0000
  {
    assert Power256(3) == 256 * Power256(2);
    assert Power256(4) == 256 * Power256(3);
    assert Power256(5) == 256 * Power256(4);
    assert Power256(6) == 256 * Power256(5);
    assert Power256(7) == 256 * Power256(6);
    assert Power256(8) == 256 * Power256(7);
  }

  lemma BigHalves(v: nat)
    requires v < Power256(8)
    ensures ToBig(v, 8) == ToBig(v / 0x1_0000_0000, 4) + ToBig(v % 0x1_0000_0000, 4)
  {
    Powers();
    var high, low := ToBig(v / 0x1_0000_0000, 4), ToBig(v % 0x1_0000_0000, 4);
    FromToBig(v / 0x1_0000_0000, 4);
    FromToBig(v % 0x1_0000_0000, 4);
    FromBigConcat(high, low);
    ToFromBig(high + low);
  }

  lemma MemoryRoundTrip(e: Endian, bytes: seq<Byte>)
    ensures Memory(e, FromMemory(e, bytes), |bytes|) == bytes
  {
    var ordered := if e.Big? then bytes else Reverse(bytes);
    ToFromBig(ordered);
    ReverseTwice(bytes);
  }

  // ---------------------------------------------------------------- what the translations are for

  lemma SwappedMemory(e: Endian, v: nat, n: nat)
    requires v < Power256(n)
    ensures SwapIfLittle(e, v, n) < Power256(n)
    ensures Memory(e, SwapIfLittle(e, v, n), n) == ToBig(v, n)
    ensures SwapIfLittle(e, FromMemory(e, ToBig(v, n)), n) == v
  {
    var big := ToBig(v, n);
    ToFromBig(Reverse(big));
    ReverseTwice(big);
    FromToBig(v, n);
  }

  /** On every host, a translated value lies in memory in network byte-order. */
  lemma HtonIsBigEndian(e: Endian, v: nat, n: nat)
    requires v < Power256(n)
    ensures Memory(e, Hton(e, v, n), n) == ToBig(v, n)
  {
    hide ToBig, FromBig, Memory, FromMemory, SwapIfLittle, Power256;
    if n == 8 {
      Powers();
      SwappedMemory(e, v / 0x1_0000_0000, 4);
      SwappedMemory(e, v % 0x1_0000_0000, 4);
      BigHalves(v);
      MemoryRoundTrip(e, ToBig(v, 8));
      assert |ToBig(v, 8)| == 8;
    } else {
      SwappedMemory(e, v, n);
    }
  }

  /** And every host gets the value back from bytes in network byte-order. */
  lemma NtohRecovers(e: Endian, v: nat, n: nat)
    requires v < Power256(n)
    ensures Ntoh(e, FromMemory(e, ToBig(v, n)), n) == v
  {
    hide ToBig, FromBig, Memory, FromMemory, SwapIfLittle, Power256;
    if n == 8 {
      Powers();
      var high, low := v / 0x1_0000_0000, v % 0x1_0000_0000;
      SwappedMemory(e, high, 4);
      SwappedMemory(e, low, 4);
      BigHalves(v);
      MemoryRoundTrip(e, ToBig(v, 8));
      assert Memory(e, FromMemory(e, ToBig(v, 8)), 8)[..4] == ToBig(high, 4);
      assert Memory(e, FromMemory(e, ToBig(v, 8)), 8)[4..] == ToBig(low, 4);
    } else {
      SwappedMemory(e, v, n);
    }
  }

  lemma NtohRecoversBytes(e: Endian, bytes: seq<Byte>)
    ensures Ntoh(e, FromMemory(e, bytes), |bytes|) == FromBig(bytes)
  {
    ToFromBig(bytes);
    NtohRecovers(e, FromBig(bytes), |bytes|);
  }
}
