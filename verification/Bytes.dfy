/** Bytes and how they are put into a buffer. */
module Bytes {
  type Byte = x: nat | x < 256

  /** A buffer after copying bytes to a position. */
  function Put(buffer: seq<Byte>, position: nat, bytes: seq<Byte>): (r: seq<Byte>)
    requires position + |bytes| <= |buffer|
    ensures |r| == |buffer|
    ensures forall k :: 0 <= k < |buffer| ==>
              r[k] == if position <= k < position + |bytes| then bytes[k - position] else buffer[k]
  {
    buffer[..position] + bytes + buffer[position + |bytes|..]
  }

  function Min(a: nat, b: nat): nat {
    if a < b then a else b
  }

  lemma Subslice(bytes: seq<Byte>, start: nat, length: nat, from: nat, to: nat)
    requires start + length <= |bytes| && from <= to <= length
    ensures bytes[start..start + length][from..to] == bytes[start + from..start + to]
  {
    var slice := bytes[start..start + length];
    assert forall k :: 0 <= k < to - from ==> slice[from..to][k] == bytes[start + from..start + to][k];
  }
}
