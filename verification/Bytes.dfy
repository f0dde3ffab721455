/** Bytes and little-endian fields. */
module Bytes {

  type Byte = n: nat | n < 256
  type U16 = n: nat | n < 0x1_0000
  type U32 = n: nat | n < 0x1_0000_0000
  type U64 = n: nat | n < 0x1_0000_0000_0000_0000

  function Pow256(width: nat): (p: nat)
    ensures p > 0
  {
    if width == 0 then 1 else 256 * Pow256(width - 1)
  }

  /** `memcpy` of an unsigned value of `width` bytes on a little-endian machine. */
  function ToBytes(width: nat, v: nat): (bs: seq<Byte>)
    ensures |bs| == width
  {
    if width == 0 then [] else [v % 256] + ToBytes(width - 1, v / 256)
  }

  function FromBytes(bs: seq<Byte>): (v: nat)
    ensures v < Pow256(|bs|)
  {
    if bs == [] then 0 else bs[0] + 256 * FromBytes(bs[1..])
  }

  lemma {:induction false} BytesRoundTrip(width: nat, v: nat)
    requires v < Pow256(width)
    ensures FromBytes(ToBytes(width, v)) == v
  {
    if width > 0 {
      BytesRoundTrip(width - 1, v / 256);
      assert ToBytes(width, v)[1..] == ToBytes(width - 1, v / 256);
    }
  }

  lemma FieldWidths()
    ensures Pow256(1) == 0x100 && Pow256(2) == 0x1_0000 && Pow256(4) == 0x1_0000_0000
    ensures Pow256(8) == 0x1_0000_0000_0000_0000
  {
    assert Pow256(2) == 256 * Pow256(1);
    assert Pow256(3) == 256 * Pow256(2);
    assert Pow256(4) == 256 * Pow256(3);
    assert Pow256(5) == 256 * Pow256(4);
    assert Pow256(6) == 256 * Pow256(5);
    assert Pow256(7) == 256 * Pow256(6);
    assert Pow256(8) == 256 * Pow256(7);
  }

  /** Reading a field back from the front of a stream. */
  lemma FieldReadsBack(width: nat, v: nat, tail: seq<Byte>)
    requires v < Pow256(width)
    ensures FromBytes((ToBytes(width, v) + tail)[..width]) == v
    ensures (ToBytes(width, v) + tail)[width..] == tail
  {
    BytesRoundTrip(width, v);
    assert (ToBytes(width, v) + tail)[..width] == ToBytes(width, v);
  }

  /** `memcpy` of `bytes` to position `at`. */
  method Copy(buffer: array<Byte>, at: nat, bytes: seq<Byte>) returns (next: nat)
    requires at + |bytes| <= buffer.Length
    modifies buffer
    ensures next == at + |bytes|
    ensures buffer[..next] == old(buffer[..at]) + bytes
    ensures forall k :: next <= k < buffer.Length ==> buffer[k] == old(buffer[k])
  {
    for i := 0 to |bytes|
      invariant buffer[..at + i] == old(buffer[..at]) + bytes[..i]
      invariant forall k :: at + i <= k < buffer.Length ==> buffer[k] == old(buffer[k])
    {
      buffer[at + i] := bytes[i];
    }
    next := at + |bytes|;
  }

  /** Little-endian: byte `i` has the weight 256 to the `i`. */
  lemma {:induction false} ByteAt(width: nat, v: nat, i: nat)
    requires i < width
    ensures ToBytes(width, v)[i] == v / Pow256(i) % 256
  {
    if i > 0 {
      ByteAt(width - 1, v / 256, i - 1);
      DivideTwice(v, Pow256(i - 1));
    }
  }

  lemma DivideTwice(v: nat, p: nat)
    requires p > 0
    ensures v / 256 / p == v / (256 * p)
  {
    var q, r := v / (256 * p), v % (256 * p);
    assert v == q * (256 * p) + r;
    assert v / 256 == q * p + r / 256 by {
      assert v == 256 * (q * p) + r;
    }
    assert r / 256 < p;
    Between(v / 256, q, p, r / 256);
  }

  lemma Between(a: nat, q: nat, p: nat, s: nat)
    requires a == q * p + s && s < p
    ensures a / p == q
  {
    var d := a / p;
    assert (d - q) * p == s - a % p;
    AtLeastOne(d - q, p);
    AtLeastOne(q - d, p);
  }

  lemma AtLeastOne(x: int, p: nat)
    ensures x >= 1 ==> x * p >= p
    ensures -(x * p) == -x * p
  {}
}
