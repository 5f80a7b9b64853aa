/** Bitmap: a bit set laid over the first `numBytes` bytes of a byte array.
    Bit 0 is the most significant bit of byte 0, bit 8 the most significant
    bit of byte 1, and so on. The bytes are kept as 8-bit vectors, the bit
    pattern of Java's signed bytes (ONES, -0x01, is 0xFF). */
module Bitmaps {
  import opened Outcomes

  /** Byte.SIZE */
  const BITS_PER_BYTE: int := 8

  /** Bitmap.ONES: a byte whose eight bits are all 1. */
  const ONES: bv8 := 0xFF

  /** The private getBit(b, i): bit `i` of `b`, counting from the most
      significant bit. */
  function ByteBit(b: bv8, i: int): bool
    requires 0 <= i < BITS_PER_BYTE
  {
    (b >> (7 - i)) & 1 != 0
  }

  /** The private setBit(b, i, bit): `b` with bit `i` set to 1 or to 0. */
  function SetByteBit(b: bv8, i: int, bit: bool): (r: bv8)
    requires 0 <= i < BITS_PER_BYTE
    ensures ByteBit(r, i) == bit
  {
    if bit then b | (1 << (7 - i)) else b & !(1 << (7 - i))
  }

  /** setBit on a byte changes the one bit it names and no other. */
  lemma SetByteBitEffect(b: bv8, i: int, bit: bool, k: int)
    requires 0 <= i < BITS_PER_BYTE && 0 <= k < BITS_PER_BYTE
    ensures ByteBit(SetByteBit(b, i, bit), k) == if k == i then bit else ByteBit(b, k)
  {
    if k != i {
      var mask: bv8 := 1 << (7 - i);
      assert (mask >> (7 - k)) & 1 == 0;
    }
  }

  /** A byte is ONES exactly when each of its eight bits is 1. */
  lemma FullByte(b: bv8)
    ensures b == ONES <==> forall k :: 0 <= k < BITS_PER_BYTE ==> ByteBit(b, k)
  {
    if forall k :: 0 <= k < BITS_PER_BYTE ==> ByteBit(b, k) {
      assert ByteBit(b, 0) && ByteBit(b, 1) && ByteBit(b, 2) && ByteBit(b, 3);
      assert ByteBit(b, 4) && ByteBit(b, 5) && ByteBit(b, 6) && ByteBit(b, 7);
    }
  }

  /** The bits of the first `n` bytes of `s`, bit `i` being bit `i % 8` of
      byte `i / 8`. */
  ghost function BitsOf(s: seq<bv8>, n: int): (bits: seq<bool>)
    requires 0 <= n <= |s|
    ensures |bits| == n * BITS_PER_BYTE
  {
    seq(n * BITS_PER_BYTE, i requires 0 <= i < n * BITS_PER_BYTE => ByteBit(s[i / BITS_PER_BYTE], i % BITS_PER_BYTE))
  }

  /** Setting bit `i % 8` of byte `i / 8` sets bit `i` of the view and no other. */
  lemma SetBitView(s: seq<bv8>, n: int, i: int, bit: bool)
    requires 0 <= n <= |s| && 0 <= i < n * BITS_PER_BYTE
    ensures BitsOf(s[i / BITS_PER_BYTE := SetByteBit(s[i / BITS_PER_BYTE], i % BITS_PER_BYTE, bit)], n) == BitsOf(s, n)[i := bit]
  {
    var ib := i / BITS_PER_BYTE;
    var t := s[ib := SetByteBit(s[ib], i % BITS_PER_BYTE, bit)];
    forall k | 0 <= k < n * BITS_PER_BYTE
      ensures BitsOf(t, n)[k] == BitsOf(s, n)[i := bit][k]
    {
      SetByteBitEffect(s[ib], i % BITS_PER_BYTE, bit, k % BITS_PER_BYTE);
    }
  }

  /** Bit `j` of byte `b` is bit `8 * b + j` of the view. */
  lemma ViewBit(s: seq<bv8>, n: int, b: int, j: int)
    requires 0 <= b < n <= |s| && 0 <= j < BITS_PER_BYTE
    ensures BitsOf(s, n)[b * BITS_PER_BYTE + j] == ByteBit(s[b], j)
  {
    var i := b * BITS_PER_BYTE + j;
    assert i / BITS_PER_BYTE == b && i % BITS_PER_BYTE == j;
  }

  /** A byte equal to ONES contributes eight 1 bits to the view. */
  lemma FullByteView(s: seq<bv8>, n: int, b: int)
    requires 0 <= b < n <= |s| && s[b] == ONES
    ensures forall k :: b * BITS_PER_BYTE <= k < (b + 1) * BITS_PER_BYTE ==> BitsOf(s, n)[k]
  {
    FullByte(s[b]);
    forall k | b * BITS_PER_BYTE <= k < (b + 1) * BITS_PER_BYTE
      ensures BitsOf(s, n)[k]
    {
      ViewBit(s, n, b, k - b * BITS_PER_BYTE);
    }
  }

  class Bitmap {
    /** The byte array the bitmap is laid over; it may be shared with a
        buffer whose later bytes hold other data. */
    const bytes: array<bv8>
    /** The number of leading bytes of `bytes` that hold bits. */
    const numBytes: int

    ghost predicate Valid() {
      0 <= numBytes <= bytes.Length
    }

    /** The bits of the bitmap, bit `i` being bit `i % 8` of byte `i / 8`. */
    ghost function Bits(): (bits: seq<bool>)
      requires Valid()
      reads bytes
      ensures |bits| == numBytes * BITS_PER_BYTE
    {
      BitsOf(bytes[..], numBytes)
    }

    /** Bitmap(bytes, numBytes): a bitmap over the first `numBytes` bytes. */
    constructor (bytes: array<bv8>, numBytes: int)
      requires 0 <= numBytes <= bytes.Length
      ensures Valid() && this.bytes == bytes && this.numBytes == numBytes
    {
      this.bytes := bytes;
      this.numBytes := numBytes;
    }

    /** Bitmap(bytes): a bitmap over the whole array. */
    constructor Whole(bytes: array<bv8>)
      ensures Valid() && this.bytes == bytes && numBytes == bytes.Length
    {
      this.bytes := bytes;
      this.numBytes := bytes.Length;
    }

    /** Bitmap(numBytes): a bitmap over a new zeroed array, so every bit is 0. */
    constructor Zeroed(numBytes: nat)
      ensures Valid() && fresh(bytes) && this.numBytes == numBytes == bytes.Length
      ensures forall i :: 0 <= i < |Bits()| ==> !Bits()[i]
    {
      this.bytes := new bv8[numBytes](_ => 0);
      this.numBytes := numBytes;
    }

    /** size(): the number of bits. */
    function Size(): (n: int)
      requires Valid()
      reads bytes
      ensures n == |Bits()|
    {
      numBytes * BITS_PER_BYTE
    }

    /** clear(): every bit becomes 0; the bytes past `numBytes` are untouched. */
    method Clear()
      requires Valid()
      modifies bytes
      ensures forall i :: 0 <= i < |Bits()| ==> !Bits()[i]
      ensures forall k :: numBytes <= k < bytes.Length ==> bytes[k] == old(bytes[k])
    {
      var i := 0;
      while i < numBytes
        invariant 0 <= i <= numBytes
        invariant forall k :: 0 <= k < i ==> bytes[k] == 0
        invariant forall k :: numBytes <= k < bytes.Length ==> bytes[k] == old(bytes[k])
      {
        bytes[i] := 0;
        i := i + 1;
      }
    }

    /** getBit(i): bit `i`, or IllegalArgumentException when byte `i / 8`
        lies past the bitmap. */
    function GetBit(i: int): (r: Result<bool>)
      requires Valid() && 0 <= i
      reads bytes
      ensures r.Ok? <==> i < |Bits()|
      ensures r.Ok? ==> r.value == Bits()[i]
      ensures r.Fail? ==> r.error == IllegalArgument
    {
      var ib := i / BITS_PER_BYTE;
      if ib >= numBytes then Fail(IllegalArgument)
      else Ok(ByteBit(bytes[ib], i - ib * BITS_PER_BYTE))
    }

    /** setBit(i, bit): bit `i` becomes `bit` and only the byte holding it is
        written; IllegalArgumentException, with nothing written, when byte
        `i / 8` lies past the bitmap. */
    method SetBit(i: int, bit: bool) returns (o: Outcome)
      requires Valid() && 0 <= i
      modifies bytes
      ensures o == Done <==> i < |Bits()|
      ensures o.Thrown? ==> o.error == IllegalArgument && bytes[..] == old(bytes[..])
      ensures o == Done ==> bytes[..] == old(bytes[..])[i / BITS_PER_BYTE := SetByteBit(old(bytes[i / BITS_PER_BYTE]), i % BITS_PER_BYTE, bit)]
      ensures o == Done ==> Bits() == old(Bits())[i := bit]
      ensures forall k :: numBytes <= k < bytes.Length ==> bytes[k] == old(bytes[k])
    {
      var ib := i / BITS_PER_BYTE;
      if ib >= numBytes {
        return Thrown(IllegalArgument);
      }
      bytes[ib] := SetByteBit(bytes[ib], i - ib * BITS_PER_BYTE, bit);
      SetBitView(old(bytes[..]), numBytes, i, bit);
      o := Done;
    }

    /** firstZero(): the least index of a 0 bit, or -1 when every bit is 1.
        Once a byte other than ONES is found, one of its bits is 0, so the
        search inside it always returns. */
    method FirstZero() returns (r: int)
      requires Valid()
      ensures r == -1 <==> forall k :: 0 <= k < |Bits()| ==> Bits()[k]
      ensures r != -1 ==> 0 <= r < |Bits()| && !Bits()[r] && forall k :: 0 <= k < r ==> Bits()[k]
    {
      var i := 0;
      while i < numBytes
        invariant 0 <= i <= numBytes
        invariant forall k :: 0 <= k < i * BITS_PER_BYTE ==> Bits()[k]
      {
        if bytes[i] != ONES {
          FullByte(bytes[i]);
          var j := 0;
          while ByteBit(bytes[i], j)
            invariant 0 <= j < BITS_PER_BYTE
            invariant forall k :: 0 <= k < j ==> ByteBit(bytes[i], k)
            invariant exists k :: j <= k < BITS_PER_BYTE && !ByteBit(bytes[i], k)
            decreases BITS_PER_BYTE - j
          {
            j := j + 1;
          }
          forall k | i * BITS_PER_BYTE <= k < i * BITS_PER_BYTE + j
            ensures Bits()[k]
          {
            ViewBit(bytes[..], numBytes, i, k - i * BITS_PER_BYTE);
          }
          ViewBit(bytes[..], numBytes, i, j);
          r := i * BITS_PER_BYTE + j;
          assert r < |Bits()| && !Bits()[r];
          return;
        }
        FullByteView(bytes[..], numBytes, i);
        i := i + 1;
      }
      return -1;
    }
  }
}
