/** Bytes and the 32-bit big-endian integer encoding of java.nio.ByteBuffer,
    together with the absolute and relative buffer accesses the core uses. */
module Bytes {
  import opened Outcomes

  /** A byte of a buffer, by its unsigned value; Java's signed view of the
      same bits (-1 for 0xFF) is the value minus 256 when the value is above 127. */
  type byte = x: int | 0 <= x < 0x100

  /** A Java `int`. */
  type Int32 = x: int | IsInt(x)

  /** The contents of a buffer after a sequence of writes, and whether the
      writes completed or stopped at an exception (earlier writes stay). */
  datatype Written = Written(bytes: seq<byte>, outcome: Outcome)

  /** Integer.BYTES */
  const INT_BYTES: int := 4

  /** The range of a Java `int`. */
  predicate IsInt(x: int) {
    -0x8000_0000 <= x < 0x8000_0000
  }

  /** The bytes `putInt` stores for `v`: two's complement, most significant byte first. */
  function EncodeInt(v: int): (bs: seq<byte>)
    requires IsInt(v)
    ensures |bs| == INT_BYTES
  {
    EncodeUnsigned(if v < 0 then v + 0x1_0000_0000 else v)
  }

  /** The four base-256 digits of an unsigned 32-bit value, most significant first. */
  function EncodeUnsigned(u: int): (bs: seq<byte>)
    requires 0 <= u < 0x1_0000_0000
    ensures |bs| == INT_BYTES
  {
    var u1 := u / 0x100;
    var u2 := u1 / 0x100;
    [u2 / 0x100, u2 % 0x100, u1 % 0x100, u % 0x100]
  }

  /** The value `getInt` reads from four bytes. */
  function DecodeInt(bs: seq<byte>): (v: int)
    requires |bs| == INT_BYTES
    ensures IsInt(v)
  {
    var u := DecodeUnsigned(bs);
    if u >= 0x8000_0000 then u - 0x1_0000_0000 else u
  }

  /** The unsigned value of four bytes, most significant first. */
  function DecodeUnsigned(bs: seq<byte>): (u: int)
    requires |bs| == INT_BYTES
    ensures 0 <= u < 0x1_0000_0000
  {
    ((bs[0] as int * 0x100 + bs[1]) * 0x100 + bs[2]) * 0x100 + bs[3]
  }

  /** Reading back the bytes of an unsigned value gives the value. */
  lemma DecodeEncodeUnsigned(u: int)
    requires 0 <= u < 0x1_0000_0000
    ensures DecodeUnsigned(EncodeUnsigned(u)) == u
  {
    var u1 := u / 0x100;
    var u2 := u1 / 0x100;
    assert u2 == (u2 / 0x100) * 0x100 + u2 % 0x100;
    assert u1 == u2 * 0x100 + u1 % 0x100;
    assert u == u1 * 0x100 + u % 0x100;
  }

  /** Reading back what `putInt` wrote gives the original value. */
  lemma DecodeEncodeInt(v: int)
    requires IsInt(v)
    ensures DecodeInt(EncodeInt(v)) == v
  {
    DecodeEncodeUnsigned(if v < 0 then v + 0x1_0000_0000 else v);
  }

  /** Reading four bytes as an unsigned value and writing it back restores them. */
  lemma EncodeDecodeUnsigned(bs: seq<byte>)
    requires |bs| == INT_BYTES
    ensures EncodeUnsigned(DecodeUnsigned(bs)) == bs
  {
    var u2: int := bs[0] as int * 0x100 + bs[1];
    var u1: int := u2 * 0x100 + bs[2];
    var u: int := u1 * 0x100 + bs[3];
    assert u / 0x100 == u1 && u % 0x100 == bs[3];
    assert u1 / 0x100 == u2 && u1 % 0x100 == bs[2];
    assert u2 / 0x100 == bs[0] && u2 % 0x100 == bs[1];
  }

  /** Every four-byte pattern is the encoding of the value read from it: the
      encoding is a bijection between Java ints and four-byte sequences. */
  lemma EncodeDecodeInt(bs: seq<byte>)
    requires |bs| == INT_BYTES
    ensures EncodeInt(DecodeInt(bs)) == bs
  {
    var u := DecodeUnsigned(bs);
    var v := DecodeInt(bs);
    assert (if v < 0 then v + 0x1_0000_0000 else v) == u;
    EncodeDecodeUnsigned(bs);
  }

  /** `buf` with `data` written at position `at`. */
  function Splice(buf: seq<byte>, at: int, data: seq<byte>): (r: seq<byte>)
    requires 0 <= at && at + |data| <= |buf|
    ensures |r| == |buf|
  {
    seq(|buf|, i requires 0 <= i < |buf| => if at <= i < at + |data| then data[i - at] else buf[i])
  }

  /** Splice places `data` at `at` and leaves every other byte as it was. */
  lemma SpliceEffect(buf: seq<byte>, at: int, data: seq<byte>)
    requires 0 <= at && at + |data| <= |buf|
    ensures Splice(buf, at, data)[at..at + |data|] == data
    ensures forall i :: 0 <= i < |buf| && !(at <= i < at + |data|) ==> Splice(buf, at, data)[i] == buf[i]
  {
  }

  /** Writing `a` and then `b` right after it is writing `a + b`. */
  lemma SpliceAppend(buf: seq<byte>, at: int, a: seq<byte>, b: seq<byte>)
    requires 0 <= at && at + |a| + |b| <= |buf|
    ensures Splice(Splice(buf, at, a), at + |a|, b) == Splice(buf, at, a + b)
  {
    var r1 := Splice(Splice(buf, at, a), at + |a|, b);
    var r2 := Splice(buf, at, a + b);
    forall i | 0 <= i < |buf| ensures r1[i] == r2[i] {
      if at <= i < at + |a| {
        assert r1[i] == a[i - at] == (a + b)[i - at];
      } else if at + |a| <= i < at + |a| + |b| {
        assert r1[i] == b[i - at - |a|] == (a + b)[i - at];
      }
    }
  }

  /** The bulk ByteBuffer.put of `data` at `at`, once its bounds are checked. */
  method PutBytes(buf: array<byte>, at: int, data: seq<byte>)
    requires 0 <= at && at + |data| <= buf.Length
    modifies buf
    ensures buf[..] == Splice(old(buf[..]), at, data)
  {
    forall k | 0 <= k < |data| {
      buf[at + k] := data[k];
    }
  }

  /** ByteBuffer.putInt(index, v): an absolute write, which throws when the
      four bytes do not fit between 0 and the buffer's limit. */
  method PutInt(buf: array<byte>, index: int, v: int) returns (o: Outcome)
    requires IsInt(v)
    modifies buf
    ensures 0 <= index <= buf.Length - INT_BYTES ==> o == Done && buf[..] == Splice(old(buf[..]), index, EncodeInt(v))
    ensures !(0 <= index <= buf.Length - INT_BYTES) ==> o == Thrown(IndexOutOfBounds) && buf[..] == old(buf[..])
  {
    if index < 0 || index > buf.Length - INT_BYTES {
      return Thrown(IndexOutOfBounds);
    }
    var bs := EncodeInt(v);
    buf[index], buf[index + 1], buf[index + 2], buf[index + 3] := bs[0], bs[1], bs[2], bs[3];
    assert buf[..] == Splice(old(buf[..]), index, bs);
    o := Done;
  }

  /** The int stored in the four bytes at `index`. */
  function IntAt(buf: seq<byte>, index: int): (v: Int32)
    requires 0 <= index <= |buf| - INT_BYTES
  {
    var u := ((buf[index] as int * 0x100 + buf[index + 1]) * 0x100 + buf[index + 2]) * 0x100 + buf[index + 3];
    if u >= 0x8000_0000 then u - 0x1_0000_0000 else u
  }

  /** IntAt reads the four bytes at `index` as DecodeInt does. */
  lemma IntAtDecodes(buf: seq<byte>, index: int)
    requires 0 <= index <= |buf| - INT_BYTES
    ensures IntAt(buf, index) == DecodeInt(buf[index..index + INT_BYTES])
  {
  }

  /** ByteBuffer.getInt(index): an absolute read, which throws when the four
      bytes are not between 0 and the buffer's limit. */
  function GetInt(buf: seq<byte>, index: int): (r: Result<Int32>)
    ensures r.Ok? <==> 0 <= index <= |buf| - INT_BYTES
    ensures r.Fail? ==> r.error == IndexOutOfBounds
  {
    if 0 <= index <= |buf| - INT_BYTES then Ok(IntAt(buf, index))
    else Fail(IndexOutOfBounds)
  }

  /** What getInt returns is the value whose encoding is the four bytes read. */
  lemma GetIntEncodes(buf: seq<byte>, index: int)
    requires GetInt(buf, index).Ok?
    ensures EncodeInt(GetInt(buf, index).value) == buf[index..index + INT_BYTES]
  {
    IntAtDecodes(buf, index);
    EncodeDecodeInt(buf[index..index + INT_BYTES]);
  }

  /** getInt at bytes that encode `v` returns `v`. */
  lemma GetIntOfEncoded(buf: seq<byte>, index: int, v: int)
    requires IsInt(v) && 0 <= index <= |buf| - INT_BYTES
    requires buf[index..index + INT_BYTES] == EncodeInt(v)
    ensures GetInt(buf, index) == Ok(v)
  {
    IntAtDecodes(buf, index);
    DecodeEncodeInt(v);
  }

  /** After `putInt(index, v)`, `getInt(index)` returns `v`. */
  lemma GetPutInt(buf: seq<byte>, index: int, v: int)
    requires IsInt(v) && 0 <= index <= |buf| - INT_BYTES
    ensures GetInt(Splice(buf, index, EncodeInt(v)), index) == Ok(v)
  {
    GetIntOfEncoded(Splice(buf, index, EncodeInt(v)), index, v);
  }
}
