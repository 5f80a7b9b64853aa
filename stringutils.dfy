/** StringUtils: a string stored in a ByteBuffer is a four-byte length
    followed by the string's bytes. Strings are modelled by the bytes
    `String.getBytes()` yields, so a character is a byte. */
module StringUtils {
  import opened Outcomes
  import opened Bytes

  /** A Java string as its bytes; a Java array is shorter than 2^31. */
  type JString = s: seq<byte> | |s| < 0x8000_0000

  /** The bytes serializeString lays down: the length, then the string. */
  function EncodeString(s: JString): (bs: seq<byte>)
    ensures |bs| == INT_BYTES + |s|
  {
    EncodeInt(|s|) + s
  }

  /** serializeString(s, buf, index), on a buffer whose limit is its capacity.
      `position(index)` rejects an index outside [0, limit]; the relative
      `putInt` and the bulk `put` throw BufferOverflow when fewer bytes remain
      than they write, and a length already written stays written. */
  function WriteString(buf: seq<byte>, index: int, s: JString): (w: Written)
    ensures |w.bytes| == |buf|
    ensures w.outcome == Done <==> 0 <= index && index + INT_BYTES + |s| <= |buf|
    ensures w.outcome == Done ==> w.bytes == Splice(buf, index, EncodeString(s))
    ensures forall i :: 0 <= i < |buf| && !(index <= i < index + INT_BYTES + |s|) ==> w.bytes[i] == buf[i]
  {
    if index < 0 || index > |buf| then
      Written(buf, Thrown(IllegalArgument))
    else if |buf| - index < INT_BYTES then
      Written(buf, Thrown(BufferOverflow))
    else
      var withLength := Splice(buf, index, EncodeInt(|s|));
      if |buf| - index - INT_BYTES < |s| then
        Written(withLength, Thrown(BufferOverflow))
      else
        Written(Splice(buf, index, EncodeString(s)), Done)
  }

  /** StringUtils.serializeString. */
  method SerializeString(s: JString, buf: array<byte>, index: int) returns (o: Outcome)
    modifies buf
    ensures Written(buf[..], o) == WriteString(old(buf[..]), index, s)
  {
    if index < 0 || index > buf.Length {
      return Thrown(IllegalArgument);
    }
    if buf.Length - index < INT_BYTES {
      return Thrown(BufferOverflow);
    }
    PutBytes(buf, index, EncodeInt(|s|));
    if buf.Length - index - INT_BYTES < |s| {
      return Thrown(BufferOverflow);
    }
    PutBytes(buf, index + INT_BYTES, s);
    SpliceAppend(old(buf[..]), index, EncodeInt(|s|), s);
    o := Done;
  }

  /** StringUtils.deserializeString: `position(index)` rejects an index outside
      [0, limit]; the relative `getInt` and the bulk `get` throw BufferUnderflow
      when fewer bytes remain than they read; a negative length fails when the
      byte array is allocated. */
  function DeserializeString(buf: seq<byte>, index: int): (r: Result<JString>)
    ensures r.Fail? <==> index < 0 || index > |buf| || |buf| - index < INT_BYTES
                         || IntAt(buf, index) < 0 || |buf| - index - INT_BYTES < IntAt(buf, index)
  {
    if index < 0 || index > |buf| then
      Fail(IllegalArgument)
    else if |buf| - index < INT_BYTES then
      Fail(BufferUnderflow)
    else
      var len := IntAt(buf, index);
      if len < 0 then
        Fail(NegativeArraySize)
      else if |buf| - index - INT_BYTES < len then
        Fail(BufferUnderflow)
      else
        Ok(buf[index + INT_BYTES..index + INT_BYTES + len])
  }

  /** The string deserializeString returns is the one whose encoding the
      bytes at `index` are. */
  lemma DeserializeStringEncodes(buf: seq<byte>, index: int)
    requires DeserializeString(buf, index).Ok?
    ensures var s := DeserializeString(buf, index).value;
      index + INT_BYTES + |s| <= |buf| && buf[index..index + INT_BYTES + |s|] == EncodeString(s)
  {
    var s := DeserializeString(buf, index).value;
    IntAtDecodes(buf, index);
    EncodeDecodeInt(buf[index..index + INT_BYTES]);
    assert buf[index..index + INT_BYTES + |s|] == buf[index..index + INT_BYTES] + s;
  }

  /** Where the bytes at `index` are the encoding of `s`, deserializeString reads `s`. */
  lemma DeserializeEncoded(buf: seq<byte>, index: int, s: JString)
    requires 0 <= index && index + INT_BYTES + |s| <= |buf|
    requires buf[index..index + INT_BYTES + |s|] == EncodeString(s)
    ensures DeserializeString(buf, index) == Ok(s)
  {
    var e := buf[index..index + INT_BYTES + |s|];
    assert buf[index..index + INT_BYTES] == e[..INT_BYTES] == EncodeInt(|s|);
    IntAtDecodes(buf, index);
    DecodeEncodeInt(|s|);
    assert buf[index + INT_BYTES..index + INT_BYTES + |s|] == e[INT_BYTES..] == s;
  }

  /** deserializeString after serializeString at the same index gives the
      string back, the empty string included. */
  lemma DeserializeSerializeString(buf: seq<byte>, index: int, s: JString)
    requires 0 <= index && index + INT_BYTES + |s| <= |buf|
    ensures DeserializeString(WriteString(buf, index, s).bytes, index) == Ok(s)
  {
    DeserializeEncoded(WriteString(buf, index, s).bytes, index, s);
  }

  /** deserializeString reads exactly the length and the bytes it returns:
      a buffer that agrees on them yields the same string. */
  lemma DeserializeStringFrame(b1: seq<byte>, b2: seq<byte>, index: int, s: JString)
    requires DeserializeString(b1, index) == Ok(s)
    requires |b1| == |b2| && b1[index..index + INT_BYTES + |s|] == b2[index..index + INT_BYTES + |s|]
    ensures DeserializeString(b2, index) == Ok(s)
  {
    DeserializeStringEncodes(b1, index);
    DeserializeEncoded(b2, index, s);
  }
}
