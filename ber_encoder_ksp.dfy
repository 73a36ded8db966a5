/** The oldest BER-TLV encoder (`BerTlvEncoder.kt` of the annotation processor): a short form
    of one octet and the long form of the older Java encoder. */
module BerEncoderKsp {
  import opened Bytes
  import opened Streams
  import BerEncoderKt
  import BerEncoderJava

  /** `convertToLength(size: BigInteger)`: `size.toByte()` alone for a size of at most seven
      bits, otherwise the descriptor computed from the rounded bit length and the octets of
      `toByteArray()` without the sign octet. */
  function ConvertToLength(size: int): (r: Result<seq<Byte>, Exception>)
    ensures r.Err? <==> size < 0 || BitLength(size) > BerEncoderKt.MAX_LENGTH_BITS
    ensures r.Err? ==> r.error == IllegalArgument
    ensures r.Ok? ==> r.value != [] && (r.value[0] < 0x80 <==> size < 0x80)
  {
    if size < 0 then Err(IllegalArgument)
    else if BitLength(size) > BerEncoderKt.MAX_LENGTH_BITS then Err(IllegalArgument)
    else if BitLength(size) <= 7 then
      BerEncoderKt.SmallSize(size);
      OctetValue(size);
      Ok([(size % 0x100) as Byte])
    else
      BerEncoderKt.SmallSize(size);
      var bitLength := BitLength(size) + if BitLength(size) % 8 == 0 then 0 else 1;
      var sizeBits := BerEncoderKt.Descriptor(bitLength / 8);
      var sizeBytes := ToByteArray(size);
      var offset := if sizeBytes[0] == 0 then 1 else 0;
      Ok([sizeBits] + sizeBytes[offset..])
  }

  /** The oldest encoder writes, for every size, what the older Java encoder writes: its short
      form `toByte()` is the one octet of `toByteArray()`, and its long form is the same
      arithmetic, one octet short in the descriptor for bit lengths of 8k+1 to 8k+6. */
  lemma SameAsJava(size: int)
    ensures ConvertToLength(size) == BerEncoderJava.ConvertToLength(size)
  {
    if size >= 0 && BitLength(size) <= 7 {
      BerEncoderKt.SmallSize(size);
      BerEncoderJava.ConvertToLengthShort(size);
      assert size % 0x100 == size;
    }
  }

  /** `writeTo(tag, length, content, os)`: the three arrays as given, without any check. */
  method WriteTo(tag: seq<Byte>, length: seq<Byte>, content: seq<Byte>, os: OutputStream)
    modifies os
    ensures os.bytes == old(os.bytes) + tag + length + content
  {
    os.Write(tag);
    os.Write(length);
    os.Write(content);
  }

  /** `writeTo(tag, content, os)`: nothing for a null content, otherwise the tag, the length
      field of the content's size and the content. */
  method WriteContentTo(tag: seq<Byte>, content: Option<ByteArray>, os: OutputStream)
    modifies os
    ensures content.None? ==> os.bytes == old(os.bytes)
    ensures content.Some? ==>
      var length := ConvertToLength(|content.value|);
      length.Ok? && os.bytes == old(os.bytes) + tag + length.value + content.value
  {
    if content.None? {
      return;
    }
    var c := content.value;
    os.Write(tag);
    BerEncoderKt.ArraySizeFits(|c|);
    var length := ConvertToLength(|c|);
    os.Write(length.value);
    os.Write(c);
  }
}
