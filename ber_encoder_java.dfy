/** The older BER-TLV encoder (`BerTlvEncoder.java`): the same short form as the current encoder,
    and a long form without padding whose descriptor octet is computed from the bit length of the
    size. */
module BerEncoderJava {
  import opened Bytes
  import opened Streams
  import BerEncoderKt

  /** The octet count the long-form descriptor announces for a size of `bits` bits: the bit
      length rounded up by one when it is not a multiple of 8, then divided by 8. */
  function DescriptorOctets(bits: nat): nat
  {
    (bits + if bits % 8 == 0 then 0 else 1) / 8
  }

  /** `convertToLength(BigInteger size)`: `size.toByteArray()` for a size of at most seven bits,
      otherwise the descriptor `0x80 | DescriptorOctets(bitLength)` followed by the octets of
      `toByteArray()` without the sign octet. */
  function ConvertToLength(size: int): (r: Result<seq<Byte>, Exception>)
    ensures r.Err? <==> size < 0 || BitLength(size) > BerEncoderKt.MAX_LENGTH_BITS
    ensures r.Err? ==> r.error == IllegalArgument
    ensures r.Ok? ==> r.value != [] && (r.value[0] < 0x80 <==> size < 0x80)
  {
    if size < 0 then Err(IllegalArgument)
    else if BitLength(size) > BerEncoderKt.MAX_LENGTH_BITS then Err(IllegalArgument)
    else if BitLength(size) <= 7 then
      ShortByteArray(size);
      Ok(ToByteArray(size))
    else
      BerEncoderKt.SmallSize(size);
      var sizeBits := BerEncoderKt.Descriptor(DescriptorOctets(BitLength(size)));
      var sizeBytes := ToByteArray(size);
      var offset := if sizeBytes[0] == 0 then 1 else 0;
      Ok([sizeBits] + sizeBytes[offset..])
  }

  /** For a size of at most seven bits `toByteArray()` is one octet holding the size. */
  lemma ShortByteArray(size: nat)
    requires BitLength(size) <= 7
    ensures size < 0x80 && ToByteArray(size) == [size as Byte]
    ensures (size as Byte) as nat == size
  {
    BerEncoderKt.SmallSize(size);
    OctetValue(size);
    assert BitLength(size) / 8 + 1 == 1;
    assert size % 256 == size && size / 256 == 0;
    assert ToByteArray(size) == BigEndian(size, 1) == BigEndian(0, 0) + [(size % 256) as Byte];
    assert BigEndian(0, 0) + [size as Byte] == [size as Byte];
  }

  /** A size below 128 is `toByteArray()`: one octet holding the size. */
  lemma ConvertToLengthShort(size: nat)
    requires size < 0x80
    ensures ConvertToLength(size) == Ok([size as Byte])
    ensures (size as Byte) as nat == size
  {
    BerEncoderKt.SmallSize(size);
    ShortByteArray(size);
  }

  /** A size of more than seven bits is the descriptor of `DescriptorOctets` followed by the size
      in as many octets as it needs. */
  lemma ConvertToLengthLong(size: nat)
    requires BitLength(size) > 7 && BitLength(size) <= BerEncoderKt.MAX_LENGTH_BITS
    ensures ConvertToLength(size)
      == Ok([BerEncoderKt.Descriptor(DescriptorOctets(BitLength(size)))] + BigEndian(size, ByteWidth(size)))
  {
    BerEncoderKt.MagnitudeOctets(size);
    hide BitLength, ByteWidth, ToByteArray, BigEndian, DescriptorOctets, BerEncoderKt.Descriptor;
  }

  /** The descriptor announces the octets that follow when the bit length is a multiple of 8 or
      one less, and one octet too few otherwise. */
  lemma DescriptorOctetsCount(size: nat)
    requires BitLength(size) > 7
    ensures var b := BitLength(size);
      && (b % 8 == 0 || b % 8 == 7 ==> DescriptorOctets(b) == ByteWidth(size))
      && (b % 8 != 0 && b % 8 != 7 ==> DescriptorOctets(b) == ByteWidth(size) - 1)
  {
    ByteWidthFromBitLength(size);
    var bits := BitLength(size);
    var q, m := bits / 8, bits % 8;
    assert bits == 8 * q + m;
    if m == 0 {
      assert (bits + 7) / 8 == q;
    } else if m == 7 {
      assert (bits + 1) / 8 == q + 1;
      assert (bits + 7) / 8 == q + 1;
    } else {
      assert (bits + 1) / 8 == q;
      assert (bits + 7) / 8 == q + 1;
    }
  }

  /** The older encoder writes what the current one writes without padding exactly for sizes
      below 128 and for sizes whose bit length is a multiple of 8 or one less. */
  lemma AgreesWithCurrent(size: nat)
    requires BitLength(size) <= BerEncoderKt.MAX_LENGTH_BITS
    ensures var b := BitLength(size);
      ConvertToLength(size) == BerEncoderKt.ConvertToLength(size, 0) <==> b <= 7 || b % 8 == 0 || b % 8 == 7
  {
    var b := BitLength(size);
    if b <= 7 {
      BerEncoderKt.SmallSize(size);
      ConvertToLengthShort(size);
      BerEncoderKt.ConvertToLengthShort(size, 0);
    } else {
      var w := ByteWidth(size);
      ConvertToLengthLong(size);
      BerEncoderKt.ConvertToLengthLong(size, 0);
      DescriptorOctetsCount(size);
      ByteWidthFromBitLength(size);
      assert w <= 126;
      assert Max(w, 0) == w;
      var d := DescriptorOctets(b);
      BerEncoderKt.DescriptorValue(d);
      BerEncoderKt.DescriptorValue(w);
      hide BitLength, ByteWidth, BigEndian, DescriptorOctets, ConvertToLength, BerEncoderKt.ConvertToLength;
      if d != w {
        assert BerEncoderKt.Descriptor(d) != BerEncoderKt.Descriptor(w);
        assert ConvertToLength(size).value[0] != BerEncoderKt.ConvertToLength(size, 0).value[0];
      }
    }
  }

  /** The tests' 128 is `81 80`, as with the current encoder. */
  lemma ConvertToLength128()
    ensures ConvertToLength(128) == Ok([0x81, 0x80])
  {
    hide ConvertToLength, BitLength, ByteWidth, BigEndian, ToByteArray;
    BerEncoderKt.Octets128();
    ConvertToLengthLong(128);
    assert DescriptorOctets(8) == 1;
    assert BerEncoderKt.Descriptor(1) == 0x81;
    assert [BerEncoderKt.Descriptor(1)] + BigEndian(128, 1) == [0x81, 0x80];
  }

  /** 259, nine bits in two octets, comes out as `81 01 03`: the descriptor announces one octet. */
  lemma ConvertToLength259()
    ensures ConvertToLength(259) == Ok([0x81, 0x01, 0x03])
  {
    hide ConvertToLength, BitLength, ByteWidth, BigEndian, ToByteArray;
    BerEncoderKt.Octets259();
    ConvertToLengthLong(259);
    assert DescriptorOctets(9) == 1;
    assert BerEncoderKt.Descriptor(1) == 0x81;
    assert [BerEncoderKt.Descriptor(1)] + BigEndian(259, 2) == [0x81, 0x01, 0x03];
  }

  /** `writeTo(tag, length, content, os)`: the three arrays as given, without any check. */
  method WriteTo(tag: seq<Byte>, length: seq<Byte>, content: seq<Byte>, os: OutputStream)
    modifies os
    ensures os.bytes == old(os.bytes) + tag + length + content
  {
    os.Write(tag);
    os.Write(length);
    os.Write(content);
  }

  /** `writeTo(tag, content, os)`: nothing for a null content, otherwise the tag, the length
      field of the content's size and the content. */
  method WriteContentTo(tag: seq<Byte>, content: Option<ByteArray>, os: OutputStream)
    modifies os
    ensures content.None? ==> os.bytes == old(os.bytes)
    ensures content.Some? ==>
      var length := ConvertToLength(|content.value|);
      length.Ok? && os.bytes == old(os.bytes) + tag + length.value + content.value
  {
    if content.None? {
      return;
    }
    var c := content.value;
    os.Write(tag);
    BerEncoderKt.ArraySizeFits(|c|);
    var length := ConvertToLength(|c|);
    os.Write(length.value);
    os.Write(c);
  }
}
