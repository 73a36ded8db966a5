/** The current BER-TLV encoder of the runtime library (`BerTlvEncoder.kt`): the length octets of
    sections 8.1.3.4 and 8.1.3.5 of ITU-T X.690, with a long form that can be padded to a
    minimum number of octets. */
module BerEncoderKt {
  import opened Bytes
  import opened Streams

  /** `126 * 8`: the most bits a length may have. */
  const MAX_LENGTH_BITS: nat := 126 * 8

  /** Kotlin's `src.copyInto(dest, destinationOffset, startIndex, endIndex)` on a copy of `dest`:
      the octets src[startIndex..endIndex] overwrite dest from destinationOffset on. */
  function CopyInto(src: seq<Byte>, dest: seq<Byte>, destinationOffset: int, startIndex: int, endIndex: int)
    : (r: Result<seq<Byte>, Exception>)
    ensures r.Ok? <==>
      0 <= startIndex <= endIndex <= |src| && 0 <= destinationOffset && destinationOffset + (endIndex - startIndex) <= |dest|
    ensures r.Ok? ==>
      && |r.value| == |dest|
      && r.value[..destinationOffset] == dest[..destinationOffset]
      && r.value[destinationOffset..destinationOffset + (endIndex - startIndex)] == src[startIndex..endIndex]
      && r.value[destinationOffset + (endIndex - startIndex)..] == dest[destinationOffset + (endIndex - startIndex)..]
    ensures r.Err? ==> r.error == IndexOutOfBounds
  {
    if !(0 <= startIndex <= endIndex <= |src|) || destinationOffset < 0
       || destinationOffset + (endIndex - startIndex) > |dest|
    then Err(IndexOutOfBounds)
    else
      var n := endIndex - startIndex;
      var r := dest[..destinationOffset] + src[startIndex..endIndex] + dest[destinationOffset + n..];
      assert r[..destinationOffset] == dest[..destinationOffset];
      assert r[destinationOffset..destinationOffset + n] == src[startIndex..endIndex];
      assert r[destinationOffset + n..] == dest[destinationOffset + n..];
      Ok(r)
  }

  /** The low eight bits of `0b10000000 or n`, as `ByteArrayOutputStream.write(Int)` stores them. */
  function Descriptor(n: nat): (b: Byte)
    ensures b >= 0x80
  {
    0x80 | (n % 0x100) as Byte
  }

  /** `convertToLength(size, longDefLengthFieldSizeAtLeast)`: a size below 128 is one octet; a larger
      one is a descriptor octet `0x80 or L` and the size right-aligned in L octets, L being the
      octets the size needs or the requested minimum if that is larger. */
  function ConvertToLength(size: int, longDefLengthFieldSizeAtLeast: JInt): (r: Result<seq<Byte>, Exception>)
    ensures size < 0 || BitLength(size) > MAX_LENGTH_BITS ==> r == Err(IllegalArgument)
    ensures r.Ok? ==> r.value != [] && (r.value[0] < 0x80 <==> size < 0x80)
  {
    if size < 0 then Err(IllegalArgument)
    else if BitLength(size) > MAX_LENGTH_BITS then Err(IllegalArgument)
    else if BitLength(size) <= 7 then
      SmallSize(size);
      OctetValue(size);
      Ok([size as Byte])
    else
      SmallSize(size);
      LongDefinition(size, longDefLengthFieldSizeAtLeast)
  }

  /** The long definition of `convertToLength`, for a size of more than seven bits. */
  function LongDefinition(size: nat, longDefLengthFieldSizeAtLeast: JInt): (r: Result<seq<Byte>, Exception>)
    requires BitLength(size) > 7
    ensures r.Ok? ==> r.value != [] && r.value[0] >= 0x80
  {
      var longLengthFieldBytesSize := FieldOctets(BitLength(size));
      var lengthSize := Max(longLengthFieldBytesSize, longDefLengthFieldSizeAtLeast);
      var sizeBits := Descriptor(lengthSize);
      var sizeBytes := ToByteArray(size);
      var offset := if sizeBytes[0] == 0 then 1 else 0;
      var lengthBytes := CopyInto(sizeBytes, Zeros(lengthSize), lengthSize - longLengthFieldBytesSize, offset, |sizeBytes|);
      if lengthBytes.Err? then Err(lengthBytes.error)
      else Ok([sizeBits] + lengthBytes.value)
  }

  /** The octets of a long length field for a size of `bits` bits: the bit length is first
      rounded up by one when it is not a multiple of 8, then divided by 8 and rounded up. */
  function FieldOctets(bits: nat): nat
  {
    var bitLength := bits + if bits % 8 == 0 then 0 else 1;
    bitLength / 8 + if bitLength % 8 != 0 then 1 else 0
  }

  /** A size of at most seven bits is below 128. */
  lemma SmallSize(size: nat)
    ensures BitLength(size) <= 7 <==> size < 0x80
  {
    BitLengthAtMost(size, 7);
    assert Pow2(7) == 0x80;
  }

  /** The long form needs as many octets as the size has, whatever the rounding of its bit length. */
  lemma LongFieldWidth(size: nat)
    requires BitLength(size) > 7
    ensures FieldOctets(BitLength(size)) == ByteWidth(size)
  {
    ByteWidthFromBitLength(size);
    var bits := BitLength(size);
    var q, m := bits / 8, bits % 8;
    assert bits == 8 * q + m;
    if m == 0 {
      assert (bits + 7) / 8 == q;
    } else if m == 7 {
      assert bits + 1 == 8 * (q + 1);
      assert (bits + 1) / 8 == q + 1 && (bits + 1) % 8 == 0;
      assert (bits + 7) / 8 == q + 1;
    } else {
      assert (bits + 1) / 8 == q && (bits + 1) % 8 == m + 1;
      assert (bits + 7) / 8 == q + 1;
    }
  }

  /** `convertToLength` fails with IllegalArgumentException exactly for a negative size and for a
      size of more than 126 octets. */
  lemma ConvertToLengthErrors(size: int, atLeast: JInt)
    ensures ConvertToLength(size, atLeast).Err? <==> size < 0 || BitLength(size) > MAX_LENGTH_BITS
    ensures ConvertToLength(size, atLeast).Err? ==> ConvertToLength(size, atLeast).error == IllegalArgument
  {
    if size >= 0 && BitLength(size) <= MAX_LENGTH_BITS && BitLength(size) > 7 {
      ConvertToLengthLong(size, atLeast);
    }
  }

  /** A size below 128 is its own one-octet field, whatever the requested minimum. */
  lemma ConvertToLengthShort(size: nat, atLeast: JInt)
    requires size < 0x80
    ensures ConvertToLength(size, atLeast) == Ok([size as Byte])
    ensures (size as Byte) as nat == size
  {
    SmallSize(size);
    OctetValue(size);
  }

  /** A size of 128 or more is the descriptor `0x80 or L` followed by the size as an L-octet
      big-endian number, L = max(octets the size needs, requested minimum). */
  lemma ConvertToLengthLong(size: nat, atLeast: JInt)
    requires BitLength(size) > 7 && BitLength(size) <= MAX_LENGTH_BITS
    ensures var lengthSize := Max(ByteWidth(size), atLeast);
      ConvertToLength(size, atLeast) == Ok([Descriptor(lengthSize)] + BigEndian(size, lengthSize))
  {
    hide ConvertToLength, LongDefinition, Descriptor;
    var w := ByteWidth(size);
    var lengthSize := Max(w, atLeast);
    var sizeBytes := ToByteArray(size);
    var offset := if sizeBytes[0] == 0 then 1 else 0;
    LongDefinitionCopy(size, atLeast);
    MagnitudeOctets(size);
    ByteWidthBounds(size);
    BigEndianPad(size, w, lengthSize - w);
    CopyIntoZeros(sizeBytes, offset, lengthSize);
  }

  /** The long definition copies the octets of `toByteArray()` after the sign octet to the end of
      a zeroed buffer of the field's length. */
  lemma LongDefinitionCopy(size: nat, atLeast: JInt)
    requires BitLength(size) > 7 && BitLength(size) <= MAX_LENGTH_BITS
    ensures var w, sizeBytes := ByteWidth(size), ToByteArray(size);
      var lengthSize := Max(w, atLeast);
      var offset := if sizeBytes[0] == 0 then 1 else 0;
      var c := CopyInto(sizeBytes, Zeros(lengthSize), lengthSize - w, offset, |sizeBytes|);
      && ConvertToLength(size, atLeast) == LongDefinition(size, atLeast)
      && (c.Ok? ==> LongDefinition(size, atLeast) == Ok([Descriptor(lengthSize)] + c.value))
  {
    LongFieldWidth(size);
    hide BitLength, ByteWidth, ToByteArray, BigEndian, Zeros, CopyInto, Descriptor, Max, FieldOctets;
  }

  /** Dropping the sign octet of `toByteArray()` leaves the size in as many octets as it needs. */
  lemma MagnitudeOctets(size: nat)
    requires size > 0
    ensures var sizeBytes := ToByteArray(size);
      var offset := if sizeBytes[0] == 0 then 1 else 0;
      offset <= |sizeBytes| && sizeBytes[offset..] == BigEndian(size, ByteWidth(size))
  {
    var w := ByteWidth(size);
    var sizeBytes := ToByteArray(size);
    ToByteArrayShape(size);
    if BitLength(size) % 8 == 0 {
      assert sizeBytes[1..] == BigEndian(size, w);
    }
  }

  /** Copying the octets after `offset` to the end of a zeroed buffer pads them on the left. */
  lemma CopyIntoZeros(src: seq<Byte>, offset: nat, n: nat)
    requires offset <= |src| && |src| - offset <= n
    ensures CopyInto(src, Zeros(n), n - (|src| - offset), offset, |src|) == Ok(Zeros(n - (|src| - offset)) + src[offset..])
  {
    var k := |src| - offset;
    var v := CopyInto(src, Zeros(n), n - k, offset, |src|).value;
    ZerosAreZero(n);
    ZerosAreZero(n - k);
    assert v[..n - k] == Zeros(n)[..n - k] == Zeros(n - k);
    assert v[n - k..] == src[offset..|src|] == src[offset..];
    assert v == v[..n - k] + v[n - k..];
  }

  /** The descriptor octet of a long form of L <= 127 octets has bit 8 set and L in the rest. */
  lemma DescriptorValue(n: nat)
    requires n < 0x80
    ensures Descriptor(n) & 0x80 != 0 && Descriptor(n) != 0x80 <==> n != 0
    ensures Descriptor(n) & 0x80 != 0 && (Descriptor(n) ^ 0x80) as nat == n
  {
    var b := n as Byte;
    OctetValue(n);
    assert n % 0x100 == n;
    assert b < 0x80;
    assert (0x80 | b) ^ 0x80 == b;
    assert (0x80 | b) == 0x80 <==> b == 0;
  }

  /** With a minimum of at most 126 octets the encoder never emits the indefinite-length octet
      `80`; a field with bit 8 of its first octet clear is that octet alone, holding the size, and
      otherwise the rest of the first octet counts the octets after it, which hold the size. */
  lemma NoIndefiniteForm(size: int, atLeast: JInt)
    requires atLeast <= 126
    requires ConvertToLength(size, atLeast).Ok?
    ensures var r := ConvertToLength(size, atLeast).value;
      && |r| >= 1 && r[0] != 0x80
      && (r[0] & 0x80 == 0 ==> r == [r[0]] && r[0] as nat == size)
      && (r[0] & 0x80 != 0 ==> |r| == (r[0] ^ 0x80) as nat + 1 && (r[0] ^ 0x80) as nat <= 126 && Unsigned(r[1..]) == size)
  {
    ConvertToLengthErrors(size, atLeast);
    if size < 0x80 {
      ConvertToLengthShort(size, atLeast);
      assert (size as Byte) < 0x80;
    } else {
      SmallSize(size);
      ConvertToLengthLong(size, atLeast);
      var lengthSize := Max(ByteWidth(size), atLeast);
      ByteWidthBounds(size);
      assert 1 <= ByteWidth(size) <= 126 by {
        ByteWidthFromBitLength(size);
      }
      DescriptorValue(lengthSize);
      PowMonotone(ByteWidth(size), lengthSize);
      UnsignedBigEndian(size, lengthSize);
      var r := ConvertToLength(size, atLeast).value;
      assert r[1..] == BigEndian(size, lengthSize);
    }
  }

  /** A wider field holds every number a narrower one does. */
  lemma PowMonotone(a: nat, b: nat)
    requires a <= b
    ensures Pow256(a) <= Pow256(b)
  {
    Pow2Octets(a);
    Pow2Octets(b);
    Pow2Monotone(8 * a, 8 * b);
  }

  /** One-octet encodings: the tests' 126 and -1, and the edges 0 and 127 of the short form;
      the minimum does not matter for them. */
  lemma ConvertToLengthShortFixtures()
    ensures ConvertToLength(0, 0) == Ok([0x00])
    ensures ConvertToLength(126, 0) == Ok([0x7E])
    ensures ConvertToLength(127, 2) == Ok([0x7F])
    ensures ConvertToLength(-1, 0) == Err(IllegalArgument)
  {
    ConvertToLengthShort(0, 0);
    ConvertToLengthShort(126, 0);
    ConvertToLengthShort(127, 2);
  }

  /** 128 is `81 80`, and with a two-octet minimum `82 00 80`. */
  lemma ConvertToLength128()
    ensures ConvertToLength(128, 0) == Ok([0x81, 0x80])
    ensures ConvertToLength(128, 2) == Ok([0x82, 0x00, 0x80])
  {
    hide ConvertToLength;
    ConvertToLength128Unpadded();
    ConvertToLength128Padded();
  }

  lemma ConvertToLength128Unpadded()
    ensures ConvertToLength(128, 0) == Ok([0x81, 0x80])
  {
    hide ConvertToLength, LongDefinition, BitLength, ByteWidth, BigEndian, ToByteArray;
    Octets128();
    ConvertToLengthLong(128, 0);
    assert Max(1, 0) == 1;
    assert Descriptor(1) == 0x81;
    assert [Descriptor(1)] + BigEndian(128, 1) == [0x81, 0x80];
  }

  lemma ConvertToLength128Padded()
    ensures ConvertToLength(128, 2) == Ok([0x82, 0x00, 0x80])
  {
    hide ConvertToLength, LongDefinition, BitLength, ByteWidth, BigEndian, ToByteArray;
    Octets128();
    ConvertToLengthLong(128, 2);
    assert Max(1, 2) == 2;
    assert Descriptor(2) == 0x82;
    assert [Descriptor(2)] + BigEndian(128, 2) == [0x82, 0x00, 0x80];
  }

  lemma Octets128()
    ensures BitLength(128) == 8 && ByteWidth(128) == 1
    ensures BigEndian(128, 1) == [0x80] && BigEndian(128, 2) == [0x00, 0x80]
  {
    assert BitLength(1) == 1;
    assert (128 % 256) as Byte == 0x80;
  }

  /** 259, nine bits, takes two octets: `82 01 03`. */
  lemma ConvertToLength259()
    ensures ConvertToLength(259, 0) == Ok([0x82, 0x01, 0x03])
  {
    hide ConvertToLength, LongDefinition, BitLength, ByteWidth, BigEndian, ToByteArray;
    Octets259();
    ConvertToLengthLong(259, 0);
    assert Max(2, 0) == 2;
    assert Descriptor(2) == 0x82;
    assert [Descriptor(2)] + BigEndian(259, 2) == [0x82, 0x01, 0x03];
  }

  lemma Octets259()
    ensures BitLength(259) == 9 && ByteWidth(259) == 2
    ensures BigEndian(259, 2) == [0x01, 0x03]
  {
    assert BitLength(1) == 1;
    assert BitLength(16) == 5;
    assert (259 % 256) as Byte == 0x03 && (1 % 256) as Byte == 0x01;
  }

  /** `writeTo(tag, length, value, os)`: the three arrays as given, without any check. */
  method WriteTo(tag: seq<Byte>, length: seq<Byte>, value: seq<Byte>, os: OutputStream)
    modifies os
    ensures os.bytes == old(os.bytes) + tag + length + value
  {
    os.Write(tag);
    os.Write(length);
    os.Write(value);
  }

  /** `writeTo(tag, value, os, longDefLengthFieldSizeAtLeast)`: nothing for a null value,
      otherwise the tag, the length field of the value's size and the value. */
  method WriteValueTo(tag: seq<Byte>, value: Option<ByteArray>, os: OutputStream, longDefLengthFieldSizeAtLeast: JInt)
    modifies os
    ensures value.None? ==> os.bytes == old(os.bytes)
    ensures value.Some? ==>
      var length := ConvertToLength(|value.value|, longDefLengthFieldSizeAtLeast);
      length.Ok? && os.bytes == old(os.bytes) + tag + length.value + value.value
  {
    if value.None? {
      return;
    }
    var v := value.value;
    os.Write(tag);
    ArraySizeFits(|v|);
    ConvertToLengthErrors(|v|, longDefLengthFieldSizeAtLeast);
    var length := ConvertToLength(|v|, longDefLengthFieldSizeAtLeast);
    os.Write(length.value);
    os.Write(v);
  }

  /** The size of a JVM array is never too large for a length field. */
  lemma ArraySizeFits(n: nat)
    requires n < 0x8000_0000
    ensures BitLength(n) <= MAX_LENGTH_BITS
  {
    LargeIff(n);
  }
}
