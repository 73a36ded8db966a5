/** The Compact-TLV encoder (`CompactTlvEncoder.kt`). */
module CompactEncoder {
  import opened Bytes
  import opened Streams
  import CompactDecoder

  /** Both the tag and the length must be below this. */
  const MAX_LENGTH: int := 0x10

  /** `packTagAndLength`: `(tag.toInt() shl 4) or length`, cut to its low octet. The low octet
      of a shift by four is the low four bits of the tag moved up, and the low octet of an `or`
      is the `or` of the low octets. */
  function PackTagAndLength(tag: JByte, length: JInt): (b: Byte)
    ensures (b & 0x0F) as int == length % 0x10
  {
    var x := (length % 0x100) as Byte;
    LowNibble(Octet(tag), x);
    OctetValue(length % 0x100);
    LowNibbleOfOctet(length);
    (Octet(tag) << 4) | x
  }

  /** The low nibble of a number is the low nibble of its low octet. */
  lemma LowNibbleOfOctet(n: int)
    ensures n % 0x100 % 0x10 == n % 0x10
  {
    var q := n / 0x100;
    assert n == q * 0x100 + n % 0x100;
    assert n % 0x10 == (q * 0x10 * 0x10 + n % 0x100) % 0x10;
  }

  /** The tag shifted up by four leaves the low nibble of the length octet as it is. */
  lemma LowNibble(t: Byte, x: Byte)
    ensures (((t << 4) | x) & 0x0F) as int == x as int % 0x10
  {
    assert ((t << 4) | x) & 0x0F == x & 0x0F;
    assert (x & 0x0F) as int == x as int % 0x10 by {
      assert x == (x >> 4) * 0x10 + (x & 0x0F);
      assert (x >> 4) as int * 0x10 + (x & 0x0F) as int == x as int;
    }
  }

  /** The guards of `writeTo`. */
  predicate Writable(tag: JByte, length: JInt)
  {
    0 <= tag < MAX_LENGTH && 0 <= length < MAX_LENGTH
  }

  /** What `writeTo(tag, length, value, os)` writes: nothing when a guard fails, otherwise the
      packed octet and the whole value, whatever `length` says. */
  function Encoding(tag: JByte, length: JInt, value: seq<Byte>): (r: seq<Byte>)
    ensures r != [] <==> Writable(tag, length)
    ensures r != [] ==> r[0] as int == 0x10 * tag + length && r[1..] == value
  {
    if Writable(tag, length) then
      PackValue(tag, length);
      [PackTagAndLength(tag, length)] + value
    else []
  }

  /** Within the guards the packed octet is 16 * tag + length. */
  lemma PackValue(tag: JByte, length: JInt)
    requires Writable(tag, length)
    ensures PackTagAndLength(tag, length) as int == 0x10 * tag + length
  {
    NibbleValue(tag);
    NibbleValue(length);
    NibblesOr(tag as Byte, length as Byte);
  }

  lemma NibbleValue(x: int)
    requires 0 <= x < 0x10
    ensures (x % 0x100) as Byte == x as Byte && (x as Byte) as int == x && x as Byte < 0x10
  {
    assert x % 0x100 == x;
  }

  lemma NibblesOr(t: Byte, l: Byte)
    requires t < 0x10 && l < 0x10
    ensures ((t << 4) | l) as int == t as int * 0x10 + l as int
  {
    assert (t << 4) | l == t * 0x10 + l;
  }

  /** The decoder takes the packed octet apart into the tag and the length it was made of. */
  lemma PackRoundTrip(tag: JByte, length: JInt)
    requires Writable(tag, length)
    ensures CompactDecoder.ReadTag(PackTagAndLength(tag, length) as int) == tag
    ensures CompactDecoder.ReadLength(PackTagAndLength(tag, length) as int) == length
  {
    hide PackTagAndLength;
    PackValue(tag, length);
    CompactDecoder.NibblesOf(PackTagAndLength(tag, length));
    var x := 0x10 * tag + length;
    assert x / 0x10 == tag && x % 0x10 == length;
  }

  /** Every octet is the packing of its own tag and length nibbles. */
  lemma PackOnto(b: Byte)
    ensures var x := b as int;
      PackTagAndLength(CompactDecoder.ReadTag(x), CompactDecoder.ReadLength(x)) == b
  {
    hide PackTagAndLength, CompactDecoder.ReadTag, CompactDecoder.ReadLength;
    var x := b as int;
    CompactDecoder.NibbleSplit(x);
    PackValue(CompactDecoder.ReadTag(x), CompactDecoder.ReadLength(x));
    assert PackTagAndLength(CompactDecoder.ReadTag(x), CompactDecoder.ReadLength(x)) as int == b as int;
  }

  /** `(1, 15)` packs to `1F`, `(1, 0)` to `10` and `(15, 15)` to `FF`; outside the guards the
      low bits of the tag still show. */
  lemma PackFixture()
    ensures PackTagAndLength(1, 0x0F) == 0x1F
    ensures PackTagAndLength(1, 0) == 0x10
    ensures PackTagAndLength(0x0F, 0x0F) == 0xFF
    ensures PackTagAndLength(-1, 0) == 0xF0
  {
    PackValue(1, 0x0F);
    PackValue(1, 0);
    PackValue(0x0F, 0x0F);
  }

  /** `(2, 1, [AA])` writes `21 AA`; the value is not checked against the length, so
      `(2, 1, [AA, BB])` writes `21 AA BB`; the tag `11` writes nothing. */
  lemma EncodingFixture()
    ensures Encoding(2, 1, [0xAA]) == [0x21, 0xAA]
    ensures Encoding(2, 1, [0xAA, 0xBB]) == [0x21, 0xAA, 0xBB]
    ensures Encoding(1, 2, [0x01, 0x02]) == [0x12, 0x01, 0x02]
    ensures Encoding(0x11, 1, [0x01]) == []
  {
    PackValue(2, 1);
    PackValue(1, 2);
  }

  /** `writeTo(tag, length, value, os)`. */
  method WriteTo(tag: JByte, length: JInt, value: seq<Byte>, os: OutputStream)
    modifies os
    ensures os.bytes == old(os.bytes) + Encoding(tag, length, value)
  {
    if tag >= MAX_LENGTH || tag < 0 {
      return;
    }
    if length >= MAX_LENGTH || length < 0 {
      return;
    }
    var tagAndLength := PackTagAndLength(tag, length);
    os.Write([tagAndLength]);
    os.Write(value);
  }

  /** `writeTo(tag, value, os)`: nothing for a null value, otherwise the value with its own
      size as the length, so a value of 16 octets or more is dropped. */
  method WriteValueTo(tag: JByte, value: Option<ByteArray>, os: OutputStream)
    modifies os
    ensures value.None? ==> os.bytes == old(os.bytes)
    ensures value.Some? ==> os.bytes == old(os.bytes) + Encoding(tag, |value.value|, value.value)
  {
    if value.None? {
      return;
    }
    WriteTo(tag, |value.value|, value.value, os);
  }

  /** A value of 16 octets or more, or a tag outside 0..15, writes nothing. */
  lemma EncodingDropped(tag: JByte, value: ByteArray)
    ensures Encoding(tag, |value|, value) == [] <==> !Writable(tag, |value|)
  {
  }
}
