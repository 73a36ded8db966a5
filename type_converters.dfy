/** The type converters between a property value and its TLV value octets
    (`TypeConverters.kt`); a Kotlin `Byte` is a signed octet. */
module TypeConverters {
  import opened Bytes

  /** `NopConverter.convertFromByteArray`. */
  function NopFromByteArray(byteArray: seq<Byte>): seq<Byte>
  {
    byteArray
  }

  /** `NopConverter.convertToByteArray`. */
  function NopToByteArray(data: seq<Byte>): seq<Byte>
  {
    data
  }

  /** The Nop converter passes octets through both ways. */
  lemma NopRoundTrip(data: seq<Byte>)
    ensures NopFromByteArray(NopToByteArray(data)) == data
    ensures NopToByteArray(NopFromByteArray(data)) == data
  {
  }

  /** `ByteTypeConverter.convertFromByteArray`: the first octet as a signed Byte; `byteArray[0]`
      of an empty array throws. */
  function ByteFromByteArray(byteArray: seq<Byte>): (r: Result<JByte, Exception>)
    ensures r.Err? <==> byteArray == []
    ensures r.Err? ==> r.error == IndexOutOfBounds
  {
    if byteArray == [] then Err(IndexOutOfBounds) else Ok(Signed(byteArray[0]))
  }

  /** `ByteTypeConverter.convertToByteArray`: the one octet holding the Byte. */
  function ByteToByteArray(data: JByte): (r: seq<Byte>)
    ensures |r| == 1 && Signed(r[0]) == data
  {
    OctetValue(data % 0x100);
    [Octet(data)]
  }

  /** Every Byte comes back from its octet. */
  lemma ByteRoundTrip(data: JByte)
    ensures ByteFromByteArray(ByteToByteArray(data)) == Ok(data)
  {
    OctetValue(data % 0x100);
  }

  /** Reading an array keeps only its first octet: writing the Byte back gives that octet. */
  lemma ByteFromFirstOctet(byteArray: seq<Byte>)
    requires byteArray != []
    ensures ByteToByteArray(ByteFromByteArray(byteArray).value) == byteArray[..1]
  {
    var b := byteArray[0];
    SignedOctet(b);
  }

  /** `BooleanTypeConverter.convertFromByteArray`: whether the first octet is non-zero; an empty
      array throws. */
  function BooleanFromByteArray(byteArray: seq<Byte>): (r: Result<bool, Exception>)
    ensures r.Err? <==> byteArray == []
  {
    if byteArray == [] then Err(IndexOutOfBounds) else Ok(byteArray[0] != 0x00)
  }

  /** `BooleanTypeConverter.convertToByteArray`: `FF` for true, `00` for false. */
  function BooleanToByteArray(data: bool): (r: seq<Byte>)
    ensures |r| == 1 && (r[0] != 0 <==> data)
  {
    [if data then 0xFF else 0x00]
  }

  /** Every Boolean comes back from its octet. */
  lemma BooleanRoundTrip(data: bool)
    ensures BooleanFromByteArray(BooleanToByteArray(data)) == Ok(data)
  {
  }

  /** Reading an array and writing the Boolean back gives `00` exactly when the first octet was
      0, and `FF` otherwise; `[01]` reads as true. */
  lemma BooleanNormalizes(byteArray: seq<Byte>)
    requires byteArray != []
    ensures BooleanToByteArray(BooleanFromByteArray(byteArray).value) == [0x00] <==> byteArray[0] == 0x00
    ensures BooleanFromByteArray([0x01]) == Ok(true)
  {
  }

  /** The octet holding the signed view of an octet is that octet. */
  lemma SignedOctet(b: Byte)
    ensures Octet(Signed(b)) == b
  {
    var n := b as int;
    assert Signed(b) % 0x100 == n;
    assert n % 0x100 == n;
  }
}
