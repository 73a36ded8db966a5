/** The hex formatting of `Utils.java`, used in messages. */
module Hex {
  import opened Bytes

  /** An upper-case hexadecimal digit. */
  function HexDigit(d: nat): (c: char)
    requires d < 0x10
    ensures '0' <= c <= '9' || 'A' <= c <= 'F'
  {
    if d < 10 then ('0' as int + d) as char else ('A' as int + d - 10) as char
  }

  /** The value of a hexadecimal digit, or -1. */
  function DigitValue(c: char): int
  {
    if '0' <= c <= '9' then c as int - '0' as int
    else if 'A' <= c <= 'F' then c as int - 'A' as int + 10
    else -1
  }

  lemma DigitRoundTrip(d: nat)
    requires d < 0x10
    ensures DigitValue(HexDigit(d)) == d
  {
  }

  /** `toHex(byte)`: `String.format("%02x", value)`, which formats a negative Byte as its
      unsigned value, in upper case: always two digits. */
  function ToHexByte(value: Byte): (s: string)
    ensures |s| == 2
  {
    [HexDigit(value as nat / 0x10), HexDigit(value as nat % 0x10)]
  }

  /** The two digits give the octet back. */
  lemma ToHexByteRoundTrip(value: Byte)
    ensures 0x10 * DigitValue(ToHexByte(value)[0]) + DigitValue(ToHexByte(value)[1]) == value as int
  {
    DigitRoundTrip(value as nat / 0x10);
    DigitRoundTrip(value as nat % 0x10);
  }

  /** `00` is "00", `7F` is "7F", and `AB` (a negative Byte) is "AB". */
  lemma ToHexByteFixture()
    ensures ToHexByte(0x00) == "00" && ToHexByte(0x7F) == "7F" && ToHexByte(0xAB) == "AB"
  {
  }

  /** One rendered octet. */
  function Token(value: Byte): (s: string)
    ensures |s| == 4
  {
    "0x" + ToHexByte(value)
  }

  /** The tokens of the octets, in order, separated by ":". */
  function HexString(bytes: seq<Byte>): (s: string)
    ensures bytes == [] <==> s == []
  {
    if bytes == [] then ""
    else if |bytes| == 1 then Token(bytes[0])
    else HexString(bytes[..|bytes| - 1]) + ":" + Token(bytes[|bytes| - 1])
  }

  /** `toHex(byteArray, delimiter)`: a token per octet and ":" after every octet but the last;
      the `delimiter` argument is not used. */
  method ToHex(byteArray: array<Byte>, delimiter: string) returns (s: string)
    ensures s == HexString(byteArray[..])
  {
    hide HexString;
    var sb := "";
    for i := 0 to byteArray.Length
      invariant sb == if 0 < i < byteArray.Length then HexString(byteArray[..i]) + ":" else HexString(byteArray[..i])
    {
      var value := byteArray[i];
      var token := ToHexByte(value);
      assert byteArray[..i + 1] == byteArray[..i] + [value];
      HexStringSnoc(byteArray[..i], value);
      sb := sb + "0x" + token;
      if i < byteArray.Length - 1 {
        sb := sb + ":";
      }
    }
    assert byteArray[..byteArray.Length] == byteArray[..];
    s := sb;
  }

  /** One more octet adds its token, after a ":" unless it is the first. */
  lemma HexStringSnoc(init: seq<Byte>, value: Byte)
    ensures HexString(init + [value]) == if init == [] then Token(value) else HexString(init) + ":" + Token(value)
  {
    assert (init + [value])[..|init|] == init;
  }

  /** Five characters per octet, less the separator after the last one. */
  lemma {:induction false} HexStringLength(bytes: seq<Byte>)
    requires bytes != []
    ensures |HexString(bytes)| == 5 * |bytes| - 1
  {
    if |bytes| > 1 {
      HexStringLength(bytes[..|bytes| - 1]);
    }
  }

  /** Octet i is rendered at 5 * i, and a ":" follows every octet but the last. */
  lemma {:induction false} HexStringLayout(bytes: seq<Byte>, i: nat)
    requires i < |bytes|
    ensures |HexString(bytes)| == 5 * |bytes| - 1
    ensures HexString(bytes)[5 * i..5 * i + 4] == Token(bytes[i])
    ensures i < |bytes| - 1 ==> HexString(bytes)[5 * i + 4] == ':'
    decreases |bytes|
  {
    HexStringLength(bytes);
    if |bytes| > 1 {
      var init := bytes[..|bytes| - 1];
      HexStringLength(init);
      var s := HexString(bytes);
      assert s == HexString(init) + ":" + Token(bytes[|bytes| - 1]);
      if i < |bytes| - 1 {
        HexStringLayout(init, i);
        assert s[5 * i..5 * i + 4] == HexString(init)[5 * i..5 * i + 4];
        if i < |init| - 1 {
          assert s[5 * i + 4] == HexString(init)[5 * i + 4];
        }
      } else {
        assert s[5 * i..5 * i + 4] == Token(bytes[i]);
      }
    }
  }

  /** Different arrays render differently: the octets can be read back from the string. */
  lemma HexStringInjective(a: seq<Byte>, b: seq<Byte>)
    requires HexString(a) == HexString(b)
    ensures a == b
  {
    if a != [] && b != [] {
      HexStringLength(a);
      HexStringLength(b);
      forall i | 0 <= i < |a|
        ensures a[i] == b[i]
      {
        HexStringLayout(a, i);
        HexStringLayout(b, i);
        assert Token(a[i]) == Token(b[i]);
        ToHexByteRoundTrip(a[i]);
        ToHexByteRoundTrip(b[i]);
        assert ToHexByte(a[i]) == Token(a[i])[2..];
        assert ToHexByte(b[i]) == Token(b[i])[2..];
      }
    }
  }

  /** `[01 AB]` renders as "0x01:0xAB", and an empty array as "". */
  lemma HexStringFixture()
    ensures HexString([0x01, 0xAB]) == "0x01:0xAB"
    ensures HexString([]) == ""
  {
    assert [0x01, 0xAB][..1] == [0x01 as Byte];
  }
}
