/** Octets, JVM integer types, big-endian unsigned numbers and BigInteger.bitLength(). */
module Bytes {

  /** One octet as it travels on the wire. */
  type Byte = bv8

  /** A Kotlin/Java `Byte`: a signed 8-bit integer. */
  type JByte = x: int | -0x80 <= x < 0x80

  /** A Kotlin/Java `Int`: a signed 32-bit integer. */
  type JInt = x: int | -0x8000_0000 <= x < 0x8000_0000

  /** A JVM `ByteArray`: at most Int.MAX_VALUE elements. */
  type ByteArray = s: seq<Byte> | |s| < 0x8000_0000

  datatype Option<+T> = None | Some(value: T)

  datatype Result<+T, +E> = Ok(value: T) | Err(error: E)

  /** The JVM exceptions the core can throw. */
  datatype Exception =
    | StreamCorrupted     // java.io.StreamCorruptedException
    | InvalidObject       // java.io.InvalidObjectException
    | IllegalArgument     // java.lang.IllegalArgumentException
    | NegativeArraySize   // java.lang.NegativeArraySizeException
    | IndexOutOfBounds    // ArrayIndexOutOfBounds / StringIndexOutOfBounds
    | NoSuchElement       // java.util.NoSuchElementException

  function Max(a: int, b: int): int { if a < b then b else a }

  function Min(a: int, b: int): int { if a < b then a else b }

  function Pow2(k: nat): (p: nat)
    ensures p >= 1
  {
    if k == 0 then 1 else 2 * Pow2(k - 1)
  }

  function Pow256(k: nat): (p: nat)
    ensures p >= 1
  {
    if k == 0 then 1 else 256 * Pow256(k - 1)
  }

  /** A freshly allocated JVM byte array of length n. */
  function Zeros(n: nat): (z: seq<Byte>)
    ensures |z| == n
  {
    if n == 0 then [] else Zeros(n - 1) + [0]
  }

  lemma {:induction false} ZerosAreZero(n: nat)
    ensures forall i :: 0 <= i < n ==> Zeros(n)[i] == 0
  {
    if n > 0 {
      ZerosAreZero(n - 1);
    }
  }

  lemma {:induction false} ZerosSuffix(n: nat, k: nat)
    requires k <= n
    ensures Zeros(n)[k..] == Zeros(n - k)
  {
    ZerosAreZero(n);
    ZerosAreZero(n - k);
  }

  /** The JVM's signed view of an octet (`Byte` values of Kotlin and Java). */
  function Signed(b: Byte): JByte
  {
    if b < 0x80 then b as int else b as int - 0x100
  }

  /** The octet holding a signed JVM byte (two's complement). */
  function Octet(x: JByte): Byte
  {
    (x % 0x100) as Byte
  }

  /** `BigInteger(+1, s)`: the octets read as an unsigned big-endian number. */
  function Unsigned(s: seq<Byte>): nat
  {
    if s == [] then 0 else Unsigned(s[..|s| - 1]) * 256 + s[|s| - 1] as nat
  }

  /** The w least significant octets of n, most significant first. */
  function BigEndian(n: nat, w: nat): (r: seq<Byte>)
    ensures |r| == w
  {
    if w == 0 then [] else BigEndian(n / 256, w - 1) + [(n % 256) as Byte]
  }

  /** `BigInteger.bitLength()` of a non-negative value: the number of bits after the leading zeros. */
  function BitLength(n: nat): nat
  {
    if n == 0 then 0 else 1 + BitLength(n / 2)
  }

  /** The least number of octets that holds n. */
  function ByteWidth(n: nat): nat
  {
    if n == 0 then 0 else 1 + ByteWidth(n / 256)
  }

  /** `BigInteger.toByteArray()` of a non-negative value: minimal two's complement, so one sign
      bit more than the magnitude needs. */
  function ToByteArray(n: nat): seq<Byte>
  {
    BigEndian(n, BitLength(n) / 8 + 1)
  }

  /** `BigInteger.toInt()`: the low 32 bits, read as a signed Int. */
  function ToInt(n: int): (r: JInt)
    ensures 0 <= n < 0x8000_0000 ==> r == n
    ensures 0x8000_0000 <= n < 0x1_0000_0000 ==> r == n - 0x1_0000_0000
  {
    var m := n % 0x1_0000_0000;
    if m < 0x8000_0000 then m else m - 0x1_0000_0000
  }

  lemma {:induction false} UnsignedBound(s: seq<Byte>)
    ensures Unsigned(s) < Pow256(|s|)
  {
    if s != [] {
      UnsignedBound(s[..|s| - 1]);
    }
  }

  /** One more octet at the end shifts the value by eight bits. */
  lemma UnsignedAppend(s: seq<Byte>, b: Byte)
    ensures Unsigned(s + [b]) == Unsigned(s) * 256 + b as nat
  {
    assert (s + [b])[..|s|] == s;
  }

  /** The value of one and of two octets. */
  lemma UnsignedShort(a: Byte, b: Byte)
    ensures Unsigned([a]) == a as nat
    ensures Unsigned([a, b]) == a as nat * 256 + b as nat
  {
    assert [a][..0] == [];
    assert [a, b][..1] == [a];
  }

  lemma DivBelow(n: nat, p: nat)
    requires n < 256 * p
    ensures n / 256 < p
  {
  }

  /** An octet holds every value below 256. */
  lemma OctetValue(r: nat)
    requires r < 256
    ensures (r as Byte) as nat == r
  {
    assert r % 256 == r;
  }

  lemma {:induction false} UnsignedBigEndian(n: nat, w: nat)
    requires n < Pow256(w)
    ensures Unsigned(BigEndian(n, w)) == n
  {
    if w > 0 {
      var q, r := n / 256, n % 256;
      DivBelow(n, Pow256(w - 1));
      UnsignedBigEndian(q, w - 1);
      var s := BigEndian(n, w);
      assert s == BigEndian(q, w - 1) + [r as Byte];
      assert s[..|s| - 1] == BigEndian(q, w - 1);
      assert s[|s| - 1] as nat == r by {
        assert s[|s| - 1] == r as Byte;
        OctetValue(r);
      }
      assert Unsigned(s) == Unsigned(s[..|s| - 1]) * 256 + s[|s| - 1] as nat;
    }
  }

  lemma {:induction false} BigEndianOfZero(z: nat)
    ensures BigEndian(0, z) == Zeros(z)
  {
    if z > 0 {
      BigEndianOfZero(z - 1);
    }
  }

  /** Left-padding with zero octets keeps the value. */
  lemma {:induction false} BigEndianPad(n: nat, w: nat, z: nat)
    requires n < Pow256(w)
    ensures BigEndian(n, w + z) == Zeros(z) + BigEndian(n, w)
  {
    if w == 0 {
      BigEndianOfZero(z);
    } else {
      DivBelow(n, Pow256(w - 1));
      BigEndianPad(n / 256, w - 1, z);
      assert BigEndian(n, w + z) == BigEndian(n / 256, w - 1 + z) + [(n % 256) as Byte];
    }
  }

  /** The leading octet is zero exactly when one octet fewer would do. */
  lemma {:induction false} BigEndianLeadingZero(n: nat, w: nat)
    requires w >= 1 && n < Pow256(w)
    ensures BigEndian(n, w)[0] == 0 <==> n < Pow256(w - 1)
  {
    if w == 1 {
      assert BigEndian(n, 1) == [(n % 256) as Byte];
    } else {
      DivBelow(n, Pow256(w - 1));
      BigEndianLeadingZero(n / 256, w - 1);
      assert BigEndian(n, w)[0] == BigEndian(n / 256, w - 1)[0];
      assert n / 256 < Pow256(w - 2) <==> n < Pow256(w - 1);
    }
  }

  lemma {:induction false} BitLengthBounds(n: nat)
    ensures n < Pow2(BitLength(n))
    ensures n > 0 ==> Pow2(BitLength(n) - 1) <= n
  {
    if n > 0 {
      BitLengthBounds(n / 2);
    }
  }

  lemma {:induction false} ByteWidthBounds(n: nat)
    ensures n < Pow256(ByteWidth(n))
    ensures n > 0 ==> Pow256(ByteWidth(n) - 1) <= n
  {
    if n > 0 {
      ByteWidthBounds(n / 256);
    }
  }

  lemma {:induction false} Pow2Monotone(a: nat, b: nat)
    requires a <= b
    ensures Pow2(a) <= Pow2(b)
  {
    if a < b {
      Pow2Monotone(a, b - 1);
    }
  }

  lemma {:induction false} Pow2Octets(k: nat)
    ensures Pow2(8 * k) == Pow256(k)
  {
    if k > 0 {
      Pow2Octets(k - 1);
      var p := Pow2(8 * (k - 1));
      assert Pow2(8 * k) == 256 * p by {
        assert Pow2(8 * k) == 2 * Pow2(8 * k - 1);
        assert Pow2(8 * k - 1) == 2 * Pow2(8 * k - 2);
        assert Pow2(8 * k - 2) == 2 * Pow2(8 * k - 3);
        assert Pow2(8 * k - 3) == 2 * Pow2(8 * k - 4);
        assert Pow2(8 * k - 4) == 2 * Pow2(8 * k - 5);
        assert Pow2(8 * k - 5) == 2 * Pow2(8 * k - 6);
        assert Pow2(8 * k - 6) == 2 * Pow2(8 * k - 7);
        assert Pow2(8 * k - 7) == 2 * p;
      }
    }
  }

  /** A value of bit length b needs ceil(b / 8) octets. */
  lemma ByteWidthFromBitLength(n: nat)
    ensures ByteWidth(n) == (BitLength(n) + 7) / 8
  {
    if n > 0 {
      var b, w := BitLength(n), ByteWidth(n);
      BitLengthBounds(n);
      ByteWidthBounds(n);
      Pow2Octets(w);
      Pow2Octets(w - 1);
      if b > 8 * w {
        Pow2Monotone(8 * w, b - 1);
        assert false;
      }
      if b <= 8 * (w - 1) {
        Pow2Monotone(b, 8 * (w - 1));
        assert false;
      }
    }
  }

  /** The bit length is at most k exactly when the value is below 2^k. */
  lemma BitLengthAtMost(n: nat, k: nat)
    ensures BitLength(n) <= k <==> n < Pow2(k)
  {
    BitLengthBounds(n);
    if BitLength(n) <= k {
      Pow2Monotone(BitLength(n), k);
    } else {
      Pow2Monotone(k, BitLength(n) - 1);
    }
  }

  lemma Pow2Of31()
    ensures Pow2(31) == 0x8000_0000
  {
    Pow2Octets(4);
    assert Pow256(4) == 0x1_0000_0000;
  }

  /** `length.bitLength() > Integer.SIZE - 1` holds exactly for lengths that do not fit an Int. */
  lemma LargeIff(n: nat)
    ensures BitLength(n) > 31 <==> n >= 0x8000_0000
  {
    BitLengthAtMost(n, 31);
    Pow2Of31();
  }

  /** `toByteArray()` of a positive value is its minimal magnitude, preceded by one zero sign
      octet exactly when the bit length is a multiple of 8. */
  lemma ToByteArrayShape(n: nat)
    requires n > 0
    ensures var a := ToByteArray(n);
      && (BitLength(n) % 8 == 0 ==> a == [0] + BigEndian(n, ByteWidth(n)))
      && (BitLength(n) % 8 != 0 ==> a == BigEndian(n, ByteWidth(n)) && a[0] != 0)
  {
    var b, w := BitLength(n), ByteWidth(n);
    ByteWidthFromBitLength(n);
    ByteWidthBounds(n);
    if b % 8 == 0 {
      assert b / 8 + 1 == w + 1;
      BigEndianPad(n, w, 1);
      assert Zeros(1) == [0];
    } else {
      assert b / 8 + 1 == w;
      BigEndianLeadingZero(n, w);
    }
  }
}
