# keiji TLV codecs in Dafny

This project models the binary TLV codecs of the `tlv` runtime library and a few pure helpers of
the `tlv-ksp` annotation processor:

- **BER-TLV, three generations side by side.**
  - The current Kotlin decoder and encoder (`BerTlvDecoder.kt` and `BerTlvEncoder.kt`) have
    partial-read retry, the unknown-length callback, the `00 00` end-of-contents marker and
    long-form padding.
  - The older Java pair (`BerTlvDecoder.java` and `BerTlvEncoder.java`) has a retry loop, no end
    marker and no unknown length.
  - The oldest pair (`tlv-ksp/.../BerTlvDecoder.kt` and `BerTlvEncoder.kt`) reads each field
    with a single `read`.

  Identifier octets follow the high-tag-number form of section 8.1.2.4 of ITU-T X.690. Length
  octets follow sections 8.1.3.4 to 8.1.3.6 of X.690.
- **COMPACT-TLV of ISO/IEC 7816-4.** A 4-bit tag and a 4-bit length share one header octet.
- **Pure helpers.**
  - The Nop, Byte and Boolean type converters.
  - The hex formatter of `Utils.java`.
  - The comparator, tag validator and `stripPackage` of `tlv-ksp/.../Utils.kt`.
  - The tag range check of `CompactTlvEncoderProcessor`.

How the model is built:

- **Input.** An `InputStream` is a class holding the unread octets and a sequence of per-call
  caps. The caps model a transport that delivers fewer octets than asked for, as the
  `FragmentedInputStream` of the tests does. `read()` ignores the caps.
  `read(buf, off, n)` behaves as follows:
  - it returns 0 for `n == 0`;
  - otherwise it returns -1 at the end of the input;
  - otherwise it returns at least one and at most `n` octets, and at most the next cap.
- **Output and callbacks.** An `OutputStream` is an appended sequence. A callback is a
  `Recorder` whose `events` field lists `Item`, `UnknownLength` and `Large` events in order.
- **Numbers.** `BigInteger` lengths are `nat`, with `BitLength`, `ByteWidth` and `ToByteArray`
  defined on them.
- **Decoders.** Every decoder is a `method` with the source's loops. It is proved equal to a
  function `Decode(Source)`, which turns the input into the events, the exception and the
  unread input. The properties are lemmas about those functions.
- **Encoders.** The `convertToLength` functions are pure. The `writeTo` methods append to the
  sink.
- **Round trips.** `round_trips.dfy` relates each encoder to its decoder.

## Model

| member | source | states |
|---|---|---|
| Streams.Fill | tlv/src/main/java/dev/keiji/tlv/BerTlvDecoder.kt:75-93 | The retry-loop read of n octets consumes input. When it succeeds it gives exactly n octets, and its only exception is StreamCorruptedException. |
| Streams.ReadFully | tlv/src/main/java/dev/keiji/tlv/BerTlvDecoder.kt:75-93 | The retry loop that fills an n-octet buffer with `read(buf, offset, n - offset)` ends in the state and result `Fill` gives. |
| Streams.FillReadsExactly | tlv/src/main/java/dev/keiji/tlv/BerTlvDecoder.kt:75-93 | A retry-loop read of n octets succeeds iff n octets are left, whatever the fragmentation. It then returns exactly the next n octets and leaves the rest. Otherwise it is StreamCorruptedException with the input drained. |
| Streams.FillUnfragmented | tlv/src/main/java/dev/keiji/tlv/BerTlvDecoder.kt:75-93 | On an unfragmented input the read returns the next n octets. |
| BerCommon.TagField | tlv/src/main/java/dev/keiji/tlv/BerTlvDecoder.kt:95-119 | A tag read returns a well-formed tag that is a prefix of the input and leaves the rest. It returns null exactly when the input ends inside a tag, and then the input is drained. |
| BerCommon.ReadTagFieldBytes | tlv/src/main/java/dev/keiji/tlv/BerTlvDecoder.kt:95-119 | The octet-by-octet loop of `readTagFieldBytes` returns the tag of `TagField` and consumes exactly its octets. |
| BerCommon.TagFieldSingle | tlv/src/main/java/dev/keiji/tlv/BerTlvDecoder.kt:104-110 | A first octet whose low five bits are not all set is a one-octet tag. |
| BerCommon.TagFieldComplete | tlv/src/main/java/dev/keiji/tlv/BerTlvDecoder.kt:111-117 | Every well-formed tag, followed by anything, is read back whole and nothing more. |
| BerCommon.TagFieldNone | tlv/src/main/java/dev/keiji/tlv/BerTlvDecoder.kt:99-102 | The tag read returns null iff the input ends before a tag is complete. |
| BerCommon.TagFieldFixture | tlv/src/test/java/dev/keiji/tlv/BerTlvDecoderTest.kt:38-49 | `7F 84 74 01` gives the tag `7F 84 74` and leaves `01`. `7F 84` gives null. |
| BerCommon.Recorder.OnItemDetected | tlv/src/main/java/dev/keiji/tlv/BerTlvDecoder.kt:179-216 | The callback records the item event after the earlier ones. |
| BerDecoderKt.LengthFieldBytes | tlv/src/main/java/dev/keiji/tlv/BerTlvDecoder.kt:121-161 | Reading the length field consumes input, and consumes at least one octet when it succeeds. |
| BerDecoderKt.LengthFieldFill | tlv/src/main/java/dev/keiji/tlv/BerTlvDecoder.kt:148-159 | The as-written long-form loop consumes input. When it succeeds it gives exactly the octets it was asked for, and its only exception is StreamCorruptedException. |
| BerDecoderKt.ReadLengthFieldBytes | tlv/src/main/java/dev/keiji/tlv/BerTlvDecoder.kt:121-161 | The method with its retry loop ends in the state and result `LengthFieldBytes` gives. |
| BerDecoderKt.FillLengthFieldBytes | tlv/src/main/java/dev/keiji/tlv/BerTlvDecoder.kt:148-159 | The long-form retry loop fills the buffer after the descriptor as `LengthFieldFill` says. It compares against `fieldLength - offset`, so a read one octet short ends the loop. |
| BerDecoderKt.LengthFieldFillReads | tlv/src/main/java/dev/keiji/tlv/BerTlvDecoder.kt:148-159 | What the loop as written delivers. Every read that is one octet short of the rest ends the field with a zero octet. The end of the input before the last octet is StreamCorruptedException. |
| BerDecoderKt.LengthFieldBytesShort | tlv/src/main/java/dev/keiji/tlv/BerTlvDecoder.kt:121-135 | A lone `80` is null after one octet. An octet below `80` is a one-octet field. |
| BerDecoderKt.LengthFieldBytesLong | tlv/src/main/java/dev/keiji/tlv/BerTlvDecoder.kt:132-160 | A descriptor announcing more than 126 octets is InvalidObjectException. Otherwise the field is the descriptor followed by the loop's octets, or the loop's exception. |
| BerDecoderKt.MsbMask | tlv/src/main/java/dev/keiji/tlv/BerTlvDecoder.kt:128-138 | The mask and xor tests on the first length octet are comparisons with `80` and a subtraction of `80`. |
| BerDecoderKt.ReadLength | tlv/src/main/java/dev/keiji/tlv/BerTlvDecoder.kt:163-172 | `readLength` ends in the state and result `LengthOf` gives. |
| BerDecoderKt.LengthOf | tlv/src/main/java/dev/keiji/tlv/BerTlvDecoder.kt:163-172 | Reading a length consumes input, and consumes at least one octet when it succeeds. |
| BerDecoderKt.LengthOfCases | tlv/src/main/java/dev/keiji/tlv/BerTlvDecoder.kt:121-140 | The length rules: end of input is StreamCorruptedException; `80` is an unknown length after one octet; an octet below `80` is the length; more than 126 following octets is InvalidObjectException. |
| BerDecoderKt.LengthOfLong | tlv/src/main/java/dev/keiji/tlv/BerTlvDecoder.kt:163-171 | On an unfragmented input, a long-form length is the unsigned big-endian value of the k following octets. Later octets are left unread. |
| BerDecoderKt.LengthOfFixture | tlv/src/test/java/dev/keiji/tlv/BerTlvDecoderTest.kt:71-79 | `82 FF 01` is 0xFF01, and the `05` after it stays unread. |
| BerDecoderKt.LengthOfLargest | tlv/src/main/java/dev/keiji/tlv/BerTlvDecoder.kt:163-171 | `84 80 00 00 00` reads as 2^31. |
| BerDecoderKt.ReadValueFieldBytes | tlv/src/main/java/dev/keiji/tlv/BerTlvDecoder.kt:75-93 | `readValueFieldBytes` ends in the state and result `ValueFieldBytes` gives. |
| BerDecoderKt.ValueFieldBytes | tlv/src/main/java/dev/keiji/tlv/BerTlvDecoder.kt:75-93 | The value read consumes input. It gives `length.toInt()` octets when it succeeds. It is NegativeArraySizeException exactly when `toInt()` is negative, and otherwise fails only at the end of the input. |
| BerDecoderKt.ValueFieldBytesReads | tlv/src/main/java/dev/keiji/tlv/BerTlvDecoder.kt:75-93 | The value is exactly the next n octets across partial reads. The end of input before that is StreamCorruptedException. A length whose `toInt()` is negative is NegativeArraySizeException. |
| BerDecoderKt.NextItemAfterTag | tlv/src/main/java/dev/keiji/tlv/BerTlvDecoder.kt:50-72 | After a well-formed tag, one turn of `readFrom` depends only on what follows the tag. |
| BerDecoderKt.ItemAfterTag | tlv/src/main/java/dev/keiji/tlv/BerTlvDecoder.kt:54-71 | A callback after the tag consumes input and carries that tag. A large item has a length of 2^31 or more, and an item value has fewer than 2^31 octets. |
| BerDecoderKt.ItemAfterLength | tlv/src/main/java/dev/keiji/tlv/BerTlvDecoder.kt:61-71 | For every definite length n: `00` with length 0 ends the decoding; n ≥ 2^31 gives `onLargeItemDetected` with n and reads nothing; any other n reads exactly n octets through the retry loop, or stops with its exception. |
| BerDecoderKt.ReadItem | tlv/src/main/java/dev/keiji/tlv/BerTlvDecoder.kt:50-72 | One loop turn consumes what `NextItem` consumes. It either stops with `NextItem`'s exception and no callback, or records exactly `NextItem`'s event. |
| BerDecoderKt.ReadFrom | tlv/src/main/java/dev/keiji/tlv/BerTlvDecoder.kt:46-73 | `readFrom` appends exactly the events of `Decode`, in order, and ends with its exception and unread input. |
| BerDecoderKt.Decode | tlv/src/main/java/dev/keiji/tlv/BerTlvDecoder.kt:46-73 | Every callback consumes input, so there are at most as many callbacks as octets. A decoding that ends without an exception has either read the whole input or stopped right after a `00` tag of length 0 (`BerDecoderKt.DecodeEndsClean` states this). |
| BerDecoderKt.DecodeEndsClean | tlv/src/main/java/dev/keiji/tlv/BerTlvDecoder.kt:50-63 | A decoding that ends without an exception has either read the whole input, or its last turn read the tag `00` and a length field of value 0 and stopped right after it, leaving the rest unread. |
| BerDecoderKt.DecodeTruncatedTag | tlv/src/main/java/dev/keiji/tlv/BerTlvDecoder.kt:51-52 | The end of the input, even inside a multi-octet tag, ends `readFrom` without an exception or a callback. |
| BerDecoderKt.DecodeEndOfContents | tlv/src/main/java/dev/keiji/tlv/BerTlvDecoder.kt:61-63 | `00 00` stops `readFrom` with no callback, and what follows stays unread. |
| BerDecoderKt.DecodeUnknownLength | tlv/src/main/java/dev/keiji/tlv/BerTlvDecoder.kt:54-58 | A tag followed by `80` gives `onUnknownLengthItemDetected`, and decoding continues right after the `80` without reading a value. |
| BerDecoderKt.DecodeLarge | tlv/src/main/java/dev/keiji/tlv/BerTlvDecoder.kt:65-71 | For every tag and every length of 2^31 or more, `readFrom` calls `onLargeItemDetected` with that length, reads no value and goes on right after the length field. |
| BerDecoderKt.DecodeLargeItem | tlv/src/main/java/dev/keiji/tlv/BerTlvDecoder.kt:65-71 | The smallest large length, `84 80 00 00 00`, gives `onLargeItemDetected` with 2^31. |
| BerDecoderKt.LengthFieldOneShort | tlv/src/main/java/dev/keiji/tlv/BerTlvDecoder.kt:148-159 | As written, a read of one octet for the field `82 FF 01` ends the loop early. The length is 0xFF00 and `01` is left in the input. |
| BerDecoderKt.LengthFieldAtEnd | tlv/src/main/java/dev/keiji/tlv/BerTlvDecoder.kt:148-159 | As written, the field `82 FF` at the end of the input reads as 0xFF00 with no exception. |
| BerDecoderKt.LengthOfIntendedLong | tlv/src/main/java/dev/keiji/tlv/BerTlvDecoder.kt:121-172 | With the retry loop comparing against what it requested, a long-form length is the k following octets however the input is fragmented. A field cut short is StreamCorruptedException. |
| BerDecoderKt.LengthOfIntended | tlv/src/main/java/dev/keiji/tlv/BerTlvDecoder.kt:121-172 | The corrected length read, with the retry loop comparing against what it requested, consumes input. |
| BerEncoderKt.CopyInto | tlv/src/main/java/dev/keiji/tlv/BerTlvEncoder.kt:115-128 | `copyInto` succeeds iff the ranges fit. It then replaces exactly the destination range with the source range. Otherwise it is IndexOutOfBoundsException. |
| BerEncoderKt.ConvertToLength | tlv/src/main/java/dev/keiji/tlv/BerTlvEncoder.kt:88-133 | A negative size or a bit length above 1008 is IllegalArgumentException. A field that is written is not empty, and its first octet is below `80` iff the size is below 128, so the short and long forms are never confused. |
| BerEncoderKt.ConvertToLengthErrors | tlv/src/main/java/dev/keiji/tlv/BerTlvEncoder.kt:92-95 | `convertToLength` throws IllegalArgumentException exactly for a negative size and for a bit length above 1008. |
| BerEncoderKt.ConvertToLengthShort | tlv/src/main/java/dev/keiji/tlv/BerTlvEncoder.kt:97-102 | A size below 128 is one octet equal to the size, whatever the padding argument. |
| BerEncoderKt.ConvertToLengthLong | tlv/src/main/java/dev/keiji/tlv/BerTlvEncoder.kt:104-132 | A larger size is `80 or L` followed by the size right-aligned in L octets with zero padding, where L is the larger of its width and the padding argument. The descriptor keeps the low eight bits of `80 or L`. |
| BerEncoderKt.LongDefinitionCopy | tlv/src/main/java/dev/keiji/tlv/BerTlvEncoder.kt:115-128 | The copy drops the sign octet of `toByteArray()` and right-aligns the magnitude in the zero-filled buffer. |
| BerEncoderKt.NoIndefiniteForm | tlv/src/main/java/dev/keiji/tlv/BerTlvEncoder.kt:97-132 | With padding up to 126, the encoder never writes a lone `80`. A short field is the size. A long field announces exactly the octets that follow, and they hold the size. |
| BerEncoderKt.ConvertToLengthShortFixtures | tlv/src/test/java/dev/keiji/tlv/BerTlvEncoderTest.kt:10-32 | 126 is `7E` and -1 throws IllegalArgumentException, as the tests expect. The edges 0 and 127 (with padding 2) are one octet too. |
| BerEncoderKt.ConvertToLength128 | tlv/src/test/java/dev/keiji/tlv/BerTlvEncoderTest.kt:17-22 | 128 is `81 80`, and 128 with padding 2 is `82 00 80` (the padded test is the next row's). |
| BerEncoderKt.ConvertToLength128Unpadded | tlv/src/test/java/dev/keiji/tlv/BerTlvEncoderTest.kt:17-22 | 128 is `81 80`. |
| BerEncoderKt.ConvertToLength128Padded | tlv/src/test/java/dev/keiji/tlv/BerTlvEncoderTest.kt:108-112 | 128 with a minimum of two length octets is `82 00 80`. |
| BerEncoderKt.ConvertToLength259 | tlv/src/test/java/dev/keiji/tlv/BerTlvEncoderTest.kt:34-39 | 259 is `82 01 03`. |
| BerEncoderKt.WriteTo | tlv/src/main/java/dev/keiji/tlv/BerTlvEncoder.kt:37-46 | The three arrays are appended as given. |
| BerEncoderKt.WriteValueTo | tlv/src/main/java/dev/keiji/tlv/BerTlvEncoder.kt:55-66 | A null value writes nothing. Otherwise the sink grows by the tag, `convertToLength(value.size, atLeast)` and the value. |
| BerDecoderJava.LengthOf | tlv/src/main/java/dev/keiji/tlv/BerTlvDecoder.java:92-124 | Reading a length consumes input, and consumes at least one octet when it succeeds. |
| BerDecoderJava.ReadLength | tlv/src/main/java/dev/keiji/tlv/BerTlvDecoder.java:92-124 | `readLength` with its retry loop ends in the state and result `LengthOf` gives. |
| BerDecoderJava.LengthOfCases | tlv/src/main/java/dev/keiji/tlv/BerTlvDecoder.java:92-124 | End of input is StreamCorruptedException, and an octet below `80` is the length. `80` is the long form with no octets, which gives length 0. More than 126 octets is InvalidObjectException. |
| BerDecoderJava.LengthOfLong | tlv/src/main/java/dev/keiji/tlv/BerTlvDecoder.java:104-122 | The long form reads exactly k octets across partial reads. The end of input first is StreamCorruptedException. |
| BerDecoderJava.AgreesWithIntended | tlv/src/main/java/dev/keiji/tlv/BerTlvDecoder.java:92-124 | Apart from `80`, the older `readLength` gives what the current decoder's corrected length reader gives, on every input. |
| BerDecoderJava.ReadData | tlv/src/main/java/dev/keiji/tlv/BerTlvDecoder.java:126-141 | `readData` returns exactly the next n octets, or StreamCorruptedException, as the current value reader does. |
| BerDecoderJava.ReadItem | tlv/src/main/java/dev/keiji/tlv/BerTlvDecoder.java:45-60 | One loop turn consumes what `NextItem` consumes and records exactly its event, or stops with its exception. |
| BerDecoderJava.ReadFrom | tlv/src/main/java/dev/keiji/tlv/BerTlvDecoder.java:34-62 | A null stream or callback throws IllegalArgumentException before any read. Otherwise `readFrom` appends exactly the events of `Decode`. |
| BerDecoderJava.DecodeZeroItem | tlv/src/main/java/dev/keiji/tlv/BerTlvDecoder.java:45-60 | There is no end marker: `00 00` is an empty item with tag `00`, and decoding goes on. |
| BerDecoderJava.DecodeIndefiniteAsEmpty | tlv/src/main/java/dev/keiji/tlv/BerTlvDecoder.java:98-122 | There is no unknown length: a tag followed by `80` is an empty item. |
| BerDecoderJava.DecodeShortItem | tlv/src/main/java/dev/keiji/tlv/BerTlvDecoder.java:45-60 | A short-form item is delivered as its tag and value. |
| BerDecoderJava.DecodeTruncatedTag | tlv/src/main/java/dev/keiji/tlv/BerTlvDecoder.java:64-90 | The end of the input inside a tag ends `readFrom` without an exception. |
| BerDecoderJava.ItemAfterTag | tlv/src/main/java/dev/keiji/tlv/BerTlvDecoder.java:51-59 | A callback after the tag consumes input and carries that tag. A large item has a length of 2^31 or more, and an item value has fewer than 2^31 octets. |
| BerDecoderJava.ItemAfterLength | tlv/src/main/java/dev/keiji/tlv/BerTlvDecoder.java:53-59 | For every length n: n ≥ 2^31 gives `onLargeItemDetected` with n and reads nothing; any other n reads exactly n octets with `readData`, or stops with its exception. |
| BerDecoderJava.DecodeLarge | tlv/src/main/java/dev/keiji/tlv/BerTlvDecoder.java:53-59 | For every tag and every length of 2^31 or more, `readFrom` calls `onLargeItemDetected` with that length, reads no value and goes on right after the length field. |
| BerDecoderJava.Decode | tlv/src/main/java/dev/keiji/tlv/BerTlvDecoder.java:34-62 | Every callback consumes input, so there are at most as many callbacks as octets. A decoding that ends without an exception has read the whole input. |
| BerEncoderJava.ConvertToLength | tlv/src/main/java/dev/keiji/tlv/BerTlvEncoder.java:43-73 | A negative size or a bit length above 1008 is IllegalArgumentException, and nothing else is. A field that is written is not empty, and its first octet is below `80` iff the size is below 128. |
| BerEncoderJava.ConvertToLengthShort | tlv/src/main/java/dev/keiji/tlv/BerTlvEncoder.java:52-57 | A size below 128 is `toByteArray()`, one octet equal to the size. |
| BerEncoderJava.ConvertToLengthLong | tlv/src/main/java/dev/keiji/tlv/BerTlvEncoder.java:59-72 | A larger size is the descriptor `80 or ((b + (b % 8 == 0 ? 0 : 1)) / 8)` followed by the magnitude octets without the sign octet. |
| BerEncoderJava.DescriptorOctetsCount | tlv/src/main/java/dev/keiji/tlv/BerTlvEncoder.java:61-64 | The descriptor announces the number of magnitude octets when b % 8 is 0 or 7, and one fewer otherwise. |
| BerEncoderJava.AgreesWithCurrent | tlv/src/main/java/dev/keiji/tlv/BerTlvEncoder.java:43-73 | The older encoder writes what the current one writes without padding iff the size is below 128 or its bit length is 0 or 7 modulo 8. |
| BerEncoderJava.ConvertToLength128 | tlv/src/test/java/dev/keiji/tlv/BerTlvEncoderTest.java:16-21 | 128 is `81 80`. |
| BerEncoderJava.ConvertToLength259 | tlv/src/main/java/dev/keiji/tlv/BerTlvEncoder.java:61-69 | 259 is `81 01 03`: the descriptor announces one octet for two. |
| BerEncoderJava.WriteTo | tlv/src/main/java/dev/keiji/tlv/BerTlvEncoder.java:10-19 | The three arrays are appended as given. |
| BerEncoderJava.WriteContentTo | tlv/src/main/java/dev/keiji/tlv/BerTlvEncoder.java:21-33 | A null content writes nothing. Otherwise the sink grows by the tag, the length field of the content's size and the content. |
| BerDecoderKsp.SingleRead | tlv-ksp/src/main/java/dev/keiji/tlv/BerTlvDecoder.kt:142-144 | A single `read` into an n-octet buffer gives n octets and consumes input. |
| BerDecoderKsp.SingleReadUnfragmented | tlv-ksp/src/main/java/dev/keiji/tlv/BerTlvDecoder.kt:142-144 | Unfragmented, a single read gives the next n octets. Past the end of the input the undelivered octets stay zero, and there is no error. |
| BerDecoderKsp.SingleReadFixture | tlv-ksp/src/main/java/dev/keiji/tlv/BerTlvDecoder.kt:87-90 | A transport delivering one octet leaves `AA 00` for a two-octet value. |
| BerDecoderKsp.ReadOnce | tlv-ksp/src/main/java/dev/keiji/tlv/BerTlvDecoder.kt:87-90 | The single read into a fresh array returns what `SingleRead` gives. |
| BerDecoderKsp.ReadLength | tlv-ksp/src/main/java/dev/keiji/tlv/BerTlvDecoder.kt:127-146 | `readLength` ends in the state and result `LengthOf` gives. |
| BerDecoderKsp.LengthOfCases | tlv-ksp/src/main/java/dev/keiji/tlv/BerTlvDecoder.kt:127-146 | End of input is StreamCorruptedException, and an octet below `80` is the length. `80` gives 0. More than 126 octets is InvalidObjectException. |
| BerDecoderKsp.LengthOfLong | tlv-ksp/src/main/java/dev/keiji/tlv/BerTlvDecoder.kt:142-145 | The long form is the big-endian value of one read of k octets. Octets missing at the end of the input count as zero, without an exception. |
| BerDecoderKsp.LengthOfTruncatedFixture | tlv-ksp/src/main/java/dev/keiji/tlv/BerTlvDecoder.kt:142-145 | `82 FF` at the end of the input reads as 0xFF00. |
| BerDecoderKsp.Dispatch | tlv-ksp/src/main/java/dev/keiji/tlv/BerTlvDecoder.kt:79-94 | Dispatching always delivers an event for the tag and never raises an exception. The event is `onLargeItemDetected` with the length iff the length is 2^31 or more; otherwise the value has exactly that many octets. |
| BerDecoderKsp.DispatchCases | tlv-ksp/src/main/java/dev/keiji/tlv/BerTlvDecoder.kt:85-93 | For every length n: n ≥ 2^31 gives `onLargeItemDetected` with n and reads nothing; any other n delivers one single read of n octets. |
| BerDecoderKsp.DecodeLarge | tlv-ksp/src/main/java/dev/keiji/tlv/BerTlvDecoder.kt:85-93 | For every tag and every length of 2^31 or more, `readFrom` calls `onLargeItemDetected` with that length, reads no value and goes on right after the length field. |
| BerDecoderKsp.ItemAfterTag | tlv-ksp/src/main/java/dev/keiji/tlv/BerTlvDecoder.kt:62-69 | A callback after the tag consumes input and carries that tag. A large item has a length of 2^31 or more, and an item value has fewer than 2^31 octets. |
| BerDecoderKsp.DispatchOnItemDetected | tlv-ksp/src/main/java/dev/keiji/tlv/BerTlvDecoder.kt:79-94 | A large length gives `onLargeItemDetected`. Otherwise a single read of n octets is delivered, trailing zeros included. |
| BerDecoderKsp.IsPrimitiveTagBit | tlv-ksp/src/main/java/dev/keiji/tlv/BerTlvDecoder.kt:73-77 | A tag is primitive iff bit 5 (`20`) of its first octet is clear. An empty tag throws. |
| BerDecoderKsp.IsPrimitiveTag | tlv-ksp/src/main/java/dev/keiji/tlv/BerTlvDecoder.kt:73-77 | `isPrimitiveTag` throws IndexOutOfBoundsException iff the tag is empty. |
| BerDecoderKsp.ReadFrom | tlv-ksp/src/main/java/dev/keiji/tlv/BerTlvDecoder.kt:48-71 | The state loop over a nullable tag and length appends exactly the events of `Decode`. |
| BerDecoderKsp.Decode | tlv-ksp/src/main/java/dev/keiji/tlv/BerTlvDecoder.kt:48-71 | Every callback consumes input, so there are at most as many callbacks as octets. A decoding that ends without an exception has read the whole input. |
| BerDecoderKsp.DecodeShortItem | tlv-ksp/src/main/java/dev/keiji/tlv/BerTlvDecoder.kt:52-70 | Unfragmented, a short-form item is delivered as its tag and value, and decoding goes on. |
| BerDecoderKsp.DecodeShortRead | tlv-ksp/src/main/java/dev/keiji/tlv/BerTlvDecoder.kt:79-94 | When the value read comes up short, the item is delivered with a zero octet. The octet left over is read as the next tag, and its length read fails. |
| BerDecoderKsp.DecodeTruncatedTag | tlv-ksp/src/main/java/dev/keiji/tlv/BerTlvDecoder.kt:56-60 | The end of the input inside a tag ends the loop without an exception. |
| BerEncoderKsp.SameAsJava | tlv-ksp/src/main/java/dev/keiji/tlv/BerTlvEncoder.kt:40-69 | The oldest `convertToLength` gives what the Java one gives for every size, including its descriptor arithmetic. |
| BerEncoderKsp.ConvertToLength | tlv-ksp/src/main/java/dev/keiji/tlv/BerTlvEncoder.kt:40-69 | A negative size or a bit length above 1008 is IllegalArgumentException, and nothing else is. A field that is written is not empty, and its first octet is below `80` iff the size is below 128. |
| BerEncoderKsp.WriteTo | tlv-ksp/src/main/java/dev/keiji/tlv/BerTlvEncoder.kt:9-18 | The three arrays are appended as given. |
| BerEncoderKsp.WriteContentTo | tlv-ksp/src/main/java/dev/keiji/tlv/BerTlvEncoder.kt:20-30 | A null content writes nothing. Otherwise the sink grows by the tag, `convertToLength(content.size)` and the content. |
| RoundTrips.KtLengthRoundTrip | tlv/src/main/java/dev/keiji/tlv/BerTlvEncoder.kt:88-133 | With padding up to 126, the current decoder's `readLength` reads every length the current encoder writes, and nothing after it. The corrected reader does so on a fragmented input too. |
| RoundTrips.JavaLengthRoundTrip | tlv/src/main/java/dev/keiji/tlv/BerTlvEncoder.java:43-73 | When the bit length is at most 7, or 0 or 7 modulo 8, the Java decoder reads back what the Java encoder writes. |
| RoundTrips.JavaLengthMisread | tlv/src/main/java/dev/keiji/tlv/BerTlvEncoder.java:61-64 | For every other size the Java decoder reads `size / 256`, a different length, and leaves the last octet of the size as input. |
| RoundTrips.JavaLength259 | tlv/src/main/java/dev/keiji/tlv/BerTlvEncoder.java:61-69 | 259 is written `81 01 03` and read back as 1, with `03` left over. |
| RoundTrips.KspLengthRoundTrip | tlv-ksp/src/main/java/dev/keiji/tlv/BerTlvEncoder.kt:40-69 | For the same sizes the oldest decoder reads back what the oldest encoder writes. |
| RoundTrips.KspLengthMisread | tlv-ksp/src/main/java/dev/keiji/tlv/BerTlvEncoder.kt:57-67 | For every other size the oldest decoder reads `size / 256` and leaves the last octet of the size. |
| RoundTrips.KtItemRoundTrip | tlv/src/main/java/dev/keiji/tlv/BerTlvEncoder.kt:55-66 | One item the current encoder writes, except the empty item with tag `00`, is decoded back as that item, and nothing after it is read. |
| RoundTrips.KtDecodeAll | tlv/src/main/java/dev/keiji/tlv/BerTlvDecoder.kt:46-73 | A sequence of items written by the current encoder decodes to those items, in order, followed by the decoding of what comes after them. |
| RoundTrips.KtListRoundTrip | tlv/src/main/java/dev/keiji/tlv/BerTlvDecoder.kt:46-73 | The encoding of a list decodes to exactly that list with no exception. With `00 00` appended, decoding stops there and leaves the rest unread. |
| RoundTrips.CompactItemRoundTrip | tlv/src/main/java/dev/keiji/tlv/CompactTlvEncoder.kt:63-71 | What the two-argument `writeTo` writes for one item decodes back to that item when its tag and length fit four bits and the value is non-empty. Otherwise it decodes to nothing. |
| RoundTrips.CompactDecodeAll | tlv/src/main/java/dev/keiji/tlv/CompactTlvDecoder.kt:37-57 | The encoding of a list decodes to the kept items, in order, followed by what comes after. |
| RoundTrips.CompactListRoundTrip | tlv/src/main/java/dev/keiji/tlv/CompactTlvDecoder.kt:37-57 | On any fragmentation, the encoding of a list decodes to exactly the items the encoder keeps, with no exception and nothing left. |
| CompactDecoder.ReadTag | tlv/src/main/java/dev/keiji/tlv/CompactTlvDecoder.kt:78 | The tag is the high nibble, in [0, 15]. |
| CompactDecoder.ReadLength | tlv/src/main/java/dev/keiji/tlv/CompactTlvDecoder.kt:80 | The length is the low nibble, in [0, 15]. |
| CompactDecoder.NibbleSplit | tlv/src/main/java/dev/keiji/tlv/CompactTlvDecoder.kt:78-80 | The two nibbles recompose the header octet. |
| CompactDecoder.NibbleFixture | tlv/src/test/java/dev/keiji/tlv/CompactTlvDecoderTest.kt:13-50 | `1F` is (1, 15), `10` is (1, 0) and `FF` is (15, 15). |
| CompactDecoder.ReadValue | tlv/src/main/java/dev/keiji/tlv/CompactTlvDecoder.kt:59-76 | `readValue` is the retry-loop read of `Fill`. A negative length is NegativeArraySizeException. |
| CompactDecoder.ReadFrom | tlv/src/main/java/dev/keiji/tlv/CompactTlvDecoder.kt:37-57 | `readFrom` records exactly the items of `Decode`, in order, and ends with its exception and unread input. |
| CompactDecoder.Decode | tlv/src/main/java/dev/keiji/tlv/CompactTlvDecoder.kt:37-57 | Every callback consumes input, so there are at most as many callbacks as octets. A decoding that ends without an exception has read the whole input. |
| CompactDecoder.DecodeEmpty | tlv/src/main/java/dev/keiji/tlv/CompactTlvDecoder.kt:42-45 | Empty input gives no callback and no exception. |
| CompactDecoder.DecodeSkipsEmpty | tlv/src/main/java/dev/keiji/tlv/CompactTlvDecoder.kt:50-52 | A header with length 0 is skipped with no callback and no value read. |
| CompactDecoder.DecodeItem | tlv/src/main/java/dev/keiji/tlv/CompactTlvDecoder.kt:41-56 | A header with length n delivers its tag with exactly the next n octets, and decoding goes on after them. |
| CompactDecoder.DecodeStep | tlv/src/main/java/dev/keiji/tlv/CompactTlvDecoder.kt:41-56 | One loop turn: skip an empty header; stop with the value read's exception; or deliver the item and go on. |
| CompactDecoder.DecodeTruncated | tlv/src/main/java/dev/keiji/tlv/CompactTlvDecoder.kt:67-69 | The end of the input inside a value is StreamCorruptedException, with no callback for that item. |
| CompactDecoder.DecodeUnfragmented | tlv/src/main/java/dev/keiji/tlv/CompactTlvDecoder.kt:59-76 | The items, the exception and the unread input do not depend on how the transport fragments the input. |
| CompactDecoder.DecodeFixture | tlv/src/test/java/dev/keiji/tlv/CompactTlvDecoderTest.kt:52-70 | `11 01 22 01 02` gives (1, `01`) and then (2, `01 02`), and so does that input with `00` in front. |
| CompactDecoder.DecodeOneOctetPerRead | tlv/src/test/java/dev/keiji/tlv/CompactTlvDecoderTest.kt:118-157 | A transport that delivers one octet per read still gives (1, `01 02`). |
| CompactEncoder.PackValue | tlv/src/main/java/dev/keiji/tlv/CompactTlvEncoder.kt:53-54 | For a tag and length in [0, 15], the packed octet is 16 × tag + length. |
| CompactEncoder.PackTagAndLength | tlv/src/main/java/dev/keiji/tlv/CompactTlvEncoder.kt:53-54 | For any tag and length, the low nibble of the packed octet is the low nibble of the length: the shifted tag never reaches it. |
| CompactEncoder.PackRoundTrip | tlv/src/main/java/dev/keiji/tlv/CompactTlvEncoder.kt:53-54 | `readTag` and `readLength` of the packed octet return the tag and the length. |
| CompactEncoder.PackFixture | tlv/src/test/java/dev/keiji/tlv/CompactTlvEncoderTest.kt:9-40 | (1, 15) is `1F`, (1, 0) is `10`, (15, 15) is `FF`, and (-1, 0) keeps the low eight bits, `F0`. |
| CompactEncoder.WriteTo | tlv/src/main/java/dev/keiji/tlv/CompactTlvEncoder.kt:36-51 | A tag or length outside [0, 15] writes nothing and raises nothing. Otherwise the sink grows by the header and the value, unchecked against the length. |
| CompactEncoder.Encoding | tlv/src/main/java/dev/keiji/tlv/CompactTlvEncoder.kt:36-51 | Something is written iff the tag and length are in [0, 15]. It is then the octet 16 × tag + length followed by the whole value. |
| CompactEncoder.EncodingFixture | tlv/src/test/java/dev/keiji/tlv/CompactTlvEncoderTest.kt:67-120 | (2, 1, `AA`) is `21 AA`. The value is not checked, so (2, 1, `AA BB`) is `21 AA BB`. (1, 2, `01 02`) is `12 01 02`. Tag `11` writes nothing. |
| CompactEncoder.WriteValueTo | tlv/src/main/java/dev/keiji/tlv/CompactTlvEncoder.kt:63-71 | A null value writes nothing. Otherwise it writes as `writeTo` with the value's size as the length. |
| CompactEncoder.EncodingDropped | tlv/src/main/java/dev/keiji/tlv/CompactTlvEncoder.kt:42-47 | An item writes nothing iff its tag or its size is outside [0, 15]. |
| CompactProcessor.ValidateAnnotation | tlv-ksp/src/main/java/dev/keiji/tlv/CompactTlvEncoderProcessor.kt:194-206 | The check passes or throws IllegalArgumentException. |
| CompactProcessor.AcceptsWhatEncoderWrites | tlv-ksp/src/main/java/dev/keiji/tlv/CompactTlvEncoderProcessor.kt:200 | A tag passes iff the Compact-TLV encoder writes it for every length in [0, 15]. |
| CompactProcessor.ValidateAnnotationFixtures | tlv-ksp/src/test/java/dev/keiji/tlv/CompactTlvEncoderProcessorTest.kt:7-35 | 0 and 15 pass. 16 and -1 throw IllegalArgumentException. |
| KspUtils.CompareInt | tlv-ksp/src/main/java/dev/keiji/tlv/Utils.kt:91-93 | `compareTo` is -1, 0 or 1 as the first argument is below, equal to or above the second. |
| KspUtils.CompareAsWritten | tlv-ksp/src/main/java/dev/keiji/tlv/Utils.kt:80-107 | `compare` as written returns -1, 0 or 1. Arrays of different sizes compare by size and never as equal, and an array compares equal to itself. |
| KspUtils.Compare | tlv-ksp/src/main/java/dev/keiji/tlv/Utils.kt:80-107 | The loop that overwrites `result` at every index returns `CompareAsWritten`. |
| KspUtils.CompareAsWrittenAntisymmetric | tlv-ksp/src/main/java/dev/keiji/tlv/Utils.kt:80-107 | Swapping the arrays negates what `compare` returns. |
| KspUtils.CompareFixtures | tlv-ksp/src/test/java/dev/keiji/tlv/UtilsTest.kt:11-93 | The comparator fixtures. Octets compare unsigned, so `FF` sorts above `00`. A shorter array sorts first. |
| KspUtils.CompareCounterexample | tlv-ksp/src/main/java/dev/keiji/tlv/Utils.kt:89-104 | As written, `01 05` and `02 05` compare equal, and `FF` sorts before `00 00`. |
| KspUtils.CompareLexicographic | tlv-ksp/src/main/java/dev/keiji/tlv/Utils.kt:80-107 | The loop with an early exit at the first difference returns `LexCompare`. |
| KspUtils.LexCompareZero | tlv-ksp/src/main/java/dev/keiji/tlv/Utils.kt:80-107 | The lexicographic comparison is 0 iff the arrays are equal. |
| KspUtils.LexCompareAntisymmetric | tlv-ksp/src/main/java/dev/keiji/tlv/Utils.kt:80-107 | Swapping the arrays negates the lexicographic comparison. |
| KspUtils.LexCompareTransitive | tlv-ksp/src/main/java/dev/keiji/tlv/Utils.kt:80-107 | The lexicographic order is transitive. |
| KspUtils.CompareAgreesOnShortArrays | tlv-ksp/src/main/java/dev/keiji/tlv/Utils.kt:80-107 | On arrays of at most one octet, `compare` as written is the lexicographic order. |
| KspUtils.ValidateAnnotation | tlv-ksp/src/main/java/dev/keiji/tlv/Utils.kt:123-174 | An empty tag throws NoSuchElementException from `first()`. Any other rejection is IllegalArgumentException. |
| KspUtils.ValidateAnnotationIff | tlv-ksp/src/main/java/dev/keiji/tlv/Utils.kt:129-173 | A tag passes iff it is well formed. A one-octet tag must not have all five low bits set. A longer tag must have them set, its middle octets must have bit 7 set and its last octet must have it clear. |
| KspUtils.AcceptedTagReadsBack | tlv-ksp/src/main/java/dev/keiji/tlv/Utils.kt:129-173 | Every tag that passes is read back whole, and only it, by the decoder's `readTagFieldBytes`. |
| KspUtils.ValidateAnnotationFixtures | tlv-ksp/src/test/java/dev/keiji/tlv/UtilsTest.kt:95-148 | `6E`, `5F 6E` and `5F FF 81 01` pass. `4F 01`, `5F`, `5F 80` and `5F 71 01` throw. |
| KspUtils.StripPackage | tlv-ksp/src/main/java/dev/keiji/tlv/Utils.kt:243-247 | `stripPackage` fails iff the name is shorter than the package plus two. Otherwise it is the name after the package and the dot, less its last character. |
| KspUtils.StripPackageOfQualified | tlv-ksp/src/main/java/dev/keiji/tlv/Utils.kt:243-247 | For `p.n` it gives `n` without its last character. |
| KspUtils.StripPackageCollision | tlv-ksp/src/main/java/dev/keiji/tlv/Utils.kt:243-247 | `p.FooA` and `p.FooB` both strip to `Foo`. |
| KspUtils.SimpleName | tlv-ksp/src/main/java/dev/keiji/tlv/Utils.kt:243-247 | The corrected `stripPackage` fails iff the name is shorter than the package plus the dot. |
| KspUtils.SimpleNameOfQualified | tlv-ksp/src/main/java/dev/keiji/tlv/Utils.kt:243-247 | The corrected `stripPackage` gives `n` for `p.n`. |
| TypeConverters.NopRoundTrip | tlv/src/main/java/dev/keiji/tlv/TypeConverters.kt:26-29 | `NopConverter` is the identity both ways. |
| TypeConverters.ByteFromByteArray | tlv/src/main/java/dev/keiji/tlv/TypeConverters.kt:32 | Reading a Byte fails with IndexOutOfBoundsException iff the array is empty. |
| TypeConverters.ByteRoundTrip | tlv/src/main/java/dev/keiji/tlv/TypeConverters.kt:31-34 | Writing a Byte gives one octet, which reads back as that Byte. |
| TypeConverters.ByteFromFirstOctet | tlv/src/main/java/dev/keiji/tlv/TypeConverters.kt:32 | Reading keeps only the first octet. |
| TypeConverters.ByteToByteArray | tlv/src/main/java/dev/keiji/tlv/TypeConverters.kt:33 | Writing a Byte gives one octet whose signed value is that Byte. |
| TypeConverters.BooleanFromByteArray | tlv/src/main/java/dev/keiji/tlv/TypeConverters.kt:37-39 | Reading a Boolean fails iff the array is empty. |
| TypeConverters.BooleanRoundTrip | tlv/src/main/java/dev/keiji/tlv/TypeConverters.kt:36-44 | true is written `FF` and false `00`, and both read back. |
| TypeConverters.BooleanNormalizes | tlv/src/main/java/dev/keiji/tlv/TypeConverters.kt:37-39 | A first octet other than `00` reads as true, so `01` is true. |
| TypeConverters.BooleanToByteArray | tlv/src/main/java/dev/keiji/tlv/TypeConverters.kt:41-43 | Writing a Boolean gives one octet, non-zero iff the Boolean is true. |
| Hex.HexDigit | tlv/src/main/java/dev/keiji/tlv/Utils.java:22-24 | A nibble is rendered as one uppercase hexadecimal digit. |
| Hex.ToHexByte | tlv/src/main/java/dev/keiji/tlv/Utils.java:22-24 | `toHex(byte)` is two characters. |
| Hex.ToHexByteRoundTrip | tlv/src/main/java/dev/keiji/tlv/Utils.java:22-24 | The two digits are the unsigned value of the octet. |
| Hex.ToHexByteFixture | tlv/src/main/java/dev/keiji/tlv/Utils.java:22-24 | `00`, `7F` and `AB` render as "00", "7F" and "AB". |
| Hex.ToHex | tlv/src/main/java/dev/keiji/tlv/Utils.java:8-20 | The `StringBuilder` loop returns `HexString`: each octet as `0x` plus two digits, joined by ":" whatever the delimiter argument. |
| Hex.HexString | tlv/src/main/java/dev/keiji/tlv/Utils.java:8-20 | The text is empty iff the array is empty. |
| Hex.HexStringLength | tlv/src/main/java/dev/keiji/tlv/Utils.java:9-19 | For n ≥ 1 octets the text has 5n − 1 characters. |
| Hex.HexStringLayout | tlv/src/main/java/dev/keiji/tlv/Utils.java:9-19 | Octet i is rendered at position 5i, followed by ":" except after the last octet. |
| Hex.HexStringInjective | tlv/src/main/java/dev/keiji/tlv/Utils.java:8-20 | Different arrays render differently. |
| Hex.HexStringFixture | tlv/src/main/java/dev/keiji/tlv/Utils.java:8-20 | `01 AB` renders as "0x01:0xAB", and an empty array as "". |

## Left out

- The KSP code generators and the annotation-reading helpers of `Utils.kt` are not part of this model: they emit Kotlin source through the KSP API.
- `StringTypeConverter` is not part of this model: it is the JDK's UTF-8 charset conversion.
- The callbacks receive the stream after an unknown-length or large item and may consume it. The model records the event and continues from where the decoder stopped.
- `InputStream`, `OutputStream` and `BigInteger` are the abstract source, sink and `nat` described above. An I/O exception from the transport is not modelled.
- `read(buf, off, 0)` returns 0 even at the end of the input, as the `InputStream` contract says. The model follows that contract rather than any particular stream class. `ByteArrayInputStream`, and the fragmenting test stream that delegates to it, return -1 there instead. On those streams an item `01 00` at the very end makes the current and Java decoders throw StreamCorruptedException from the value read (tlv/src/main/java/dev/keiji/tlv/BerTlvDecoder.kt:84-86, tlv/src/main/java/dev/keiji/tlv/BerTlvDecoder.java:131-133), where the model reports the empty item `01`. A tag followed by `80` as the last octet makes the Java decoder throw it from the zero-octet length read (tlv/src/main/java/dev/keiji/tlv/BerTlvDecoder.java:110-113), where the model reports an empty item.
- The Java and oldest `readTag` are the same loop as the current `readTagFieldBytes`. All three use `BerCommon.ReadTagFieldBytes`.
- The Java `readData` and `readLength` loops and the Compact-TLV `readValue` are the same offset-advancing retry loop, and all use `Streams.ReadFully`. The current `readLengthFieldBytes` loop, which differs, has its own method.
- BerEncoderKt.ConvertToLength: a padding argument of 127 or more is modelled as written, but no lemma states what it means. The descriptor keeps only the low eight bits of `80 or L`, so 127 gives `FF` and 128 gives `80`, the unknown length. The round-trip lemmas therefore require a padding of at most 126.
- RoundTrips.KtItemRoundTrip: the empty item with tag `00` encodes as `00 00`, which the current decoder reads as its end marker. The round trip leaves it out.
- The oldest decoder never calls its private `isPrimitiveTag`. The model states it on its own, as `BerDecoderKsp.IsPrimitiveTag`.
- The default `Callback` methods for unknown-length and large items do nothing. The `Recorder` records those events anyway, so the model shows what each decoder reports.
- Null arguments are modelled only where the source checks them, in the Java `readFrom`. Elsewhere Kotlin's types exclude them.
- KspUtils.SimpleName: the corrected `stripPackage` still skips one character after the package name, so for a class in the root package (package `""`, name `Foo`) it gives `oo`. `SimpleNameOfQualified` promises the simple name only for names of the form `p.n`; a root-package class has no dot to skip.
- KspUtils.StripPackage: strings are sequences of Unicode scalar values, while Kotlin's `length` and `subSequence` count UTF-16 code units. Where the last character of a name lies outside the Basic Multilingual Plane the two differ: `stripPackage("p", "p.A𝒜")` is `A` followed by a lone high surrogate in Kotlin but `A` in the model, and `stripPackage("p", "p.𝒜")` is a lone high surrogate in Kotlin but empty in the model. The same counting applies to `KspUtils.SimpleName`.

## Findings

| source | as written | input that shows it | evidently intended | confidence | as-written member | corrected member |
|---|---|---|---|---|---|---|
| tlv/src/main/java/dev/keiji/tlv/BerTlvEncoder.java:61-64 | The long-form descriptor counts `(b + (b % 8 == 0 ? 0 : 1)) / 8` octets for a bit length b, while `b` bits take `(b + 7) / 8` octets. The tlv-ksp encoder does the same. | 259 (b = 9) is written `81 01 03` followed by the 259 value octets; the decoders read length 1, deliver `03` as a one-octet value, and parse the 259 value octets as further items | The descriptor announces the number of magnitude octets, as the current encoder does: 259 is `82 01 03` | high, not executed | RoundTrips.JavaLengthMisread | RoundTrips.KtLengthRoundTrip |
| tlv/src/main/java/dev/keiji/tlv/BerTlvDecoder.kt:154 | The retry loop requests `lengthFieldSize - offset` octets but compares the count against `fieldLength - offset`, one less, so a read one octet short ends the field | `82 FF 01` delivered one octet per read gives length 0xFF00 and leaves `01` unread; `82 FF` at the end of the input gives 0xFF00 with no exception | Keep reading until all k octets are in, and throw StreamCorruptedException at the end of the input | high, not executed | BerDecoderKt.LengthFieldOneShort | BerDecoderKt.LengthOfIntendedLong |
| tlv-ksp/src/main/java/dev/keiji/tlv/Utils.kt:89-104 | `return@forEach` only ends one index, so every index overwrites `result` and the last index decides | `01 05` and `02 05` compare equal; `FF` sorts before `00 00` | A lexicographic comparison that stops at the first difference | medium, not executed | KspUtils.CompareCounterexample | KspUtils.LexCompareTransitive |
| tlv-ksp/src/main/java/dev/keiji/tlv/Utils.kt:244 | `subSequence(packageName.length + 1, qualifiedName.length - 1)` drops the last character of the simple name | `p.FooA` and `p.FooB` both give `Foo` | The simple name after the package and the dot | medium, not executed | KspUtils.StripPackageCollision | KspUtils.SimpleNameOfQualified |
