/** What the encoders write, read back by the decoders: the current BER-TLV pair agrees on every
    length and item, the older encoders' long form is read back only for some sizes, and a list
    of compact items comes back without the ones the compact codec drops. */
module RoundTrips {
  import opened Bytes
  import opened Streams
  import opened BerCommon
  import BerEncoderKt
  import BerDecoderKt
  import BerEncoderJava
  import BerDecoderJava
  import BerEncoderKsp
  import BerDecoderKsp
  import CompactDecoder
  import CompactEncoder

  // ---------------------------------------------------------------------------------------------
  // Length fields

  /** A length field the current encoder writes reads back as its size, with what follows left
      unread: by `readLength` as written when the input arrives in one piece, and by the intended
      loop however the input is fragmented. */
  lemma KtLengthRoundTrip(size: nat, atLeast: JInt, more: seq<Byte>, caps: seq<Positive>)
    requires atLeast <= 126 && BerEncoderKt.ConvertToLength(size, atLeast).Ok?
    ensures var f := BerEncoderKt.ConvertToLength(size, atLeast).value;
      && BerDecoderKt.LengthOf(Source(f + more, [])) == Got(Ok(Some(size)), Source(more, []))
      && BerDecoderKt.LengthOfIntended(Source(f + more, caps)).result == Ok(Some(size))
      && BerDecoderKt.LengthOfIntended(Source(f + more, caps)).src.rest == more
  {
    BerEncoderKt.NoIndefiniteForm(size, atLeast);
    var f := BerEncoderKt.ConvertToLength(size, atLeast).value;
    hide BerEncoderKt.ConvertToLength;
    ShortOrLong(f, size, more, caps);
  }

  /** Both decoders read a field in the shape `NoIndefiniteForm` promises back as the size. */
  lemma ShortOrLong(f: seq<Byte>, size: nat, more: seq<Byte>, caps: seq<Positive>)
    requires |f| >= 1 && f[0] != 0x80
    requires f[0] & 0x80 == 0 ==> f == [f[0]] && f[0] as nat == size
    requires f[0] & 0x80 != 0 ==> |f| == (f[0] ^ 0x80) as nat + 1 && (f[0] ^ 0x80) as nat <= 126 && Unsigned(f[1..]) == size
    ensures BerDecoderKt.LengthOf(Source(f + more, [])) == Got(Ok(Some(size)), Source(more, []))
    ensures BerDecoderKt.LengthOfIntended(Source(f + more, caps)).result == Ok(Some(size))
    ensures BerDecoderKt.LengthOfIntended(Source(f + more, caps)).src.rest == more
  {
    var s, t := Source(f + more, []), Source(f + more, caps);
    BerDecoderKt.MsbMask(f[0]);
    if f[0] & 0x80 == 0 {
      assert s.rest[1..] == more;
      BerDecoderKt.LengthOfCases(s);
      assert Unsigned([f[0]]) == size by {
        assert [f[0]][..0] == [];
      }
    } else {
      var k := (f[0] ^ 0x80) as nat;
      assert s.rest[1..1 + k] == f[1..] && s.rest[1 + k..] == more;
      BerDecoderKt.LengthOfLong(s, k);
      BerDecoderKt.LengthOfIntendedLong(t, k);
    }
  }

  /** The older encoder's field reads back, under both of the older decoders' loops, exactly
      for the sizes on which it agrees with the current encoder. */
  lemma JavaLengthRoundTrip(size: nat, more: seq<Byte>, caps: seq<Positive>)
    requires BerEncoderJava.ConvertToLength(size).Ok?
    requires var b := BitLength(size); b <= 7 || b % 8 == 0 || b % 8 == 7
    ensures var f := BerEncoderJava.ConvertToLength(size).value;
      var g := BerDecoderJava.LengthOf(Source(f + more, caps));
      g.result == Ok(size) && g.src.rest == more
  {
    BerEncoderJava.AgreesWithCurrent(size);
    KtLengthRoundTrip(size, 0, more, caps);
    BerEncoderKt.NoIndefiniteForm(size, 0);
    var f := BerEncoderJava.ConvertToLength(size).value;
    hide BerEncoderJava.ConvertToLength, BerEncoderKt.ConvertToLength;
    BerDecoderJava.AgreesWithIntended(Source(f + more, caps));
  }

  /** For every other size of more than seven bits the older decoder reads one octet too few:
      the size without its last octet, which is left in front of what follows. */
  lemma JavaLengthMisread(size: nat, more: seq<Byte>, caps: seq<Positive>)
    requires BerEncoderJava.ConvertToLength(size).Ok?
    requires var b := BitLength(size); b > 7 && b % 8 != 0 && b % 8 != 7
    ensures var f := BerEncoderJava.ConvertToLength(size).value;
      var g := BerDecoderJava.LengthOf(Source(f + more, caps));
      g.result == Ok(size / 256) && g.src.rest == [(size % 256) as Byte] + more && size / 256 != size
  {
    hide BerEncoderJava.ConvertToLength, BerDecoderJava.LengthOf, BitLength;
    var w, f, rest := MisreadShape(size, more);
    var s := Source(f + more, caps);
    assert s.rest[0] as int == 0x80 + (w - 1);
    BerDecoderJava.LengthOfLong(s, w - 1);
    assert s.rest[1..1 + (w - 1)] == rest && s.rest[1 + (w - 1)..] == [(size % 256) as Byte] + more;
  }

  /** The older encoder's field for a size the older decoders misread: a descriptor announcing
      one octet less than the w that follow, the first w - 1 of which hold the size shifted right
      by eight bits. */
  lemma MisreadShape(size: nat, more: seq<Byte>) returns (w: nat, f: seq<Byte>, rest: seq<Byte>)
    requires BerEncoderJava.ConvertToLength(size).Ok?
    requires var b := BitLength(size); b > 7 && b % 8 != 0 && b % 8 != 7
    ensures f == BerEncoderJava.ConvertToLength(size).value
    ensures 2 <= w <= 126 && |f| == w + 1 && f[0] as int == 0x80 + (w - 1)
    ensures f[1..] == rest + [(size % 256) as Byte] && Unsigned(rest) == size / 256
    ensures size / 256 != size
  {
    var d;
    w, d := MisreadWidth(size);
    hide BerEncoderJava.ConvertToLength, BerEncoderJava.DescriptorOctets, BitLength, ByteWidth;
    f := BerEncoderJava.ConvertToLength(size).value;
    BerEncoderKt.DescriptorValue(d);
    BerDecoderKt.MsbMask(BerEncoderKt.Descriptor(d));
    rest := BigEndian(size / 256, w - 1);
    assert BigEndian(size, w) == rest + [(size % 256) as Byte];
    DivBelow(size, Pow256(w - 1));
    UnsignedBigEndian(size / 256, w - 1);
  }

  /** The widths behind a misread field: w octets of size after a descriptor of w - 1. */
  lemma MisreadWidth(size: nat) returns (w: nat, d: nat)
    requires BerEncoderJava.ConvertToLength(size).Ok?
    requires var b := BitLength(size); b > 7 && b % 8 != 0 && b % 8 != 7
    ensures w == ByteWidth(size) && 2 <= w <= 126 && d == w - 1 && size < Pow256(w)
    ensures BerEncoderJava.ConvertToLength(size) == Ok([BerEncoderKt.Descriptor(d)] + BigEndian(size, w))
  {
    BerEncoderJava.ConvertToLengthLong(size);
    BerEncoderJava.DescriptorOctetsCount(size);
    ByteWidthFromBitLength(size);
    ByteWidthBounds(size);
    w := ByteWidth(size);
    d := BerEncoderJava.DescriptorOctets(BitLength(size));
  }

  /** The tests' 259 is written `81 01 03` by the older encoder and read back as 1. */
  lemma JavaLength259()
    ensures BerEncoderJava.ConvertToLength(259) == Ok([0x81, 0x01, 0x03])
    ensures BerDecoderJava.LengthOf(Source([0x81, 0x01, 0x03], [])).result == Ok(1)
    ensures BerDecoderJava.LengthOf(Source([0x81, 0x01, 0x03], [])).src.rest == [0x03]
  {
    hide BerEncoderJava.ConvertToLength, BerDecoderJava.LengthOf;
    BerEncoderJava.ConvertToLength259();
    var s := Source([0x81, 0x01, 0x03], []);
    BerDecoderJava.LengthOfLong(s, 1);
    assert s.rest[1..2] == [0x01];
    assert Unsigned([0x01]) == 1 by {
      assert [0x01 as Byte][..0] == [];
    }
  }

  /** The processor-generated encoder writes what the older encoder writes, and its decoder reads
      it back when the input arrives in one piece exactly as the older decoder does. */
  lemma KspLengthRoundTrip(size: nat, more: seq<Byte>)
    requires BerEncoderKsp.ConvertToLength(size).Ok?
    requires var b := BitLength(size); b <= 7 || b % 8 == 0 || b % 8 == 7
    ensures var f := BerEncoderKsp.ConvertToLength(size).value;
      BerDecoderKsp.LengthOf(Source(f + more, [])) == Got(Ok(size), Source(more, []))
  {
    hide BerEncoderKsp.ConvertToLength, BerEncoderJava.ConvertToLength, BerEncoderKt.ConvertToLength;
    hide BerDecoderKsp.LengthOf, Unsigned, BitLength;
    BerEncoderKsp.SameAsJava(size);
    BerEncoderJava.AgreesWithCurrent(size);
    BerEncoderKt.NoIndefiniteForm(size, 0);
    var f := BerEncoderKsp.ConvertToLength(size).value;
    var s := Source(f + more, []);
    BerDecoderKt.MsbMask(f[0]);
    if f[0] & 0x80 == 0 {
      assert s.rest[1..] == more;
      BerDecoderKsp.LengthOfCases(s);
    } else {
      var k := (f[0] ^ 0x80) as nat;
      KspLong(f, k, more);
      assert f[1..1 + k] == f[1..] && f[1 + k..] + more == more;
    }
  }

  /** The processor-generated decoder on a whole long-form field followed by more input. */
  lemma KspLong(f: seq<Byte>, k: nat, more: seq<Byte>)
    requires 1 <= k <= 126 && k < |f| && f[0] as int == 0x80 + k
    ensures BerDecoderKsp.LengthOf(Source(f + more, [])) == Got(Ok(Unsigned(f[1..1 + k])), Source(f[1 + k..] + more, []))
  {
    hide BerDecoderKsp.LengthOf, Unsigned, Zeros;
    var s := Source(f + more, []);
    BerDecoderKsp.LengthOfLong(s, k);
    assert s.rest[1..1 + k] == f[1..1 + k] && s.rest[1 + k..] == f[1 + k..] + more;
  }

  /** The processor-generated decoder misreads the same sizes as the older decoder. */
  lemma KspLengthMisread(size: nat, more: seq<Byte>)
    requires BerEncoderKsp.ConvertToLength(size).Ok?
    requires var b := BitLength(size); b > 7 && b % 8 != 0 && b % 8 != 7
    ensures var f := BerEncoderKsp.ConvertToLength(size).value;
      BerDecoderKsp.LengthOf(Source(f + more, [])) == Got(Ok(size / 256), Source([(size % 256) as Byte] + more, []))
  {
    hide BerEncoderKsp.ConvertToLength, BerEncoderJava.ConvertToLength, BerDecoderKsp.LengthOf, BitLength;
    BerEncoderKsp.SameAsJava(size);
    var w, f, rest := MisreadShape(size, more);
    KspLong(f, w - 1, more);
    assert f[1..1 + (w - 1)] == rest && f[1 + (w - 1)..] == [(size % 256) as Byte];
  }

  // ---------------------------------------------------------------------------------------------
  // BER-TLV items

  /** An item the current encoder writes and the current decoder reports: a complete tag, a value
      an array can hold, and not the end-of-contents marker `00 00`. */
  predicate KtWritable(ev: Event)
  {
    ev.Item? && WellFormedTag(ev.tag) && |ev.value| < 0x8000_0000 && !(ev.tag == [0] && ev.value == [])
  }

  /** What `writeTo(tag, value, os)` writes for an item. */
  function KtEncoding(ev: Event, atLeast: JInt): seq<Byte>
    requires KtWritable(ev)
  {
    match BerEncoderKt.ConvertToLength(|ev.value|, atLeast)
    case Ok(length) => ev.tag + length + ev.value
    case Err(_) => []
  }

  /** What one `writeTo(tag, value, os)` call per item writes. */
  function KtEncodeAll(evs: seq<Event>, atLeast: JInt): seq<Byte>
    requires forall i | 0 <= i < |evs| :: KtWritable(evs[i])
  {
    if evs == [] then [] else KtEncoding(evs[0], atLeast) + KtEncodeAll(evs[1..], atLeast)
  }

  /** One written item is one turn of `readFrom`, which reports it and goes on after it. */
  lemma KtItemRoundTrip(ev: Event, atLeast: JInt, more: seq<Byte>)
    requires KtWritable(ev) && atLeast <= 126
    ensures BerEncoderKt.ConvertToLength(|ev.value|, atLeast).Ok?
    ensures BerDecoderKt.NextItem(Source(KtEncoding(ev, atLeast) + more, [])) == Next(ev, Source(more, []))
  {
    var n := |ev.value|;
    BerEncoderKt.ArraySizeFits(n);
    BerEncoderKt.ConvertToLengthErrors(n, atLeast);
    var f := BerEncoderKt.ConvertToLength(n, atLeast).value;
    assert KtEncoding(ev, atLeast) + more == ev.tag + (f + (ev.value + more));
    hide BerEncoderKt.ConvertToLength, BerDecoderKt.NextItem, BerDecoderKt.LengthOf, KtEncoding;
    KtLengthRoundTrip(n, atLeast, ev.value + more, []);
    assert f + (ev.value + more) == BerEncoderKt.ConvertToLength(n, atLeast).value + (ev.value + more);
    BerDecoderKt.NextItemAfterTag(ev.tag, f + (ev.value + more), []);
    KtValueAfterLength(ev, Source(f + (ev.value + more), []), more);
  }

  /** Once the length of a written item is read, its value follows: the turn reports the item. */
  lemma KtValueAfterLength(ev: Event, s: Source, more: seq<Byte>)
    requires KtWritable(ev)
    requires BerDecoderKt.LengthOf(s) == Got(Ok(Some(|ev.value|)), Source(ev.value + more, []))
    ensures BerDecoderKt.ItemAfterTag(ev.tag, s) == Next(ev, Source(more, []))
  {
    var n := |ev.value|;
    hide BerDecoderKt.LengthOf, Fill;
    LargeIff(n);
    FillUnfragmented(Source(ev.value + more, []), n);
    assert (ev.value + more)[..n] == ev.value && (ev.value + more)[n..] == more;
  }

  lemma ThenThen(a: seq<Event>, b: seq<Event>, d: Decoded)
    ensures Then(a, Then(b, d)) == Then(a + b, d)
  {
    assert a + (b + d.events) == (a + b) + d.events;
  }

  /** The items the current encoder writes, one after another, are reported in order by the
      current decoder, which then goes on with whatever follows them. */
  lemma {:induction false} KtDecodeAll(evs: seq<Event>, atLeast: JInt, more: seq<Byte>)
    requires atLeast <= 126 && forall i | 0 <= i < |evs| :: KtWritable(evs[i])
    ensures BerDecoderKt.Decode(Source(KtEncodeAll(evs, atLeast) + more, []))
            == Then(evs, BerDecoderKt.Decode(Source(more, [])))
  {
    if evs == [] {
      assert KtEncodeAll(evs, atLeast) + more == more;
      assert Then([], BerDecoderKt.Decode(Source(more, []))) == BerDecoderKt.Decode(Source(more, []));
    } else {
      KtDecodeAll(evs[1..], atLeast, more);
      KtDecodeFirst(evs, atLeast, more);
    }
  }

  /** The first written item is reported before the ones that follow it. */
  lemma KtDecodeFirst(evs: seq<Event>, atLeast: JInt, more: seq<Byte>)
    requires atLeast <= 126 && evs != [] && forall i | 0 <= i < |evs| :: KtWritable(evs[i])
    requires BerDecoderKt.Decode(Source(KtEncodeAll(evs[1..], atLeast) + more, []))
             == Then(evs[1..], BerDecoderKt.Decode(Source(more, [])))
    ensures BerDecoderKt.Decode(Source(KtEncodeAll(evs, atLeast) + more, []))
            == Then(evs, BerDecoderKt.Decode(Source(more, [])))
  {
    hide *;
    var tail := KtEncodeAll(evs[1..], atLeast) + more;
    KtEncodeAllFirst(evs, atLeast, more);
    KtItemRoundTrip(evs[0], atLeast, tail);
    KtDecodeNext(Source(KtEncoding(evs[0], atLeast) + tail, []), evs[0], Source(tail, []));
    ThenThen([evs[0]], evs[1..], BerDecoderKt.Decode(Source(more, [])));
    assert [evs[0]] + evs[1..] == evs;
  }

  lemma KtEncodeAllFirst(evs: seq<Event>, atLeast: JInt, more: seq<Byte>)
    requires evs != [] && forall i | 0 <= i < |evs| :: KtWritable(evs[i])
    ensures KtEncodeAll(evs, atLeast) + more == KtEncoding(evs[0], atLeast) + (KtEncodeAll(evs[1..], atLeast) + more)
  {
  }

  lemma KtDecodeNext(s: Source, ev: Event, t: Source)
    requires BerDecoderKt.NextItem(s) == Next(ev, t)
    ensures BerDecoderKt.Decode(s) == Then([ev], BerDecoderKt.Decode(t))
  {
  }

  lemma KtDecodeEmpty()
    ensures BerDecoderKt.Decode(Source([], [])) == Decoded([], None, Source([], []))
  {
  }

  /** A written list of items decodes back to itself and nothing else; followed by the
      end-of-contents octets `00 00`, it ends the decoding there, leaving what follows. */
  lemma KtListRoundTrip(evs: seq<Event>, atLeast: JInt, more: seq<Byte>)
    requires atLeast <= 126 && forall i | 0 <= i < |evs| :: KtWritable(evs[i])
    ensures BerDecoderKt.Decode(Source(KtEncodeAll(evs, atLeast), [])) == Decoded(evs, None, Source([], []))
    ensures BerDecoderKt.Decode(Source(KtEncodeAll(evs, atLeast) + [0, 0] + more, []))
            == Decoded(evs, None, Source(more, []))
  {
    hide BerDecoderKt.Decode;
    KtDecodeAll(evs, atLeast, []);
    assert KtEncodeAll(evs, atLeast) + [] == KtEncodeAll(evs, atLeast);
    KtDecodeEmpty();
    assert evs + [] == evs;
    KtDecodeAll(evs, atLeast, [0, 0] + more);
    assert KtEncodeAll(evs, atLeast) + [0, 0] + more == KtEncodeAll(evs, atLeast) + ([0, 0] + more);
    BerDecoderKt.DecodeEndOfContents(more, []);
  }

  // ---------------------------------------------------------------------------------------------
  // Compact items

  /** What one `writeTo(tag, value, os)` call per item writes. */
  function CompactEncodeAll(items: seq<CompactDecoder.CompactItem>): seq<Byte>
    requires forall i | 0 <= i < |items| :: |items[i].value| < 0x8000_0000
  {
    if items == [] then []
    else CompactEncoder.Encoding(items[0].tag, |items[0].value|, items[0].value) + CompactEncodeAll(items[1..])
  }

  /** The items that survive a round trip: a tag from 0 to 15 and from 1 to 15 value octets. */
  function Kept(items: seq<CompactDecoder.CompactItem>): seq<CompactDecoder.CompactItem>
  {
    if items == [] then []
    else
      var it := items[0];
      (if 0 <= it.tag < 0x10 && 0 < |it.value| < 0x10 then [it] else []) + Kept(items[1..])
  }

  lemma CompactThenThen(a: seq<CompactDecoder.CompactItem>, b: seq<CompactDecoder.CompactItem>, d: CompactDecoder.CompactDecoded)
    ensures CompactDecoder.Then(a, CompactDecoder.Then(b, d)) == CompactDecoder.Then(a + b, d)
  {
    assert a + (b + d.items) == (a + b) + d.items;
  }

  /** One written compact item: dropped by the encoder, skipped by the decoder when empty, or
      reported with its tag and value. */
  lemma CompactItemRoundTrip(it: CompactDecoder.CompactItem, more: seq<Byte>)
    requires |it.value| < 0x8000_0000
    ensures var kept := if 0 <= it.tag < 0x10 && 0 < |it.value| < 0x10 then [it] else [];
      CompactDecoder.Decode(Source(CompactEncoder.Encoding(it.tag, |it.value|, it.value) + more, []))
      == CompactDecoder.Then(kept, CompactDecoder.Decode(Source(more, [])))
  {
    var n := |it.value|;
    var rest := CompactDecoder.Decode(Source(more, []));
    hide CompactDecoder.Decode, CompactEncoder.PackTagAndLength;
    if !CompactEncoder.Writable(it.tag, n) {
      assert CompactEncoder.Encoding(it.tag, n, it.value) + more == more;
      assert CompactDecoder.Then([], rest) == rest;
    } else {
      var b := CompactEncoder.PackTagAndLength(it.tag, n);
      CompactEncoder.PackValue(it.tag, n);
      assert CompactEncoder.Encoding(it.tag, n, it.value) + more == [b] + it.value + more;
      if it.value == [] {
        assert [b] + it.value + more == [b] + more;
        CompactDecoder.DecodeSkipsEmpty(b, more, []);
        assert CompactDecoder.Then([], rest) == rest;
      } else {
        CompactDecoder.DecodeItem(b, it.value, more);
      }
    }
  }

  /** The compact items written one after another are reported in order, less the ones the
      encoder drops and the empty ones the decoder skips. */
  lemma {:induction false} CompactDecodeAll(items: seq<CompactDecoder.CompactItem>, more: seq<Byte>)
    requires forall i | 0 <= i < |items| :: |items[i].value| < 0x8000_0000
    ensures CompactDecoder.Decode(Source(CompactEncodeAll(items) + more, []))
            == CompactDecoder.Then(Kept(items), CompactDecoder.Decode(Source(more, [])))
  {
    if items == [] {
      assert CompactEncodeAll(items) + more == more;
      assert CompactDecoder.Then([], CompactDecoder.Decode(Source(more, []))) == CompactDecoder.Decode(Source(more, []));
    } else {
      hide CompactDecoder.Decode;
      var it := items[0];
      var kept := if 0 <= it.tag < 0x10 && 0 < |it.value| < 0x10 then [it] else [];
      var tail := CompactEncodeAll(items[1..]) + more;
      assert CompactEncodeAll(items) + more == CompactEncoder.Encoding(it.tag, |it.value|, it.value) + tail;
      CompactItemRoundTrip(it, tail);
      CompactDecodeAll(items[1..], more);
      CompactThenThen(kept, Kept(items[1..]), CompactDecoder.Decode(Source(more, [])));
    }
  }

  /** However the transport fragments it, a written list of compact items decodes to the kept
      items, without an exception and with nothing left over. */
  lemma CompactListRoundTrip(items: seq<CompactDecoder.CompactItem>, caps: seq<Positive>)
    requires forall i | 0 <= i < |items| :: |items[i].value| < 0x8000_0000
    ensures CompactDecoder.Outcome(CompactDecoder.Decode(Source(CompactEncodeAll(items), caps))) == (Kept(items), None, [])
  {
    CompactDecodeAll(items, []);
    assert CompactEncodeAll(items) + [] == CompactEncodeAll(items);
    CompactDecoder.DecodeEmpty([]);
    assert Kept(items) + [] == Kept(items);
    CompactDecoder.DecodeUnfragmented(Source(CompactEncodeAll(items), caps), Source(CompactEncodeAll(items), []));
  }
}
