/** The older BER-TLV decoder (`BerTlvDecoder.java`): it retries partial reads like the current
    one, but knows neither the indefinite length nor the end-of-contents marker, and rejects a
    null stream or callback. */
module BerDecoderJava {
  import opened Bytes
  import opened Streams
  import opened BerCommon
  import BerDecoderKt

  const MAX_LENGTH_FIELD_LENGTH: nat := 126

  /** `readLength`: the first octet alone when bit 8 is clear, otherwise the unsigned number in
      the `b xor 0x80` octets after it, read through the retry loop. `80` is a long form with no
      octets after it: length 0. */
  function LengthOf(s: Source): (g: Got<nat>)
    ensures |g.src.rest| <= |s.rest|
    ensures g.result.Ok? ==> |g.src.rest| < |s.rest|
  {
    if s.rest == [] then Got(Err(StreamCorrupted), s)
    else
      var b := s.rest[0];
      var s1 := Source(s.rest[1..], s.caps);
      if b & MASK_MSB_BITS == 0 then Got(Ok(b as nat), s1)
      else
        var fieldLength := (b ^ MASK_MSB_BITS) as nat;
        if fieldLength > MAX_LENGTH_FIELD_LENGTH then Got(Err(InvalidObject), s1)
        else
          var g := Fill(s1, fieldLength);
          if g.result.Err? then Got(Err(g.result.error), g.src)
          else Got(Ok(Unsigned(g.result.value)), g.src)
  }

  /** One turn of the `readFrom` loop. */
  function NextItem(s: Source): (t: Turn)
    ensures t.Next? ==> |t.src.rest| < |s.rest|
  {
    var tr := TagField(s.rest);
    if tr.tag.None? then Stop(None, Source(tr.rest, s.caps))
    else ItemAfterTag(tr.tag.value, Source(tr.rest, s.caps))
  }

  /** The rest of a turn after the tag: the length, then `readData` unless the length does not
      fit an Int. */
  function ItemAfterTag(tag: seq<Byte>, s: Source): (t: Turn)
    ensures t.Next? ==> |t.src.rest| <= |s.rest| && t.event.tag == tag
    ensures t.Next? && t.event.Large? ==> t.event.length >= 0x8000_0000
    ensures t.Next? && t.event.Item? ==> |t.event.value| < 0x8000_0000
  {
    var l := LengthOf(s);
    match l.result
    case Err(e) => Stop(Some(e), l.src)
    case Ok(length) =>
      LargeIff(length);
      if BitLength(length) > 31 then Next(Large(tag, length), l.src)
      else
        var v := BerDecoderKt.ValueFieldBytes(l.src, length);
        if v.result.Err? then Stop(Some(v.result.error), v.src)
        else Next(Item(tag, v.result.value), v.src)
  }

  /** Once a length n has been read: a length of 2^31 or more is reported as large without
      reading a value, any other is followed by exactly n value octets read by `readData`. */
  lemma ItemAfterLength(tag: seq<Byte>, s: Source, n: nat, t: Source)
    requires LengthOf(s) == Got(Ok(n), t)
    ensures n >= 0x8000_0000 ==> ItemAfterTag(tag, s) == Next(Large(tag, n), t)
    ensures n < 0x8000_0000 ==>
      var g := Fill(t, n);
      ItemAfterTag(tag, s) == if g.result.Err? then Stop(Some(g.result.error), g.src)
                              else Next(Item(tag, g.result.value), g.src)
  {
    LargeIff(n);
  }

  /** Every item whose length does not fit an Int is reported as large with that length, no
      value is read, and decoding goes on right after the length field. */
  lemma DecodeLarge(tag: seq<Byte>, rest: seq<Byte>, caps: seq<Positive>, n: nat, t: Source)
    requires WellFormedTag(tag) && n >= 0x8000_0000
    requires LengthOf(Source(rest, caps)) == Got(Ok(n), t)
    ensures Decode(Source(tag + rest, caps)) == Then([Large(tag, n)], Decode(t))
  {
    NextItemAfterTag(tag, rest, caps);
    ItemAfterLength(tag, Source(rest, caps), n, t);
  }

  /** `readFrom` on a stream and a callback that are not null. */
  function Decode(s: Source): (d: Decoded)
    ensures |d.events| + |d.src.rest| <= |s.rest|
    ensures d.error.None? ==> d.src.rest == []
    decreases |s.rest|
  {
    match NextItem(s)
    case Stop(e, src) => Decoded([], e, src)
    case Next(ev, src) => Then([ev], Decode(src))
  }

  /** `readLength`. */
  method ReadLength(input: InputStream) returns (r: Result<nat, Exception>)
    modifies input
    ensures Got(r, input.State()) == LengthOf(old(input.State()))
  {
    hide LengthOf, Fill;
    ghost var s0 := input.State();
    var b := input.ReadByte();
    if b < 0 {
      LengthOfCases(s0);
      return Err(StreamCorrupted);
    }
    var octet := b as Byte;
    LengthOfStep(s0);
    assert octet == s0.rest[0] && input.State() == Source(s0.rest[1..], s0.caps);
    // `b` is 0..255 here, so `(b & 0x80) != 0` is `b >= 0x80` and `b ^ 0x80` is `b - 0x80`.
    if b < 0x80 {
      return Ok(b);
    }
    var fieldLength := b - 0x80;
    if fieldLength > MAX_LENGTH_FIELD_LENGTH {
      return Err(InvalidObject);
    }
    var lengthBytes := ReadFully(input, fieldLength);
    if lengthBytes.Err? {
      return Err(lengthBytes.error);
    }
    return Ok(Unsigned(lengthBytes.value));
  }

  /** `readData`: `length.intValue()` octets through the retry loop. */
  method ReadData(input: InputStream, length: nat) returns (r: Result<seq<Byte>, Exception>)
    modifies input
    ensures Got(r, input.State()) == BerDecoderKt.ValueFieldBytes(old(input.State()), length)
  {
    var dataLength := ToInt(length);
    if dataLength < 0 {
      return Err(NegativeArraySize);
    }
    r := ReadFully(input, dataLength);
  }

  /** The body of the `readFrom` loop; true when the loop ends. */
  method ReadItem(input: InputStream, callback: Recorder) returns (stop: bool, error: Option<Exception>)
    modifies input, callback
    ensures var t := NextItem(old(input.State()));
      && input.State() == t.src
      && (stop <==> t.Stop?)
      && (t.Stop? ==> error == t.error && callback.events == old(callback.events))
      && (t.Next? ==> callback.events == old(callback.events) + [t.event])
  {
    var tag := ReadTagFieldBytes(input);
    if tag.None? {
      return true, None;
    }
    var length := ReadLength(input);
    if length.Err? {
      return true, Some(length.error);
    }
    var n := length.value;
    var isLargeItem := BitLength(n) > 31;
    if !isLargeItem {
      var data := ReadData(input, n);
      if data.Err? {
        return true, Some(data.error);
      }
      callback.OnItemDetected(tag.value, data.value);
    } else {
      callback.OnLargeItemDetected(tag.value, n);
    }
    return false, None;
  }

  /** `readFrom`: IllegalArgumentException for a null stream or callback before anything is
      read; otherwise every item is reported until the input ends or an exception is thrown. */
  method ReadFrom(input: InputStream?, callback: Recorder?) returns (error: Option<Exception>)
    modifies input, callback
    ensures input == null || callback == null ==>
      && error == Some(IllegalArgument)
      && (input != null ==> input.State() == old(input.State()))
      && (callback != null ==> callback.events == old(callback.events))
    ensures input != null && callback != null ==>
      Decoded(callback.events, error, input.State()) == Then(old(callback.events), Decode(old(input.State())))
  {
    if input == null {
      return Some(IllegalArgument);
    }
    if callback == null {
      return Some(IllegalArgument);
    }
    ghost var ev0, s0 := callback.events, input.State();
    while true
      invariant Then(callback.events, Decode(input.State())) == Then(ev0, Decode(s0))
      decreases |input.rest|
    {
      ghost var pre, evs := input.State(), callback.events;
      var stop;
      stop, error := ReadItem(input, callback);
      if stop {
        return;
      }
      BerDecoderKt.ThenThen(evs, NextItem(pre).event, Decode(input.State()));
    }
  }

  /** `readLength` after its first octet, with the masks read as comparisons of its value. */
  lemma LengthOfStep(s: Source)
    requires s.rest != []
    ensures var b, s1 := s.rest[0], Source(s.rest[1..], s.caps);
      var k := b as int - 0x80;
      && (b < 0x80 ==> LengthOf(s) == Got(Ok(b as nat), s1))
      && (b >= 0x80 && k > 126 ==> LengthOf(s) == Got(Err(InvalidObject), s1))
      && (b >= 0x80 && k <= 126 ==>
            var g := Fill(s1, k);
            LengthOf(s) == if g.result.Err? then Got(Err(g.result.error), g.src) else Got(Ok(Unsigned(g.result.value)), g.src))
  {
    BerDecoderKt.MsbMask(s.rest[0]);
  }

  /** The length rules: the end of the input, the short form, `80` as length 0 and a long form
      with too many octets. */
  lemma LengthOfCases(s: Source)
    ensures s.rest == [] ==> LengthOf(s) == Got(Err(StreamCorrupted), s)
    ensures s.rest != [] && s.rest[0] < 0x80 ==> LengthOf(s) == Got(Ok(s.rest[0] as nat), Source(s.rest[1..], s.caps))
    ensures s.rest != [] && s.rest[0] == 0x80 ==> LengthOf(s) == Got(Ok(0), Source(s.rest[1..], s.caps))
    ensures s.rest != [] && s.rest[0] > 0x80 + 126 ==> LengthOf(s) == Got(Err(InvalidObject), Source(s.rest[1..], s.caps))
  {
    if s.rest != [] {
      LengthOfStep(s);
      if s.rest[0] == 0x80 {
        assert Fill(Source(s.rest[1..], s.caps), 0) == Got(Ok([]), Source(s.rest[1..], s.caps));
      }
    }
  }

  /** A long-form length is the unsigned big-endian number in the k octets after the descriptor
      `80 + k`, however the input is fragmented; a field cut short by the end of the input is
      StreamCorruptedException. */
  lemma LengthOfLong(s: Source, k: nat)
    requires 1 <= k <= 126 && 1 <= |s.rest| && s.rest[0] as int == 0x80 + k
    ensures var g := LengthOf(s);
      && (k < |s.rest| ==> g.result == Ok(Unsigned(s.rest[1..1 + k])) && g.src.rest == s.rest[1 + k..])
      && (k >= |s.rest| ==> g.result == Err(StreamCorrupted) && g.src.rest == [])
  {
    hide LengthOf, Fill, Unsigned;
    var s1 := Source(s.rest[1..], s.caps);
    LengthOfLongStep(s, k);
    FillReadsExactly(s1, k);
    var f := Fill(s1, k);
    if k < |s.rest| {
      assert f.result == Ok(s.rest[1..1 + k]) && f.src.rest == s.rest[1 + k..] by {
        assert s1.rest[..k] == s.rest[1..1 + k];
        assert s1.rest[k..] == s.rest[1 + k..];
      }
    } else {
      assert f.result == Err(StreamCorrupted) && f.src.rest == [];
    }
  }

  /** After the descriptor `80 + k`, `readLength` is the retry loop for k octets. */
  lemma LengthOfLongStep(s: Source, k: nat)
    requires 1 <= k <= 126 && 1 <= |s.rest| && s.rest[0] as int == 0x80 + k
    ensures var g := Fill(Source(s.rest[1..], s.caps), k);
      LengthOf(s) == if g.result.Err? then Got(Err(g.result.error), g.src) else Got(Ok(Unsigned(g.result.value)), g.src)
  {
    LengthOfStep(s);
  }

  /** Apart from `80`, which the current decoder reports as an indefinite length, the older
      `readLength` reads every length field as the current decoder's evidently intended
      `readLength` does. */
  lemma AgreesWithIntended(s: Source)
    requires s.rest != [] && s.rest[0] != 0x80
    ensures var g, i := LengthOf(s), BerDecoderKt.LengthOfIntended(s);
      && i.src == g.src
      && (g.result.Ok? <==> i.result.Ok?)
      && (g.result.Ok? ==> i.result.value == Some(g.result.value))
      && (g.result.Err? ==> i.result.error == g.result.error)
  {
    var b := s.rest[0];
    if b as int - 0x80 >= 1 && b as int - 0x80 <= 126 {
      AgreesWithIntendedLong(s, b as int - 0x80);
    } else {
      BerDecoderKt.MsbMask(b);
      LengthOfStep(s);
      UnsignedShort(b, 0);
    }
  }

  lemma AgreesWithIntendedLong(s: Source, k: nat)
    requires 1 <= k <= 126 && 1 <= |s.rest| && s.rest[0] as int == 0x80 + k
    ensures var g, i := LengthOf(s), BerDecoderKt.LengthOfIntended(s);
      && i.src == g.src
      && (g.result.Ok? <==> i.result.Ok?)
      && (g.result.Ok? ==> i.result.value == Some(g.result.value))
      && (g.result.Err? ==> i.result.error == g.result.error)
  {
    hide LengthOf, Fill, BerDecoderKt.LengthFieldBytesIntended;
    var b := s.rest[0];
    var s1 := Source(s.rest[1..], s.caps);
    LengthOfLongStep(s, k);
    BerDecoderKt.LengthFieldBytesIntendedFill(s, k);
    var f := Fill(s1, k);
    if f.result.Ok? {
      FillReadsExactly(s1, k);
      assert ([b] + f.result.value)[1..] == f.result.value;
    }
  }

  /** With no end-of-contents marker, `00 00` is an empty item with tag `00`. */
  lemma DecodeZeroItem(more: seq<Byte>, caps: seq<Positive>)
    ensures Decode(Source([0, 0] + more, caps)) == Then([Item([0], [])], Decode(Source(more, caps)))
  {
    var s := Source([0, 0] + more, caps);
    assert s.rest == [0] + ([0] + more);
    TagFieldSingle(0, [0] + more);
    var l := Source([0] + more, caps);
    LengthOfCases(l);
    assert l.rest[1..] == more;
    assert BitLength(0) == 0;
    assert Fill(Source(more, caps), 0) == Got(Ok([]), Source(more, caps));
  }

  /** With no indefinite form, a tag followed by `80` is an empty item. */
  lemma DecodeIndefiniteAsEmpty(tag: seq<Byte>, more: seq<Byte>, caps: seq<Positive>)
    requires WellFormedTag(tag)
    ensures Decode(Source(tag + [0x80] + more, caps)) == Then([Item(tag, [])], Decode(Source(more, caps)))
  {
    assert tag + [0x80] + more == tag + ([0x80] + more);
    TagFieldComplete(tag, [0x80] + more);
    var l := Source([0x80] + more, caps);
    LengthOfCases(l);
    assert l.rest[1..] == more;
    assert BitLength(0) == 0;
    assert Fill(Source(more, caps), 0) == Got(Ok([]), Source(more, caps));
  }

  /** A tag, a short length n and n octets are one item, and decoding goes on after them. */
  lemma DecodeShortItem(tag: seq<Byte>, value: seq<Byte>, more: seq<Byte>)
    requires WellFormedTag(tag) && |value| < 0x80
    ensures Decode(Source(tag + [|value| as Byte] + value + more, []))
            == Then([Item(tag, value)], Decode(Source(more, [])))
  {
    var n := |value|;
    var rest := [n as Byte] + value + more;
    assert tag + [n as Byte] + value + more == tag + rest;
    NextItemAfterTag(tag, rest, []);
    ItemAfterTagShort(tag, value, more);
  }

  lemma ItemAfterTagShort(tag: seq<Byte>, value: seq<Byte>, more: seq<Byte>)
    requires |value| < 0x80
    ensures ItemAfterTag(tag, Source([|value| as Byte] + value + more, [])) == Next(Item(tag, value), Source(more, []))
  {
    var n := |value|;
    var rest := [n as Byte] + value + more;
    OctetValue(n);
    LengthOfCases(Source(rest, []));
    assert rest[1..] == value + more;
    LargeIff(n);
    FillReadsExactly(Source(value + more, []), n);
    hide LengthOf, Fill, BitLength;
    assert (value + more)[..n] == value && (value + more)[n..] == more;
  }

  /** A turn on an input that starts with a complete tag goes on after that tag. */
  lemma NextItemAfterTag(tag: seq<Byte>, rest: seq<Byte>, caps: seq<Positive>)
    requires WellFormedTag(tag)
    ensures NextItem(Source(tag + rest, caps)) == ItemAfterTag(tag, Source(rest, caps))
  {
    TagFieldComplete(tag, rest);
  }

  /** The end of the input, even inside a tag, ends `readFrom` without an exception. */
  lemma DecodeTruncatedTag(s: Source)
    requires OpenTag(s.rest)
    ensures Decode(s) == Decoded([], None, Source([], s.caps))
  {
    TagFieldNone(s.rest);
  }
}
