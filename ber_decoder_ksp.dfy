/** The oldest BER-TLV decoder (`BerTlvDecoder.kt` of the annotation processor): a state loop over
    a tag and a length, with a single `read` for the long-form length octets and for the value,
    so a read that comes up short leaves zeros and raises nothing. */
module BerDecoderKsp {
  import opened Bytes
  import opened Streams
  import opened BerCommon
  import BerDecoderKt

  const MAX_LENGTH_FIELD_LENGTH: nat := 126
  const MASK_PC_BITS: Byte := 0x20

  /** `ByteArray(n)` followed by one `read(buffer)`: what arrives lands at the start of the buffer,
      the rest stays zero, and the count is not looked at. */
  function SingleRead(s: Source, n: nat): (g: (seq<Byte>, Source))
    ensures |g.0| == n && |g.1.rest| <= |s.rest|
  {
    var r := Granted(s, n);
    if r <= 0 then (Zeros(n), AfterRead(s, n))
    else (s.rest[..r] + Zeros(n - r), AfterRead(s, n))
  }

  /** `readLength`: the first octet alone when bit 8 is clear, otherwise the unsigned number in a
      buffer of `b xor 0x80` octets filled by one read. */
  function LengthOf(s: Source): (g: Got<nat>)
    ensures |g.src.rest| <= |s.rest|
    ensures g.result.Ok? ==> |g.src.rest| < |s.rest|
  {
    if s.rest == [] then Got(Err(StreamCorrupted), s)
    else
      var b := s.rest[0];
      var s1 := Source(s.rest[1..], s.caps);
      if b & MASK_MSB_BITS == 0 then Got(Ok(b as nat), s1)
      else
        var fieldLength := (b ^ MASK_MSB_BITS) as nat;
        if fieldLength > MAX_LENGTH_FIELD_LENGTH then Got(Err(InvalidObject), s1)
        else
          var g := SingleRead(s1, fieldLength);
          Got(Ok(Unsigned(g.0)), g.1)
  }

  /** `dispatchOnItemDetected`: a length that does not fit an Int is reported as large; otherwise
      one read into a buffer of that length, delivered whatever arrived. */
  function Dispatch(tag: seq<Byte>, length: nat, s: Source): (t: Turn)
    ensures t.Next? && |t.src.rest| <= |s.rest| && t.event.tag == tag
    ensures t.event.Large? <==> length >= 0x8000_0000
    ensures t.event.Large? ==> t.event.length == length
    ensures t.event.Item? ==> |t.event.value| == length
  {
    LargeIff(length);
    if BitLength(length) > 31 then Next(Large(tag, length), s)
    else
      var data := SingleRead(s, ToInt(length));
      Next(Item(tag, data.0), data.1)
  }

  /** `dispatchOnItemDetected` reports a length of 2^31 or more as large without reading, and
      delivers any other length as one single read of that many octets. */
  lemma DispatchCases(tag: seq<Byte>, n: nat, s: Source)
    ensures n >= 0x8000_0000 ==> Dispatch(tag, n, s) == Next(Large(tag, n), s)
    ensures n < 0x8000_0000 ==>
      Dispatch(tag, n, s) == Next(Item(tag, SingleRead(s, n).0), SingleRead(s, n).1)
  {
    LargeIff(n);
  }

  /** Every item whose length does not fit an Int is reported as large with that length, no
      value is read, and decoding goes on right after the length field. */
  lemma DecodeLarge(tag: seq<Byte>, rest: seq<Byte>, caps: seq<Positive>, n: nat, t: Source)
    requires WellFormedTag(tag) && n >= 0x8000_0000
    requires LengthOf(Source(rest, caps)) == Got(Ok(n), t)
    ensures Decode(Source(tag + rest, caps)) == Then([Large(tag, n)], Decode(t))
  {
    TagFieldComplete(tag, rest);
    DispatchCases(tag, n, t);
  }

  /** The part of a `readFrom` turn after the tag: the length, then the dispatch. */
  function ItemAfterTag(tag: seq<Byte>, s: Source): (t: Turn)
    ensures t.Next? ==> |t.src.rest| < |s.rest| && t.event.tag == tag
    ensures t.Next? && t.event.Large? ==> t.event.length >= 0x8000_0000
    ensures t.Next? && t.event.Item? ==> |t.event.value| < 0x8000_0000
  {
    var l := LengthOf(s);
    match l.result
    case Err(e) => Stop(Some(e), l.src)
    case Ok(length) => Dispatch(tag, length, l.src)
  }

  /** One pass of the `readFrom` state machine from `tag == null` back to it. */
  function NextItem(s: Source): (t: Turn)
    ensures t.Next? ==> |t.src.rest| < |s.rest|
  {
    var tr := TagField(s.rest);
    if tr.tag.None? then Stop(None, Source(tr.rest, s.caps))
    else ItemAfterTag(tr.tag.value, Source(tr.rest, s.caps))
  }

  /** `readFrom`: the callbacks made, and the exception `readLength` ends it with, if any. */
  function Decode(s: Source): (d: Decoded)
    ensures |d.events| + |d.src.rest| <= |s.rest|
    ensures d.error.None? ==> d.src.rest == []
    decreases |s.rest|
  {
    match NextItem(s)
    case Stop(e, src) => Decoded([], e, src)
    case Next(ev, src) => Then([ev], Decode(src))
  }

  /** The rest of a decoding from the middle of a turn. */
  function Resume(t: Turn): Decoded
  {
    match t
    case Stop(e, src) => Decoded([], e, src)
    case Next(ev, src) => Then([ev], Decode(src))
  }

  /** `isPrimitiveTag`: the P/C bit (bit 6, `0x20`) of the first tag octet is clear;
      `tag[0]` of an empty tag throws. */
  function IsPrimitiveTag(tag: seq<Byte>): (r: Result<bool, Exception>)
    ensures r.Err? <==> tag == []
    ensures r.Err? ==> r.error == IndexOutOfBounds
  {
    if tag == [] then Err(IndexOutOfBounds)
    else Ok((tag[0] & MASK_PC_BITS) >> 5 == 0)
  }

  /** A tag is primitive exactly when the sixth bit of its first octet, counting from 1 at the
      least significant end, is 0; an empty tag is an error. */
  lemma IsPrimitiveTagBit(tag: seq<Byte>)
    ensures IsPrimitiveTag(tag).Err? <==> tag == []
    ensures tag != [] ==> (IsPrimitiveTag(tag) == Ok(true) <==> (tag[0] as nat / 32) % 2 == 0)
  {
    if tag != [] {
      var b := tag[0];
      assert (b & 0x20) >> 5 == 0 <==> (b & 0x20) == 0;
      assert (b & 0x20) == 0 <==> (b as nat / 32) % 2 == 0 by {
        var lo, hi := b & 0x1F, b >> 6;
        assert b as nat == (b >> 5) as nat * 32 + (b & 0x1F) as nat;
        assert (b >> 5) as nat == ((b >> 5) & 1) as nat + 2 * (b >> 6) as nat;
        assert (b & 0x20) == 0 <==> ((b >> 5) & 1) == 0;
      }
    }
  }

  /** `ByteArray(n)` and one `read` into it. */
  method ReadOnce(input: InputStream, n: nat) returns (buffer: seq<Byte>)
    modifies input
    ensures (buffer, input.State()) == SingleRead(old(input.State()), n)
  {
    var data := new Byte[n](_ => 0);
    ZerosAreZero(n);
    assert data[..] == Zeros(n);
    ghost var s0 := input.State();
    var readLength := input.Read(data, 0, n);
    if readLength > 0 {
      ZerosSuffix(n, readLength);
      assert data[..] == data[..readLength] + data[readLength..];
    }
    buffer := data[..];
  }

  /** `readLength`. */
  method ReadLength(input: InputStream) returns (r: Result<nat, Exception>)
    modifies input
    ensures Got(r, input.State()) == LengthOf(old(input.State()))
  {
    ghost var s0 := input.State();
    var b := input.ReadByte();
    if b < 0 {
      return Err(StreamCorrupted);
    }
    var octet := b as Byte;
    BerDecoderKt.MsbMask(octet);
    assert octet == s0.rest[0] && input.State() == Source(s0.rest[1..], s0.caps);
    // `b` is 0..255 here, so `b and 0x80 != 0` is `b >= 0x80` and `b xor 0x80` is `b - 0x80`.
    if b < 0x80 {
      return Ok(b);
    }
    var fieldLength := b - 0x80;
    if fieldLength > MAX_LENGTH_FIELD_LENGTH {
      return Err(InvalidObject);
    }
    var length := ReadOnce(input, fieldLength);
    return Ok(Unsigned(length));
  }

  /** `dispatchOnItemDetected`. */
  method DispatchOnItemDetected(tag: seq<Byte>, length: nat, input: InputStream, callback: Recorder)
    modifies input, callback
    ensures var t := Dispatch(tag, length, old(input.State()));
      input.State() == t.src && callback.events == old(callback.events) + [t.event]
  {
    var isLargeItem := BitLength(length) > 31;
    if !isLargeItem {
      LargeIff(length);
      var data := ReadOnce(input, ToInt(length));
      callback.OnItemDetected(tag, data);
    } else {
      callback.OnLargeItemDetected(tag, length);
    }
  }

  /** `readFrom`: the state loop over a nullable tag and length. */
  method ReadFrom(input: InputStream, callback: Recorder) returns (error: Option<Exception>)
    modifies input, callback
    ensures Decoded(callback.events, error, input.State()) == Then(old(callback.events), Decode(old(input.State())))
  {
    ghost var target := Then(callback.events, Decode(input.State()));
    var tag: Option<seq<Byte>> := None;
    var length: Option<nat> := None;
    while true
      invariant tag.None? ==> length.None?
      invariant tag.None? ==> Then(callback.events, Decode(input.State())) == target
      invariant tag.Some? && length.None? ==>
        Then(callback.events, Resume(ItemAfterTag(tag.value, input.State()))) == target
      invariant tag.Some? && length.Some? ==>
        Then(callback.events, Resume(Dispatch(tag.value, length.value, input.State()))) == target
      decreases 3 * |input.rest| + if tag.None? then 0 else if length.None? then 2 else 1
    {
      if tag.None? {
        ghost var pre := input.State();
        tag := ReadTagFieldBytes(input);
        if tag.None? {
          break;
        }
        continue;
      } else if length.None? {
        ghost var pre := input.State();
        var l := ReadLength(input);
        if l.Err? {
          return Some(l.error);
        }
        length := Some(l.value);
        continue;
      } else {
        ghost var pre, evs := input.State(), callback.events;
        DispatchOnItemDetected(tag.value, length.value, input, callback);
        BerDecoderKt.ThenThen(evs, Dispatch(tag.value, length.value, pre).event, Decode(input.State()));
      }
      tag := None;
      length := None;
    }
    return None;
  }

  /** The length rules: the end of the input, the short form, `80` as length 0 and a long form
      with too many octets. */
  lemma LengthOfCases(s: Source)
    ensures s.rest == [] ==> LengthOf(s) == Got(Err(StreamCorrupted), s)
    ensures s.rest != [] && s.rest[0] < 0x80 ==> LengthOf(s) == Got(Ok(s.rest[0] as nat), Source(s.rest[1..], s.caps))
    ensures s.rest != [] && s.rest[0] == 0x80 ==> LengthOf(s) == Got(Ok(0), Source(s.rest[1..], s.caps))
    ensures s.rest != [] && s.rest[0] > 0x80 + 126 ==> LengthOf(s) == Got(Err(InvalidObject), Source(s.rest[1..], s.caps))
  {
    if s.rest != [] {
      BerDecoderKt.MsbMask(s.rest[0]);
      if s.rest[0] == 0x80 {
        assert Zeros(0) == [];
      }
    }
  }

  /** After the descriptor `80 + k`, `readLength` is one read into k zeroed octets. */
  lemma LengthOfLongStep(s: Source, k: nat)
    requires 1 <= k <= 126 && 1 <= |s.rest| && s.rest[0] as int == 0x80 + k
    ensures var g := SingleRead(Source(s.rest[1..], s.caps), k);
      LengthOf(s) == Got(Ok(Unsigned(g.0)), g.1)
  {
    BerDecoderKt.MsbMask(s.rest[0]);
  }

  /** Without fragmentation one read delivers what it asks for as far as the input goes; the
      octets the input does not have stay zero. */
  lemma SingleReadUnfragmented(s: Source, n: nat)
    requires s.caps == []
    ensures n <= |s.rest| ==> SingleRead(s, n) == (s.rest[..n], Source(s.rest[n..], []))
    ensures n > |s.rest| ==> SingleRead(s, n) == (s.rest + Zeros(n - |s.rest|), Source([], []))
  {
    var m := |s.rest|;
    if n == 0 {
      assert s.rest[..0] == [] == Zeros(0) && s.rest[0..] == s.rest;
    } else if n <= m {
      assert s.rest[..n] + Zeros(0) == s.rest[..n];
    } else if m == 0 {
      assert s.rest + Zeros(n) == Zeros(n);
    } else {
      assert s.rest[..m] == s.rest && s.rest[m..] == [];
    }
  }

  /** Without fragmentation a long-form length is the number in the k octets after `80 + k`;
      when fewer are left, the missing low-order octets count as zero and no exception is
      thrown. */
  lemma LengthOfLong(s: Source, k: nat)
    requires 1 <= k <= 126 && 1 <= |s.rest| && s.rest[0] as int == 0x80 + k && s.caps == []
    ensures var g := LengthOf(s);
      && (k < |s.rest| ==> g == Got(Ok(Unsigned(s.rest[1..1 + k])), Source(s.rest[1 + k..], [])))
      && (k >= |s.rest| ==> g == Got(Ok(Unsigned(s.rest[1..] + Zeros(k - (|s.rest| - 1)))), Source([], [])))
  {
    hide LengthOf, SingleRead;
    LengthOfLongStep(s, k);
    var s1 := Source(s.rest[1..], s.caps);
    SingleReadUnfragmented(s1, k);
    if k < |s.rest| {
      assert s1.rest[..k] == s.rest[1..1 + k] && s1.rest[k..] == s.rest[1 + k..];
    }
  }

  /** The truncated field `82 FF` reads as 0xFF00. */
  lemma LengthOfTruncatedFixture()
    ensures LengthOf(Source([0x82, 0xFF], [])) == Got(Ok(0xFF00), Source([], []))
  {
    var s := Source([0x82, 0xFF], []);
    LengthOfLong(s, 2);
    assert s.rest[1..] + Zeros(1) == [0xFF, 0];
    UnsignedShort(0xFF, 0);
  }

  /** A tag, a short length n and n octets are one item, and decoding goes on after them. */
  lemma DecodeShortItem(tag: seq<Byte>, value: seq<Byte>, more: seq<Byte>)
    requires WellFormedTag(tag) && |value| < 0x80
    ensures Decode(Source(tag + [|value| as Byte] + value + more, []))
            == Then([Item(tag, value)], Decode(Source(more, [])))
  {
    var n := |value|;
    var rest := [n as Byte] + value + more;
    assert tag + [n as Byte] + value + more == tag + rest;
    TagFieldComplete(tag, rest);
    ItemAfterTagShort(tag, value, more);
  }

  lemma ItemAfterTagShort(tag: seq<Byte>, value: seq<Byte>, more: seq<Byte>)
    requires |value| < 0x80
    ensures ItemAfterTag(tag, Source([|value| as Byte] + value + more, [])) == Next(Item(tag, value), Source(more, []))
  {
    var n := |value|;
    var rest := [n as Byte] + value + more;
    OctetValue(n);
    LengthOfCases(Source(rest, []));
    assert rest[1..] == value + more;
    var v := Source(value + more, []);
    hide LengthOf, BitLength, Dispatch, SingleRead;
    DispatchCases(tag, n, v);
    SingleReadUnfragmented(v, n);
    assert (value + more)[..n] == value && (value + more)[n..] == more;
  }

  lemma SingleReadFixture()
    ensures SingleRead(Source([0xAA, 0xBB], [1]), 2) == ([0xAA, 0x00], Source([0xBB], []))
  {
    var v := Source([0xAA, 0xBB], [1]);
    assert Granted(v, 2) == 1;
    assert v.rest[..1] == [0xAA] && v.rest[1..] == [0xBB] && Zeros(1) == [0];
    assert v.caps[1..] == [];
    assert AfterRead(v, 2) == Source([0xBB], []);
    assert v.rest[..1] + Zeros(1) == [0xAA, 0x00];
    assert SingleRead(v, 2).0 == [0xAA, 0x00];
  }

  /** Fragmented input: a read that delivers one octet of a two-octet value leaves a zero, and
      the octet it left behind is taken for the next tag, whose length then runs into the end of
      the input. */
  lemma DecodeShortRead()
    ensures Decode(Source([0x01, 0x02, 0xAA, 0xBB], [1]))
            == Decoded([Item([0x01], [0xAA, 0x00])], Some(StreamCorrupted), Source([], []))
  {
    hide NextItem;
    ShortReadFirst();
    ShortReadSecond();
  }

  lemma ShortReadFirst()
    ensures NextItem(Source([0x01, 0x02, 0xAA, 0xBB], [1])) == Next(Item([0x01], [0xAA, 0x00]), Source([0xBB], []))
  {
    var s := Source([0x01, 0x02, 0xAA, 0xBB], [1]);
    TagFieldSingle(0x01, [0x02, 0xAA, 0xBB]);
    assert s.rest == [0x01] + [0x02, 0xAA, 0xBB];
    LengthOfCases(Source([0x02, 0xAA, 0xBB], [1]));
    assert BitLength(2) == 2;
    SingleReadFixture();
  }

  lemma ShortReadSecond()
    ensures NextItem(Source([0xBB], [])) == Stop(Some(StreamCorrupted), Source([], []))
  {
    TagFieldSingle(0xBB, []);
    assert [0xBB] + [] == [0xBB];
    LengthOfCases(Source([], []));
  }

  /** The end of the input, even inside a tag, ends `readFrom` without an exception. */
  lemma DecodeTruncatedTag(s: Source)
    requires OpenTag(s.rest)
    ensures Decode(s) == Decoded([], None, Source([], s.caps))
  {
    TagFieldNone(s.rest);
  }
}
