/** The current BER-TLV decoder of the runtime library (`BerTlvDecoder.kt`): it retries partial
    reads, reports items of indefinite length, stops at the end-of-contents marker `00 00` and
    hands lengths that do not fit an Int to a separate callback. */
module BerDecoderKt {
  import opened Bytes
  import opened Streams
  import opened BerCommon

  const MAX_LENGTH_FIELD_LENGTH: nat := 126

  /** The retry loop of `readLengthFieldBytes` for the `need` octets still missing. It asks for
      all of them but carries on only while a read delivers fewer than `need - 1`, so a read one
      octet short ends the loop and leaves that octet zero in the buffer. */
  function LengthFieldFill(s: Source, need: nat): (g: Got<seq<Byte>>)
    requires need >= 1
    ensures g.result.Ok? ==> |g.result.value| == need
    ensures g.result.Err? ==> g.result.error == StreamCorrupted
    ensures |g.src.rest| <= |s.rest|
    decreases need
  {
    var r := Granted(s, need);
    if r < 0 then Got(Err(StreamCorrupted), AfterRead(s, need))
    else if r < need - 1 then PrependOk(s.rest[..r], LengthFieldFill(AfterRead(s, need), need - r))
    else Got(Ok(s.rest[..r] + Zeros(need - r)), AfterRead(s, need))
  }

  /** One turn of the length-field retry loop. */
  lemma LengthFieldFillStep(s: Source, need: nat)
    requires need >= 1
    ensures var r := Granted(s, need);
      && (r < 0 ==> LengthFieldFill(s, need) == Got(Err(StreamCorrupted), s))
      && (0 <= r < need - 1 ==>
            LengthFieldFill(s, need) == PrependOk(s.rest[..r], LengthFieldFill(AfterRead(s, need), need - r)))
      && (need - 1 <= r ==> LengthFieldFill(s, need) == Got(Ok(s.rest[..r] + Zeros(need - r)), AfterRead(s, need)))
  {
  }

  /** `readLengthFieldBytes`: the whole length field, descriptor octet included, or None for the
      indefinite form `80`. */
  function LengthFieldBytes(s: Source): (g: Got<Option<seq<Byte>>>)
    ensures |g.src.rest| <= |s.rest|
    ensures g.result.Ok? ==> |g.src.rest| < |s.rest|
  {
    if s.rest == [] then Got(Err(StreamCorrupted), s)
    else
      var b := s.rest[0];
      var s1 := Source(s.rest[1..], s.caps);
      if b == MASK_MSB_BITS then Got(Ok(None), s1)
      else if b & MASK_MSB_BITS == 0 then Got(Ok(Some([b])), s1)
      else
        var fieldLength := (b ^ MASK_MSB_BITS) as nat;
        if fieldLength > MAX_LENGTH_FIELD_LENGTH then Got(Err(InvalidObject), s1)
        else
          var g := LengthFieldFill(s1, fieldLength);
          if g.result.Err? then Got(Err(g.result.error), g.src)
          else Got(Ok(Some([b] + g.result.value)), g.src)
  }

  /** The value a length field stands for: a short field is its own value, a long one the
      unsigned number after the descriptor octet. */
  function LengthValue(bytes: seq<Byte>): nat
  {
    if |bytes| <= 1 then Unsigned(bytes) else Unsigned(bytes[1..])
  }

  /** `readLength`. */
  function LengthOf(s: Source): (g: Got<Option<nat>>)
    ensures |g.src.rest| <= |s.rest|
    ensures g.result.Ok? ==> |g.src.rest| < |s.rest|
  {
    var f := LengthFieldBytes(s);
    match f.result
    case Err(e) => Got(Err(e), f.src)
    case Ok(None) => Got(Ok(None), f.src)
    case Ok(Some(bytes)) => Got(Ok(Some(LengthValue(bytes))), f.src)
  }

  /** `readValueFieldBytes`: `length.toInt()` octets through the retry loop. */
  function ValueFieldBytes(s: Source, length: nat): (g: Got<seq<Byte>>)
    ensures |g.src.rest| <= |s.rest|
    ensures g.result.Ok? ==> |g.result.value| == ToInt(length)
    ensures g.result.Err? ==> (g.result.error == NegativeArraySize <==> ToInt(length) < 0)
  {
    var dataLength := ToInt(length);
    if dataLength < 0 then Got(Err(NegativeArraySize), s) else Fill(s, dataLength)
  }

  /** One turn of the `readFrom` loop: the item at the head of a source, or how the decoding
      ends there. */
  function NextItem(s: Source): (t: Turn)
    ensures t.Next? ==> |t.src.rest| < |s.rest|
  {
    var tr := TagField(s.rest);
    if tr.tag.None? then Stop(None, Source(tr.rest, s.caps))
    else ItemAfterTag(tr.tag.value, Source(tr.rest, s.caps))
  }

  /** The rest of one turn once a tag has been read: its length, then its value unless the
      item is end-of-contents, of unknown length or too large for an Int. */
  function ItemAfterTag(tag: seq<Byte>, s: Source): (t: Turn)
    ensures t.Next? ==> |t.src.rest| < |s.rest| && t.event.tag == tag
    ensures t.Next? && t.event.Large? ==> t.event.length >= 0x8000_0000
    ensures t.Next? && t.event.Item? ==> |t.event.value| < 0x8000_0000
  {
    var l := LengthOf(s);
    match l.result
    case Err(e) => Stop(Some(e), l.src)
    case Ok(None) => Next(UnknownLength(tag), l.src)
    case Ok(Some(length)) =>
      LargeIff(length);
      if tag == [0] && length == 0 then Stop(None, l.src)
      else if BitLength(length) > 31 then Next(Large(tag, length), l.src)
      else
        var v := ValueFieldBytes(l.src, length);
        if v.result.Err? then Stop(Some(v.result.error), v.src)
        else Next(Item(tag, v.result.value), v.src)
  }

  /** A turn on an input that starts with a complete tag goes on after that tag. */
  lemma NextItemAfterTag(tag: seq<Byte>, rest: seq<Byte>, caps: seq<Positive>)
    requires WellFormedTag(tag)
    ensures NextItem(Source(tag + rest, caps)) == ItemAfterTag(tag, Source(rest, caps))
  {
    TagFieldComplete(tag, rest);
  }

  /** `readFrom`: the callbacks made on the items of a source, and how the decoding ends. */
  function Decode(s: Source): (d: Decoded)
    ensures |d.events| + |d.src.rest| <= |s.rest|
    decreases |s.rest|
  {
    match NextItem(s)
    case Stop(e, src) => Decoded([], e, src)
    case Next(ev, src) => Then([ev], Decode(src))
  }

  /** `readLengthFieldBytes`. */
  method ReadLengthFieldBytes(input: InputStream) returns (r: Result<Option<seq<Byte>>, Exception>)
    modifies input
    ensures Got(r, input.State()) == LengthFieldBytes(old(input.State()))
  {
    hide LengthFieldFill;
    ghost var s0 := input.State();
    var b := input.ReadByte();
    if b < 0 {
      return Err(StreamCorrupted);
    }
    var octet := b as Byte;
    assert octet == s0.rest[0] && input.State() == Source(s0.rest[1..], s0.caps);
    // `b` is 0..255 here, so the source's `b and 0x80 != 0` is `b >= 0x80` and its
    // `b xor 0x80` is `b - 0x80`.
    if b == 0x80 {
      LengthFieldBytesShort(s0);
      return Ok(None);
    }
    if b < 0x80 {
      LengthFieldBytesShort(s0);
      return Ok(Some([octet]));
    }
    var fieldLength := b - 0x80;
    LengthFieldBytesLong(s0);
    if fieldLength > MAX_LENGTH_FIELD_LENGTH {
      return Err(InvalidObject);
    }
    r := ReadLongLengthField(input, octet, fieldLength);
  }

  /** The long form of `readLengthFieldBytes`: a buffer holding the descriptor octet, then the
      retry loop for the octets after it. */
  method ReadLongLengthField(input: InputStream, octet: Byte, fieldLength: nat)
    returns (r: Result<Option<seq<Byte>>, Exception>)
    requires 1 <= fieldLength
    modifies input
    ensures var g := LengthFieldFill(old(input.State()), fieldLength);
      Got(r, input.State()) == if g.result.Err? then Got(Err(g.result.error), g.src)
                               else Got(Ok(Some([octet] + g.result.value)), g.src)
  {
    var lengthFieldSize := 1 + fieldLength;
    var lengthFieldBytes := new Byte[lengthFieldSize](_ => 0);
    lengthFieldBytes[0] := octet;
    assert FieldBuffer(lengthFieldBytes[..], octet, [], fieldLength) by {
      assert lengthFieldBytes[..1] == [octet];
      ZerosAreZero(fieldLength);
    }
    var complete := FillLengthFieldBytes(input, lengthFieldBytes, octet, fieldLength);
    if !complete {
      return Err(StreamCorrupted);
    }
    return Ok(Some(lengthFieldBytes[..]));
  }

  /** The retry loop of `readLengthFieldBytes`, filling the buffer behind the descriptor octet;
      false when it ends in StreamCorruptedException. */
  method FillLengthFieldBytes(input: InputStream, lengthFieldBytes: array<Byte>, octet: Byte, fieldLength: nat)
    returns (complete: bool)
    requires 1 <= fieldLength && lengthFieldBytes.Length == fieldLength + 1
    requires FieldBuffer(lengthFieldBytes[..], octet, [], fieldLength)
    modifies input, lengthFieldBytes
    ensures var g := LengthFieldFill(old(input.State()), fieldLength);
      && input.State() == g.src
      && (complete <==> g.result.Ok?)
      && (complete ==> lengthFieldBytes[..] == [octet] + g.result.value)
      && (!complete ==> g.result == Err(StreamCorrupted))
  {
    hide LengthFieldFill, FieldBuffer;
    ghost var s1 := input.State();
    ghost var got: seq<Byte> := [];
    var lengthFieldSize := 1 + fieldLength;
    var offset := 1;
    PrependOkNothing(LengthFieldFill(s1, fieldLength));
    while true
      invariant 1 <= offset < lengthFieldSize && offset == 1 + |got|
      invariant FieldBuffer(lengthFieldBytes[..], octet, got, lengthFieldSize - offset)
      invariant PrependOk(got, LengthFieldFill(input.State(), lengthFieldSize - offset)) == LengthFieldFill(s1, fieldLength)
      decreases lengthFieldSize - offset
    {
      ghost var cur := input.State();
      ghost var need := lengthFieldSize - offset;
      ghost var before := lengthFieldBytes[..];
      var readLength := input.Read(lengthFieldBytes, offset, lengthFieldSize - offset);
      if readLength < 0 {
        LengthFieldFillEnd(s1, fieldLength, got, cur, need);
        return false;
      }
      ghost var chunk := cur.rest[..readLength];
      BufferAfterRead(octet, got, chunk, need, before, lengthFieldBytes[..]);
      if readLength < fieldLength - offset {
        LengthFieldFillShort(s1, fieldLength, got, cur, need);
        got := got + chunk;
        offset := offset + readLength;
      } else {
        LengthFieldFillLast(s1, fieldLength, got, cur, need);
        return true;
      }
    }
  }

  /** A read at the end of the input ends the length-field loop in StreamCorruptedException. */
  lemma LengthFieldFillEnd(s1: Source, fieldLength: nat, got: seq<Byte>, cur: Source, need: nat)
    requires need >= 1 && fieldLength >= 1
    requires PrependOk(got, LengthFieldFill(cur, need)) == LengthFieldFill(s1, fieldLength)
    requires Granted(cur, need) < 0
    ensures LengthFieldFill(s1, fieldLength) == Got(Err(StreamCorrupted), cur)
  {
    LengthFieldFillStep(cur, need);
  }

  /** A read more than one octet short continues the length-field loop with what is still missing. */
  lemma LengthFieldFillShort(s1: Source, fieldLength: nat, got: seq<Byte>, cur: Source, need: nat)
    requires need >= 1 && fieldLength >= 1
    requires PrependOk(got, LengthFieldFill(cur, need)) == LengthFieldFill(s1, fieldLength)
    requires 0 <= Granted(cur, need) < need - 1
    ensures var r := Granted(cur, need);
      PrependOk(got + cur.rest[..r], LengthFieldFill(AfterRead(cur, need), need - r)) == LengthFieldFill(s1, fieldLength)
  {
    var r := Granted(cur, need);
    LengthFieldFillStep(cur, need);
    PrependOkTwice(got, cur.rest[..r], LengthFieldFill(AfterRead(cur, need), need - r));
  }

  /** A read at most one octet short ends the length-field loop. */
  lemma LengthFieldFillLast(s1: Source, fieldLength: nat, got: seq<Byte>, cur: Source, need: nat)
    requires need >= 1 && fieldLength >= 1
    requires PrependOk(got, LengthFieldFill(cur, need)) == LengthFieldFill(s1, fieldLength)
    requires need - 1 <= Granted(cur, need)
    ensures var r := Granted(cur, need);
      LengthFieldFill(s1, fieldLength) == Got(Ok(got + (cur.rest[..r] + Zeros(need - r))), AfterRead(cur, need))
  {
    LengthFieldFillStep(cur, need);
  }

  /** The length-field buffer: the descriptor octet, the octets read so far, and zeros for the
      `missing` ones. */
  ghost predicate FieldBuffer(buf: seq<Byte>, octet: Byte, got: seq<Byte>, missing: nat)
  {
    |buf| == 1 + |got| + missing && buf[..1 + |got|] == [octet] + got && buf[1 + |got|..] == Zeros(missing)
  }

  /** The buffer `[octet] + got + zeros` after a read that stores `chunk` behind `got`. */
  lemma BufferAfterRead(octet: Byte, got: seq<Byte>, chunk: seq<Byte>, need: nat, before: seq<Byte>, after: seq<Byte>)
    requires |chunk| <= need && FieldBuffer(before, octet, got, need)
    requires after == before[..1 + |got|] + chunk + before[1 + |got| + |chunk|..]
    ensures FieldBuffer(after, octet, got + chunk, need - |chunk|)
    ensures after == [octet] + (got + (chunk + Zeros(need - |chunk|)))
  {
    var off, r := 1 + |got|, |chunk|;
    var tail := Zeros(need - r);
    ZerosSuffix(need, r);
    assert before[off + r..] == Zeros(need)[r..] == tail;
    assert after == ([octet] + got) + chunk + tail;
    assert after[..off + r] == [octet] + (got + chunk);
  }

  /** The outcomes of `readLengthFieldBytes` when the first octet is the whole field, or stands
      for the indefinite form, with the masks read as comparisons of its value. */
  lemma LengthFieldBytesShort(s: Source)
    requires s.rest != [] && s.rest[0] as int <= 0x80
    ensures s.rest[0] as int == 0x80 ==> LengthFieldBytes(s) == Got(Ok(None), Source(s.rest[1..], s.caps))
    ensures s.rest[0] as int < 0x80 ==> LengthFieldBytes(s) == Got(Ok(Some([s.rest[0]])), Source(s.rest[1..], s.caps))
  {
    MsbMask(s.rest[0]);
  }

  /** The outcomes of `readLengthFieldBytes` after a descriptor octet of the long form. */
  lemma LengthFieldBytesLong(s: Source)
    requires s.rest != [] && s.rest[0] as int > 0x80
    ensures var fieldLength := s.rest[0] as int - 0x80;
      var g := LengthFieldFill(Source(s.rest[1..], s.caps), fieldLength);
      && (fieldLength > MAX_LENGTH_FIELD_LENGTH ==>
            LengthFieldBytes(s) == Got(Err(InvalidObject), Source(s.rest[1..], s.caps)))
      && (fieldLength <= MAX_LENGTH_FIELD_LENGTH ==>
            LengthFieldBytes(s) == if g.result.Err? then Got(Err(g.result.error), g.src)
                                   else Got(Ok(Some([s.rest[0]] + g.result.value)), g.src))
  {
    MsbMask(s.rest[0]);
  }

  /** On an octet, `b and 0x80 != 0` is `b >= 0x80`, and then `b xor 0x80` is `b - 0x80`. */
  lemma MsbMask(b: Byte)
    ensures b & MASK_MSB_BITS == 0 <==> b as int < 0x80
    ensures b as int >= 0x80 ==> (b ^ MASK_MSB_BITS) as int == b as int - 0x80
    ensures (b == MASK_MSB_BITS) == (b as int == 0x80)
  {
  }

  /** `readLength`. */
  method ReadLength(input: InputStream) returns (r: Result<Option<nat>, Exception>)
    modifies input
    ensures Got(r, input.State()) == LengthOf(old(input.State()))
  {
    var lengthBytes := ReadLengthFieldBytes(input);
    if lengthBytes.Err? {
      return Err(lengthBytes.error);
    }
    if lengthBytes.value.None? {
      return Ok(None);
    }
    var bytes := lengthBytes.value.value;
    var lengthFieldSize := |bytes|;
    if lengthFieldSize <= 1 {
      return Ok(Some(Unsigned(bytes)));
    } else {
      assert bytes[1..lengthFieldSize] == bytes[1..];
      return Ok(Some(Unsigned(bytes[1..lengthFieldSize])));
    }
  }

  /** `readValueFieldBytes`. */
  method ReadValueFieldBytes(input: InputStream, length: nat) returns (r: Result<seq<Byte>, Exception>)
    modifies input
    ensures Got(r, input.State()) == ValueFieldBytes(old(input.State()), length)
  {
    var dataLength := ToInt(length);
    if dataLength < 0 {
      return Err(NegativeArraySize);
    }
    r := ReadFully(input, dataLength);
  }

  /** `readFrom`: reports every item to the callback until the input ends, the end-of-contents
      marker arrives or an exception is thrown. */
  method ReadFrom(input: InputStream, callback: Recorder) returns (error: Option<Exception>)
    modifies input, callback
    ensures Decoded(callback.events, error, input.State())
            == Then(old(callback.events), Decode(old(input.State())))
  {
    ghost var ev0, s0 := callback.events, input.State();
    while true
      invariant Then(callback.events, Decode(input.State())) == Then(ev0, Decode(s0))
      decreases |input.rest|
    {
      ghost var pre, evs := input.State(), callback.events;
      var stop;
      stop, error := ReadItem(input, callback);
      if stop {
        return;
      }
      ThenThen(evs, NextItem(pre).event, Decode(input.State()));
    }
  }

  /** Events delivered one after the other. */
  lemma ThenThen(evs: seq<Event>, ev: Event, d: Decoded)
    ensures Then(evs + [ev], d) == Then(evs, Then([ev], d))
  {
    assert (evs + [ev]) + d.events == evs + ([ev] + d.events);
  }

  /** The body of the `readFrom` loop: reads one item and reports it; true when the loop ends,
      with the exception it ends with, if any. */
  method ReadItem(input: InputStream, callback: Recorder) returns (stop: bool, error: Option<Exception>)
    modifies input, callback
    ensures var t := NextItem(old(input.State()));
      && input.State() == t.src
      && (stop <==> t.Stop?)
      && (t.Stop? ==> error == t.error && callback.events == old(callback.events))
      && (t.Next? ==> callback.events == old(callback.events) + [t.event])
  {
    ghost var s0 := input.State();
    var tag := ReadTagFieldBytes(input);
    if tag.None? {
      return true, None;
    }
    var length := ReadLength(input);
    if length.Err? {
      return true, Some(length.error);
    }
    if length.value.None? {
      callback.OnUnknownLengthItemDetected(tag.value);
      return false, None;
    }
    var n := length.value.value;
    if tag.value == [0] && n == 0 {
      return true, None;
    }
    var isLargeItem := BitLength(n) > 31;
    if !isLargeItem {
      var value := ReadValueFieldBytes(input, n);
      if value.Err? {
        return true, Some(value.error);
      }
      callback.OnItemDetected(tag.value, value.value);
    } else {
      callback.OnLargeItemDetected(tag.value, n);
    }
    return false, None;
  }

  /** However the transport fragments the input, the length-field loop succeeds exactly when a
      byte is left and at least `need - 1` are; it then holds the next `need` octets, or, when a
      read ends one octet short, the next `need - 1` octets and a zero, leaving that octet unread. */
  lemma {:induction false} LengthFieldFillReads(s: Source, need: nat)
    requires need >= 1
    ensures FillsAsWritten(s, need, LengthFieldFill(s, need))
    decreases need
  {
    var r := Granted(s, need);
    LengthFieldFillStep(s, need);
    if 0 <= r < need - 1 {
      var t := AfterRead(s, need);
      LengthFieldFillReads(t, need - r);
      FillsAsWrittenPrepend(s, need, r, t, LengthFieldFill(t, need - r));
    } else if r >= 0 {
      assert s.rest == s.rest[..r] + s.rest[r..];
    }
  }

  /** What `LengthFieldFillReads` promises of `g`, the outcome of the loop for `need` octets. */
  ghost predicate FillsAsWritten(s: Source, need: nat, g: Got<seq<Byte>>)
    requires need >= 1
  {
    && (g.result.Ok? <==> s.rest != [] && need - 1 <= |s.rest|)
    && (g.result.Err? ==> g.result.error == StreamCorrupted && g.src.rest == [])
    && (g.result.Ok? ==>
          var k := |s.rest| - |g.src.rest|;
          && (k == need || k == need - 1)
          && 0 <= k <= |s.rest|
          && g.src.rest == s.rest[k..]
          && g.result.value == s.rest[..k] + Zeros(need - k))
  }

  /** The inductive step of `LengthFieldFillReads`: r octets in front of a loop that keeps its
      promise for the rest. */
  lemma FillsAsWrittenPrepend(s: Source, need: nat, r: nat, t: Source, g': Got<seq<Byte>>)
    requires 1 <= r < need - 1 && r <= |s.rest| && t.rest == s.rest[r..]
    requires FillsAsWritten(t, need - r, g')
    ensures FillsAsWritten(s, need, PrependOk(s.rest[..r], g'))
  {
    if g'.result.Ok? {
      var k' := |t.rest| - |g'.src.rest|;
      var p, q, z := s.rest[..r], t.rest[..k'], Zeros(need - r - k');
      assert p + q == s.rest[..r + k'];
      assert p + (q + z) == (p + q) + z;
      assert t.rest[k'..] == s.rest[r + k'..];
    }
  }

  /** Unfragmented, the length-field loop takes the next `need` octets in one read. */
  lemma LengthFieldFillWhole(s: Source, need: nat)
    requires need >= 1 && s.caps == [] && need <= |s.rest|
    ensures LengthFieldFill(s, need) == Got(Ok(s.rest[..need]), Source(s.rest[need..], []))
  {
    LengthFieldFillStep(s, need);
    assert Granted(s, need) == need;
    assert s.rest[..need] + Zeros(0) == s.rest[..need];
  }

  /** The length rules of `readLength`: the end of the input, the indefinite form, the short form
      and a long form with too many octets. */
  lemma LengthOfCases(s: Source)
    ensures s.rest == [] ==> LengthOf(s) == Got(Err(StreamCorrupted), s)
    ensures s.rest != [] && s.rest[0] == 0x80 ==> LengthOf(s) == Got(Ok(None), Source(s.rest[1..], s.caps))
    ensures s.rest != [] && s.rest[0] < 0x80 ==>
      LengthOf(s) == Got(Ok(Some(s.rest[0] as nat)), Source(s.rest[1..], s.caps))
    ensures s.rest != [] && s.rest[0] > 0x80 + 126 ==>
      LengthOf(s) == Got(Err(InvalidObject), Source(s.rest[1..], s.caps))
  {
    if s.rest != [] {
      if s.rest[0] as int <= 0x80 {
        LengthFieldBytesShort(s);
        if s.rest[0] < 0x80 {
          assert Unsigned([s.rest[0]]) == s.rest[0] as nat by {
            assert [s.rest[0]][..0] == [];
          }
        }
      } else {
        LengthFieldBytesLong(s);
      }
    }
  }

  /** A long-form length, read whole, is the unsigned big-endian number in the k octets after the
      descriptor `80 + k`; what follows them is left unread. */
  lemma LengthOfLong(s: Source, k: nat)
    requires 1 <= k <= 126 && k < |s.rest| && s.rest[0] as int == 0x80 + k && s.caps == []
    ensures LengthOf(s) == Got(Ok(Some(Unsigned(s.rest[1..1 + k]))), Source(s.rest[1 + k..], []))
  {
    hide LengthFieldFill, LengthFieldBytes;
    LengthFieldBytesLong(s);
    var s1 := Source(s.rest[1..], s.caps);
    LengthFieldFillWhole(s1, k);
    assert s1.rest[..k] == s.rest[1..1 + k];
    assert s1.rest[k..] == s.rest[1 + k..];
    var bytes := [s.rest[0]] + s.rest[1..1 + k];
    assert LengthFieldBytes(s) == Got(Ok(Some(bytes)), Source(s.rest[1 + k..], []));
    assert bytes[1..] == s.rest[1..1 + k];
  }

  /** `82 FF 01` read whole is 0xFF01, and the octet after it is left. */
  lemma LengthOfFixture()
    ensures LengthOf(Source([0x82, 0xFF, 0x01, 0x05], [])) == Got(Ok(Some(0xFF01)), Source([0x05], []))
  {
    var s := Source([0x82, 0xFF, 0x01, 0x05], []);
    LengthOfLong(s, 2);
    assert s.rest[1..3] == [0xFF, 0x01];
    assert s.rest[3..] == [0x05];
    UnsignedShort(0xFF, 0x01);
  }

  /** As written, a read that delivers one octet of the two after `82` ends the loop: the field
      reads as `82 FF 00`, 0xFF00, and the `01` is left for the value. */
  lemma LengthFieldOneShort()
    ensures LengthOf(Source([0x82, 0xFF, 0x01], [1])) == Got(Ok(Some(0xFF00)), Source([0x01], []))
  {
    var s := Source([0x82, 0xFF, 0x01], [1]);
    LengthFieldBytesLong(s);
    var s1 := Source([0xFF, 0x01], [1]);
    assert s.rest[1..] == s1.rest;
    LengthFieldFillStep(s1, 2);
    assert Granted(s1, 2) == 1;
    assert AfterRead(s1, 2) == Source([0x01], []);
    assert LengthFieldFill(s1, 2) == Got(Ok([0xFF, 0]), Source([0x01], [])) by {
      assert s1.rest[..1] + Zeros(1) == [0xFF, 0];
    }
    assert ([0x82] + [0xFF, 0])[1..] == [0xFF, 0];
    UnsignedShort(0xFF, 0);
  }

  /** As written, a long-form field one octet short at the end of the input is accepted with a
      zero octet in place of the missing one. */
  lemma LengthFieldAtEnd()
    ensures LengthOf(Source([0x82, 0xFF], [])) == Got(Ok(Some(0xFF00)), Source([], []))
  {
    var s := Source([0x82, 0xFF], []);
    LengthFieldBytesLong(s);
    var s1 := Source([0xFF], []);
    assert s.rest[1..] == s1.rest;
    LengthFieldFillStep(s1, 2);
    assert Granted(s1, 2) == 1;
    assert AfterRead(s1, 2) == Source([], []);
    assert LengthFieldFill(s1, 2) == Got(Ok([0xFF, 0]), Source([], [])) by {
      assert s1.rest[..1] + Zeros(1) == [0xFF, 0];
    }
    assert ([0x82] + [0xFF, 0])[1..] == [0xFF, 0];
    UnsignedShort(0xFF, 0);
  }

  /** `readLengthFieldBytes` as evidently intended: the retry loop runs until all octets of the
      field have arrived. */
  function LengthFieldBytesIntended(s: Source): (g: Got<Option<seq<Byte>>>)
    ensures |g.src.rest| <= |s.rest|
    ensures g.result.Ok? ==> |g.src.rest| < |s.rest|
  {
    if s.rest == [] then Got(Err(StreamCorrupted), s)
    else
      var b := s.rest[0];
      var s1 := Source(s.rest[1..], s.caps);
      if b == MASK_MSB_BITS then Got(Ok(None), s1)
      else if b & MASK_MSB_BITS == 0 then Got(Ok(Some([b])), s1)
      else
        var fieldLength := (b ^ MASK_MSB_BITS) as nat;
        if fieldLength > MAX_LENGTH_FIELD_LENGTH then Got(Err(InvalidObject), s1)
        else
          var g := Fill(s1, fieldLength);
          if g.result.Err? then Got(Err(g.result.error), g.src)
          else Got(Ok(Some([b] + g.result.value)), g.src)
  }

  /** `readLength` over the intended length-field loop. */
  function LengthOfIntended(s: Source): (g: Got<Option<nat>>)
    ensures |g.src.rest| <= |s.rest|
  {
    var f := LengthFieldBytesIntended(s);
    match f.result
    case Err(e) => Got(Err(e), f.src)
    case Ok(None) => Got(Ok(None), f.src)
    case Ok(Some(bytes)) => Got(Ok(Some(LengthValue(bytes))), f.src)
  }

  /** With the intended loop a long-form length is the number in the k octets after the
      descriptor `80 + k` however the input is fragmented, and a field cut short by the end of the
      input is StreamCorruptedException. */
  lemma LengthOfIntendedLong(s: Source, k: nat)
    requires 1 <= k <= 126 && 1 <= |s.rest| && s.rest[0] as int == 0x80 + k
    ensures var g := LengthOfIntended(s);
      && (k < |s.rest| ==> g.result == Ok(Some(Unsigned(s.rest[1..1 + k]))) && g.src.rest == s.rest[1 + k..])
      && (k >= |s.rest| ==> g.result == Err(StreamCorrupted) && g.src.rest == [])
  {
    LengthFieldBytesIntendedLong(s, k);
    if k < |s.rest| {
      assert s.rest[..1 + k][1..] == s.rest[1..1 + k];
    }
  }

  /** The intended loop collects the descriptor and exactly the k octets after it. */
  lemma LengthFieldBytesIntendedLong(s: Source, k: nat)
    requires 1 <= k <= 126 && 1 <= |s.rest| && s.rest[0] as int == 0x80 + k
    ensures var f := LengthFieldBytesIntended(s);
      && (k < |s.rest| ==> f.result == Ok(Some(s.rest[..1 + k])) && f.src.rest == s.rest[1 + k..])
      && (k >= |s.rest| ==> f.result == Err(StreamCorrupted) && f.src.rest == [])
  {
    hide Fill, LengthFieldBytesIntended;
    var s1 := Source(s.rest[1..], s.caps);
    var f := Fill(s1, k);
    FillReadsExactly(s1, k);
    LengthFieldBytesIntendedFill(s, k);
    if k < |s.rest| {
      assert [s.rest[0]] + s1.rest[..k] == s.rest[..1 + k];
      assert s1.rest[k..] == s.rest[1 + k..];
    }
  }

  /** After a long-form descriptor the intended loop is the plain retry loop. */
  lemma LengthFieldBytesIntendedFill(s: Source, k: nat)
    requires 1 <= k <= 126 && 1 <= |s.rest| && s.rest[0] as int == 0x80 + k
    ensures var f := Fill(Source(s.rest[1..], s.caps), k);
      LengthFieldBytesIntended(s) == if f.result.Err? then Got(Err(f.result.error), f.src)
                                     else Got(Ok(Some([s.rest[0]] + f.result.value)), f.src)
  {
    hide Fill;
    var b := s.rest[0];
    MsbMask(b);
    assert b != MASK_MSB_BITS && b & MASK_MSB_BITS != 0 && (b ^ MASK_MSB_BITS) as nat == k;
  }

  /** The two loops agree whenever the as-written one does not stop one octet early. */
  lemma {:induction false} LengthFieldFillAgrees(s: Source, need: nat)
    requires need >= 1 && need <= |s.rest|
    requires |LengthFieldFill(s, need).src.rest| == |s.rest| - need
    ensures LengthFieldFill(s, need) == Fill(s, need)
    decreases need
  {
    var r := Granted(s, need);
    LengthFieldFillStep(s, need);
    LengthFieldFillReads(s, need);
    if 0 <= r < need - 1 {
      var t := AfterRead(s, need);
      LengthFieldFillReads(t, need - r);
      LengthFieldFillAgrees(t, need - r);
    } else {
      assert r == need;
      assert s.rest[..r] + Zeros(0) == s.rest[..r];
    }
  }

  /** `readValueFieldBytes` of a length that fits an Int yields exactly the next `length` octets,
      however the input is fragmented, or StreamCorruptedException when fewer are left; a length
      whose low 32 bits read as a negative Int cannot be allocated. */
  lemma ValueFieldBytesReads(s: Source, length: nat)
    ensures var g := ValueFieldBytes(s, length);
      && (length < 0x8000_0000 && length <= |s.rest| ==>
            g.result == Ok(s.rest[..length]) && g.src.rest == s.rest[length..])
      && (length < 0x8000_0000 && length > |s.rest| ==>
            g.result == Err(StreamCorrupted) && g.src.rest == [])
      && (0x8000_0000 <= length < 0x1_0000_0000 ==> g == Got(Err(NegativeArraySize), s))
  {
    if length < 0x8000_0000 {
      FillReadsExactly(s, length);
    }
  }

  /** The end of the input, even inside a tag, ends `readFrom` without an exception. */
  lemma DecodeTruncatedTag(s: Source)
    requires OpenTag(s.rest)
    ensures Decode(s) == Decoded([], None, Source([], s.caps))
  {
    TagFieldNone(s.rest);
  }

  /** The end-of-contents octets `00 00` stop `readFrom` without a callback. */
  lemma DecodeEndOfContents(more: seq<Byte>, caps: seq<Positive>)
    ensures Decode(Source([0, 0] + more, caps)) == Decoded([], None, Source(more, caps))
  {
    var s := Source([0, 0] + more, caps);
    assert s.rest == [0] + ([0] + more);
    TagFieldSingle(0, [0] + more);
    var l := Source([0] + more, caps);
    LengthOfCases(l);
    assert l.rest[1..] == more;
    assert NextItem(s) == Stop(None, Source(more, caps));
  }

  /** The source at which the last turn of a decoding begins. */
  function LastTurn(s: Source): (u: Source)
    ensures |u.rest| <= |s.rest|
    decreases |s.rest|
  {
    match NextItem(s)
    case Stop(_, _) => s
    case Next(_, src) => LastTurn(src)
  }

  /** At u the decoder reads the tag `00` and then a length field of value 0 that ends at t. */
  predicate EndOfContentsAt(u: Source, t: Source)
  {
    var tr := TagField(u.rest);
    tr.tag == Some([0]) && LengthOf(Source(tr.rest, u.caps)) == Got(Ok(Some(0)), t)
  }

  /** A decoding that ends without an exception has either read the whole input or stopped
      right after a `00` tag of length 0, leaving what follows unread. */
  lemma {:induction false} DecodeEndsClean(s: Source)
    ensures var d := Decode(s);
      d.error.None? ==> d.src.rest == [] || EndOfContentsAt(LastTurn(s), d.src)
    decreases |s.rest|
  {
    match NextItem(s)
    case Stop(e, src) =>
    case Next(ev, src) =>
      DecodeEndsClean(src);
  }

  /** An item of indefinite length is reported and decoding goes on right after its length
      octet, without reading a value. */
  lemma DecodeUnknownLength(tag: seq<Byte>, more: seq<Byte>, caps: seq<Positive>)
    requires WellFormedTag(tag)
    ensures Decode(Source(tag + [0x80] + more, caps)) == Then([UnknownLength(tag)], Decode(Source(more, caps)))
  {
    assert tag + [0x80] + more == tag + ([0x80] + more);
    NextItemAfterTag(tag, [0x80] + more, caps);
    LengthOfCases(Source([0x80] + more, caps));
    assert ([0x80] + more)[1..] == more;
  }

  /** Once a definite length n has been read: `00` with length 0 ends the decoding, a length
      of 2^31 or more is reported as large without reading a value, and any other length is
      followed by exactly n value octets read through the retry loop. */
  lemma ItemAfterLength(tag: seq<Byte>, s: Source, n: nat, t: Source)
    requires LengthOf(s) == Got(Ok(Some(n)), t)
    ensures tag == [0] && n == 0 ==> ItemAfterTag(tag, s) == Stop(None, t)
    ensures n >= 0x8000_0000 ==> ItemAfterTag(tag, s) == Next(Large(tag, n), t)
    ensures !(tag == [0] && n == 0) && n < 0x8000_0000 ==>
      var g := Fill(t, n);
      ItemAfterTag(tag, s) == if g.result.Err? then Stop(Some(g.result.error), g.src)
                              else Next(Item(tag, g.result.value), g.src)
  {
    LargeIff(n);
  }

  /** Every item whose length does not fit an Int is reported as large with that length, no
      value is read, and decoding goes on right after the length field. */
  lemma DecodeLarge(tag: seq<Byte>, rest: seq<Byte>, caps: seq<Positive>, n: nat, t: Source)
    requires WellFormedTag(tag) && n >= 0x8000_0000
    requires LengthOf(Source(rest, caps)) == Got(Ok(Some(n)), t)
    ensures Decode(Source(tag + rest, caps)) == Then([Large(tag, n)], Decode(t))
  {
    NextItemAfterTag(tag, rest, caps);
    ItemAfterLength(tag, Source(rest, caps), n, t);
  }

  /** The smallest large item: the length `84 80 00 00 00` is 2^31. */
  lemma DecodeLargeItem(tag: seq<Byte>, more: seq<Byte>)
    requires WellFormedTag(tag)
    ensures var field: seq<Byte> := [0x84, 0x80, 0, 0, 0];
      Decode(Source(tag + field + more, [])) == Then([Large(tag, 0x8000_0000)], Decode(Source(more, [])))
  {
    var field: seq<Byte> := [0x84, 0x80, 0, 0, 0];
    assert tag + field + more == tag + (field + more);
    LengthOfLargest(more);
    DecodeLarge(tag, field + more, [], 0x8000_0000, Source(more, []));
  }

  /** The length field `84 80 00 00 00` reads as 2^31. */
  lemma LengthOfLargest(more: seq<Byte>)
    ensures LengthOf(Source([0x84, 0x80, 0, 0, 0] + more, [])) == Got(Ok(Some(0x8000_0000)), Source(more, []))
  {
    var l := Source([0x84, 0x80, 0, 0, 0] + more, []);
    LengthOfLong(l, 4);
    assert l.rest[1..5] == [0x80, 0, 0, 0];
    assert l.rest[5..] == more;
    var two: seq<Byte> := [0x80, 0];
    var three: seq<Byte> := two + [0];
    UnsignedShort(0x80, 0);
    UnsignedAppend(two, 0);
    UnsignedAppend(three, 0);
    assert three + [0] == [0x80, 0, 0, 0];
  }
}
