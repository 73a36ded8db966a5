/** The Compact-TLV decoder (`CompactTlvDecoder.kt`): one octet holding a four-bit tag and a
    four-bit length, followed by that many value octets. */
module CompactDecoder {
  import opened Bytes
  import opened Streams

  /** `readTag`: bits 5 to 8 of the octet (`and 0xF0`, then `ushr 4`). The low byte of a
      two's complement Int is its Euclidean remainder modulo 256. */
  function ReadTag(tagAndLength: JInt): (tag: JByte)
    ensures 0 <= tag < 0x10
  {
    (tagAndLength % 0x100) / 0x10
  }

  /** `readLength`: bits 1 to 4 of the octet (`and 0x0F`). */
  function ReadLength(tagAndLength: JInt): (length: JInt)
    ensures 0 <= length < 0x10
  {
    tagAndLength % 0x10
  }

  /** An octet is its tag nibble followed by its length nibble. */
  lemma NibbleSplit(tagAndLength: int)
    requires 0 <= tagAndLength < 0x100
    ensures 0x10 * ReadTag(tagAndLength) + ReadLength(tagAndLength) == tagAndLength
  {
  }

  /** `1F` is tag 1 with length 15, `10` tag 1 with length 0, `FF` tag 15 with length 15. */
  lemma NibbleFixture()
    ensures ReadTag(0x1F) == 1 && ReadLength(0x1F) == 0x0F
    ensures ReadTag(0x10) == 1 && ReadLength(0x10) == 0
    ensures ReadTag(0xFF) == 0x0F && ReadLength(0xFF) == 0x0F
  {
  }

  /** What `onItemDetected` is told. */
  datatype CompactItem = CompactItem(tag: JByte, value: seq<Byte>)

  /** What one call of `readFrom` does: the items reported, the exception it ends with, if any,
      and what is left of the input. */
  datatype CompactDecoded = CompactDecoded(items: seq<CompactItem>, error: Option<Exception>, src: Source)

  /** Items delivered before the rest of a decoding. */
  function Then(items: seq<CompactItem>, d: CompactDecoded): CompactDecoded
  {
    CompactDecoded(items + d.items, d.error, d.src)
  }

  /** `readFrom`: an octet per item, an item of length 0 skipped without a callback, the value
      read by the retry loop of `readValue`; the end of the input before an item ends it
      quietly, the end inside a value with StreamCorruptedException. */
  function Decode(s: Source): (d: CompactDecoded)
    ensures |d.items| + |d.src.rest| <= |s.rest|
    ensures d.error.None? ==> d.src.rest == []
    decreases |s.rest|
  {
    if s.rest == [] then CompactDecoded([], None, s)
    else
      var tagAndLength := s.rest[0] as int;
      var s1 := Source(s.rest[1..], s.caps);
      var tag := ReadTag(tagAndLength);
      var length := ReadLength(tagAndLength);
      if length == 0 then Decode(s1)
      else
        var g := Fill(s1, length);
        match g.result
        case Err(e) => CompactDecoded([], Some(e), g.src)
        case Ok(value) => Then([CompactItem(tag, value)], Decode(g.src))
  }

  /** A callback that records what it is told. */
  class CompactRecorder {
    var items: seq<CompactItem>

    constructor ()
      ensures items == []
    {
      items := [];
    }

    method OnItemDetected(tag: JByte, value: seq<Byte>)
      modifies this
      ensures items == old(items) + [CompactItem(tag, value)]
    {
      items := items + [CompactItem(tag, value)];
    }
  }

  /** `readValue`: a buffer of `dataLength` octets (NegativeArraySizeException for a negative
      length, before anything is read) filled by the retry loop. */
  method ReadValue(input: InputStream, dataLength: JInt) returns (r: Result<seq<Byte>, Exception>)
    modifies input
    ensures dataLength < 0 ==> r == Err(NegativeArraySize) && input.State() == old(input.State())
    ensures dataLength >= 0 ==> Got(r, input.State()) == Fill(old(input.State()), dataLength)
  {
    if dataLength < 0 {
      return Err(NegativeArraySize);
    }
    r := ReadFully(input, dataLength);
  }

  lemma ThenThen(a: seq<CompactItem>, x: CompactItem, d: CompactDecoded)
    ensures Then(a + [x], d) == Then(a, Then([x], d))
  {
    assert (a + [x]) + d.items == a + ([x] + d.items);
  }

  /** `readFrom`. */
  method ReadFrom(input: InputStream, callback: CompactRecorder) returns (error: Option<Exception>)
    modifies input, callback
    ensures CompactDecoded(callback.items, error, input.State())
            == Then(old(callback.items), Decode(old(input.State())))
  {
    hide Decode;
    ghost var target := Then(callback.items, Decode(input.State()));
    while true
      invariant Then(callback.items, Decode(input.State())) == target
      decreases |input.rest|
    {
      ghost var pre := input.State();
      var tagAndLength := input.ReadByte();
      if tagAndLength < 0 {
        DecodeEmpty(pre.caps);
        break;
      }
      DecodeStep(pre);
      var tag := ReadTag(tagAndLength);
      var length := ReadLength(tagAndLength);
      if length == 0 {
        continue;
      }
      ghost var before := callback.items;
      var value := ReadValue(input, length);
      if value.Err? {
        return Some(value.error);
      }
      callback.OnItemDetected(tag, value.value);
      ThenThen(before, CompactItem(tag, value.value), Decode(input.State()));
    }
    return None;
  }

  /** One turn of `readFrom`: the octet at the head of the input, then the value it announces. */
  lemma DecodeStep(s: Source)
    requires s.rest != []
    ensures var x := s.rest[0] as int;
      var s1 := Source(s.rest[1..], s.caps);
      var g := Fill(s1, ReadLength(x));
      && (ReadLength(x) == 0 ==> Decode(s) == Decode(s1))
      && (ReadLength(x) != 0 && g.result.Err? ==> Decode(s) == CompactDecoded([], Some(g.result.error), g.src))
      && (ReadLength(x) != 0 && g.result.Ok? ==> Decode(s) == Then([CompactItem(ReadTag(x), g.result.value)], Decode(g.src)))
  {
  }

  /** What a decoding comes to, leaving out how the transport fragmented the input. */
  function Outcome(d: CompactDecoded): (seq<CompactItem>, Option<Exception>, seq<Byte>)
  {
    (d.items, d.error, d.src.rest)
  }

  /** The items, the exception and the unread rest do not depend on how the input arrives. */
  lemma {:induction false} DecodeUnfragmented(s: Source, t: Source)
    requires s.rest == t.rest
    ensures Outcome(Decode(s)) == Outcome(Decode(t))
    decreases |s.rest|
  {
    if s.rest != [] {
      var length := ReadLength(s.rest[0] as int);
      var s1, t1 := Source(s.rest[1..], s.caps), Source(t.rest[1..], t.caps);
      if length == 0 {
        DecodeUnfragmented(s1, t1);
      } else {
        FillReadsExactly(s1, length);
        FillReadsExactly(t1, length);
        var g, h := Fill(s1, length), Fill(t1, length);
        if g.result.Ok? {
          DecodeUnfragmented(g.src, h.src);
        }
      }
    }
  }

  /** An octet with length nibble 0 is skipped. */
  lemma DecodeSkipsEmpty(b: Byte, more: seq<Byte>, caps: seq<Positive>)
    requires b as int % 0x10 == 0
    ensures Decode(Source([b] + more, caps)) == Decode(Source(more, caps))
  {
    assert ([b] + more)[1..] == more;
  }

  /** An octet with length nibble n > 0 and n value octets are one item, tagged with the high
      nibble. */
  lemma DecodeItem(b: Byte, value: seq<Byte>, more: seq<Byte>)
    requires b as int % 0x10 == |value| > 0
    ensures Decode(Source([b] + value + more, []))
            == Then([CompactItem(b as int / 0x10, value)], Decode(Source(more, [])))
  {
    hide Fill, Decode, ReadTag, ReadLength;
    var s := Source([b] + value + more, []);
    assert s.rest[1..] == value + more;
    NibblesOf(b);
    DecodeStep(s);
    DecodeItemStep(value, more);
  }

  /** The tag and the length of an octet are its high and low nibbles. */
  lemma NibblesOf(b: Byte)
    ensures ReadTag(b as int) == b as int / 0x10 && ReadLength(b as int) == b as int % 0x10
  {
    assert b as int % 0x100 == b as int;
  }

  lemma DecodeItemStep(value: seq<Byte>, more: seq<Byte>)
    ensures Fill(Source(value + more, []), |value|) == Got(Ok(value), Source(more, []))
  {
    FillUnfragmented(Source(value + more, []), |value|);
    assert (value + more)[..|value|] == value && (value + more)[|value|..] == more;
  }

  /** An input that ends inside a value ends the decoding with StreamCorruptedException, after
      reading all that is left. */
  lemma DecodeTruncated(b: Byte, more: seq<Byte>, caps: seq<Positive>)
    requires |more| < b as int % 0x10
    ensures var d := Decode(Source([b] + more, caps));
      d.items == [] && d.error == Some(StreamCorrupted) && d.src.rest == []
  {
    assert ([b] + more)[1..] == more;
    FillReadsExactly(Source(more, caps), b as int % 0x10);
  }

  /** `11 01 22 01 02`: tag 1 with value `01`, then tag 2 with value `01 02`; with `00` in front,
      which is skipped, the same. */
  lemma DecodeFixture()
    ensures Decode(Source([0x11, 0x01, 0x22, 0x01, 0x02], [])).items
            == [CompactItem(1, [0x01]), CompactItem(2, [0x01, 0x02])]
    ensures Decode(Source([0x00, 0x11, 0x01, 0x22, 0x01, 0x02], [])).items
            == [CompactItem(1, [0x01]), CompactItem(2, [0x01, 0x02])]
  {
    var tail: seq<Byte> := [0x22, 0x01, 0x02];
    DecodeItem(0x22, [0x01, 0x02], []);
    assert [0x22 as Byte] + [0x01, 0x02] + [] == tail;
    DecodeItem(0x11, [0x01], tail);
    assert [0x11 as Byte] + [0x01] + tail == [0x11, 0x01, 0x22, 0x01, 0x02];
    DecodeSkipsEmpty(0x00, [0x11, 0x01, 0x22, 0x01, 0x02], []);
    assert [0x00 as Byte] + [0x11, 0x01, 0x22, 0x01, 0x02] == [0x00, 0x11, 0x01, 0x22, 0x01, 0x02];
  }

  /** A source that delivers one octet per read gives the same items as one that does not. */
  lemma DecodeOneOctetPerRead()
    ensures Decode(Source([0x12, 0x01, 0x02], [1, 1])).items == [CompactItem(1, [0x01, 0x02])]
    ensures Decode(Source([0x12, 0x01, 0x02], [1, 1])).error == None
  {
    hide Decode;
    var input: seq<Byte> := [0x12, 0x01, 0x02];
    DecodeUnfragmented(Source(input, [1, 1]), Source(input, []));
    DecodeItem(0x12, [0x01, 0x02], []);
    assert [0x12 as Byte] + [0x01, 0x02] + [] == input;
    DecodeEmpty([]);
    assert Decode(Source(input, [])).items == [CompactItem(1, [0x01, 0x02])] + [];
  }

  /** An empty input yields no items and no exception. */
  lemma DecodeEmpty(caps: seq<Positive>)
    ensures Decode(Source([], caps)) == CompactDecoded([], None, Source([], caps))
  {
  }
}
