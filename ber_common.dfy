/** What the three generations of the BER-TLV decoder share: the identifier (tag) field of
    section 8.1.2 of ITU-T X.690 and the callback through which decoded items are reported. */
module BerCommon {
  import opened Bytes
  import opened Streams

  const MASK_MSB_BITS: Byte := 0x80
  const MASK_TAG_BITS: Byte := 0x1F

  /** A first identifier octet whose tag number does not fit it (section 8.1.2.4 of X.690). */
  predicate IsMultiByteLead(b: Byte)
  {
    b & MASK_TAG_BITS == MASK_TAG_BITS
  }

  /** A subsequent identifier octet that is not the last one. */
  predicate HasMore(b: Byte)
  {
    b & MASK_MSB_BITS != 0
  }

  /** A complete identifier: one octet, or a multi-byte lead, continuation octets with bit 8 set
      and a last octet with bit 8 clear. */
  predicate WellFormedTag(t: seq<Byte>)
  {
    && |t| >= 1
    && (!IsMultiByteLead(t[0]) ==> |t| == 1)
    && (IsMultiByteLead(t[0]) ==>
          && |t| >= 2
          && !HasMore(t[|t| - 1])
          && forall i :: 1 <= i < |t| - 1 ==> HasMore(t[i]))
  }

  /** The tag read from an input (None at the end of the input) and the bytes left after it. */
  datatype TagRead = TagRead(tag: Option<seq<Byte>>, rest: seq<Byte>)

  /** The bytes already collected while reading a tag: none, or a multi-byte lead followed by
      continuation octets. */
  predicate OpenTag(acc: seq<Byte>)
  {
    acc == [] || (IsMultiByteLead(acc[0]) && forall i :: 1 <= i < |acc| ==> HasMore(acc[i]))
  }

  /** The tag reading loop, one `read()` per step, with `acc` the bytes collected so far. */
  function TagLoop(acc: seq<Byte>, rest: seq<Byte>): (r: TagRead)
    requires OpenTag(acc)
    ensures r.tag.Some? ==> WellFormedTag(r.tag.value) && acc + rest == r.tag.value + r.rest
    ensures r.tag.Some? ==> |r.tag.value| > |acc|
    ensures r.tag.None? ==> r.rest == [] && OpenTag(acc + rest)
    decreases |rest|
  {
    if rest == [] then TagRead(None, [])
    else
      var b := rest[0];
      if acc == [] then
        if !IsMultiByteLead(b) then TagRead(Some([b]), rest[1..])
        else
          assert [b] + rest[1..] == rest;
          TagLoop([b], rest[1..])
      else if !HasMore(b) then TagRead(Some(acc + [b]), rest[1..])
      else
        assert (acc + [b]) + rest[1..] == acc + rest;
        TagLoop(acc + [b], rest[1..])
  }

  /** The identifier at the head of the input, as the decoders read it. */
  function TagField(rest: seq<Byte>): (r: TagRead)
    ensures r.tag.Some? ==> WellFormedTag(r.tag.value) && rest == r.tag.value + r.rest
    ensures r.tag.None? ==> r.rest == [] && OpenTag(rest)
    ensures |r.rest| < |rest| || (rest == [] && r.rest == [])
  {
    assert [] + rest == rest;
    TagLoop([], rest)
  }

  /** A one-octet tag is returned alone. */
  lemma TagFieldSingle(b: Byte, more: seq<Byte>)
    requires !IsMultiByteLead(b)
    ensures TagField([b] + more) == TagRead(Some([b]), more)
  {
    assert ([b] + more)[1..] == more;
  }

  lemma {:induction false} TagLoopComplete(t: seq<Byte>, k: nat, more: seq<Byte>)
    requires WellFormedTag(t) && IsMultiByteLead(t[0]) && 1 <= k < |t|
    ensures TagLoop(t[..k], t[k..] + more) == TagRead(Some(t), more)
    decreases |t| - k
  {
    var rest := t[k..] + more;
    assert rest[0] == t[k];
    if k == |t| - 1 {
      assert t[..k] + [t[k]] == t;
      assert rest[1..] == more;
    } else {
      assert t[..k] + [t[k]] == t[..k + 1];
      assert rest[1..] == t[k + 1..] + more;
      TagLoopComplete(t, k + 1, more);
    }
  }

  /** Identifiers are a prefix code: a well-formed tag followed by anything reads back as itself,
      leaving what follows it unread. */
  lemma TagFieldComplete(t: seq<Byte>, more: seq<Byte>)
    requires WellFormedTag(t)
    ensures TagField(t + more) == TagRead(Some(t), more)
  {
    if IsMultiByteLead(t[0]) {
      assert (t + more)[1..] == t[1..] + more;
      assert t[..1] == [t[0]];
      TagLoopComplete(t, 1, more);
    } else {
      TagFieldSingle(t[0], more);
      assert t == [t[0]];
    }
  }

  lemma {:induction false} TagLoopOpen(acc: seq<Byte>, rest: seq<Byte>)
    requires OpenTag(acc) && OpenTag(acc + rest)
    ensures TagLoop(acc, rest) == TagRead(None, [])
    decreases |rest|
  {
    if rest != [] {
      var b := rest[0];
      assert (acc + rest)[|acc|] == b;
      if acc == [] {
        assert [] + rest == rest;
        assert [b] + rest[1..] == rest;
        TagLoopOpen([b], rest[1..]);
      } else {
        assert (acc + [b]) + rest[1..] == acc + rest;
        TagLoopOpen(acc + [b], rest[1..]);
      }
    }
  }

  /** The input ends inside an identifier, or before one, exactly when what is left of it could
      still grow into a tag; the decoders then read no tag. */
  lemma TagFieldNone(rest: seq<Byte>)
    ensures TagField(rest).tag.None? <==> OpenTag(rest)
  {
    if OpenTag(rest) {
      assert [] + rest == rest;
      TagLoopOpen([], rest);
    }
  }

  /** A lead octet `7F` collects continuation octets up to the first with bit 8 clear. */
  lemma TagFieldFixture()
    ensures TagField([0x7F, 0x84, 0x74, 0x01]) == TagRead(Some([0x7F, 0x84, 0x74]), [0x01])
    ensures TagField([0x7F, 0x84]) == TagRead(None, [])
  {
    var t: seq<Byte> := [0x7F, 0x84, 0x74];
    assert WellFormedTag(t);
    TagFieldComplete(t, [0x01]);
    assert t + [0x01] == [0x7F, 0x84, 0x74, 0x01];
    TagFieldNone([0x7F, 0x84]);
  }

  /** `readTagFieldBytes` of the current decoder, and `readTag` of the two older ones, which is
      the same loop: one `read()` per octet, None at the end of the input, even in the middle of
      a tag. */
  method ReadTagFieldBytes(input: InputStream) returns (tag: Option<seq<Byte>>)
    modifies input
    ensures tag == TagField(old(input.rest)).tag
    ensures input.State() == Source(TagField(old(input.rest)).rest, old(input.caps))
  {
    var tagStream: seq<Byte> := [];
    while true
      invariant OpenTag(tagStream)
      invariant TagLoop(tagStream, input.rest) == TagField(old(input.rest))
      invariant input.caps == old(input.caps)
      decreases |input.rest|
    {
      ghost var pre := input.rest;
      var b := input.ReadByte();
      if b < 0 {
        return None;
      }
      var octet := b as Byte;
      assert octet == pre[0] && input.rest == pre[1..];
      if |tagStream| == 0 {
        if !IsMultiByteLead(octet) {
          return Some([octet]);
        }
        assert TagLoop(tagStream, pre) == TagLoop([octet], input.rest);
        tagStream := tagStream + [octet];
        assert tagStream == [octet];
      } else {
        assert HasMore(octet) ==> TagLoop(tagStream, pre) == TagLoop(tagStream + [octet], input.rest);
        tagStream := tagStream + [octet];
        if !HasMore(octet) {
          return Some(tagStream);
        }
      }
    }
  }

  /** What a BER-TLV callback is told. */
  datatype Event =
    | Item(tag: seq<Byte>, value: seq<Byte>)            // onItemDetected
    | UnknownLength(tag: seq<Byte>)                     // onUnknownLengthItemDetected
    | Large(tag: seq<Byte>, length: nat)                // onLargeItemDetected

  /** What one call of `readFrom` does: the callbacks made, the exception it ends with, if any,
      and what is left of the input. */
  datatype Decoded = Decoded(events: seq<Event>, error: Option<Exception>, src: Source)

  /** One turn of a decoding loop: an item reported, or the end of the decoding with the
      exception it ends with, if any; with what is left of the input. */
  datatype Turn =
    | Next(event: Event, src: Source)
    | Stop(error: Option<Exception>, src: Source)

  /** Events delivered before the rest of a decoding. */
  function Then(evs: seq<Event>, d: Decoded): Decoded
  {
    Decoded(evs + d.events, d.error, d.src)
  }

  /** A callback that records what it is told. The stream argument the source passes with
      unknown-length and large items is not modelled: the recorder consumes nothing. */
  class Recorder {
    var events: seq<Event>

    constructor ()
      ensures events == []
    {
      events := [];
    }

    method OnItemDetected(tag: seq<Byte>, value: seq<Byte>)
      modifies this
      ensures events == old(events) + [Item(tag, value)]
    {
      events := events + [Item(tag, value)];
    }

    method OnUnknownLengthItemDetected(tag: seq<Byte>)
      modifies this
      ensures events == old(events) + [UnknownLength(tag)]
    {
      events := events + [UnknownLength(tag)];
    }

    method OnLargeItemDetected(tag: seq<Byte>, length: nat)
      modifies this
      ensures events == old(events) + [Large(tag, length)]
    {
      events := events + [Large(tag, length)];
    }
  }
}
