/** The tag check of the Compact-TLV annotation processor (`CompactTlvEncoderProcessor.kt`). */
module CompactProcessor {
  import opened Bytes
  import CompactEncoder

  const MAX_TAG_VALUE: int := 15
  const ZERO: int := 0

  /** `validateAnnotation(tag)`: IllegalArgumentException for a tag above 15 or below 0. */
  function ValidateAnnotation(tag: JByte): (e: Option<Exception>)
    ensures e.None? || e == Some(IllegalArgument)
  {
    if tag > MAX_TAG_VALUE || tag < ZERO then Some(IllegalArgument) else None
  }

  /** The processor accepts exactly the tags the Compact-TLV encoder writes. */
  lemma AcceptsWhatEncoderWrites(tag: JByte)
    ensures ValidateAnnotation(tag).None? <==> forall length: JInt :: 0 <= length < 0x10 ==> CompactEncoder.Writable(tag, length)
  {
    assert CompactEncoder.Writable(tag, 0) <==> 0 <= tag < 0x10;
  }

  /** 0 and 15 are accepted; 16 and -1 are rejected. */
  lemma ValidateAnnotationFixtures()
    ensures ValidateAnnotation(0).None? && ValidateAnnotation(15).None?
    ensures ValidateAnnotation(16) == Some(IllegalArgument)
    ensures ValidateAnnotation(-1) == Some(IllegalArgument)
  {
  }
}
