/** The pure helpers of the annotation processor (`Utils.kt`): the byte-array comparator that
    orders properties by tag, the check of an annotated tag, and the converter variable name. */
module KspUtils {
  import opened Bytes
  import opened BerCommon

  /** `Int.compareTo`. */
  function CompareInt(a: int, b: int): (r: int)
    ensures r == -1 <==> a < b
    ensures r == 0 <==> a == b
    ensures r == 1 <==> a > b
  {
    if a < b then -1 else if a > b then 1 else 0
  }

  // ---------------------------------------------------------------- compare

  /** The result `compare` holds after its loop body has run for `index`. */
  function IndexResult(x: seq<Byte>, y: seq<Byte>, index: nat): int
  {
    if |x| > index && |y| > index then CompareInt(x[index] as int, y[index] as int)
    else if |x| <= index then -1
    else 1
  }

  /** What `compare` returns. `return@forEach` only ends the body for one index, so every index
      overwrites the result and the last one decides: a shorter array is smaller whatever its
      contents, and arrays of equal length compare by their last octets, unsigned. */
  function CompareAsWritten(x: seq<Byte>, y: seq<Byte>): (r: int)
    ensures -1 <= r <= 1
    ensures |x| != |y| ==> (r < 0 <==> |x| < |y|) && r != 0
    ensures x == y ==> r == 0
  {
    if |x| < |y| then -1
    else if |x| > |y| then 1
    else if x == [] then 0
    else CompareInt(x[|x| - 1] as int, y[|y| - 1] as int)
  }

  /** `compare`: 0 for the same array object, otherwise a pass over every index up to the larger
      size. */
  method Compare(byteArray1: array<Byte>, byteArray2: array<Byte>) returns (result: int)
    ensures result == CompareAsWritten(byteArray1[..], byteArray2[..])
  {
    if byteArray1 == byteArray2 {
      return 0;
    }
    var size := Max(byteArray1.Length, byteArray2.Length);
    result := 0;
    for index := 0 to size
      invariant result == if index == 0 then 0 else IndexResult(byteArray1[..], byteArray2[..], index - 1)
    {
      if byteArray1.Length > index && byteArray2.Length > index {
        var value1 := byteArray1[index] as int;
        var value2 := byteArray2[index] as int;
        result := CompareInt(value1, value2);
      } else if byteArray1.Length <= index {
        result := -1;
      } else {
        result := 1;
      }
    }
  }

  /** Swapping the arrays negates the result. */
  lemma CompareAsWrittenAntisymmetric(x: seq<Byte>, y: seq<Byte>)
    ensures CompareAsWritten(y, x) == -CompareAsWritten(x, y)
  {
  }

  /** The comparator fixtures: two empty arrays are equal; `[]` sorts before `[01]`, `[01]`
      before `[02]`, `[00]` before `[01]` and before `[FF]`, `[00 01]` before `[00 02]`, and
      `[00]` before `[00 02]`. */
  lemma CompareFixtures()
    ensures CompareAsWritten([], []) == 0
    ensures CompareAsWritten([0x01], []) == 1
    ensures CompareAsWritten([0x01], [0x02]) == -1
    ensures CompareAsWritten([0x01], [0x00]) == 1
    ensures CompareAsWritten([0xFF], [0x00]) == 1
    ensures CompareAsWritten([0x00, 0x02], [0x00, 0x01]) == 1
    ensures CompareAsWritten([0x00, 0x02], [0x00]) == 1
  {
  }

  /** The order `compare` evidently means: the first differing octet decides, unsigned, and a
      proper prefix is smaller. It is what the loop computes when `return@forEach` is read as
      leaving the loop. */
  function LexCompare(x: seq<Byte>, y: seq<Byte>): (r: int)
    ensures -1 <= r <= 1
  {
    if x == [] then (if y == [] then 0 else -1)
    else if y == [] then 1
    else if x[0] != y[0] then CompareInt(x[0] as int, y[0] as int)
    else LexCompare(x[1..], y[1..])
  }

  /** The comparison ends at the first index where the arrays differ or one of them ends. */
  lemma LexCompareFrom(x: seq<Byte>, y: seq<Byte>, i: nat)
    requires i < |x| && i < |y| && x[i] == y[i]
    ensures LexCompare(x[i..], y[i..]) == LexCompare(x[i + 1..], y[i + 1..])
  {
    assert x[i..][1..] == x[i + 1..] && y[i..][1..] == y[i + 1..];
  }

  /** `compare` with the early exit the loop was written for. */
  method CompareLexicographic(byteArray1: array<Byte>, byteArray2: array<Byte>) returns (result: int)
    ensures result == LexCompare(byteArray1[..], byteArray2[..])
  {
    if byteArray1 == byteArray2 {
      LexCompareZero(byteArray1[..], byteArray2[..]);
      return 0;
    }
    var size := Max(byteArray1.Length, byteArray2.Length);
    result := 0;
    var index := 0;
    assert byteArray1[..][0..] == byteArray1[..] && byteArray2[..][0..] == byteArray2[..];
    while index < size
      invariant 0 <= index <= size && result == 0
      invariant index <= byteArray1.Length && index <= byteArray2.Length
      invariant LexCompare(byteArray1[..], byteArray2[..]) == LexCompare(byteArray1[index..], byteArray2[index..])
    {
      if byteArray1.Length > index && byteArray2.Length > index {
        var value1 := byteArray1[index] as int;
        var value2 := byteArray2[index] as int;
        result := CompareInt(value1, value2);
        if result != 0 {
          return;
        }
        LexCompareFrom(byteArray1[..], byteArray2[..], index);
        assert byteArray1[..][index + 1..] == byteArray1[index + 1..];
        assert byteArray2[..][index + 1..] == byteArray2[index + 1..];
      } else if byteArray1.Length <= index {
        return -1;
      } else {
        return 1;
      }
      index := index + 1;
    }
  }

  /** The intended order is 0 exactly for equal arrays. */
  lemma {:induction false} LexCompareZero(x: seq<Byte>, y: seq<Byte>)
    ensures LexCompare(x, y) == 0 <==> x == y
  {
    if x != [] && y != [] && x[0] == y[0] {
      LexCompareZero(x[1..], y[1..]);
      if x[1..] == y[1..] {
        assert x == [x[0]] + x[1..] && y == [y[0]] + y[1..];
      }
    }
  }

  /** Swapping the arrays negates the intended order. */
  lemma {:induction false} LexCompareAntisymmetric(x: seq<Byte>, y: seq<Byte>)
    ensures LexCompare(y, x) == -LexCompare(x, y)
  {
    if x != [] && y != [] && x[0] == y[0] {
      LexCompareAntisymmetric(x[1..], y[1..]);
    }
  }

  /** The intended order is transitive. */
  lemma {:induction false} LexCompareTransitive(x: seq<Byte>, y: seq<Byte>, z: seq<Byte>)
    requires LexCompare(x, y) < 0 && LexCompare(y, z) < 0
    ensures LexCompare(x, z) < 0
  {
    if x != [] && y != [] && z != [] && x[0] == y[0] && y[0] == z[0] {
      LexCompareTransitive(x[1..], y[1..], z[1..]);
    }
  }

  /** On arrays of at most one octet the comparator as written gives the intended order, which
      is all its fixtures but the last two look at. */
  lemma CompareAgreesOnShortArrays(x: seq<Byte>, y: seq<Byte>)
    requires |x| <= 1 && |y| <= 1
    ensures CompareAsWritten(x, y) == LexCompare(x, y)
  {
  }

  /** Arrays that differ only before their last octet compare as equal, and a shorter array is
      smaller even when its first octet is larger. */
  lemma CompareCounterexample()
    ensures CompareAsWritten([0x01, 0x05], [0x02, 0x05]) == 0
    ensures LexCompare([0x01, 0x05], [0x02, 0x05]) == -1
    ensures CompareAsWritten([0xFF], [0x00, 0x00]) == -1
    ensures LexCompare([0xFF], [0x00, 0x00]) == 1
  {
  }

  // ---------------------------------------------------------------- validateAnnotation

  /** The checks of `forEachIndexed` from `index` on: the last octet must have bit 8 clear, the
      ones before it bit 8 set. */
  function CheckFrom(tag: seq<Byte>, index: nat): (e: Option<Exception>)
    ensures e.None? || e == Some(IllegalArgument)
    decreases |tag| - index
  {
    if index >= |tag| then None
    else if index == |tag| - 1 then (if HasMore(tag[index]) then Some(IllegalArgument) else None)
    else if !HasMore(tag[index]) then Some(IllegalArgument)
    else CheckFrom(tag, index + 1)
  }

  /** `validateAnnotation`: `tag.first()` of an empty tag throws NoSuchElementException; a
      single-octet lead with more octets, or a multi-byte lead alone, is rejected; then every
      octet after the first is checked. */
  function ValidateAnnotation(tag: seq<Byte>): (e: Option<Exception>)
    ensures tag == [] <==> e == Some(NoSuchElement)
    ensures e.None? || e == Some(IllegalArgument) || e == Some(NoSuchElement)
  {
    if tag == [] then Some(NoSuchElement)
    else
      var firstByte := tag[0];
      if !IsMultiByteLead(firstByte) && |tag| > 1 then Some(IllegalArgument)
      else if IsMultiByteLead(firstByte) && |tag| < 2 then Some(IllegalArgument)
      else CheckFrom(tag, 1)
  }

  lemma {:induction false} CheckFromIff(tag: seq<Byte>, index: nat)
    requires 1 <= index < |tag|
    ensures CheckFrom(tag, index).None? <==>
      !HasMore(tag[|tag| - 1]) && forall i :: index <= i < |tag| - 1 ==> HasMore(tag[i])
    decreases |tag| - index
  {
    if index < |tag| - 1 && HasMore(tag[index]) {
      CheckFromIff(tag, index + 1);
    }
  }

  /** `validateAnnotation` accepts exactly the tags `WellFormedTag` describes. */
  lemma ValidateAnnotationIff(tag: seq<Byte>)
    ensures ValidateAnnotation(tag).None? <==> WellFormedTag(tag)
  {
    if |tag| >= 2 {
      CheckFromIff(tag, 1);
    }
  }

  /** A tag the processor accepts is read back whole, and nothing more, by the decoders' tag
      reader, whatever follows it. */
  lemma AcceptedTagReadsBack(tag: seq<Byte>, more: seq<Byte>)
    requires ValidateAnnotation(tag).None?
    ensures TagField(tag + more) == TagRead(Some(tag), more)
  {
    ValidateAnnotationIff(tag);
    TagFieldComplete(tag, more);
  }

  /** `[6E]`, `[5F 6E]` and `[5F FF 81 01]` are accepted; `[4F 01]`, `[5F]`, `[5F 80]` and
      `[5F 71 01]` are rejected. */
  lemma ValidateAnnotationFixtures()
    ensures ValidateAnnotation([0x6E]).None?
    ensures ValidateAnnotation([0x5F, 0x6E]).None?
    ensures ValidateAnnotation([0x5F, 0xFF, 0x81, 0x01]).None?
    ensures ValidateAnnotation([0x4F, 0x01]) == Some(IllegalArgument)
    ensures ValidateAnnotation([0x5F]) == Some(IllegalArgument)
    ensures ValidateAnnotation([0x5F, 0x80]) == Some(IllegalArgument)
    ensures ValidateAnnotation([0x5F, 0x71, 0x01]) == Some(IllegalArgument)
  {
    ValidateAnnotationIff([0x5F, 0xFF, 0x81, 0x01]);
    assert WellFormedTag([0x5F, 0xFF, 0x81, 0x01]);
    ValidateAnnotationIff([0x5F, 0x71, 0x01]);
    assert !HasMore(0x71);
  }

  // ---------------------------------------------------------------- stripPackage

  /** `stripPackage`: `qualifiedName.subSequence(packageName.length + 1, qualifiedName.length - 1)`,
      which throws StringIndexOutOfBoundsException when the start passes the end. */
  function StripPackage(packageName: string, qualifiedName: string): (r: Result<string, Exception>)
    ensures r.Err? <==> |qualifiedName| < |packageName| + 2
    ensures r.Ok? ==> |r.value| == |qualifiedName| - |packageName| - 2
  {
    var start, end := |packageName| + 1, |qualifiedName| - 1;
    if end < start then Err(IndexOutOfBounds)
    else Ok(qualifiedName[start..end])
  }

  /** The name after the package and its dot, as `stripPackage` evidently means it (the end of a
      `subSequence` is exclusive already). */
  function SimpleName(packageName: string, qualifiedName: string): (r: Result<string, Exception>)
    ensures r.Err? <==> |qualifiedName| < |packageName| + 1
  {
    var start := |packageName| + 1;
    if |qualifiedName| < start then Err(IndexOutOfBounds)
    else Ok(qualifiedName[start..])
  }

  /** The simple name of `p.n` is `n`, so distinct classes of one package get distinct names. */
  lemma SimpleNameOfQualified(p: string, n: string)
    ensures SimpleName(p, p + "." + n) == Ok(n)
  {
    assert (p + "." + n)[|p| + 1..] == n;
  }

  /** `stripPackage` of `p.n` is `n` without its last character. */
  lemma StripPackageOfQualified(p: string, n: string)
    requires |n| >= 1
    ensures StripPackage(p, p + "." + n) == Ok(n[..|n| - 1])
  {
    assert (p + "." + n)[|p| + 1..|p| + 1 + |n| - 1] == n[..|n| - 1];
  }

  /** Two converter classes of one package whose names differ in the last character get the
      same variable name. */
  lemma StripPackageCollision()
    ensures StripPackage("p", "p.FooA") == StripPackage("p", "p.FooB") == Ok("Foo")
    ensures SimpleName("p", "p.FooA") == Ok("FooA") && SimpleName("p", "p.FooB") == Ok("FooB")
  {
    StripPackageOfQualified("p", "FooA");
    StripPackageOfQualified("p", "FooB");
    SimpleNameOfQualified("p", "FooA");
    SimpleNameOfQualified("p", "FooB");
    assert "p" + "." + "FooA" == "p.FooA" && "p" + "." + "FooB" == "p.FooB";
    assert "FooA"[..3] == "Foo" && "FooB"[..3] == "Foo";
  }
}
