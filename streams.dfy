/** The byte source and sink the codecs work on: `java.io.InputStream` and `java.io.OutputStream`
    reduced to what the decoders and encoders use. */
module Streams {
  import opened Bytes

  type Positive = n: nat | n >= 1 witness 1

  /** What is left of an input stream: the bytes not yet read, and the most each of the next bulk
      reads will deliver (a fragmenting transport). Once `caps` is empty a bulk read delivers all
      it is asked for, as far as the bytes go. */
  datatype Source = Source(rest: seq<Byte>, caps: seq<Positive>)

  /** A value read from a source, or the exception raised, with what is left of the source. */
  datatype Got<+T> = Got(result: Result<T, Exception>, src: Source)

  /** The count returned by one `read(buf, off, n)`: 0 when nothing is asked for, -1 at the end of
      the input, otherwise between 1 and n. */
  function Granted(s: Source, n: nat): (r: int)
    ensures n == 0 ==> r == 0
    ensures n > 0 && s.rest == [] ==> r == -1
    ensures n > 0 && s.rest != [] ==> 1 <= r <= n && r <= |s.rest|
  {
    if n == 0 then 0
    else if s.rest == [] then -1
    else Min(Min(n, |s.rest|), if s.caps == [] then n else s.caps[0])
  }

  /** The source after one `read(buf, off, n)`; a read that delivers bytes uses up one cap. */
  function AfterRead(s: Source, n: nat): (t: Source)
    ensures Granted(s, n) > 0 ==> t.rest == s.rest[Granted(s, n)..]
    ensures Granted(s, n) <= 0 ==> t == s
  {
    var r := Granted(s, n);
    if r <= 0 then s else Source(s.rest[r..], if s.caps == [] then [] else s.caps[1..])
  }

  /** Puts the bytes p in front of a successful read. */
  function PrependOk(p: seq<Byte>, g: Got<seq<Byte>>): Got<seq<Byte>>
  {
    if g.result.Ok? then Got(Ok(p + g.result.value), g.src) else g
  }

  lemma PrependOkNothing(g: Got<seq<Byte>>)
    ensures PrependOk([], g) == g
  {
    if g.result.Ok? {
      assert [] + g.result.value == g.result.value;
    }
  }

  lemma PrependOkTwice(p: seq<Byte>, q: seq<Byte>, g: Got<seq<Byte>>)
    ensures PrependOk(p, PrependOk(q, g)) == PrependOk(p + q, g)
  {
    if g.result.Ok? {
      assert p + (q + g.result.value) == (p + q) + g.result.value;
    }
  }

  /** What the retry loop `ReadFully` does: call `read` for the bytes still missing until n
      bytes have arrived, or fail with StreamCorruptedException at the end of the input. */
  function Fill(s: Source, n: nat): (g: Got<seq<Byte>>)
    ensures |g.src.rest| <= |s.rest|
    ensures g.result.Ok? ==> |g.result.value| == n
    ensures g.result.Err? ==> g.result.error == StreamCorrupted
    decreases n
  {
    var r := Granted(s, n);
    if r < 0 then Got(Err(StreamCorrupted), AfterRead(s, n))
    else if r < n then PrependOk(s.rest[..r], Fill(AfterRead(s, n), n - r))
    else Got(Ok(s.rest[..r]), AfterRead(s, n))
  }

  /** A read at the end of the input ends a retry loop that has already collected `got`. */
  lemma FillEnd(s0: Source, n0: nat, got: seq<Byte>, cur: Source, need: nat)
    requires PrependOk(got, Fill(cur, need)) == Fill(s0, n0)
    requires Granted(cur, need) < 0
    ensures Fill(s0, n0) == Got(Err(StreamCorrupted), cur)
  {
  }

  /** A short read: the retry loop goes on with `got` grown by what arrived. */
  lemma FillShort(s0: Source, n0: nat, got: seq<Byte>, cur: Source, need: nat)
    requires PrependOk(got, Fill(cur, need)) == Fill(s0, n0)
    requires 0 <= Granted(cur, need) < need
    ensures var r := Granted(cur, need);
      PrependOk(got + cur.rest[..r], Fill(AfterRead(cur, need), need - r)) == Fill(s0, n0)
  {
    var r := Granted(cur, need);
    PrependOkTwice(got, cur.rest[..r], Fill(AfterRead(cur, need), need - r));
  }

  /** A read that delivers all that is missing ends the retry loop. */
  lemma FillLast(s0: Source, n0: nat, got: seq<Byte>, cur: Source, need: nat)
    requires PrependOk(got, Fill(cur, need)) == Fill(s0, n0)
    requires need <= Granted(cur, need)
    ensures Fill(s0, n0) == Got(Ok(got + cur.rest[..need]), AfterRead(cur, need))
  {
  }

  /** However the transport fragments the input, the retry loop yields exactly the next n bytes,
      and fails only when fewer than n remain, after reading all of them. */
  lemma {:induction false} FillReadsExactly(s: Source, n: nat)
    ensures Fill(s, n).result.Ok? <==> n <= |s.rest|
    ensures n <= |s.rest| ==> Fill(s, n).result.value == s.rest[..n] && Fill(s, n).src.rest == s.rest[n..]
    ensures n > |s.rest| ==> Fill(s, n).result == Err(StreamCorrupted) && Fill(s, n).src.rest == []
    decreases n
  {
    var r := Granted(s, n);
    if 0 <= r < n {
      var t := AfterRead(s, n);
      FillReadsExactly(t, n - r);
      if n <= |s.rest| {
        assert s.rest[..r] + t.rest[..n - r] == s.rest[..n];
        assert t.rest[n - r..] == s.rest[n..];
      }
    }
  }

  /** Without fragmentation the retry loop needs one call and leaves the caps as they were. */
  lemma FillUnfragmented(s: Source, n: nat)
    requires s.caps == [] && n <= |s.rest|
    ensures Fill(s, n) == Got(Ok(s.rest[..n]), Source(s.rest[n..], []))
  {
  }

  /** An `InputStream` positioned somewhere in its data. */
  class InputStream {
    var rest: seq<Byte>
    var caps: seq<Positive>

    function State(): Source
      reads this
    {
      Source(rest, caps)
    }

    constructor (data: seq<Byte>, caps: seq<Positive>)
      ensures State() == Source(data, caps)
    {
      rest := data;
      this.caps := caps;
    }

    /** `read()`: the next byte as 0..255, or -1 at the end of the input. */
    method ReadByte() returns (b: int)
      modifies this
      ensures old(rest) == [] ==> b == -1 && rest == []
      ensures old(rest) != [] ==> b == old(rest[0]) as int && rest == old(rest[1..])
      ensures caps == old(caps)
    {
      if rest == [] {
        b := -1;
      } else {
        b := rest[0] as int;
        rest := rest[1..];
      }
    }

    /** `read(buf, off, n)`: stores the delivered bytes at buf[off..] and returns their count. */
    method Read(buf: array<Byte>, off: nat, n: nat) returns (r: int)
      requires off + n <= buf.Length
      modifies this, buf
      ensures r == Granted(old(State()), n) && State() == AfterRead(old(State()), n)
      ensures r > 0 ==> buf[..off] == old(buf[..off]) && buf[off..off + r] == old(rest[..r])
      ensures r > 0 ==> buf[off + r..] == old(buf[off + r..])
      ensures r <= 0 ==> buf[..] == old(buf[..])
    {
      r := Granted(State(), n);
      if r > 0 {
        forall i | off <= i < off + r {
          buf[i] := rest[i - off];
        }
        rest := rest[r..];
        caps := if caps == [] then [] else caps[1..];
      }
    }
  }

  /** The retry loop the value readers share: a buffer of n octets filled at a growing offset
      until a read delivers all that is missing, or StreamCorruptedException at the end of the
      input. */
  method ReadFully(input: InputStream, dataLength: nat) returns (r: Result<seq<Byte>, Exception>)
    modifies input
    ensures Got(r, input.State()) == Fill(old(input.State()), dataLength)
  {
    hide Fill;
    ghost var s0 := input.State();
    var data := new Byte[dataLength];
    var offset := 0;
    PrependOkNothing(Fill(s0, dataLength));
    while true
      invariant 0 <= offset <= dataLength && data.Length == dataLength
      invariant PrependOk(data[..offset], Fill(input.State(), dataLength - offset)) == Fill(s0, dataLength)
      decreases dataLength - offset
    {
      ghost var cur, got := input.State(), data[..offset];
      var readLength := input.Read(data, offset, dataLength - offset);
      if readLength < 0 {
        FillEnd(s0, dataLength, got, cur, dataLength - offset);
        return Err(StreamCorrupted);
      }
      ghost var chunk := cur.rest[..readLength];
      Joined(data[..], offset, readLength, got, chunk);
      if readLength < dataLength - offset {
        FillShort(s0, dataLength, got, cur, dataLength - offset);
        offset := offset + readLength;
      } else {
        FillLast(s0, dataLength, got, cur, dataLength - offset);
        return Ok(data[..]);
      }
    }
  }

  /** A buffer that holds b and then c at its start. */
  lemma Joined(a: seq<Byte>, off: nat, r: nat, b: seq<Byte>, c: seq<Byte>)
    requires off + r <= |a| && a[..off] == b && (r > 0 ==> a[off..off + r] == c) && |c| == r
    ensures a[..off + r] == b + c
    ensures off + r == |a| ==> a == b + c
  {
    assert a[..off + r] == a[..off] + a[off..off + r];
  }

  /** An `OutputStream`: everything written so far. */
  class OutputStream {
    var bytes: seq<Byte>

    constructor ()
      ensures bytes == []
    {
      bytes := [];
    }

    /** `write(b: ByteArray)`. */
    method Write(b: seq<Byte>)
      modifies this
      ensures bytes == old(bytes) + b
    {
      bytes := bytes + b;
    }
  }
}
