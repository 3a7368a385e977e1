/** The sender's side of PostgreSQL's one-dimensional binary array: element frames laid out one
    after the other, each a 4-byte length (-1 for NULL) and the payload, behind a header. */
module ArrayEncoding {
  import opened BigEndian
  import opened PgTypes

  predicate Int32Length(x: Datum)
  {
    x.Data? ==> InSignedRange(|x.bytes|, 4)
  }

  /** Every payload's length fits the 4-byte signed length field. */
  predicate AllInt32Length(xs: seq<Datum>)
  {
    |xs| > 0 ==> Int32Length(xs[0]) && AllInt32Length(xs[1..])
  }

  lemma {:induction false} AllInt32LengthOf(xs: seq<Datum>)
    requires forall i :: 0 <= i < |xs| ==> Int32Length(xs[i])
    ensures AllInt32Length(xs)
  {
    if |xs| > 0 {
      assert forall i :: 0 <= i < |xs| - 1 ==> xs[1..][i] == xs[i + 1];
      AllInt32LengthOf(xs[1..]);
    }
  }

  /** A frame: the 4-byte length (-1 for NULL) followed by the payload. A non-negative length is
      the same four bytes signed or unsigned. */
  function EncodeFrame(x: Datum): (bs: seq<byte>)
    ensures |bs| == 4 + (if x.Null? then 0 else |x.bytes|)
  {
    match x
    case Null => EncodeSigned(NullLength, 4)
    case Data(p) => EncodeUnsigned(|p|, 4) + p
  }

  function EncodeFrames(xs: seq<Datum>): seq<byte>
  {
    if |xs| == 0 then [] else EncodeFrame(xs[0]) + EncodeFrames(xs[1..])
  }

  /** A rank-1 array: dimension count 1, a flags word and a lower bound the decoder ignores, the
      element OID and the element count, then the frames. */
  function EncodeArray(flags: int, elemOid: Oid, lowerBound: int, xs: seq<Datum>): seq<byte>
    requires InSignedRange(flags, 4) && InSignedRange(lowerBound, 4) && InSignedRange(|xs|, 4)
  {
    EncodeSigned(1, 4) + EncodeSigned(flags, 4) + EncodeUnsigned(elemOid, 4)
      + EncodeSigned(|xs|, 4) + EncodeSigned(lowerBound, 4) + EncodeFrames(xs)
  }

  /** A slice holding a concatenation holds each part at the matching offsets. */
  lemma SliceSplit(bs: seq<byte>, pos: nat, a: seq<byte>, b: seq<byte>)
    requires pos + |a| + |b| <= |bs| && bs[pos..pos + |a| + |b|] == a + b
    ensures bs[pos..pos + |a|] == a
    ensures bs[pos + |a|..pos + |a| + |b|] == b
  {
    assert bs[pos..pos + |a|] == bs[pos..pos + |a| + |b|][..|a|];
    assert bs[pos + |a|..pos + |a| + |b|] == bs[pos..pos + |a| + |b|][|a|..];
  }

  /** The encodings of xs lie one after the other in bs from cursor pos. */
  predicate FramesAt(bs: seq<byte>, pos: nat, xs: seq<Datum>)
    decreases |xs|
  {
    |xs| > 0 ==>
      && Int32Length(xs[0])
      && pos + |EncodeFrame(xs[0])| <= |bs|
      && bs[pos..pos + |EncodeFrame(xs[0])|] == EncodeFrame(xs[0])
      && FramesAt(bs, pos + |EncodeFrame(xs[0])|, xs[1..])
  }

  /** The frames at the cursor split into the first frame and the frames of the rest. */
  lemma FramesSplit(bs: seq<byte>, pos: nat, xs: seq<Datum>)
    requires |xs| > 0
    requires pos + |EncodeFrames(xs)| <= |bs| && bs[pos..pos + |EncodeFrames(xs)|] == EncodeFrames(xs)
    ensures bs[pos..pos + |EncodeFrame(xs[0])|] == EncodeFrame(xs[0])
    ensures pos + |EncodeFrame(xs[0])| + |EncodeFrames(xs[1..])| <= |bs|
    ensures bs[pos + |EncodeFrame(xs[0])|..pos + |EncodeFrame(xs[0])| + |EncodeFrames(xs[1..])|] == EncodeFrames(xs[1..])
  {
    SliceSplit(bs, pos, EncodeFrame(xs[0]), EncodeFrames(xs[1..]));
  }

  lemma {:induction false} EncodedFramesAt(bs: seq<byte>, pos: nat, xs: seq<Datum>)
    requires AllInt32Length(xs)
    requires pos + |EncodeFrames(xs)| <= |bs| && bs[pos..pos + |EncodeFrames(xs)|] == EncodeFrames(xs)
    ensures FramesAt(bs, pos, xs)
    decreases |xs|
  {
    if |xs| > 0 {
      FramesSplit(bs, pos, xs);
      EncodedFramesAt(bs, pos + |EncodeFrame(xs[0])|, xs[1..]);
    }
  }


}
