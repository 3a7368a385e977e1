/** The one-dimensional array layout, stated as an encoder (the server's side of the format) and
    a round trip: decoding an encoded array yields its elements decoded one by one, in order, with
    a NULL element affecting only its own slot. */
module ArrayLayout {
  import opened Wrappers
  import opened BigEndian
  import opened PgTypes
  import opened Recv
  import opened ArrayEncoding

  /** One element decoded on its own: NULL goes through the nullable adapter. */
  function DecodeElem(x: Datum, elem: Dest): Result<Value, Error>
    requires IsElement(elem)
  {
    match x
    case Null => if elem.Nullable? then Success(Absent) else Failure(InvalidArgument)
    case Data(p) => DecodeData(p, elem)
  }

  /** Elements decoded in order, stopping at the first failing one. */
  function DecodeAll(xs: seq<Datum>, elem: Dest): (r: Result<seq<Value>, Error>)
    requires IsElement(elem)
    ensures r.Success? ==> |r.value| == |xs|
  {
    if |xs| == 0 then Success([])
    else
      match DecodeElem(xs[0], elem)
      case Failure(e) => Failure(e)
      case Success(v) => Prepend([v], DecodeAll(xs[1..], elem))
  }

  /** The elements decode together exactly when each decodes on its own; the values are theirs,
      in order, and a failure is the error of the first element that fails. */
  lemma {:induction false} AllDecodedInOrder(xs: seq<Datum>, elem: Dest)
    requires IsElement(elem)
    ensures DecodeAll(xs, elem).Success? <==> forall i :: 0 <= i < |xs| ==> DecodeElem(xs[i], elem).Success?
    ensures DecodeAll(xs, elem).Success? ==>
      forall i :: 0 <= i < |xs| ==> DecodeAll(xs, elem).value[i] == DecodeElem(xs[i], elem).value
    ensures DecodeAll(xs, elem).Failure? ==>
      exists k :: FirstFailure(xs, elem, k) && DecodeElem(xs[k], elem) == Failure(DecodeAll(xs, elem).error)
  {
    if |xs| > 0 {
      var rest := xs[1..];
      AllDecodedInOrder(rest, elem);
      assert forall i :: 1 <= i < |xs| ==> xs[i] == rest[i - 1];
      if DecodeElem(xs[0], elem).Failure? {
        assert FirstFailure(xs, elem, 0);
      } else if DecodeAll(rest, elem).Failure? {
        var k :| FirstFailure(rest, elem, k) && DecodeElem(rest[k], elem) == Failure(DecodeAll(rest, elem).error);
        assert FirstFailure(xs, elem, k + 1);
      }
    }
  }

  /** Element k is the first element of xs that does not decode. */
  predicate FirstFailure(xs: seq<Datum>, elem: Dest, k: int)
    requires IsElement(elem)
  {
    && 0 <= k < |xs|
    && DecodeElem(xs[k], elem).Failure?
    && forall j :: 0 <= j < k ==> DecodeElem(xs[j], elem).Success?
  }

  /** One encoded frame at the cursor decodes as its element, and the cursor moves past it. */
  lemma FrameOfEncoding(bs: seq<byte>, pos: nat, x: Datum, elem: Dest)
    requires IsElement(elem) && Int32Length(x)
    requires pos + |EncodeFrame(x)| <= |bs| && bs[pos..pos + |EncodeFrame(x)|] == EncodeFrame(x)
    ensures DecodeElem(x, elem).Failure? ==> Frame(bs, pos, elem) == Failure(DecodeElem(x, elem).error)
    ensures DecodeElem(x, elem).Success? ==>
      Frame(bs, pos, elem) == Success((DecodeElem(x, elem).value, pos + |EncodeFrame(x)|))
  {
    var f := EncodeFrame(x);
    assert bs[pos..pos + 4] == f[..4];
    match x
    case Null =>
      SignedRoundTrip(NullLength, 4);
    case Data(p) =>
      assert f[..4] == EncodeSigned(|p|, 4);
      SignedRoundTrip(|p|, 4);
      assert bs[pos + 4..pos + 4 + |p|] == f[4..];
  }

  lemma {:induction false} FramesOfEncoding(bs: seq<byte>, pos: nat, xs: seq<Datum>, elem: Dest)
    requires IsElement(elem) && FramesAt(bs, pos, xs)
    ensures Frames(bs, pos, |xs|, elem) == DecodeAll(xs, elem)
    decreases |xs|
  {
    if |xs| > 0 {
      FrameOfEncoding(bs, pos, xs[0], elem);
      FramesStep(bs, pos, |xs|, elem);
      if DecodeElem(xs[0], elem).Success? {
        FramesOfEncoding(bs, pos + |EncodeFrame(xs[0])|, xs[1..], elem);
      }
    }
  }

  /** The header of an encoded array reads back as rank 1, the element OID and the count. */
  lemma HeaderOfEncoding(elemOid: Oid, flags: int, lowerBound: int, xs: seq<Datum>, trailing: seq<byte>)
    requires elemOid < 0x1_0000_0000
    requires InSignedRange(flags, 4) && InSignedRange(lowerBound, 4) && InSignedRange(|xs|, 4)
    ensures ReadHeader(EncodeArray(flags, elemOid, lowerBound, xs) + trailing)
      == Success(Some(ArrayHeader(1, elemOid, |xs|)))
  {
    var bs := EncodeArray(flags, elemOid, lowerBound, xs) + trailing;
    assert bs[0..4] == EncodeSigned(1, 4);
    assert bs[8..12] == EncodeUnsigned(elemOid, 4);
    assert bs[12..16] == EncodeSigned(|xs|, 4);
    SignedRoundTrip(1, 4);
    SignedRoundTrip(|xs|, 4);
    UnsignedRoundTrip(elemOid, 4);
  }

  /** Decoding an encoded array gives each element decoded in order, whatever the flags word, the
      lower bound and any bytes after the last element. */
  lemma ArrayRoundTrip(elem: Dest, flags: int, lowerBound: int, xs: seq<Datum>, trailing: seq<byte>)
    requires IsElement(elem)
    requires InSignedRange(flags, 4) && InSignedRange(lowerBound, 4) && InSignedRange(|xs|, 4)
    requires forall i :: 0 <= i < |xs| ==> Int32Length(xs[i])
    ensures ArrayBody(EncodeArray(flags, TypeOid(elem), lowerBound, xs) + trailing, elem) == DecodeAll(xs, elem)
  {
    var frames := EncodeFrames(xs);
    var bs := EncodeArray(flags, TypeOid(elem), lowerBound, xs) + trailing;
    HeaderOfEncoding(TypeOid(elem), flags, lowerBound, xs, trailing);
    assert bs[20..20 + |frames|] == frames;
    AllInt32LengthOf(xs);
    EncodedFramesAt(bs, 20, xs);
    FramesOfEncoding(bs, 20, xs, elem);
  }

  /** The same at the level of a cell of a std::vector destination. */
  lemma VectorRoundTrip(elem: Dest, flags: int, lowerBound: int, xs: seq<Datum>)
    requires IsElement(elem)
    requires InSignedRange(flags, 4) && InSignedRange(lowerBound, 4) && InSignedRange(|xs|, 4)
    requires forall i :: 0 <= i < |xs| ==> Int32Length(xs[i])
    ensures
      var c := Cell(ArrayOid(BaseScalar(elem)), Data(EncodeArray(flags, TypeOid(elem), lowerBound, xs)));
      && (Decode(c, Vector(elem)).Success? <==> DecodeAll(xs, elem).Success?)
      && (DecodeAll(xs, elem).Success? ==> Decode(c, Vector(elem)) == Success(Elements(DecodeAll(xs, elem).value)))
  {
    ArrayRoundTrip(elem, flags, lowerBound, xs, []);
    assert EncodeArray(flags, TypeOid(elem), lowerBound, xs) + [] == EncodeArray(flags, TypeOid(elem), lowerBound, xs);
  }

  /** Dimension count 0: an empty sequence, whatever follows the 12-byte header. */
  lemma ZeroDimensionsEmpty(bs: seq<byte>, elem: Dest)
    requires IsElement(elem) && |bs| >= ArrayHeaderSize && Signed(bs[0..4]) == 0
    ensures ArrayBody(bs, elem) == Success([])
  {
  }

  /** Dimension size 0: an empty sequence, and no byte after the dimension record is read. */
  lemma ZeroSizeEmpty(bs: seq<byte>, elem: Dest)
    requires IsElement(elem) && |bs| >= ArrayHeaderSize + DimensionSize
    requires Signed(bs[0..4]) == 1 && Unsigned(bs[8..12]) == TypeOid(elem) && Signed(bs[12..16]) == 0
    ensures ArrayBody(bs, elem) == Success([])
  {
  }

  /** Any rank other than 0 and 1 is refused, whatever the rest of the buffer holds. */
  lemma RankAboveOneFails(bs: seq<byte>, elem: Dest)
    requires IsElement(elem) && |bs| >= ArrayHeaderSize
    requires Signed(bs[0..4]) != 0 && Signed(bs[0..4]) != 1
    ensures ArrayBody(bs, elem) == Failure(SystemError(BadArrayDimension))
  {
  }

  /** An element OID other than the destination element's is a type mismatch. */
  lemma ElementOidMismatchFails(bs: seq<byte>, elem: Dest)
    requires IsElement(elem) && |bs| >= ArrayHeaderSize + DimensionSize && Signed(bs[0..4]) == 1
    requires Unsigned(bs[8..12]) != TypeOid(elem)
    ensures ArrayBody(bs, elem) == Failure(SystemError(OidTypeMismatch))
  {
  }

  /** A NULL element in a nullable-element vector is absent in its own slot and every other
      element is still decoded. */
  lemma NullElementInNullable(xs: seq<Datum>, k: nat, inner: Dest)
    requires IsElement(inner) && k < |xs| && xs[k].Null?
    ensures DecodeAll(xs, Nullable(inner)).Success? <==>
      forall i :: 0 <= i < |xs| && xs[i].Data? ==> DecodeData(xs[i].bytes, inner).Success?
    ensures DecodeAll(xs, Nullable(inner)).Success? ==>
      && DecodeAll(xs, Nullable(inner)).value[k] == Absent
      && forall i :: 0 <= i < |xs| && xs[i].Data? ==>
           DecodeAll(xs, Nullable(inner)).value[i] == Present(DecodeData(xs[i].bytes, inner).value)
  {
    AllDecodedInOrder(xs, Nullable(inner));
  }

  /** A NULL element refuses the whole array when the elements are not nullable; if every element
      before it decodes, the error is the invalid-argument one. */
  lemma NullElementNotNullable(xs: seq<Datum>, k: nat, elem: Dest)
    requires IsElement(elem) && !elem.Nullable? && k < |xs| && xs[k].Null?
    ensures DecodeAll(xs, elem).Failure?
    ensures (forall j :: 0 <= j < k ==> DecodeElem(xs[j], elem).Success?) ==>
      DecodeAll(xs, elem) == Failure(InvalidArgument)
  {
    AllDecodedInOrder(xs, elem);
    if DecodeAll(xs, elem).Failure? {
      var k0 :| FirstFailure(xs, elem, k0) && DecodeElem(xs[k0], elem) == Failure(DecodeAll(xs, elem).error);
      if forall j :: 0 <= j < k ==> DecodeElem(xs[j], elem).Success? {
        assert k0 == k;
      }
    }
  }
}
