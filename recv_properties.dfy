/** What the decoder promises, stated over all inputs: the OID each destination accepts, the
    integer and byte interpretations, the nullable adapter, the array layout and the shape of every
    decoded value. */
module RecvProperties {
  import opened Wrappers
  import opened BigEndian
  import opened PgTypes
  import opened Recv
  import Interval

  /** Each scalar destination accepts exactly one OID, and no two scalar destinations share one. */
  lemma ScalarOidsDistinct(s1: Scalar, s2: Scalar)
    ensures ScalarOid(s1) == ScalarOid(s2) <==> s1 == s2
    ensures ArrayOid(s1) == ArrayOid(s2) <==> s1 == s2
    ensures ScalarOid(s1) != ArrayOid(s2)
  {
  }

  /** A non-null cell whose OID is not the destination's fails with a type mismatch, whatever its
      bytes; a successful decode therefore saw the destination's own OID. */
  lemma AcceptsOnlyItsOid(c: Cell, d: Dest)
    requires Registered(d) && c.datum.Data?
    ensures c.oid != TypeOid(d) ==> Decode(c, d) == Failure(SystemError(OidTypeMismatch))
    ensures Decode(c, d).Success? ==> c.oid == TypeOid(d)
  {
  }

  /** bool, int16, int32 and int64 accept only cells of exactly their width. */
  lemma IntegralWidthChecked(c: Cell, s: Scalar)
    requires IsIntegral(s) && c.datum.Data? && c.oid == ScalarOid(s)
    ensures |c.datum.bytes| != IntegralWidth(s) ==> Decode(c, Plain(s)) == Failure(SystemError(BadObjectSize))
    ensures Decode(c, Plain(s)).Success? <==> |c.datum.bytes| == IntegralWidth(s)
  {
  }

  /** An integer cell holding the big-endian two's-complement encoding of v decodes to v. */
  lemma IntegerRoundTrip(s: Scalar, v: int)
    requires s.Int2? || s.Int4? || s.Int8?
    requires InSignedRange(v, IntegralWidth(s))
    ensures Decode(Cell(ScalarOid(s), Data(EncodeSigned(v, IntegralWidth(s)))), Plain(s)) == Success(Integer(v))
  {
    SignedRoundTrip(v, IntegralWidth(s));
  }

  /** A decoded integer is the signed big-endian value of the cell's bytes, so it fits the type. */
  lemma IntegerInRange(c: Cell, s: Scalar)
    requires (s.Int2? || s.Int4? || s.Int8?) && c.datum.Data?
    requires Decode(c, Plain(s)).Success?
    ensures Decode(c, Plain(s)) == Success(Integer(Signed(c.datum.bytes)))
    ensures InSignedRange(Decode(c, Plain(s)).value.i, IntegralWidth(s))
  {
    SignedInRange(c.datum.bytes);
  }

  /** A one-byte bool cell is true exactly when its byte is nonzero. */
  lemma BoolByte(b: byte)
    ensures Decode(Cell(BoolOid, Data([b])), Plain(Bool)) == Success(Boolean(b != 0))
  {
  }

  /** text, bytea and name copy exactly the cell's bytes, with no terminator added or removed. */
  lemma BytesVerbatim(bs: seq<byte>, s: Scalar)
    requires s.Bytea? || s.Text? || s.Name?
    ensures Decode(Cell(ScalarOid(s), Data(bs)), Plain(s)) == Success(Bytes(bs))
  {
  }

  /** A uuid is its 16 bytes in wire order. */
  lemma UuidVerbatim(bs: seq<byte>)
    requires |bs| == 16
    ensures Decode(Cell(UuidOid, Data(bs)), Plain(Uuid)) == Success(UuidBytes(bs))
  {
    assert bs[..16] == bs;
  }

  /** A timestamp of t microseconds after 2000-01-01 is the time point t + 946 684 800 000 000
      microseconds after the Unix epoch; bytes after the first eight are not read. */
  lemma TimestampRebased(t: int, rest: seq<byte>)
    requires InSignedRange(t, 8)
    ensures Decode(Cell(TimestampOid, Data(EncodeSigned(t, 8) + rest)), Plain(Timestamp))
         == Success(TimePoint(t + PgEpochMicros))
  {
    var bs := EncodeSigned(t, 8) + rest;
    assert bs[..8] == EncodeSigned(t, 8);
    SignedRoundTrip(t, 8);
  }

  /** An interval cell is microseconds (8 bytes), days (4) and months (4), converted with the
      saturating duration conversion. */
  lemma IntervalDecoded(iv: Interval.PgInterval)
    ensures
      var bs := EncodeSigned(iv.micros, 8) + EncodeSigned(iv.days, 4) + EncodeSigned(iv.months, 4);
      Decode(Cell(IntervalOid, Data(bs)), Plain(Interval)) == Success(Duration(Interval.ToChronoDuration(iv)))
  {
    var bs := EncodeSigned(iv.micros, 8) + EncodeSigned(iv.days, 4) + EncodeSigned(iv.months, 4);
    assert bs[..8] == EncodeSigned(iv.micros, 8);
    assert bs[8..12] == EncodeSigned(iv.days, 4);
    assert bs[12..16] == EncodeSigned(iv.months, 4);
    SignedRoundTrip(iv.micros, 8);
    SignedRoundTrip(iv.days, 4);
    SignedRoundTrip(iv.months, 4);
  }

  /** The nullable adapter: a null cell empties a nullable destination whatever its OID (the
      previous content plays no part), and is refused by any other destination. */
  lemma NullCell(oid: Oid, d: Dest)
    requires Registered(d)
    ensures d.Nullable? ==> Decode(Cell(oid, Null), d) == Success(Absent)
    ensures !d.Nullable? ==> Decode(Cell(oid, Null), d) == Failure(InvalidArgument)
  {
  }

  /** A non-null cell in a nullable destination is the inner destination's value, made present. */
  lemma NonNullIntoNullable(c: Cell, inner: Dest)
    requires Registered(inner) && c.datum.Data?
    ensures Decode(c, Nullable(inner)).Success? <==> Decode(c, inner).Success?
    ensures Decode(c, inner).Success? ==> Decode(c, Nullable(inner)) == Success(Present(Decode(c, inner).value))
  {
  }
}
