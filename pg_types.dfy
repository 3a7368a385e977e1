/** The type registry of the decoder: the built-in PostgreSQL type OIDs, the C++ destination types
    that accept them, the decoded host values and the exception classes a decode can throw. */
module PgTypes {
  import opened BigEndian

  type Oid = x: int | 0 <= x < 0x1_0000_0000

  /** The payload of a field: SQL NULL, or the bytes the server sent (their count is the length). */
  datatype Datum = Null | Data(bytes: seq<byte>)

  /** The length a NULL element carries in place of a payload length inside an array. */
  const NullLength: int := -1

  /** One value cell as the row source presents it: its column's type OID and its datum. */
  datatype Cell = Cell(oid: Oid, datum: Datum)

  /** `ozo::null_oid`: the value of an OID slot that has not been negotiated. */
  const NullOid: Oid := 0

  const BoolOid: Oid := 16
  const ByteaOid: Oid := 17
  const NameOid: Oid := 19
  const Int8Oid: Oid := 20
  const Int2Oid: Oid := 21
  const Int4Oid: Oid := 23
  const TextOid: Oid := 25
  const TimestampOid: Oid := 1114
  const IntervalOid: Oid := 1186
  const UuidOid: Oid := 2950

  /** Array OIDs of the PostgreSQL catalogue (text[] is 1009). */
  const BoolArrayOid: Oid := 1000
  const ByteaArrayOid: Oid := 1001
  const NameArrayOid: Oid := 1003
  const Int2ArrayOid: Oid := 1005
  const Int4ArrayOid: Oid := 1007
  const TextArrayOid: Oid := 1009
  const Int8ArrayOid: Oid := 1016
  const TimestampArrayOid: Oid := 1115
  const IntervalArrayOid: Oid := 1187
  const UuidArrayOid: Oid := 2951

  /** Scalar destinations: bool, int16_t, int32_t, int64_t, pg::bytea, std::string, pg::name,
      boost::uuids::uuid, std::chrono::system_clock::time_point, std::chrono::microseconds. */
  datatype Scalar = Bool | Int2 | Int4 | Int8 | Bytea | Text | Name | Uuid | Timestamp | Interval

  /** A destination type: a scalar, a nullable wrapper (std::unique_ptr, std::optional, ...) or a
      growable sequence (std::vector) of elements. */
  datatype Dest = Plain(scalar: Scalar) | Nullable(inner: Dest) | Vector(elem: Dest)

  /** A scalar, possibly behind nullable wrappers, with no sequence inside. */
  predicate NoArray(d: Dest)
  {
    match d
    case Plain(_) => true
    case Nullable(inner) => NoArray(inner)
    case Vector(_) => false
  }

  /** A destination the registry knows an OID for (any other does not compile in C++): vectors
      hold scalar elements only, since only rank-1 arrays are decoded. */
  predicate Registered(d: Dest)
  {
    match d
    case Plain(_) => true
    case Nullable(inner) => Registered(inner)
    case Vector(elem) => Registered(elem) && NoArray(elem)
  }

  /** A valid array element destination. */
  predicate IsElement(d: Dest)
  {
    Registered(d) && NoArray(d)
  }

  function ScalarOid(s: Scalar): Oid
  {
    match s
    case Bool => BoolOid
    case Int2 => Int2Oid
    case Int4 => Int4Oid
    case Int8 => Int8Oid
    case Bytea => ByteaOid
    case Text => TextOid
    case Name => NameOid
    case Uuid => UuidOid
    case Timestamp => TimestampOid
    case Interval => IntervalOid
  }

  function ArrayOid(s: Scalar): Oid
  {
    match s
    case Bool => BoolArrayOid
    case Int2 => Int2ArrayOid
    case Int4 => Int4ArrayOid
    case Int8 => Int8ArrayOid
    case Bytea => ByteaArrayOid
    case Text => TextArrayOid
    case Name => NameArrayOid
    case Uuid => UuidArrayOid
    case Timestamp => TimestampArrayOid
    case Interval => IntervalArrayOid
  }

  /** The scalar under any nullable wrappers of an array element. */
  function BaseScalar(d: Dest): Scalar
    requires NoArray(d)
  {
    match d
    case Plain(s) => s
    case Nullable(inner) => BaseScalar(inner)
  }

  /** `type_oid` of a destination: nullable wrappers are transparent, a vector has its element's
      array OID. */
  function TypeOid(d: Dest): Oid
    requires Registered(d)
  {
    match d
    case Plain(s) => ScalarOid(s)
    case Nullable(inner) => TypeOid(inner)
    case Vector(elem) => ArrayOid(BaseScalar(elem))
  }

  /** Width check of the fixed-size integral destinations (bool and the integers). */
  function IntegralWidth(s: Scalar): nat
  {
    match s
    case Bool => 1
    case Int2 => 2
    case Int4 => 4
    case Int8 => 8
    case _ => 0
  }

  predicate IsIntegral(s: Scalar)
  {
    s.Bool? || s.Int2? || s.Int4? || s.Int8?
  }

  /** A decoded host value. Integers are exact; bytes of text, bytea and name are kept verbatim;
      time points and durations are microsecond counts (time points since the Unix epoch). */
  datatype Value =
    | Boolean(b: bool)
    | Integer(i: int)
    | Bytes(data: seq<byte>)
    | UuidBytes(data: seq<byte>)
    | TimePoint(micros: int)
    | Duration(micros: int)
    | Absent
    | Present(value: Value)
    | Elements(items: seq<Value>)
    | Tuple(items: seq<Value>)
    | Record(items: seq<Value>)

  /** The `ozo::error` codes carried by the `ozo::system_error` exceptions of the decoder. */
  datatype SystemCode = OidTypeMismatch | UnexpectedEof | BadObjectSize | BadArrayDimension | BadArraySize

  datatype RangeReason = RowSizeMismatch | FieldNotFound

  /** The exception classes the C++ decoder throws: ozo::system_error, std::invalid_argument,
      std::range_error and std::length_error. */
  datatype Error =
    | SystemError(code: SystemCode)
    | InvalidArgument
    | RangeError(reason: RangeReason)
    | LengthError
}
