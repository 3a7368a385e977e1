/** `ozo::recv`: one field of a result in PostgreSQL's binary format decoded into a typed
    destination. A null cell goes through the nullable adapter; otherwise the cell's OID must be the
    destination's, and the bytes are read as a scalar or as a one-dimensional array. */
module Recv {
  import opened Wrappers
  import opened BigEndian
  import opened PgTypes
  import Interval

  /** PostgreSQL counts timestamps from 2000-01-01; std::chrono::system_clock from 1970-01-01. */
  const PgEpochMicros: int := 946_684_800_000_000

  /** The fixed header (dimension count, data offset, element OID) and one dimension record
      (size, lower bound), 4 bytes per field. */
  const ArrayHeaderSize: nat := 12
  const DimensionSize: nat := 8

  /** The exception classes a cell decode can raise: ozo::system_error and std::invalid_argument
      (never the range and length errors of the row and OID-map layers). */
  predicate CellError(e: Error)
  {
    e.SystemError? || e.InvalidArgument?
  }

  function Eof<T>(): Result<T, Error>
  {
    Failure(SystemError(UnexpectedEof))
  }

  /** The scalar byte interpretations. Integral destinations demand the exact width; the others
      read what they need from the stream and fail only when it runs out. */
  function DecodeScalar(bs: seq<byte>, s: Scalar): (r: Result<Value, Error>)
    ensures r.Failure? ==> r.error == SystemError(BadObjectSize) || r.error == SystemError(UnexpectedEof)
  {
    match s
    case Bool => if |bs| != 1 then Failure(SystemError(BadObjectSize)) else Success(Boolean(bs[0] != 0))
    case Int2 => if |bs| != 2 then Failure(SystemError(BadObjectSize)) else Success(Integer(Signed(bs)))
    case Int4 => if |bs| != 4 then Failure(SystemError(BadObjectSize)) else Success(Integer(Signed(bs)))
    case Int8 => if |bs| != 8 then Failure(SystemError(BadObjectSize)) else Success(Integer(Signed(bs)))
    case Bytea => Success(Bytes(bs))
    case Text => Success(Bytes(bs))
    case Name => Success(Bytes(bs))
    case Uuid => if |bs| < 16 then Eof() else Success(UuidBytes(bs[..16]))
    case Timestamp => if |bs| < 8 then Eof() else Success(TimePoint(Signed(bs[..8]) + PgEpochMicros))
    case Interval =>
      if |bs| < 16 then Eof()
      else
        SignedInRange(bs[..8]);
        SignedInRange(bs[8..12]);
        SignedInRange(bs[12..16]);
        Success(Duration(Interval.ToChronoDuration(
          Interval.PgInterval(Signed(bs[..8]), Signed(bs[8..12]), Signed(bs[12..16])))))
  }

  /** `ozo::recv` of a cell into a destination. */
  function Decode(c: Cell, d: Dest): (r: Result<Value, Error>)
    requires Registered(d)
    ensures r.Failure? ==> CellError(r.error)
  {
    match c.datum
    case Null => if d.Nullable? then Success(Absent) else Failure(InvalidArgument)
    case Data(bs) => if c.oid != TypeOid(d) then Failure(SystemError(OidTypeMismatch)) else DecodeData(bs, d)
  }

  /** The bytes of a non-null value whose OID has been accepted, read into `d`. */
  function DecodeData(bs: seq<byte>, d: Dest): (r: Result<Value, Error>)
    requires Registered(d)
    decreases d, 2, 0
    ensures r.Failure? ==> CellError(r.error)
  {
    match d
    case Plain(s) => DecodeScalar(bs, s)
    case Nullable(inner) =>
      (match DecodeData(bs, inner)
       case Success(v) => Success(Present(v))
       case Failure(e) => Failure(e))
    case Vector(elem) =>
      (match ArrayBody(bs, elem)
       case Success(vs) => Success(Elements(vs))
       case Failure(e) => Failure(e))
  }

  /** The header of a binary array: dimension count, data offset (ignored), element OID, and for
      the one supported dimension its size and lower bound (ignored). */
  datatype ArrayHeader = ArrayHeader(dims: int, elemOid: Oid, size: int)

  /** Reads the header; `Success(None)` when the dimension count is 0 (an empty array, with no
      dimension record). Fails on a short stream and on any rank other than 0 or 1. */
  function ReadHeader(bs: seq<byte>): (r: Result<Option<ArrayHeader>, Error>)
    ensures r.Success? && r.value.Some? ==> r.value.value.dims == 1 && |bs| >= ArrayHeaderSize + DimensionSize
    ensures r.Failure? ==> r.error.SystemError?
  {
    if |bs| < ArrayHeaderSize then Eof()
    else
      var dims := Signed(bs[0..4]);
      if dims == 0 then Success(None)
      else if dims != 1 then Failure(SystemError(BadArrayDimension))
      else if |bs| < ArrayHeaderSize + DimensionSize then Eof()
      else
        UnsignedBound(bs[8..12]);
        assert Pow256(4) == 0x1_0000_0000;
        Success(Some(ArrayHeader(dims, Unsigned(bs[8..12]), Signed(bs[12..16]))))
  }

  /** The checks between the header and the elements: the element OID must be the destination
      element's, and the element count must not be negative. */
  function CheckHeader(h: ArrayHeader, elem: Dest): Option<Error>
    requires IsElement(elem)
  {
    if h.elemOid != TypeOid(elem) then Some(SystemError(OidTypeMismatch))
    else if h.size < 0 then Some(SystemError(BadArraySize))
    else None
  }

  /** A one-dimensional array's elements. */
  function ArrayBody(bs: seq<byte>, elem: Dest): (r: Result<seq<Value>, Error>)
    requires IsElement(elem)
    decreases Vector(elem), 1, 0
    ensures r.Failure? ==> CellError(r.error)
  {
    match ReadHeader(bs)
    case Failure(e) => Failure(e)
    case Success(None) => Success([])
    case Success(Some(h)) =>
      match CheckHeader(h, elem)
      case Some(e) => Failure(e)
      case None => Frames(bs, ArrayHeaderSize + DimensionSize, h.size, elem)
  }

  /** One element frame at cursor `pos`: a 4-byte signed length, -1 for NULL, then the payload.
      Yields the element and the cursor after it. */
  function Frame(bs: seq<byte>, pos: nat, elem: Dest): (r: Result<(Value, nat), Error>)
    requires IsElement(elem)
    decreases Vector(elem), 0, 0
    ensures r.Success? ==> pos + 4 <= r.value.1 <= |bs|
    ensures r.Failure? ==> CellError(r.error)
  {
    if pos + 4 > |bs| then Eof()
    else
      var len := Signed(bs[pos..pos + 4]);
      if len == NullLength then
        (if elem.Nullable? then Success((Absent, pos + 4)) else Failure(InvalidArgument))
      else if len < 0 then Failure(SystemError(BadObjectSize))
      else if pos + 4 + len > |bs| then Eof()
      else
        match DecodeData(bs[pos + 4..pos + 4 + len], elem)
        case Success(v) => Success((v, pos + 4 + len))
        case Failure(e) => Failure(e)
  }

  /** `n` consecutive frames from cursor `pos`, stopping at the first failing one. */
  function Frames(bs: seq<byte>, pos: nat, n: int, elem: Dest): (r: Result<seq<Value>, Error>)
    requires IsElement(elem)
    decreases Vector(elem), 0, if n <= 0 then 0 else n + 1
    ensures r.Failure? ==> CellError(r.error)
  {
    if n <= 0 then Success([])
    else
      match Frame(bs, pos, elem)
      case Failure(e) => Failure(e)
      case Success((v, next)) => Prepend([v], Frames(bs, next, n - 1, elem))
  }

  /** One step of `Frames`: the first frame, then the remaining n-1 after its cursor. */
  lemma FramesStep(bs: seq<byte>, pos: nat, n: int, elem: Dest)
    requires IsElement(elem) && n > 0
    ensures Frame(bs, pos, elem).Failure? ==> Frames(bs, pos, n, elem) == Failure(Frame(bs, pos, elem).error)
    ensures Frame(bs, pos, elem).Success? ==>
      Frames(bs, pos, n, elem) == Prepend([Frame(bs, pos, elem).value.0], Frames(bs, Frame(bs, pos, elem).value.1, n - 1, elem))
  {
  }

  function Prepend(prefix: seq<Value>, r: Result<seq<Value>, Error>): Result<seq<Value>, Error>
  {
    match r
    case Success(vs) => Success(prefix + vs)
    case Failure(e) => Failure(e)
  }

  lemma PrependAssoc(a: seq<Value>, b: seq<Value>, r: Result<seq<Value>, Error>)
    ensures Prepend(a, Prepend(b, r)) == Prepend(a + b, r)
  {
    if r.Success? {
      assert a + (b + r.value) == (a + b) + r.value;
    }
  }

  /** The element loop of the array decoder: a cursor advanced frame by frame over the buffer,
      collecting the elements in order. */
  method ReadFrames(bs: seq<byte>, start: nat, n: int, elem: Dest) returns (r: Result<seq<Value>, Error>)
    requires IsElement(elem)
    ensures r == Frames(bs, start, n, elem)
  {
    var items: seq<Value> := [];
    var pos := start;
    var i := 0;
    assert Prepend([], Frames(bs, start, n, elem)) == Frames(bs, start, n, elem) by {
      var f := Frames(bs, start, n, elem);
      if f.Success? { assert [] + f.value == f.value; }
    }
    while i < n
      invariant 0 <= i && (n <= 0 || i <= n)
      invariant Frames(bs, start, n, elem) == Prepend(items, Frames(bs, pos, n - i, elem))
      decreases n - i
    {
      match Frame(bs, pos, elem)
      case Failure(e) =>
        return Failure(e);
      case Success((v, next)) =>
        PrependAssoc(items, [v], Frames(bs, next, n - i - 1, elem));
        items := items + [v];
        pos := next;
        i := i + 1;
    }
    assert Frames(bs, pos, n - i, elem) == Success([]);
    assert items + [] == items;
    return Success(items);
  }

  /** The array decoder into a growable destination (std::vector), reading the header and then
      running the element loop. */
  method ReadArray(bs: seq<byte>, elem: Dest) returns (r: Result<seq<Value>, Error>)
    requires IsElement(elem)
    ensures r == ArrayBody(bs, elem)
  {
    var header := ReadHeader(bs);
    match header
    case Failure(e) =>
      return Failure(e);
    case Success(None) =>
      return Success([]);
    case Success(Some(h)) =>
      var bad := CheckHeader(h, elem);
      if bad.Some? {
        return Failure(bad.value);
      }
      r := ReadFrames(bs, ArrayHeaderSize + DimensionSize, h.size, elem);
  }

  /** `ozo::recv` as the C++ code runs it: null and OID checks, then the value's bytes. */
  method RecvCell(c: Cell, d: Dest) returns (r: Result<Value, Error>)
    requires Registered(d)
    ensures r == Decode(c, d)
  {
    match c.datum
    case Null =>
      r := if d.Nullable? then Success(Absent) else Failure(InvalidArgument);
    case Data(bs) =>
      if c.oid != TypeOid(d) {
        return Failure(SystemError(OidTypeMismatch));
      }
      r := RecvData(bs, d);
  }

  method RecvData(bs: seq<byte>, d: Dest) returns (r: Result<Value, Error>)
    requires Registered(d)
    ensures r == DecodeData(bs, d)
    decreases d
  {
    match d
    case Plain(s) =>
      r := DecodeScalar(bs, s);
    case Nullable(inner) =>
      var v := RecvData(bs, inner);
      r := if v.Success? then Success(Present(v.value)) else Failure(v.error);
    case Vector(elem) =>
      var vs := ReadArray(bs, elem);
      r := if vs.Success? then Success(Elements(vs.value)) else Failure(vs.error);
  }
}

/** A fixed-size destination (std::array<T, N>) decoded in place: the array's element count must
    equal N exactly, and the elements are written one by one as the cursor advances. */
module RecvFixed {
  import opened Wrappers
  import opened BigEndian
  import opened PgTypes
  import opened Recv

  /** What decoding into a std::array of `n` elements yields: the elements written, `None` when
      the array has no dimensions (nothing is written), or the error thrown. */
  function FixedArraySpec(c: Cell, elem: Dest, n: nat): Result<Option<seq<Value>>, Error>
    requires IsElement(elem)
  {
    match c.datum
    case Null => Failure(InvalidArgument)
    case Data(bs) =>
      if c.oid != ArrayOid(BaseScalar(elem)) then Failure(SystemError(OidTypeMismatch))
      else
        match ReadHeader(bs)
        case Failure(e) => Failure(e)
        case Success(None) => Success(None)
        case Success(Some(h)) =>
          match CheckHeader(h, elem)
          case Some(e) => Failure(e)
          case None =>
            if h.size != n then Failure(SystemError(BadArraySize))
            else
              match Frames(bs, ArrayHeaderSize + DimensionSize, h.size, elem)
              case Success(vs) => Success(Some(vs))
              case Failure(e) => Failure(e)
  }

  lemma {:induction false} FramesLength(bs: seq<byte>, pos: nat, n: int, elem: Dest)
    requires IsElement(elem)
    ensures Frames(bs, pos, n, elem).Success? ==> |Frames(bs, pos, n, elem).value| == if n <= 0 then 0 else n
    decreases if n <= 0 then 0 else n
  {
    if n > 0 {
      match Frame(bs, pos, elem)
      case Failure(_) =>
      case Success((v, next)) => FramesLength(bs, next, n - 1, elem);
    }
  }

  /** A std::array destination succeeds exactly when the array decodes and has N elements;
      an array that decodes with one element more or fewer is the bad-array-size system error
      (an array without dimensions writes nothing). */
  lemma FixedArrayIffCount(c: Cell, elem: Dest, n: nat)
    requires IsElement(elem) && c.datum.Data?
    requires ReadHeader(c.datum.bytes).Success? && ReadHeader(c.datum.bytes).value.Some?
    ensures FixedArraySpec(c, elem, n).Success? <==>
              Decode(c, Vector(elem)).Success? && |Decode(c, Vector(elem)).value.items| == n
    ensures FixedArraySpec(c, elem, n).Success? ==>
              FixedArraySpec(c, elem, n).value == Some(Decode(c, Vector(elem)).value.items)
    ensures Decode(c, Vector(elem)).Success? && |Decode(c, Vector(elem)).value.items| != n ==>
              FixedArraySpec(c, elem, n) == Failure(SystemError(BadArraySize))
  {
    var h := ReadHeader(c.datum.bytes).value.value;
    FramesLength(c.datum.bytes, ArrayHeaderSize + DimensionSize, h.size, elem);
  }

  method RecvFixedArray(c: Cell, elem: Dest, a: array<Value>) returns (err: Option<Error>)
    requires IsElement(elem)
    modifies a
    ensures err.None? <==> FixedArraySpec(c, elem, a.Length).Success?
    ensures err.Some? ==> err.value == FixedArraySpec(c, elem, a.Length).error
    ensures err.None? && FixedArraySpec(c, elem, a.Length).value.None? ==> a[..] == old(a[..])
    ensures err.None? && FixedArraySpec(c, elem, a.Length).value.Some? ==>
              a[..] == FixedArraySpec(c, elem, a.Length).value.value
  {
    if c.datum.Null? {
      return Some(InvalidArgument);
    }
    var bs := c.datum.bytes;
    if c.oid != ArrayOid(BaseScalar(elem)) {
      return Some(SystemError(OidTypeMismatch));
    }
    var header := ReadHeader(bs);
    if header.Failure? {
      return Some(header.error);
    }
    if header.value.None? {
      return None;
    }
    var h := header.value.value;
    var bad := CheckHeader(h, elem);
    if bad.Some? {
      return bad;
    }
    if h.size != a.Length {
      return Some(SystemError(BadArraySize));
    }
    err := WriteFrames(bs, ArrayHeaderSize + DimensionSize, elem, a);
  }

  /** The element loop of the std::array decoder: frame i of the buffer, from cursor start, is
      written to a[i]; the first failing frame ends the loop with its error. */
  method WriteFrames(bs: seq<byte>, start: nat, elem: Dest, a: array<Value>) returns (err: Option<Error>)
    requires IsElement(elem)
    modifies a
    ensures err.None? <==> Frames(bs, start, a.Length, elem).Success?
    ensures err.Some? ==> err.value == Frames(bs, start, a.Length, elem).error
    ensures err.None? ==> a[..] == Frames(bs, start, a.Length, elem).value
  {
    var pos: nat := start;
    var i := 0;
    assert Prepend([], Frames(bs, start, a.Length, elem)) == Frames(bs, start, a.Length, elem) by {
      var f := Frames(bs, start, a.Length, elem);
      if f.Success? { assert [] + f.value == f.value; }
    }
    while i < a.Length
      invariant 0 <= i <= a.Length
      invariant Frames(bs, start, a.Length, elem) == Prepend(a[..i], Frames(bs, pos, a.Length - i, elem))
      decreases a.Length - i
    {
      match Frame(bs, pos, elem)
      case Failure(e) =>
        return Some(e);
      case Success((v, next)) =>
        ghost var done := a[..i];
        PrependAssoc(done, [v], Frames(bs, next, a.Length - i - 1, elem));
        a[i] := v;
        assert a[..i + 1] == done + [v];
        pos := next;
        i := i + 1;
    }
    assert a[..i] == a[..];
    assert a[..] + [] == a[..];
    return None;
  }
}
