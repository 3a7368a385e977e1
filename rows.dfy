/** `ozo::recv_row` and `ozo::recv_result`: a row of a query result mapped onto a tuple (by
    position), onto a structure (by column name) or onto a single value, and a whole result
    decoded row by row into a growable or a pre-sized destination. */
module Rows {
  import opened Wrappers
  import opened BigEndian
  import opened PgTypes
  import opened Recv
  import opened Sequencing

  /** The parts of a query result the decoder consults: per column its name and type OID, and
      per row one datum per column. */
  datatype PgResult = PgResult(names: seq<string>, types: seq<Oid>, tuples: seq<seq<Datum>>)

  predicate WellFormed(res: PgResult)
  {
    && |res.names| == |res.types|
    && forall r :: 0 <= r < |res.tuples| ==> |res.tuples[r]| == |res.types|
  }

  function NFields(res: PgResult): nat
  {
    |res.types|
  }

  function NTuples(res: PgResult): nat
  {
    |res.tuples|
  }

  /** The cell at (row, column): the column's type OID with the row's datum. */
  function CellAt(res: PgResult, row: nat, col: nat): Cell
    requires WellFormed(res) && row < NTuples(res) && col < NFields(res)
  {
    Cell(res.types[col], res.tuples[row][col])
  }

  /** `field_number`: the first column carrying the name, or -1 when there is none. */
  function FieldNumber(names: seq<string>, name: string): (k: int)
    ensures -1 <= k < |names|
    ensures k == -1 <==> name !in names
    ensures k >= 0 ==> names[k] == name && forall j :: 0 <= j < k ==> names[j] != name
  {
    if |names| == 0 then -1
    else if names[0] == name then 0
    else
      var k := FieldNumber(names[1..], name);
      assert forall j :: 1 <= j < |names| ==> names[j] == names[1..][j - 1];
      if k == -1 then -1 else k + 1
  }

  /** A named member of an adapted structure. */
  datatype Field = Field(name: string, dest: Dest)

  /** The three shapes of row destination: a std::tuple (positional), a Fusion or Hana adapted
      structure (by column name, members in declaration order) and a plain value. */
  datatype RowDest =
    | TupleOf(dests: seq<Dest>)
    | StructOf(fields: seq<Field>)
    | SingleValue(dest: Dest)

  function Arity(rd: RowDest): nat
  {
    match rd
    case TupleOf(ds) => |ds|
    case StructOf(fs) => |fs|
    case SingleValue(_) => 1
  }

  function MemberDest(rd: RowDest, i: nat): Dest
    requires i < Arity(rd)
  {
    match rd
    case TupleOf(ds) => ds[i]
    case StructOf(fs) => fs[i].dest
    case SingleValue(d) => d
  }

  /** Every member type is known to the registry. */
  predicate RowDestRegistered(rd: RowDest)
  {
    match rd
    case TupleOf(ds) => forall i :: 0 <= i < |ds| ==> Registered(ds[i])
    case StructOf(fs) => forall i :: 0 <= i < |fs| ==> Registered(fs[i].dest)
    case SingleValue(d) => Registered(d)
  }

  /** The column read into member i: its position, or for a structure the column its name
      designates (-1 when absent). */
  function MemberColumn(res: PgResult, rd: RowDest, i: nat): int
    requires i < Arity(rd)
  {
    match rd
    case TupleOf(_) => i
    case StructOf(fs) => FieldNumber(res.names, fs[i].name)
    case SingleValue(_) => 0
  }

  /** Preconditions shared by the member-level functions: a well-formed result, an existing row,
      registered member types and the arity already checked. */
  predicate RowReady(res: PgResult, row: nat, rd: RowDest)
  {
    && WellFormed(res) && row < NTuples(res) && RowDestRegistered(rd) && Arity(rd) == NFields(res)
  }

  /** Member i read from its column; a missing column name is a range error. */
  function DecodeMember(res: PgResult, row: nat, rd: RowDest, i: nat): Result<Value, Error>
    requires RowReady(res, row, rd) && i < Arity(rd)
  {
    var k := MemberColumn(res, rd, i);
    if k < 0 then Failure(RangeError(FieldNotFound))
    else Decode(CellAt(res, row, k), MemberDest(rd, i))
  }

  /** The outcomes of reading members 0..n-1, each on its own. */
  function MemberResults(res: PgResult, row: nat, rd: RowDest, n: nat): (rs: seq<Result<Value, Error>>)
    requires RowReady(res, row, rd) && n <= Arity(rd)
    ensures |rs| == n
  {
    if n == 0 then [] else MemberResults(res, row, rd, n - 1) + [DecodeMember(res, row, rd, n - 1)]
  }

  lemma {:induction false} MemberResultsAt(res: PgResult, row: nat, rd: RowDest, n: nat)
    requires RowReady(res, row, rd) && n <= Arity(rd)
    ensures forall i :: 0 <= i < n ==> MemberResults(res, row, rd, n)[i] == DecodeMember(res, row, rd, i)
  {
    if n > 0 {
      MemberResultsAt(res, row, rd, n - 1);
    }
  }

  /** The destination built from its members' values, in declaration order. */
  function Assemble(rd: RowDest, vs: seq<Value>): Value
    requires |vs| == Arity(rd)
  {
    match rd
    case TupleOf(_) => Tuple(vs)
    case StructOf(_) => Record(vs)
    case SingleValue(_) => vs[0]
  }

  /** `recv_row`: the arity must equal the row's field count, then every member is read. */
  function DecodeRow(res: PgResult, row: nat, rd: RowDest): Result<Value, Error>
    requires WellFormed(res) && row < NTuples(res) && RowDestRegistered(rd)
  {
    if Arity(rd) != NFields(res) then Failure(RangeError(RowSizeMismatch))
    else
      match Collect(MemberResults(res, row, rd, Arity(rd)))
      case Failure(e) => Failure(e)
      case Success(vs) => Success(Assemble(rd, vs))
  }

  lemma MemberStep(res: PgResult, row: nat, rd: RowDest, i: nat, vs: seq<Value>)
    requires RowReady(res, row, rd) && i < Arity(rd) && Collect(MemberResults(res, row, rd, i)) == Success(vs)
    ensures DecodeMember(res, row, rd, i).Success? ==>
      Collect(MemberResults(res, row, rd, i + 1)) == Success(vs + [DecodeMember(res, row, rd, i).value])
    ensures DecodeMember(res, row, rd, i).Failure? ==>
      DecodeRow(res, row, rd) == Failure(DecodeMember(res, row, rd, i).error)
  {
    var m := DecodeMember(res, row, rd, i);
    CollectSnoc(MemberResults(res, row, rd, i), m);
    if m.Failure? {
      CollectAll(MemberResults(res, row, rd, i));
      MemberResultsAt(res, row, rd, i);
      MemberResultsAt(res, row, rd, Arity(rd));
      CollectFirstError(MemberResults(res, row, rd, Arity(rd)), i);
    }
  }

  /** The row loop of `recv_row`: members read one at a time into the destination. */
  method RecvRow(res: PgResult, row: nat, rd: RowDest) returns (r: Result<Value, Error>)
    requires WellFormed(res) && row < NTuples(res) && RowDestRegistered(rd)
    ensures r == DecodeRow(res, row, rd)
  {
    if Arity(rd) != NFields(res) {
      return Failure(RangeError(RowSizeMismatch));
    }
    var vs: seq<Value> := [];
    var i: nat := 0;
    while i < Arity(rd)
      invariant i <= Arity(rd)
      invariant Collect(MemberResults(res, row, rd, i)) == Success(vs)
    {
      var m := DecodeMember(res, row, rd, i);
      MemberStep(res, row, rd, i, vs);
      if m.Failure? {
        return Failure(m.error);
      }
      vs := vs + [m.value];
      i := i + 1;
    }
    return Success(Assemble(rd, vs));
  }

  /** The outcomes of decoding rows 0..n-1, each on its own. */
  function RowResults(res: PgResult, rd: RowDest, n: nat): (rs: seq<Result<Value, Error>>)
    requires WellFormed(res) && RowDestRegistered(rd) && n <= NTuples(res)
    ensures |rs| == n
  {
    if n == 0 then [] else RowResults(res, rd, n - 1) + [DecodeRow(res, n - 1, rd)]
  }

  lemma {:induction false} RowResultsAt(res: PgResult, rd: RowDest, n: nat)
    requires WellFormed(res) && RowDestRegistered(rd) && n <= NTuples(res)
    ensures forall i :: 0 <= i < n ==> RowResults(res, rd, n)[i] == DecodeRow(res, i, rd)
  {
    if n > 0 {
      RowResultsAt(res, rd, n - 1);
    }
  }

  /** `recv_result` over rows 0..n-1: each row decoded in order and delivered to the destination,
      stopping at the first failing row. */
  function DecodeRows(res: PgResult, rd: RowDest, n: nat): Outcome
    requires WellFormed(res) && RowDestRegistered(rd) && n <= NTuples(res)
  {
    Gather(RowResults(res, rd, n))
  }

  /** The outcome over rows 0..n-1 is the longest prefix of rows that decode, each row's own
      value, and the error of the first row that does not. */
  lemma RowsDecodedInOrder(res: PgResult, rd: RowDest, n: nat)
    requires WellFormed(res) && RowDestRegistered(rd) && n <= NTuples(res)
    ensures DecodeRows(res, rd, n).err.None? ==> |DecodeRows(res, rd, n).values| == n
    ensures DecodeRows(res, rd, n).err.Some? ==>
      var k := |DecodeRows(res, rd, n).values|;
      k < n && DecodeRow(res, k, rd) == Failure(DecodeRows(res, rd, n).err.value)
    ensures forall i :: 0 <= i < |DecodeRows(res, rd, n).values| ==>
      DecodeRow(res, i, rd) == Success(DecodeRows(res, rd, n).values[i])
  {
    GatherInOrder(RowResults(res, rd, n));
    RowResultsAt(res, rd, n);
  }

  /** rs holds the outcome of decoding each row of the result on its own. */
  predicate RowOutcomes(res: PgResult, rd: RowDest, rs: seq<Result<Value, Error>>)
    requires WellFormed(res) && RowDestRegistered(rd)
  {
    && |rs| == NTuples(res)
    && forall k {:trigger DecodeRow(res, k, rd)} :: 0 <= k < |rs| ==> rs[k] == DecodeRow(res, k, rd)
  }

  /** The row outcomes of a result, through which the result loops are proved. */
  lemma RowOutcomesOf(res: PgResult, rd: RowDest) returns (rs: seq<Result<Value, Error>>)
    requires WellFormed(res) && RowDestRegistered(rd)
    ensures RowOutcomes(res, rd, rs) && Gather(rs) == DecodeRows(res, rd, NTuples(res))
  {
    rs := RowResults(res, rd, NTuples(res));
    RowResultsAt(res, rd, NTuples(res));
  }

  /** Row i read by `recv_row`, seen as the i-th of the row outcomes rs. */
  method ReadRow(res: PgResult, rd: RowDest, i: nat, ghost rs: seq<Result<Value, Error>>) returns (r: Result<Value, Error>)
    requires WellFormed(res) && RowDestRegistered(rd) && i < NTuples(res) && RowOutcomes(res, rd, rs)
    ensures r == rs[i]
  {
    r := RecvRow(res, i, rd);
  }

  /** A growable destination (a std::vector behind a back-inserter). */
  class RowVector {
    var items: seq<Value>

    constructor()
      ensures items == []
    {
      items := [];
    }

    method PushBack(v: Value)
      modifies this
      ensures items == old(items) + [v]
    {
      items := items + [v];
    }
  }

  /** `recv_result` through a back-inserter: the decoded rows are appended after what the vector
      already held. */
  method RecvResultAppend(res: PgResult, rd: RowDest, out: RowVector) returns (err: Option<Error>)
    requires WellFormed(res) && RowDestRegistered(rd)
    modifies out
    ensures out.items == old(out.items) + DecodeRows(res, rd, NTuples(res)).values
    ensures err == DecodeRows(res, rd, NTuples(res)).err
  {
    ghost var rs := RowOutcomesOf(res, rd);
    ghost var rows: seq<Value> := [];
    var i: nat := 0;
    while i < NTuples(res)
      invariant i <= NTuples(res)
      invariant Gather(rs[..i]) == Outcome(rows, None)
      invariant out.items == old(out.items) + rows
    {
      var r := ReadRow(res, rd, i, rs);
      GatherStep(rs, i, rows);
      if r.Failure? {
        return Some(r.error);
      }
      out.PushBack(r.value);
      rows := rows + [r.value];
      i := i + 1;
    }
    assert rs[..i] == rs;
    return None;
  }

  lemma WriteAfterPrefix(rows: seq<Value>, before: seq<Value>, v: Value)
    requires |rows| < |before|
    ensures (rows + before[|rows|..])[|rows| := v] == (rows + [v]) + before[|rows| + 1..]
  {
  }

  /** `recv_result` through an iterator into a pre-sized destination: row i is written to slot i,
      and slots past the last decoded row keep their values. */
  method RecvResultInto(res: PgResult, rd: RowDest, a: array<Value>) returns (err: Option<Error>)
    requires WellFormed(res) && RowDestRegistered(rd) && NTuples(res) <= a.Length
    modifies a
    ensures err == DecodeRows(res, rd, NTuples(res)).err
    ensures a[..] == DecodeRows(res, rd, NTuples(res)).values + old(a[..])[|DecodeRows(res, rd, NTuples(res)).values|..]
  {
    ghost var rs := RowOutcomesOf(res, rd);
    err := WriteRows(res, rd, a, rs);
  }

  /** The loop of `recv_result` over an iterator, stated over the row outcomes rs. */
  method WriteRows(res: PgResult, rd: RowDest, a: array<Value>, ghost rs: seq<Result<Value, Error>>) returns (err: Option<Error>)
    requires WellFormed(res) && RowDestRegistered(rd) && NTuples(res) <= a.Length && RowOutcomes(res, rd, rs)
    modifies a
    ensures err == Gather(rs).err
    ensures a[..] == Gather(rs).values + old(a[..])[|Gather(rs).values|..]
  {
    ghost var rows: seq<Value> := [];
    var i: nat := 0;
    while i < NTuples(res)
      invariant i <= NTuples(res) && |rows| == i
      invariant Gather(rs[..i]) == Outcome(rows, None)
      invariant a[..] == rows + old(a[..])[i..]
    {
      var r := ReadRow(res, rd, i, rs);
      GatherStep(rs, i, rows);
      if r.Failure? {
        return Some(r.error);
      }
      a[i] := r.value;
      WriteAfterPrefix(rows, old(a[..]), r.value);
      rows := rows + [r.value];
      i := i + 1;
    }
    assert rs[..i] == rs;
    return None;
  }
}
