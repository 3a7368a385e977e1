/** What `recv_row` and `recv_result` promise: the arity check, members read by position or by
    column name, the single-value shape, every row of a result in order, and the rows of the
    decoder's own tests. */
module RowProperties {
  import opened Wrappers
  import opened BigEndian
  import opened PgTypes
  import opened Recv
  import opened Sequencing
  import opened Rows
  import RecvProperties

  /** The members' outcomes, read one by one, decide the row: it decodes exactly when every member
      does, and then member i holds the value read for it. */
  lemma MembersDecideRow(res: PgResult, row: nat, rd: RowDest)
    requires RowReady(res, row, rd)
    ensures DecodeRow(res, row, rd).Success? <==>
      forall i :: 0 <= i < Arity(rd) ==> DecodeMember(res, row, rd, i).Success?
    ensures DecodeRow(res, row, rd).Failure? ==>
      exists k :: 0 <= k < Arity(rd) && DecodeMember(res, row, rd, k) == Failure(DecodeRow(res, row, rd).error)
  {
    var rs := MemberResults(res, row, rd, Arity(rd));
    MemberResultsAt(res, row, rd, Arity(rd));
    CollectAll(rs);
    if Collect(rs).Failure? {
      var k := CollectFailureAt(rs);
      assert DecodeMember(res, row, rd, k) == Failure(DecodeRow(res, row, rd).error);
    }
  }

  /** The member values of a decoded row, in declaration order. */
  lemma MemberValues(res: PgResult, row: nat, rd: RowDest) returns (vs: seq<Value>)
    requires RowReady(res, row, rd) && DecodeRow(res, row, rd).Success?
    ensures |vs| == Arity(rd) && DecodeRow(res, row, rd) == Success(Assemble(rd, vs))
    ensures forall i :: 0 <= i < Arity(rd) ==> DecodeMember(res, row, rd, i) == Success(vs[i])
  {
    var rs := MemberResults(res, row, rd, Arity(rd));
    MemberResultsAt(res, row, rd, Arity(rd));
    CollectAll(rs);
    vs := Collect(rs).value;
  }

  /** A member fails with a range error for a missing column, or with its cell's own error. */
  lemma MemberErrors(res: PgResult, row: nat, rd: RowDest, i: nat)
    requires RowReady(res, row, rd) && i < Arity(rd)
    ensures DecodeMember(res, row, rd, i).Failure? ==>
      DecodeMember(res, row, rd, i).error == RangeError(FieldNotFound) || CellError(DecodeMember(res, row, rd, i).error)
  {
  }

  /** The row is refused with the row-size range error exactly when the destination's arity
      differs from the row's field count; any other failure comes from a member. */
  lemma RowSizeMismatchIff(res: PgResult, row: nat, rd: RowDest)
    requires WellFormed(res) && row < NTuples(res) && RowDestRegistered(rd)
    ensures DecodeRow(res, row, rd) == Failure(RangeError(RowSizeMismatch)) <==> Arity(rd) != NFields(res)
    ensures DecodeRow(res, row, rd).Failure? && Arity(rd) == NFields(res) ==>
      DecodeRow(res, row, rd).error == RangeError(FieldNotFound) || CellError(DecodeRow(res, row, rd).error)
  {
    if Arity(rd) == NFields(res) && DecodeRow(res, row, rd).Failure? {
      MembersDecideRow(res, row, rd);
      var k :| 0 <= k < Arity(rd) && DecodeMember(res, row, rd, k) == Failure(DecodeRow(res, row, rd).error);
      MemberErrors(res, row, rd, k);
    }
  }

  /** A tuple takes column i into element i: it decodes exactly when every column decodes into
      its element, and then holds their values in column order. */
  lemma TupleByPosition(res: PgResult, row: nat, ds: seq<Dest>)
    requires WellFormed(res) && row < NTuples(res) && RowDestRegistered(TupleOf(ds)) && |ds| == NFields(res)
    ensures DecodeRow(res, row, TupleOf(ds)).Success? <==>
      forall i :: 0 <= i < |ds| ==> Decode(CellAt(res, row, i), ds[i]).Success?
    ensures DecodeRow(res, row, TupleOf(ds)).Success? ==>
      && DecodeRow(res, row, TupleOf(ds)).value.Tuple?
      && |DecodeRow(res, row, TupleOf(ds)).value.items| == |ds|
      && forall i :: 0 <= i < |ds| ==>
           DecodeRow(res, row, TupleOf(ds)).value.items[i] == Decode(CellAt(res, row, i), ds[i]).value
  {
    var rd := TupleOf(ds);
    assert forall i :: 0 <= i < |ds| ==> DecodeMember(res, row, rd, i) == Decode(CellAt(res, row, i), ds[i]);
    MembersDecideRow(res, row, rd);
    if DecodeRow(res, row, rd).Success? {
      var vs := MemberValues(res, row, rd);
    }
  }

  /** A structure takes each member from the column its name designates, wherever that column is
      and in whatever order the members are declared: it decodes exactly when every such column
      decodes into its member, and then holds their values in declaration order. */
  lemma StructByName(res: PgResult, row: nat, fs: seq<Field>)
    requires WellFormed(res) && row < NTuples(res) && RowDestRegistered(StructOf(fs)) && |fs| == NFields(res)
    requires forall i :: 0 <= i < |fs| ==> fs[i].name in res.names
    ensures DecodeRow(res, row, StructOf(fs)).Success? <==>
      forall i :: 0 <= i < |fs| ==>
        Decode(CellAt(res, row, FieldNumber(res.names, fs[i].name)), fs[i].dest).Success?
    ensures DecodeRow(res, row, StructOf(fs)).Success? ==>
      && DecodeRow(res, row, StructOf(fs)).value.Record?
      && |DecodeRow(res, row, StructOf(fs)).value.items| == |fs|
      && forall i :: 0 <= i < |fs| ==>
           DecodeRow(res, row, StructOf(fs)).value.items[i] ==
             Decode(CellAt(res, row, FieldNumber(res.names, fs[i].name)), fs[i].dest).value
  {
    var rd := StructOf(fs);
    assert forall i :: 0 <= i < |fs| ==>
      DecodeMember(res, row, rd, i) == Decode(CellAt(res, row, FieldNumber(res.names, fs[i].name)), fs[i].dest);
    MembersDecideRow(res, row, rd);
    if DecodeRow(res, row, rd).Success? {
      var vs := MemberValues(res, row, rd);
    }
  }

  /** A member whose name no column carries refuses the row; if the members before it decode,
      the error is the field-not-found range error. */
  lemma MissingColumnFails(res: PgResult, row: nat, fs: seq<Field>, k: nat)
    requires WellFormed(res) && row < NTuples(res) && RowDestRegistered(StructOf(fs)) && |fs| == NFields(res)
    requires k < |fs| && fs[k].name !in res.names
    ensures DecodeRow(res, row, StructOf(fs)).Failure?
    ensures (forall j :: 0 <= j < k ==> DecodeMember(res, row, StructOf(fs), j).Success?) ==>
      DecodeRow(res, row, StructOf(fs)) == Failure(RangeError(FieldNotFound))
  {
    var rd := StructOf(fs);
    var rs := MemberResults(res, row, rd, Arity(rd));
    MemberResultsAt(res, row, rd, Arity(rd));
    assert rs[k] == Failure(RangeError(FieldNotFound));
    CollectAll(rs);
    if forall j :: 0 <= j < k ==> DecodeMember(res, row, rd, j).Success? {
      assert forall j :: 0 <= j < k ==> rs[j].Success?;
      CollectFirstError(rs, k);
    }
  }

  /** A plain value takes a row of exactly one field, and is that field decoded. */
  lemma SingleValueOneField(res: PgResult, row: nat, d: Dest)
    requires WellFormed(res) && row < NTuples(res) && Registered(d)
    ensures NFields(res) != 1 ==> DecodeRow(res, row, SingleValue(d)) == Failure(RangeError(RowSizeMismatch))
    ensures NFields(res) == 1 ==>
      DecodeRow(res, row, SingleValue(d)) == Decode(CellAt(res, row, 0), d)
  {
    if NFields(res) == 1 {
      var rd := SingleValue(d);
      var rs := MemberResults(res, row, rd, 1);
      MemberResultsAt(res, row, rd, 1);
      CollectSnoc([], rs[0]);
      assert rs == [] + [rs[0]];
    }
  }

  /** The names of the columns are pairwise distinct. */
  predicate DistinctNames(names: seq<string>)
  {
    forall a, b :: 0 <= a < b < |names| ==> names[a] != names[b]
  }

  lemma FieldNumberOfDistinct(names: seq<string>, k: nat)
    requires DistinctNames(names) && k < |names|
    ensures FieldNumber(names, names[k]) == k
  {
  }

  /** res2 holds the columns of res1 in another order: column j of res1 is column p[j] of res2,
      and q undoes p. */
  predicate ColumnsPermuted(res1: PgResult, res2: PgResult, row: nat, p: seq<nat>, q: seq<nat>)
    requires WellFormed(res1) && WellFormed(res2) && row < NTuples(res1) && row < NTuples(res2)
  {
    && NFields(res1) == NFields(res2) == |p| == |q|
    && (forall j :: 0 <= j < |p| ==> p[j] < |q| && q[p[j]] == j)
    && (forall k :: 0 <= k < |q| ==> q[k] < |p| && p[q[k]] == k)
    && (forall j :: 0 <= j < |p| ==>
         && res2.names[p[j]] == res1.names[j]
         && CellAt(res2, row, p[j]) == CellAt(res1, row, j))
  }

  /** Reordered columns carry the same names: every name of either result is a name of the other. */
  lemma NamesPermuted(res1: PgResult, res2: PgResult, row: nat, p: seq<nat>, q: seq<nat>)
    requires WellFormed(res1) && WellFormed(res2) && row < NTuples(res1) && row < NTuples(res2)
    requires ColumnsPermuted(res1, res2, row, p, q)
    ensures forall x :: x in res2.names ==> x in res1.names
    ensures forall x :: x in res1.names ==> x in res2.names
  {
    forall k | 0 <= k < |res2.names|
      ensures res2.names[k] in res1.names
    {
      assert res1.names[q[k]] == res2.names[k];
    }
    forall j | 0 <= j < |res1.names|
      ensures res1.names[j] in res2.names
    {
      assert res2.names[p[j]] == res1.names[j];
    }
  }

  /** With distinct column names, reordering the columns of a result does not change what a
      structure reads from a row. */
  lemma ColumnOrderIrrelevant(res1: PgResult, res2: PgResult, row: nat, fs: seq<Field>, p: seq<nat>, q: seq<nat>)
    requires WellFormed(res1) && WellFormed(res2) && row < NTuples(res1) && row < NTuples(res2)
    requires RowDestRegistered(StructOf(fs)) && DistinctNames(res1.names)
    requires ColumnsPermuted(res1, res2, row, p, q)
    ensures DecodeRow(res1, row, StructOf(fs)) == DecodeRow(res2, row, StructOf(fs))
  {
    var rd := StructOf(fs);
    var n := |p|;
    assert DistinctNames(res2.names) by {
      forall a, b | 0 <= a < b < n
        ensures res2.names[a] != res2.names[b]
      {
        assert res2.names[p[q[a]]] == res1.names[q[a]];
        assert res2.names[p[q[b]]] == res1.names[q[b]];
      }
    }
    if Arity(rd) == n {
      forall i | 0 <= i < Arity(rd)
        ensures DecodeMember(res1, row, rd, i) == DecodeMember(res2, row, rd, i)
      {
        var x := fs[i].name;
        var j := FieldNumber(res1.names, x);
        if j >= 0 {
          FieldNumberOfDistinct(res2.names, p[j]);
        } else {
          NamesPermuted(res1, res2, row, p, q);
        }
      }
      var rs1 := MemberResults(res1, row, rd, Arity(rd));
      var rs2 := MemberResults(res2, row, rd, Arity(rd));
      MemberResultsAt(res1, row, rd, Arity(rd));
      MemberResultsAt(res2, row, rd, Arity(rd));
      assert rs1 == rs2;
    }
  }

  /** `recv_result` succeeds exactly when every row decodes, and then delivers every row's value
      in row order. */
  lemma ResultAllRows(res: PgResult, rd: RowDest)
    requires WellFormed(res) && RowDestRegistered(rd)
    ensures DecodeRows(res, rd, NTuples(res)).err.None? <==>
      forall i :: 0 <= i < NTuples(res) ==> DecodeRow(res, i, rd).Success?
    ensures DecodeRows(res, rd, NTuples(res)).err.None? ==>
      && |DecodeRows(res, rd, NTuples(res)).values| == NTuples(res)
      && forall i :: 0 <= i < NTuples(res) ==>
           DecodeRows(res, rd, NTuples(res)).values[i] == DecodeRow(res, i, rd).value
  {
    var o := DecodeRows(res, rd, NTuples(res));
    RowsDecodedInOrder(res, rd, NTuples(res));
    if o.err.Some? {
      var k := |o.values|;
      assert DecodeRow(res, k, rd).Failure?;
    }
  }

  /** The cells of the decoder's row tests: an int4 7 and the text "test". */
  const SevenBytes: seq<byte> := [0, 0, 0, 7]
  const TestBytes: seq<byte> := [116, 101, 115, 116]

  /** Two rows of columns "digit" (int4) and "text" (text). */
  function DigitTextResult(): PgResult
  {
    var cells := [Data(SevenBytes), Data(TestBytes)];
    PgResult(["digit", "text"], [Int4Oid, TextOid], [cells, cells])
  }

  /** The adapted structure of the tests: members text and digit, in that order. */
  function TextDigit(): RowDest
  {
    StructOf([Field("text", Plain(Text)), Field("digit", Plain(Int4))])
  }

  /** The two cells of the tests decode as 7 and as the bytes of "test". */
  lemma TestCells()
    ensures Decode(Cell(Int4Oid, Data(SevenBytes)), Plain(Int4)) == Success(Integer(7))
    ensures Decode(Cell(TextOid, Data(TestBytes)), Plain(Text)) == Success(Bytes(TestBytes))
  {
    assert EncodeSigned(7, 4) == SevenBytes;
    RecvProperties.IntegerRoundTrip(Int4, 7);
  }

  lemma DigitTextAsTuple()
    ensures DecodeRow(DigitTextResult(), 0, TupleOf([Plain(Int4), Plain(Text)]))
      == Success(Tuple([Integer(7), Bytes(TestBytes)]))
  {
    TestCells();
    TupleByPosition(DigitTextResult(), 0, [Plain(Int4), Plain(Text)]);
    assert DecodeRow(DigitTextResult(), 0, TupleOf([Plain(Int4), Plain(Text)])).value.items == [Integer(7), Bytes(TestBytes)];
  }

  /** A structure of two members whose columns decode to v0 and v1 is the record of v0 and v1. */
  lemma StructOfTwo(res: PgResult, row: nat, fs: seq<Field>, v0: Value, v1: Value)
    requires WellFormed(res) && row < NTuples(res) && RowDestRegistered(StructOf(fs)) && |fs| == NFields(res) == 2
    requires fs[0].name in res.names && fs[1].name in res.names
    requires Decode(CellAt(res, row, FieldNumber(res.names, fs[0].name)), fs[0].dest) == Success(v0)
    requires Decode(CellAt(res, row, FieldNumber(res.names, fs[1].name)), fs[1].dest) == Success(v1)
    ensures DecodeRow(res, row, StructOf(fs)) == Success(Record([v0, v1]))
  {
    var r := DecodeRow(res, row, StructOf(fs));
    StructByName(res, row, fs);
    assert r.Success? by {
      forall i | 0 <= i < |fs|
        ensures Decode(CellAt(res, row, FieldNumber(res.names, fs[i].name)), fs[i].dest).Success?
      {
        assert i == 0 || i == 1;
      }
    }
    var items := r.value.items;
    assert |items| == 2 && items[0] == v0 && items[1] == v1;
    assert items == [v0, v1];
  }

  lemma DigitTextAsStruct(row: nat)
    requires row < 2
    ensures DecodeRow(DigitTextResult(), row, TextDigit()) == Success(Record([Bytes(TestBytes), Integer(7)]))
  {
    var res := DigitTextResult();
    var fs := TextDigit().fields;
    assert FieldNumber(res.names, "text") == 1 by {
      assert res.names[0] != "text";
    }
    assert FieldNumber(res.names, "digit") == 0;
    TestCells();
    assert CellAt(res, row, 1) == Cell(TextOid, Data(TestBytes));
    assert CellAt(res, row, 0) == Cell(Int4Oid, Data(SevenBytes));
    StructOfTwo(res, row, fs, Bytes(TestBytes), Integer(7));
  }

  /** Two rows that decode to the same value make a result of that value twice. */
  lemma TwoEqualRows(res: PgResult, rd: RowDest, v: Value)
    requires WellFormed(res) && RowDestRegistered(rd) && NTuples(res) == 2
    requires DecodeRow(res, 0, rd) == Success(v) && DecodeRow(res, 1, rd) == Success(v)
    ensures DecodeRows(res, rd, 2) == Outcome([v, v], None)
  {
    ResultAllRows(res, rd);
  }

  lemma DigitTextResultRows()
    ensures DecodeRows(DigitTextResult(), TextDigit(), 2)
      == Outcome([Record([Bytes(TestBytes), Integer(7)]), Record([Bytes(TestBytes), Integer(7)])], None)
  {
    DigitTextAsStruct(0);
    DigitTextAsStruct(1);
    TwoEqualRows(DigitTextResult(), TextDigit(), Record([Bytes(TestBytes), Integer(7)]));
  }

  /** One int4 column over two rows, read into plain integers through an iterator. */
  function SevenColumn(): PgResult
  {
    PgResult(["digit"], [Int4Oid], [[Data(SevenBytes)], [Data(SevenBytes)]])
  }

  lemma SevenColumnRows()
    ensures DecodeRows(SevenColumn(), SingleValue(Plain(Int4)), 2) == Outcome([Integer(7), Integer(7)], None)
  {
    TestCells();
    SingleValueOneField(SevenColumn(), 0, Plain(Int4));
    SingleValueOneField(SevenColumn(), 1, Plain(Int4));
    TwoEqualRows(SevenColumn(), SingleValue(Plain(Int4)), Integer(7));
  }
}
