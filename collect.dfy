/** Reading several values one after the other into an aggregate, as `recv_row` does for the
    members of a tuple or a structure: the values in order when every read succeeds, otherwise the
    error of the first read that fails (the C++ code throws it and stops). */
module Sequencing {
  import opened Wrappers
  import opened PgTypes

  /** The outcome of reading values whose individual outcomes are rs, left to right. */
  function Collect(rs: seq<Result<Value, Error>>): (r: Result<seq<Value>, Error>)
    ensures r.Success? ==> |r.value| == |rs|
  {
    if |rs| == 0 then Success([])
    else
      match Collect(rs[..|rs| - 1])
      case Failure(e) => Failure(e)
      case Success(vs) =>
        match rs[|rs| - 1]
        case Failure(e) => Failure(e)
        case Success(v) => Success(vs + [v])
  }

  /** One more read after the others: the step a reading loop takes. */
  lemma CollectSnoc(rs: seq<Result<Value, Error>>, x: Result<Value, Error>)
    ensures Collect(rs).Failure? ==> Collect(rs + [x]) == Collect(rs)
    ensures Collect(rs).Success? && x.Failure? ==> Collect(rs + [x]) == Failure(x.error)
    ensures Collect(rs).Success? && x.Success? ==> Collect(rs + [x]) == Success(Collect(rs).value + [x.value])
  {
    assert (rs + [x])[..|rs|] == rs;
  }

  /** All reads succeed exactly when each does, and the values are theirs, in order. */
  lemma {:induction false} CollectAll(rs: seq<Result<Value, Error>>)
    ensures Collect(rs).Success? <==> forall i :: 0 <= i < |rs| ==> rs[i].Success?
    ensures Collect(rs).Success? ==> forall i :: 0 <= i < |rs| ==> Collect(rs).value[i] == rs[i].value
  {
    if |rs| > 0 {
      var init := rs[..|rs| - 1];
      CollectAll(init);
      assert forall i :: 0 <= i < |init| ==> init[i] == rs[i];
    }
  }

  /** The error is that of the first failing read, whatever the reads after it give. */
  lemma {:induction false} CollectFirstError(rs: seq<Result<Value, Error>>, k: nat)
    requires k < |rs| && rs[k].Failure?
    requires forall j :: 0 <= j < k ==> rs[j].Success?
    ensures Collect(rs) == Failure(rs[k].error)
  {
    var init := rs[..|rs| - 1];
    assert forall j :: 0 <= j < |init| ==> init[j] == rs[j];
    if k == |rs| - 1 {
      CollectAll(init);
    } else {
      CollectFirstError(init, k);
    }
  }

  /** A failure is the error of a read that failed, every read before it having succeeded. */
  lemma {:induction false} CollectFailureAt(rs: seq<Result<Value, Error>>) returns (k: nat)
    requires Collect(rs).Failure?
    ensures k < |rs| && rs[k] == Failure(Collect(rs).error)
    ensures forall j :: 0 <= j < k ==> rs[j].Success?
  {
    var init := rs[..|rs| - 1];
    assert forall j :: 0 <= j < |init| ==> init[j] == rs[j];
    if Collect(init).Failure? {
      k := CollectFailureAt(init);
    } else {
      CollectAll(init);
      k := |rs| - 1;
    }
  }

  /** Reads that each deliver their value to the destination as soon as they succeed, as the rows
      of `recv_result` do: the values delivered before the first failure, and that failure. */
  datatype Outcome = Outcome(values: seq<Value>, err: Option<Error>)

  function Gather(rs: seq<Result<Value, Error>>): (o: Outcome)
    ensures |o.values| <= |rs|
  {
    if |rs| == 0 then Outcome([], None)
    else
      var o := Gather(rs[..|rs| - 1]);
      if o.err.Some? then o
      else
        match rs[|rs| - 1]
        case Failure(e) => Outcome(o.values, Some(e))
        case Success(v) => Outcome(o.values + [v], None)
  }

  /** One more read after the others. */
  lemma GatherSnoc(rs: seq<Result<Value, Error>>, x: Result<Value, Error>)
    ensures Gather(rs).err.Some? ==> Gather(rs + [x]) == Gather(rs)
    ensures Gather(rs).err.None? && x.Failure? ==> Gather(rs + [x]) == Outcome(Gather(rs).values, Some(x.error))
    ensures Gather(rs).err.None? && x.Success? ==> Gather(rs + [x]) == Outcome(Gather(rs).values + [x.value], None)
  {
    assert (rs + [x])[..|rs|] == rs;
  }

  /** After a failure, the reads that follow change nothing. */
  lemma {:induction false} GatherStops(rs: seq<Result<Value, Error>>, more: seq<Result<Value, Error>>)
    requires Gather(rs).err.Some?
    ensures Gather(rs + more) == Gather(rs)
    decreases |more|
  {
    if |more| > 0 {
      var init := more[..|more| - 1];
      GatherStops(rs, init);
      assert rs + more == (rs + init) + [more[|more| - 1]];
      GatherSnoc(rs + init, more[|more| - 1]);
    } else {
      assert rs + more == rs;
    }
  }

  /** The values delivered are those of the longest successful prefix of reads, in order; the
      error, if any, is that of the read right after them. */
  lemma {:induction false} GatherInOrder(rs: seq<Result<Value, Error>>)
    ensures Gather(rs).err.None? ==> |Gather(rs).values| == |rs|
    ensures Gather(rs).err.Some? ==>
      |Gather(rs).values| < |rs| && rs[|Gather(rs).values|] == Failure(Gather(rs).err.value)
    ensures forall i :: 0 <= i < |Gather(rs).values| ==> rs[i] == Success(Gather(rs).values[i])
  {
    if |rs| > 0 {
      var init := rs[..|rs| - 1];
      GatherInOrder(init);
      assert forall i :: 0 <= i < |init| ==> init[i] == rs[i];
    }
  }

  /** A run that has failed after its first i + 1 reads ends with that outcome. */
  lemma GatherFailedPrefix(rs: seq<Result<Value, Error>>, i: nat)
    requires i < |rs| && Gather(rs[..i + 1]).err.Some?
    ensures Gather(rs) == Gather(rs[..i + 1])
  {
    GatherStops(rs[..i + 1], rs[i + 1..]);
    assert rs[..i + 1] + rs[i + 1..] == rs;
  }

  /** The step of a loop over rs: read i either delivers its value or ends the whole run with its
      error. */
  lemma GatherStep(rs: seq<Result<Value, Error>>, i: nat, values: seq<Value>)
    requires i < |rs| && Gather(rs[..i]) == Outcome(values, None)
    ensures rs[i].Success? ==> Gather(rs[..i + 1]) == Outcome(values + [rs[i].value], None)
    ensures rs[i].Failure? ==> Gather(rs) == Outcome(values, Some(rs[i].error))
  {
    assert rs[..i + 1][..i] == rs[..i];
    if rs[i].Failure? {
      GatherFailedPrefix(rs, i);
    }
  }
}
