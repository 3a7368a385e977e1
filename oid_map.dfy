/** The OID map of custom types: the registered type names, in registration order, each with the
    OID the server reported for it (`null_oid` until negotiated); filling it from the result of
    the negotiation query (`set_oid_map`), looking an OID up (`type_oid`), and the completion of
    the negotiation operation (`request_oid_map_op`). */
module OidMapping {
  import opened Wrappers
  import opened PgTypes

  /** One registered custom type: its name and the OID negotiated for it. */
  datatype Entry = Entry(name: string, oid: Oid)

  predicate DistinctNames(m: seq<Entry>)
  {
    forall i, j :: 0 <= i < j < |m| ==> m[i].name != m[j].name
  }

  /** `get_types_names`: the names of the map, in registration order. */
  function TypesNames(m: seq<Entry>): seq<string>
  {
    if |m| == 0 then [] else [m[0].name] + TypesNames(m[1..])
  }

  /** The names come out one per entry, in the entries' order. */
  lemma {:induction false} TypesNamesInOrder(m: seq<Entry>)
    ensures |TypesNames(m)| == |m|
    ensures forall i :: 0 <= i < |m| ==> TypesNames(m)[i] == m[i].name
  {
    if |m| > 0 {
      TypesNamesInOrder(m[1..]);
    }
  }

  /** A freshly registered map: every name with the null OID. */
  function Fresh(names: seq<string>): (m: seq<Entry>)
    ensures |m| == |names|
    ensures forall i :: 0 <= i < |m| ==> m[i] == Entry(names[i], NullOid)
  {
    if |names| == 0 then [] else [Entry(names[0], NullOid)] + Fresh(names[1..])
  }

  /** The names of a registered map are the registered names: none for the empty map. */
  lemma RegisteredNames(names: seq<string>)
    ensures TypesNames(Fresh(names)) == names
  {
    TypesNamesInOrder(Fresh(names));
  }

  /** The position of a name in the map. */
  function IndexOf(m: seq<Entry>, name: string): (k: int)
    ensures -1 <= k < |m|
    ensures k >= 0 ==> m[k].name == name && forall j :: 0 <= j < k ==> m[j].name != name
    ensures k == -1 ==> forall j :: 0 <= j < |m| ==> m[j].name != name
  {
    if |m| == 0 then -1
    else if m[0].name == name then 0
    else
      var k := IndexOf(m[1..], name);
      if k == -1 then -1 else k + 1
  }

  predicate HasType(m: seq<Entry>, name: string)
  {
    IndexOf(m, name) >= 0
  }

  /** `type_oid` of a registered custom type: the OID stored under its name. */
  function TypeOidOf(m: seq<Entry>, name: string): Oid
    requires HasType(m, name)
  {
    m[IndexOf(m, name)].oid
  }

  /** With distinct names, entry i is found under its own name. */
  lemma IndexOfDistinct(m: seq<Entry>, i: nat)
    requires DistinctNames(m) && i < |m|
    ensures IndexOf(m, m[i].name) == i
  {
  }

  /** The position of the first null OID of a result, or -1 when there is none. */
  function FirstNull(res: seq<Oid>): (k: int)
    ensures -1 <= k < |res|
    ensures k >= 0 ==> res[k] == NullOid && forall j :: 0 <= j < k ==> res[j] != NullOid
    ensures k == -1 ==> forall j :: 0 <= j < |res| ==> res[j] != NullOid
  {
    if |res| == 0 then -1
    else if res[0] == NullOid then 0
    else
      var k := FirstNull(res[1..]);
      if k == -1 then -1 else k + 1
  }

  /** The map with the first n entries given the result's OIDs, the others untouched. */
  function WithOids(m: seq<Entry>, res: seq<Oid>, n: nat): (m': seq<Entry>)
    requires n <= |m| <= |res|
    ensures |m'| == |m|
    ensures forall i :: 0 <= i < n ==> m'[i] == Entry(m[i].name, res[i])
    ensures forall i :: n <= i < |m| ==> m'[i] == m[i]
  {
    if n == 0 then m else WithOids(m, res, n - 1)[n - 1 := Entry(m[n - 1].name, res[n - 1])]
  }

  /** What `set_oid_map` leaves behind and throws: a result of another size is refused before
      anything is written; otherwise the OIDs are stored position by position, and a null OID
      stops the assignment with the entries before it already written. */
  function SetOidMapSpec(m: seq<Entry>, res: seq<Oid>): (seq<Entry>, Option<Error>)
  {
    if |res| != |m| then (m, Some(LengthError))
    else
      var k := FirstNull(res);
      if k < 0 then (WithOids(m, res, |m|), None) else (WithOids(m, res, k), Some(InvalidArgument))
  }

  /** set_oid_map succeeds exactly when the sizes agree and no OID is null. */
  lemma SetOidMapOutcome(m: seq<Entry>, res: seq<Oid>)
    ensures SetOidMapSpec(m, res).1.None? <==> |res| == |m| && NullOid !in res
    ensures SetOidMapSpec(m, res).1 == Some(LengthError) <==> |res| != |m|
    ensures SetOidMapSpec(m, res).1 == Some(InvalidArgument) <==> |res| == |m| && NullOid in res
  {
    var k := FirstNull(res);
    if k >= 0 {
      assert res[k] == NullOid;
    }
  }

  /** set_oid_map never changes a name, whatever it throws. */
  lemma SetOidMapKeepsNames(m: seq<Entry>, res: seq<Oid>)
    ensures TypesNames(SetOidMapSpec(m, res).0) == TypesNames(m)
  {
    var m' := SetOidMapSpec(m, res).0;
    TypesNamesInOrder(m);
    TypesNamesInOrder(m');
    assert forall i :: 0 <= i < |m| ==> m'[i].name == m[i].name;
  }

  /** After a successful assignment, `type_oid` of the i-th registered type is the i-th OID of
      the result. */
  lemma TypeOidAfterSet(m: seq<Entry>, res: seq<Oid>, i: nat)
    requires DistinctNames(m) && i < |m|
    requires SetOidMapSpec(m, res).1.None?
    ensures HasType(SetOidMapSpec(m, res).0, m[i].name)
    ensures TypeOidOf(SetOidMapSpec(m, res).0, m[i].name) == res[i]
  {
    var m' := SetOidMapSpec(m, res).0;
    assert m'[i].name == m[i].name;
    assert DistinctNames(m') by {
      assert forall j :: 0 <= j < |m'| ==> m'[j].name == m[j].name;
    }
    IndexOfDistinct(m', i);
  }

  /** The registry of the negotiation: the types it names, with their OIDs. */
  class OidMap {
    var entries: seq<Entry>

    predicate Valid()
      reads this
    {
      DistinctNames(entries)
    }

    /** `register_types<T...>()`: every name with the null OID. */
    constructor(names: seq<string>)
      requires forall i, j :: 0 <= i < j < |names| ==> names[i] != names[j]
      ensures Valid() && entries == Fresh(names)
    {
      entries := Fresh(names);
    }

    /** `set_oid_map`: the map after the assignment, and the exception it throws if any. */
    method SetOidMap(res: seq<Oid>) returns (err: Option<Error>)
      requires Valid()
      modifies this
      ensures Valid()
      ensures (entries, err) == SetOidMapSpec(old(entries), res)
    {
      if |res| != |entries| {
        return Some(LengthError);
      }
      ghost var m := entries;
      var i := 0;
      while i < |res|
        invariant i <= |res| == |m| == |entries|
        invariant entries == WithOids(m, res, i)
        invariant forall j :: 0 <= j < i ==> res[j] != NullOid
      {
        if res[i] == NullOid {
          return Some(InvalidArgument);
        }
        entries := entries[i := Entry(entries[i].name, res[i])];
        i := i + 1;
      }
      return None;
    }
  }

  /** The error code the negotiation operation hands to its continuation. */
  datatype ErrorCode = NoError | OidRequestFailed | Upstream(code: nat)

  /** What becomes of the negotiation: the code handed to the continuation, and the exception
      recorded as the connection's error context when `set_oid_map` threw (`None` when the
      context is left alone). */
  datatype Completion = Completion(code: ErrorCode, context: Option<Error>)

  /** The completion of `request_oid_map_op` once its query has run with error code ec and
      result res: an upstream error is handed on with the map untouched; otherwise the OIDs are
      assigned, and whatever `set_oid_map` throws is caught, recorded as the error context and
      turned into the oid-request-failed code, the entries it already wrote staying written. */
  function RequestOidMapSpec(m: seq<Entry>, ec: ErrorCode, res: seq<Oid>): (seq<Entry>, Completion)
  {
    if ec != NoError then (m, Completion(ec, None))
    else
      var (m', err) := SetOidMapSpec(m, res);
      (m', if err.Some? then Completion(OidRequestFailed, err) else Completion(NoError, None))
  }

  method RequestOidMapComplete(oids: OidMap, ec: ErrorCode, res: seq<Oid>) returns (c: Completion)
    requires oids.Valid()
    modifies oids
    ensures oids.Valid()
    ensures (oids.entries, c) == RequestOidMapSpec(old(oids.entries), ec, res)
  {
    if ec != NoError {
      return Completion(ec, None);
    }
    var err := oids.SetOidMap(res);
    c := if err.Some? then Completion(OidRequestFailed, err) else Completion(NoError, None);
  }

  /** The continuation receives oid-request-failed exactly when the query failed that way or its
      result did not fit the map (another size, or a null OID), and no error exactly when every
      OID was assigned; the caught exception says which misfit it was, and no outcome renames a
      type. */
  lemma RequestOidMapCodes(m: seq<Entry>, ec: ErrorCode, res: seq<Oid>)
    ensures RequestOidMapSpec(m, ec, res).1.code == OidRequestFailed <==>
      ec == OidRequestFailed || (ec == NoError && (|res| != |m| || NullOid in res))
    ensures RequestOidMapSpec(m, ec, res).1.code == NoError <==>
      ec == NoError && |res| == |m| && NullOid !in res
    ensures RequestOidMapSpec(m, ec, res).1.context == Some(LengthError) <==>
      ec == NoError && |res| != |m|
    ensures RequestOidMapSpec(m, ec, res).1.context == Some(InvalidArgument) <==>
      ec == NoError && |res| == |m| && NullOid in res
    ensures ec != NoError ==> RequestOidMapSpec(m, ec, res) == (m, Completion(ec, None))
    ensures TypesNames(RequestOidMapSpec(m, ec, res).0) == TypesNames(m)
  {
    SetOidMapOutcome(m, res);
    SetOidMapKeepsNames(m, res);
  }

  /** The negotiation of the tests: two custom types registered in order, OIDs 11 and 22. */
  lemma TwoCustomTypes()
    ensures var m := Fresh(["custom_type1", "custom_type2"]);
      && TypesNames(m) == ["custom_type1", "custom_type2"]
      && SetOidMapSpec(m, [11, 22]).1 == None
      && TypeOidOf(SetOidMapSpec(m, [11, 22]).0, "custom_type1") == 11
      && TypeOidOf(SetOidMapSpec(m, [11, 22]).0, "custom_type2") == 22
      && SetOidMapSpec(m, [11]) == (m, Some(LengthError))
      && SetOidMapSpec(m, [11, NullOid]).1 == Some(InvalidArgument)
    ensures RequestOidMapSpec([], NoError, [NullOid]) == ([], Completion(OidRequestFailed, Some(LengthError)))
  {
    var m := Fresh(["custom_type1", "custom_type2"]);
    RegisteredNames(["custom_type1", "custom_type2"]);
    assert m[0].name != m[1].name;
    TypeOidAfterSet(m, [11, 22], 0);
    TypeOidAfterSet(m, [11, 22], 1);
  }
}
