/**
 * The required-field check for one parsed conversation turn: every field of
 * the fixed required list that the record lacks gives one error, in the order
 * of the list. Field values are never inspected, so a record is its map from
 * field names to values of any type `V`.
 */
module OutputSchemas {
  import opened Wrappers

  const Required: seq<string> := ["message_hash", "conversation_id", "platform", "timestamp", "turn_type", "content"]

  const MissingMessage := "Missing required field"

  /** `value` is always `None` for a missing field. */
  datatype SchemaValidationError<V> = SchemaValidationError(field: string, message: string, value: Option<V>)

  /** The errors for the fields of `fields` that are not keys of `data`, in order. */
  function MissingErrors<V>(data: map<string, V>, fields: seq<string>): seq<SchemaValidationError<V>>
  {
    if |fields| == 0 then []
    else
      var f := fields[|fields| - 1];
      MissingErrors(data, fields[..|fields| - 1]) +
        (if f !in data then [SchemaValidationError(f, MissingMessage, None)] else [])
  }

  method ValidateConversationTurn<V>(data: map<string, V>) returns (errors: seq<SchemaValidationError<V>>)
    ensures errors == MissingErrors(data, Required)
  {
    errors := [];
    for i := 0 to |Required|
      invariant errors == MissingErrors(data, Required[..i])
    {
      var field := Required[i];
      assert Required[..i + 1][..i] == Required[..i];
      if field !in data {
        errors := errors + [SchemaValidationError(field, MissingMessage, None)];
      }
    }
    assert Required[..|Required|] == Required;
  }

  /** Position of a field in `fields`, for fields that occur in it. */
  function PositionIn(fields: seq<string>, f: string): (i: nat)
    requires f in fields
    ensures i < |fields| && fields[i] == f
  {
    if fields[|fields| - 1] == f then |fields| - 1
    else
      assert f in fields[..|fields| - 1];
      PositionIn(fields[..|fields| - 1], f)
  }

  /** Each error names a field of `fields` that `data` lacks, with the fixed message and no value. */
  predicate NamesMissing<V>(data: map<string, V>, fields: seq<string>, errors: seq<SchemaValidationError<V>>)
  {
    forall k :: 0 <= k < |errors| ==>
      && errors[k].field in fields && errors[k].field !in data
      && errors[k].message == MissingMessage && errors[k].value == None
  }

  /** The errors follow the order of `fields`. */
  predicate InFieldOrder<V>(fields: seq<string>, errors: seq<SchemaValidationError<V>>)
    requires forall k :: 0 <= k < |errors| ==> errors[k].field in fields
  {
    forall k, k' :: 0 <= k < k' < |errors| ==> PositionIn(fields, errors[k].field) < PositionIn(fields, errors[k'].field)
  }

  /** Every field of `fields` that `data` lacks is named by some error. */
  predicate NamesEveryMissing<V>(data: map<string, V>, fields: seq<string>, errors: seq<SchemaValidationError<V>>)
  {
    forall i :: 0 <= i < |fields| && fields[i] !in data ==> exists k :: 0 <= k < |errors| && errors[k].field == fields[i]
  }

  predicate Distinct(fields: seq<string>)
  {
    forall i, j :: 0 <= i < j < |fields| ==> fields[i] != fields[j]
  }

  lemma PositionInPrefix(fields: seq<string>, n: nat, f: string)
    requires Distinct(fields) && n <= |fields| && f in fields[..n]
    ensures PositionIn(fields[..n], f) == PositionIn(fields, f)
  {
    var i, j := PositionIn(fields[..n], f), PositionIn(fields, f);
    assert fields[i] == f;
  }

  lemma MissingErrorsStep<V>(data: map<string, V>, fields: seq<string>)
    requires |fields| > 0
    ensures var n := |fields| - 1;
      MissingErrors(data, fields) == MissingErrors(data, fields[..n]) +
        (if fields[n] !in data then [SchemaValidationError(fields[n], MissingMessage, None)] else [])
  {
  }

  lemma {:induction false} MissingErrorsNamed<V>(data: map<string, V>, fields: seq<string>)
    ensures NamesMissing(data, fields, MissingErrors(data, fields))
    ensures |MissingErrors(data, fields)| <= |fields|
    decreases |fields|
  {
    if |fields| > 0 {
      var n := |fields| - 1;
      var init := fields[..n];
      var es, ei := MissingErrors(data, fields), MissingErrors(data, init);
      MissingErrorsNamed(data, init);
      MissingErrorsStep(data, fields);
      forall k | 0 <= k < |ei|
        ensures es[k] == ei[k] && ei[k].field in fields
      {
        assert ei[k].field in init;
      }
    }
  }

  lemma {:induction false} MissingErrorsOrdered<V>(data: map<string, V>, fields: seq<string>)
    requires Distinct(fields)
    ensures NamesMissing(data, fields, MissingErrors(data, fields))
    ensures InFieldOrder(fields, MissingErrors(data, fields))
    decreases |fields|
  {
    MissingErrorsNamed(data, fields);
    if |fields| > 0 {
      var n := |fields| - 1;
      var init := fields[..n];
      var es, ei := MissingErrors(data, fields), MissingErrors(data, init);
      MissingErrorsOrdered(data, init);
      MissingErrorsStep(data, fields);
      forall k | 0 <= k < |ei|
        ensures es[k] == ei[k]
        ensures PositionIn(fields, ei[k].field) == PositionIn(init, ei[k].field) < n
      {
        PositionInPrefix(fields, n, ei[k].field);
      }
      if fields[n] !in data {
        assert PositionIn(fields, fields[n]) == n;
      }
    }
  }

  lemma {:induction false} MissingErrorsComplete<V>(data: map<string, V>, fields: seq<string>)
    ensures NamesEveryMissing(data, fields, MissingErrors(data, fields))
    decreases |fields|
  {
    if |fields| > 0 {
      var n := |fields| - 1;
      var init := fields[..n];
      var es, ei := MissingErrors(data, fields), MissingErrors(data, init);
      MissingErrorsComplete(data, init);
      MissingErrorsStep(data, fields);
      forall i | 0 <= i < |fields| && fields[i] !in data
        ensures exists k :: 0 <= k < |es| && es[k].field == fields[i]
      {
        if i == n {
          assert es[|ei|].field == fields[i];
        } else {
          assert init[i] == fields[i];
          var k :| 0 <= k < |ei| && ei[k].field == init[i];
          assert es[k].field == fields[i];
        }
      }
    }
  }

  lemma ErrorsMeaning<V>(data: map<string, V>, fields: seq<string>)
    requires Distinct(fields)
    ensures var errors := MissingErrors(data, fields);
      && (|errors| == 0 <==> forall i :: 0 <= i < |fields| ==> fields[i] in data)
      && |errors| <= |fields|
      && NamesMissing(data, fields, errors)
      && InFieldOrder(fields, errors)
      && NamesEveryMissing(data, fields, errors)
  {
    var errors := MissingErrors(data, fields);
    MissingErrorsOrdered(data, fields);
    MissingErrorsNamed(data, fields);
    MissingErrorsComplete(data, fields);
    if |errors| > 0 {
      var i := PositionIn(fields, errors[0].field);
      assert fields[i] !in data;
    }
  }

  lemma RequiredDistinct()
    ensures Distinct(Required) && |Required| == 6
  {
    var r := Required;
    assert r[0][0] == 'm' && r[1][0] == 'c' && r[2][0] == 'p' && r[3][0] == 't' && r[4][0] == 't' && r[5][0] == 'c';
    assert r[3][1] == 'i' && r[4][1] == 'u' && r[1][1] == 'o' && r[5][1] == 'o' && r[1][2] == 'n' && r[5][2] == 'n';
    assert r[1][3] == 'v' && r[5][3] == 't';
  }

  /**
   * A turn is valid (no errors) exactly when it has all six required fields;
   * otherwise there is one error per missing required field, naming it, in
   * the order of the required list, so never more than six.
   */
  lemma ValidationMeaning<V>(data: map<string, V>)
    ensures var errors := MissingErrors(data, Required);
      && (|errors| == 0 <==> forall i :: 0 <= i < |Required| ==> Required[i] in data)
      && |errors| <= 6
      && NamesMissing(data, Required, errors)
      && InFieldOrder(Required, errors)
      && NamesEveryMissing(data, Required, errors)
  {
    RequiredDistinct();
    ErrorsMeaning(data, Required);
  }

  /** Fields outside the required list never change the result. */
  lemma {:induction false} ExtraFieldsIgnored<V>(data: map<string, V>, extra: string, v: V, fields: seq<string>)
    requires extra !in fields
    ensures MissingErrors(data[extra := v], fields) == MissingErrors(data, fields)
    decreases |fields|
  {
    if |fields| > 0 {
      var n := |fields| - 1;
      assert fields[n] != extra;
      assert extra !in fields[..n];
      ExtraFieldsIgnored(data, extra, v, fields[..n]);
    }
  }
}
