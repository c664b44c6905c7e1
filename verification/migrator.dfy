/**
 The value renderers and the map builder of the one-off database migration
 tool, a copy of the application's own.
 */
module Migrator {

  import opened Seqs
  import opened Common
  import DbCommon

  /** `opt_to_sql_value`: null for a missing value, otherwise the value rendered as `to_sql_value` does. */
  function OptToSqlValue(v: Option<DbCommon.SqlArg>): (r: string)
    ensures v.None? ==> r == "null"
    ensures v.Some? && v.value.StringArg? ==> DbCommon.ParseSqlString(r) == Some(v.value.text)
    ensures v.Some? && v.value.PlainArg? ==> r == v.value.display
  {
    match v
    case None => "null"
    case Some(a) =>
      match a
      case StringArg(t) =>
        DbCommon.ToSqlValueRoundTrip(t);
        "'" + DbCommon.EscapeQuotes(t) + "'"
      case PlainArg(d) => d
  }

  function ToSqlValue(v: DbCommon.SqlArg): (r: string)
    ensures v.StringArg? ==> DbCommon.ParseSqlString(r) == Some(v.text)
    ensures v.PlainArg? ==> r == v.display
  {
    OptToSqlValue(Some(v))
  }

  /** The copy renders every value exactly as the application does. */
  lemma ToSqlValueAgrees(v: DbCommon.SqlArg)
    ensures ToSqlValue(v) == DbCommon.ToSqlValue(v)
  {
    if v.StringArg? {
      DbCommon.ParseSqlStringOnlyRendering(ToSqlValue(v), v.text);
    }
  }

  /** `vec_to_map` as the loop inserting each element in turn. */
  method VecToMapLoop<T, K, V>(xs: seq<T>, keyFn: T -> K, valueFn: T -> V) returns (m: map<K, V>)
    ensures m == VecToMap(xs, keyFn, valueFn)
    ensures forall i :: 0 <= i < |xs| ==> keyFn(xs[i]) in m
    ensures forall i :: 0 <= i < |xs| && (forall j :: i < j < |xs| ==> keyFn(xs[j]) != keyFn(xs[i])) ==>
      m[keyFn(xs[i])] == valueFn(xs[i])
  {
    m := map[];
    var i := 0;
    while i < |xs|
      invariant 0 <= i <= |xs|
      invariant m == VecToMap(xs[..i], keyFn, valueFn)
    {
      assert xs[..i + 1][..i] == xs[..i];
      m := m[keyFn(xs[i]) := valueFn(xs[i])];
      i := i + 1;
    }
    assert xs[..|xs|] == xs;
    forall i | 0 <= i < |xs| && (forall j :: i < j < |xs| ==> keyFn(xs[j]) != keyFn(xs[i]))
      ensures m[keyFn(xs[i])] == valueFn(xs[i])
    {
      VecToMapLastWins(xs, keyFn, valueFn, i);
    }
  }
}
