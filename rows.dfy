/** Row records: the plain objects the script builds with `out[key] = value`, one assignment
    after another, and reads back with `row[key] || ''`. */
module Rows {

  /** A row record: column name to field value. */
  type Row = map<string, string>

  /** `row[key] || ''`: the value under `key`, or '' when the record has no such key. */
  function Field(row: Row, key: string): (v: string)
    ensures key !in row ==> v == ""
  {
    if key in row then row[key] else ""
  }

  /** The record `{}` after `out[k] = v` for every pair (k, v) in order. */
  function Assign(pairs: seq<(string, string)>): Row {
    if |pairs| == 0 then map[]
    else
      var last := pairs[|pairs| - 1];
      Assign(pairs[..|pairs| - 1])[last.0 := last.1]
  }

  /** The record's keys are exactly the keys assigned. */
  lemma {:induction false} AssignKeys(pairs: seq<(string, string)>)
    ensures forall k :: k in Assign(pairs) <==> exists i :: 0 <= i < |pairs| && pairs[i].0 == k
  {
    if |pairs| > 0 {
      var front := pairs[..|pairs| - 1];
      AssignKeys(front);
      forall k
        ensures k in Assign(pairs) <==> exists i :: 0 <= i < |pairs| && pairs[i].0 == k
      {
        if exists i :: 0 <= i < |pairs| && pairs[i].0 == k {
          var i :| 0 <= i < |pairs| && pairs[i].0 == k;
          if i < |front| {
            assert front[i].0 == k;
          }
        }
        if k in Assign(front) {
          var i :| 0 <= i < |front| && front[i].0 == k;
          assert pairs[i].0 == k;
        }
      }
    }
  }

  /** A key holds the value of its last assignment: a later duplicate key overwrites an earlier one. */
  lemma {:induction false} AssignLastWins(pairs: seq<(string, string)>, i: nat)
    requires i < |pairs|
    requires forall j :: i < j < |pairs| ==> pairs[j].0 != pairs[i].0
    ensures pairs[i].0 in Assign(pairs) && Assign(pairs)[pairs[i].0] == pairs[i].1
  {
    if i < |pairs| - 1 {
      var front := pairs[..|pairs| - 1];
      AssignLastWins(front, i);
    }
  }

  /** Every value of the record is the value of some assignment to its key. */
  lemma {:induction false} AssignValueFrom(pairs: seq<(string, string)>, k: string)
    requires k in Assign(pairs)
    ensures exists i :: 0 <= i < |pairs| && pairs[i] == (k, Assign(pairs)[k])
  {
    var front := pairs[..|pairs| - 1];
    var last := pairs[|pairs| - 1];
    if last.0 != k {
      AssignValueFrom(front, k);
      var i :| 0 <= i < |front| && front[i] == (k, Assign(front)[k]);
      assert pairs[i] == front[i];
    }
  }

  /** Assigning every entry of a record once, in any order, rebuilds the record. */
  lemma AssignEnumeration(pairs: seq<(string, string)>, row: Row)
    requires forall k :: k in row ==> exists i :: 0 <= i < |pairs| && pairs[i].0 == k
    requires forall i, j :: 0 <= i < j < |pairs| ==> pairs[i].0 != pairs[j].0
    requires forall i :: 0 <= i < |pairs| ==> pairs[i].0 in row && pairs[i].1 == row[pairs[i].0]
    ensures Assign(pairs) == row
  {
    AssignEnumerationKeys(pairs, row);
    forall k | k in row
      ensures Assign(pairs)[k] == row[k]
    {
      AssignEnumerationValue(pairs, row, k);
    }
  }

  lemma AssignEnumerationValue(pairs: seq<(string, string)>, row: Row, k: string)
    requires k in row && exists i :: 0 <= i < |pairs| && pairs[i].0 == k
    requires forall i, j :: 0 <= i < j < |pairs| ==> pairs[i].0 != pairs[j].0
    requires forall i :: 0 <= i < |pairs| ==> pairs[i].0 in row && pairs[i].1 == row[pairs[i].0]
    ensures k in Assign(pairs) && Assign(pairs)[k] == row[k]
  {
    var i :| 0 <= i < |pairs| && pairs[i].0 == k;
    AssignLastWins(pairs, i);
  }

  lemma AssignEnumerationKeys(pairs: seq<(string, string)>, row: Row)
    requires forall k :: k in row ==> exists i :: 0 <= i < |pairs| && pairs[i].0 == k
    requires forall i :: 0 <= i < |pairs| ==> pairs[i].0 in row
    ensures Assign(pairs).Keys == row.Keys
  {
    AssignKeys(pairs);
  }
}
