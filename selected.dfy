/** normalizeSelectedPubRows: the selected-publications rows with every key and every value
    trimmed (a spreadsheet header such as "\tAuthors" becomes "Authors"). A row is given as its
    Object.entries, in order; a value is None for null or undefined. */
module SelectedPublications {
  import opened Wrappers
  import opened JsString
  import opened Rows

  type Entry = (string, Option<string>)

  /** `value != null ? String(value).trim() : ''` */
  function CleanValue(v: Option<string>): string {
    if v.Some? then Trim(v.value) else ""
  }

  /** The assignments `out[(key || '').trim()] = …` the loop makes, in order. */
  function CleanPairs(entries: seq<Entry>): (pairs: seq<(string, string)>)
    ensures |pairs| == |entries|
  {
    seq(|entries|, i requires 0 <= i < |entries| => (Trim(entries[i].0), CleanValue(entries[i].1)))
  }

  /** The loop over Object.entries(row), assigning each trimmed key its trimmed value. */
  method NormalizeRow(entries: seq<Entry>) returns (out: Row)
    ensures out == Assign(CleanPairs(entries))
  {
    out := map[];
    for i := 0 to |entries|
      invariant out == Assign(CleanPairs(entries)[..i])
    {
      var (key, value) := entries[i];
      var k := Trim(key);
      out := out[k := CleanValue(value)];
      assert CleanPairs(entries)[..i + 1][..i] == CleanPairs(entries)[..i];
    }
    assert CleanPairs(entries)[..|entries|] == CleanPairs(entries);
  }

  /** `rows.map(row => …)` */
  method NormalizeSelectedPubRows(rows: seq<seq<Entry>>) returns (out: seq<Row>)
    ensures |out| == |rows|
    ensures forall i :: 0 <= i < |rows| ==> out[i] == Assign(CleanPairs(rows[i]))
  {
    out := [];
    for i := 0 to |rows|
      invariant |out| == i
      invariant forall j :: 0 <= j < i ==> out[j] == Assign(CleanPairs(rows[j]))
    {
      var row := NormalizeRow(rows[i]);
      out := out + [row];
    }
  }

  /** The keys of a normalised row are the trimmed keys of the entries. */
  lemma NormalizedKeys(entries: seq<Entry>)
    ensures forall k :: k in Assign(CleanPairs(entries)) <==> exists i :: 0 <= i < |entries| && Trim(entries[i].0) == k
  {
    var pairs := CleanPairs(entries);
    AssignKeys(pairs);
    forall i | 0 <= i < |entries|
      ensures Trim(entries[i].0) in Assign(pairs)
    {
      assert pairs[i].0 == Trim(entries[i].0);
    }
  }

  /** Every key and every value of a normalised row is its own trim. */
  lemma NormalizedTrimmed(entries: seq<Entry>)
    ensures var out := Assign(CleanPairs(entries));
      forall k :: k in out ==> Trim(k) == k && Trim(out[k]) == out[k]
  {
    var pairs := CleanPairs(entries);
    var out := Assign(pairs);
    forall k | k in out
      ensures Trim(k) == k && Trim(out[k]) == out[k]
    {
      AssignValueFrom(pairs, k);
      var i :| 0 <= i < |pairs| && pairs[i] == (k, out[k]);
      TrimIdempotent(entries[i].0);
      if entries[i].1.Some? {
        TrimIdempotent(entries[i].1.value);
      } else {
        assert Trim([]) == [];
      }
    }
  }

  /** When two keys trim to the same key, the later entry wins. */
  lemma NormalizedLastWins(entries: seq<Entry>, i: nat)
    requires i < |entries|
    requires forall j :: i < j < |entries| ==> Trim(entries[j].0) != Trim(entries[i].0)
    ensures var out := Assign(CleanPairs(entries));
      Trim(entries[i].0) in out && out[Trim(entries[i].0)] == CleanValue(entries[i].1)
  {
    AssignLastWins(CleanPairs(entries), i);
  }

  /** Entries that are already clean are assigned unchanged. */
  lemma CleanPairsOfClean(again: seq<Entry>, out: Row)
    requires forall k :: k in out ==> Trim(k) == k && Trim(out[k]) == out[k]
    requires forall i :: 0 <= i < |again| ==> again[i].0 in out && again[i].1 == Some(out[again[i].0])
    ensures forall i :: 0 <= i < |again| ==> CleanPairs(again)[i] == (again[i].0, out[again[i].0])
  {
  }

  /** A clean row, listed entry by entry with each key once, is rebuilt exactly. */
  lemma RebuildCleanRow(out: Row, again: seq<Entry>)
    requires forall k :: k in out ==> Trim(k) == k && Trim(out[k]) == out[k]
    requires forall k :: k in out ==> exists i :: 0 <= i < |again| && again[i].0 == k
    requires forall i, j :: 0 <= i < j < |again| ==> again[i].0 != again[j].0
    requires forall i :: 0 <= i < |again| ==> again[i].0 in out && again[i].1 == Some(out[again[i].0])
    ensures Assign(CleanPairs(again)) == out
  {
    var pairs := CleanPairs(again);
    CleanPairsOfClean(again, out);
    forall k | k in out
      ensures exists i :: 0 <= i < |pairs| && pairs[i].0 == k
    {
      var i :| 0 <= i < |again| && again[i].0 == k;
      assert pairs[i].0 == k;
    }
    forall i, j | 0 <= i < j < |pairs|
      ensures pairs[i].0 != pairs[j].0
    {
      assert pairs[i].0 == again[i].0 && pairs[j].0 == again[j].0;
    }
    forall i | 0 <= i < |pairs|
      ensures pairs[i].0 in out && pairs[i].1 == out[pairs[i].0]
    {
      assert pairs[i] == (again[i].0, out[again[i].0]);
    }
    AssignEnumeration(pairs, out);
  }

  /** Normalising is idempotent: the entries of a normalised row, listed in any order, normalise
      to that same row. */
  lemma NormalizeIdempotent(entries: seq<Entry>, out: Row, again: seq<Entry>)
    requires out == Assign(CleanPairs(entries))
    requires forall k :: k in out ==> exists i :: 0 <= i < |again| && again[i].0 == k
    requires forall i, j :: 0 <= i < j < |again| ==> again[i].0 != again[j].0
    requires forall i :: 0 <= i < |again| ==> again[i].0 in out && again[i].1 == Some(out[again[i].0])
    ensures Assign(CleanPairs(again)) == out
  {
    NormalizedTrimmed(entries);
    RebuildCleanRow(out, again);
  }
}
