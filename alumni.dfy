/** renderAlumni: the alumni grouped by their `Section` field ('Other' when it is missing or
    empty), one table per section, the sections in the order they first appear. */
module Alumni {
  import opened Rows
  import opened Grouping

  /** The sections: every person is in exactly one of them, under their own section; no section
      is empty or listed twice; and each section appears before any section first met later. */
  lemma AlumniSections(alumni: seq<Row>)
    ensures var names := Distinct(RowKeys(alumni, "Section", "Other"));
      var sections := SectionsOf(alumni, "Section", "Other", names);
      && multiset(Concat(sections)) == multiset(alumni)
      && (forall i :: 0 <= i < |sections| ==> sections[i].1 != [])
      && NoDuplicates(names)
      && (forall i, j :: 0 <= i < j < |sections| ==>
            FirstIndex(RowKeys(alumni, "Section", "Other"), sections[i].0) <
            FirstIndex(RowKeys(alumni, "Section", "Other"), sections[j].0))
  {
    var keys := RowKeys(alumni, "Section", "Other");
    var names := Distinct(keys);
    forall i | 0 <= i < |alumni|
      ensures GroupKey(alumni[i], "Section", "Other") in names
    {
      assert keys[i] in keys;
    }
    SectionsPartition(alumni, "Section", "Other", names);
    SectionsNonEmpty(alumni, "Section", "Other", names);
    DistinctFirstAppearance(keys);
  }

  /** renderAlumni: group by `Section || 'Other'` and list the groups in first-appearance order. */
  method GroupAlumni(alumni: seq<Row>) returns (sections: seq<(string, seq<Row>)>)
    ensures sections == SectionsOf(alumni, "Section", "Other", Distinct(RowKeys(alumni, "Section", "Other")))
    ensures multiset(Concat(sections)) == multiset(alumni)
    ensures forall i :: 0 <= i < |sections| ==> sections[i].1 != []
    ensures forall i, j :: 0 <= i < j < |sections| ==> sections[i].0 != sections[j].0
    ensures forall i, j :: 0 <= i < j < |sections| ==>
      FirstIndex(RowKeys(alumni, "Section", "Other"), sections[i].0) <
      FirstIndex(RowKeys(alumni, "Section", "Other"), sections[j].0)
  {
    var keys, bySection := GroupBy(alumni, "Section", "Other");
    sections := ListSections(alumni, "Section", "Other", keys, bySection);
    AlumniSections(alumni);
  }
}
