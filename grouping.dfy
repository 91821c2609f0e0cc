/** Grouping records by one of their fields, as renderPublications and renderAlumni do: an object
    `byKey` is filled by `(byKey[key] ||= []).push(record)` in input order, and its keys are then
    read back in the order they were first added. The object is modelled as the pair of its key
    order and its key-to-group map. */
module Grouping {
  import opened Rows
  import Seqs

  /** `row[field] || dflt`: the group a record falls in. */
  function GroupKey(row: Row, field: string, dflt: string): string {
    if Field(row, field) != "" then Field(row, field) else dflt
  }

  /** The group key of every record, in input order. */
  function RowKeys(rows: seq<Row>, field: string, dflt: string): (ks: seq<string>)
    ensures |ks| == |rows|
  {
    seq(|rows|, i requires 0 <= i < |rows| => GroupKey(rows[i], field, dflt))
  }

  predicate NoDuplicates(s: seq<string>) {
    forall i, j :: 0 <= i < j < |s| ==> s[i] != s[j]
  }

  /** The distinct elements of `s`, each where it first appears. */
  function Distinct(s: seq<string>): (d: seq<string>)
    ensures NoDuplicates(d)
    ensures forall x :: x in d <==> x in s
  {
    if |s| == 0 then []
    else
      var front := Distinct(s[..|s| - 1]);
      assert s == s[..|s| - 1] + [s[|s| - 1]];
      if s[|s| - 1] in front then front else front + [s[|s| - 1]]
  }

  /** The position where `x` first appears in `s`. */
  function FirstIndex(s: seq<string>, x: string): (i: nat)
    requires x in s
    ensures i < |s| && s[i] == x
    ensures forall j :: 0 <= j < i ==> s[j] != x
  {
    if s[0] == x then 0 else 1 + FirstIndex(s[1..], x)
  }

  lemma {:induction false} FirstIndexOfPrefix(p: seq<string>, y: string, x: string)
    requires x in p
    ensures FirstIndex(p + [y], x) == FirstIndex(p, x)
  {
    if p[0] != x {
      assert (p + [y])[1..] == p[1..] + [y];
      FirstIndexOfPrefix(p[1..], y, x);
    }
  }

  /** Distinct keeps the order of first appearance: an earlier element of Distinct(s) first
      appears in `s` before a later one. */
  lemma {:induction false} DistinctFirstAppearance(s: seq<string>)
    ensures forall i, j :: 0 <= i < j < |Distinct(s)| ==>
      FirstIndex(s, Distinct(s)[i]) < FirstIndex(s, Distinct(s)[j])
  {
    if |s| > 0 {
      var p, y := s[..|s| - 1], s[|s| - 1];
      assert s == p + [y];
      DistinctFirstAppearance(p);
      var d := Distinct(p);
      forall x | x in d
        ensures FirstIndex(s, x) == FirstIndex(p, x)
      {
        FirstIndexOfPrefix(p, y, x);
      }
      if y !in d {
        assert FirstIndex(s, y) == |p|;
      }
    }
  }

  /** The records whose key is `key`, in input order. */
  function Members(rows: seq<Row>, field: string, dflt: string, key: string): seq<Row> {
    if |rows| == 0 then []
    else
      var front := Members(rows[..|rows| - 1], field, dflt, key);
      var r := rows[|rows| - 1];
      if GroupKey(r, field, dflt) == key then front + [r] else front
  }

  /** A group holds exactly the records with its key. */
  lemma {:induction false} MembersSpec(rows: seq<Row>, field: string, dflt: string, key: string)
    ensures forall r :: r in Members(rows, field, dflt, key) <==> r in rows && GroupKey(r, field, dflt) == key
  {
    if |rows| > 0 {
      var front, last := rows[..|rows| - 1], rows[|rows| - 1];
      MembersSpec(front, field, dflt, key);
      assert rows == front + [last];
    }
  }

  /** A group keeps the input order of its records. */
  lemma {:induction false} MembersInOrder(rows: seq<Row>, field: string, dflt: string, key: string)
    ensures Seqs.IsSubsequence(Members(rows, field, dflt, key), rows)
  {
    if |rows| > 0 {
      var front := rows[..|rows| - 1];
      MembersInOrder(front, field, dflt, key);
      var m := Members(rows, field, dflt, key);
      if GroupKey(rows[|rows| - 1], field, dflt) == key {
        assert m[..|m| - 1] == Members(front, field, dflt, key);
      } else if |m| > 0 {
        MembersSpec(rows, field, dflt, key);
        assert m[|m| - 1] in m;
        assert m[|m| - 1] != rows[|rows| - 1];
      }
    }
  }

  lemma MembersSnoc(rows: seq<Row>, r: Row, field: string, dflt: string, key: string)
    ensures Members(rows + [r], field, dflt, key) ==
      Members(rows, field, dflt, key) + (if GroupKey(r, field, dflt) == key then [r] else [])
  {
    assert (rows + [r])[..|rows|] == rows;
  }

  /** A key no record has gets an empty group. */
  lemma {:induction false} MembersOfAbsentKey(rows: seq<Row>, field: string, dflt: string, key: string)
    requires forall i :: 0 <= i < |rows| ==> GroupKey(rows[i], field, dflt) != key
    ensures Members(rows, field, dflt, key) == []
  {
    if |rows| > 0 {
      MembersOfAbsentKey(rows[..|rows| - 1], field, dflt, key);
    }
  }

  lemma RowKeysSnoc(rows: seq<Row>, r: Row, field: string, dflt: string)
    ensures RowKeys(rows + [r], field, dflt) == RowKeys(rows, field, dflt) + [GroupKey(r, field, dflt)]
  {
  }

  /** The sections shown for a list of keys: each key with its group. */
  function SectionsOf(rows: seq<Row>, field: string, dflt: string, ks: seq<string>): (ss: seq<(string, seq<Row>)>)
    ensures |ss| == |ks|
  {
    seq(|ks|, i requires 0 <= i < |ks| => (ks[i], Members(rows, field, dflt, ks[i])))
  }

  lemma SectionsOfAppend(rows: seq<Row>, field: string, dflt: string, a: seq<string>, b: seq<string>)
    ensures SectionsOf(rows, field, dflt, a + b) == SectionsOf(rows, field, dflt, a) + SectionsOf(rows, field, dflt, b)
  {
  }

  /** Every listed key that some record has gets a non-empty group. */
  lemma SectionsNonEmpty(rows: seq<Row>, field: string, dflt: string, ks: seq<string>)
    requires forall i :: 0 <= i < |ks| ==> ks[i] in RowKeys(rows, field, dflt)
    ensures forall i :: 0 <= i < |ks| ==> SectionsOf(rows, field, dflt, ks)[i].1 != []
  {
    forall i | 0 <= i < |ks|
      ensures Members(rows, field, dflt, ks[i]) != []
    {
      var j :| 0 <= j < |rows| && RowKeys(rows, field, dflt)[j] == ks[i];
      MembersSpec(rows, field, dflt, ks[i]);
      assert rows[j] in Members(rows, field, dflt, ks[i]);
    }
  }

  /** All records of a list of sections, section after section. */
  function Concat(ss: seq<(string, seq<Row>)>): seq<Row> {
    if |ss| == 0 then [] else ss[0].1 + Concat(ss[1..])
  }

  lemma {:induction false} ConcatAppend(a: seq<(string, seq<Row>)>, b: seq<(string, seq<Row>)>)
    ensures Concat(a + b) == Concat(a) + Concat(b)
  {
    if |a| == 0 {
      assert a + b == b;
    } else {
      assert (a + b)[1..] == a[1..] + b;
      ConcatAppend(a[1..], b);
    }
  }

  /** The records of the groups of `ks`, group after group. */
  function Grouped(rows: seq<Row>, field: string, dflt: string, ks: seq<string>): seq<Row> {
    if |ks| == 0 then [] else Members(rows, field, dflt, ks[0]) + Grouped(rows, field, dflt, ks[1..])
  }

  lemma GroupedCons(rows: seq<Row>, field: string, dflt: string, y: string, ys: seq<string>)
    ensures Grouped(rows, field, dflt, [y] + ys) == Members(rows, field, dflt, y) + Grouped(rows, field, dflt, ys)
  {
    assert ([y] + ys)[1..] == ys;
  }

  lemma {:induction false} GroupedAppend(rows: seq<Row>, field: string, dflt: string, a: seq<string>, b: seq<string>)
    ensures Grouped(rows, field, dflt, a + b) == Grouped(rows, field, dflt, a) + Grouped(rows, field, dflt, b)
  {
    if |a| == 0 {
      assert a + b == b;
    } else {
      assert (a + b)[1..] == a[1..] + b;
      GroupedAppend(rows, field, dflt, a[1..], b);
    }
  }

  lemma {:induction false} ConcatSections(rows: seq<Row>, field: string, dflt: string, ks: seq<string>)
    ensures Concat(SectionsOf(rows, field, dflt, ks)) == Grouped(rows, field, dflt, ks)
  {
    if |ks| > 0 {
      assert SectionsOf(rows, field, dflt, ks)[1..] == SectionsOf(rows, field, dflt, ks[1..]);
      ConcatSections(rows, field, dflt, ks[1..]);
    }
  }

  /** Without its first key, a list of distinct keys is still distinct and lacks that key. */
  lemma NoDuplicatesTail(ks: seq<string>)
    requires |ks| > 0 && NoDuplicates(ks)
    ensures NoDuplicates(ks[1..]) && ks[0] !in ks[1..]
  {
    var tail := ks[1..];
    assert forall i :: 0 <= i < |tail| ==> tail[i] == ks[i + 1];
  }

  /** Adding a record to the input adds it once to the groups, when its key is listed once. */
  lemma {:induction false} GroupedSnoc(rows: seq<Row>, r: Row, field: string, dflt: string, ks: seq<string>)
    requires NoDuplicates(ks)
    ensures multiset(Grouped(rows + [r], field, dflt, ks)) ==
      multiset(Grouped(rows, field, dflt, ks)) + (if GroupKey(r, field, dflt) in ks then multiset{r} else multiset{})
  {
    if |ks| > 0 {
      var k, tail := GroupKey(r, field, dflt), ks[1..];
      NoDuplicatesTail(ks);
      GroupedSnoc(rows, r, field, dflt, tail);
      Seqs.SplitFirst(ks);
      assert k in ks <==> k == ks[0] || k in tail;
      if k == ks[0] {
        assert k !in tail;
        GroupedSnocHit(rows, r, field, dflt, ks);
      } else {
        GroupedSnocMiss(rows, r, field, dflt, ks, if k in tail then multiset{r} else multiset{});
      }
    }
  }

  lemma GroupedSnocHit(rows: seq<Row>, r: Row, field: string, dflt: string, ks: seq<string>)
    requires |ks| > 0 && GroupKey(r, field, dflt) == ks[0]
    requires multiset(Grouped(rows + [r], field, dflt, ks[1..])) == multiset(Grouped(rows, field, dflt, ks[1..]))
    ensures multiset(Grouped(rows + [r], field, dflt, ks)) == multiset(Grouped(rows, field, dflt, ks)) + multiset{r}
  {
    MembersSnoc(rows, r, field, dflt, ks[0]);
  }

  lemma GroupedSnocMiss(rows: seq<Row>, r: Row, field: string, dflt: string, ks: seq<string>, extra: multiset<Row>)
    requires |ks| > 0 && GroupKey(r, field, dflt) != ks[0]
    requires multiset(Grouped(rows + [r], field, dflt, ks[1..])) == multiset(Grouped(rows, field, dflt, ks[1..])) + extra
    ensures multiset(Grouped(rows + [r], field, dflt, ks)) == multiset(Grouped(rows, field, dflt, ks)) + extra
  {
    MembersSnoc(rows, r, field, dflt, ks[0]);
  }

  lemma {:induction false} GroupedOfNoRows(field: string, dflt: string, ks: seq<string>)
    ensures Grouped([], field, dflt, ks) == []
  {
    if |ks| > 0 {
      GroupedOfNoRows(field, dflt, ks[1..]);
    }
  }

  /** Every record's key is listed in `ks`. */
  predicate KeysListed(rows: seq<Row>, field: string, dflt: string, ks: seq<string>) {
    forall i :: 0 <= i < |rows| ==> GroupKey(rows[i], field, dflt) in ks
  }

  lemma KeysListedFront(rows: seq<Row>, field: string, dflt: string, ks: seq<string>)
    requires |rows| > 0 && KeysListed(rows, field, dflt, ks)
    ensures KeysListed(rows[..|rows| - 1], field, dflt, ks) && GroupKey(rows[|rows| - 1], field, dflt) in ks
  {
    var front := rows[..|rows| - 1];
    assert forall i :: 0 <= i < |front| ==> front[i] == rows[i];
  }

  lemma GroupedPartitionStep(rows: seq<Row>, field: string, dflt: string, ks: seq<string>)
    requires |rows| > 0 && NoDuplicates(ks) && GroupKey(rows[|rows| - 1], field, dflt) in ks
    requires multiset(Grouped(rows[..|rows| - 1], field, dflt, ks)) == multiset(rows[..|rows| - 1])
    ensures multiset(Grouped(rows, field, dflt, ks)) == multiset(rows)
  {
    Seqs.SplitLast(rows);
    GroupedSnoc(rows[..|rows| - 1], rows[|rows| - 1], field, dflt, ks);
  }

  /** The groups of a list of distinct keys that covers every record's key hold every record
      exactly once. */
  lemma {:induction false} GroupedPartition(rows: seq<Row>, field: string, dflt: string, ks: seq<string>)
    requires NoDuplicates(ks)
    requires KeysListed(rows, field, dflt, ks)
    ensures multiset(Grouped(rows, field, dflt, ks)) == multiset(rows)
  {
    if |rows| == 0 {
      GroupedOfNoRows(field, dflt, ks);
    } else {
      KeysListedFront(rows, field, dflt, ks);
      GroupedPartition(rows[..|rows| - 1], field, dflt, ks);
      GroupedPartitionStep(rows, field, dflt, ks);
    }
  }

  /** Grouping is a partition: for a list of distinct keys that covers every record's key, the
      sections hold every record exactly once. */
  lemma SectionsPartition(rows: seq<Row>, field: string, dflt: string, ks: seq<string>)
    requires NoDuplicates(ks)
    requires forall i :: 0 <= i < |rows| ==> GroupKey(rows[i], field, dflt) in ks
    ensures multiset(Concat(SectionsOf(rows, field, dflt, ks))) == multiset(rows)
  {
    ConcatSections(rows, field, dflt, ks);
    GroupedPartition(rows, field, dflt, ks);
  }

  /** One step of the grouping loop on the key order. */
  lemma KeysStep(rows: seq<Row>, i: nat, field: string, dflt: string)
    requires i < |rows|
    ensures var before := Distinct(RowKeys(rows[..i], field, dflt));
      var key := GroupKey(rows[i], field, dflt);
      Distinct(RowKeys(rows[..i + 1], field, dflt)) == if key in before then before else before + [key]
  {
    PrefixSnoc(rows, i);
    RowKeysSnoc(rows[..i], rows[i], field, dflt);
    var ks := RowKeys(rows[..i], field, dflt);
    assert (ks + [GroupKey(rows[i], field, dflt)])[..|ks|] == ks;
  }

  lemma PrefixSnoc(rows: seq<Row>, i: nat)
    requires i < |rows|
    ensures rows[..i] + [rows[i]] == rows[..i + 1]
  {
  }

  /** `groups` holds, for every key of the records, the records with that key. */
  ghost predicate GroupsOf(rows: seq<Row>, field: string, dflt: string, groups: map<string, seq<Row>>) {
    && (forall k :: k in groups <==> k in RowKeys(rows, field, dflt))
    && (forall k :: k in groups ==> groups[k] == Members(rows, field, dflt, k))
  }

  /** The groups of a record after `prefix`: its own key's group grows by it, the others keep. */
  function Push(groups: map<string, seq<Row>>, key: string, r: Row): (after: map<string, seq<Row>>)
    ensures after.Keys == groups.Keys + {key}
    ensures after[key] == (if key in groups then groups[key] else []) + [r]
    ensures forall k :: k in groups && k != key ==> after[k] == groups[k]
  {
    var created := if key in groups then groups else groups[key := []];
    created[key := created[key] + [r]]
  }

  lemma GroupsStepKeys(prefix: seq<Row>, r: Row, field: string, dflt: string, groups: map<string, seq<Row>>)
    requires forall k :: k in groups <==> k in RowKeys(prefix, field, dflt)
    ensures forall k :: k in Push(groups, GroupKey(r, field, dflt), r) <==> k in RowKeys(prefix + [r], field, dflt)
  {
    RowKeysSnoc(prefix, r, field, dflt);
  }

  lemma GroupsStepNewKey(prefix: seq<Row>, r: Row, field: string, dflt: string)
    requires GroupKey(r, field, dflt) !in RowKeys(prefix, field, dflt)
    ensures Members(prefix + [r], field, dflt, GroupKey(r, field, dflt)) == [r]
  {
    var key := GroupKey(r, field, dflt);
    forall j | 0 <= j < |prefix|
      ensures GroupKey(prefix[j], field, dflt) != key
    {
      assert RowKeys(prefix, field, dflt)[j] == GroupKey(prefix[j], field, dflt);
    }
    MembersOfAbsentKey(prefix, field, dflt, key);
    MembersSnoc(prefix, r, field, dflt, key);
  }

  lemma GroupsStepValues(prefix: seq<Row>, r: Row, field: string, dflt: string, groups: map<string, seq<Row>>)
    requires GroupsOf(prefix, field, dflt, groups)
    ensures var after := Push(groups, GroupKey(r, field, dflt), r);
      forall k :: k in after ==> after[k] == Members(prefix + [r], field, dflt, k)
  {
    var key := GroupKey(r, field, dflt);
    var after := Push(groups, key, r);
    if key !in groups {
      GroupsStepNewKey(prefix, r, field, dflt);
    }
    forall k | k in after
      ensures after[k] == Members(prefix + [r], field, dflt, k)
    {
      MembersSnoc(prefix, r, field, dflt, k);
    }
  }

  /** One step of the grouping loop on the groups: pushing a record onto its key's group (created
      empty when missing) gives the groups of the records up to it. */
  lemma GroupsStep(rows: seq<Row>, i: nat, field: string, dflt: string, groups: map<string, seq<Row>>)
    requires i < |rows|
    requires GroupsOf(rows[..i], field, dflt, groups)
    ensures GroupsOf(rows[..i + 1], field, dflt, Push(groups, GroupKey(rows[i], field, dflt), rows[i]))
  {
    PrefixSnoc(rows, i);
    GroupsStepKeys(rows[..i], rows[i], field, dflt, groups);
    GroupsStepValues(rows[..i], rows[i], field, dflt, groups);
  }

  lemma GroupsOfAll(rows: seq<Row>, field: string, dflt: string, keys: seq<string>, groups: map<string, seq<Row>>)
    requires keys == Distinct(RowKeys(rows[..|rows|], field, dflt))
    requires GroupsOf(rows[..|rows|], field, dflt, groups)
    ensures keys == Distinct(RowKeys(rows, field, dflt))
    ensures forall k :: k in groups <==> k in keys
    ensures forall k :: k in groups ==> groups[k] == Members(rows, field, dflt, k)
  {
    assert rows[..|rows|] == rows;
  }

  /** The grouping loop: for each record in order, create its key's group on first sight and push
      the record onto it. `keys` is the object's key order, `groups` its contents. */
  method GroupBy(rows: seq<Row>, field: string, dflt: string) returns (keys: seq<string>, groups: map<string, seq<Row>>)
    ensures keys == Distinct(RowKeys(rows, field, dflt))
    ensures forall k :: k in groups <==> k in keys
    ensures forall k :: k in groups ==> groups[k] == Members(rows, field, dflt, k)
  {
    keys, groups := [], map[];
    for i := 0 to |rows|
      invariant keys == Distinct(RowKeys(rows[..i], field, dflt))
      invariant GroupsOf(rows[..i], field, dflt, groups)
    {
      var key := GroupKey(rows[i], field, dflt);
      KeysStep(rows, i, field, dflt);
      GroupsStep(rows, i, field, dflt, groups);
      if key !in groups {
        groups := groups[key := []];
        keys := keys + [key];
      }
      groups := groups[key := groups[key] + [rows[i]]];
    }
    GroupsOfAll(rows, field, dflt, keys, groups);
  }

  /** The loop that renders the groups: one section per key of `ks`, in that order, with the
      group `groups` holds for it. */
  method ListSections(ghost rows: seq<Row>, ghost field: string, ghost dflt: string, ks: seq<string>, groups: map<string, seq<Row>>)
    returns (sections: seq<(string, seq<Row>)>)
    requires forall i :: 0 <= i < |ks| ==> ks[i] in groups
    requires forall k :: k in groups ==> groups[k] == Members(rows, field, dflt, k)
    ensures sections == SectionsOf(rows, field, dflt, ks)
  {
    sections := [];
    for i := 0 to |ks|
      invariant sections == SectionsOf(rows, field, dflt, ks[..i])
    {
      sections := sections + [(ks[i], groups[ks[i]])];
      assert ks[..i + 1] == ks[..i] + [ks[i]];
      SectionsOfAppend(rows, field, dflt, ks[..i], [ks[i]]);
    }
    assert ks[..|ks|] == ks;
  }
}
