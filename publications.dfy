/** renderPublications: the publications grouped by year, the year groups listed newest first,
    publications inside a year in input order. */
module Publications {
  import opened Wrappers
  import opened JsString
  import opened Rows
  import opened Grouping
  import Seqs

  /** A year key with its parseInt value (None for NaN), as the sort comparator sees it. */
  datatype YearKey = YearKey(year: string, value: Option<int>)

  function KeyOf(year: string): YearKey {
    YearKey(year, ParseInt(year))
  }

  /** `a` is listed strictly before `b`: both parse as integers and `a` is the larger, or only
      `a` parses. */
  predicate Before(a: YearKey, b: YearKey) {
    a.value.Some? && (b.value.None? || a.value.value > b.value.value)
  }

  /** No key is listed after a key that should come after it. */
  predicate Ordered(ks: seq<YearKey>) {
    forall i, j :: 0 <= i < j < |ks| ==> !Before(ks[j], ks[i])
  }

  /** Inserts a key behind every key that it is not listed before. */
  function InsertKey(k: YearKey, ks: seq<YearKey>): (r: seq<YearKey>)
    ensures |r| == |ks| + 1
  {
    if |ks| == 0 then [k]
    else if Before(k, ks[0]) then [k] + ks
    else [ks[0]] + InsertKey(k, ks[1..])
  }

  /** Inserting adds the one key and keeps the others. */
  lemma {:induction false} InsertKeyElements(k: YearKey, ks: seq<YearKey>)
    ensures multiset(InsertKey(k, ks)) == multiset(ks) + multiset{k}
  {
    if |ks| > 0 && !Before(k, ks[0]) {
      InsertKeyElements(k, ks[1..]);
      Seqs.SplitFirst(ks);
    }
  }

  lemma {:induction false} InsertKeyOrdered(k: YearKey, ks: seq<YearKey>)
    requires Ordered(ks)
    ensures Ordered(InsertKey(k, ks))
  {
    if |ks| > 0 {
      if Before(k, ks[0]) {
        InsertKeyInFront(k, ks);
      } else {
        var tail := ks[1..];
        assert forall i :: 0 <= i < |tail| ==> tail[i] == ks[i + 1];
        InsertKeyOrdered(k, tail);
        InsertKeyElements(k, tail);
        InsertKeyBehind(k, ks);
      }
    }
  }

  lemma InsertKeyInFront(k: YearKey, ks: seq<YearKey>)
    requires Ordered(ks) && |ks| > 0 && Before(k, ks[0])
    ensures Ordered([k] + ks)
  {
    var r := [k] + ks;
    forall i, j | 0 <= i < j < |r|
      ensures !Before(r[j], r[i])
    {
      if i > 0 {
        assert r[i] == ks[i - 1] && r[j] == ks[j - 1];
      } else if j > 1 {
        assert !Before(ks[j - 1], ks[0]);
      }
    }
  }

  lemma InsertKeyBehind(k: YearKey, ks: seq<YearKey>)
    requires Ordered(ks) && |ks| > 0 && !Before(k, ks[0])
    requires Ordered(InsertKey(k, ks[1..]))
    requires multiset(InsertKey(k, ks[1..])) == multiset(ks[1..]) + multiset{k}
    ensures Ordered(InsertKey(k, ks))
  {
    var rest := InsertKey(k, ks[1..]);
    forall y | y in rest
      ensures !Before(y, ks[0])
    {
      InsertedBehindHead(k, ks, rest, y);
    }
    ConsOrdered(ks[0], rest);
    assert InsertKey(k, ks) == [ks[0]] + rest;
  }

  /** A key in front of an ordered list that no key of the list should precede. */
  lemma ConsOrdered(x: YearKey, rest: seq<YearKey>)
    requires Ordered(rest)
    requires forall y :: y in rest ==> !Before(y, x)
    ensures Ordered([x] + rest)
  {
    var r := [x] + rest;
    forall i, j | 0 <= i < j < |r|
      ensures !Before(r[j], r[i])
    {
      assert r[j] == rest[j - 1];
      if i > 0 {
        assert r[i] == rest[i - 1];
      }
    }
  }

  /** Every key of the insertion into the tail may follow the head. */
  lemma InsertedBehindHead(k: YearKey, ks: seq<YearKey>, rest: seq<YearKey>, x: YearKey)
    requires Ordered(ks) && |ks| > 0 && !Before(k, ks[0])
    requires multiset(rest) == multiset(ks[1..]) + multiset{k}
    requires x in rest
    ensures !Before(x, ks[0])
  {
    assert x in multiset(rest);
    if x != k {
      assert x in multiset(ks[1..]);
      var m :| 0 <= m < |ks[1..]| && ks[1..][m] == x;
      assert ks[m + 1] == x;
    }
  }

  /** Array.prototype.sort on the keys: an insertion sort taking the keys in order, so that keys
      that compare equal keep their order. */
  function SortKeys(ks: seq<YearKey>): (r: seq<YearKey>)
    ensures |r| == |ks|
  {
    if |ks| == 0 then []
    else InsertKey(ks[|ks| - 1], SortKeys(ks[..|ks| - 1]))
  }

  /** The sort is a permutation of its input. */
  lemma {:induction false} SortKeysElements(ks: seq<YearKey>)
    ensures multiset(SortKeys(ks)) == multiset(ks)
  {
    if |ks| > 0 {
      SortKeysElements(ks[..|ks| - 1]);
      InsertKeyElements(ks[|ks| - 1], SortKeys(ks[..|ks| - 1]));
      Seqs.SplitLast(ks);
    }
  }

  lemma {:induction false} SortKeysOrdered(ks: seq<YearKey>)
    ensures Ordered(SortKeys(ks))
  {
    if |ks| > 0 {
      SortKeysOrdered(ks[..|ks| - 1]);
      InsertKeyOrdered(ks[|ks| - 1], SortKeys(ks[..|ks| - 1]));
    }
  }

  function Years(ks: seq<YearKey>): (ys: seq<string>)
    ensures |ys| == |ks|
  {
    seq(|ks|, i requires 0 <= i < |ks| => ks[i].year)
  }

  function Keys(years: seq<string>): (ks: seq<YearKey>)
    ensures |ks| == |years|
  {
    seq(|years|, i requires 0 <= i < |years| => KeyOf(years[i]))
  }

  /** `years.sort((a, b) => parseInt(b) - parseInt(a))` */
  function SortYears(years: seq<string>): seq<string> {
    Years(SortKeys(Keys(years)))
  }

  lemma KeysYears(years: seq<string>)
    ensures Years(Keys(years)) == years
  {
  }

  /** Inserting a key adds its year to the years and keeps the others. */
  lemma {:induction false} InsertKeyYears(k: YearKey, ks: seq<YearKey>)
    ensures multiset(Years(InsertKey(k, ks))) == multiset(Years(ks)) + multiset{k.year}
  {
    if |ks| == 0 {
      assert Years([k]) == [k.year];
    } else if Before(k, ks[0]) {
      YearsCons(k, ks);
    } else {
      InsertKeyYears(k, ks[1..]);
      YearsCons(ks[0], InsertKey(k, ks[1..]));
      YearsCons(ks[0], ks[1..]);
      assert [ks[0]] + ks[1..] == ks;
    }
  }

  /** The sort is a permutation of the years. */
  lemma {:induction false} SortKeysYears(ks: seq<YearKey>)
    ensures multiset(Years(SortKeys(ks))) == multiset(Years(ks))
  {
    if |ks| > 0 {
      var front := ks[..|ks| - 1];
      SortKeysYears(front);
      InsertKeyYears(ks[|ks| - 1], SortKeys(front));
      YearsSnoc(ks);
    }
  }

  /** The sort is a permutation of the years: each year is listed as often as before. */
  lemma SortYearsSameYears(years: seq<string>)
    ensures multiset(SortYears(years)) == multiset(years)
    ensures forall y :: y in SortYears(years) <==> y in years
  {
    var r := SortYears(years);
    SortKeysYears(Keys(years));
    KeysYears(years);
    assert multiset(r) == multiset(years);
    forall y
      ensures y in r <==> y in years
    {
      assert y in r <==> y in multiset(r);
      assert y in years <==> y in multiset(years);
    }
  }

  /** The years come out newest first: a year never follows a year it should precede. For years
      that both parse this is descending parseInt order; the years that do not parse come last. */
  lemma SortYearsOrder(years: seq<string>)
    ensures var r := SortYears(years);
      forall i, j :: 0 <= i < j < |r| ==> !Before(KeyOf(r[j]), KeyOf(r[i]))
  {
    var ks := Keys(years);
    var sk := SortKeys(ks);
    var r := Years(sk);
    SortKeysOrdered(ks);
    SortKeysElements(ks);
    forall i | 0 <= i < |sk|
      ensures KeyOf(r[i]) == sk[i]
    {
      assert sk[i] in multiset(ks);
      var j :| 0 <= j < |ks| && ks[j] == sk[i];
      assert ks[j] == KeyOf(years[j]);
    }
    forall i, j | 0 <= i < j < |r|
      ensures !Before(KeyOf(r[j]), KeyOf(r[i]))
    {
      assert !Before(sk[j], sk[i]);
    }
  }

  lemma YearsSnoc(ks: seq<YearKey>)
    requires |ks| > 0
    ensures Years(ks) == Years(ks[..|ks| - 1]) + [ks[|ks| - 1].year]
  {
  }

  lemma YearsCons(k: YearKey, ks: seq<YearKey>)
    ensures Years([k] + ks) == [k.year] + Years(ks)
  {
  }

  lemma {:induction false} InsertKeyGrouped(rows: seq<Row>, field: string, dflt: string, k: YearKey, ks: seq<YearKey>)
    ensures multiset(Grouped(rows, field, dflt, Years(InsertKey(k, ks)))) ==
      multiset(Grouped(rows, field, dflt, [k.year] + Years(ks)))
  {
    if |ks| > 0 && !Before(k, ks[0]) {
      InsertKeyGrouped(rows, field, dflt, k, ks[1..]);
      InsertKeyGroupedBehind(rows, field, dflt, k, ks);
    } else if |ks| > 0 {
      YearsCons(k, ks);
    } else {
      YearsCons(k, []);
    }
  }

  /** The step where the new key goes behind the first one: both sides hold the first key's group,
      the new key's group and the groups of the other keys. */
  lemma InsertKeyGroupedBehind(rows: seq<Row>, field: string, dflt: string, k: YearKey, ks: seq<YearKey>)
    requires |ks| > 0 && !Before(k, ks[0])
    requires multiset(Grouped(rows, field, dflt, Years(InsertKey(k, ks[1..])))) ==
      multiset(Grouped(rows, field, dflt, [k.year] + Years(ks[1..])))
    ensures multiset(Grouped(rows, field, dflt, Years(InsertKey(k, ks)))) ==
      multiset(Grouped(rows, field, dflt, [k.year] + Years(ks)))
  {
    var a, tail := ks[0], ks[1..];
    var rest := InsertKey(k, tail);
    YearsCons(a, rest);
    assert ks == [a] + tail;
    YearsCons(a, tail);
    var ma, mk := Members(rows, field, dflt, a.year), Members(rows, field, dflt, k.year);
    var gt, gr := Grouped(rows, field, dflt, Years(tail)), Grouped(rows, field, dflt, Years(rest));
    GroupedCons(rows, field, dflt, a.year, Years(rest));
    GroupedCons(rows, field, dflt, k.year, Years(tail));
    GroupedCons(rows, field, dflt, k.year, Years(ks));
    GroupedCons(rows, field, dflt, a.year, Years(tail));
    MultisetSwap(ma, mk, gt, gr);
  }

  lemma MultisetSwap(a: seq<Row>, k: seq<Row>, t: seq<Row>, r: seq<Row>)
    requires multiset(r) == multiset(k + t)
    ensures multiset(a + r) == multiset(k + (a + t))
  {
  }

  lemma {:induction false} SortKeysGrouped(rows: seq<Row>, field: string, dflt: string, ks: seq<YearKey>)
    ensures multiset(Grouped(rows, field, dflt, Years(SortKeys(ks)))) ==
      multiset(Grouped(rows, field, dflt, Years(ks)))
  {
    if |ks| > 0 {
      var front, last := ks[..|ks| - 1], ks[|ks| - 1];
      var sorted := SortKeys(front);
      SortKeysGrouped(rows, field, dflt, front);
      InsertKeyGrouped(rows, field, dflt, last, sorted);
      GroupedCons(rows, field, dflt, last.year, Years(sorted));
      YearsSnoc(ks);
      GroupedAppend(rows, field, dflt, Years(front), [last.year]);
      GroupedCons(rows, field, dflt, last.year, []);
    }
  }

  /** Sorting the years only reorders the sections: together they hold the same records. */
  lemma SortYearsSections(rows: seq<Row>, field: string, dflt: string, years: seq<string>)
    ensures multiset(Concat(SectionsOf(rows, field, dflt, SortYears(years)))) ==
      multiset(Concat(SectionsOf(rows, field, dflt, years)))
  {
    SortKeysGrouped(rows, field, dflt, Keys(years));
    KeysYears(years);
    ConcatSections(rows, field, dflt, SortYears(years));
    ConcatSections(rows, field, dflt, years);
  }

  /** The year sections: every publication is in exactly one of them, under its own year; no
      section is empty; and the years come newest first. */
  lemma PublicationSections(pubs: seq<Row>)
    ensures var sections := SectionsOf(pubs, "year", "Unknown", SortYears(Distinct(RowKeys(pubs, "year", "Unknown"))));
      && multiset(Concat(sections)) == multiset(pubs)
      && (forall i :: 0 <= i < |sections| ==> sections[i].1 != [])
      && (forall i, j :: 0 <= i < j < |sections| ==> !Before(KeyOf(sections[j].0), KeyOf(sections[i].0)))
  {
    var keys := Distinct(RowKeys(pubs, "year", "Unknown"));
    var sortedYears := SortYears(keys);
    SortYearsSameYears(keys);
    forall i | 0 <= i < |pubs|
      ensures GroupKey(pubs[i], "year", "Unknown") in keys
    {
      assert RowKeys(pubs, "year", "Unknown")[i] in RowKeys(pubs, "year", "Unknown");
    }
    SectionsPartition(pubs, "year", "Unknown", keys);
    SortYearsSections(pubs, "year", "Unknown", keys);
    SectionsNonEmpty(pubs, "year", "Unknown", sortedYears);
    SortYearsOrder(keys);
  }

  /** renderPublications: group by `year || 'Unknown'`, then list the year groups newest first. */
  method GroupPublications(pubs: seq<Row>) returns (sections: seq<(string, seq<Row>)>)
    ensures sections == SectionsOf(pubs, "year", "Unknown", SortYears(Distinct(RowKeys(pubs, "year", "Unknown"))))
    ensures multiset(Concat(sections)) == multiset(pubs)
    ensures forall i :: 0 <= i < |sections| ==> sections[i].1 != []
    ensures forall i, j :: 0 <= i < j < |sections| ==> !Before(KeyOf(sections[j].0), KeyOf(sections[i].0))
  {
    var keys, byYear := GroupBy(pubs, "year", "Unknown");
    var sortedYears := SortYears(keys);
    SortYearsSameYears(keys);
    sections := ListSections(pubs, "year", "Unknown", sortedYears, byYear);
    PublicationSections(pubs);
  }
}
