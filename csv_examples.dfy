/** The quoted-field case of the line splitter, worked through the model. */
module CsvExamples {
  import opened Csv

  /** The quoted part `"x,y"`: the comma inside the quotes is kept and the quotes are dropped. */
  lemma QuotedPart(x: char, y: char)
    requires x != '"' && x != ',' && y != '"' && y != ','
    ensures Scan(['"', x, ',', y, '"'], ',') == ScanState([], [x, ',', y], false)
  {
    var l1: string := ['"'];
    var l2 := l1 + [x];
    var l3 := l2 + [','];
    var l4 := l3 + [y];
    var l5 := l4 + ['"'];
    ScanSnoc([], '"', ',');
    assert [] + ['"'] == l1;
    assert Scan(l1, ',') == ScanState([], [], true);
    ScanSnoc(l1, x, ',');
    assert [] + [x] == [x];
    assert Scan(l2, ',') == ScanState([], [x], true);
    ScanSnoc(l2, ',', ',');
    assert Scan(l3, ',') == ScanState([], [x, ','], true);
    ScanSnoc(l3, y, ',');
    assert Scan(l4, ',') == ScanState([], [x, ',', y], true);
    ScanSnoc(l4, '"', ',');
    assert l5 == ['"', x, ',', y, '"'];
  }

  /** A quoted field keeps its comma: a line `"x,y",z` splits into the two fields `x,y` and `z`,
      where a plain split on commas would give three. */
  lemma QuotedFieldExample(x: char, y: char, z: char)
    requires x != '"' && x != ',' && y != '"' && y != ',' && z != '"' && z != ','
    ensures SplitFields(['"', x, ',', y, '"', ',', z], ',') == [[x, ',', y], [z]]
  {
    var l5: string := ['"', x, ',', y, '"'];
    var l6 := l5 + [','];
    var l7 := l6 + [z];
    QuotedPart(x, y);
    ScanSnoc(l5, ',', ',');
    assert Scan(l6, ',') == ScanState([[x, ',', y]], [], false);
    ScanSnoc(l6, z, ',');
    assert [] + [z] == [z];
    assert Scan(l7, ',') == ScanState([[x, ',', y]], [z], false);
    assert l7 == ['"', x, ',', y, '"', ',', z];
  }
}
