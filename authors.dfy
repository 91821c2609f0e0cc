/** formatAuthors: the author list of a publication, split on commas, cleaned, and with every
    author whose name contains "kinney" in any letter case set in bold. */
module Authors {
  import opened Wrappers
  import opened JsString
  import Seqs

  /** A list entry as formatAuthors keeps it: non-empty, without a comma, and its own trim. */
  predicate IsAuthorName(a: string) {
    a != [] && ',' !in a && !IsWhite(a[0]) && !IsWhite(a[|a| - 1])
  }

  /** parts.map(a => a.trim()).filter(a => a) */
  function TrimmedNonEmpty(parts: seq<string>): (names: seq<string>)
    ensures |names| <= |parts|
  {
    if |parts| == 0 then []
    else
      var t := Trim(parts[0]);
      (if t == [] then [] else [t]) + TrimmedNonEmpty(parts[1..])
  }

  /** The author names of authorsStr.split(',').map(a => a.trim()).filter(a => a). */
  function AuthorNames(s: string): seq<string> {
    TrimmedNonEmpty(SplitOn(s, ','))
  }

  /** An author shown in bold when its lower-case form contains "kinney". */
  function Emphasize(author: string): string {
    if Contains(ToLowerCase(author), "kinney") then "<strong>" + author + "</strong>" else author
  }

  function EmphasizeAll(names: seq<string>): (r: seq<string>)
    ensures |r| == |names|
  {
    seq(|names|, i requires 0 <= i < |names| => Emphasize(names[i]))
  }

  /** formatAuthors(authorsStr): '' for a missing or empty string, otherwise the cleaned names,
      each emphasised or not, joined by ", ". */
  function FormatAuthors(authors: Option<string>): string {
    if authors.None? || authors.value == [] then []
    else JoinWith(EmphasizeAll(AuthorNames(authors.value)), ", ")
  }

  // ----- the names -----

  /** The kept entries of comma-free parts are clean author names. */
  lemma {:induction false} TrimmedNonEmptyClean(parts: seq<string>)
    requires forall j :: 0 <= j < |parts| ==> ',' !in parts[j]
    ensures forall i :: 0 <= i < |TrimmedNonEmpty(parts)| ==> IsAuthorName(TrimmedNonEmpty(parts)[i])
  {
    if |parts| > 0 {
      var t := Trim(parts[0]);
      TrimKeeps(parts[0], ',');
      var tail := parts[1..];
      assert forall j :: 0 <= j < |tail| ==> tail[j] == parts[j + 1];
      TrimmedNonEmptyClean(tail);
      var names, rest := TrimmedNonEmpty(parts), TrimmedNonEmpty(tail);
      if t == [] {
        assert names == rest;
      } else {
        assert names == [t] + rest;
        ConsAuthorNames(t, rest);
      }
    }
  }

  lemma ConsAuthorNames(t: string, rest: seq<string>)
    requires IsAuthorName(t)
    requires forall i :: 0 <= i < |rest| ==> IsAuthorName(rest[i])
    ensures forall i :: 0 <= i < |[t] + rest| ==> IsAuthorName(([t] + rest)[i])
  {
    var names := [t] + rest;
    forall i | 0 <= i < |names|
      ensures IsAuthorName(names[i])
    {
      if i == 0 {
        assert names[0] == t;
      } else {
        assert names[i] == rest[i - 1];
      }
    }
  }

  /** Every entry formatAuthors keeps is a clean author name. */
  lemma AuthorNamesClean(s: string)
    ensures forall i :: 0 <= i < |AuthorNames(s)| ==> IsAuthorName(AuthorNames(s)[i])
  {
    TrimmedNonEmptyClean(SplitOn(s, ','));
  }

  predicate AllPartsWhite(parts: seq<string>) {
    forall j :: 0 <= j < |parts| ==> AllWhite(parts[j])
  }

  /** Only commas and white space. */
  predicate Blank(s: string) {
    forall i :: 0 <= i < |s| ==> s[i] == ',' || IsWhite(s[i])
  }

  lemma AllWhiteCons(c: char, p: string)
    ensures AllWhite([c] + p) <==> IsWhite(c) && AllWhite(p)
  {
    var q := [c] + p;
    assert q[0] == c;
    assert forall i :: 0 <= i < |p| ==> p[i] == q[i + 1];
    if IsWhite(c) && AllWhite(p) {
      forall i | 0 <= i < |q|
        ensures IsWhite(q[i])
      {
        if i > 0 {
          assert q[i] == p[i - 1];
        }
      }
    }
  }

  lemma AllPartsWhiteCons(p: string, ps: seq<string>)
    ensures AllPartsWhite([p] + ps) <==> AllWhite(p) && AllPartsWhite(ps)
  {
    var q := [p] + ps;
    assert q[0] == p;
    assert forall j :: 0 <= j < |ps| ==> ps[j] == q[j + 1];
    if AllWhite(p) && AllPartsWhite(ps) {
      forall j | 0 <= j < |q|
        ensures AllWhite(q[j])
      {
        if j > 0 {
          assert q[j] == ps[j - 1];
        }
      }
    }
  }

  lemma BlankCons(c: char, s: string)
    ensures Blank([c] + s) <==> (c == ',' || IsWhite(c)) && Blank(s)
  {
    var q := [c] + s;
    assert q[0] == c;
    assert forall i :: 0 <= i < |s| ==> s[i] == q[i + 1];
    if (c == ',' || IsWhite(c)) && Blank(s) {
      forall i | 0 <= i < |q|
        ensures q[i] == ',' || IsWhite(q[i])
      {
        if i > 0 {
          assert q[i] == s[i - 1];
        }
      }
    }
  }

  lemma {:induction false} TrimmedNonEmptyEmptyIff(parts: seq<string>)
    ensures TrimmedNonEmpty(parts) == [] <==> AllPartsWhite(parts)
  {
    if |parts| > 0 {
      var t, rest := Trim(parts[0]), TrimmedNonEmpty(parts[1..]);
      TrimmedNonEmptyEmptyIff(parts[1..]);
      TrimEmptyIff(parts[0]);
      AllPartsWhiteCons(parts[0], parts[1..]);
      assert parts == [parts[0]] + parts[1..];
      if t == [] {
        assert TrimmedNonEmpty(parts) == rest;
      } else {
        assert TrimmedNonEmpty(parts) == [t] + rest;
      }
    }
  }

  lemma {:induction false} SplitPartsWhiteIff(s: string)
    ensures AllPartsWhite(SplitOn(s, ',')) <==> Blank(s)
  {
    if |s| > 0 {
      var rest := SplitOn(s[1..], ',');
      SplitPartsWhiteIff(s[1..]);
      BlankCons(s[0], s[1..]);
      assert s == [s[0]] + s[1..];
      AllPartsWhiteCons(rest[0], rest[1..]);
      assert rest == [rest[0]] + rest[1..];
      if s[0] == ',' {
        AllPartsWhiteCons([], rest);
      } else {
        var first := [s[0]] + rest[0];
        AllWhiteCons(s[0], rest[0]);
        AllPartsWhiteCons(first, rest[1..]);
      }
    }
  }

  /** There is no author name exactly when the string holds only commas and white space. */
  lemma AuthorNamesEmptyIff(s: string)
    ensures AuthorNames(s) == [] <==> Blank(s)
  {
    TrimmedNonEmptyEmptyIff(SplitOn(s, ','));
    SplitPartsWhiteIff(s);
  }

  /** formatAuthors gives '' exactly when there is no author string or it holds only commas and
      white space. */
  lemma FormatAuthorsEmptyIff(authors: Option<string>)
    ensures FormatAuthors(authors) == [] <==> authors.None? || Blank(authors.value)
  {
    if authors.Some? && authors.value != [] {
      var names := AuthorNames(authors.value);
      AuthorNamesEmptyIff(authors.value);
      if names != [] {
        AuthorNamesClean(authors.value);
        assert IsAuthorName(names[0]);
        JoinWithNonEmpty(EmphasizeAll(names), ", ");
      }
    }
  }

  // ----- the round trip -----

  /** Each name with a space in front: what split(',') sees after the first name of a ", "-join. */
  function Prefixed(names: seq<string>): (r: seq<string>)
    ensures |r| == |names|
  {
    if |names| == 0 then [] else [" " + names[0]] + Prefixed(names[1..])
  }

  lemma {:induction false} PrefixedCommaFree(names: seq<string>)
    requires forall i :: 0 <= i < |names| ==> ',' !in names[i]
    ensures forall i :: 0 <= i < |names| ==> ',' !in Prefixed(names)[i]
  {
    if |names| > 0 {
      PrefixedCommaFree(names[1..]);
      var r := Prefixed(names);
      assert r[0] == " " + names[0];
      assert forall i :: 1 <= i < |names| ==> r[i] == Prefixed(names[1..])[i - 1];
    }
  }

  /** The parts split(',') finds in a ", "-join. */
  function Spaced(names: seq<string>): seq<string> {
    if |names| == 0 then [] else [names[0]] + Prefixed(names[1..])
  }

  lemma {:induction false} JoinPrefixed(rest: seq<string>)
    requires |rest| > 0
    ensures JoinWith(Prefixed(rest), [',']) == " " + JoinWith(rest, ", ")
  {
    if |rest| > 1 {
      JoinPrefixed(rest[1..]);
      assert Prefixed(rest)[1..] == Prefixed(rest[1..]);
    }
  }

  lemma CommaThenSpace(n: string, j: string)
    ensures n + [','] + (" " + j) == n + ", " + j
  {
  }

  lemma JoinSpaced(names: seq<string>)
    requires |names| > 0
    ensures JoinWith(names, ", ") == JoinWith(Spaced(names), [','])
  {
    var n, rest := names[0], names[1..];
    if |rest| > 0 {
      var j := JoinWith(rest, ", ");
      assert JoinWith(names, ", ") == n + ", " + j;
      JoinPrefixed(rest);
      JoinWithCons(n, Prefixed(rest), [',']);
      CommaThenSpace(n, j);
    }
  }

  lemma TrimSpacedName(n: string)
    requires IsAuthorName(n)
    ensures Trim(" " + n) == n
  {
    assert (" " + n)[1..] == n;
    assert TrimStart(n) == n;
    assert TrimStart(" " + n) == n;
  }

  /** A name that trimming gives back after a space is put in front of it. */
  predicate Respaced(n: string) {
    n != [] && Trim(" " + n) == n
  }

  lemma {:induction false} TrimmedPrefixed(names: seq<string>)
    requires forall i :: 0 <= i < |names| ==> Respaced(names[i])
    ensures TrimmedNonEmpty(Prefixed(names)) == names
  {
    if |names| > 0 {
      var n, rest := names[0], names[1..];
      assert Respaced(n);
      forall i | 0 <= i < |rest|
        ensures Respaced(rest[i])
      {
        assert rest[i] == names[i + 1];
      }
      TrimmedPrefixed(rest);
      assert Prefixed(names) == [" " + n] + Prefixed(rest);
      TrimmedConsPart(" " + n, Prefixed(rest));
      Seqs.SplitFirst(names);
    }
  }

  lemma TrimmedConsPart(p: string, ps: seq<string>)
    requires Trim(p) != []
    ensures TrimmedNonEmpty([p] + ps) == [Trim(p)] + TrimmedNonEmpty(ps)
  {
    assert ([p] + ps)[1..] == ps;
  }

  lemma SpacedCommaFree(names: seq<string>)
    requires forall i :: 0 <= i < |names| ==> IsAuthorName(names[i])
    ensures forall i :: 0 <= i < |Spaced(names)| ==> ',' !in Spaced(names)[i]
  {
    if |names| > 0 {
      var rest := names[1..];
      assert forall i :: 0 <= i < |rest| ==> IsAuthorName(rest[i]);
      PrefixedCommaFree(rest);
      var parts := Spaced(names);
      assert forall i :: 1 <= i < |parts| ==> parts[i] == Prefixed(rest)[i - 1];
    }
  }

  lemma TrimmedCons(p: string, ps: seq<string>)
    requires p != [] && Trim(p) == p
    ensures TrimmedNonEmpty([p] + ps) == [p] + TrimmedNonEmpty(ps)
  {
    assert ([p] + ps)[1..] == ps;
  }

  lemma TrimmedSpaced(names: seq<string>)
    requires |names| > 0
    requires forall i :: 0 <= i < |names| ==> IsAuthorName(names[i])
    ensures TrimmedNonEmpty(Spaced(names)) == names
  {
    var n, rest := names[0], names[1..];
    assert Spaced(names) == [n] + Prefixed(rest);
    forall i | 0 <= i < |rest|
      ensures Respaced(rest[i])
    {
      assert IsAuthorName(names[i + 1]);
      TrimSpacedName(rest[i]);
    }
    TrimmedPrefixed(rest);
    TrimmedFirst(n, Prefixed(rest));
    assert [n] + rest == names;
  }

  lemma TrimmedFirst(n: string, ps: seq<string>)
    requires IsAuthorName(n)
    ensures TrimmedNonEmpty([n] + ps) == [n] + TrimmedNonEmpty(ps)
  {
    TrimUnchanged(n);
    TrimmedCons(n, ps);
  }

  lemma EmptyNames()
    ensures AuthorNames([]) == []
  {
    assert SplitOn([], ',') == [[]];
    assert Trim([]) == [];
  }

  /** Reading back a ", "-join of clean author names gives the names. */
  lemma AuthorNamesRoundTrip(names: seq<string>)
    requires forall i :: 0 <= i < |names| ==> IsAuthorName(names[i])
    ensures AuthorNames(JoinWith(names, ", ")) == names
  {
    if |names| == 0 {
      EmptyNames();
    } else {
      JoinedNamesRoundTrip(names);
    }
  }

  lemma JoinedNamesRoundTrip(names: seq<string>)
    requires |names| > 0
    requires forall i :: 0 <= i < |names| ==> IsAuthorName(names[i])
    ensures AuthorNames(JoinWith(names, ", ")) == names
  {
    SplitJoinedNames(names);
    TrimmedSpaced(names);
  }

  /** Splitting a ", "-join of clean names on commas gives the names, each after the first with
      its leading space. */
  lemma SplitJoinedNames(names: seq<string>)
    requires |names| > 0
    requires forall i :: 0 <= i < |names| ==> IsAuthorName(names[i])
    ensures SplitOn(JoinWith(names, ", "), ',') == Spaced(names)
  {
    var sp := Spaced(names);
    assert |sp| > 0 by {
      assert sp == [names[0]] + Prefixed(names[1..]);
    }
    JoinSpaced(names);
    SpacedCommaFree(names);
    JoinThenSplit(sp, ',');
  }

  /** formatAuthors lists every author of a ", "-separated list of clean names, in order, each
      emphasised or not, joined by ", ". */
  lemma FormatAuthorsRoundTrip(names: seq<string>)
    requires forall i :: 0 <= i < |names| ==> IsAuthorName(names[i])
    ensures FormatAuthors(Some(JoinWith(names, ", "))) == JoinWith(EmphasizeAll(names), ", ")
  {
    AuthorNamesRoundTrip(names);
  }

  // ----- the emphasis -----

  lemma {:induction false} ContainsLower(s: string, w: string)
    requires Contains(s, w)
    ensures Contains(ToLowerCase(s), ToLowerCase(w))
    decreases |s|
  {
    if StartsWith(s, w) {
      assert ToLowerCase(s)[..|w|] == ToLowerCase(w);
    } else {
      ContainsLower(s[1..], w);
      assert ToLowerCase(s)[1..] == ToLowerCase(s[1..]);
    }
  }

  /** Every author whose name contains "kinney" in some letter case (such as "Kinney" or
      "KINNEY") is set in bold. */
  lemma KinneyEmphasized(author: string, w: string)
    requires ToLowerCase(w) == "kinney" && Contains(author, w)
    ensures Emphasize(author) == "<strong>" + author + "</strong>"
  {
    ContainsLower(author, w);
  }

  /** A "kinney" in the lower-case form of a string is the lower-case form of a piece of it. */
  lemma {:induction false} ContainsUnlower(s: string, v: string)
    requires Contains(ToLowerCase(s), v)
    ensures exists w :: ToLowerCase(w) == v && Contains(s, w)
    decreases |s|
  {
    if StartsWith(ToLowerCase(s), v) {
      var w := s[..|v|];
      assert ToLowerCase(w) == v;
      assert StartsWith(s, w);
    } else {
      assert ToLowerCase(s)[1..] == ToLowerCase(s[1..]);
      ContainsUnlower(s[1..], v);
      var w :| ToLowerCase(w) == v && Contains(s[1..], w);
      assert Contains(s, w);
    }
  }

  /** An author whose name contains "kinney" in no letter case is shown as it is. */
  lemma KinneyNotEmphasized(author: string)
    requires forall w :: ToLowerCase(w) == "kinney" ==> !Contains(author, w)
    ensures Emphasize(author) == author
  {
    if Contains(ToLowerCase(author), "kinney") {
      ContainsUnlower(author, "kinney");
      assert false;
    }
  }
}
