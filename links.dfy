/** The links of a publication as createPublicationHTML builds them: an anchor for each of the
    paper, preprint and code fields that is set, in that order, wrapped in one links block when
    there is any. */
module Links {
  import opened JsString
  import opened Rows

  datatype LinkKind = Paper | Preprint | Code

  /** The record field a link reads. */
  function FieldName(kind: LinkKind): string {
    match kind
    case Paper => "paper"
    case Preprint => "preprint"
    case Code => "code"
  }

  /** The text of a link. */
  function Label(kind: LinkKind): string {
    match kind
    case Paper => "Paper"
    case Preprint => "Preprint"
    case Code => "Code"
  }

  /** The position of a kind in the fixed order Paper, Preprint, Code. */
  function Rank(kind: LinkKind): nat {
    match kind
    case Paper => 0
    case Preprint => 1
    case Code => 2
  }

  /** A link of a publication: its kind and its target. */
  datatype PubLink = PubLink(kind: LinkKind, href: string)

  /** The link of one kind, when its field is set. */
  function OneLink(pub: Row, kind: LinkKind): seq<PubLink> {
    var href := Field(pub, FieldName(kind));
    if href != "" then [PubLink(kind, href)] else []
  }

  /** The links a publication has: the paper, preprint and code links, each when its field is set. */
  function PublicationLinks(pub: Row): seq<PubLink> {
    OneLink(pub, Paper) + OneLink(pub, Preprint) + OneLink(pub, Code)
  }

  /** Every link points to the value of its field, which is set. */
  lemma LinksPointToFields(pub: Row)
    ensures var links := PublicationLinks(pub);
      forall i :: 0 <= i < |links| ==> links[i].href == Field(pub, FieldName(links[i].kind)) && links[i].href != ""
  {
    var links := PublicationLinks(pub);
    forall i | 0 <= i < |links|
      ensures links[i].href == Field(pub, FieldName(links[i].kind)) && links[i].href != ""
    {
      var a, b := OneLink(pub, Paper), OneLink(pub, Preprint);
      if i < |a| {
        assert links[i] == a[i];
      } else if i < |a| + |b| {
        assert links[i] == b[i - |a|];
      } else {
        assert links[i] == OneLink(pub, Code)[i - |a| - |b|];
      }
    }
  }

  /** The links come in the order Paper, Preprint, Code. */
  lemma LinksInOrder(pub: Row)
    ensures var links := PublicationLinks(pub);
      forall i, j :: 0 <= i < j < |links| ==> Rank(links[i].kind) < Rank(links[j].kind)
  {
    var p, q, r := Field(pub, "paper"), Field(pub, "preprint"), Field(pub, "code");
    var links := PublicationLinks(pub);
    var lp, lq, lr := PubLink(Paper, p), PubLink(Preprint, q), PubLink(Code, r);
    if p != "" {
      if q != "" {
        if r != "" { assert links == [lp, lq, lr]; } else { assert links == [lp, lq]; }
      } else {
        if r != "" { assert links == [lp, lr]; } else { assert links == [lp]; }
      }
    } else {
      if q != "" {
        if r != "" { assert links == [lq, lr]; } else { assert links == [lq]; }
      } else {
        if r != "" { assert links == [lr]; } else { assert links == []; }
      }
    }
  }

  /** A publication has a link of a kind exactly when that field is set. */
  lemma LinkPresentIff(pub: Row, kind: LinkKind)
    ensures var links := PublicationLinks(pub);
      Field(pub, FieldName(kind)) != "" <==> exists i :: 0 <= i < |links| && links[i].kind == kind
  {
    var links := PublicationLinks(pub);
    LinksPointToFields(pub);
    if Field(pub, FieldName(kind)) != "" {
      var l := PubLink(kind, Field(pub, FieldName(kind)));
      assert l in OneLink(pub, kind);
      assert l in links;
      var i :| 0 <= i < |links| && links[i] == l;
    }
  }

  /** `<a href="${href}" class="pub-link" target="_blank">${text}</a>` */
  function Anchor(href: string, text: string): (a: string)
    ensures a != ""
  {
    "<a href=\"" + href + "\" class=\"pub-link\" target=\"_blank\">" + text + "</a>"
  }

  /** The anchor for one link field, or '' when the field is not set. */
  function LinkHtml(pub: Row, kind: LinkKind): string {
    var href := Field(pub, FieldName(kind));
    if href != "" then Anchor(href, Label(kind)) else ""
  }

  /** `.filter(l => l)` on strings. */
  function NonEmpty(parts: seq<string>): (kept: seq<string>)
    ensures forall i :: 0 <= i < |kept| ==> kept[i] != ""
  {
    if |parts| == 0 then []
    else (if parts[0] != "" then [parts[0]] else []) + NonEmpty(parts[1..])
  }

  /** `[paperLink, preprintLink, codeLink].filter(l => l).join('')` */
  function LinksHtml(pub: Row): string {
    JoinWith(NonEmpty([LinkHtml(pub, Paper), LinkHtml(pub, Preprint), LinkHtml(pub, Code)]), "")
  }

  /** `linksHTML ? <div class="pub-links">${linksHTML}</div> : ''` */
  function LinksSection(pub: Row): string {
    var html := LinksHtml(pub);
    if html != "" then "<div class=\"pub-links\">" + html + "</div>" else ""
  }

  /** The anchors of a list of links, one after another. */
  function Anchors(links: seq<PubLink>): string {
    if |links| == 0 then "" else Anchor(links[0].href, Label(links[0].kind)) + Anchors(links[1..])
  }

  /** Joining with nothing puts the first part in front of the joined rest. */
  lemma JoinEmptyCons(p: string, rest: seq<string>)
    ensures JoinWith([p] + rest, "") == p + JoinWith(rest, "")
  {
    if |rest| == 0 {
      assert [p] + rest == [p];
    } else {
      JoinWithCons(p, rest, "");
    }
  }

  lemma {:induction false} JoinEmptyAppend(a: seq<string>, b: seq<string>)
    ensures JoinWith(a + b, "") == JoinWith(a, "") + JoinWith(b, "")
  {
    if |a| == 0 {
      assert a + b == b;
    } else {
      assert a + b == [a[0]] + (a[1..] + b);
      assert a == [a[0]] + a[1..];
      JoinEmptyAppend(a[1..], b);
      JoinEmptyCons(a[0], a[1..] + b);
      JoinEmptyCons(a[0], a[1..]);
    }
  }

  /** Dropping the empty parts does not change their join with nothing. */
  lemma {:induction false} JoinNonEmpty(parts: seq<string>)
    ensures JoinWith(NonEmpty(parts), "") == JoinWith(parts, "")
  {
    if |parts| > 0 {
      var head := if parts[0] != "" then [parts[0]] else [];
      JoinNonEmpty(parts[1..]);
      JoinEmptyAppend(head, NonEmpty(parts[1..]));
      assert parts == [parts[0]] + parts[1..];
      JoinEmptyCons(parts[0], parts[1..]);
    }
  }

  lemma {:induction false} AnchorsAppend(a: seq<PubLink>, b: seq<PubLink>)
    ensures Anchors(a + b) == Anchors(a) + Anchors(b)
  {
    if |a| == 0 {
      assert a + b == b;
    } else {
      assert (a + b)[1..] == a[1..] + b;
      AnchorsAppend(a[1..], b);
    }
  }

  lemma JoinThree(a: string, b: string, c: string)
    ensures JoinWith([a, b, c], "") == a + b + c
  {
    assert [a, b, c][1..] == [b, c];
    assert [b, c][1..] == [c];
    assert JoinWith([b, c], "") == b + c;
    assert a + "" + (b + c) == a + b + c;
  }

  lemma OneLinkAnchor(pub: Row, kind: LinkKind)
    ensures Anchors(OneLink(pub, kind)) == LinkHtml(pub, kind)
  {
  }

  /** The links HTML is the anchors of the publication's links, in order: one anchor for each set
      field among paper, preprint and code and none for the others. */
  lemma LinksHtmlIsAnchors(pub: Row)
    ensures LinksHtml(pub) == Anchors(PublicationLinks(pub))
  {
    var parts := [LinkHtml(pub, Paper), LinkHtml(pub, Preprint), LinkHtml(pub, Code)];
    JoinNonEmpty(parts);
    JoinThree(parts[0], parts[1], parts[2]);
    OneLinkAnchor(pub, Paper);
    OneLinkAnchor(pub, Preprint);
    OneLinkAnchor(pub, Code);
    AnchorsAppend(OneLink(pub, Paper) + OneLink(pub, Preprint), OneLink(pub, Code));
    AnchorsAppend(OneLink(pub, Paper), OneLink(pub, Preprint));
  }

  lemma AnchorsEmptyIff(links: seq<PubLink>)
    ensures Anchors(links) == "" <==> links == []
  {
  }

  /** The links block is left out exactly when the publication has no link, and otherwise holds
      the anchors of its links. */
  lemma LinksSectionSpec(pub: Row)
    ensures LinksSection(pub) == "" <==> PublicationLinks(pub) == []
    ensures PublicationLinks(pub) == [] <==> Field(pub, "paper") == "" && Field(pub, "preprint") == "" && Field(pub, "code") == ""
    ensures PublicationLinks(pub) != [] ==>
      LinksSection(pub) == "<div class=\"pub-links\">" + Anchors(PublicationLinks(pub)) + "</div>"
  {
    LinksHtmlIsAnchors(pub);
    AnchorsEmptyIff(PublicationLinks(pub));
  }
}
