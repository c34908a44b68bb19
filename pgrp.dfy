/** Model of pgrp.py: the monitor that remembers the links it has reported in a SQLite table
    `seen_links_pgrp` with a UNIQUE `link` column. One run loads the table, reads the
    listing page, mails every link not seen before, and inserts the new links. */
module Pgrp {
  import opened Wrappers
  import opened Strings
  import opened Http
  import opened Markup
  import Mail

  const BaseUrl := "https://www.pgdporto.pt/proc-web/"
  /** An anchor is a news item when its href contains this. */
  const NewsMarker := "news.jsf"
  const Subject := "Novo comunicado da PGRP!"

  const TitleClass := "news-detail-title"
  const SummaryClass := "news-detail-summary"
  const BodyClass := "news-detail-body"
  const NoTitle := "Título não encontrado."
  const NoSummary := "Resumo não encontrado."
  const NoBody := "Conteúdo vazio."
  const AccessError := "Erro ao acessar a notícia."
  const ProcessingError := "Erro ao processar a notícia."
  const Indent := "        "

  // ----- The listing page: get_news_links -----

  /** The `href` of every `a` tag that has one, in document order:
      what `soup.find_all("a", href=True)` iterates over. */
  function AnchorHrefs(ns: seq<Node>): seq<string> {
    if ns == [] then []
    else
      (if IsElementNamed(ns[0], "a") && ns[0].href.Some? then [ns[0].href.value] else [])
      + AnchorHrefs(ns[1..])
  }

  /** An href is collected exactly when some `a` tag of the run carries it: no other tag
      and no `a` without an `href` contributes. */
  lemma {:induction false} AnchorHrefsMembership(ns: seq<Node>, h: string)
    ensures h in AnchorHrefs(ns) <==> exists n :: n in ns && IsElementNamed(n, "a") && n.href == Some(h)
  {
    if ns != [] {
      AnchorHrefsMembership(ns[1..], h);
      assert forall n :: n in ns <==> n == ns[0] || n in ns[1..];
    }
  }

  /** The identifiers a sequence of hrefs yields: the base URL followed by every href that
      contains the news marker. */
  function NewsLinks(hrefs: seq<string>): set<string> {
    set h | h in hrefs && Contains(h, NewsMarker) :: BaseUrl + h
  }

  /** A link is reported exactly when it is the base URL followed by an href of the listing
      that contains the news marker; every reported link starts with the base URL and
      itself contains the marker. */
  lemma NewsLinksMembership(hrefs: seq<string>, link: string)
    ensures link in NewsLinks(hrefs) <==>
            StartsWith(link, BaseUrl) && link[|BaseUrl|..] in hrefs
            && Contains(link[|BaseUrl|..], NewsMarker)
    ensures link in NewsLinks(hrefs) ==> Contains(link, NewsMarker)
  {
    if link in NewsLinks(hrefs) {
      var h :| h in hrefs && Contains(h, NewsMarker) && link == BaseUrl + h;
      assert link[|BaseUrl|..] == h;
      ContainsAfterPrefix(BaseUrl, h, NewsMarker);
    }
    if StartsWith(link, BaseUrl) && link[|BaseUrl|..] in hrefs && Contains(link[|BaseUrl|..], NewsMarker) {
      assert link == BaseUrl + link[|BaseUrl|..];
    }
  }

  lemma NewsLinksShape(hrefs: seq<string>)
    ensures forall l :: l in NewsLinks(hrefs) ==> StartsWith(l, BaseUrl) && Contains(l, NewsMarker)
  {
    forall l | l in NewsLinks(hrefs) ensures StartsWith(l, BaseUrl) && Contains(l, NewsMarker) {
      NewsLinksMembership(hrefs, l);
    }
  }

  /** No URL resolution takes place: an href spelled absolutely gets the base URL put in
      front once more, so the two spellings of one article are two identifiers. */
  lemma AbsoluteHrefIsNotResolved()
    ensures NewsLinks(["news.jsf?id=42", BaseUrl + "news.jsf?id=42"])
            == {BaseUrl + "news.jsf?id=42", BaseUrl + BaseUrl + "news.jsf?id=42"}
  {
    var relative := "news.jsf?id=42";
    var absolute := BaseUrl + relative;
    var hrefs := [relative, absolute];
    assert relative[0..|NewsMarker|] == NewsMarker;
    assert OccursAt(relative, NewsMarker, 0);
    assert Contains(relative, NewsMarker);
    ContainsAfterPrefix(BaseUrl, relative, NewsMarker);
    assert BaseUrl + relative in NewsLinks(hrefs);
    assert BaseUrl + absolute in NewsLinks(hrefs);
    forall l | l in NewsLinks(hrefs) ensures l == BaseUrl + relative || l == BaseUrl + absolute {
      var h :| h in hrefs && l == BaseUrl + h;
      assert h == relative || h == absolute;
    }
    assert NewsLinks(hrefs) == {BaseUrl + relative, BaseUrl + absolute};
    assert BaseUrl + absolute == BaseUrl + BaseUrl + "news.jsf?id=42";
  }

  /** What `get_news_links` returns for a fetch outcome: the news links of a page that came
      back with status 200, and the empty set for any other status or a failed request. */
  function ListingLinks(listing: Fetched<Node>): (links: set<string>)
    ensures listing.Failed? || listing.status != Ok ==> links == {}
    ensures forall l :: l in links ==> StartsWith(l, BaseUrl) && Contains(l, NewsMarker)
  {
    match listing
    case Failed => {}
    case Response(status, doc) =>
      NewsLinksShape(AnchorHrefs(Descendants(doc)));
      if status == Ok then NewsLinks(AnchorHrefs(Descendants(doc))) else {}
  }

  /** pgrp.py:103-121, the loop that collects the listing's news links into a set. */
  method GetNewsLinks(listing: Fetched<Node>) returns (links: set<string>)
    ensures links == ListingLinks(listing)
  {
    links := {};
    if listing.Failed? || listing.status != Ok {
      return;
    }
    var anchors := AnchorHrefs(Descendants(listing.body));
    for i := 0 to |anchors|
      invariant links == NewsLinks(anchors[..i])
    {
      if Contains(anchors[i], NewsMarker) {
        links := links + {BaseUrl + anchors[i]};
      }
      assert anchors[..i + 1] == anchors[..i] + [anchors[i]];
    }
    assert anchors[..|anchors|] == anchors;
  }

  // ----- The body of an article: extract_text_ordered -----

  /** The `- ` lines of list items: one per item, in order. */
  function Bullets(items: seq<Node>): seq<string> {
    if items == [] then [] else ["- " + GetText(items[0])] + Bullets(items[1..])
  }

  lemma {:induction false} BulletsAt(items: seq<Node>)
    ensures |Bullets(items)| == |items|
    ensures forall k :: 0 <= k < |items| ==> Bullets(items)[k] == "- " + GetText(items[k])
  {
    if items != [] {
      var tail := Bullets(items[1..]);
      BulletsAt(items[1..]);
      assert Bullets(items) == ["- " + GetText(items[0])] + tail;
      forall k | 0 < k < |items| ensures Bullets(items)[k] == "- " + GetText(items[k]) {
        assert Bullets(items)[k] == tail[k - 1];
        assert items[1..][k - 1] == items[k];
      }
    }
  }

  lemma {:induction false} BulletsAppend(a: seq<Node>, b: seq<Node>)
    ensures Bullets(a + b) == Bullets(a) + Bullets(b)
  {
    if a == [] {
      assert a + b == b;
    } else {
      assert (a + b)[0] == a[0];
      assert (a + b)[1..] == a[1..] + b;
      BulletsAppend(a[1..], b);
    }
  }

  /** The lines one direct child of the body container contributes: a `div` its text, a
      `ul` or `ol` its item lines, anything else (a `p`, a bare string) nothing. */
  function ChildLines(n: Node): seq<string> {
    if IsElementNamed(n, "div") then [GetText(n)]
    else if IsElementNamed(n, "ul") || IsElementNamed(n, "ol") then Bullets(WithNames(n.children, {"li"}))
    else []
  }

  function BodyLines(cs: seq<Node>): seq<string> {
    if cs == [] then [] else ChildLines(cs[0]) + BodyLines(cs[1..])
  }

  /** The lines follow the document order of the children: the lines of a run of children
      are the lines of its first part followed by those of the rest. */
  lemma {:induction false} BodyLinesAppend(a: seq<Node>, b: seq<Node>)
    ensures BodyLines(a + b) == BodyLines(a) + BodyLines(b)
  {
    if a == [] {
      assert a + b == b;
    } else {
      assert (a + b)[0] == a[0];
      assert (a + b)[1..] == a[1..] + b;
      BodyLinesAppend(a[1..], b);
    }
  }

  /** A list child gives exactly one line per direct `li` child, each the item's stripped
      text behind `- `; deeper `li` tags are only part of their item's text. */
  lemma ListLines(n: Node)
    requires IsElementNamed(n, "ul") || IsElementNamed(n, "ol")
    ensures var items := WithNames(n.children, {"li"});
            |ChildLines(n)| == |items|
            && forall k :: 0 <= k < |items| ==>
                 ChildLines(n)[k] == "- " + GetText(items[k])
                 && items[k] in n.children && IsElementNamed(items[k], "li")
  {
    var items := WithNames(n.children, {"li"});
    BulletsAt(items);
    WithNamesSpec(n.children, {"li"});
    forall k | 0 <= k < |items| ensures items[k] in n.children && IsElementNamed(items[k], "li") {
      assert items[k] in items;
    }
  }

  /** Every line is trimmed text, with `- ` in front of it for a list item. */
  lemma {:induction false} LinesAreStripped(cs: seq<Node>)
    ensures forall line :: line in BodyLines(cs) ==>
              Unpadded(line) || (StartsWith(line, "- ") && Unpadded(line[2..]))
  {
    if cs != [] {
      LinesAreStripped(cs[1..]);
      var first := ChildLines(cs[0]);
      forall line | line in first
        ensures Unpadded(line) || (StartsWith(line, "- ") && Unpadded(line[2..]))
      {
        if IsElementNamed(cs[0], "div") {
          GetTextUnpadded(cs[0]);
        } else if IsElementNamed(cs[0], "ul") || IsElementNamed(cs[0], "ol") {
          var items := WithNames(cs[0].children, {"li"});
          ListLines(cs[0]);
          var k :| 0 <= k < |items| && line == "- " + GetText(items[k]);
          assert line[2..] == GetText(items[k]);
          GetTextUnpadded(items[k]);
        }
      }
    }
  }

  /** pgrp.py:145-156: walks the direct children of the container, appending lines as it
      goes, and joins them with newlines. */
  method ExtractTextOrdered(container: Node) returns (text: string)
    requires container.Element?
    ensures text == Join(BodyLines(container.children), "\n")
  {
    var children := container.children;
    var content: seq<string> := [];
    for i := 0 to |children|
      invariant content == BodyLines(children[..i])
    {
      var element := children[i];
      BodyLinesStep(children, i);
      if IsElementNamed(element, "div") {
        content := content + [GetText(element)];
      } else if IsElementNamed(element, "ul") || IsElementNamed(element, "ol") {
        // Both list kinds get the same treatment: one line per direct `li` child.
        var lines := ItemLines(WithNames(element.children, {"li"}));
        content := content + lines;
      }
    }
    assert children[..|children|] == children;
    text := Join(content, "\n");
  }

  /** The inner loop of pgrp.py:151-153: one `- ` line per item, in order. */
  method ItemLines(items: seq<Node>) returns (lines: seq<string>)
    ensures lines == Bullets(items)
  {
    lines := [];
    for j := 0 to |items|
      invariant lines == Bullets(items[..j])
    {
      BulletsStep(items, j);
      lines := lines + ["- " + GetText(items[j])];
    }
    assert items[..|items|] == items;
  }

  lemma BodyLinesStep(cs: seq<Node>, i: nat)
    requires i < |cs|
    ensures BodyLines(cs[..i + 1]) == BodyLines(cs[..i]) + ChildLines(cs[i])
  {
    assert cs[..i + 1] == cs[..i] + [cs[i]];
    BodyLinesAppend(cs[..i], [cs[i]]);
    assert BodyLines([cs[i]]) == ChildLines(cs[i]) + BodyLines([]);
  }

  lemma BulletsStep(items: seq<Node>, j: nat)
    requires j < |items|
    ensures Bullets(items[..j + 1]) == Bullets(items[..j]) + ["- " + GetText(items[j])]
  {
    assert items[..j + 1] == items[..j] + [items[j]];
    BulletsAppend(items[..j], [items[j]]);
    assert Bullets([items[j]]) == ["- " + GetText(items[j])] + Bullets([]);
  }

  /** The lines of three children are the lines of each, in order. */
  lemma BodyLinesOfThree(x: Node, y: Node, z: Node)
    ensures BodyLines([x, y, z]) == ChildLines(x) + ChildLines(y) + ChildLines(z)
  {
    assert [x, y, z][1..] == [y, z];
    assert [y, z][1..] == [z];
    assert BodyLines([z]) == ChildLines(z) + BodyLines([]);
  }

  lemma SingleTextChild(name: string, t: string)
    ensures GetText(Element(name, [], None, [Text(t)])) == Strip(t)
  {
    assert GetTextAll([Text(t)]) == Strip(t) + GetTextAll([]);
  }

  /** A list gives one line per `li` child; a string between the items gives none. */
  lemma TwoItemList(one: string, between: string, two: string)
    ensures ChildLines(Element("ul", [], None, [ Element("li", [], None, [Text(one)]),
                                                 Text(between),
                                                 Element("li", [], None, [Text(two)]) ]))
            == ["- " + Strip(one), "- " + Strip(two)]
  {
    var first := Element("li", [], None, [Text(one)]);
    var second := Element("li", [], None, [Text(two)]);
    var list := Element("ul", [], None, [first, Text(between), second]);
    ItemsAroundText(first, between, second);
    TwoBullets(first, second);
    SingleTextChild("li", one);
    SingleTextChild("li", two);
    assert ChildLines(list) == Bullets([first, second]);
  }

  lemma ItemsAroundText(first: Node, between: string, second: Node)
    requires IsElementNamed(first, "li") && IsElementNamed(second, "li")
    ensures WithNames([first, Text(between), second], {"li"}) == [first, second]
  {
    var li := {"li"};
    assert WithNames([second], li) == [second] + WithNames([], li);
    assert WithNames([Text(between), second], li) == WithNames([second], li) by {
      assert [Text(between), second][1..] == [second];
    }
    assert [first, Text(between), second][1..] == [Text(between), second];
  }

  lemma TwoBullets(x: Node, y: Node)
    ensures Bullets([x, y]) == ["- " + GetText(x), "- " + GetText(y)]
  {
    assert Bullets([y]) == ["- " + GetText(y)] + Bullets([]);
    assert [x, y][1..] == [y];
  }

  /** A list item nested in another one is part of the outer item's text, not a line. */
  lemma NestedItemList(a: string, b: string)
    ensures ChildLines(Element("ol", [], None, [ Element("li", [], None, [
              Text(a), Element("ul", [], None, [Element("li", [], None, [Text(b)])]) ]) ]))
            == ["- " + (Strip(a) + Strip(b))]
  {
    var nested := Element("li", [], None, [Text(b)]);
    var inner := Element("ul", [], None, [nested]);
    var outer := Element("li", [], None, [Text(a), inner]);
    var list := Element("ol", [], None, [outer]);
    SingleTextChild("li", b);
    assert GetText(inner) == Strip(b) by {
      assert GetTextAll([nested]) == GetText(nested) + GetTextAll([]);
    }
    assert GetText(outer) == Strip(a) + Strip(b) by {
      assert [Text(a), inner][1..] == [inner];
      assert GetTextAll([inner]) == GetText(inner) + GetTextAll([]);
      assert GetTextAll([Text(a), inner]) == Strip(a) + GetTextAll([inner]);
    }
    assert WithNames(list.children, {"li"}) == [outer] by {
      assert WithNames([outer], {"li"}) == [outer] + WithNames([], {"li"});
    }
    ListLines(list);
  }

  /** A paragraph directly in the container and a bare string are dropped, and a list item
      nested inside another one does not become a line of its own: it is part of the outer
      item's text. */
  lemma DroppedChildren(para: string, a: string, b: string, loose: string)
    ensures BodyLines([ Element("p", [], None, [Text(para)]),
                        Element("ol", [], None, [ Element("li", [], None, [
                          Text(a), Element("ul", [], None, [Element("li", [], None, [Text(b)])]) ]) ]),
                        Text(loose) ])
            == ["- " + (Strip(a) + Strip(b))]
  {
    NestedItemList(a, b);
    BodyLinesOfThree(Element("p", [], None, [Text(para)]),
                     Element("ol", [], None, [ Element("li", [], None, [
                       Text(a), Element("ul", [], None, [Element("li", [], None, [Text(b)])]) ]) ]),
                     Text(loose));
  }

  // ----- The detail page: get_article_content -----

  datatype Article = Article(title: string, summary: string, body: string)

  predicate NoDivWithClass(doc: Node, cls: string) {
    forall d :: d in Descendants(doc) ==> !HasClass(d, "div", cls)
  }

  /** pgrp.py:176-178: the stripped text of every `p` and every `div` below the summary
      container, in document order, joined by single spaces. A `div` and a `p` inside it
      are both selected, so the paragraph's text is taken once for each. */
  function SummaryText(e: Node): string {
    Join(Texts(WithNames(Descendants(e), {"p", "div"})), " ")
  }

  /** A summary container wrapping its paragraph in an inner `div` repeats the paragraph:
      the inner `div` and the `p` both yield its stripped text. */
  lemma NestedSummary(classes: seq<string>, t: string)
    ensures SummaryText(Element("div", classes, None,
                                [Element("div", [], None, [Element("p", [], None, [Text(t)])])]))
            == Strip(t) + " " + Strip(t)
  {
    var leaf := Text(t);
    var p := Element("p", [], None, [leaf]);
    var inner := Element("div", [], None, [p]);
    var e := Element("div", classes, None, [inner]);
    DescendantsOfOnlyChild(leaf);
    DescendantsOfOnlyChild(p);
    DescendantsOfOnlyChild(inner);
    assert Descendants(e) == [inner, p, leaf];
    var names := {"p", "div"};
    assert [leaf][1..] == [];
    assert WithNames([leaf], names) == [];
    assert [p, leaf][1..] == [leaf];
    assert p.name in names;
    assert WithNames([p, leaf], names) == [p];
    assert [inner, p, leaf][1..] == [p, leaf];
    assert inner.name in names;
    assert WithNames([inner, p, leaf], names) == [inner, p];
    GetTextOfOnlyChild(leaf);
    GetTextOfOnlyChild(p);
    assert Texts([inner, p]) == [Strip(t), Strip(t)];
    var x := Strip(t);
    assert [x, x][1..] == [x];
    assert Join([x, x], " ") == x + " " + x;
    assert SummaryText(e) == Join([x, x], " ");
  }

  /** pgrp.py:173-180: title, summary and body of a detail page. Each comes from the first
      `div` carrying its class; a missing one gives its placeholder, never an error. */
  function ExtractArticle(doc: Node): (a: Article)
    ensures NoDivWithClass(doc, TitleClass) ==> a.title == NoTitle
    ensures NoDivWithClass(doc, SummaryClass) ==> a.summary == NoSummary
    ensures NoDivWithClass(doc, BodyClass) ==> a.body == NoBody
    ensures Find(doc, "div", TitleClass).Some? ==>
              a.title == GetText(Find(doc, "div", TitleClass).value)
    ensures Find(doc, "div", SummaryClass).Some? ==>
              a.summary == SummaryText(Find(doc, "div", SummaryClass).value)
    ensures Find(doc, "div", BodyClass).Some? ==>
              a.body == Join(BodyLines(Find(doc, "div", BodyClass).value.children), "\n")
    ensures Unpadded(a.title)
  {
    var title := match Find(doc, "div", TitleClass)
      case None => NoTitle
      case Some(e) => (GetTextUnpadded(e); GetText(e));
    var summary := match Find(doc, "div", SummaryClass)
      case None => NoSummary
      case Some(e) => SummaryText(e);
    var body := match Find(doc, "div", BodyClass)
      case None => NoBody
      case Some(e) => Join(BodyLines(e.children), "\n");
    assert Unpadded(NoTitle);
    Article(title, summary, body)
  }

  /** The f-string of pgrp.py:182-186: each field on a line of its own behind eight spaces,
      with a blank line after the title and after the summary. */
  function Render(a: Article): string {
    "\n"
    + (Indent + a.title + "\n"
    + ("\n"
    + (Indent + a.summary + "\n"
    + ("\n"
    + (Indent + a.body + "\n" + Indent)))))
  }

  /** Read line by line, a rendered article is an empty line, the indented title, a blank
      line, the indented summary, a blank line, then the lines of the indented body and a
      last line holding only the indent. */
  lemma RenderLines(a: Article)
    requires Avoids(a.title, {'\n'}) && Avoids(a.summary, {'\n'})
    ensures Split(Render(a), {'\n'})
            == ["", Indent + a.title, "", Indent + a.summary, ""]
               + Split(Indent + a.body, {'\n'}) + [Indent]
  {
    var nl := {'\n'};
    var r5 := Indent + a.body + "\n" + Indent;
    var r4 := "\n" + r5;
    var r3 := Indent + a.summary + "\n" + r4;
    var r2 := "\n" + r3;
    var r1 := Indent + a.title + "\n" + r2;
    assert Avoids(Indent, nl);
    AvoidsConcat(Indent, a.title, nl);
    AvoidsConcat(Indent, a.summary, nl);
    SplitAvoiding(Indent, nl);
    assert r5 == (Indent + a.body) + ['\n'] + Indent;
    SplitAround(Indent + a.body, '\n', Indent, nl);
    assert r4 == "" + "\n" + r5;
    SplitLine("", r5, nl);
    SplitLine(Indent + a.summary, r4, nl);
    assert r2 == "" + "\n" + r3;
    SplitLine("", r3, nl);
    SplitLine(Indent + a.title, r2, nl);
    assert Render(a) == "" + "\n" + r1;
    SplitLine("", r1, nl);
    var rest := Split(Indent + a.body, nl) + [Indent];
    PrependFive(["", Indent + a.title, "", Indent + a.summary, ""], rest);
  }

  lemma RenderStartsWithNewline(a: Article)
    ensures StartsWith(Render(a), "\n" + Indent)
  {
    var rest := a.title + "\n" + ("\n" + (Indent + a.summary + "\n" + ("\n" + (Indent + a.body + "\n" + Indent))));
    assert Render(a) == ("\n" + Indent) + rest;
  }

  /** What `get_article_content` returns: the rendered article for a page that came back
      with status 200, otherwise one of two error strings, which cannot be mistaken for an
      article since only an article starts with a newline. */
  function ArticleContent(page: Fetched<Node>): (r: string)
    ensures page.Failed? ==> r == ProcessingError
    ensures page.Response? && page.status != Ok ==> r == AccessError
    ensures page.Response? && page.status == Ok <==> StartsWith(r, "\n" + Indent)
    ensures page.Response? && page.status == Ok ==> r == Render(ExtractArticle(page.body))
  {
    assert ProcessingError[0] != '\n' && AccessError[0] != '\n';
    match page
    case Failed => ProcessingError
    case Response(status, doc) =>
      if status != Ok then AccessError
      else
        RenderStartsWithNewline(ExtractArticle(doc));
        Render(ExtractArticle(doc))
  }

  /** pgrp.py:164-191 as a procedure: the body goes through `ExtractTextOrdered`. */
  method GetArticleContent(page: Fetched<Node>) returns (content: string)
    ensures content == ArticleContent(page)
  {
    if page.Failed? {
      return ProcessingError;
    }
    if page.status != Ok {
      return AccessError;
    }
    var doc := page.body;
    var a := ExtractArticle(doc);
    var body := NoBody;
    var container := Find(doc, "div", BodyClass);
    if container.Some? {
      body := ExtractTextOrdered(container.value);
    }
    content := Render(Article(a.title, a.summary, body));
  }

  // ----- Notification: send_email_notification -----

  /** The mail pgrp.py:126-134 sends for one article. */
  function NotificationText(sender: string, recipient: string, content: string): string {
    Mail.MailText(sender, recipient, Subject, content)
  }

  /** The mail carries the fixed subject and the article text unchanged. */
  lemma NotificationParses(sender: string, recipient: string, content: string)
    requires Avoids(sender, {'\n'}) && Avoids(recipient, {'\n'})
    ensures Mail.ParseMail(NotificationText(sender, recipient, content))
            == Some(Mail.Message(Mail.HeaderLines(sender, recipient, Subject), content))
  {
    assert Avoids(Subject, {'\n'});
    Mail.MailRoundTrip(sender, recipient, Subject, content);
  }

  // ----- The seen-links table and one run: monitor_news -----

  /** The `link` column of `seen_links_pgrp`, oldest row first. The UNIQUE constraint is
      the invariant: no link appears twice. */
  class SeenStore {
    var rows: seq<string>

    ghost predicate Valid()
      reads this
    {
      forall i, j :: 0 <= i < j < |rows| ==> rows[i] != rows[j]
    }

    /** `initialize_db` on a missing database: an empty table. */
    constructor ()
      ensures Valid() && rows == []
    {
      rows := [];
    }

    /** The set `SELECT link FROM seen_links_pgrp` yields (pgrp.py:88-89). Thanks to the
        UNIQUE constraint it has as many elements as the table has rows. */
    function Load(): (links: set<string>)
      reads this
      requires Valid()
      ensures |links| == |rows|
      ensures forall l :: l in links <==> l in rows
    {
      DistinctCardinality(rows);
      set l | l in rows
    }

    /** pgrp.py:94-100: one `INSERT OR IGNORE` per link. Links already present are skipped,
        the others are appended; the rows already there keep their place. */
    method Save(newLinks: set<string>)
      requires Valid()
      modifies this
      ensures Valid()
      ensures Load() == old(Load()) + newLinks
      ensures old(rows) <= rows
      ensures forall k :: |old(rows)| <= k < |rows| ==> rows[k] in newLinks && rows[k] !in old(rows)
      ensures newLinks <= old(Load()) ==> rows == old(rows)
    {
      var pending := newLinks;
      while pending != {}
        invariant Valid()
        invariant pending <= newLinks
        invariant old(rows) <= rows
        invariant forall l :: l in rows <==> l in old(rows) || l in newLinks - pending
        invariant forall k :: |old(rows)| <= k < |rows| ==> rows[k] in newLinks && rows[k] !in old(rows)
        decreases pending
      {
        var link :| link in pending;
        InsertOrIgnore(link);
        pending := pending - {link};
      }
      if newLinks <= old(Load()) {
        // Nothing new: the table holds as many links as before, so no row was appended.
        assert Load() == old(Load());
        PrefixOfSameLength(old(rows), rows);
      }
    }

    /** One `INSERT OR IGNORE` (pgrp.py:97): a link already in the table is skipped, a new
        one becomes the last row. */
    method InsertOrIgnore(link: string)
      requires Valid()
      modifies this
      ensures Valid()
      ensures rows == if link in old(rows) then old(rows) else old(rows) + [link]
    {
      if link !in rows {
        rows := rows + [link];
      }
    }
  }

  lemma PrefixOfSameLength(before: seq<string>, after: seq<string>)
    requires before <= after && |after| == |before|
    ensures after == before
  {
    assert after[..|before|] == before;
  }

  lemma {:induction false} DistinctCardinality(s: seq<string>)
    requires forall i, j :: 0 <= i < j < |s| ==> s[i] != s[j]
    ensures |set l | l in s| == |s|
  {
    if s != [] {
      var init := s[..|s| - 1];
      DistinctCardinality(init);
      assert (set l | l in s) == (set l | l in init) + {s[|s| - 1]};
      assert s[|s| - 1] !in init;
    }
  }

  /** pgrp.py:206: the links of the listing not seen before. They share nothing with the
      seen set, and adding them to it is the same as adding the whole listing. */
  function NewLinks(current: set<string>, seen: set<string>): (r: set<string>)
    ensures r !! seen && r <= current
    ensures seen + r == seen + current
  {
    current - seen
  }

  /** One mail handed to the mail relay for one link. */
  datatype Notification = Notification(link: string, message: string)

  /** Each link of `links` is notified exactly once, and nothing else is. */
  predicate NotifiesEachOnce(outbox: seq<Notification>, links: set<string>) {
    (forall i, j :: 0 <= i < j < |outbox| ==> outbox[i].link != outbox[j].link)
    && (set n | n in outbox :: n.link) == links
  }

  /** Notifying one more link that was not yet notified keeps every link notified once. */
  lemma NotifyStep(outbox: seq<Notification>, done: set<string>, n: Notification)
    requires NotifiesEachOnce(outbox, done) && n.link !in done
    ensures NotifiesEachOnce(outbox + [n], done + {n.link})
  {
    forall i | 0 <= i < |outbox| ensures outbox[i].link != n.link {
      assert outbox[i] in outbox;
    }
    assert (set m | m in outbox + [n] :: m.link) == (set m | m in outbox :: m.link) + {n.link};
  }

  /** One mail per link: the outbox is exactly as long as the set of links it notifies. */
  lemma {:induction false} OneMailPerLink(outbox: seq<Notification>, links: set<string>)
    requires NotifiesEachOnce(outbox, links)
    ensures |outbox| == |links|
  {
    if outbox != [] {
      var init := outbox[..|outbox| - 1];
      var last := outbox[|outbox| - 1];
      var initLinks := set m | m in init :: m.link;
      assert outbox == init + [last];
      assert (set m | m in outbox :: m.link) == initLinks + {last.link};
      forall m | m in init ensures m.link != last.link {
        var i :| 0 <= i < |init| && init[i] == m;
        assert outbox[i] == m;
      }
      OneMailPerLink(init, initLinks);
    }
  }

  /** pgrp.py:193-219, one run over a loaded table. The listing and every detail page are
      fetch outcomes given as inputs; the mail relay is the returned outbox, in the order the
      new links were visited. Every new link gets one mail attempt and all of them are then
      inserted, whether or not a mail went through; a run with no new link saves nothing. */
  method MonitorNews(store: SeenStore, listing: Fetched<Node>, detail: string -> Fetched<Node>,
                     sender: string, recipient: string)
    returns (outbox: seq<Notification>)
    requires store.Valid()
    modifies store
    ensures store.Valid()
    ensures NotifiesEachOnce(outbox, ListingLinks(listing) - old(store.Load()))
    ensures forall n :: n in outbox ==>
              n.message == NotificationText(sender, recipient, ArticleContent(detail(n.link)))
    ensures store.Load() == old(store.Load()) + ListingLinks(listing)
    ensures ListingLinks(listing) <= old(store.Load()) ==> store.rows == old(store.rows)
  {
    var seen := store.Load();
    var current := GetNewsLinks(listing);
    var newLinks := NewLinks(current, seen);
    outbox := [];
    if newLinks != {} {
      outbox := NotifyAll(newLinks, detail, sender, recipient);
      store.Save(newLinks);
    } else {
      assert (set n | n in outbox :: n.link) == {};
    }
  }

  /** pgrp.py:209-215: one mail per new link, in the order the set is visited. */
  method NotifyAll(newLinks: set<string>, detail: string -> Fetched<Node>,
                   sender: string, recipient: string)
    returns (outbox: seq<Notification>)
    ensures NotifiesEachOnce(outbox, newLinks)
    ensures forall n :: n in outbox ==>
              n.message == NotificationText(sender, recipient, ArticleContent(detail(n.link)))
  {
    outbox := [];
    var pending := newLinks;
    while pending != {}
      invariant pending <= newLinks
      invariant NotifiesEachOnce(outbox, newLinks - pending)
      invariant forall n :: n in outbox ==>
                  n.message == NotificationText(sender, recipient, ArticleContent(detail(n.link)))
      decreases pending
    {
      var link :| link in pending;
      var content := GetArticleContent(detail(link));
      var n := Notification(link, NotificationText(sender, recipient, content));
      NotifyStep(outbox, newLinks - pending, n);
      assert (newLinks - pending) + {link} == newLinks - (pending - {link});
      outbox := outbox + [n];
      pending := pending - {link};
    }
    assert newLinks - pending == newLinks;
  }

  /** Running twice on an unchanged listing: the second run sends nothing and leaves the
      table as the first run left it. */
  method RunTwice(store: SeenStore, listing: Fetched<Node>, detail: string -> Fetched<Node>,
                  sender: string, recipient: string)
    returns (first: seq<Notification>, second: seq<Notification>)
    requires store.Valid()
    modifies store
    ensures store.Valid()
    ensures NotifiesEachOnce(first, ListingLinks(listing) - old(store.Load()))
    ensures second == []
    ensures store.Load() == old(store.Load()) + ListingLinks(listing)
  {
    first := MonitorNews(store, listing, detail, sender, recipient);
    ghost var between := store.rows;
    second := MonitorNews(store, listing, detail, sender, recipient);
    assert ListingLinks(listing) - store.Load() == {};
    OneMailPerLink(second, {});
    assert store.rows == between;
  }
}
