/** Model of monitor_pgrp.py: the helpers of a file-based monitor, which keeps seen links in
    the text file `seen_links.txt`, one per line. They load and save that file, fetch the
    text of an article's paragraphs and build the mail text; nothing here calls them. */
module MonitorPgrp {
  import opened Wrappers
  import opened Strings
  import opened Http
  import opened Markup
  import Mail

  /** What a relative article URL is put behind. */
  const SiteRoot := "https://www.pgdporto.pt/"
  const Subject := "Nova notícia detectada!"
  const AccessError := "Erro ao acessar a notícia."
  const ProcessingError := "Erro ao processar a notícia."
  /** The characters that end a line once the file is read in text mode: `"\r\n"` and a lone
      `"\r"` both become `"\n"`. */
  const LineBreaks: set<char> := {'\n', '\r'}

  // ----- Loading: load_seen_links -----

  /** monitor_pgrp.py:22-30. `file` is the file's text, None when it does not exist. A
      missing or empty file gives the empty set; otherwise every line, stripped, that is not
      blank. */
  function LoadSeenLinks(file: Option<string>): (links: set<string>)
    ensures file.None? || file == Some("") ==> links == {}
    ensures forall l :: l in links ==> l != "" && Unpadded(l)
    ensures file.Some? ==>
              forall line :: line in Split(file.value, LineBreaks) && !AllSpace(line) ==> Strip(line) in links
    ensures file.Some? ==>
              forall l :: l in links ==> exists line :: line in Split(file.value, LineBreaks) && Strip(line) == l
  {
    StripSpecAll();
    match file
    case None => {}
    case Some(text) =>
      if text == "" then {}
      else set line | line in Split(text, LineBreaks) && Strip(line) != "" :: Strip(line)
  }

  // ----- Which links are kept: the filter of save_seen_links -----

  /** `str.isdigit`, restricted to the ASCII digits. */
  predicate IsDigit(c: char) {
    '0' <= c <= '9'
  }

  predicate IsDigits(s: string) {
    |s| > 0 && forall k :: 0 <= k < |s| ==> IsDigit(s[k])
  }

  /** `s.split(c)[-1]`: the part of `s` after its last `c`, or all of `s` when it holds no
      `c`. It is a suffix of `s` free of `c`, and when it is shorter than `s` a `c` stands
      right before it. */
  function LastField(s: string, c: char): (r: string)
    ensures EndsWith(s, r) && Avoids(r, {c})
    ensures |r| < |s| ==> s[|s| - |r| - 1] == c
  {
    var parts := Split(s, {c});
    SplitLast(s, {c});
    SplitPartsAvoid(s, {c});
    parts[|parts| - 1]
  }

  /** The last piece of a split is what follows the last separator. */
  lemma {:induction false} SplitLast(s: string, seps: set<char>)
    ensures var parts := Split(s, seps);
            var r := parts[|parts| - 1];
            EndsWith(s, r)
            && (|parts| == 1 ==> r == s)
            && (|parts| > 1 ==> |r| < |s| && s[|s| - |r| - 1] in seps)
  {
    if s != [] {
      var rest := Split(s[1..], seps);
      var r := rest[|rest| - 1];
      SplitLast(s[1..], seps);
      SuffixOfTail(s, r);
      if s[0] in seps {
        SplitAtSeparator(s, seps);
      } else {
        SplitAtOther(s, seps);
      }
    }
  }

  /** A suffix of the tail is a suffix of the whole; the character before it is the same
      in both, or the first character when the suffix is the whole tail. */
  lemma SuffixOfTail(s: string, r: string)
    requires s != [] && EndsWith(s[1..], r)
    ensures EndsWith(s, r)
    ensures |r| < |s| - 1 ==> s[|s| - |r| - 1] == s[1..][|s| - 1 - |r| - 1]
    ensures |r| == |s| - 1 ==> s == [s[0]] + r
  {
    assert s[|s| - |r|..] == s[1..][|s| - 1 - |r|..];
    if |r| == |s| - 1 {
      assert [s[0]] + s[1..] == s;
    }
  }

  /** A leading separator opens an empty first piece and leaves the last piece alone. */
  lemma SplitAtSeparator(s: string, seps: set<char>)
    requires s != [] && s[0] in seps
    ensures var parts := Split(s, seps);
            var rest := Split(s[1..], seps);
            |parts| == |rest| + 1 && parts[|parts| - 1] == rest[|rest| - 1]
  {
    assert Split(s, seps) == [""] + Split(s[1..], seps);
  }

  /** Any other leading character joins the first piece: the last piece is unaffected
      unless it is the only one. */
  lemma SplitAtOther(s: string, seps: set<char>)
    requires s != [] && s[0] !in seps
    ensures var parts := Split(s, seps);
            var rest := Split(s[1..], seps);
            |parts| == |rest|
            && (|rest| > 1 ==> parts[|parts| - 1] == rest[|rest| - 1])
            && (|rest| == 1 ==> parts[0] == [s[0]] + rest[0])
  {
    var rest := Split(s[1..], seps);
    assert Split(s, seps) == [[s[0]] + rest[0]] + rest[1..];
  }

  /** monitor_pgrp.py:37: the link holds an `=` and what follows its last `=` is a
      non-empty run of digits. */
  predicate IsValidLink(l: string) {
    '=' in l && IsDigits(LastField(l, '='))
  }

  /** The list comprehension of monitor_pgrp.py:37: the valid links, in their order. */
  function ValidLinks(ls: seq<string>): (r: seq<string>)
    ensures forall l :: l in r <==> l in ls && IsValidLink(l)
    ensures forall k :: 0 <= k < |r| ==> IsValidLink(r[k])
  {
    if ls == [] then []
    else (if IsValidLink(ls[0]) then [ls[0]] else []) + ValidLinks(ls[1..])
  }

  // ----- The sort key: int(x.split('=')[-1]) -----

  function DigitValue(c: char): nat
    requires IsDigit(c)
  {
    (c as int) - ('0' as int)
  }

  /** Python's `int` on a string of decimal digits. */
  function DecimalValue(s: string): nat
    requires forall k :: 0 <= k < |s| ==> IsDigit(s[k])
  {
    if s == [] then 0 else DecimalValue(s[..|s| - 1]) * 10 + DigitValue(s[|s| - 1])
  }

  /** The decimal digits of `n`, without leading zeros. */
  function Digits(n: nat): (r: string)
    ensures IsDigits(r)
  {
    var last := ('0' as int + n % 10) as char;
    if n < 10 then [last] else Digits(n / 10) + [last]
  }

  /** `int` reads back every number from its digits. */
  lemma {:induction false} DecimalValueOfDigits(n: nat)
    ensures DecimalValue(Digits(n)) == n
  {
    var d := Digits(n);
    if n >= 10 {
      DecimalValueOfDigits(n / 10);
      assert d[..|d| - 1] == Digits(n / 10);
    }
  }

  /** The number after the last `=` of a valid link. */
  function Key(l: string): nat
    requires IsValidLink(l)
  {
    DecimalValue(LastField(l, '='))
  }

  // ----- The order: sorted(valid_links, key=Key, reverse=True) -----

  /** A link with its sort key; `sorted` computes every key once, before it compares. */
  datatype Entry = Entry(link: string, key: nat)

  function Decorate(ls: seq<string>): (r: seq<Entry>)
    requires forall k :: 0 <= k < |ls| ==> IsValidLink(ls[k])
    ensures |r| == |ls|
    ensures forall k :: 0 <= k < |ls| ==> r[k].link == ls[k] && r[k].key == Key(ls[k])
  {
    if ls == [] then [] else [Entry(ls[0], Key(ls[0]))] + Decorate(ls[1..])
  }

  function LinksOf(es: seq<Entry>): (r: seq<string>)
    ensures |r| == |es| && forall k :: 0 <= k < |es| ==> r[k] == es[k].link
  {
    if es == [] then [] else [es[0].link] + LinksOf(es[1..])
  }

  predicate SortedDesc(es: seq<Entry>) {
    forall i, j :: 0 <= i < j < |es| ==> es[i].key >= es[j].key
  }

  /** Puts `x` before the first entry whose key is not greater than its own. */
  function Insert(x: Entry, es: seq<Entry>): seq<Entry> {
    if es == [] then [x]
    else if x.key >= es[0].key then [x] + es
    else [es[0]] + Insert(x, es[1..])
  }

  /** Inserting adds `x` and loses nothing. */
  lemma {:induction false} InsertPermutes(x: Entry, es: seq<Entry>)
    ensures multiset(Insert(x, es)) == multiset(es) + multiset{x}
  {
    if es != [] && x.key < es[0].key {
      InsertPermutes(x, es[1..]);
      assert es == [es[0]] + es[1..];
    }
  }

  /** Inserting into an ordered sequence keeps it ordered. */
  lemma {:induction false} InsertKeepsOrder(x: Entry, es: seq<Entry>)
    requires SortedDesc(es)
    ensures SortedDesc(Insert(x, es))
  {
    if es == [] {
    } else if x.key >= es[0].key {
      SortedCons(x, es);
    } else {
      var t := Insert(x, es[1..]);
      assert SortedDesc(es[1..]) by {
        forall i, j | 0 <= i < j < |es[1..]| ensures es[1..][i].key >= es[1..][j].key {
          assert es[1..][i] == es[i + 1] && es[1..][j] == es[j + 1];
        }
      }
      InsertKeepsOrder(x, es[1..]);
      InsertPermutes(x, es[1..]);
      assert forall k :: 0 <= k < |es[1..]| ==> es[0].key >= es[1..][k].key by {
        forall k | 0 <= k < |es[1..]| ensures es[0].key >= es[1..][k].key {
          assert es[1..][k] == es[k + 1];
        }
      }
      HeadBoundsAll(es[0], x, es[1..], t);
      SortedCons(es[0], t);
    }
  }

  lemma SortedCons(h: Entry, t: seq<Entry>)
    requires SortedDesc(t)
    requires forall k :: 0 <= k < |t| ==> h.key >= t[k].key
    ensures SortedDesc([h] + t)
  {
    forall i, j | 0 <= i < j < |[h] + t| ensures ([h] + t)[i].key >= ([h] + t)[j].key {
      if i > 0 {
        assert ([h] + t)[i] == t[i - 1];
      }
      assert ([h] + t)[j] == t[j - 1];
    }
  }

  /** A key at least as large as that of `x` and of every entry of `rest` bounds every entry
      of a rearrangement of `rest` and `x`. */
  lemma HeadBoundsAll(h: Entry, x: Entry, rest: seq<Entry>, t: seq<Entry>)
    requires forall k :: 0 <= k < |rest| ==> h.key >= rest[k].key
    requires h.key >= x.key
    requires multiset(t) == multiset(rest) + multiset{x}
    ensures forall k :: 0 <= k < |t| ==> h.key >= t[k].key
  {
    forall k | 0 <= k < |t| ensures h.key >= t[k].key {
      assert t[k] in multiset(t);
      if t[k] != x {
        assert t[k] in multiset(rest);
        assert t[k] in rest;
      }
    }
  }

  /** `sorted(..., reverse=True)` on decorated links, as an insertion sort. */
  function SortDesc(es: seq<Entry>): seq<Entry> {
    if es == [] then [] else Insert(es[0], SortDesc(es[1..]))
  }

  /** The sort gives a permutation of its input by non-increasing key. */
  lemma {:induction false} SortDescSpec(es: seq<Entry>)
    ensures multiset(SortDesc(es)) == multiset(es)
    ensures SortedDesc(SortDesc(es))
  {
    if es != [] {
      var rest := SortDesc(es[1..]);
      SortDescSpec(es[1..]);
      InsertPermutes(es[0], rest);
      InsertKeepsOrder(es[0], rest);
      assert es == [es[0]] + es[1..];
    }
  }

  /** The entries of `es` whose key is `k`, in their order in `es`. */
  function WithKey(es: seq<Entry>, k: nat): seq<Entry> {
    if es == [] then []
    else (if es[0].key == k then [es[0]] else []) + WithKey(es[1..], k)
  }

  lemma {:induction false} InsertWithKey(x: Entry, es: seq<Entry>, k: nat)
    ensures WithKey(Insert(x, es), k) == (if x.key == k then [x] else []) + WithKey(es, k)
  {
    var own := if x.key == k then [x] else [];
    if es == [] {
      assert WithKey([x], k) == own + WithKey([], k);
    } else if x.key >= es[0].key {
      assert Insert(x, es) == [x] + es;
      assert ([x] + es)[1..] == es;
      assert WithKey([x] + es, k) == own + WithKey(es, k);
    } else {
      var t := Insert(x, es[1..]);
      var head := if es[0].key == k then [es[0]] else [];
      assert Insert(x, es) == [es[0]] + t;
      InsertWithKey(x, es[1..], k);
      assert ([es[0]] + t)[1..] == t;
      assert WithKey([es[0]] + t, k) == head + WithKey(t, k);
      assert WithKey(es, k) == head + WithKey(es[1..], k);
      // The entry kept in front has a larger key than `x`, so at most one of them has key `k`.
      if x.key == k {
        assert head == [] && own == [x];
        assert WithKey(Insert(x, es), k) == WithKey(t, k);
        assert WithKey(es, k) == WithKey(es[1..], k);
      } else {
        assert own == [];
        assert WithKey(Insert(x, es), k) == head + WithKey(es[1..], k);
      }
    }
  }

  /** The sort is stable: links with equal keys keep the order they had, so the order of
      the whole result is fixed by the order of the input. */
  lemma {:induction false} SortIsStable(es: seq<Entry>, k: nat)
    ensures WithKey(SortDesc(es), k) == WithKey(es, k)
  {
    if es != [] {
      SortIsStable(es[1..], k);
      InsertWithKey(es[0], SortDesc(es[1..]), k);
    }
  }

  /** The lines `save_seen_links` writes, in order: the valid links, highest number first,
      links with the same number in the order they were given. */
  function SortedLinks(seenLinks: seq<string>): seq<string> {
    LinksOf(SortDesc(Decorate(ValidLinks(seenLinks))))
  }

  /** The written links are exactly the valid links. */
  lemma SortedLinksAreValid(seenLinks: seq<string>)
    ensures forall l :: l in SortedLinks(seenLinks) <==> l in seenLinks && IsValidLink(l)
  {
    var valid := ValidLinks(seenLinks);
    var decorated := Decorate(valid);
    var sorted := SortDesc(decorated);
    SortDescSpec(decorated);
    assert LinksOf(decorated) == valid;
    PermutedLinks(sorted, decorated);
    PermutedLinks(decorated, sorted);
  }

  /** The written lines are a rearrangement of the valid links, in non-increasing order of
      the number after their last `=`. */
  lemma SortedLinksOrdered(seenLinks: seq<string>)
    ensures multiset(SortedLinks(seenLinks)) == multiset(ValidLinks(seenLinks))
    ensures var r := SortedLinks(seenLinks);
            forall i, j :: 0 <= i < j < |r| ==> IsValidLink(r[i]) && IsValidLink(r[j]) && Key(r[i]) >= Key(r[j])
  {
    var valid := ValidLinks(seenLinks);
    var decorated := Decorate(valid);
    var sorted := SortDesc(decorated);
    SortDescSpec(decorated);
    SortKeepsLinks(decorated);
    assert LinksOf(decorated) == valid;
    PermutedEntriesAreKeyed(decorated, sorted);
  }

  /** An entry whose key is the key of its link. */
  predicate Keyed(e: Entry) {
    IsValidLink(e.link) && e.key == Key(e.link)
  }

  /** Every entry of a rearrangement of decorated links still carries its link's key. */
  lemma PermutedEntriesAreKeyed(decorated: seq<Entry>, sorted: seq<Entry>)
    requires forall k :: 0 <= k < |decorated| ==> Keyed(decorated[k])
    requires multiset(sorted) == multiset(decorated)
    ensures forall k :: 0 <= k < |sorted| ==> Keyed(sorted[k])
  {
    forall k | 0 <= k < |sorted| ensures Keyed(sorted[k]) {
      assert sorted[k] in multiset(decorated);
      var j :| 0 <= j < |decorated| && decorated[j] == sorted[k];
    }
  }

  /** The sort moves links around and neither adds nor drops one. */
  lemma {:induction false} SortKeepsLinks(es: seq<Entry>)
    ensures multiset(LinksOf(SortDesc(es))) == multiset(LinksOf(es))
  {
    if es != [] {
      SortKeepsLinks(es[1..]);
      InsertKeepsLinks(es[0], SortDesc(es[1..]));
      assert LinksOf(es) == [es[0].link] + LinksOf(es[1..]);
    }
  }

  lemma {:induction false} InsertKeepsLinks(x: Entry, es: seq<Entry>)
    ensures multiset(LinksOf(Insert(x, es))) == multiset(LinksOf(es)) + multiset{x.link}
  {
    if es != [] && x.key < es[0].key {
      InsertKeepsLinks(x, es[1..]);
      assert LinksOf(es) == [es[0].link] + LinksOf(es[1..]);
      assert LinksOf(Insert(x, es)) == [es[0].link] + LinksOf(Insert(x, es[1..]));
    } else if es != [] {
      assert LinksOf(Insert(x, es)) == [x.link] + LinksOf(es);
    }
  }

  /** Rearranging entries rearranges their links: no link is gained. */
  lemma PermutedLinks(a: seq<Entry>, b: seq<Entry>)
    requires multiset(a) == multiset(b)
    ensures forall l :: l in LinksOf(a) ==> l in LinksOf(b)
  {
    forall l | l in LinksOf(a) ensures l in LinksOf(b) {
      var k :| 0 <= k < |a| && LinksOf(a)[k] == l;
      assert a[k] in multiset(b);
      var j :| 0 <= j < |b| && b[j] == a[k];
      assert LinksOf(b)[j] == l;
    }
  }

  // ----- Writing: the loop of save_seen_links -----

  /** The file text of `ls`: every link followed by a newline. */
  function Serialize(ls: seq<string>): (r: string)
    ensures r == "" <==> ls == []
    ensures ls != [] ==> r[|r| - 1] == '\n'
  {
    if ls == [] then "" else ls[0] + "\n" + Serialize(ls[1..])
  }

  lemma {:induction false} SerializeAppend(a: seq<string>, b: seq<string>)
    ensures Serialize(a + b) == Serialize(a) + Serialize(b)
  {
    if a == [] {
      assert a + b == b;
    } else {
      assert (a + b)[0] == a[0];
      assert (a + b)[1..] == a[1..] + b;
      SerializeAppend(a[1..], b);
    }
  }

  lemma SerializeSnoc(ls: seq<string>, i: nat)
    requires i < |ls|
    ensures Serialize(ls[..i + 1]) == Serialize(ls[..i]) + ls[i] + "\n"
  {
    assert ls[..i + 1] == ls[..i] + [ls[i]];
    SerializeAppend(ls[..i], [ls[i]]);
    assert Serialize([ls[i]]) == ls[i] + "\n" + Serialize([]);
  }

  /** Reading the written file line by line gives the links back, then the empty piece after
      the final newline. */
  lemma {:induction false} SavedLines(ls: seq<string>)
    requires forall k :: 0 <= k < |ls| ==> Avoids(ls[k], LineBreaks)
    ensures Split(Serialize(ls), LineBreaks) == ls + [""]
  {
    if ls != [] {
      SavedLines(ls[1..]);
      SplitAvoiding(ls[0], LineBreaks);
      SplitAround(ls[0], '\n', Serialize(ls[1..]), LineBreaks);
      assert ls[0] + "\n" + Serialize(ls[1..]) == ls[0] + ['\n'] + Serialize(ls[1..]);
      assert [ls[0]] + (ls[1..] + [""]) == ls + [""];
    }
  }

  /** The set of links written: loading a file written from `ls` gives back exactly the
      links of `ls`, provided none holds a line break or starts or ends with whitespace. */
  lemma LoadSerialized(ls: seq<string>)
    requires forall k :: 0 <= k < |ls| ==> ls[k] != "" && Avoids(ls[k], LineBreaks) && Unpadded(ls[k])
    ensures LoadSeenLinks(Some(Serialize(ls))) == set l | l in ls
  {
    var text := Serialize(ls);
    if ls != [] {
      SavedLines(ls);
      KeptLines(ls);
      var lines := Split(text, LineBreaks);
      assert LoadSeenLinks(Some(text)) == set line | line in lines && Strip(line) != "" :: Strip(line);
    }
  }

  /** The non-blank stripped lines of `ls` and an empty last piece are the links of `ls`. */
  lemma KeptLines(ls: seq<string>)
    requires forall k :: 0 <= k < |ls| ==> ls[k] != "" && Unpadded(ls[k])
    ensures (set line | line in ls + [""] && Strip(line) != "" :: Strip(line)) == set l | l in ls
  {
    var lines := ls + [""];
    forall l | l in ls ensures l in (set line | line in lines && Strip(line) != "" :: Strip(line)) {
      StripSpec(l);
      assert l in lines && Strip(l) == l;
    }
    forall line | line in lines && Strip(line) != "" ensures Strip(line) in ls {
      if line != "" {
        assert line in ls;
        StripSpec(line);
      }
    }
  }

  /** Round trip through the file: when every valid link is free of line breaks and of
      surrounding whitespace, loading what a save wrote gives exactly the valid links. */
  lemma LoadAfterSave(links: seq<string>)
    requires forall l :: l in links && IsValidLink(l) ==> Avoids(l, LineBreaks) && Unpadded(l)
    ensures LoadSeenLinks(Some(Serialize(SortedLinks(links))))
            == set l | l in links && IsValidLink(l)
  {
    var sorted := SortedLinks(links);
    SortedLinksAreValid(links);
    forall k | 0 <= k < |sorted|
      ensures sorted[k] != "" && Avoids(sorted[k], LineBreaks) && Unpadded(sorted[k])
    {
      assert sorted[k] in sorted;
    }
    LoadSerialized(sorted);
  }

  /** `seen_links.txt`: its text, or None while the file does not exist. */
  class SeenFile {
    var text: Option<string>

    constructor (initial: Option<string>)
      ensures text == initial
    {
      text := initial;
    }

    /** monitor_pgrp.py:34-51, with `seenLinks` the set in its iteration order. An empty set
        leaves the file as it was. Otherwise the file is overwritten with the valid links,
        highest number first, one per line; loading it back then gives the valid links. */
    method Save(seenLinks: seq<string>)
      modifies this
      ensures seenLinks == [] ==> text == old(text)
      ensures seenLinks != [] ==> text == Some(Serialize(SortedLinks(seenLinks)))
      ensures seenLinks != []
              && (forall l :: l in seenLinks && IsValidLink(l) ==> Avoids(l, LineBreaks) && Unpadded(l))
              ==> LoadSeenLinks(text) == set l | l in seenLinks && IsValidLink(l)
    {
      if seenLinks == [] {
        return;
      }
      var sorted := SortedLinks(seenLinks);
      // Opening the file for writing empties it.
      text := Some("");
      for i := 0 to |sorted|
        invariant text == Some(Serialize(sorted[..i]))
      {
        SerializeSnoc(sorted, i);
        text := Some(text.value + sorted[i] + "\n");
      }
      assert sorted[..|sorted|] == sorted;
      if forall l :: l in seenLinks && IsValidLink(l) ==> Avoids(l, LineBreaks) && Unpadded(l) {
        LoadAfterSave(seenLinks);
      }
    }
  }

  // ----- The article: get_article_content -----

  /** monitor_pgrp.py:80-81: a URL that does not start with `http` is taken as relative to
      the site root. */
  function FixUrl(url: string): (r: string)
    ensures StartsWith(r, "http")
    ensures StartsWith(url, "http") ==> r == url
    ensures !StartsWith(url, "http") ==> r == SiteRoot + url
  {
    if StartsWith(url, "http") then url
    else
      assert (SiteRoot + url)[..4] == SiteRoot[..4];
      SiteRoot + url
  }

  /** Fixing a fixed URL changes nothing. */
  lemma FixUrlIdempotent(url: string)
    ensures FixUrl(FixUrl(url)) == FixUrl(url)
  {
  }

  /** What `get_article_content` returns for the fetch outcome of the fixed URL: the texts of
      every `p` of the page joined with spaces, or one of two error strings. */
  function ArticleText(page: Fetched<Node>): (r: string)
    ensures page.Failed? ==> r == ProcessingError
    ensures page.Response? && page.status != Ok ==> r == AccessError
    ensures page.Response? && page.status == Ok && WithNames(Descendants(page.body), {"p"}) == []
            ==> r == ""
  {
    match page
    case Failed => ProcessingError
    case Response(status, doc) =>
      if status != Ok then AccessError
      else Join(RawTexts(WithNames(Descendants(doc), {"p"})), " ")
  }

  /** monitor_pgrp.py:78-93. The page is fetched at the fixed URL: `fetch` stands for the
      request. */
  method GetArticleContent(url: string, fetch: string -> Fetched<Node>) returns (content: string)
    ensures content == ArticleText(fetch(FixUrl(url)))
  {
    var target := url;
    if !StartsWith(target, "http") {
      target := SiteRoot + target;
    }
    var page := fetch(target);
    if page.Failed? {
      return ProcessingError;
    }
    if page.status != Ok {
      return AccessError;
    }
    var paragraphs := WithNames(Descendants(page.body), {"p"});
    content := Join(RawTexts(paragraphs), " ");
  }

  // ----- Notification: send_email_notification -----

  /** The mail monitor_pgrp.py:58-66 sends for one article. */
  function NotificationText(sender: string, recipient: string, content: string): string {
    Mail.MailText(sender, recipient, Subject, content)
  }

  /** The mail carries the fixed subject and the article text unchanged. */
  lemma NotificationParses(sender: string, recipient: string, content: string)
    requires Avoids(sender, {'\n'}) && Avoids(recipient, {'\n'})
    ensures Mail.ParseMail(NotificationText(sender, recipient, content))
            == Some(Mail.Message(Mail.HeaderLines(sender, recipient, Subject), content))
  {
    assert Avoids(Subject, {'\n'});
    Mail.MailRoundTrip(sender, recipient, Subject, content);
  }
}
