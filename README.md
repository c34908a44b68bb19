# PGRP news monitors: a Dafny model of the change detection

Two Python scripts deal with the news listing of the Porto regional prosecutor's office
(`https://www.pgdporto.pt/proc-web/`). `pgrp.py` watches it and mails every article it has
not reported yet; `monitor_pgrp.py` holds only the helpers of a file-based variant of that
monitor and has no run of its own.

- `pgrp.py` remembers the links it has reported in a SQLite table whose `link` column is
  UNIQUE. One run works like this:
  - it loads that table;
  - it collects the `news.jsf` links of the listing page;
  - for each link not seen before, it renders the article's title, summary and body and mails them;
  - it inserts the new links with `INSERT OR IGNORE`.
- `monitor_pgrp.py` defines four helpers and nothing that calls them: no listing fetch, no
  comparison with the seen links, no `__main__`. The helpers are:
  - `load_seen_links` reads the seen-links file and keeps its stripped, non-blank lines;
  - `save_seen_links` writes the links that end in `=<digits>`, highest number first, one per line;
  - `get_article_content` fixes up a relative article URL, fetches the page and joins the text of its paragraphs;
  - `send_email_notification` builds the mail that carries a text and sends it over SMTP.

The model covers the deterministic core of both scripts: the listing filter, the ordered body
extractor, the article assembly with its placeholders, the seen-set difference and the store
update, the flat-file load/save pair, the URL fix-up and the mail text. HTML arrives already
parsed, as a tree. A fetch is an input: either a failure or a status code with a parsed page.

Files:

| file | module | what it holds |
|---|---|---|
| `wrappers.dfy` | `Wrappers` | `Option` |
| `http.dfy` | `Http` | the outcome of a request: `Failed` or `Response(status, body)` |
| `strings.dfy` | `Strings` | Python's `strip`, `in`, `startswith`, `split`, `join`, with split/join round trips |
| `markup.dfy` | `Markup` | the parsed page, plus `get_text`, `find` and `find_all` |
| `mail.dfy` | `Mail` | the mail template shared by both scripts, and a reader that parses it back |
| `pgrp.dfy` | `Pgrp` | `pgrp.py`; the SQLite table is the class `SeenStore` |
| `monitor_pgrp.dfy` | `MonitorPgrp` | `monitor_pgrp.py`; the text file is the class `SeenFile` |

Where the imperative parts are modelled, and what specifies them:
- The loops that change state are methods with loop invariants:
  - the link collection `GetNewsLinks`;
  - `ExtractTextOrdered`;
  - the notification loop `NotifyAll`;
  - the store update `SeenStore.Save`;
  - the file write `SeenFile.Save`.
- Each of these methods is proved against a function: `ListingLinks`, `BodyLines`, `NotifiesEachOnce`, the row and set invariants of the table, and `Serialize`/`SortedLinks`.
- The properties of those functions are proved as lemmas.

Other modelling choices:
- The set that `save_seen_links` receives is a `seq` in the model, in its iteration order,
  which makes the tie order of the stable sort explicit. The loops of pgrp.py over a set
  keep the `set` and pick each element with `:|`, in an order the model leaves open.
- `readlines` followed by `strip` is modelled as a split at `'\n'` and `'\r'`, followed by
  Python's `strip`. These are the line ends of text mode with universal newlines. The extra
  empty piece that a `"\r\n"` produces is blank, so it is dropped anyway.

## Model

| member | source | states |
|---|---|---|
| Strings.StripSpec | monitor_pgrp.py:25 | `str.strip()`: the result has no whitespace at either end, it is empty exactly when the input is all whitespace, and an input without surrounding whitespace comes back unchanged |
| Markup.GetTextUnpadded | pgrp.py:149 | `get_text(strip=True)` never starts or ends with whitespace |
| Markup.FirstWithClass | pgrp.py:173 | `find`: None exactly when no node is a `div` of the class; otherwise the earliest such node in document order |
| Markup.WithNamesSpec | pgrp.py:151 | `find_all(names)`: a node is kept exactly when it is a tag with one of the names |
| Markup.WithNamesAppend | pgrp.py:151 | `find_all` keeps document order and multiplicity: the tags selected from two runs of nodes are those of the first run followed by those of the second |
| Mail.MailText | pgrp.py:126-134 | the mail template: the `From`, `To` and `Subject` headers, the fixed content type and transfer encoding, a blank line, the content, a final newline; its line structure is stated by `Mail.MailLines` |
| Mail.MailLines | pgrp.py:126-134 | when sender, recipient and subject hold no newline, the lines of the mail are the five header lines, one blank line, the content's lines, and the empty piece after the final newline |
| Mail.MailRoundTrip | monitor_pgrp.py:58-66 | reading the mail back gives exactly the five header lines and the content, whatever the content holds, when sender, recipient and subject hold no newline |
| Pgrp.AnchorHrefsMembership | pgrp.py:112 | `find_all("a", href=True)`: an href is iterated exactly when some `a` tag of the page carries it; no other tag and no `a` without an `href` contributes |
| Pgrp.NewsLinksMembership | pgrp.py:111-115 | a link is collected exactly when it is the base URL followed by an `href` of the page that contains `news.jsf`; every collected link contains `news.jsf` |
| Pgrp.AbsoluteHrefIsNotResolved | pgrp.py:114 | the prefix is plain concatenation: an absolute `href` gets the base URL a second time, so the two spellings of one article are two links |
| Pgrp.ListingLinks | pgrp.py:103-121 | `get_news_links` for a fetch outcome: the empty set for a failed request or a status other than 200; every collected link starts with the base URL and contains `news.jsf` |
| Pgrp.GetNewsLinks | pgrp.py:103-121 | the loop collects exactly the news links of a status-200 page, and the empty set on any other status or a failed request |
| Pgrp.ExtractTextOrdered | pgrp.py:145-156 | the loop over the direct children produces exactly the body lines, joined with newlines |
| Pgrp.BodyLinesAppend | pgrp.py:147 | lines follow the document order of the children: the lines of two runs of children are the lines of the first followed by those of the second |
| Pgrp.ListLines | pgrp.py:150-155 | a `ul` or `ol` child gives one line per direct `li` child, `"- "` followed by the item's stripped text, in order |
| Pgrp.ItemLines | pgrp.py:150-155 | the loop over the direct `li` children of a list gives one `"- "` line per item, in order |
| Pgrp.LinesAreStripped | pgrp.py:149-155 | every body line is stripped text, or `"- "` followed by stripped text |
| Pgrp.TwoItemList | pgrp.py:150-152 | a string between two list items gives no line |
| Pgrp.NestedItemList | pgrp.py:153-155 | an `li` nested inside an `li` is part of the outer item's text, never a line of its own |
| Pgrp.DroppedChildren | pgrp.py:147-155 | a `p` child and a bare string directly in the body give no line |
| Pgrp.ExtractArticle | pgrp.py:173-180 | a missing title, summary or body container gives `Título não encontrado.`, `Resumo não encontrado.` or `Conteúdo vazio.`, never an error; a present one gives, for the first such `div`: its stripped text as the title (never padded), `SummaryText` of it as the summary, and its body lines joined by newlines as the body |
| Pgrp.NestedSummary | pgrp.py:176-178 | `find_all(["p", "div"], recursive=True)` selects a nested `div` and the `p` inside it, so a summary whose paragraph sits in an inner `div` holds the paragraph's stripped text twice, separated by a space |
| Pgrp.Render | pgrp.py:182-186 | the f-string: a newline, then title, summary and body, each behind eight spaces, with a blank line after the title and after the summary, and a last line holding only the indent |
| Pgrp.RenderLines | pgrp.py:182-186 | read line by line, a rendered article is an empty line, the indented title, a blank line, the indented summary, a blank line, the lines of the indented body, and the indent alone, when title and summary hold no newline |
| Pgrp.RenderStartsWithNewline | pgrp.py:182-186 | the rendered article starts with a newline and the eight-space indent |
| Pgrp.ArticleContent | pgrp.py:164-191 | a failed request gives `Erro ao processar a notícia.` and a non-200 status gives `Erro ao acessar a notícia.`; the result starts like a rendered article exactly when the page came back with status 200, and it is then the rendered `ExtractArticle` of the page |
| Pgrp.GetArticleContent | pgrp.py:164-191 | the procedure, with the body built by `ExtractTextOrdered`, returns what `ArticleContent` specifies |
| Pgrp.NotificationParses | pgrp.py:124-134 | the mail carries the subject `Novo comunicado da PGRP!` and the article text unchanged |
| Pgrp.SeenStore.constructor | pgrp.py:70-81 | a freshly created table has no rows |
| Pgrp.SeenStore.Load | pgrp.py:85-89 | the query gives the set of the rows, which has as many links as the table has rows since no link appears twice |
| Pgrp.SeenStore.Save | pgrp.py:94-100 | `INSERT OR IGNORE` keeps the rows distinct and keeps the old rows in place; the loaded set becomes the old set united with the new links; every appended row is a new link not present before; saving links that are all present changes nothing |
| Pgrp.SeenStore.InsertOrIgnore | pgrp.py:97 | one `INSERT OR IGNORE`: a link already in the table is skipped, a new one becomes the last row, and the rows stay distinct |
| Pgrp.NewLinks | pgrp.py:206 | the new links share nothing with the seen set, are among the current links, and adding them to the seen set is the same as adding all current links |
| Pgrp.NotifyStep | pgrp.py:210-213 | mailing one more link that was not yet mailed keeps every link mailed exactly once |
| Pgrp.OneMailPerLink | pgrp.py:210-213 | there are exactly as many mails as links to report |
| Pgrp.NotifyAll | pgrp.py:210-215 | the loop sends one mail per new link and nothing else, each one the mail for that link's article |
| Pgrp.MonitorNews | pgrp.py:193-219 | one run mails each link of the listing that is not in the table exactly once, each with its article; afterwards the table holds the old links and the listing's links, with no duplicate; with no new link the table is left as it was |
| Pgrp.RunTwice | pgrp.py:193-219 | a second run on an unchanged listing sends nothing |
| MonitorPgrp.LoadSeenLinks | monitor_pgrp.py:22-30 | a missing or empty file gives the empty set; each loaded link is non-empty and stripped; every non-blank line contributes its stripped text, and every loaded link is the stripped text of some line |
| MonitorPgrp.LastField | monitor_pgrp.py:37 | `split('=')[-1]` is the suffix after the last `=`: it holds no `=`, and when it is shorter than the link an `=` stands right before it |
| MonitorPgrp.SplitLast | monitor_pgrp.py:37 | the last piece of a split is a suffix; it is the whole text when there is one piece, and otherwise a separator stands right before it |
| MonitorPgrp.ValidLinks | monitor_pgrp.py:37 | a link is kept exactly when it holds an `=` and the part after its last `=` is a non-empty run of ASCII digits |
| MonitorPgrp.DecimalValueOfDigits | monitor_pgrp.py:40 | the sort key `int(...)` reads every number back from its decimal digits |
| MonitorPgrp.InsertPermutes | monitor_pgrp.py:38-42 | inserting adds exactly the one entry and loses none |
| MonitorPgrp.InsertKeepsOrder | monitor_pgrp.py:38-42 | inserting into a sequence ordered by non-increasing key keeps it ordered |
| MonitorPgrp.SortDescSpec | monitor_pgrp.py:38-42 | `sorted(..., reverse=True)` gives a permutation of its input in non-increasing key order |
| MonitorPgrp.InsertWithKey | monitor_pgrp.py:38-42 | inserting an entry changes no other key's run, and it goes in front of the entries with its own key |
| MonitorPgrp.SortIsStable | monitor_pgrp.py:38-42 | links with equal keys keep the order they had |
| MonitorPgrp.SortedLinks | monitor_pgrp.py:37-42 | the list `save_seen_links` writes: the valid links, sorted by the number after their last `=`, highest first |
| MonitorPgrp.SortedLinksOrdered | monitor_pgrp.py:37-42 | the written links are a permutation of the valid links (as a multiset) and are in non-increasing order of the number after their last `=` |
| MonitorPgrp.SortedLinksAreValid | monitor_pgrp.py:37-42 | the written links are exactly the valid links |
| MonitorPgrp.Serialize | monitor_pgrp.py:44-46 | the text the write loop produces: every link followed by a newline; it is empty exactly when there is no link, and otherwise ends with a newline |
| MonitorPgrp.SerializeAppend | monitor_pgrp.py:45-46 | writing two runs of links one after the other gives the text of the whole run |
| MonitorPgrp.SavedLines | monitor_pgrp.py:44-46 | when no link holds a line break (`\n` or `\r`), the lines of the written file are the links, then the empty piece after the final newline |
| MonitorPgrp.LoadSerialized | monitor_pgrp.py:25-46 | loading a written file gives back the set of its links, for non-empty links without line breaks or surrounding whitespace |
| MonitorPgrp.LoadAfterSave | monitor_pgrp.py:22-46 | the round trip through the file: when no valid link holds a line break or surrounding whitespace, loading what a save wrote gives exactly the valid links |
| MonitorPgrp.SeenFile.Save | monitor_pgrp.py:34-51 | an empty set leaves the file untouched; otherwise the file is overwritten with `Serialize(SortedLinks(...))`, the valid links one per line in the order `SortedLinksOrdered` states, and, when no valid link holds a line break or surrounding whitespace, loading it gives the valid links back |
| MonitorPgrp.FixUrl | monitor_pgrp.py:80-81 | the fixed URL starts with `http`; a URL that already does is unchanged; any other URL becomes `https://www.pgdporto.pt/` followed by it |
| MonitorPgrp.FixUrlIdempotent | monitor_pgrp.py:80-81 | fixing a fixed URL changes nothing |
| MonitorPgrp.ArticleText | monitor_pgrp.py:78-93 | a failed request gives `Erro ao processar a notícia.`, a non-200 status gives `Erro ao acessar a notícia.`, and a page without paragraphs gives the empty text |
| MonitorPgrp.GetArticleContent | monitor_pgrp.py:78-93 | the page is requested at the fixed URL, and the result is what `ArticleText` specifies for it |
| MonitorPgrp.NotificationParses | monitor_pgrp.py:55-66 | the mail carries the subject `Nova notícia detectada!` and the article text unchanged |

## Left out

- HTTP requests are not modelled: no `requests.get`, no SSL switch, no `urllib3` warnings. Each request is an input of type `Fetched`. In the model, a request that raises is `Failed`.
- HTML parsing by BeautifulSoup is not modelled. The page is the already-parsed `Node` tree, and comments and other special strings are not represented.
- SMTP sending is not modelled. A mail is the text handed to the relay, and the outbox is the result of `MonitorNews`. Sending swallows its own errors, so every new link is stored whether or not its mail went through.
- The Dropbox download and upload of the database are not modelled. They are remote I/O, and a database that does not exist yet is the empty `SeenStore`.
- SQLite connections, commits and file open/close are not modelled. The table is the `rows` field, and the file is the `text` field.
- `os.getenv` and `print` are not modelled. Sender and recipient are parameters.
- `load_seen_links_pgrp` returns a name that is never bound at pgrp.py:91, where it means `links` from pgrp.py:89. As written, that call raises `NameError`. `SeenStore.Load` models the intended query result instead.
- `IsDigit` covers only the ASCII digits. Python's `str.isdigit` also accepts other Unicode digits, and the model drops every link whose last field holds one. Decimal digits of other scripts (such as `'٣'`) are read by `int` as well, so Python keeps and sorts such a link. Digits that are not decimal (such as `'²'`) make `int` raise `ValueError` inside `sorted`, outside the `try`, so `save_seen_links` raises before the file is opened and the file keeps its old text.
- A file write that raises is not modelled. `save_seen_links` catches the exception and prints it, which would leave a partly written file.
- `get_article_content` in pgrp.py only fails through the request. Parsing and extraction cannot raise on a parsed tree, so `ArticleContent` gives `Erro ao processar a notícia.` only for `Failed`.
- In four places the code does something a reader might not expect, and the model follows the code:
  - Links are not normalised: the base URL is concatenated, and `urljoin` is never called.
  - In the article body, `p` children and bare strings are dropped.
  - All new links are persisted even when their mail fails.
  - `save_seen_links` keeps only the links that end in `=<digits>`, and an empty set leaves the file as it was.
