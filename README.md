# async_web_crawler: the link-collection step, in Dafny

The crawler fetches each URL of a list, and for every page that answers with
status 200 it walks the page's anchors in document order. An anchor's href is
kept when it is present, not empty, starts with `http`, and its longest common
prefix with the page URL (`os.path.commonprefix`) is one of the five strings
`http`, `http://`, `http://www.`, `https://`, `https://www.`. Each kept link
is appended, followed by a newline, to the file `external_links.txt` (opened
in append mode for every write) and to the list that `parse_page` returns.
`parse_page` returns `None` for any status other than 200. `parse_all_pages`
returns one such result per URL, in the order of the URLs.

The rule works on characters, not on host names. A link is "external" when it
parts from the page URL right after the scheme or after `www.`. So
`https://hh.ru/` counts as the same site as `https://habr.com/...` because they
share `https://h`. An `http://` link on an `https://` page counts as external
because they share only `http`. `crawler.py` has no depth loop, frontier,
visited set, failure handling or host-name comparison, and neither does the
model.

Files:

- `wrappers.dfy`: `Option`, standing for Python's `None`.
- `common_prefix.dfy`: `CommonPrefix`, `os.path.commonprefix` of two strings.
  It is proved to be a common prefix, to be the longest one, and to be unique.
- `sink.dfy`: the link file as a class `LinkFile` whose `text` only grows.
  `Lines` is the text a batch of writes appends. `SplitLines` reads the text
  back line by line, and a round trip is proved between the two.
- `crawler.dfy`: the classification rule (`IsExternal`, `Keeps`) and the
  function `ExternalLinks` that specifies one page's result. It also holds the
  imperative `ParsePage` (the href loop, writing as it goes) and
  `ParseAllPages` (one call per URL).

The network is an input. A `Response` carries the HTTP status and the page's
anchor hrefs in document order, with `None` for an anchor without `href`.
`ParseAllPages` takes one response per URL.

## Model

| member | source | states |
|---|---|---|
| CommonPrefixes.CommonPrefix | crawler.py:27 | the result is a prefix of both strings, and after it the strings end or differ |
| CommonPrefixes.CommonPrefixIsLongest | crawler.py:27 | every common prefix of the two strings is a prefix of the result |
| CommonPrefixes.CommonPrefixUnique | crawler.py:27 | a common prefix after which the strings diverge is the result |
| CommonPrefixes.CommonPrefixSymmetric | crawler.py:27 | the order of `url` and `r` in the list does not change the common prefix |
| CommonPrefixes.CommonPrefixOfSelf | crawler.py:27 | a string's common prefix with itself is the whole string |
| Crawler.HttpPrefixesShape | crawler.py:15 | each of the five prefixes in `HTTP_PREFIXES` starts with `http` and is at most 12 characters long |
| Crawler.IsExternal | crawler.py:27-28 | `commonprefix([url, r]) in HTTP_PREFIXES`; a link it accepts starts with `http`, and so does the page URL |
| Crawler.Keeps | crawler.py:24-28 | a href is kept exactly when it is present and external; the emptiness and `startswith('http')` tests never reject an external link |
| Crawler.ExternalIff | crawler.py:15-28 | a link is external exactly when it and the page URL share one of the five prefixes and diverge right after it |
| Crawler.SchemeMismatchIsExternal | crawler.py:15-28 | an `https://` page and an `http://` link, or the reverse, share only `http`, so the link is external |
| Crawler.LongSharedPrefixIsSameSite | crawler.py:15-28 | a link that shares more than 12 characters with the page URL is same-site |
| Crawler.DifferentWwwHostsAreExternal | crawler.py:15-28 | two `https://www.` URLs whose hosts start with different characters are external to each other |
| Crawler.SameSiteByPrefixLength | crawler.py:15-28 | two strings whose common prefix is not 4, 7, 8, 11 or 12 characters long are same-site |
| Crawler.HabrAndHhAreSameSite | crawler.py:27-28 | `https://hh.ru/` counts as same-site on the page `https://habr.com/ru/post/337420/` |
| Crawler.SelfLinkIsSameSite | crawler.py:27-28 | a link to the page URL itself is same-site unless the URL is one of the five prefixes |
| Crawler.ExternalLinks | crawler.py:22-32 | the links the href loop collects: never more than there are anchors, each one the href of some anchor |
| Crawler.ExternalLinksSound | crawler.py:22-32 | every collected link starts with `http` and is external |
| Crawler.ExternalLinksMember | crawler.py:22-32 | a string is collected exactly when some anchor's href equals it and it is external |
| Crawler.ExternalLinksCount | crawler.py:22-32 | an external link is collected as many times as anchors carry it, anything else zero times, so duplicates are kept |
| Crawler.ExternalLinksSubsequence | crawler.py:22-32 | the collected links are a subsequence of the present, non-empty hrefs, in document order |
| Crawler.ExternalLinksAppend | crawler.py:23-32 | collecting from two runs of anchors is collecting from each in turn |
| Crawler.NonHttpPageHasNoExternalLinks | crawler.py:26-28 | a page whose URL does not start with `http` yields no external link |
| Crawler.PageUrlNeverCollected | crawler.py:22-32 | the page's own URL is never among its collected links unless the URL is one of the five prefixes |
| Crawler.PageLinks | crawler.py:19-37 | the `parse_page` return value is a list exactly when the status is 200, and `None` otherwise; the list is no longer than the anchor list |
| Crawler.ParsePage | crawler.py:17-37 | on status 200 the result is `Some` of the page's external links and the file gained exactly their lines in order; otherwise `None` and the file is unchanged |
| Crawler.PageResults | crawler.py:47-48 | the list `parse_all_pages` returns has one entry per URL |
| Crawler.PageResultsAt | crawler.py:47-48 | entry `i` of that list is the `parse_page` result for URL `i` |
| Crawler.ParseAllPages | crawler.py:45-48 | one result per URL, each the `parse_page` result for that URL's response, in URL order; the file gained each page's lines |
| Crawler.WrittenTextIsLines | crawler.py:45-48 | the text a run appends is one line per collected link, pages in URL order in the sequential run modelled here |
| Crawler.RunReadsBack | crawler.py:31-42 | reading the file back after a run gives the earlier lines, then each collected link exactly once, pages in URL order in the sequential run modelled here |
| Crawler.NoOkPageWritesNothing | crawler.py:19-37 | a run in which no page answered 200 appends nothing |
| Sink.LinkFile.constructor | crawler.py:40 | the file opens with its earlier content; append mode clears nothing |
| Sink.LinkFile.WriteLine | crawler.py:39-42 | a write appends the link and a newline and keeps everything before it |
| Sink.Lines | crawler.py:39-42 | the text that writing a batch of links appends is at least one character per link and ends with a newline |
| Sink.LinesSnoc | crawler.py:39-42 | one more write extends the text by exactly that link's line |
| Sink.LinesAppend | crawler.py:39-42 | writing two batches in turn appends the same text as writing them as one batch |
| Sink.SplitLinesAppend | crawler.py:40-42 | the lines of text that ends with a complete line, followed by more text, are its own lines followed by the lines of the rest |
| Sink.SplitLinesOfLines | crawler.py:42 | written links without newlines read back as exactly those links, in order |
| Sink.AppendedLinksReadBack | crawler.py:39-42 | appending to content that ends with a complete line keeps every earlier line and adds one line per link |

## Left out

- The aiohttp session, its 15-second timeout and `client.get` (crawler.py:18, 46) are network I/O. The status and the anchor hrefs are inputs (`Response`).
- BeautifulSoup parsing (crawler.py:23) is a foreign library. Its output is the given sequence of `href` attributes, `None` where an anchor has none.
- Transport exceptions such as timeouts and connection errors propagate out of the code uncaught, so there is no recovery behaviour to model.
- Crawler.ParseAllPages: runs the per-URL calls one after another. `crawler.py` runs them concurrently with `asyncio.gather`, so lines from different pages may interleave in the file. The result list is in URL order either way. What the model states about cross-page line order holds only for the sequential run.
- Crawler.ParseAllPages: takes the responses as a sequence as long as the URL list, one per URL. The real network decides them.
- Sink.LinkFile: the file is its whole text. Opening and closing it, encodings and write atomicity are not modelled.
- CommonPrefixes.CommonPrefix: models `os.path.commonprefix` only for the two-element list the crawler passes, not for lists of any length.
- Logging calls, the file name constant and `main` with its hard-coded seed URL (crawler.py:11-14, 51-57) are plumbing.
- `crawler.py` has no depth loop, frontier, visited set, failure handling or host-name comparison, so the model has none either.
- A link that contains a newline splits into two lines when the file is read back. `RunReadsBack`, `AppendedLinksReadBack` and `SplitLinesOfLines` therefore require links without newlines.
- Text written after earlier content that does not end with a newline joins that content's last line. `RunReadsBack`, `AppendedLinksReadBack` and `SplitLinesAppend` therefore require the earlier content to end with a complete line.
