/**
 * The link-collection step of the crawler: classifying a page's anchor hrefs
 * as external or same-site by their common prefix with the page URL, writing
 * the external ones to the link file, and doing so for every URL of a list.
 */
module Crawler {
  import opened Wrappers
  import opened CommonPrefixes
  import opened Sink

  /**
   * The common prefixes that mark a link as external. Any longer common prefix
   * means the link shares part of the host name with the page.
   */
  const HttpPrefixes: seq<string> := ["http", "http://", "http://www.", "https://", "https://www."]

  /** Python's `s.startswith('http')`. */
  predicate StartsWithHttp(s: string)
  {
    "http" <= s
  }

  /**
   * The classification rule: `commonprefix([url, r]) in HTTP_PREFIXES`. Since
   * every one of the five prefixes starts with `http`, only an http page has
   * external links, and every external link is an http link.
   */
  predicate IsExternal(url: string, r: string)
    ensures IsExternal(url, r) ==> StartsWithHttp(url) && StartsWithHttp(r)
  {
    CommonPrefix(url, r) in HttpPrefixes
  }

  /**
   * The tests one anchor's href passes before it is written and kept. The
   * non-empty and `startswith('http')` tests never reject an external link.
   */
  predicate Keeps(url: string, href: Option<string>)
    ensures Keeps(url, href) <==> href.Some? && IsExternal(url, href.value)
  {
    href.Some? && href.value != "" && StartsWithHttp(href.value) && IsExternal(url, href.value)
  }

  /** The external links of a page, in document order, duplicates included. */
  function ExternalLinks(url: string, hrefs: seq<Option<string>>): (links: seq<string>)
    ensures |links| <= |hrefs|
    ensures forall x :: x in links ==> Some(x) in hrefs
  {
    if hrefs == [] then []
    else
      var n := |hrefs| - 1;
      ExternalLinks(url, hrefs[..n]) + (if Keeps(url, hrefs[n]) then [hrefs[n].value] else [])
  }

  /** The href values an anchor has and that are not empty, in document order. */
  function PresentHrefs(hrefs: seq<Option<string>>): seq<string>
  {
    if hrefs == [] then []
    else
      var n := |hrefs| - 1;
      PresentHrefs(hrefs[..n]) + (if hrefs[n].Some? && hrefs[n].value != "" then [hrefs[n].value] else [])
  }

  /** `xs` is `ys` with some elements left out and the rest in the same order. */
  predicate IsSubsequence<T(==)>(xs: seq<T>, ys: seq<T>)
    decreases |ys|
  {
    if xs == [] then true
    else if ys == [] then false
    else
      (xs[|xs| - 1] == ys[|ys| - 1] && IsSubsequence(xs[..|xs| - 1], ys[..|ys| - 1]))
      || IsSubsequence(xs, ys[..|ys| - 1])
  }

  // ---------------------------------------------------------------------------
  // The classification rule

  /**
   * A link is external exactly when the page URL and the link agree on one of
   * the five prefixes and part ways right after it.
   */
  lemma ExternalIff(url: string, r: string)
    ensures IsExternal(url, r) <==>
      exists k :: 0 <= k < |HttpPrefixes| && HttpPrefixes[k] <= url && HttpPrefixes[k] <= r
                  && DivergeAt(url, r, |HttpPrefixes[k]|)
  {
    var c := CommonPrefix(url, r);
    if c in HttpPrefixes {
      var k :| 0 <= k < |HttpPrefixes| && HttpPrefixes[k] == c;
      assert HttpPrefixes[k] <= url && HttpPrefixes[k] <= r && DivergeAt(url, r, |HttpPrefixes[k]|);
    }
    forall k | 0 <= k < |HttpPrefixes| && HttpPrefixes[k] <= url && HttpPrefixes[k] <= r
               && DivergeAt(url, r, |HttpPrefixes[k]|)
      ensures IsExternal(url, r)
    {
      CommonPrefixUnique(url, r, HttpPrefixes[k]);
    }
  }

  /** An https page and an http link (or the reverse) share just `http`: external. */
  lemma SchemeMismatchIsExternal(url: string, r: string)
    requires ("https://" <= url && "http://" <= r) || ("http://" <= url && "https://" <= r)
    ensures IsExternal(url, r)
  {
    assert url[4] != r[4];
    CommonPrefixUnique(url, r, "http");
  }

  /** Each of the five prefixes starts with `http` and is at most 12 characters long. */
  lemma HttpPrefixesShape()
    ensures forall k :: 0 <= k < |HttpPrefixes| ==>
      StartsWithHttp(HttpPrefixes[k]) && |HttpPrefixes[k]| <= |"https://www."|
  {
  }

  /** Sharing more than `https://www.` with the page makes a link same-site. */
  lemma LongSharedPrefixIsSameSite(url: string, r: string, p: string)
    requires p <= url && p <= r && |p| > |"https://www."|
    ensures !IsExternal(url, r)
  {
  }

  /**
   * Two hosts after `https://www.` that start with different characters are
   * external to each other.
   */
  lemma DifferentWwwHostsAreExternal(a: string, b: string)
    requires a != [] && b != [] && a[0] != b[0]
    ensures IsExternal("https://www." + a, "https://www." + b)
  {
    var url, r := "https://www." + a, "https://www." + b;
    assert url[12] == a[0] && r[12] == b[0];
    CommonPrefixUnique(url, r, "https://www.");
  }

  /**
   * The five prefixes are 4, 7, 8, 11 and 12 characters long, so strings
   * whose common prefix has any other length are same-site.
   */
  lemma SameSiteByPrefixLength(url: string, r: string, n: nat)
    requires n <= |url| && n <= |r| && url[..n] == r[..n] && DivergeAt(url, r, n)
    requires n !in {4, 7, 8, 11, 12}
    ensures !IsExternal(url, r)
  {
    CommonPrefixUnique(url, r, url[..n]);
  }

  /**
   * The rule looks at characters, not hosts: habr.com and hh.ru share
   * `https://h`, which is not one of the five prefixes, so hh.ru counts as the
   * same site as habr.com.
   */
  lemma HabrAndHhAreSameSite()
    ensures !IsExternal("https://habr.com/ru/post/337420/", "https://hh.ru/")
  {
    var url, r := "https://habr.com/ru/post/337420/", "https://hh.ru/";
    assert url[..9] == r[..9] && url[9] != r[9];
    SameSiteByPrefixLength(url, r, 9);
  }

  /** A link to the page itself is never external unless the URL is a bare prefix. */
  lemma SelfLinkIsSameSite(url: string)
    requires url !in HttpPrefixes
    ensures !IsExternal(url, url)
  {
    CommonPrefixOfSelf(url);
  }

  // ---------------------------------------------------------------------------
  // The links collected from one page

  /** Every collected link is an http link that the rule classifies as external. */
  lemma {:induction false} ExternalLinksSound(url: string, hrefs: seq<Option<string>>)
    ensures forall x :: x in ExternalLinks(url, hrefs) ==> StartsWithHttp(x) && IsExternal(url, x)
  {
    if hrefs != [] {
      ExternalLinksSound(url, hrefs[..|hrefs| - 1]);
    }
  }

  /** A string is collected exactly when some anchor has it as href and it is external. */
  lemma {:induction false} ExternalLinksMember(url: string, hrefs: seq<Option<string>>, x: string)
    ensures x in ExternalLinks(url, hrefs) <==> Some(x) in hrefs && IsExternal(url, x)
  {
    if hrefs != [] {
      var n := |hrefs| - 1;
      ExternalLinksMember(url, hrefs[..n], x);
      assert hrefs == hrefs[..n] + [hrefs[n]];
    }
  }

  /**
   * Duplicates are kept: an external link is collected once per anchor that
   * has it, anything else never.
   */
  lemma {:induction false} ExternalLinksCount(url: string, hrefs: seq<Option<string>>, x: string)
    ensures multiset(ExternalLinks(url, hrefs))[x] ==
      if IsExternal(url, x) then multiset(hrefs)[Some(x)] else 0
  {
    if hrefs != [] {
      var n := |hrefs| - 1;
      var pre, h := hrefs[..n], hrefs[n];
      var tail := if Keeps(url, h) then [h.value] else [];
      ExternalLinksCount(url, pre, x);
      assert hrefs == pre + [h];
      assert ExternalLinks(url, hrefs) == ExternalLinks(url, pre) + tail;
      assert multiset(ExternalLinks(url, hrefs)) == multiset(ExternalLinks(url, pre)) + multiset(tail);
      assert multiset(hrefs) == multiset(pre) + multiset{h};
      if h != Some(x) {
        assert multiset(tail)[x] == 0;
      }
    }
  }

  /** The collected links are the present hrefs with some left out, order unchanged. */
  lemma {:induction false} ExternalLinksSubsequence(url: string, hrefs: seq<Option<string>>)
    ensures IsSubsequence(ExternalLinks(url, hrefs), PresentHrefs(hrefs))
  {
    if hrefs != [] {
      var n := |hrefs| - 1;
      var xs, ys := ExternalLinks(url, hrefs[..n]), PresentHrefs(hrefs[..n]);
      ExternalLinksSubsequence(url, hrefs[..n]);
      if Keeps(url, hrefs[n]) {
        assert (xs + [hrefs[n].value])[..|xs|] == xs;
        assert (ys + [hrefs[n].value])[..|ys|] == ys;
      } else if hrefs[n].Some? && hrefs[n].value != "" {
        assert ExternalLinks(url, hrefs) == xs;
        assert PresentHrefs(hrefs) == ys + [hrefs[n].value];
        assert (ys + [hrefs[n].value])[..|ys|] == ys;
      } else {
        assert ExternalLinks(url, hrefs) == xs;
        assert PresentHrefs(hrefs) == ys;
      }
    }
  }

  /** Collecting from two runs of anchors is collecting from each, one after the other. */
  lemma {:induction false} ExternalLinksAppend(url: string, a: seq<Option<string>>, b: seq<Option<string>>)
    ensures ExternalLinks(url, a + b) == ExternalLinks(url, a) + ExternalLinks(url, b)
    decreases |b|
  {
    if b == [] {
      assert a + b == a;
    } else {
      var n := |b| - 1;
      assert (a + b)[..|a + b| - 1] == a + b[..n];
      ExternalLinksAppend(url, a, b[..n]);
    }
  }

  /** One more anchor adds its href exactly when the href is kept. */
  lemma ExternalLinksStep(url: string, hrefs: seq<Option<string>>, i: nat)
    requires i < |hrefs|
    ensures ExternalLinks(url, hrefs[..i + 1]) ==
      ExternalLinks(url, hrefs[..i]) + if Keeps(url, hrefs[i]) then [hrefs[i].value] else []
  {
    assert hrefs[..i + 1][..i] == hrefs[..i];
  }

  /** A page whose URL does not start with `http` yields no external links. */
  lemma NonHttpPageHasNoExternalLinks(url: string, hrefs: seq<Option<string>>)
    requires !StartsWithHttp(url)
    ensures ExternalLinks(url, hrefs) == []
  {
  }

  /** The page's own URL is never among its external links. */
  lemma PageUrlNeverCollected(url: string, hrefs: seq<Option<string>>)
    requires url !in HttpPrefixes
    ensures url !in ExternalLinks(url, hrefs)
  {
    ExternalLinksSound(url, hrefs);
    SelfLinkIsSameSite(url);
  }

  // ---------------------------------------------------------------------------
  // Fetching pages and writing the link file

  /** What the server sent back for one URL: its status and the pages's anchor hrefs. */
  datatype Response = Response(status: int, hrefs: seq<Option<string>>)

  /** What `parse_page` returns: the external links on a 200 page, `None` otherwise. */
  function PageLinks(url: string, response: Response): (result: Option<seq<string>>)
    ensures result.Some? <==> response.status == 200
    ensures result.Some? ==> |result.value| <= |response.hrefs|
  {
    if response.status == 200 then Some(ExternalLinks(url, response.hrefs)) else None
  }

  /** The links a `parse_page` result stands for: none when it is `None`. */
  function Collected(result: Option<seq<string>>): seq<string>
  {
    if result.Some? then result.value else []
  }

  /** The text that a run of `parse_page` calls with these results appends. */
  function WrittenText(results: seq<Option<seq<string>>>): string
  {
    if results == [] then []
    else WrittenText(results[..|results| - 1]) + Lines(Collected(results[|results| - 1]))
  }

  /** After a run's text, one more page's lines give the text of the longer run. */
  lemma WriteExtendsWrittenText(before: string, results: seq<Option<seq<string>>>, result: Option<seq<string>>)
    ensures before + WrittenText(results) + Lines(Collected(result)) == before + WrittenText(results + [result])
  {
    assert (results + [result])[..|results|] == results;
  }

  /**
   * `parse_page`: on status 200 walks the anchors, writes each external link
   * to the file as it is found and returns them all; on any other status
   * writes nothing and returns `None`.
   */
  method ParsePage(file: LinkFile, url: string, response: Response) returns (result: Option<seq<string>>)
    modifies file
    ensures result == PageLinks(url, response)
    ensures file.text == old(file.text) + Lines(Collected(result))
  {
    if response.status == 200 {
      var hrefs := response.hrefs;
      var externalLinks := [];
      for i := 0 to |hrefs|
        invariant externalLinks == ExternalLinks(url, hrefs[..i])
        invariant file.text == old(file.text) + Lines(externalLinks)
      {
        var link := hrefs[i];
        ExternalLinksStep(url, hrefs, i);
        if link.Some? && link.value != "" {
          var r := link.value;
          if StartsWithHttp(r) {
            var common := CommonPrefix(url, r);
            if common in HttpPrefixes {
              file.WriteLine(r);
              WriteExtendsLines(old(file.text), externalLinks, r);
              externalLinks := externalLinks + [r];
            }
          }
        }
      }
      assert hrefs[..|hrefs|] == hrefs;
      result := Some(externalLinks);
    } else {
      result := None;
    }
  }

  /** The list `parse_all_pages` returns: one `parse_page` result per URL. */
  function PageResults(urls: seq<string>, responses: seq<Response>): (results: seq<Option<seq<string>>>)
    requires |responses| == |urls|
    ensures |results| == |urls|
  {
    if urls == [] then []
    else
      var n := |urls| - 1;
      PageResults(urls[..n], responses[..n]) + [PageLinks(urls[n], responses[n])]
  }

  /** The result at position `i` is the `parse_page` result for the `i`-th URL. */
  lemma {:induction false} PageResultsAt(urls: seq<string>, responses: seq<Response>, i: nat)
    requires |responses| == |urls| && i < |urls|
    ensures PageResults(urls, responses)[i] == PageLinks(urls[i], responses[i])
  {
    var n := |urls| - 1;
    if i < n {
      PageResultsAt(urls[..n], responses[..n], i);
    }
  }

  /**
   * `parse_all_pages`: one `parse_page` result per URL, in the order of the
   * URLs, where `responses[i]` is what the server sent for `urls[i]`.
   */
  method ParseAllPages(file: LinkFile, urls: seq<string>, responses: seq<Response>)
    returns (results: seq<Option<seq<string>>>)
    requires |responses| == |urls|
    modifies file
    ensures results == PageResults(urls, responses)
    ensures |results| == |urls|
    ensures forall i :: 0 <= i < |urls| ==> results[i] == PageLinks(urls[i], responses[i])
    ensures file.text == old(file.text) + WrittenText(results)
  {
    results := [];
    for i := 0 to |urls|
      invariant results == PageResults(urls[..i], responses[..i])
      invariant file.text == old(file.text) + WrittenText(results)
    {
      var result := ParsePage(file, urls[i], responses[i]);
      WriteExtendsWrittenText(old(file.text), results, result);
      assert urls[..i + 1][..i] == urls[..i] && responses[..i + 1][..i] == responses[..i];
      results := results + [result];
    }
    assert urls[..|urls|] == urls && responses[..|urls|] == responses;
    forall i | 0 <= i < |urls|
      ensures results[i] == PageLinks(urls[i], responses[i])
    {
      PageResultsAt(urls, responses, i);
    }
  }

  /** All links of a run's results, page after page in URL order. */
  function AllCollected(results: seq<Option<seq<string>>>): seq<string>
  {
    if results == [] then []
    else AllCollected(results[..|results| - 1]) + Collected(results[|results| - 1])
  }

  /**
   * A run writes one line per collected link, pages in the order of their
   * URLs. That page order is the one of the sequential run modelled here;
   * with `asyncio.gather` lines of different pages may interleave.
   */
  lemma {:induction false} WrittenTextIsLines(results: seq<Option<seq<string>>>)
    ensures WrittenText(results) == Lines(AllCollected(results))
  {
    if results != [] {
      var n := |results| - 1;
      WrittenTextIsLines(results[..n]);
      LinesAppend(AllCollected(results[..n]), Collected(results[n]));
    }
  }

  /**
   * Reading the file back after a run gives the earlier lines followed by
   * exactly the collected links, each once, provided no link holds a newline
   * and the earlier content ends with a complete line. The links come page
   * by page in URL order in the sequential run modelled here; with
   * `asyncio.gather` only the lines of one page keep their relative order.
   */
  lemma RunReadsBack(before: string, results: seq<Option<seq<string>>>)
    requires EndsWithNewline(before)
    requires forall x :: x in AllCollected(results) ==> NoNewline(x)
    ensures SplitLines(before + WrittenText(results)) == SplitLines(before) + AllCollected(results)
  {
    WrittenTextIsLines(results);
    AppendedLinksReadBack(before, AllCollected(results));
  }

  /** A run in which no page answered 200 leaves the file as it was. */
  lemma {:induction false} NoOkPageWritesNothing(urls: seq<string>, responses: seq<Response>,
                                                 results: seq<Option<seq<string>>>)
    requires |responses| == |urls| == |results|
    requires forall i :: 0 <= i < |urls| ==> results[i] == PageLinks(urls[i], responses[i])
    requires forall i :: 0 <= i < |urls| ==> responses[i].status != 200
    ensures WrittenText(results) == []
  {
    if results != [] {
      var n := |results| - 1;
      NoOkPageWritesNothing(urls[..n], responses[..n], results[..n]);
    }
  }
}
