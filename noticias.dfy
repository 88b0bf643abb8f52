/**
 * extracao_noticias.py, the search half: the Google result page fetched
 * once, the parser that takes every anchor of the page, and the article
 * fetch loop that keeps failures as blank entries and drops blocked sites
 * only when their request succeeded.
 */
module Noticias {
  import opened Wrappers
  import opened Text
  import opened Url
  import opened Blocking
  import opened Links

  /** A result page: the `href` of every anchor that has one, in document order. */
  type ResultPage = Html<string>

  /** `main` asks for this many links. */
  const NumLinks := 20

  /**
   * `obter_resultados_pesquisa_google`: the body of a 200 reply, otherwise
   * nothing (a request error and any other status both give `None`).
   */
  function ResultsHtml(response: Fetch<ResultPage>): (r: ResultPage)
    ensures response.Reply? && response.status == 200 ==> r == response.body
    ensures !(response.Reply? && response.status == 200) ==> r == Blank
  {
    if response.Reply? && response.status == 200 then response.body else Blank
  }

  /** Every anchor is a candidate. */
  function Candidates(hrefs: seq<string>): (r: seq<Option<string>>)
    ensures |r| == |hrefs|
    ensures forall i :: 0 <= i < |hrefs| ==> r[i] == Some(hrefs[i])
  {
    seq(|hrefs|, i requires 0 <= i < |hrefs| => Some(hrefs[i]))
  }

  /** The links `parsear_html_resultados_pesquisa` returns for a page, as a set. */
  function ParsedSet(html: ResultPage, numLinks: int): set<string> {
    if html.Blank? then {} else FirstWebLinks(Candidates(html.items), numLinks)
  }

  /** `parsear_html_resultados_pesquisa(html_content, num_links)`. */
  method ParseResults(html: ResultPage, numLinks: int) returns (links: seq<string>)
    ensures html.Blank? ==> links == []
    ensures Distinct(links)
    ensures Elems(links) == ParsedSet(html, numLinks)
    ensures forall u :: u in links ==> IsWebUrl(u)
    ensures |links| <= if numLinks < 0 then 0 else numLinks
  {
    if html.Blank? {
      return [];
    }
    links := CollectWebLinks(Candidates(html.items), numLinks);
  }

  /** A parsed page holds only http and https links among the page's anchors. */
  lemma ParsedSetMembers(html: ResultPage, numLinks: int)
    ensures forall u :: u in ParsedSet(html, numLinks) ==> IsWebUrl(u) && html.Doc? && u in html.items
  {
    if html.Doc? {
      var cands := Candidates(html.items);
      FirstWebLinksMembers(cands, numLinks);
      forall u | u in ParsedSet(html, numLinks) ensures u in html.items {
        var i :| 0 <= i < |cands| && cands[i] == Some(u);
      }
    }
  }

  /** When every anchor is an http or https link, the web links are the anchors themselves. */
  lemma {:induction false} AllWeb(hrefs: seq<string>)
    requires forall u :: u in hrefs ==> IsWebUrl(u)
    ensures WebLinks(Candidates(hrefs)) == hrefs
    decreases |hrefs|
  {
    if hrefs != [] {
      var init := hrefs[..|hrefs| - 1];
      AllWeb(init);
      assert Candidates(hrefs)[..|hrefs| - 1] == Candidates(init);
    }
  }

  /**
   * Below the limit nothing is lost: a page of at most `numLinks` web
   * anchors gives back exactly its set of links.
   */
  lemma FewLinksAllKept(hrefs: seq<string>, numLinks: int)
    requires forall u :: u in hrefs ==> IsWebUrl(u)
    requires |hrefs| <= numLinks
    ensures ParsedSet(Doc(hrefs), numLinks) == Elems(hrefs)
  {
    AllWeb(hrefs);
    assert Take(hrefs, numLinks) == hrefs;
  }

  /**
   * What one link of `extrair_conteudo_links` gives.  Every link is
   * requested; an exception gives a blank entry whatever the site, and a
   * reply, of any status, gives its text unless the link names a blocked
   * site, in which case the link is dropped.
   */
  function Entry(link: string, response: Fetch<string>): Option<Article> {
    match response
    case Raised => Some(Article(link, ""))
    case Reply(_, text) => if IsLegacyBlockedSite(link) then None else Some(Article(link, text))
  }

  /**
   * The site test applies only to requests that succeeded: a failed
   * request is always kept, blank; a reply is kept with its text, untouched
   * and whatever its status, exactly when the site is not blocked.
   */
  lemma EntryRule(link: string, response: Fetch<string>)
    ensures response.Raised? ==> Entry(link, response) == Some(Article(link, ""))
    ensures response.Reply? ==> (Entry(link, response).None? <==> IsLegacyBlockedSite(link))
    ensures response.Reply? && Entry(link, response).Some? ==> Entry(link, response).value == Article(link, response.body)
    ensures Entry(link, response).Some? ==> Entry(link, response).value.link == link
  {
  }

  /** A blocked site whose request fails still appears, with blank content. */
  lemma BlockedFailureKept()
    ensures Entry("https://youtube.com/watch", Raised) == Some(Article("https://youtube.com/watch", ""))
    ensures Entry("https://youtube.com/watch", Reply(200, "video")) == None
  {
    var link := "https://youtube.com/watch";
    ContainsAt(link, LegacyBlockedSites[1], 8);
  }

  function Opt(e: Option<Article>): seq<Article> {
    if e.Some? then [e.value] else []
  }

  /** The list `extrair_conteudo_links` builds: the entries of the links, in order. */
  function Extracted(links: seq<string>, fetch: string -> Fetch<string>): seq<Article>
    decreases |links|
  {
    if links == [] then []
    else
      var last := links[|links| - 1];
      Extracted(links[..|links| - 1], fetch) + Opt(Entry(last, fetch(last)))
  }

  /** The articles keep the order of their links: those links are a subsequence of the input. */
  lemma {:induction false} ExtractedOrder(links: seq<string>, fetch: string -> Fetch<string>)
    ensures IsSubsequence(LinksOf(Extracted(links, fetch)), links)
    decreases |links|
  {
    if links != [] {
      var init := links[..|links| - 1];
      var last := links[|links| - 1];
      ExtractedOrder(init, fetch);
      var before := Extracted(init, fetch);
      var out := Extracted(links, fetch);
      assert LinksOf(out)[..|before|] == LinksOf(before);
      if Entry(last, fetch(last)).Some? {
        assert LinksOf(out)[|LinksOf(out)| - 1] == last;
      } else {
        assert out == before;
      }
    }
  }

  /**
   * Only successful replies from blocked sites are dropped: the number of
   * articles is the number of links minus those.
   */
  lemma {:induction false} ExtractedCount(links: seq<string>, fetch: string -> Fetch<string>)
    ensures |Extracted(links, fetch)| == |links| - |Dropped(links, fetch)|
    decreases |links|
  {
    if links != [] {
      ExtractedCount(links[..|links| - 1], fetch);
    }
  }

  /** The links whose request succeeded and whose site is blocked, in order. */
  function Dropped(links: seq<string>, fetch: string -> Fetch<string>): (r: seq<string>)
    ensures |r| <= |links|
    decreases |links|
  {
    if links == [] then []
    else
      var last := links[|links| - 1];
      Dropped(links[..|links| - 1], fetch) + (if fetch(last).Reply? && IsLegacyBlockedSite(last) then [last] else [])
  }

  /** An article is in the output exactly when an input link gives it as its entry. */
  lemma {:induction false} ExtractedMembers(links: seq<string>, fetch: string -> Fetch<string>)
    ensures forall a :: a in Extracted(links, fetch) <==> a.link in links && Entry(a.link, fetch(a.link)) == Some(a)
    decreases |links|
  {
    if links != [] {
      var init := links[..|links| - 1];
      var last := links[|links| - 1];
      ExtractedMembers(init, fetch);
      var e := Entry(last, fetch(last));
      var before := Extracted(init, fetch);
      assert Extracted(links, fetch) == before + Opt(e);
      assert links == init + [last];
      forall a ensures a in Extracted(links, fetch) <==> a.link in links && Entry(a.link, fetch(a.link)) == Some(a) {
        assert a in Extracted(links, fetch) <==> a in before || (e.Some? && a == e.value);
        assert a.link in links <==> a.link in init || a.link == last;
      }
    }
  }

  /** The body of the loop of `extrair_conteudo_links` for one link. */
  method ExtractOne(link: string, fetch: string -> Fetch<string>) returns (entry: Option<Article>)
    ensures entry == Entry(link, fetch(link))
  {
    match fetch(link) {
      case Raised =>
        entry := Some(Article(link, ""));
      case Reply(_, conteudoArtigo) =>
        if !IsLegacyBlockedSite(link) {
          entry := Some(Article(link, conteudoArtigo));
        } else {
          entry := None;
        }
    }
  }

  /**
   * `extrair_conteudo_links(links)`; `fetch` stands for the GET issued for
   * every link, its body for the text of the page's `p`, `div`, `span`,
   * `article` and `section` elements joined by spaces.
   */
  method ExtractArticles(links: seq<string>, fetch: string -> Fetch<string>) returns (artigos: seq<Article>)
    ensures artigos == Extracted(links, fetch)
  {
    artigos := [];
    for i := 0 to |links|
      invariant artigos == Extracted(links[..i], fetch)
    {
      var entry := ExtractOne(links[i], fetch);
      assert links[..i + 1][..i] == links[..i];
      if entry.Some? {
        artigos := artigos + [entry.value];
      }
    }
    assert links[..|links|] == links;
  }
}
